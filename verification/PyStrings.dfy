/** The Python string operations the modelled code relies on, with the laws its proofs need. */
module PyStrings {
  import opened Prelude

  // ----- lower case -----

  function LowerChar(c: char): char {
    if 'A' <= c <= 'Z' then (c as int + 32) as char else c
  }

  /** `lower()`, on ASCII letters. */
  function Lower(s: string): string {
    seq(|s|, i requires 0 <= i < |s| => LowerChar(s[i]))
  }

  /** Lower-casing turns 'A'..'Z' into 'a'..'z' and keeps every other character, place by place. */
  lemma LowerMeaning(s: string, i: nat)
    requires i < |s|
    ensures |Lower(s)| == |s|
    ensures 'A' <= s[i] <= 'Z' ==> 'a' <= Lower(s)[i] <= 'z' && Lower(s)[i] - 'a' == s[i] - 'A'
    ensures !('A' <= s[i] <= 'Z') ==> Lower(s)[i] == s[i]
  {
  }

  // ----- runs of characters -----

  function Pending(run: string): seq<string> {
    if run == "" then [] else [run]
  }

  /** The maximal runs of characters that `keep` accepts, `run` being the one in progress. */
  function Runs(s: string, keep: char -> bool, run: string): seq<string>
    decreases |s|
  {
    if s == "" then Pending(run)
    else if keep(s[0]) then Runs(s[1..], keep, run + [s[0]])
    else Pending(run) + Runs(s[1..], keep, "")
  }

  /** A text of accepted characters only is one run. */
  lemma {:induction false} RunsWhole(s: string, keep: char -> bool, run: string)
    requires forall c :: c in s ==> keep(c)
    ensures Runs(s, keep, run) == Pending(run + s)
    decreases |s|
  {
    if s == "" {
      assert run + s == run;
    } else {
      RunsWhole(s[1..], keep, run + [s[0]]);
      assert run + [s[0]] + s[1..] == run + s;
    }
  }

  /** Any other character ends a run; with RunsWhole this says what the runs of every text are. */
  lemma {:induction false} RunsCut(a: string, x: char, b: string, keep: char -> bool, run: string)
    requires !keep(x)
    ensures Runs(a + [x] + b, keep, run) == Runs(a, keep, run) + Runs(b, keep, "")
    decreases |a|
  {
    var s := a + [x] + b;
    if a == "" {
      assert s[1..] == b;
    } else {
      assert s[1..] == a[1..] + [x] + b;
      if keep(a[0]) {
        RunsCut(a[1..], x, b, keep, run + [a[0]]);
      } else {
        RunsCut(a[1..], x, b, keep, "");
        ConcatAssoc(Pending(run), Runs(a[1..], keep, ""), Runs(b, keep, ""));
      }
    }
  }

  lemma {:induction false} RunsAreRuns(s: string, keep: char -> bool, run: string)
    requires forall c :: c in run ==> keep(c)
    ensures forall r :: r in Runs(s, keep, run) ==> r != "" && forall c :: c in r ==> keep(c)
    decreases |s|
  {
    if s != "" {
      if keep(s[0]) {
        RunsAreRuns(s[1..], keep, run + [s[0]]);
      } else {
        RunsAreRuns(s[1..], keep, "");
      }
    }
  }

  /** Characters that `keep` rejects in front make no difference. */
  lemma {:induction false} RunsSkip(junk: string, s: string, keep: char -> bool)
    requires forall c :: c in junk ==> !keep(c)
    ensures Runs(junk + s, keep, "") == Runs(s, keep, "")
    decreases |junk|
  {
    if junk == "" {
      assert junk + s == s;
    } else {
      assert (junk + s)[1..] == junk[1..] + s;
      RunsSkip(junk[1..], s, keep);
    }
  }

  /** One run, what ends it, and the rest. */
  lemma RunsStep(run: string, gap: string, rest: string, keep: char -> bool)
    requires run != "" && (forall c :: c in run ==> keep(c))
    requires gap != "" && forall c :: c in gap ==> !keep(c)
    ensures Runs(run + gap + rest, keep, "") == [run] + Runs(rest, keep, "")
  {
    assert run + gap + rest == run + [gap[0]] + (gap[1..] + rest);
    RunsCut(run, gap[0], gap[1..] + rest, keep, "");
    RunsWhole(run, keep, "");
    assert "" + run == run;
    RunsSkip(gap[1..], rest, keep);
  }

  /** Nor do they behind. */
  lemma {:induction false} RunsBehind(s: string, junk: string, keep: char -> bool)
    requires forall c :: c in junk ==> !keep(c)
    ensures Runs(s + junk, keep, "") == Runs(s, keep, "")
    decreases |junk|
  {
    if junk == "" {
      assert s + junk == s;
    } else {
      var n := |junk| - 1;
      assert s + junk == s + junk[..n] + [junk[n]] + "";
      RunsCut(s + junk[..n], junk[n], "", keep, "");
      RunsBehind(s, junk[..n], keep);
    }
  }

  // ----- joining and splitting -----

  function Join(parts: seq<string>, sep: string): string {
    if parts == [] then "" else if |parts| == 1 then parts[0] else parts[0] + sep + Join(parts[1..], sep)
  }

  /** `s.split(c)` for a one-character separator: always at least one part. */
  function SplitOn(s: string, c: char): (parts: seq<string>)
    ensures parts != []
  {
    if s == "" then [""]
    else
      var rest := SplitOn(s[1..], c);
      if s[0] == c then [""] + rest else [[s[0]] + rest[0]] + rest[1..]
  }

  lemma {:induction false} SplitHead(a: string, c: char, rest: string)
    requires c !in a
    ensures SplitOn(a, c) == [a]
    ensures SplitOn(a + [c] + rest, c) == [a] + SplitOn(rest, c)
    decreases |a|
  {
    var s := a + [c] + rest;
    if a == "" {
      assert s[1..] == rest;
    } else {
      SplitHead(a[1..], c, rest);
      assert s[1..] == a[1..] + [c] + rest;
      assert [a[0]] + a[1..] == a;
    }
  }

  /** Splitting undoes joining when no part contains the separator. */
  lemma {:induction false} SplitJoin(parts: seq<string>, c: char)
    requires parts != [] && forall p :: p in parts ==> c !in p
    ensures SplitOn(Join(parts, [c]), c) == parts
    decreases |parts|
  {
    if |parts| == 1 {
      SplitHead(parts[0], c, "");
    } else {
      var rest := Join(parts[1..], [c]);
      SplitJoin(parts[1..], c);
      assert Join(parts, [c]) == parts[0] + [c] + rest;
      SplitHead(parts[0], c, rest);
      assert parts == [parts[0]] + parts[1..];
    }
  }

  lemma SeparatorUnique(a: string, b: string, x: string, y: string, c: char)
    requires c !in a && c !in x && a + [c] + b == x + [c] + y
    ensures a == x && b == y
  {
    SplitHead(a, c, b);
    SplitHead(x, c, y);
    var s := a + [c] + b;
    assert SplitOn(s, c)[0] == a && SplitOn(s, c)[0] == x;
    assert s[|a| + 1..] == b && s[|x| + 1..] == y;
  }

  // ----- decimal numerals -----

  function Digit(d: nat): char
    requires d < 10
  {
    "0123456789"[d]
  }

  function Dec(n: nat): (s: string)
    ensures s != "" && forall c :: c in s ==> '0' <= c <= '9'
  {
    if n < 10 then [Digit(n)] else Dec(n / 10) + [Digit(n % 10)]
  }

  lemma DecLength(n: nat)
    ensures |Dec(n)| == 1 <==> n < 10
  {
  }

  lemma {:induction false} DecInjective(a: nat, b: nat)
    requires Dec(a) == Dec(b)
    ensures a == b
    decreases a
  {
    var s := Dec(a);
    assert s[|s| - 1] == Digit(a % 10) == Digit(b % 10);
    DecLength(a);
    DecLength(b);
    if a >= 10 && b >= 10 {
      assert Dec(a / 10) == s[..|s| - 1] == Dec(b / 10);
      DecInjective(a / 10, b / 10);
    }
  }

  function DigitValue(c: char): nat {
    if '0' <= c <= '9' then (c as int) - ('0' as int) else 0
  }

  /** What a decimal numeral stands for. */
  function ValueOf(s: string): nat {
    if s == "" then 0 else 10 * ValueOf(s[..|s| - 1]) + DigitValue(s[|s| - 1])
  }

  lemma DigitBack(d: nat)
    requires d < 10
    ensures DigitValue(Digit(d)) == d && (d > 0 ==> Digit(d) != '0')
  {
  }

  lemma ValueLast(front: string, c: char)
    ensures ValueOf(front + [c]) == 10 * ValueOf(front) + DigitValue(c)
  {
    assert (front + [c])[..|front|] == front;
  }

  /** The numeral of a number stands for it and has no leading zero. */
  lemma {:induction false} DecMeaning(n: nat)
    ensures ValueOf(Dec(n)) == n && (n > 0 ==> Dec(n)[0] != '0')
    decreases n
  {
    DigitBack(n % 10);
    if n < 10 {
      ValueLast("", Digit(n));
      assert "" + [Digit(n)] == [Digit(n)];
    } else {
      DecMeaning(n / 10);
      ValueLast(Dec(n / 10), Digit(n % 10));
    }
  }

  // ----- trimming -----

  /** White space, for str.strip and for \s in a pattern. */
  predicate IsSpace(c: char) {
    var n := c as int;
    9 <= n <= 13 || 28 <= n <= 32 || n == 0x85 || n == 0xA0 || n == 0x1680 || 0x2000 <= n <= 0x200A
    || n == 0x2028 || n == 0x2029 || n == 0x202F || n == 0x205F || n == 0x3000
  }

  function TrimLeft(s: string, p: char -> bool): string {
    if s == "" then "" else if p(s[0]) then TrimLeft(s[1..], p) else s
  }

  function TrimRight(s: string, p: char -> bool): string {
    if s == "" then "" else if p(s[|s| - 1]) then TrimRight(s[..|s| - 1], p) else s
  }

  /** `s.strip(...)` for the characters satisfying `p`. */
  function Trim(s: string, p: char -> bool): string {
    TrimRight(TrimLeft(s, p), p)
  }

  function Strip(s: string): string {
    Trim(s, IsSpace)
  }

  predicate Trimmed(s: string, p: char -> bool) {
    s == "" || (!p(s[0]) && !p(s[|s| - 1]))
  }

  lemma {:induction false} TrimLeftSuffix(s: string, p: char -> bool) returns (k: nat)
    ensures k <= |s| && TrimLeft(s, p) == s[k..]
    ensures k < |s| ==> !p(s[k])
    decreases |s|
  {
    if s != "" && p(s[0]) {
      var j := TrimLeftSuffix(s[1..], p);
      k := j + 1;
    } else {
      k := 0;
    }
  }

  lemma {:induction false} TrimRightPrefix(s: string, p: char -> bool) returns (k: nat)
    ensures k <= |s| && TrimRight(s, p) == s[..k]
    ensures 0 < k ==> !p(s[k - 1])
    decreases |s|
  {
    if s != "" && p(s[|s| - 1]) {
      k := TrimRightPrefix(s[..|s| - 1], p);
      assert s[..|s| - 1][..k] == s[..k];
    } else {
      k := |s|;
    }
  }

  /** Trimming yields a slice with nothing left to trim. */
  lemma TrimIsSlice(s: string, p: char -> bool) returns (a: nat, b: nat)
    ensures a <= b <= |s| && Trim(s, p) == s[a..b] && Trimmed(Trim(s, p), p)
  {
    a := TrimLeftSuffix(s, p);
    var k := TrimRightPrefix(s[a..], p);
    b := a + k;
    assert s[a..][..k] == s[a..b];
    if k > 0 { assert s[a..b][0] == s[a] && s[a..b][k - 1] == s[a..][k - 1]; }
  }

  ghost predicate All(s: string, p: char -> bool) {
    forall c :: c in s ==> p(c)
  }

  lemma {:induction false} TrimLeftParts(s: string, p: char -> bool) returns (l: string)
    ensures s == l + TrimLeft(s, p) && All(l, p)
    ensures TrimLeft(s, p) == "" || !p(TrimLeft(s, p)[0])
    decreases |s|
  {
    l := "";
    if s != "" && p(s[0]) {
      var m := TrimLeftParts(s[1..], p);
      l := [s[0]] + m;
      assert s == [s[0]] + (m + TrimLeft(s[1..], p));
    } else {
      assert "" + s == s;
    }
  }

  lemma {:induction false} TrimRightParts(s: string, p: char -> bool) returns (r: string)
    ensures s == TrimRight(s, p) + r && All(r, p)
    ensures TrimRight(s, p) == "" || !p(TrimRight(s, p)[|TrimRight(s, p)| - 1])
    decreases |s|
  {
    r := "";
    if s != "" && p(s[|s| - 1]) {
      var front := s[..|s| - 1];
      var m := TrimRightParts(front, p);
      r := m + [s[|s| - 1]];
      assert s == front + [s[|s| - 1]];
    } else {
      assert s + "" == s;
    }
  }

  /** What `strip` takes away are padding characters only, at both ends, and all of them. */
  lemma TrimParts(s: string, p: char -> bool) returns (l: string, r: string)
    ensures s == l + Trim(s, p) + r && All(l, p) && All(r, p) && Trimmed(Trim(s, p), p)
  {
    l := TrimLeftParts(s, p);
    r := TrimRightParts(TrimLeft(s, p), p);
    var a, b := TrimIsSlice(s, p);
    assert l + (Trim(s, p) + r) == l + Trim(s, p) + r;
  }

  /** Stripping keeps every character that is not padding. */
  lemma TrimKeeps(s: string, p: char -> bool, c: char)
    requires !p(c)
    ensures c in Trim(s, p) <==> c in s
  {
    var l, r := TrimParts(s, p);
    assert c in l + Trim(s, p) + r <==> c in l || c in Trim(s, p) || c in r;
  }

  /** Nothing is left of a text exactly when it is all white space. */
  lemma BlankIff(s: string)
    ensures Strip(s) == "" <==> All(s, IsSpace)
  {
    var l, r := TrimParts(s, IsSpace);
    if Strip(s) == "" {
      assert s == l + r;
    } else {
      var c := Strip(s)[0];
      TrimKeeps(s, IsSpace, c);
    }
  }

  lemma {:induction false} TrimLeftAll(l: string, s: string, p: char -> bool)
    requires forall c :: c in l ==> p(c)
    requires s == "" || !p(s[0])
    ensures TrimLeft(l + s, p) == s
    decreases |l|
  {
    if l == "" {
      assert l + s == s;
    } else {
      assert (l + s)[1..] == l[1..] + s;
      TrimLeftAll(l[1..], s, p);
    }
  }

  lemma {:induction false} TrimRightAll(s: string, r: string, p: char -> bool)
    requires forall c :: c in r ==> p(c)
    requires s == "" || !p(s[|s| - 1])
    ensures TrimRight(s + r, p) == s
    decreases |r|
  {
    if r == "" {
      assert s + r == s;
    } else {
      assert (s + r)[..|s + r| - 1] == s + r[..|r| - 1];
      TrimRightAll(s, r[..|r| - 1], p);
    }
  }

  /** Trimming removes any padding around a trimmed text. */
  lemma TrimPadded(l: string, s: string, r: string, p: char -> bool)
    requires forall c :: c in l + r ==> p(c)
    requires Trimmed(s, p)
    ensures Trim(l + s + r, p) == s
  {
    assert forall c :: c in l ==> c in l + r;
    assert forall c :: c in r ==> c in l + r;
    if s == "" {
      assert l + s + r == (l + r) + "";
      TrimLeftAll(l + r, "", p);
    } else {
      assert l + s + r == l + (s + r);
      TrimLeftAll(l, s + r, p);
      TrimRightAll(s, r, p);
    }
  }

  // ----- lines -----

  /** The characters at which str.splitlines cuts. */
  predicate IsBreak(c: char) {
    var n := c as int;
    10 <= n <= 13 || 28 <= n <= 30 || n == 0x85 || n == 0x2028 || n == 0x2029
  }

  predicate OneLine(s: string) {
    forall c :: c in s ==> !IsBreak(c)
  }

  /** Length of the prefix before the first break. */
  function LineLength(s: string): (n: nat)
    ensures n <= |s| && OneLine(s[..n]) && (n < |s| ==> IsBreak(s[n]))
  {
    if s == "" || IsBreak(s[0]) then 0
    else
      var m := LineLength(s[1..]);
      assert s[..m + 1] == [s[0]] + s[1..][..m];
      m + 1
  }

  /** How many characters the break at the front of `s` takes: "\r\n" counts as one break. */
  function BreakLength(s: string): (n: nat)
    requires s != ""
    ensures 1 <= n <= |s|
  {
    if |s| >= 2 && s[0] == '\r' && s[1] == '\n' then 2 else 1
  }

  function SplitLines(s: string): seq<string>
    decreases |s|
  {
    if s == "" then []
    else
      var n := LineLength(s);
      if n == |s| then [s] else [s[..n]] + SplitLines(s[n..][BreakLength(s[n..])..])
  }

  lemma {:induction false} LineLengthAt(a: string, rest: string)
    requires OneLine(a) && rest != "" && IsBreak(rest[0])
    ensures LineLength(a + rest) == |a|
    decreases |a|
  {
    if a == "" {
      assert a + rest == rest;
    } else {
      assert (a + rest)[1..] == a[1..] + rest;
      LineLengthAt(a[1..], rest);
    }
  }

  lemma SplitLinesCons(a: string, rest: string)
    requires OneLine(a)
    ensures SplitLines(a + "\n" + rest) == [a] + SplitLines(rest)
  {
    var s := a + "\n" + rest;
    assert s == a + ("\n" + rest);
    LineLengthAt(a, "\n" + rest);
    assert s[|a|..] == "\n" + rest && s[..|a|] == a;
    assert ("\n" + rest)[1..] == rest;
  }

  /** A line break is one of the break characters, or "\r\n" together. */
  predicate IsLineBreak(br: string, rest: string) {
    br == "\r\n" || (|br| == 1 && IsBreak(br[0]) && !(br == "\r" && "\n" <= rest))
  }

  /** A line ends at its first break, whatever break it is; with SplitLinesLast this says what the lines of
      every text are. */
  lemma SplitLinesAt(a: string, br: string, rest: string)
    requires OneLine(a) && IsLineBreak(br, rest)
    ensures SplitLines(a + br + rest) == [a] + SplitLines(rest)
  {
    var s, tail := a + br + rest, br + rest;
    assert s == a + tail;
    LineLengthAt(a, tail);
    assert s[|a|..] == tail && s[..|a|] == a && tail[|br|..] == rest;
    assert BreakLength(tail) == |br|;
  }

  lemma SplitLinesLast(a: string)
    requires OneLine(a)
    ensures SplitLines(a) == if a == "" then [] else [a]
  {
    assert forall i :: 0 <= i < |a| ==> a[i] in a;
  }

  lemma {:induction false} SplitLinesOneLine(s: string)
    ensures forall l :: l in SplitLines(s) ==> OneLine(l)
    decreases |s|
  {
    if s != "" {
      var n := LineLength(s);
      if n == |s| {
        assert s[..n] == s;
      } else {
        SplitLinesOneLine(s[n..][BreakLength(s[n..])..]);
      }
    }
  }

  /** Lines, each followed by a newline, in front of `rest`. */
  function Glue(lines: seq<string>, rest: string): string {
    if lines == [] then rest else lines[0] + "\n" + Glue(lines[1..], rest)
  }

  lemma {:induction false} SplitGlue(lines: seq<string>, rest: string)
    requires forall l :: l in lines ==> OneLine(l)
    ensures SplitLines(Glue(lines, rest)) == lines + SplitLines(rest)
    decreases |lines|
  {
    if lines != [] {
      SplitGlue(lines[1..], rest);
      SplitLinesCons(lines[0], Glue(lines[1..], rest));
      ConcatAssoc([lines[0]], lines[1..], SplitLines(rest));
      assert lines == [lines[0]] + lines[1..];
    }
  }

  /** Only newlines as breaks, and none at the end. */
  predicate CleanText(s: string) {
    (forall c :: c in s ==> IsBreak(c) ==> c == '\n') && (s == "" || s[|s| - 1] != '\n')
  }

  lemma LastBreakDirty(a: string, tail: string)
    requires tail != "" && IsBreak(tail[0]) && BreakLength(tail) == |tail|
    ensures !CleanText(a + tail)
  {
  }

  lemma CleanCons(a: string, rest: string)
    requires OneLine(a) && rest != ""
    ensures CleanText(a + ("\n" + rest)) <==> CleanText(rest)
  {
  }

  lemma FirstLineIff(a: string, tail: string, rest: string, joined: string)
    requires OneLine(a) && tail != "" && IsBreak(tail[0])
    requires rest == tail[BreakLength(tail)..] && rest != "" && (joined == rest <==> CleanText(rest))
    ensures a + ("\n" + joined) == a + tail <==> CleanText(a + tail)
  {
    var s, t := a + ("\n" + joined), a + tail;
    assert s[|a|] == '\n' && t[|a|] == tail[0] && tail[0] in t;
    if tail[0] == '\n' {
      assert tail == "\n" + rest;
      CleanCons(a, rest);
      assert s[|a| + 1..] == joined && t[|a| + 1..] == rest;
    }
  }

  lemma JoinCons(a: string, lines: seq<string>)
    requires lines != []
    ensures Join([a] + lines, "\n") == a + ("\n" + Join(lines, "\n"))
  {
  }

  /** Splitting into lines and joining with newlines gives a text back exactly when it is clean. */
  lemma {:induction false} JoinSplitLinesIff(s: string)
    ensures Join(SplitLines(s), "\n") == s <==> CleanText(s)
    decreases |s|
  {
    if s != "" {
      var n := LineLength(s);
      var a, tail := s[..n], s[n..];
      assert s == a + tail;
      if tail == "" {
        assert a == s && s[|s| - 1] in s;
      } else {
        var rest := tail[BreakLength(tail)..];
        if rest == "" {
          LastBreakDirty(a, tail);
        } else {
          JoinSplitLinesIff(rest);
          JoinCons(a, SplitLines(rest));
          FirstLineIff(a, tail, rest, Join(SplitLines(rest), "\n"));
        }
      }
    }
  }
}
