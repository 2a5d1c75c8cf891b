/** The symptom synonym dictionary (scripts/symptom_synonyms.py): registration, tokenising, and query
    expansion. Lower-casing is ASCII; `isAlnum` stands for the Unicode table behind str.isalnum. */
module Synonyms {
  import opened Prelude
  import opened PyStrings

  datatype Entry = Entry(category: string, syns: seq<string>)

  predicate IsCjk(c: char) { 0x4E00 <= c as int <= 0x9FFF }
  predicate IsAsciiLetter(c: char) { 'a' <= c <= 'z' || 'A' <= c <= 'Z' }
  predicate IsAsciiAlnum(c: char) { IsAsciiLetter(c) || '0' <= c <= '9' }
  predicate IsTokenChar(c: char) { IsCjk(c) || IsAsciiAlnum(c) }

  predicate OccursAt(s: string, part: string, i: nat) {
    i + |part| <= |s| && s[i..i + |part|] == part
  }

  /** `part in s` on strings. */
  predicate Contains(s: string, part: string) {
    exists i | 0 <= i <= |s| - |part| :: OccursAt(s, part, i)
  }

  // ----- tokens -----

  /** What the token loop still appends when `buf` is pending and `text` is left. */
  function TokensFrom(text: string, buf: string): seq<string>
    decreases |text|
  {
    if text == "" then Pending(buf)
    else if IsCjk(text[0]) then Pending(buf) + [[text[0]]] + TokensFrom(text[1..], "")
    else if IsAsciiAlnum(text[0]) then TokensFrom(text[1..], buf + [text[0]])
    else Pending(buf) + TokensFrom(text[1..], "")
  }

  /** `_tokenize`. */
  method Tokenize(text: string) returns (tokens: seq<string>)
    ensures tokens == TokensFrom(text, "")
  {
    tokens := [];
    var buf := "";
    for i := 0 to |text|
      invariant tokens + TokensFrom(text[i..], buf) == TokensFrom(text, "")
    {
      var c := text[i];
      ghost var left := text[i..];
      assert left[0] == c && left[1..] == text[i + 1..];
      ConcatAssoc(tokens + Pending(buf), [[c]], TokensFrom(left[1..], ""));
      ConcatAssoc(tokens, Pending(buf), TokensFrom(left[1..], ""));
      ConcatAssoc(tokens, Pending(buf), [[c]]);
      ConcatAssoc(tokens, Pending(buf) + [[c]], TokensFrom(left[1..], ""));
      if IsCjk(c) {
        tokens := tokens + Pending(buf) + [[c]];
        buf := "";
      } else if IsAsciiAlnum(c) {
        buf := buf + [c];
      } else {
        tokens := tokens + Pending(buf);
        buf := "";
      }
    }
    tokens := tokens + Pending(buf);
  }

  lemma ContainsMid(a: string, part: string, b: string)
    ensures Contains(a + part + b, part)
  {
    assert OccursAt(a + part + b, part, |a|);
  }

  lemma ContainsMore(s: string, part: string, a: string)
    requires Contains(s, part)
    ensures Contains(a + s, part)
  {
    var i :| 0 <= i <= |s| - |part| && OccursAt(s, part, i);
    assert (a + s)[|a| + i..|a| + i + |part|] == part;
    assert OccursAt(a + s, part, |a| + i);
  }

  /** Every token is a non-empty contiguous part of the text. */
  lemma {:induction false} TokenIsSubstring(text: string, buf: string, token: string)
    requires token in TokensFrom(text, buf)
    ensures token != "" && Contains(buf + text, token)
    decreases |text|
  {
    if text == "" {
      ContainsMid("", buf, "");
      assert "" + buf + "" == buf + text;
    } else {
      var c, rest := text[0], text[1..];
      assert buf + text == buf + [c] + rest;
      if !IsCjk(c) && IsAsciiAlnum(c) {
        TokenIsSubstring(rest, buf + [c], token);
      } else if token in Pending(buf) {
        ContainsMid("", buf, text);
        assert "" + buf + text == buf + text;
      } else if IsCjk(c) && token == [c] {
        ContainsMid(buf, [c], rest);
      } else {
        TokenIsSubstring(rest, "", token);
        assert "" + rest == rest;
        ContainsMore(rest, token, buf + [c]);
      }
    }
  }

  /** A text has tokens exactly when it has a CJK or ASCII alphanumeric character. */
  lemma {:induction false} HasTokensIff(text: string, buf: string)
    ensures TokensFrom(text, buf) != [] <==> buf != "" || exists c :: c in text && IsTokenChar(c)
    decreases |text|
  {
    if text != "" {
      assert text[0] in text;
      assert forall c :: c in text <==> c == text[0] || c in text[1..];
      HasTokensIff(text[1..], if !IsCjk(text[0]) && IsAsciiAlnum(text[0]) then buf + [text[0]] else "");
    }
  }

  function Concat(parts: seq<string>): string {
    if parts == [] then "" else parts[0] + Concat(parts[1..])
  }

  /** The CJK and ASCII alphanumeric characters of a text, in order. */
  function TokenChars(text: string): string {
    if text == "" then "" else (if IsTokenChar(text[0]) then [text[0]] else "") + TokenChars(text[1..])
  }

  lemma ConcatPending(buf: string, parts: seq<string>)
    ensures Concat(Pending(buf) + parts) == buf + Concat(parts)
  {
    if buf == "" {
      assert Pending(buf) + parts == parts && buf + Concat(parts) == Concat(parts);
    } else {
      assert ([buf] + parts)[1..] == parts;
    }
  }

  /** Joined, the tokens are the token characters of the text in order: none is lost, added or moved. */
  lemma {:induction false} TokensJoined(text: string, buf: string)
    ensures Concat(TokensFrom(text, buf)) == buf + TokenChars(text)
    decreases |text|
  {
    if text == "" {
      ConcatPending(buf, []);
      assert Pending(buf) + [] == Pending(buf);
    } else {
      var c, rest := text[0], text[1..];
      var after, chars := TokensFrom(rest, ""), TokenChars(rest);
      if IsCjk(c) {
        calc {
          Concat(TokensFrom(text, buf));
          { ConcatAssoc(Pending(buf), [[c]], after); }
          Concat(Pending(buf) + ([[c]] + after));
          { ConcatPending(buf, [[c]] + after); }
          buf + Concat(Pending([c]) + after);
          { ConcatPending([c], after); }
          buf + ([c] + Concat(after));
          { TokensJoined(rest, ""); }
          buf + ([c] + ("" + chars));
          buf + TokenChars(text);
        }
      } else if IsAsciiAlnum(c) {
        TokensJoined(rest, buf + [c]);
        ConcatAssoc(buf, [c], chars);
      } else {
        ConcatPending(buf, after);
        TokensJoined(rest, "");
      }
    }
  }

  /** Each token is one CJK character or a run of ASCII letters and digits. */
  lemma {:induction false} TokenShape(text: string, buf: string, token: string)
    requires (forall c :: c in buf ==> IsAsciiAlnum(c)) && token in TokensFrom(text, buf)
    ensures (|token| == 1 && IsCjk(token[0])) || (token != "" && forall c :: c in token ==> IsAsciiAlnum(c))
    decreases |text|
  {
    if text != "" && token !in Pending(buf) {
      var c := text[0];
      if IsCjk(c) {
        if token != [c] { TokenShape(text[1..], "", token); }
      } else {
        TokenShape(text[1..], if IsAsciiAlnum(c) then buf + [c] else "", token);
      }
    }
  }

  /** A run of ASCII letters and digits is one token. */
  lemma {:induction false} TokensWhole(text: string, buf: string)
    requires forall c :: c in text ==> IsAsciiAlnum(c)
    ensures TokensFrom(text, buf) == Pending(buf + text)
    decreases |text|
  {
    if text == "" {
      assert buf + text == buf;
    } else {
      TokensWhole(text[1..], buf + [text[0]]);
      assert buf + [text[0]] + text[1..] == buf + text;
    }
  }

  /** Any other character ends the run, and is a token of its own when it is CJK; with TokensWhole this says
      what the tokens of every text are. */
  lemma {:induction false} TokensCut(a: string, x: char, b: string, buf: string)
    requires !IsAsciiAlnum(x)
    ensures TokensFrom(a + [x] + b, buf)
         == TokensFrom(a, buf) + ((if IsCjk(x) then [[x]] else []) + TokensFrom(b, ""))
    decreases |a|
  {
    var text, more := a + [x] + b, (if IsCjk(x) then [[x]] else []) + TokensFrom(b, "");
    if a == "" {
      assert text[1..] == b;
    } else {
      assert text[1..] == a[1..] + [x] + b;
      TokensCut(a[1..], x, b, if !IsCjk(a[0]) && IsAsciiAlnum(a[0]) then buf + [a[0]] else "");
    }
  }

  lemma LowerContains(s: string, part: string)
    requires Contains(s, part)
    ensures Contains(Lower(s), Lower(part))
  {
    var i :| 0 <= i <= |s| - |part| && OccursAt(s, part, i);
    var l := Lower(s)[i..i + |part|];
    forall k | 0 <= k < |part| ensures l[k] == Lower(part)[k] {
      assert s[i..i + |part|][k] == s[i + k];
    }
    assert l == Lower(part) && OccursAt(Lower(s), Lower(part), i);
  }

  // ----- matching -----

  predicate HitsCategory(token: string, category: string) {
    category == token || token + ":" <= category || Contains(category, Lower(token))
  }

  predicate HitsSynonym(token: string, syn: string) {
    Lower(token) == Lower(syn) || Contains(Lower(syn), Lower(token)) || Contains(Lower(token), Lower(syn))
  }

  predicate Hits(token: string, e: Entry) {
    HitsCategory(token, e.category) || exists s :: s in e.syns && HitsSynonym(token, s)
  }

  /** `part` is a contiguous part of `s`. */
  ghost predicate IsPart(part: string, s: string) {
    exists a, b :: s == a + part + b
  }

  lemma ContainsIff(s: string, part: string)
    ensures Contains(s, part) <==> IsPart(part, s)
  {
    if Contains(s, part) {
      var i :| 0 <= i <= |s| - |part| && OccursAt(s, part, i);
      assert s == s[..i] + part + s[i + |part|..];
    }
    if a, b :| s == a + part + b {
      ContainsMid(a, part, b);
    }
  }

  lemma HitsSynonymIff(token: string, syn: string)
    ensures HitsSynonym(token, syn) <==> IsPart(Lower(token), Lower(syn)) || IsPart(Lower(syn), Lower(token))
  {
    ContainsIff(Lower(syn), Lower(token));
    ContainsIff(Lower(token), Lower(syn));
    assert Lower(syn) == "" + Lower(syn) + "";
  }

  lemma LowerPrefix(s: string, rest: string)
    requires s + rest == Lower(s + rest)
    ensures Lower(s) == s
  {
    assert forall i :: 0 <= i < |s| ==> (s + rest)[i] == s[i] && Lower(s + rest)[i] == LowerChar(s[i]);
  }

  lemma PrefixIsPart(token: string, rest: string)
    requires token + rest == Lower(token + rest)
    ensures IsPart(Lower(token), token + rest)
  {
    LowerPrefix(token, rest);
    assert token + rest == "" + token + rest;
  }

  lemma HitsCategoryIff(token: string, category: string)
    requires category == Lower(category)
    ensures HitsCategory(token, category) <==> IsPart(Lower(token), category)
  {
    ContainsIff(category, Lower(token));
    if category == token || token + ":" <= category {
      var rest := category[|token|..];
      assert category == token + rest;
      PrefixIsPart(token, rest);
    }
  }

  /** When a token hits an entry, for a lower-case category as every registered one is: read without case, it
      is a part of the category, or it and some synonym are one a part of the other. */
  lemma HitsIff(token: string, e: Entry)
    requires e.category == Lower(e.category)
    ensures Hits(token, e)
            <==> IsPart(Lower(token), e.category)
                 || exists s :: s in e.syns && (IsPart(Lower(token), Lower(s)) || IsPart(Lower(s), Lower(token)))
  {
    HitsCategoryIff(token, e.category);
    forall s ensures HitsSynonym(token, s) <==> IsPart(Lower(token), Lower(s)) || IsPart(Lower(s), Lower(token)) {
      HitsSynonymIff(token, s);
    }
  }

  /** All keywords that one token brings in, before duplicates are dropped. */
  function HitKeywords(token: string, entries: seq<Entry>): seq<string> {
    if entries == [] then []
    else
      var n := |entries| - 1;
      HitKeywords(token, entries[..n])
      + if Hits(token, entries[n]) then [entries[n].category] + entries[n].syns else []
  }

  predicate AnyHit(token: string, entries: seq<Entry>) {
    exists k :: 0 <= k < |entries| && Hits(token, entries[k])
  }

  function TokenKeywords(token: string, entries: seq<Entry>): seq<string> {
    if AnyHit(token, entries) then HitKeywords(token, entries) else [token]
  }

  function AllKeywords(tokens: seq<string>, entries: seq<Entry>): seq<string> {
    if tokens == [] then []
    else AllKeywords(tokens[..|tokens| - 1], entries) + TokenKeywords(tokens[|tokens| - 1], entries)
  }

  /** `_add` for each keyword in turn: empty and repeated ones are dropped. */
  function AddAll(out: seq<string>, keywords: seq<string>): seq<string>
    decreases |keywords|
  {
    if keywords == [] then out
    else
      var k := keywords[0];
      AddAll(if k == "" || k in out then out else out + [k], keywords[1..])
  }

  lemma {:induction false} AddAllMembers(out: seq<string>, keywords: seq<string>)
    ensures forall x :: x in AddAll(out, keywords) <==> x in out || (x in keywords && x != "")
    ensures NoDup(out) ==> NoDup(AddAll(out, keywords))
    decreases |keywords|
  {
    if keywords != [] {
      var k := keywords[0];
      assert keywords == [k] + keywords[1..];
      AddAllMembers(if k == "" || k in out then out else out + [k], keywords[1..]);
    }
  }

  lemma {:induction false} AddAllConcat(out: seq<string>, a: seq<string>, b: seq<string>)
    ensures AddAll(AddAll(out, a), b) == AddAll(out, a + b)
    decreases |a|
  {
    if a == [] {
      assert a + b == b;
    } else {
      assert (a + b)[1..] == a[1..] + b;
      AddAllConcat(if a[0] == "" || a[0] in out then out else out + [a[0]], a[1..], b);
    }
  }

  /** Keywords stand in the order in which they are first added. */
  lemma {:induction false} AddAllOrder(keywords: seq<string>)
    ensures FirstSeenOrder(AddAll([], keywords), keywords)
    decreases |keywords|
  {
    if keywords != [] {
      var front, last := keywords[..|keywords| - 1], keywords[|keywords| - 1];
      assert keywords == front + [last];
      AddAllOrder(front);
      AddAllConcat([], front, [last]);
      AddAllMembers([], front);
      if last == "" || last in AddAll([], front) {
        FirstSeenMore(AddAll([], front), front, last);
      } else {
        FirstSeenNew(AddAll([], front), front, last);
      }
    }
  }

  function Expansion(query: string, entries: seq<Entry>): seq<string> {
    AddAll([], AllKeywords(TokensFrom(query, ""), entries))
  }

  /** One entry among others: hit, it gives its category and its synonyms, in their place. */
  lemma {:induction false} HitKeywordsMeaning(token: string, before: seq<Entry>, e: Entry, after: seq<Entry>)
    ensures HitKeywords(token, before + [e] + after)
         == HitKeywords(token, before) + (if Hits(token, e) then [e.category] + e.syns else [])
            + HitKeywords(token, after)
    decreases |after|
  {
    var entries := before + [e] + after;
    var n := |entries| - 1;
    if after == [] {
      assert entries[..n] == before;
    } else {
      assert entries[..n] == before + [e] + after[..|after| - 1];
      HitKeywordsMeaning(token, before, e, after[..|after| - 1]);
    }
  }

  lemma {:induction false} AllKeywordsConcat(a: seq<string>, b: seq<string>, entries: seq<Entry>)
    ensures AllKeywords(a + b, entries) == AllKeywords(a, entries) + AllKeywords(b, entries)
    decreases |b|
  {
    if b == [] {
      assert a + b == a;
    } else {
      assert (a + b)[..|a + b| - 1] == a + b[..|b| - 1];
      AllKeywordsConcat(a, b[..|b| - 1], entries);
    }
  }

  /** A token that hits something brings all that it hits, any other itself; with AllKeywordsConcat this says
      what the keywords of every query are. */
  lemma OneTokenKeywords(token: string, entries: seq<Entry>)
    ensures AllKeywords([token], entries)
         == if exists e :: e in entries && Hits(token, e) then HitKeywords(token, entries) else [token]
  {
    assert [token][..0] == [];
    if e :| e in entries && Hits(token, e) {
      var k :| 0 <= k < |entries| && entries[k] == e;
    }
  }

  lemma HitStep(token: string, entries: seq<Entry>, k: nat)
    requires k < |entries|
    ensures AnyHit(token, entries[..k + 1]) <==> AnyHit(token, entries[..k]) || Hits(token, entries[k])
    ensures Hits(token, entries[k]) ==>
              HitKeywords(token, entries[..k + 1])
              == HitKeywords(token, entries[..k]) + ([entries[k].category] + entries[k].syns)
    ensures !Hits(token, entries[k]) ==> HitKeywords(token, entries[..k + 1]) == HitKeywords(token, entries[..k])
  {
    var longer, front := entries[..k + 1], entries[..k];
    assert longer[..k] == front;
    assert longer[k] == entries[k] && forall i :: 0 <= i < k ==> longer[i] == front[i];
  }

  lemma {:induction false} NoHitNoKeywords(token: string, entries: seq<Entry>)
    requires !AnyHit(token, entries)
    ensures HitKeywords(token, entries) == []
    decreases |entries|
  {
    if entries != [] {
      assert !Hits(token, entries[|entries| - 1]);
      assert forall i :: 0 <= i < |entries| - 1 ==> entries[..|entries| - 1][i] == entries[i];
      NoHitNoKeywords(token, entries[..|entries| - 1]);
    }
  }

  lemma {:induction false} HitKeywordsMembers(token: string, entries: seq<Entry>, x: string)
    ensures x in HitKeywords(token, entries)
            <==> exists e :: e in entries && Hits(token, e) && x in [e.category] + e.syns
    decreases |entries|
  {
    if entries != [] {
      var n := |entries| - 1;
      HitKeywordsMembers(token, entries[..n], x);
      assert entries == entries[..n] + [entries[n]];
    }
  }

  /** One token brings in `x`: through an entry it hits, or as itself when it hits none. */
  ghost predicate Brings(token: string, entries: seq<Entry>, x: string) {
    (exists e :: e in entries && Hits(token, e) && x in [e.category] + e.syns)
    || (x == token && !exists e :: e in entries && Hits(token, e))
  }

  lemma TokenKeywordsMembers(token: string, entries: seq<Entry>, x: string)
    ensures x in TokenKeywords(token, entries) <==> Brings(token, entries, x)
  {
    HitKeywordsMembers(token, entries, x);
    if AnyHit(token, entries) {
      var k :| 0 <= k < |entries| && Hits(token, entries[k]);
      assert entries[k] in entries;
    } else {
      forall e | e in entries ensures !Hits(token, e) { var k :| 0 <= k < |entries| && entries[k] == e; }
    }
  }

  lemma {:induction false} AllKeywordsMembers(tokens: seq<string>, entries: seq<Entry>, x: string)
    ensures x in AllKeywords(tokens, entries) <==> exists t :: t in tokens && Brings(t, entries, x)
    decreases |tokens|
  {
    if tokens != [] {
      var n := |tokens| - 1;
      AllKeywordsMembers(tokens[..n], entries, x);
      TokenKeywordsMembers(tokens[n], entries, x);
      assert tokens == tokens[..n] + [tokens[n]];
    }
  }

  /** What an expansion holds, exactly: the non-empty keywords that some token of the query brings in, each
      once. */
  lemma ExpansionMembers(query: string, entries: seq<Entry>, x: string)
    ensures x in Expansion(query, entries)
            <==> x != "" && exists t :: t in TokensFrom(query, "") && Brings(t, entries, x)
    ensures NoDup(Expansion(query, entries))
    ensures FirstSeenOrder(Expansion(query, entries), AllKeywords(TokensFrom(query, ""), entries))
  {
    AddAllOrder(AllKeywords(TokensFrom(query, ""), entries));
    AddAllMembers([], AllKeywords(TokensFrom(query, ""), entries));
    AllKeywordsMembers(TokensFrom(query, ""), entries, x);
  }

  // ----- the table -----

  function Cleaned(syns: seq<string>): seq<string> {
    if syns == [] then []
    else (if Strip(syns[0]) == "" then [] else [Strip(syns[0])]) + Cleaned(syns[1..])
  }

  function Without(s: string, drop: set<char>): string {
    if s == "" then "" else (if s[0] in drop then "" else [s[0]]) + Without(s[1..], drop)
  }

  predicate Accepted(category: string, syns: seq<string>, isAlnum: char -> bool) {
    var bare := Without(category, {':', '_', '-'});
    var cleaned := Cleaned(syns);
    && category != "" && bare != "" && (forall c | c in bare :: isAlnum(c)) && category == Lower(category)
    && 2 <= |syns| && 2 <= |cleaned|
    && (exists s | s in cleaned :: exists c | c in s :: IsCjk(c))
    && (exists s | s in cleaned :: exists c | c in s :: IsAsciiLetter(c))
  }

  lemma {:induction false} WithoutMembers(s: string, drop: set<char>, c: char)
    ensures c in Without(s, drop) <==> c in s && c !in drop
    decreases |s|
  {
    if s != "" {
      WithoutMembers(s[1..], drop, c);
      assert s == [s[0]] + s[1..];
    }
  }

  lemma LowerCaseIff(s: string)
    ensures s == Lower(s) <==> forall c :: c in s ==> !('A' <= c <= 'Z')
  {
    assert |Lower(s)| == |s|;
    if s == Lower(s) {
      forall c | c in s ensures !('A' <= c <= 'Z') {
        var i :| 0 <= i < |s| && s[i] == c;
        assert Lower(s)[i] == LowerChar(c);
      }
    } else {
      var i :| 0 <= i < |s| && s[i] != Lower(s)[i];
      assert s[i] in s;
    }
  }

  /** The stored list holds exactly the given synonyms, stripped, without the blank ones. */
  lemma {:induction false} CleanedMembers(syns: seq<string>, x: string)
    ensures x in Cleaned(syns) <==> x != "" && exists s :: s in syns && Strip(s) == x
    decreases |syns|
  {
    if syns != [] {
      CleanedMembers(syns[1..], x);
      assert syns == [syns[0]] + syns[1..];
    }
  }

  /** One synonym among others, in its place. */
  lemma {:induction false} CleanedMeaning(before: seq<string>, s: string, after: seq<string>)
    ensures Cleaned(before + [s] + after)
         == Cleaned(before) + (if All(s, IsSpace) then [] else [Strip(s)]) + Cleaned(after)
    decreases |before|
  {
    var syns := before + [s] + after;
    if before == [] {
      BlankIff(s);
      assert syns[1..] == after;
    } else {
      assert syns[1..] == before[1..] + [s] + after;
      CleanedMeaning(before[1..], s, after);
    }
  }

  ghost predicate NonBlankAt(syns: seq<string>, i: nat) {
    i < |syns| && !All(syns[i], IsSpace)
  }

  lemma {:induction false} SomeLeftIff(syns: seq<string>)
    ensures Cleaned(syns) != [] <==> exists i: nat :: NonBlankAt(syns, i)
    decreases |syns|
  {
    if syns != [] {
      BlankIff(syns[0]);
      SomeLeftIff(syns[1..]);
      if i: nat :| NonBlankAt(syns[1..], i) { assert NonBlankAt(syns, i + 1); }
      if i: nat :| NonBlankAt(syns, i) { assert i == 0 || NonBlankAt(syns[1..], i - 1); }
      if !All(syns[0], IsSpace) { assert NonBlankAt(syns, 0); }
    }
  }

  lemma {:induction false} TwoLeftIff(syns: seq<string>)
    ensures 2 <= |Cleaned(syns)| <==> exists i: nat, j: nat :: i < j && NonBlankAt(syns, i) && NonBlankAt(syns, j)
    decreases |syns|
  {
    if syns != [] {
      var rest := syns[1..];
      BlankIff(syns[0]);
      SomeLeftIff(rest);
      TwoLeftIff(rest);
      if i: nat, j: nat :| i < j && NonBlankAt(rest, i) && NonBlankAt(rest, j) {
        assert NonBlankAt(syns, i + 1) && NonBlankAt(syns, j + 1);
      }
      if !All(syns[0], IsSpace) {
        assert NonBlankAt(syns, 0);
        if j: nat :| NonBlankAt(rest, j) { assert NonBlankAt(syns, j + 1); }
      }
      if i: nat, j: nat :| i < j && NonBlankAt(syns, i) && NonBlankAt(syns, j) {
        assert NonBlankAt(rest, j - 1) && (i == 0 || NonBlankAt(rest, i - 1));
      }
    }
  }

  lemma {:induction false} CleanedShorter(syns: seq<string>)
    ensures |Cleaned(syns)| <= |syns|
    decreases |syns|
  {
    if syns != [] { CleanedShorter(syns[1..]); }
  }

  /** Cleaning keeps the characters that are no white space. */
  lemma CleanedChars(syns: seq<string>, c: char)
    requires !IsSpace(c)
    ensures (exists s :: s in Cleaned(syns) && c in s) <==> exists s :: s in syns && c in s
  {
    forall s ensures c in Strip(s) <==> c in s { TrimKeeps(s, IsSpace, c); }
    if s :| s in Cleaned(syns) && c in s { CleanedMembers(syns, s); }
    if s :| s in syns && c in s { CleanedMembers(syns, Strip(s)); }
  }

  ghost predicate SomeChar(syns: seq<string>, p: char -> bool) {
    exists s, c :: s in syns && c in s && p(c)
  }

  lemma CleanedSomeChar(syns: seq<string>, p: char -> bool)
    requires forall c :: p(c) ==> !IsSpace(c)
    ensures SomeChar(Cleaned(syns), p) <==> SomeChar(syns, p)
  {
    if s, c :| s in syns && c in s && p(c) { CleanedChars(syns, c); }
    if s, c :| s in Cleaned(syns) && c in s && p(c) { CleanedChars(syns, c); }
  }

  /** The separators a category name may hold. */
  predicate IsSeparator(c: char) { c == ':' || c == '_' || c == '-' }

  lemma CategoryIff(category: string, isAlnum: char -> bool)
    ensures var bare := Without(category, {':', '_', '-'});
            (bare != "" && forall c | c in bare :: isAlnum(c))
            <==> (exists c :: c in category && !IsSeparator(c))
                 && forall c :: c in category ==> IsSeparator(c) || isAlnum(c)
  {
    var bare := Without(category, {':', '_', '-'});
    forall c ensures c in bare <==> c in category && !IsSeparator(c) {
      WithoutMembers(category, {':', '_', '-'}, c);
    }
    if bare != "" { assert bare[0] in bare; }
  }

  /** What is accepted, in terms of what was given: a lower-case name of letters, digits and separators, and
      not of separators alone; two synonyms that are not blank; a CJK character and an ASCII letter somewhere
      among the synonyms. */
  lemma AcceptedIff(category: string, syns: seq<string>, isAlnum: char -> bool)
    ensures Accepted(category, syns, isAlnum)
            <==> && (exists c :: c in category && !IsSeparator(c))
                 && (forall c :: c in category ==> IsSeparator(c) || isAlnum(c))
                 && (forall c :: c in category ==> !('A' <= c <= 'Z'))
                 && (exists i: nat, j: nat :: i < j && NonBlankAt(syns, i) && NonBlankAt(syns, j))
                 && SomeChar(syns, IsCjk) && SomeChar(syns, IsAsciiLetter)
  {
    CategoryIff(category, isAlnum);
    LowerCaseIff(category);
    TwoLeftIff(syns);
    CleanedShorter(syns);
    CleanedSomeChar(syns, IsCjk);
    CleanedSomeChar(syns, IsAsciiLetter);
  }

  /** `SYNONYMS[category] = cleaned`. */
  function PutEntry(entries: seq<Entry>, e: Entry): seq<Entry> {
    if entries == [] then [e]
    else if entries[0].category == e.category then [e] + entries[1..]
    else [entries[0]] + PutEntry(entries[1..], e)
  }

  ghost predicate DistinctKeys(entries: seq<Entry>) {
    forall i, j :: 0 <= i < j < |entries| ==> entries[i].category != entries[j].category
  }

  /** The entries of all other categories, in order. */
  function Others(entries: seq<Entry>, category: string): seq<Entry> {
    if entries == [] then []
    else (if entries[0].category == category then [] else [entries[0]]) + Others(entries[1..], category)
  }

  lemma {:induction false} PutEntryMembers(entries: seq<Entry>, e: Entry)
    ensures e in PutEntry(entries, e)
    ensures forall f :: f in entries && f.category != e.category ==> f in PutEntry(entries, e)
    ensures forall f :: f in PutEntry(entries, e) ==> f == e || f in entries
    decreases |entries|
  {
    if entries != [] {
      PutEntryMembers(entries[1..], e);
      assert entries == [entries[0]] + entries[1..];
    }
  }

  lemma DistinctCons(h: Entry, s: seq<Entry>)
    requires DistinctKeys(s) && forall f :: f in s ==> f.category != h.category
    ensures DistinctKeys([h] + s)
  {
  }

  lemma {:induction false} PutEntryKeepsKeys(entries: seq<Entry>, e: Entry)
    requires DistinctKeys(entries)
    ensures DistinctKeys(PutEntry(entries, e))
    decreases |entries|
  {
    if entries != [] {
      assert forall f :: f in entries[1..] ==> f.category != entries[0].category;
      if entries[0].category == e.category {
        DistinctCons(e, entries[1..]);
      } else {
        PutEntryKeepsKeys(entries[1..], e);
        PutEntryMembers(entries[1..], e);
        DistinctCons(entries[0], PutEntry(entries[1..], e));
      }
    }
  }

  lemma {:induction false} PutEntryOthers(entries: seq<Entry>, e: Entry)
    ensures Others(PutEntry(entries, e), e.category) == Others(entries, e.category)
    decreases |entries|
  {
    if entries != [] && entries[0].category != e.category {
      PutEntryOthers(entries[1..], e);
    }
  }

  lemma {:induction false} LastPutWins(entries: seq<Entry>, first: Entry, last: Entry)
    requires first.category == last.category
    ensures PutEntry(PutEntry(entries, first), last) == PutEntry(entries, last)
    decreases |entries|
  {
    if entries != [] && entries[0].category != last.category {
      LastPutWins(entries[1..], first, last);
    }
  }

  /** A new category goes to the end of the table, a known one keeps its place. */
  lemma {:induction false} PutEntryPlace(entries: seq<Entry>, e: Entry)
    requires DistinctKeys(entries)
    ensures (forall f :: f in entries ==> f.category != e.category) ==> PutEntry(entries, e) == entries + [e]
    ensures forall k :: 0 <= k < |entries| && entries[k].category == e.category ==>
              PutEntry(entries, e) == entries[k := e]
    decreases |entries|
  {
    if entries != [] {
      PutEntryPlace(entries[1..], e);
      assert entries == [entries[0]] + entries[1..];
      forall k | 1 <= k < |entries| && entries[k].category == e.category
        ensures PutEntry(entries, e) == entries[k := e]
      {
        assert entries[1..][k - 1] == entries[k];
        assert entries[k := e] == [entries[0]] + entries[1..][k - 1 := e];
      }
    }
  }

  lemma OneOfACategory(entries: seq<Entry>, e: Entry, f: Entry)
    requires DistinctKeys(entries) && e in entries && f in entries && e.category == f.category
    ensures e == f
  {
  }

  /** What the table is after a registration: it has exactly this entry for the category, everything
      else as it was, and does not remember an older list. */
  lemma RegistrationMeaning(before: seq<Entry>, e: Entry, older: seq<string>)
    requires DistinctKeys(before)
    ensures var after := PutEntry(before, e);
            && DistinctKeys(after) && e in after && (forall f :: f in after && f.category == e.category ==> f == e)
            && Others(after, e.category) == Others(before, e.category)
            && PutEntry(PutEntry(before, Entry(e.category, older)), e) == after
  {
    var after := PutEntry(before, e);
    PutEntryKeepsKeys(before, e);
    PutEntryMembers(before, e);
    PutEntryOthers(before, e);
    LastPutWins(before, Entry(e.category, older), e);
    forall f | f in after && f.category == e.category ensures f == e {
      OneOfACategory(after, e, f);
    }
  }

  class SynonymTable {
    const isAlnum: char -> bool
    var entries: seq<Entry>  // an insertion-ordered dict

    ghost predicate Valid()
      reads this
    {
      DistinctKeys(entries)
    }

    constructor (isAlnum: char -> bool, seed: seq<Entry>)
      requires DistinctKeys(seed)
      ensures Valid() && this.isAlnum == isAlnum && entries == seed
    {
      this.isAlnum, entries := isAlnum, seed;
    }

    /** `register_category`: accepted exactly by the bilingual rule. An accepted call leaves one entry
        for the category, with the cleaned list, and all others as they were; a rejected one changes
        nothing. */
    method RegisterCategory(category: string, syns: seq<string>) returns (ok: bool)
      requires Valid()
      modifies this
      ensures Valid() && (ok <==> Accepted(category, syns, isAlnum))
      ensures !ok ==> entries == old(entries)
      ensures ok ==> entries == PutEntry(old(entries), Entry(category, Cleaned(syns)))
      ensures ok ==> forall f :: f in entries && f.category == category <==> f == Entry(category, Cleaned(syns))
      ensures Others(entries, category) == Others(old(entries), category)
    {
      if category == "" {
        return false;
      }
      var bare := Without(category, {':', '_', '-'});
      if bare == "" || exists c | c in bare :: !isAlnum(c) {
        return false;
      }
      if category != Lower(category) {
        return false;
      }
      if |syns| < 2 {
        return false;
      }
      var cleaned := Cleaned(syns);
      if |cleaned| < 2 {
        return false;
      }
      var hasCjk := exists s | s in cleaned :: exists c | c in s :: IsCjk(c);
      var hasAscii := exists s | s in cleaned :: exists c | c in s :: IsAsciiLetter(c);
      if !(hasCjk && hasAscii) {
        return false;
      }
      RegistrationMeaning(entries, Entry(category, cleaned), []);
      entries := PutEntry(entries, Entry(category, cleaned));
      ok := true;
    }

    /** The loop over the dictionary for one token. */
    method ExpandToken(token: string, before: seq<string>) returns (out: seq<string>)
      ensures out == AddAll(before, TokenKeywords(token, entries))
    {
      out := before;
      var matched := false;
      for k := 0 to |entries|
        invariant out == AddAll(before, HitKeywords(token, entries[..k]))
        invariant matched <==> AnyHit(token, entries[..k])
      {
        var e := entries[k];
        HitStep(token, entries, k);
        var hit := HitsCategory(token, e.category);
        var j := 0;
        while !hit && j < |e.syns|
          invariant 0 <= j <= |e.syns|
          invariant hit ==> Hits(token, e)
          invariant !hit ==> !HitsCategory(token, e.category)
          invariant !hit ==> forall m :: 0 <= m < j ==> !HitsSynonym(token, e.syns[m])
        {
          hit := HitsSynonym(token, e.syns[j]);
          j := j + 1;
        }
        assert hit <==> Hits(token, e) by {
          if !hit {
            forall s | s in e.syns ensures !HitsSynonym(token, s) {
              var m :| 0 <= m < |e.syns| && e.syns[m] == s;
            }
          }
        }
        if hit {
          matched := true;
          AddAllConcat(before, HitKeywords(token, entries[..k]), [e.category] + e.syns);
          out := AddAll(out, [e.category] + e.syns);
        }
      }
      assert entries[..|entries|] == entries;
      if !matched {
        NoHitNoKeywords(token, entries);
        out := AddAll(out, [token]);
      }
    }

    /** `expand_query`. */
    method ExpandQuery(query: string) returns (out: seq<string>)
      ensures out == Expansion(query, entries)
    {
      var tokens := Tokenize(query);
      out := [];
      for i := 0 to |tokens|
        invariant out == AddAll([], AllKeywords(tokens[..i], entries))
      {
        assert tokens[..i + 1][..i] == tokens[..i];
        out := ExpandToken(tokens[i], out);
        AddAllConcat([], AllKeywords(tokens[..i], entries), TokenKeywords(tokens[i], entries));
      }
      assert tokens[..|tokens|] == tokens;
    }
  }

  // ----- what registration is for -----

  /** An entry is found through any of its synonyms that has a token character: the expansion then
      holds the category and all non-empty synonyms. Without one the expansion is empty. */
  lemma SynonymFindsEntry(entries: seq<Entry>, e: Entry, s: string)
    requires e in entries && s in e.syns && e.category != ""
    ensures e.category in Expansion(s, entries) <==> exists c :: c in s && IsTokenChar(c)
    ensures (exists c :: c in s && IsTokenChar(c)) ==>
              forall x :: x in e.syns && x != "" ==> x in Expansion(s, entries)
    ensures NoDup(Expansion(s, entries))
  {
    var tokens := TokensFrom(s, "");
    HasTokensIff(s, "");
    ExpansionMembers(s, entries, e.category);
    if tokens != [] {
      var t := tokens[0];
      TokenIsSubstring(s, "", t);
      assert "" + s == s;
      LowerContains(s, t);
      assert HitsSynonym(t, s) && Hits(t, e);
      forall x | x in [e.category] + e.syns && x != "" ensures x in Expansion(s, entries) {
        assert Brings(t, entries, x);
        ExpansionMembers(s, entries, x);
      }
    }
  }

  /** After an accepted registration, querying with a stored synonym brings back the category and all
      its synonyms, without duplicates, if and only if that synonym has a token character; the
      entries of other categories are kept. */
  lemma RegisteredIsFound(before: seq<Entry>, category: string, syns: seq<string>, isAlnum: char -> bool, s: string)
    requires Accepted(category, syns, isAlnum) && s in Cleaned(syns)
    ensures var out := Expansion(s, PutEntry(before, Entry(category, Cleaned(syns))));
            && NoDup(out)
            && ((category in out && forall x :: x in Cleaned(syns) ==> x in out)
                <==> exists c :: c in s && IsTokenChar(c))
    ensures forall f :: f in before && f.category != category ==> f in PutEntry(before, Entry(category, Cleaned(syns)))
  {
    var e := Entry(category, Cleaned(syns));
    PutEntryMembers(before, e);
    forall x | x in Cleaned(syns) ensures x != "" { CleanedMembers(syns, x); }
    SynonymFindsEntry(PutEntry(before, e), e, s);
  }
}
