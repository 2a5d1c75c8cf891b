/** The Markdown splitter (backend/gaf_ai/rag.py, _index_markdown_file): sections by "## " headers, and
    the slug of a section's title that goes into its document id. */
module MarkdownSplitter {
  import opened Prelude
  import opened PyStrings

  datatype Section = Section(title: string, lines: seq<string>)

  predicate IsHeader(line: string) {
    "## " <= line
  }

  function Title(line: string): string
    requires IsHeader(line)
  {
    Strip(line[3..])
  }

  /** The title is what stands after "## ", without the white space around it. */
  lemma TitleMeaning(left: string, title: string, right: string)
    requires (forall c :: c in left + right ==> IsSpace(c)) && Trimmed(title, IsSpace)
    ensures IsHeader("## " + (left + title + right)) && Title("## " + (left + title + right)) == title
  {
    var text := left + title + right;
    assert ("## " + text)[3..] == text;
    TrimPadded(left, title, right, IsSpace);
  }

  /** How many lines come before the first header, all of them if there is none. */
  function BodyLength(lines: seq<string>): (n: nat)
    ensures n <= |lines| && (forall k :: 0 <= k < n ==> !IsHeader(lines[k]))
    ensures n < |lines| ==> IsHeader(lines[n])
  {
    if lines == [] || IsHeader(lines[0]) then 0 else 1 + BodyLength(lines[1..])
  }

  /** A section starts at each header and goes up to the next one. */
  function Sections(lines: seq<string>): seq<Section>
    decreases |lines|
  {
    if lines == [] then []
    else if !IsHeader(lines[0]) then Sections(lines[1..])
    else
      var end := 1 + BodyLength(lines[1..]);
      [Section(Title(lines[0]), lines[..end])] + Sections(lines[end..])
  }

  /** What the loop still appends when the section of `title` is open and `rest` is left. */
  function Remaining(title: Option<string>, current: seq<string>, rest: seq<string>): seq<Section> {
    if title.None? then Sections(rest)
    else [Section(title.value, current + rest[..BodyLength(rest)])] + Sections(rest[BodyLength(rest)..])
  }

  lemma RemainingHeader(title: Option<string>, current: seq<string>, line: string, rest: seq<string>)
    requires IsHeader(line)
    ensures Remaining(title, current, [line] + rest)
         == (if title.Some? then [Section(title.value, current)] else []) + Remaining(Some(Title(line)), [line], rest)
  {
    var all, n := [line] + rest, BodyLength(rest);
    assert BodyLength(all) == 0 && all[..0] == [] && all[0..] == all && all[1..] == rest;
    assert all[..1 + n] == [line] + rest[..n] && all[1 + n..] == rest[n..];
    assert current + [] == current;
  }

  lemma RemainingBody(title: Option<string>, current: seq<string>, line: string, rest: seq<string>)
    requires !IsHeader(line)
    ensures Remaining(title, current, [line] + rest)
         == Remaining(title, if title.Some? then current + [line] else current, rest)
  {
    var all, n := [line] + rest, BodyLength(rest);
    assert all[1..] == rest && BodyLength(all) == 1 + n;
    assert current + all[..1 + n] == current + [line] + rest[..n] && all[1 + n..] == rest[n..];
  }

  /** The sections closed so far, with the open one, are on their way to those of all lines. */
  ghost predicate SplitSoFar(lines: seq<string>, i: nat, sections: seq<Section>, title: Option<string>,
                             current: seq<string>)
  {
    i <= |lines| && sections + Remaining(title, current, lines[i..]) == Sections(lines)
  }

  /** `sections` with the open one closed. */
  function Closed(sections: seq<Section>, title: Option<string>, current: seq<string>): seq<Section> {
    if title.Some? then sections + [Section(title.value, current)] else sections
  }

  lemma SplitNext(lines: seq<string>, i: nat, sections: seq<Section>, title: Option<string>, current: seq<string>)
    requires i < |lines| && SplitSoFar(lines, i, sections, title, current)
    ensures IsHeader(lines[i]) ==>
              SplitSoFar(lines, i + 1, Closed(sections, title, current), Some(Title(lines[i])), [lines[i]])
    ensures !IsHeader(lines[i]) ==>
              SplitSoFar(lines, i + 1, sections, title, if title.Some? then current + [lines[i]] else current)
  {
    var line, rest := lines[i], lines[i + 1..];
    assert lines[i..] == [line] + rest;
    if IsHeader(line) {
      RemainingHeader(title, current, line, rest);
      var open := if title.Some? then [Section(title.value, current)] else [];
      ConcatAssoc(sections, open, Remaining(Some(Title(line)), [line], rest));
      assert sections + open == Closed(sections, title, current);
    } else {
      RemainingBody(title, current, line, rest);
    }
  }

  lemma SplitEnd(lines: seq<string>, sections: seq<Section>, title: Option<string>, current: seq<string>)
    requires SplitSoFar(lines, |lines|, sections, title, current)
    ensures Closed(sections, title, current) == Sections(lines)
  {
    assert current + [] == current && sections + [] == sections;
  }

  /** The loop over the lines. */
  method SplitSections(lines: seq<string>) returns (sections: seq<Section>)
    ensures sections == Sections(lines)
  {
    sections := [];
    var title: Option<string>, current: seq<string> := None, [];
    for i := 0 to |lines|
      invariant SplitSoFar(lines, i, sections, title, current)
    {
      var line := lines[i];
      SplitNext(lines, i, sections, title, current);
      if IsHeader(line) {
        if title.Some? {
          sections := sections + [Section(title.value, current)];
        }
        title, current := Some(Title(line)), [line];
      } else if title.Some? {
        current := current + [line];
      }
    }
    SplitEnd(lines, sections, title, current);
    if title.Some? {
      sections := sections + [Section(title.value, current)];
    }
  }

  function AllLines(sections: seq<Section>): seq<string> {
    if sections == [] then [] else sections[0].lines + AllLines(sections[1..])
  }

  /** A header line and then none but body lines. */
  ghost predicate IsSection(s: Section) {
    && s.lines != [] && IsHeader(s.lines[0]) && s.title == Title(s.lines[0])
    && forall k :: 1 <= k < |s.lines| ==> !IsHeader(s.lines[k])
  }

  lemma FirstSection(lines: seq<string>)
    requires lines != [] && IsHeader(lines[0])
    ensures IsSection(Section(Title(lines[0]), lines[..1 + BodyLength(lines[1..])]))
  {
  }

  lemma AllLinesCons(s: Section, rest: seq<Section>)
    ensures AllLines([s] + rest) == s.lines + AllLines(rest)
  {
    assert ([s] + rest)[1..] == rest;
  }

  lemma SectionsAtHeader(lines: seq<string>, end: nat)
    requires lines != [] && IsHeader(lines[0]) && end == 1 + BodyLength(lines[1..])
    ensures Sections(lines) == [Section(Title(lines[0]), lines[..end])] + Sections(lines[end..])
  {
  }

  lemma NextIsHeader(lines: seq<string>, end: nat)
    requires lines != [] && end == 1 + BodyLength(lines[1..])
    ensures lines[end..][BodyLength(lines[end..])..] == lines[end..]
  {
    var rest := lines[end..];
    if rest != [] { assert rest[0] == lines[1..][end - 1]; }
    assert BodyLength(rest) == 0 && rest[0..] == rest;
  }

  lemma TakeDrop<T>(s: seq<T>, n: nat)
    requires n <= |s|
    ensures s[..n] + s[n..] == s == s[0..]
  {
  }

  /** The sections are the file from its first header on: none of those lines is lost or repeated. */
  lemma {:induction false} SectionsRebuild(lines: seq<string>)
    ensures AllLines(Sections(lines)) == lines[BodyLength(lines)..]
    decreases |lines|
  {
    if lines == [] {
    } else if !IsHeader(lines[0]) {
      SectionsRebuild(lines[1..]);
      assert lines[1..][BodyLength(lines[1..])..] == lines[BodyLength(lines)..];
    } else {
      var end := 1 + BodyLength(lines[1..]);
      var own, rest := lines[..end], lines[end..];
      calc {
        AllLines(Sections(lines));
        { SectionsAtHeader(lines, end); }
        AllLines([Section(Title(lines[0]), own)] + Sections(rest));
        { AllLinesCons(Section(Title(lines[0]), own), Sections(rest)); }
        own + AllLines(Sections(rest));
        { SectionsRebuild(rest); NextIsHeader(lines, end); }
        own + rest;
        { TakeDrop(lines, end); }
        lines[0..];
      }
    }
  }

  /** They are cut at each header and nowhere else. */
  lemma {:induction false} SectionsShape(lines: seq<string>)
    ensures forall s :: s in Sections(lines) ==> IsSection(s)
    decreases |lines|
  {
    if lines != [] && !IsHeader(lines[0]) {
      SectionsShape(lines[1..]);
    } else if lines != [] {
      SectionsAtHeader(lines, 1 + BodyLength(lines[1..]));
      FirstSection(lines);
      SectionsShape(lines[1 + BodyLength(lines[1..])..]);
    }
  }

  // ----- slugs -----

  predicate IsSlugChar(c: char) { 'a' <= c <= 'z' || '0' <= c <= '9' }

  predicate IsDash(c: char) { c == '-' }

  /** The rest of `s` after its leading characters outside [a-z0-9]. */
  function SkipOther(s: string): (r: string)
    ensures |r| <= |s|
  {
    if s == "" || IsSlugChar(s[0]) then s else SkipOther(s[1..])
  }

  /** `re.sub(r'[^a-z0-9]+', '-', s)`. */
  function Hyphenated(s: string): string
    decreases |s|
  {
    if s == "" then ""
    else if IsSlugChar(s[0]) then [s[0]] + Hyphenated(s[1..])
    else "-" + Hyphenated(SkipOther(s[1..]))
  }

  function Slug(title: string): string {
    var slug := Trim(Hyphenated(Lower(title)), IsDash);
    if slug == "" then "untitled" else slug
  }

  /** The runs of [a-z0-9] of the lower-cased title. */
  function Words(title: string): seq<string> {
    Runs(Lower(title), IsSlugChar, "")
  }

  /** The leading run of accepted characters, as a number of characters. */
  function RunLength(s: string): (n: nat)
    ensures n <= |s| && (forall c :: c in s[..n] ==> IsSlugChar(c)) && (n < |s| ==> !IsSlugChar(s[n]))
    ensures s != "" && IsSlugChar(s[0]) ==> n > 0
  {
    if s == "" || !IsSlugChar(s[0]) then 0
    else
      var m := RunLength(s[1..]);
      assert s[..m + 1] == [s[0]] + s[1..][..m];
      m + 1
  }

  lemma {:induction false} SkipOtherSplit(s: string)
    ensures var t := SkipOther(s); (t == "" || IsSlugChar(t[0])) && Runs(s, IsSlugChar, "") == Runs(t, IsSlugChar, "")
    decreases |s|
  {
    if s != "" && !IsSlugChar(s[0]) {
      SkipOtherSplit(s[1..]);
    }
  }

  lemma {:induction false} HyphenatedRun(r: string, t: string)
    requires forall c :: c in r ==> IsSlugChar(c)
    ensures Hyphenated(r + t) == r + Hyphenated(t)
    decreases |r|
  {
    if r == "" {
      assert r + t == t;
    } else {
      assert (r + t)[1..] == r[1..] + t;
      HyphenatedRun(r[1..], t);
    }
  }

  lemma RunsOfRun(r: string, t: string)
    requires r != "" && (forall c :: c in r ==> IsSlugChar(c)) && (t == "" || !IsSlugChar(t[0]))
    ensures Runs(r + t, IsSlugChar, "") == [r] + Runs(t, IsSlugChar, "")
  {
    RunsWhole(r, IsSlugChar, "");
    assert "" + r == r;
    if t == "" {
      assert r + t == r;
    } else {
      assert r + t == r + [t[0]] + t[1..];
      RunsCut(r, t[0], t[1..], IsSlugChar, "");
    }
  }

  lemma DashBetween(r: string, rest: seq<string>, tail: string)
    requires rest != []
    ensures r + ("-" + (Join(rest, "-") + tail)) == Join([r] + rest, "-") + tail
  {
    assert ([r] + rest)[1..] == rest && Join([r] + rest, "-") == r + "-" + Join(rest, "-");
  }

  /** With a kept character in front, hyphenating joins the runs with dashes, and leaves one more dash at the
      end if something else stands there. */
  lemma {:induction false} HyphenatedIsJoin(s: string) returns (tail: string)
    requires s != "" && IsSlugChar(s[0])
    ensures tail == "" || tail == "-"
    ensures Hyphenated(s) == Join(Runs(s, IsSlugChar, ""), "-") + tail && Runs(s, IsSlugChar, "") != []
    decreases |s|
  {
    var n := RunLength(s);
    var r, t := s[..n], s[n..];
    assert s == r + t;
    HyphenatedRun(r, t);
    RunsOfRun(r, t);
    if t == "" {
      tail := "";
    } else {
      var u := SkipOther(t[1..]);
      SkipOtherSplit(t[1..]);
      assert Runs(t, IsSlugChar, "") == Runs(u, IsSlugChar, "");
      if u == "" {
        tail := "-";
      } else {
        tail := HyphenatedIsJoin(u);
        DashBetween(r, Runs(u, IsSlugChar, ""), tail);
      }
    }
  }

  lemma {:induction false} JoinEnds(rs: seq<string>)
    requires rs != [] && forall r :: r in rs ==> r != "" && forall c :: c in r ==> IsSlugChar(c)
    ensures var j := Join(rs, "-"); j != "" && IsSlugChar(j[0]) && IsSlugChar(j[|j| - 1])
    decreases |rs|
  {
    assert rs[0] in rs && rs[0][0] in rs[0] && rs[0][|rs[0]| - 1] in rs[0];
    if |rs| > 1 {
      assert forall r :: r in rs[1..] ==> r in rs;
      JoinEnds(rs[1..]);
    }
  }

  lemma SkipOtherHead(s: string)
    ensures SkipOther(s) != s ==> Hyphenated(s) == "-" + Hyphenated(SkipOther(s))
  {
  }

  /** What a slug is: the runs of letters and digits of the lower-cased title, in order, with single dashes
      between them; "untitled" if there are none. */
  lemma SlugIsWords(title: string)
    ensures Slug(title) == if Words(title) == [] then "untitled" else Join(Words(title), "-")
  {
    var low := Lower(title);
    var t := SkipOther(low);
    SkipOtherSplit(low);
    if t == "" {
      if low != "" {
        SkipOtherHead(low);
        assert Hyphenated(low) == "-" && TrimLeft("-", IsDash) == "";
      }
    } else {
      var tail := HyphenatedIsJoin(t);
      var words := Runs(t, IsSlugChar, "");
      var j, head := Join(words, "-"), if t == low then "" else "-";
      RunsAreRuns(t, IsSlugChar, "");
      JoinEnds(words);
      SkipOtherHead(low);
      assert Hyphenated(low) == head + j + tail;
      TrimPadded(head, j, tail, IsDash);
    }
  }

  /** Two titles have one slug exactly when they have the same words, or one has none and the other is just
      "untitled". */
  lemma SameSlugIff(a: string, b: string)
    ensures Slug(a) == Slug(b)
            <==> Words(a) == Words(b) || (Words(a) == [] && Words(b) == ["untitled"])
                 || (Words(a) == ["untitled"] && Words(b) == [])
  {
    SlugIsWords(a);
    SlugIsWords(b);
    RunsAreRuns(Lower(a), IsSlugChar, "");
    RunsAreRuns(Lower(b), IsSlugChar, "");
    if Words(a) != [] { SplitJoin(Words(a), '-'); }
    if Words(b) != [] { SplitJoin(Words(b), '-'); }
    SplitJoin(["untitled"], '-');
    assert Join(["untitled"], "-") == "untitled";
  }

  lemma {:induction false} HyphenatedChars(s: string)
    ensures forall c :: c in Hyphenated(s) ==> IsSlugChar(c) || c == '-'
    decreases |s|
  {
    if s != "" && IsSlugChar(s[0]) {
      HyphenatedChars(s[1..]);
    } else if s != "" {
      HyphenatedChars(SkipOther(s[1..]));
    }
  }

  lemma SlugChars(title: string)
    ensures Slug(title) != "" && forall c :: c in Slug(title) ==> IsSlugChar(c) || c == '-'
  {
    HyphenatedChars(Lower(title));
    var a, b := TrimIsSlice(Hyphenated(Lower(title)), IsDash);
  }

  lemma {:induction false} SkipOtherAll(s: string)
    requires forall c :: c in s ==> !IsSlugChar(c)
    ensures SkipOther(s) == ""
    decreases |s|
  {
    if s != "" { SkipOtherAll(s[1..]); }
  }

  /** A title without ASCII letters and digits, a Chinese one for instance, has the slug "untitled". */
  lemma UntitledSlug(title: string)
    requires forall c :: c in Lower(title) ==> !IsSlugChar(c)
    ensures Slug(title) == "untitled"
  {
    var low := Lower(title);
    if low != "" {
      SkipOtherAll(low[1..]);
      assert Hyphenated(low) == "-";
      assert TrimLeft("-", IsDash) == "";
    }
  }
}
