/** The front matter parser of scripts/frontmatter.py: its two nested scanning loops, the functions
    they compute, and a printer that the parser undoes. */
module FrontMatter {
  import opened Prelude
  import opened PyStrings

  datatype Value = Text(text: string) | Items(items: seq<string>)
  datatype Entry = Entry(key: string, value: Value)

  /** An insertion-ordered dict: keys are distinct. */
  type Data = seq<Entry>

  function Keys(d: Data): seq<string> {
    if d == [] then [] else [d[0].key] + Keys(d[1..])
  }

  /** `data[key] = value`: an existing key keeps its place. */
  function Put(d: Data, key: string, v: Value): Data {
    if d == [] then [Entry(key, v)]
    else if d[0].key == key then [Entry(key, v)] + d[1..]
    else [d[0]] + Put(d[1..], key, v)
  }

  /** The value under a key. */
  function Get(d: Data, key: string): Option<Value> {
    if d == [] then None else if d[0].key == key then Some(d[0].value) else Get(d[1..], key)
  }

  /** The last assignment to a key wins, other keys keep their values, and a new key goes to the end. */
  lemma {:induction false} PutMeaning(d: Data, key: string, v: Value, other: string)
    ensures Get(Put(d, key, v), other) == if other == key then Some(v) else Get(d, other)
    ensures Keys(Put(d, key, v)) == if key in Keys(d) then Keys(d) else Keys(d) + [key]
    decreases |d|
  {
    if d != [] { PutMeaning(d[1..], key, v, other); }
  }

  // ----- the patterns -----

  predicate IsKeyStart(c: char) { 'A' <= c <= 'Z' || 'a' <= c <= 'z' || c == '_' }
  predicate IsKeyChar(c: char) { IsKeyStart(c) || '0' <= c <= '9' }
  predicate IsQuote(c: char) { c == '\'' || c == '"' }

  predicate IsKey(s: string) {
    s != "" && IsKeyStart(s[0]) && forall c :: c in s ==> IsKeyChar(c)
  }

  function KeyLength(s: string): (n: nat)
    ensures n <= |s| && (forall c :: c in s[..n] ==> IsKeyChar(c))
  {
    if s == "" || !IsKeyChar(s[0]) then 0
    else
      var m := KeyLength(s[1..]);
      assert s[..m + 1] == [s[0]] + s[1..][..m];
      m + 1
  }

  /** `_KEY_VALUE_RE.match(line)`: key and stripped value. */
  function MatchKeyValue(line: string): Option<(string, string)> {
    var n := KeyLength(line);
    if n == 0 || !IsKeyStart(line[0]) then None
    else
      var rest := TrimLeft(line[n..], IsSpace);
      if rest == "" || rest[0] != ':' then None else Some((line[..n], Strip(rest[1..])))
  }

  /** `next_line.strip().startswith("-")`, which is also when `_LIST_ITEM_RE` matches. */
  predicate IsItemLine(line: string) {
    var rest := TrimLeft(line, IsSpace);
    rest != "" && rest[0] == '-'
  }

  function ItemOf(line: string): string
    requires IsItemLine(line)
  {
    Trim(Strip(TrimLeft(line, IsSpace)[1..]), IsQuote)
  }

  /** `value[1:-1]`. */
  function Inner(v: string): string {
    if |v| < 2 then "" else v[1..|v| - 1]
  }

  predicate Enclosed(v: string, open: char, close: char) {
    v != "" && v[0] == open && v[|v| - 1] == close
  }

  predicate IsInline(v: string) { Enclosed(v, '[', ']') }
  predicate IsQuoted(v: string) { Enclosed(v, '"', '"') || Enclosed(v, '\'', '\'') }

  function InlineItems(parts: seq<string>): seq<string> {
    if parts == [] then []
    else (if Strip(parts[0]) == "" then [] else [Trim(Strip(parts[0]), IsQuote)]) + InlineItems(parts[1..])
  }

  /** The items of the list lines at the front of `lines`. */
  function LeadingItems(lines: seq<string>): (items: seq<string>)
    ensures |items| <= |lines|
  {
    if lines == [] || !IsItemLine(lines[0]) then [] else [ItemOf(lines[0])] + LeadingItems(lines[1..])
  }

  /** They are the items of all list lines up to the first line that is none, in order. */
  lemma {:induction false} LeadingItemsMeaning(front: seq<string>, rest: seq<string>)
    requires (forall l :: l in front ==> IsItemLine(l)) && (rest == [] || !IsItemLine(rest[0]))
    ensures |LeadingItems(front + rest)| == |front|
    ensures forall i :: 0 <= i < |front| ==> LeadingItems(front + rest)[i] == ItemOf(front[i])
    decreases |front|
  {
    if front == [] {
      assert front + rest == rest;
    } else {
      assert front[0] in front && (front + rest)[1..] == front[1..] + rest;
      LeadingItemsMeaning(front[1..], rest);
    }
  }

  // ----- the block -----

  /** Blank lines, comments and lines that are not `key: value` are skipped. */
  function LineField(line: string): Option<(string, string)> {
    var stripped := Strip(line);
    if stripped == "" || stripped[0] == '#' then None else MatchKeyValue(line)
  }

  /** What a value on the key's own line stands for. */
  function SingleValue(v: string): Value {
    if IsInline(v) then Items(InlineItems(SplitOn(Inner(v), ',')))
    else if IsQuoted(v) then Text(Inner(v))
    else Text(v)
  }

  function ParseBlock(lines: seq<string>, d: Data): Data
    decreases |lines|
  {
    if lines == [] then d
    else
      match LineField(lines[0])
      case None => ParseBlock(lines[1..], d)
      case Some((key, v)) =>
        var items := if v == "" then LeadingItems(lines[1..]) else [];
        if items != [] then ParseBlock(lines[1 + |items|..], Put(d, key, Items(items)))
        else ParseBlock(lines[1..], Put(d, key, SingleValue(v)))
  }

  /** Index of the first line that reads "---" when stripped, or the number of lines. */
  function Fence(lines: seq<string>): (n: nat)
    ensures n <= |lines|
  {
    if lines == [] || Strip(lines[0]) == "---" then 0 else 1 + Fence(lines[1..])
  }

  datatype Parsed = Parsed(data: Data, body: string, found: bool)

  function ReadLines(text: string, lines: seq<string>): Parsed {
    if lines == [] || Strip(lines[0]) != "---" || Fence(lines[1..]) == |lines[1..]| then Parsed([], text, false)
    else
      var end := Fence(lines[1..]) + 1;
      Parsed(ParseBlock(lines[1..end], []), Join(lines[end + 1..], "\n"), true)
  }

  function Parse(text: string): Parsed {
    if "---" <= text then ReadLines(text, SplitLines(text)) else Parsed([], text, false)
  }

  ghost predicate IsFence(lines: seq<string>, k: nat) {
    k < |lines| && Strip(lines[k]) == "---"
  }

  lemma {:induction false} FenceMeaning(lines: seq<string>)
    ensures forall k: nat :: k < Fence(lines) ==> !IsFence(lines, k)
    ensures Fence(lines) < |lines| ==> IsFence(lines, Fence(lines))
    decreases |lines|
  {
    if lines != [] && Strip(lines[0]) != "---" {
      FenceMeaning(lines[1..]);
      forall k: nat | k < Fence(lines) ensures !IsFence(lines, k) {
        if k > 0 { assert !IsFence(lines[1..], k - 1); }
      }
    }
  }

  /** Line `k` is the first fence after line 0. */
  ghost predicate FirstFence(lines: seq<string>, k: nat) {
    1 <= k && IsFence(lines, k) && forall j: nat :: 1 <= j < k ==> !IsFence(lines, j)
  }

  lemma FenceExact(lines: seq<string>, k: nat)
    requires FirstFence(lines, k)
    ensures Fence(lines[1..]) == k - 1
  {
    var rest := lines[1..];
    FenceMeaning(rest);
    assert IsFence(rest, k - 1);
    if Fence(rest) < k - 1 {
      assert IsFence(lines, Fence(rest) + 1);
      assert false;
    }
  }

  lemma FenceIsFirst(lines: seq<string>)
    requires lines != [] && Fence(lines[1..]) + 1 < |lines|
    ensures FirstFence(lines, Fence(lines[1..]) + 1)
  {
    var rest := lines[1..];
    FenceMeaning(rest);
    forall k: nat | 1 <= k < Fence(rest) + 1 ensures !IsFence(lines, k) {
      assert !IsFence(rest, k - 1);
    }
  }

  /** The text has a front matter block that ends at line `k`: it begins with "---", its first line reads
      "---", and line `k` is the first further line that does. */
  ghost predicate HasBlock(text: string, k: nat) {
    "---" <= text && IsFence(SplitLines(text), 0) && FirstFence(SplitLines(text), k)
  }

  lemma LinesMeaning(text: string, lines: seq<string>, k: nat)
    requires IsFence(lines, 0) && FirstFence(lines, k)
    ensures ReadLines(text, lines) == Parsed(ParseBlock(lines[1..k], []), Join(lines[k + 1..], "\n"), true)
  {
    FenceExact(lines, k);
  }

  /** With a block the parser returns the fields between the two fences and the lines after the second. */
  lemma BlockMeaning(text: string, k: nat)
    requires HasBlock(text, k)
    ensures k < |SplitLines(text)|
    ensures Parse(text)
         == Parsed(ParseBlock(SplitLines(text)[1..k], []), Join(SplitLines(text)[k + 1..], "\n"), true)
  {
    LinesMeaning(text, SplitLines(text), k);
  }

  /** Without one it returns nothing and the text as it is. */
  lemma ParseMeaning(text: string)
    ensures Parse(text).found <==> exists k: nat :: HasBlock(text, k)
    ensures !Parse(text).found ==> Parse(text) == Parsed([], text, false)
  {
    if Parse(text).found {
      FenceIsFirst(SplitLines(text));
      assert HasBlock(text, Fence(SplitLines(text)[1..]) + 1);
    } else if k: nat :| HasBlock(text, k) {
      BlockMeaning(text, k);
      assert false;
    }
  }

  /** The mapping after the line at `i` (and its list lines), and the index of the next line to read. */
  function Advance(block: seq<string>, i: nat, d: Data): (r: (Data, nat))
    requires i < |block|
    ensures i < r.1 <= |block|
  {
    match LineField(block[i])
    case None => (d, i + 1)
    case Some((key, v)) =>
      var items := if v == "" then LeadingItems(block[i + 1..]) else [];
      if items != [] then (Put(d, key, Items(items)), i + 1 + |items|) else (Put(d, key, SingleValue(v)), i + 1)
  }

  lemma AdvanceStep(block: seq<string>, i: nat, d: Data)
    requires i < |block|
    ensures var (d', j) := Advance(block, i, d); ParseBlock(block[i..], d) == ParseBlock(block[j..], d')
  {
    var j := Advance(block, i, d).1;
    assert block[i..][1..] == block[i + 1..] && block[i..][j - i..] == block[j..];
  }

  lemma LeadingStep(lines: seq<string>, items: seq<string>)
    requires lines != [] && IsItemLine(lines[0])
    ensures items + LeadingItems(lines) == items + [ItemOf(lines[0])] + LeadingItems(lines[1..])
  {
  }

  method ScanItems(block: seq<string>, start: nat) returns (items: seq<string>, j: nat)
    requires start <= |block|
    ensures items == LeadingItems(block[start..]) && j == start + |items| && j <= |block|
  {
    items, j := [], start;
    while j < |block| && IsItemLine(block[j])
      invariant start <= j <= |block| && j == start + |items|
      invariant items + LeadingItems(block[j..]) == LeadingItems(block[start..])
    {
      assert block[j..][1..] == block[j + 1..];
      LeadingStep(block[j..], items);
      items := items + [ItemOf(block[j])];
      j := j + 1;
    }
    assert LeadingItems(block[j..]) == [];
  }

  /** The body of the loop over `i`. */
  method ScanField(block: seq<string>, i: nat, before: Data) returns (data: Data, next: nat)
    requires i < |block|
    ensures (data, next) == Advance(block, i, before)
  {
    var field := LineField(block[i]);
    if field.None? {
      return before, i + 1;
    }
    var (key, value) := field.value;
    if value == "" {
      var items, j := ScanItems(block, i + 1);
      if items != [] {
        return Put(before, key, Items(items)), j;
      }
    }
    return Put(before, key, SingleValue(value)), i + 1;
  }

  method ScanBlock(block: seq<string>) returns (data: Data)
    ensures data == ParseBlock(block, [])
  {
    data := [];
    var i := 0;
    while i < |block|
      invariant 0 <= i <= |block| && ParseBlock(block[i..], data) == ParseBlock(block, [])
      decreases |block| - i
    {
      AdvanceStep(block, i, data);
      data, i := ScanField(block, i, data);
    }
  }

  /** `parse_front_matter`, with its loops over `i` and `j`; both terminate. */
  method ParseFrontMatter(text: string) returns (data: Data, body: string, found: bool)
    ensures Parsed(data, body, found) == Parse(text)
    ensures !found ==> data == [] && body == text
  {
    if !("---" <= text) {
      return [], text, false;
    }
    var lines := SplitLines(text);
    if lines == [] || Strip(lines[0]) != "---" {
      return [], text, false;
    }
    var k := 1;
    while k < |lines| && Strip(lines[k]) != "---"
      invariant 1 <= k <= |lines| && Fence(lines[1..]) == k - 1 + Fence(lines[k..])
    {
      assert lines[k..][1..] == lines[k + 1..];
      k := k + 1;
    }
    if k == |lines| {
      return [], text, false;
    }
    assert Fence(lines[k..]) == 0;
    data := ScanBlock(lines[1..k]);
    body := Join(lines[k + 1..], "\n");
    found := true;
  }

  // ----- the printer -----

  datatype Form =
    | Plain(text: string)
    | Quoted(quote: char, text: string)
    | Inline(items: seq<string>)
    | Multiline(items: seq<string>)

  datatype Field = Field(key: string, form: Form)

  /** An item is printed bare when stripping would keep it, and in quotes otherwise. */
  function PrintItem(x: string): string {
    if x != "" && Trimmed(x, IsSpace) then x else "\"" + x + "\""
  }

  function InlineParts(items: seq<string>, first: bool): seq<string> {
    if items == [] then []
    else [(if first then "" else " ") + PrintItem(items[0])] + InlineParts(items[1..], false)
  }

  function ItemLines(items: seq<string>): seq<string> {
    if items == [] then [] else ["  - " + PrintItem(items[0])] + ItemLines(items[1..])
  }

  function FieldLines(f: Field): seq<string> {
    match f.form
    case Plain(text) => [f.key + ": " + text]
    case Quoted(q, text) => [f.key + ": " + ([q] + text + [q])]
    case Inline(items) => [f.key + ": " + ("[" + Join(InlineParts(items, true), ",") + "]")]
    case Multiline(items) => [f.key + ":"] + ItemLines(items)
  }

  function AllLines(fields: seq<Field>): seq<string> {
    if fields == [] then [] else FieldLines(fields[0]) + AllLines(fields[1..])
  }

  function Print(fields: seq<Field>, body: string): string {
    Glue(["---"] + AllLines(fields) + ["---"], body)
  }

  /** List items survive when they are on one line and neither begin nor end with a quote. */
  predicate GoodItem(x: string) { OneLine(x) && Trimmed(x, IsQuote) }

  predicate GoodForm(f: Form) {
    match f
    case Plain(text) => OneLine(text) && Trimmed(text, IsSpace) && !IsInline(text) && !IsQuoted(text)
    case Quoted(q, text) => OneLine(text) && IsQuote(q)
    case Inline(items) => forall x :: x in items ==> GoodItem(x) && ',' !in x
    case Multiline(items) => items != [] && forall x :: x in items ==> GoodItem(x)
  }

  function Denotes(f: Form): Value {
    match f
    case Plain(text) => Text(text)
    case Quoted(_, text) => Text(text)
    case Inline(items) => Items(items)
    case Multiline(items) => Items(items)
  }

  ghost predicate WellFormed(fields: seq<Field>) {
    && (forall i :: 0 <= i < |fields| ==> IsKey(fields[i].key) && GoodForm(fields[i].form))
    && (forall i, j :: 0 <= i < j < |fields| ==> fields[i].key != fields[j].key)
  }

  function Meaning(fields: seq<Field>): Data {
    seq(|fields|, i requires 0 <= i < |fields| => Entry(fields[i].key, Denotes(fields[i].form)))
  }

  // ----- parsing one printed line -----

  lemma {:induction false} KeyLengthAt(key: string, rest: string)
    requires (forall c :: c in key ==> IsKeyChar(c)) && rest != "" && !IsKeyChar(rest[0])
    ensures KeyLength(key + rest) == |key|
    decreases |key|
  {
    if key == "" {
      assert key + rest == rest;
    } else {
      assert (key + rest)[1..] == key[1..] + rest;
      KeyLengthAt(key[1..], rest);
    }
  }

  lemma {:induction false} TrimRightHead(s: string)
    requires s != "" && !IsSpace(s[0])
    ensures TrimRight(s, IsSpace) != "" && TrimRight(s, IsSpace)[0] == s[0]
    decreases |s|
  {
    if IsSpace(s[|s| - 1]) {
      TrimRightHead(s[..|s| - 1]);
    }
  }

  lemma StripKeepsHead(line: string)
    requires line != "" && !IsSpace(line[0])
    ensures Strip(line) != "" && Strip(line)[0] == line[0]
  {
    assert TrimLeft(line, IsSpace) == line;
    TrimRightHead(line);
  }

  /** A printed `key:` line is recognised, whatever follows the colon. */
  lemma KeyLineField(key: string, rest: string)
    requires IsKey(key)
    ensures LineField(key + ":" + rest) == Some((key, Strip(rest)))
    ensures !IsItemLine(key + ":" + rest) && Strip(key + ":" + rest) != "---"
  {
    var line := key + ":" + rest;
    assert line == key + (":" + rest);
    KeyLengthAt(key, ":" + rest);
    assert line[..|key|] == key && line[|key|..] == ":" + rest;
    assert line[0] == key[0] && !IsSpace(line[0]) && line[0] != '#' && line[0] != '-';
    assert TrimLeft(line, IsSpace) == line;
    var k := TrimRightPrefix(line, IsSpace);
    StripKeepsHead(line);
    assert (":" + rest)[1..] == rest;
  }

  lemma FieldLine(key: string, gap: string, rest: string)
    requires IsKey(key) && All(gap, IsSpace)
    ensures LineField(key + gap + ":" + rest) == Some((key, Strip(rest)))
  {
    var line, tail := key + gap + ":" + rest, gap + (":" + rest);
    assert line == key + tail && tail != "";
    assert tail[0] == if gap == "" then ':' else gap[0];
    assert !IsKeyChar(tail[0]) by {
      if gap != "" { assert gap[0] in gap; }
    }
    KeyLengthAt(key, tail);
    assert line[..|key|] == key && line[|key|..] == tail && line[0] == key[0];
    TrimLeftAll(gap, ":" + rest, IsSpace);
    assert (":" + rest)[1..] == rest;
    StripKeepsHead(line);
  }

  lemma Reassemble(line: string, n: nat, gap: string, tail: string)
    requires n <= |line| && line[n..] == gap + tail && tail != ""
    ensures line == line[..n] + gap + [tail[0]] + tail[1..]
  {
    assert line == line[..n] + line[n..];
  }

  lemma FieldLineParts(line: string, key: string, v: string) returns (gap: string, rest: string)
    requires LineField(line) == Some((key, v))
    ensures IsKey(key) && All(gap, IsSpace) && line == key + gap + ":" + rest && v == Strip(rest)
  {
    var n := KeyLength(line);
    gap := TrimLeftParts(line[n..], IsSpace);
    rest := TrimLeft(line[n..], IsSpace)[1..];
    Reassemble(line, n, gap, TrimLeft(line[n..], IsSpace));
    assert key[0] == line[0];
  }

  /** A field line is exactly a key at the very start, white space, a colon and the value with white space
      around it. */
  lemma FieldLineIff(line: string, key: string, v: string)
    ensures LineField(line) == Some((key, v))
            <==> exists gap, rest ::
                   IsKey(key) && All(gap, IsSpace) && line == key + gap + ":" + rest && v == Strip(rest)
  {
    if LineField(line) == Some((key, v)) {
      var gap, rest := FieldLineParts(line, key, v);
    } else if gap, rest :| IsKey(key) && All(gap, IsSpace) && line == key + gap + ":" + rest && v == Strip(rest) {
      FieldLine(key, gap, rest);
      assert false;
    }
  }

  /** A list line is exactly white space, a dash and the item, with white space and then quotes around it. */
  lemma ItemLineIff(line: string, item: string)
    ensures IsItemLine(line) && ItemOf(line) == item
            <==> exists indent, rest :: All(indent, IsSpace) && line == indent + "-" + rest
                                        && item == Trim(Strip(rest), IsQuote)
  {
    if IsItemLine(line) && ItemOf(line) == item {
      var indent := TrimLeftParts(line, IsSpace);
      var tail := TrimLeft(line, IsSpace);
      assert tail == "-" + tail[1..] && line == indent + "-" + tail[1..];
    }
    if indent, rest :| All(indent, IsSpace) && line == indent + "-" + rest && item == Trim(Strip(rest), IsQuote) {
      assert line == indent + ("-" + rest) && ("-" + rest)[1..] == rest;
      TrimLeftAll(indent, "-" + rest, IsSpace);
    }
  }

  lemma {:induction false} InlineItemsConcat(a: seq<string>, b: seq<string>)
    ensures InlineItems(a + b) == InlineItems(a) + InlineItems(b)
    decreases |a|
  {
    if a == [] {
      assert a + b == b;
    } else {
      assert (a + b)[1..] == a[1..] + b;
      InlineItemsConcat(a[1..], b);
    }
  }

  /** One part of an inline list: a blank one is dropped, white space and then quotes are taken off any other;
      with InlineItemsConcat this says what the items of every list are. */
  lemma InlineItemMeaning(l: string, x: string, r: string)
    requires All(l + r, IsSpace) && Trimmed(x, IsSpace)
    ensures InlineItems([l + x + r]) == if x == "" then [] else [Trim(x, IsQuote)]
  {
    TrimPadded(l, x, r, IsSpace);
    assert InlineItems([l + x + r][1..]) == [];
  }

  lemma StripOneSpace(v: string)
    requires Trimmed(v, IsSpace)
    ensures Strip(" " + v) == v
  {
    TrimPadded(" ", v, "", IsSpace);
    assert " " + v + "" == " " + v;
  }

  /** A printed item is trimmed, non-empty, and loses exactly its printed quotes again. */
  lemma PrintItemBack(x: string)
    requires GoodItem(x)
    ensures PrintItem(x) != "" && Trimmed(PrintItem(x), IsSpace) && OneLine(PrintItem(x))
    ensures Trim(PrintItem(x), IsQuote) == x
    ensures ',' !in x ==> ',' !in PrintItem(x)
  {
    if x != "" && Trimmed(x, IsSpace) {
      TrimPadded("", x, "", IsQuote);
      assert "" + x + "" == x;
    } else {
      TrimPadded("\"", x, "\"", IsQuote);
      var p := PrintItem(x);
      assert forall c :: c in p <==> c == '"' || c in x;
    }
  }

  lemma {:induction false} InlinePartsClean(items: seq<string>, first: bool)
    requires forall x :: x in items ==> GoodItem(x) && ',' !in x
    ensures forall p :: p in InlineParts(items, first) ==> ',' !in p && OneLine(p)
    decreases |items|
  {
    if items != [] {
      InlinePartsClean(items[1..], false);
      PrintItemBack(items[0]);
    }
  }

  lemma InlineItemsCons(part: string, rest: seq<string>)
    requires Strip(part) != ""
    ensures InlineItems([part] + rest) == [Trim(Strip(part), IsQuote)] + InlineItems(rest)
  {
  }

  lemma PartBack(p: string, first: bool)
    requires Trimmed(p, IsSpace)
    ensures Strip((if first then "" else " ") + p) == p
  {
    StripOneSpace(p);
    TrimPadded("", p, "", IsSpace);
    assert "" + p + "" == p && "" + p == p;
  }

  lemma {:induction false} InlineItemsBack(items: seq<string>, first: bool)
    requires forall x :: x in items ==> GoodItem(x) && ',' !in x
    ensures InlineItems(InlineParts(items, first)) == items
    decreases |items|
  {
    if items != [] {
      InlineItemsBack(items[1..], false);
      PrintItemBack(items[0]);
      PartBack(PrintItem(items[0]), first);
      InlineItemsCons((if first then "" else " ") + PrintItem(items[0]), InlineParts(items[1..], false));
      assert items == [items[0]] + items[1..];
    }
  }

  lemma {:induction false} JoinOneLine(parts: seq<string>)
    requires forall p :: p in parts ==> OneLine(p)
    ensures OneLine(Join(parts, ","))
    decreases |parts|
  {
    if parts != [] { assert parts[0] in parts; }
    if |parts| > 1 { JoinOneLine(parts[1..]); }
  }

  lemma InlineValueBack(items: seq<string>)
    requires forall x :: x in items ==> GoodItem(x) && ',' !in x
    ensures var v := "[" + Join(InlineParts(items, true), ",") + "]";
            IsInline(v) && Trimmed(v, IsSpace) && OneLine(v) && InlineItems(SplitOn(Inner(v), ',')) == items
  {
    var parts := InlineParts(items, true);
    var v := "[" + Join(parts, ",") + "]";
    InlineItemsBack(items, true);
    InlinePartsClean(items, true);
    JoinOneLine(parts);
    assert Inner(v) == Join(parts, ",");
    if items == [] {
      assert SplitOn("", ',') == [""] && InlineItems([""]) == [];
    } else {
      SplitJoin(parts, ',');
    }
  }

  lemma ItemLineStripped(p: string)
    requires p != "" && Trimmed(p, IsSpace)
    ensures Strip("  - " + p) == "- " + p && "- " + p != "---"
  {
    TrimPadded("  ", "- " + p, "", IsSpace);
    assert "  " + ("- " + p) + "" == "  - " + p;
    assert ("- " + p)[1] == ' ';
  }

  lemma ItemLineBack(p: string)
    requires p != "" && Trimmed(p, IsSpace) && OneLine(p)
    ensures var l := "  - " + p;
            IsItemLine(l) && ItemOf(l) == Trim(p, IsQuote) && OneLine(l) && Strip(l) != "---"
  {
    ItemLineStripped(p);
    assert "  - " + p == "  " + ("- " + p);
    TrimLeftAll("  ", "- " + p, IsSpace);
    assert ("- " + p)[1..] == " " + p;
    StripOneSpace(p);
  }

  lemma {:induction false} ItemLinesHarmless(items: seq<string>)
    requires forall x :: x in items ==> GoodItem(x)
    ensures forall l :: l in ItemLines(items) ==> OneLine(l) && Strip(l) != "---"
    decreases |items|
  {
    if items != [] {
      ItemLinesHarmless(items[1..]);
      PrintItemBack(items[0]);
      ItemLineBack(PrintItem(items[0]));
    }
  }

  lemma LeadingCons(line: string, rest: seq<string>)
    requires IsItemLine(line)
    ensures LeadingItems([line] + rest) == [ItemOf(line)] + LeadingItems(rest)
  {
  }

  lemma {:induction false} ItemLinesBack(items: seq<string>, after: seq<string>)
    requires forall x :: x in items ==> GoodItem(x)
    requires after == [] || !IsItemLine(after[0])
    ensures |ItemLines(items)| == |items| && LeadingItems(ItemLines(items) + after) == items
    decreases |items|
  {
    if items == [] {
      assert ItemLines(items) + after == after;
    } else {
      ItemLinesBack(items[1..], after);
      PrintItemBack(items[0]);
      ItemLineBack(PrintItem(items[0]));
      var line := "  - " + PrintItem(items[0]);
      LeadingCons(line, ItemLines(items[1..]) + after);
      ConcatAssoc([line], ItemLines(items[1..]), after);
      assert items == [items[0]] + items[1..];
    }
  }

  // ----- the round trip -----

  lemma KeyIsOneLine(key: string)
    requires IsKey(key)
    ensures OneLine(key)
  {
  }

  /** A field with a value on its line, or with none and no list line below, is assigned that value. */
  lemma FieldStep(line: string, key: string, v: string, after: seq<string>, d: Data)
    requires LineField(line) == Some((key, v)) && (v != "" || after == [] || !IsItemLine(after[0]))
    ensures ParseBlock([line] + after, d) == ParseBlock(after, Put(d, key, SingleValue(v)))
  {
    if v == "" { assert LeadingItems(after) == []; }
  }

  lemma PrintedField(key: string, v: string)
    requires IsKey(key) && Trimmed(v, IsSpace) && OneLine(v)
    ensures var l := key + ": " + v;
            LineField(l) == Some((key, v)) && OneLine(l) && Strip(l) != "---" && !IsItemLine(l)
  {
    assert key + ": " + v == key + ":" + (" " + v);
    KeyLineField(key, " " + v);
    StripOneSpace(v);
    KeyIsOneLine(key);
  }

  lemma OneFieldLine(key: string, v: string, after: seq<string>, d: Data)
    requires IsKey(key) && Trimmed(v, IsSpace) && OneLine(v) && (after == [] || !IsItemLine(after[0]))
    ensures ParseBlock([key + ": " + v] + after, d) == ParseBlock(after, Put(d, key, SingleValue(v)))
    ensures OneLine(key + ": " + v) && Strip(key + ": " + v) != "---" && !IsItemLine(key + ": " + v)
  {
    PrintedField(key, v);
    FieldStep(key + ": " + v, key, v, after, d);
  }

  lemma MultilineStep(line: string, key: string, lines: seq<string>, after: seq<string>, d: Data)
    requires LineField(line) == Some((key, "")) && LeadingItems(lines) != []
    requires |lines| == |LeadingItems(lines)| + |after| && lines[|LeadingItems(lines)|..] == after
    ensures ParseBlock([line] + lines, d) == ParseBlock(after, Put(d, key, Items(LeadingItems(lines))))
  {
  }

  /** A field without a value takes the items of all list lines right below it. */
  lemma ListStep(line: string, key: string, front: seq<string>, after: seq<string>, d: Data)
    returns (items: seq<string>)
    requires LineField(line) == Some((key, "")) && front != [] && forall l :: l in front ==> IsItemLine(l)
    requires after == [] || !IsItemLine(after[0])
    ensures |items| == |front| && forall i :: 0 <= i < |items| ==> items[i] == ItemOf(front[i])
    ensures ParseBlock([line] + (front + after), d) == ParseBlock(after, Put(d, key, Items(items)))
  {
    LeadingItemsMeaning(front, after);
    items := LeadingItems(front + after);
    MultilineStep(line, key, front + after, after, d);
  }

  ghost predicate InBrackets(v: string) { exists y :: v == "[" + y + "]" }

  ghost predicate InQuotes(v: string) {
    (exists q :: IsQuote(q) && v == [q]) || (exists q, y :: IsQuote(q) && v == [q] + y + [q])
  }

  lemma EnclosedParts(v: string)
    ensures IsInline(v) ==> InBrackets(v)
    ensures IsQuoted(v) ==> InQuotes(v)
  {
    if |v| >= 2 {
      var y := v[1..|v| - 1];
      assert v == [v[0]] + y + [v[|v| - 1]];
      if IsInline(v) { assert v == "[" + y + "]"; }
    } else if |v| == 1 {
      assert v == [v[0]];
    }
  }

  /** What stands in brackets is an inline list, what stands in quotes the text between them (a lone quote is
      empty), anything else itself. */
  lemma SingleValueMeaning(x: string, q: char, v: string)
    requires IsQuote(q)
    ensures SingleValue("[" + x + "]") == Items(InlineItems(SplitOn(x, ',')))
    ensures SingleValue([q] + x + [q]) == Text(x) && SingleValue([q]) == Text("")
    ensures !InBrackets(v) && !InQuotes(v) ==> SingleValue(v) == Text(v)
  {
    assert Inner("[" + x + "]") == x && Inner([q] + x + [q]) == x;
    EnclosedParts(v);
  }

  lemma MultilineBack(key: string, items: seq<string>, after: seq<string>, d: Data)
    requires IsKey(key) && GoodForm(Multiline(items)) && (after == [] || !IsItemLine(after[0]))
    ensures var ls := [key + ":"] + ItemLines(items);
            && ParseBlock(ls + after, d) == ParseBlock(after, Put(d, key, Items(items)))
            && (forall l :: l in ls ==> OneLine(l) && Strip(l) != "---") && !IsItemLine(key + ":")
  {
    ItemLinesBack(items, after);
    ItemLinesHarmless(items);
    KeyLineField(key, "");
    KeyIsOneLine(key);
    assert key + ":" + "" == key + ":";
    ConcatAssoc([key + ":"], ItemLines(items), after);
    MultilineStep(key + ":", key, ItemLines(items) + after, after, d);
  }

  lemma QuotedValueBack(q: char, text: string)
    requires IsQuote(q) && OneLine(text)
    ensures var v := [q] + text + [q]; Trimmed(v, IsSpace) && OneLine(v) && SingleValue(v) == Text(text)
  {
    var v := [q] + text + [q];
    assert Inner(v) == text && v[0] == q && v[|v| - 1] == q;
  }

  /** One printed field in front of lines that do not begin with a list item. */
  lemma FieldBack(f: Field, after: seq<string>, d: Data)
    requires IsKey(f.key) && GoodForm(f.form) && (after == [] || !IsItemLine(after[0]))
    ensures ParseBlock(FieldLines(f) + after, d) == ParseBlock(after, Put(d, f.key, Denotes(f.form)))
    ensures forall l :: l in FieldLines(f) ==> OneLine(l) && Strip(l) != "---"
    ensures FieldLines(f) != [] && !IsItemLine(FieldLines(f)[0])
  {
    match f.form {
      case Plain(text) =>
        OneFieldLine(f.key, text, after, d);
      case Quoted(q, text) =>
        QuotedValueBack(q, text);
        OneFieldLine(f.key, [q] + text + [q], after, d);
      case Inline(items) =>
        InlineValueBack(items);
        OneFieldLine(f.key, "[" + Join(InlineParts(items, true), ",") + "]", after, d);
      case Multiline(items) =>
        MultilineBack(f.key, items, after, d);
    }
  }

  lemma WellFormedTail(fields: seq<Field>)
    requires WellFormed(fields) && fields != []
    ensures WellFormed(fields[1..])
    ensures forall i :: 0 <= i < |fields[1..]| ==> fields[1..][i].key != fields[0].key
  {
  }

  ghost predicate NewKeys(fields: seq<Field>, d: Data) {
    forall i :: 0 <= i < |fields| ==> fields[i].key !in Keys(d)
  }

  lemma {:induction false} FieldsHarmless(fields: seq<Field>)
    requires WellFormed(fields)
    ensures forall l :: l in AllLines(fields) ==> OneLine(l) && Strip(l) != "---"
    ensures AllLines(fields) == [] || !IsItemLine(AllLines(fields)[0])
    decreases |fields|
  {
    if fields != [] {
      WellFormedTail(fields);
      FieldsHarmless(fields[1..]);
      FieldBack(fields[0], AllLines(fields[1..]), []);
    }
  }

  lemma MeaningStep(fields: seq<Field>, d: Data)
    requires fields != []
    ensures d + Meaning(fields) == d + [Entry(fields[0].key, Denotes(fields[0].form))] + Meaning(fields[1..])
  {
  }

  lemma HarmlessFront(fields: seq<Field>, after: seq<string>)
    requires WellFormed(fields) && (after == [] || !IsItemLine(after[0]))
    ensures var lines := AllLines(fields) + after; lines == [] || !IsItemLine(lines[0])
  {
  }

  lemma NewKeysTail(fields: seq<Field>, d: Data, v: Value)
    requires WellFormed(fields) && fields != [] && NewKeys(fields, d)
    ensures Put(d, fields[0].key, v) == d + [Entry(fields[0].key, v)]
    ensures NewKeys(fields[1..], d + [Entry(fields[0].key, v)])
  {
  }

  /** Printed fields in front of lines that do not begin with a list item. */
  lemma {:induction false} FieldsBack(fields: seq<Field>, after: seq<string>, d: Data)
    requires WellFormed(fields) && NewKeys(fields, d) && (after == [] || !IsItemLine(after[0]))
    ensures ParseBlock(AllLines(fields) + after, d) == ParseBlock(after, d + Meaning(fields))
    decreases |fields|
  {
    if fields == [] {
      assert AllLines(fields) + after == after && d + Meaning(fields) == d;
    } else {
      var f, rest := fields[0], fields[1..];
      var e := Entry(f.key, Denotes(f.form));
      WellFormedTail(fields);
      NewKeysTail(fields, d, e.value);
      FieldsBack(rest, after, d + [e]);
      HarmlessFront(rest, after);
      FieldBack(f, AllLines(rest) + after, d);
      ConcatAssoc(FieldLines(f), AllLines(rest), after);
      MeaningStep(fields, d);
    }
  }

  lemma StripFence()
    ensures Strip("---") == "---"
  {
  }

  lemma {:induction false} FenceAt(lines: seq<string>, after: seq<string>)
    requires forall l :: l in lines ==> Strip(l) != "---"
    ensures Fence(lines + ["---"] + after) == |lines|
    decreases |lines|
  {
    var all := lines + ["---"] + after;
    StripFence();
    if lines != [] {
      FenceAt(lines[1..], after);
      assert all[1..] == lines[1..] + ["---"] + after;
    }
  }

  lemma FencedLines(block: seq<string>, body: string)
    requires forall l :: l in block ==> OneLine(l)
    ensures SplitLines(Glue(["---"] + block + ["---"], body)) == ["---"] + (block + ["---"] + SplitLines(body))
    ensures "---" <= Glue(["---"] + block + ["---"], body)
  {
    var head := ["---"] + block + ["---"];
    SplitGlue(head, body);
    ConcatAssoc(["---"], block, ["---"]);
    ConcatAssoc(["---"], block + ["---"], SplitLines(body));
    ConcatAssoc("---", "\n", Glue(head[1..], body));
  }

  lemma ReadFenced(text: string, block: seq<string>, after: seq<string>)
    requires Fence(block + ["---"] + after) == |block|
    ensures ReadLines(text, ["---"] + (block + ["---"] + after))
         == Parsed(ParseBlock(block, []), Join(after, "\n"), true)
  {
    StripFence();
    var lines := ["---"] + (block + ["---"] + after);
    assert lines[1..] == block + ["---"] + after;
    assert lines[1..|block| + 1] == block && lines[|block| + 2..] == after;
  }

  /** A fenced block of harmless lines is found and handed to `ParseBlock` whole. */
  lemma ParseFenced(block: seq<string>, body: string)
    requires forall l :: l in block ==> OneLine(l) && Strip(l) != "---"
    ensures Parse(Glue(["---"] + block + ["---"], body))
         == Parsed(ParseBlock(block, []), Join(SplitLines(body), "\n"), true)
  {
    FencedLines(block, body);
    FenceAt(block, SplitLines(body));
    ReadFenced(Glue(["---"] + block + ["---"], body), block, SplitLines(body));
  }

  lemma BlockBack(fields: seq<Field>, d: Data)
    requires WellFormed(fields) && NewKeys(fields, d)
    ensures ParseBlock(AllLines(fields), d) == d + Meaning(fields)
  {
    FieldsBack(fields, [], d);
    assert AllLines(fields) + [] == AllLines(fields);
  }

  /** Parsing undoes printing: for every well-formed mapping, in any mix of the documented styles, the
      parser returns the mapping and the body with its line breaks normalised. */
  lemma ParsePrint(fields: seq<Field>, body: string)
    requires WellFormed(fields)
    ensures Parse(Print(fields, body)) == Parsed(Meaning(fields), Join(SplitLines(body), "\n"), true)
  {
    assert NewKeys(fields, []);
    BlockBack(fields, []);
    FieldsHarmless(fields);
    ParseFenced(AllLines(fields), body);
    assert [] + Meaning(fields) == Meaning(fields);
  }

  /** The body comes back unchanged if and only if it has no break but newline and does not end in one. */
  lemma RoundTrip(fields: seq<Field>, body: string)
    requires WellFormed(fields)
    ensures Parse(Print(fields, body)).data == Meaning(fields) && Parse(Print(fields, body)).found
    ensures Parse(Print(fields, body)).body == body <==> CleanText(body)
  {
    ParsePrint(fields, body);
    JoinSplitLinesIff(body);
  }

  /** A blank line, a comment, or any other line that is neither `key: value` nor a list item. */
  predicate IsNoise(line: string) {
    LineField(line).None? && !IsItemLine(line)
  }

  /** A line that is no field is skipped where a field is expected; a stray list item too. */
  lemma NoiseStep(line: string, rest: seq<string>, d: Data)
    requires LineField(line).None?
    ensures ParseBlock([line] + rest, d) == ParseBlock(rest, d)
  {
  }

  lemma {:induction false} NoiseSkipped(noise: seq<string>, after: seq<string>, d: Data)
    requires forall l :: l in noise ==> IsNoise(l)
    requires after == [] || !IsItemLine(after[0])
    ensures ParseBlock(noise + after, d) == ParseBlock(after, d)
    ensures noise + after == [] || !IsItemLine((noise + after)[0])
    decreases |noise|
  {
    if noise == [] {
      assert noise + after == after;
    } else {
      var rest := noise[1..] + after;
      assert noise + after == [noise[0]] + rest && IsNoise(noise[0]);
      NoiseSkipped(noise[1..], after, d);
      NoiseStep(noise[0], rest, d);
    }
  }

  lemma {:induction false} KeysAt(d: Data)
    ensures |Keys(d)| == |d| && forall i :: 0 <= i < |d| ==> Keys(d)[i] == d[i].key
    decreases |d|
  {
    if d != [] { KeysAt(d[1..]); }
  }

  lemma SplitWellFormed(front: seq<Field>, back: seq<Field>)
    requires WellFormed(front + back)
    ensures WellFormed(front) && WellFormed(back) && NewKeys(front, []) && NewKeys(back, Meaning(front))
    ensures Meaning(front + back) == Meaning(front) + Meaning(back)
  {
    var all := front + back;
    forall i | 0 <= i < |front| ensures all[i] == front[i] { }
    forall j | 0 <= j < |back| ensures all[|front| + j] == back[j] { }
    KeysAt(Meaning(front));
    forall i, j | 0 <= i < j < |front| ensures front[i].key != front[j].key { assert all[i].key != all[j].key; }
    forall i, j | 0 <= i < j < |back| ensures back[i].key != back[j].key {
      assert all[|front| + i].key != all[|front| + j].key;
    }
    forall j | 0 <= j < |back| ensures back[j].key !in Keys(Meaning(front)) {
      forall i | 0 <= i < |front| ensures Keys(Meaning(front))[i] != back[j].key {
        assert all[i].key != all[|front| + j].key;
      }
    }
  }

  /** Comments and blank lines may stand between any two printed fields without changing what is read. */
  lemma NoiseBetweenFields(front: seq<Field>, noise: seq<string>, back: seq<Field>)
    requires WellFormed(front + back) && forall l :: l in noise ==> IsNoise(l)
    ensures ParseBlock(AllLines(front) + (noise + AllLines(back)), []) == Meaning(front + back)
  {
    SplitWellFormed(front, back);
    FieldsHarmless(back);
    var m, lines := Meaning(front), AllLines(back);
    NoiseSkipped(noise, lines, m);
    FieldsBack(front, noise + lines, []);
    assert [] + m == m;
    BlockBack(back, m);
  }

  // ----- what the parser can produce -----

  predicate GoodValue(v: Value) {
    match v
    case Text(text) => OneLine(text)
    case Items(items) => forall x :: x in items ==> GoodItem(x)
  }

  /** Distinct identifier keys, one-line texts, and list items without quotes at their ends. */
  ghost predicate Representable(d: Data) {
    && NoDup(Keys(d))
    && (forall e :: e in d ==> IsKey(e.key) && GoodValue(e.value))
  }

  predicate NoComma(items: seq<string>) {
    forall x :: x in items ==> ',' !in x
  }

  /** The style in which a value is printed. */
  function Canon(v: Value): Form {
    match v
    case Text(text) => if GoodForm(Plain(text)) then Plain(text) else Quoted('"', text)
    case Items(items) => if NoComma(items) then Inline(items) else Multiline(items)
  }

  function CanonFields(d: Data): seq<Field> {
    seq(|d|, i requires 0 <= i < |d| => Field(d[i].key, Canon(d[i].value)))
  }

  lemma CanonDenotes(v: Value)
    ensures Denotes(Canon(v)) == v
  {
  }

  lemma CanonGood(v: Value)
    requires GoodValue(v)
    ensures GoodForm(Canon(v))
  {
  }

  /** Every representable mapping has a well-formed printing. */
  lemma CanonWellFormed(d: Data)
    requires Representable(d)
    ensures WellFormed(CanonFields(d)) && Meaning(CanonFields(d)) == d
  {
    KeysAt(d);
    forall i | 0 <= i < |d|
      ensures GoodForm(Canon(d[i].value)) && IsKey(d[i].key) && Denotes(Canon(d[i].value)) == d[i].value
    {
      assert d[i] in d;
      CanonGood(d[i].value);
      CanonDenotes(d[i].value);
    }
    forall i, j | 0 <= i < j < |d| ensures d[i].key != d[j].key {
      assert Keys(d)[i] != Keys(d)[j];
    }
  }

  lemma {:induction false} PutEntries(d: Data, key: string, v: Value)
    ensures forall e :: e in Put(d, key, v) ==> e in d || e == Entry(key, v)
    decreases |d|
  {
    if d != [] {
      PutEntries(d[1..], key, v);
      assert d == [d[0]] + d[1..];
    }
  }

  lemma PutRepresentable(d: Data, key: string, v: Value)
    requires Representable(d) && IsKey(key) && GoodValue(v)
    ensures Representable(Put(d, key, v))
  {
    PutEntries(d, key, v);
    PutMeaning(d, key, v, key);
  }

  lemma {:induction false} SplitChars(s: string, c: char)
    ensures forall p :: p in SplitOn(s, c) ==> forall x :: x in p ==> x in s
    decreases |s|
  {
    if s != "" {
      SplitChars(s[1..], c);
      assert s == [s[0]] + s[1..];
      var rest := SplitOn(s[1..], c);
      forall p, x | p in SplitOn(s, c) && x in p ensures x in s {
        assert rest[0] in rest;
        if p !in rest { assert p == "" || p == [s[0]] + rest[0]; }
      }
    }
  }

  lemma SliceOneLine(s: string, a: nat, b: nat)
    requires OneLine(s) && a <= b <= |s|
    ensures OneLine(s[a..b])
  {
  }

  lemma TrimGood(s: string, p: char -> bool)
    requires OneLine(s)
    ensures OneLine(Trim(s, p)) && Trimmed(Trim(s, p), p)
  {
    var a, b := TrimIsSlice(s, p);
    SliceOneLine(s, a, b);
  }

  lemma {:induction false} InlineItemsGood(parts: seq<string>)
    requires forall p :: p in parts ==> OneLine(p)
    ensures forall x :: x in InlineItems(parts) ==> GoodItem(x)
    decreases |parts|
  {
    if parts != [] {
      TrimGood(parts[0], IsSpace);
      TrimGood(Strip(parts[0]), IsQuote);
      InlineItemsGood(parts[1..]);
    }
  }

  lemma SingleValueGood(v: string)
    requires OneLine(v)
    ensures GoodValue(SingleValue(v))
  {
    if 2 <= |v| { SliceOneLine(v, 1, |v| - 1); }
    if IsInline(v) {
      SplitChars(Inner(v), ',');
      InlineItemsGood(SplitOn(Inner(v), ','));
    }
  }

  lemma {:induction false} LeadingItemsGood(lines: seq<string>)
    requires forall l :: l in lines ==> OneLine(l)
    ensures forall x :: x in LeadingItems(lines) ==> GoodItem(x)
    decreases |lines|
  {
    if lines != [] && IsItemLine(lines[0]) {
      var k := TrimLeftSuffix(lines[0], IsSpace);
      SliceOneLine(lines[0], k + 1, |lines[0]|);
      assert TrimLeft(lines[0], IsSpace)[1..] == lines[0][k + 1..|lines[0]|];
      TrimGood(lines[0][k + 1..|lines[0]|], IsSpace);
      TrimGood(Strip(lines[0][k + 1..|lines[0]|]), IsQuote);
      LeadingItemsGood(lines[1..]);
    }
  }

  lemma MatchGood(line: string)
    requires OneLine(line) && MatchKeyValue(line).Some?
    ensures IsKey(MatchKeyValue(line).value.0) && OneLine(MatchKeyValue(line).value.1)
  {
    var n := KeyLength(line);
    var k := TrimLeftSuffix(line[n..], IsSpace);
    assert line[n..][k..][1..] == line[n + k + 1..|line|];
    SliceOneLine(line, n + k + 1, |line|);
    TrimGood(line[n + k + 1..|line|], IsSpace);
  }

  lemma {:induction false} ParseBlockGood(lines: seq<string>, d: Data)
    requires Representable(d) && forall l :: l in lines ==> OneLine(l)
    ensures Representable(ParseBlock(lines, d))
    decreases |lines|
  {
    if lines != [] {
      var rest := lines[1..];
      match LineField(lines[0])
      case None => ParseBlockGood(rest, d);
      case Some((key, v)) =>
        MatchGood(lines[0]);
        var items := if v == "" then LeadingItems(rest) else [];
        if items != [] {
          LeadingItemsGood(rest);
          PutRepresentable(d, key, Items(items));
          ParseBlockGood(lines[1 + |items|..], Put(d, key, Items(items)));
        } else {
          SingleValueGood(v);
          PutRepresentable(d, key, SingleValue(v));
          ParseBlockGood(rest, Put(d, key, SingleValue(v)));
        }
    }
  }

  lemma ParseGood(text: string)
    ensures Representable(Parse(text).data)
  {
    SplitLinesOneLine(text);
    var lines := SplitLines(text);
    if Parse(text).found {
      var end := Fence(lines[1..]) + 1;
      ParseBlockGood(lines[1..end], []);
    }
  }

  /** The mappings the parser can produce are exactly the representable ones. */
  lemma ImageIsRepresentable(d: Data)
    ensures (exists text :: Parse(text).found && Parse(text).data == d) <==> Representable(d)
  {
    if text :| Parse(text).found && Parse(text).data == d {
      ParseGood(text);
    }
    if Representable(d) {
      CanonWellFormed(d);
      ParsePrint(CanonFields(d), "");
      var text := Print(CanonFields(d), "");
      assert Parse(text).found && Parse(text).data == d;
    }
  }

  /** Whatever the parser read from any text, printing it and reading it again changes nothing. */
  lemma ReparseStable(text: string, body: string)
    ensures Parse(Print(CanonFields(Parse(text).data), body)).data == Parse(text).data
  {
    ParseGood(text);
    CanonWellFormed(Parse(text).data);
    ParsePrint(CanonFields(Parse(text).data), body);
  }
}
