/** Whole scans of `index_code_files` (backend/gaf_ai/rag.py): which chunks of a scan share a document id,
    and what one scan or a run of scans leaves in the collection. */
module RagScan {
  import opened Prelude
  import opened PyStrings
  import opened WindowSplitter
  import opened MarkdownSplitter
  import opened RagIndex

  // ----- document ids can be read back -----

  /** The second part of every document id: it has no "::" of its own and does not begin with a colon. */
  predicate IsSuffix(s: string) {
    s != "" && s[0] != ':' && forall i :: 0 <= i < |s| - 1 ==> s[i] != ':' || s[i + 1] != ':'
  }

  lemma DocIdsDiffer(p: string, a: string, q: string, b: string)
    requires IsSuffix(a) && b != "" && |p| < |q|
    ensures DocId(p, a) != DocId(q, b)
  {
    var s, t := DocId(p, a), DocId(q, b);
    if |s| == |t| {
      assert t[|q|] == ':' && t[|q| + 1] == ':';
      if |q| == |p| + 1 {
        assert s[|q| + 1] == a[0];
      } else {
        var i := |q| - |p| - 2;
        assert s[|q|] == a[i] && s[|q| + 1] == a[i + 1];
      }
    }
  }

  /** Two chunks have one document id exactly when their files' paths are equal up to the direction of the
      slashes and their suffixes are equal. */
  lemma DocIdIff(p: string, a: string, q: string, b: string)
    requires IsSuffix(a) && IsSuffix(b)
    ensures DocId(p, a) == DocId(q, b) <==> Slashes(p) == Slashes(q) && a == b
  {
    if |p| < |q| {
      DocIdsDiffer(p, a, q, b);
    } else if |q| < |p| {
      DocIdsDiffer(q, b, p, a);
    } else if DocId(p, a) == DocId(q, b) {
      var s := DocId(p, a);
      assert s[..|p|] == Slashes(p) && s[..|p|] == Slashes(q);
      assert s[|p| + 2..] == a && s[|p| + 2..] == b;
    }
  }

  // ----- the suffixes of a file's chunks -----

  function WindowSuffix(w: Window): string {
    "chunk_" + Dec(w.start + 1) + "_" + Dec(w.end)
  }

  function SymbolSuffix(s: Symbol): string {
    s.name + ":" + Dec(s.line)
  }

  /** The symbols that become chunks. */
  function Texted(symbols: seq<Symbol>): seq<Symbol> {
    if symbols == [] then []
    else
      var n := |symbols| - 1;
      Texted(symbols[..n]) + if symbols[n].content.Some? then [symbols[n]] else []
  }

  function TsSuffixes(lines: seq<string>): seq<string>
    requires lines != []
  {
    if |lines| == 1 && lines[0] == "" then []
    else
      var ws := Windows(|lines|, TS_WINDOW, TS_OVERLAP, 0);
      seq(|ws|, k requires 0 <= k < |ws| => WindowSuffix(ws[k]))
  }

  function SectionSuffixes(secs: seq<Section>): seq<string> {
    seq(|secs|, k requires 0 <= k < |secs| => "section_" + Slug(secs[k].title))
  }

  function SymbolSuffixes(symbols: seq<Symbol>): seq<string> {
    seq(|symbols|, k requires 0 <= k < |symbols| => SymbolSuffix(symbols[k]))
  }

  function Suffixes(f: SourceFile): seq<string>
    requires WellFormed(f)
  {
    match f
    case TsFile(_, lines, _) => TsSuffixes(lines)
    case MarkdownFile(_, lines, _) => if Sections(lines) == [] then ["module"] else SectionSuffixes(Sections(lines))
    case PythonFile(_, source, symbols, _) =>
      if Strip(source) == "" then []
      else ["module"] + if symbols.Some? then SymbolSuffixes(Texted(symbols.value)) else []
    case Skipped => []
  }

  function PathOf(f: SourceFile): string {
    if f.Skipped? then "" else f.path
  }

  /** `p` are chunks of the file at `path` with the suffixes `sx`, one by one. */
  ghost predicate HasSuffixes(p: seq<Chunk>, path: string, sx: seq<string>) {
    |p| == |sx| && forall k :: 0 <= k < |sx| ==> IsSuffix(sx[k]) && p[k].id == DocId(path, sx[k])
  }

  lemma NoColonIsSuffix(s: string)
    requires s != "" && ':' !in s
    ensures IsSuffix(s)
  {
  }

  lemma WindowSuffixOk(w: Window)
    ensures IsSuffix(WindowSuffix(w))
  {
    var s := WindowSuffix(w);
    forall c | c in s ensures c != ':' {
      assert c in "chunk_" || c in Dec(w.start + 1) || c == '_' || c in Dec(w.end);
    }
    NoColonIsSuffix(s);
  }

  lemma SectionSuffixOk(title: string)
    ensures IsSuffix("section_" + Slug(title))
  {
    SlugChars(title);
    NoColonIsSuffix("section_" + Slug(title));
  }

  lemma SymbolSuffixOk(s: Symbol)
    requires IsName(s.name)
    ensures IsSuffix(SymbolSuffix(s))
  {
    var x, n := SymbolSuffix(s), |s.name|;
    assert x[0] == s.name[0] && s.name[0] in s.name;
    forall i | 0 <= i < |x| - 1 ensures x[i] != ':' || x[i + 1] != ':' {
      if i < n {
        assert x[i] == s.name[i] && s.name[i] in s.name;
      } else {
        assert x[i + 1] == Dec(s.line)[i - n] && Dec(s.line)[i - n] in Dec(s.line);
      }
    }
  }

  lemma SymbolSuffixIff(a: Symbol, b: Symbol)
    requires IsName(a.name) && IsName(b.name)
    ensures SymbolSuffix(a) == SymbolSuffix(b) <==> a.name == b.name && a.line == b.line
  {
    if SymbolSuffix(a) == SymbolSuffix(b) {
      assert a.name + [':'] + Dec(a.line) == b.name + [':'] + Dec(b.line);
      SeparatorUnique(a.name, Dec(a.line), b.name, Dec(b.line), ':');
      DecInjective(a.line, b.line);
    }
  }

  lemma {:induction false} TextedMembers(symbols: seq<Symbol>)
    ensures forall s :: s in Texted(symbols) ==> s in symbols
    decreases |symbols|
  {
    if symbols != [] { TextedMembers(symbols[..|symbols| - 1]); }
  }

  lemma {:induction false} SymbolChunkIds(hash: string -> string, path: string, meta: Meta, symbols: seq<Symbol>)
    requires forall s :: s in symbols ==> IsName(s.name)
    ensures HasSuffixes(SymbolChunks(hash, path, meta, symbols), path, SymbolSuffixes(Texted(symbols)))
    decreases |symbols|
  {
    if symbols != [] {
      var n := |symbols| - 1;
      SymbolChunkIds(hash, path, meta, symbols[..n]);
      SymbolSuffixOk(symbols[n]);
      var before := Texted(symbols[..n]);
      if symbols[n].content.Some? {
        assert Texted(symbols) == before + [symbols[n]];
        assert SymbolSuffixes(Texted(symbols)) == SymbolSuffixes(before) + [SymbolSuffix(symbols[n])];
        assert SymbolId(path, symbols[n]) == DocId(path, SymbolSuffix(symbols[n]));
      } else {
        assert Texted(symbols) == before;
      }
    }
  }

  lemma TsChunkIds(hash: string -> string, path: string, lines: seq<string>, meta: Meta)
    requires lines != []
    ensures HasSuffixes(TsChunks(hash, path, lines, meta, TS_WINDOW, TS_OVERLAP), path, TsSuffixes(lines))
  {
    var sx := TsSuffixes(lines);
    forall k | 0 <= k < |sx| ensures IsSuffix(sx[k]) {
      WindowSuffixOk(Windows(|lines|, TS_WINDOW, TS_OVERLAP, 0)[k]);
    }
  }

  lemma MarkdownChunkIds(hash: string -> string, path: string, lines: seq<string>, meta: Meta)
    requires lines != []
    ensures HasSuffixes(MarkdownChunks(hash, path, lines, meta), path, Suffixes(MarkdownFile(path, lines, meta)))
  {
    var secs := Sections(lines);
    forall k | 0 <= k < |secs| ensures IsSuffix(SectionSuffixes(secs)[k]) {
      SectionSuffixOk(secs[k].title);
    }
    assert IsSuffix("module");
  }

  lemma FileChunkIds(hash: string -> string, f: SourceFile)
    requires WellFormed(f)
    ensures HasSuffixes(FileChunks(hash, f), PathOf(f), Suffixes(f))
  {
    match f {
      case TsFile(path, lines, meta) => TsChunkIds(hash, path, lines, meta);
      case MarkdownFile(path, lines, meta) => MarkdownChunkIds(hash, path, lines, meta);
      case PythonFile(path, source, symbols, meta) =>
        assert IsSuffix("module");
        if symbols.Some? { SymbolChunkIds(hash, path, meta, symbols.value); }
      case Skipped =>
    }
  }

  // ----- when every chunk has an id of its own -----

  ghost predicate DistinctIds(p: seq<Chunk>) {
    forall i, j :: 0 <= i < j < |p| ==> p[i].id != p[j].id
  }

  lemma {:induction false} OrderLength(p: seq<Chunk>)
    ensures |Order(p)| <= |p| && (|Order(p)| == |p| <==> DistinctIds(p))
    ensures forall id :: id in Order(p) <==> exists k :: 0 <= k < |p| && p[k].id == id
    decreases |p|
  {
    if p != [] {
      var n := |p| - 1;
      var front := p[..n];
      OrderLength(front);
      assert forall k :: 0 <= k < n ==> front[k] == p[k];
      if p[n].id !in Order(front) {
        assert DistinctIds(front) <==> DistinctIds(p);
        assert |Order(p)| == |Order(front)| + 1;
      } else {
        var k :| 0 <= k < |front| && front[k].id == p[n].id;
        assert p[k].id == p[n].id && !DistinctIds(p);
      }
    }
  }

  lemma LatestSize(p: seq<Chunk>)
    ensures |Latest(p)| == |Order(p)|
  {
    OrderIsKeys(p);
    SetOfNoDup(Order(p));
    assert (set id | id in Order(p)) == Latest(p).Keys;
  }

  lemma {:induction false} LatestIsLast(p: seq<Chunk>, k: nat)
    requires k < |p| && forall j :: k < j < |p| ==> p[j].id != p[k].id
    ensures p[k].id in Latest(p) && Latest(p)[p[k].id] == p[k].entry
    decreases |p|
  {
    var n := |p| - 1;
    if k < n {
      LatestIsLast(p[..n], k);
    }
  }

  ghost predicate DistinctSlugs(secs: seq<Section>) {
    forall i, j :: 0 <= i < j < |secs| ==> Slug(secs[i].title) != Slug(secs[j].title)
  }

  ghost predicate DistinctSymbols(symbols: seq<Symbol>) {
    forall i, j :: 0 <= i < j < |symbols| ==> symbols[i].name != symbols[j].name || symbols[i].line != symbols[j].line
  }

  /** Within one file: the slugs of the section titles are distinct; no two symbols with text have the same
      name and line. The windows of a TypeScript file never collide. */
  ghost predicate OwnIdsDistinct(f: SourceFile)
    requires WellFormed(f)
  {
    match f
    case MarkdownFile(_, lines, _) => DistinctSlugs(Sections(lines))
    case PythonFile(_, source, symbols, _) =>
      Strip(source) != "" && symbols.Some? ==> DistinctSymbols(Texted(symbols.value))
    case _ => true
  }

  /** Between two files: the paths differ in more than the direction of slashes, or no suffix is shared. */
  ghost predicate Apart(f: SourceFile, g: SourceFile)
    requires WellFormed(f) && WellFormed(g)
  {
    Slashes(PathOf(f)) != Slashes(PathOf(g)) || forall s :: s in Suffixes(f) ==> s !in Suffixes(g)
  }

  ghost predicate AllWellFormed(files: seq<SourceFile>) {
    forall f :: f in files ==> WellFormed(f)
  }

  ghost predicate ApartFromAll(files: seq<SourceFile>, g: SourceFile)
    requires AllWellFormed(files) && WellFormed(g)
  {
    forall f :: f in files ==> Apart(f, g)
  }

  /** Each file is apart from those before it. */
  ghost predicate Separate(files: seq<SourceFile>)
    requires AllWellFormed(files)
  {
    if files == [] then true
    else
      var n := |files| - 1;
      Separate(files[..n]) && ApartFromAll(files[..n], files[n])
  }

  lemma TsSuffixesDistinct(path: string, lines: seq<string>)
    requires lines != []
    ensures NoDup(TsSuffixes(lines))
  {
    var ws, sx := Windows(|lines|, TS_WINDOW, TS_OVERLAP, 0), TsSuffixes(lines);
    forall i, j | 0 <= i < j < |sx| ensures sx[i] != sx[j] {
      ChunkIdsDistinct(path, |lines|, TS_WINDOW, TS_OVERLAP, i, j);
      assert ChunkId(path, ws[i]) == DocId(path, sx[i]) && ChunkId(path, ws[j]) == DocId(path, sx[j]);
    }
  }

  lemma SectionSuffixesIff(secs: seq<Section>)
    ensures NoDup(SectionSuffixes(secs)) <==> DistinctSlugs(secs)
  {
    var sx := SectionSuffixes(secs);
    forall i, j | 0 <= i < j < |secs| ensures sx[i] == sx[j] <==> Slug(secs[i].title) == Slug(secs[j].title) {
      assert sx[i][8..] == Slug(secs[i].title) && sx[j][8..] == Slug(secs[j].title);
    }
    if NoDup(sx) {
      forall i, j | 0 <= i < j < |secs| ensures Slug(secs[i].title) != Slug(secs[j].title) { assert sx[i] != sx[j]; }
    }
  }

  lemma NoDupCons(x: string, s: seq<string>)
    ensures NoDup([x] + s) <==> x !in s && NoDup(s)
  {
    var all := [x] + s;
    assert forall i :: 0 <= i < |s| ==> all[i + 1] == s[i];
    if NoDup(all) {
      forall j | 0 <= j < |s| ensures s[j] != x { assert all[0] != all[j + 1]; }
      forall i, j | 0 <= i < j < |s| ensures s[i] != s[j] { assert all[i + 1] != all[j + 1]; }
    }
  }

  lemma SymbolSuffixesIff(symbols: seq<Symbol>)
    requires forall s :: s in symbols ==> IsName(s.name)
    ensures NoDup(SymbolSuffixes(symbols)) <==> DistinctSymbols(symbols)
  {
    var sx := SymbolSuffixes(symbols);
    forall i, j | 0 <= i < j < |symbols|
      ensures sx[i] == sx[j] <==> symbols[i].name == symbols[j].name && symbols[i].line == symbols[j].line
    {
      SymbolSuffixIff(symbols[i], symbols[j]);
    }
    if NoDup(sx) {
      forall i, j | 0 <= i < j < |symbols|
        ensures symbols[i].name != symbols[j].name || symbols[i].line != symbols[j].line
      {
        assert sx[i] != sx[j];
      }
    }
  }

  lemma ModuleIsNoSymbol(symbols: seq<Symbol>)
    ensures "module" !in SymbolSuffixes(symbols)
  {
    forall k | 0 <= k < |symbols| ensures SymbolSuffixes(symbols)[k] != "module" {
      assert SymbolSuffix(symbols[k])[|symbols[k].name|] == ':';
      assert ':' in SymbolSuffix(symbols[k]) && ':' !in "module";
    }
  }

  lemma SuffixesDistinctIff(f: SourceFile)
    requires WellFormed(f)
    ensures NoDup(Suffixes(f)) <==> OwnIdsDistinct(f)
  {
    match f {
      case TsFile(path, lines, _) => TsSuffixesDistinct(path, lines);
      case MarkdownFile(_, lines, _) => SectionSuffixesIff(Sections(lines));
      case PythonFile(_, source, symbols, _) =>
        if symbols.Some? {
          TextedMembers(symbols.value);
          SymbolSuffixesIff(Texted(symbols.value));
          ModuleIsNoSymbol(Texted(symbols.value));
          NoDupCons("module", SymbolSuffixes(Texted(symbols.value)));
        }
      case Skipped =>
    }
  }

  lemma IdsDistinctIff(p: seq<Chunk>, path: string, sx: seq<string>)
    requires HasSuffixes(p, path, sx)
    ensures DistinctIds(p) <==> NoDup(sx)
  {
    forall i, j | 0 <= i < j < |sx| ensures p[i].id == p[j].id <==> sx[i] == sx[j] {
      DocIdIff(path, sx[i], path, sx[j]);
    }
    if DistinctIds(p) {
      forall i, j | 0 <= i < j < |sx| ensures sx[i] != sx[j] { assert p[i].id != p[j].id; }
    }
  }

  lemma OwnIdsIff(hash: string -> string, f: SourceFile)
    requires WellFormed(f)
    ensures DistinctIds(FileChunks(hash, f)) <==> OwnIdsDistinct(f)
  {
    FileChunkIds(hash, f);
    IdsDistinctIff(FileChunks(hash, f), PathOf(f), Suffixes(f));
    SuffixesDistinctIff(f);
  }

  /** No chunk of `p` has the id of a chunk of `q`. */
  ghost predicate NoSharedId(p: seq<Chunk>, q: seq<Chunk>) {
    forall x, y :: x in p && y in q ==> x.id != y.id
  }

  lemma NoSharedIdIff(p: seq<Chunk>, path: string, sx: seq<string>, q: seq<Chunk>, path': string, sy: seq<string>)
    requires HasSuffixes(p, path, sx) && HasSuffixes(q, path', sy)
    ensures NoSharedId(p, q) <==> Slashes(path) != Slashes(path') || forall s :: s in sx ==> s !in sy
  {
    if Slashes(path) != Slashes(path') || forall s :: s in sx ==> s !in sy {
      forall x, y | x in p && y in q ensures x.id != y.id {
        var i :| 0 <= i < |p| && p[i] == x;
        var j :| 0 <= j < |q| && q[j] == y;
        assert sx[i] in sx && sy[j] in sy;
        DocIdIff(path, sx[i], path', sy[j]);
      }
    } else {
      var s :| s in sx && s in sy;
      var i :| 0 <= i < |sx| && sx[i] == s;
      var j :| 0 <= j < |sy| && sy[j] == s;
      DocIdIff(path, s, path', s);
      assert p[i] in p && q[j] in q && p[i].id == q[j].id;
    }
  }

  lemma ApartIff(hash: string -> string, f: SourceFile, g: SourceFile)
    requires WellFormed(f) && WellFormed(g)
    ensures NoSharedId(FileChunks(hash, f), FileChunks(hash, g)) <==> Apart(f, g)
  {
    FileChunkIds(hash, f);
    FileChunkIds(hash, g);
    NoSharedIdIff(FileChunks(hash, f), PathOf(f), Suffixes(f), FileChunks(hash, g), PathOf(g), Suffixes(g));
  }

  lemma DistinctConcat(p: seq<Chunk>, q: seq<Chunk>)
    ensures DistinctIds(p + q) <==> DistinctIds(p) && DistinctIds(q) && NoSharedId(p, q)
  {
    var all := p + q;
    assert forall i :: 0 <= i < |p| ==> all[i] == p[i];
    assert forall j :: 0 <= j < |q| ==> all[|p| + j] == q[j];
    if DistinctIds(all) {
      forall x, y | x in p && y in q ensures x.id != y.id {
        var i :| 0 <= i < |p| && p[i] == x;
        var j :| 0 <= j < |q| && q[j] == y;
        assert all[i].id != all[|p| + j].id;
      }
      forall i, j | 0 <= i < j < |q| ensures q[i].id != q[j].id {
        assert all[|p| + i].id != all[|p| + j].id;
      }
      forall i, j | 0 <= i < j < |p| ensures p[i].id != p[j].id { assert all[i].id != all[j].id; }
    }
    if DistinctIds(p) && DistinctIds(q) && NoSharedId(p, q) {
      forall i, j | 0 <= i < j < |all| ensures all[i].id != all[j].id {
        if j < |p| {
          assert p[i].id != p[j].id;
        } else if i < |p| {
          assert p[i] in p && q[j - |p|] in q;
        } else {
          assert q[i - |p|].id != q[j - |p|].id;
        }
      }
    }
  }

  lemma SharedConcat(a: seq<Chunk>, b: seq<Chunk>, q: seq<Chunk>)
    ensures NoSharedId(a + b, q) <==> NoSharedId(a, q) && NoSharedId(b, q)
  {
  }

  lemma ApartFromLast(front: seq<SourceFile>, last: SourceFile, g: SourceFile)
    requires AllWellFormed(front + [last]) && WellFormed(g)
    ensures AllWellFormed(front) && WellFormed(last)
    ensures ApartFromAll(front + [last], g) <==> ApartFromAll(front, g) && Apart(last, g)
  {
    var files := front + [last];
    assert last in files && forall f :: f in files <==> f in front || f == last;
  }

  lemma {:induction false} SharedWithAll(hash: string -> string, files: seq<SourceFile>, g: SourceFile)
    requires AllWellFormed(files) && WellFormed(g)
    ensures NoSharedId(AllChunks(hash, files), FileChunks(hash, g)) <==> ApartFromAll(files, g)
    decreases |files|
  {
    if files != [] {
      var front, last := files[..|files| - 1], files[|files| - 1];
      var q := FileChunks(hash, g);
      assert files == front + [last];
      calc {
        NoSharedId(AllChunks(hash, files), q);
        { assert AllChunks(hash, files) == AllChunks(hash, front) + FileChunks(hash, last); }
        NoSharedId(AllChunks(hash, front) + FileChunks(hash, last), q);
        { SharedConcat(AllChunks(hash, front), FileChunks(hash, last), q); }
        NoSharedId(AllChunks(hash, front), q) && NoSharedId(FileChunks(hash, last), q);
        { SharedWithAll(hash, front, g); ApartIff(hash, last, g); }
        ApartFromAll(front, g) && Apart(last, g);
        { ApartFromLast(front, last, g); }
        ApartFromAll(files, g);
      }
    }
  }

  ghost predicate AllOwnDistinct(files: seq<SourceFile>)
    requires AllWellFormed(files)
  {
    forall f :: f in files ==> OwnIdsDistinct(f)
  }

  /** Every chunk of a scan has a document id of its own if and only if no file collides with itself and no
      two files collide. */
  lemma {:induction false} ScanIdsIff(hash: string -> string, files: seq<SourceFile>)
    requires AllWellFormed(files)
    ensures DistinctIds(AllChunks(hash, files)) <==> AllOwnDistinct(files) && Separate(files)
    decreases |files|
  {
    if files != [] {
      var n := |files| - 1;
      var front, last := files[..n], files[n];
      assert forall f :: f in files <==> f in front || f == last by {
        assert files == front + [last];
      }
      ScanIdsIff(hash, front);
      DistinctConcat(AllChunks(hash, front), FileChunks(hash, last));
      OwnIdsIff(hash, last);
      SharedWithAll(hash, front, last);
    }
  }

  /** No two scanned paths differ in the direction of their slashes only. */
  ghost predicate DistinctPaths(files: seq<SourceFile>) {
    forall i, j :: 0 <= i < j < |files| && !files[i].Skipped? && !files[j].Skipped? ==>
      Slashes(files[i].path) != Slashes(files[j].path)
  }

  lemma {:induction false} DistinctPathsSeparate(files: seq<SourceFile>)
    requires AllWellFormed(files) && DistinctPaths(files)
    ensures Separate(files)
    decreases |files|
  {
    if files != [] {
      var n := |files| - 1;
      var front := files[..n];
      assert forall i :: 0 <= i < n ==> front[i] == files[i];
      DistinctPathsSeparate(front);
      forall f | f in front ensures Apart(f, files[n]) {
        var i :| 0 <= i < n && files[i] == f;
      }
    }
  }

  /** "Each section, function and class is a chunk": a scan stores as many documents as it has chunks if and
      only if the slugs are distinct in every Markdown file, (name, line) is distinct in every Python file,
      and no two files collide, which paths that differ in more than their slashes never do. */
  lemma ScanKeepsIff(hash: string -> string, files: seq<SourceFile>)
    requires AllWellFormed(files)
    ensures |Latest(AllChunks(hash, files))| == |AllChunks(hash, files)| <==> AllOwnDistinct(files) && Separate(files)
    ensures DistinctPaths(files) ==> Separate(files)
  {
    OrderLength(AllChunks(hash, files));
    LatestSize(AllChunks(hash, files));
    ScanIdsIff(hash, files);
    if DistinctPaths(files) { DistinctPathsSeparate(files); }
  }

  // ----- inputs that lose a chunk -----

  lemma OneSection(header: string, body: string)
    requires IsHeader(header) && !IsHeader(body)
    ensures Sections([header, body]) == [Section(Title(header), [header, body])]
  {
    var lines := [header, body];
    assert lines[1..] == [body] && [body][1..] == [];
    assert BodyLength([body]) == 1 && lines[..2] == lines && lines[2..] == [];
  }

  lemma OneFile(hash: string -> string, f: SourceFile)
    requires WellFormed(f)
    ensures AllWellFormed([f]) && f in [f] && AllChunks(hash, [f]) == FileChunks(hash, f) && Separate([f])
  {
    assert f in [f] && [f][..0] == [] && [] + FileChunks(hash, f) == FileChunks(hash, f);
    assert AllChunks(hash, [f]) == AllChunks(hash, []) + FileChunks(hash, f);
  }

  lemma TwoFiles(hash: string -> string, f: SourceFile, g: SourceFile)
    requires WellFormed(f) && WellFormed(g)
    ensures AllWellFormed([f, g]) && AllChunks(hash, [f, g]) == FileChunks(hash, f) + FileChunks(hash, g)
    ensures Separate([f, g]) ==> Apart(f, g)
  {
    OneFile(hash, f);
    assert [f, g][..1] == [f];
    assert AllChunks(hash, [f, g]) == AllChunks(hash, [f]) + FileChunks(hash, g);
    if Separate([f, g]) { assert ApartFromAll([f], g); }
  }

  /** A scan with fewer documents than chunks. */
  lemma CollisionLoses(hash: string -> string, files: seq<SourceFile>)
    requires AllWellFormed(files) && !(AllOwnDistinct(files) && Separate(files))
    ensures |Latest(AllChunks(hash, files))| < |AllChunks(hash, files)|
  {
    ScanKeepsIff(hash, files);
    OrderLength(AllChunks(hash, files));
    LatestSize(AllChunks(hash, files));
  }

  lemma OneSectionFile(hash: string -> string, path: string, header: string, body: string)
    requires IsHeader(header) && !IsHeader(body)
    ensures var f := MarkdownFile(path, [header, body], map[]);
            WellFormed(f) && OwnIdsDistinct(f) && |FileChunks(hash, f)| == 1
            && Suffixes(f) == ["section_" + Slug(Title(header))]
  {
    OneSection(header, body);
  }

  lemma SameSuffixesCollide(f: SourceFile, g: SourceFile)
    requires WellFormed(f) && WellFormed(g) && Slashes(PathOf(f)) == Slashes(PathOf(g))
    requires Suffixes(f) == Suffixes(g) != []
    ensures !Apart(f, g)
  {
    assert Suffixes(f)[0] in Suffixes(g);
  }

  lemma TwinsCollide(hash: string -> string, f: SourceFile, g: SourceFile)
    requires WellFormed(f) && WellFormed(g) && OwnIdsDistinct(f) && OwnIdsDistinct(g)
    requires |FileChunks(hash, f)| == 1 && |FileChunks(hash, g)| == 1
    requires Slashes(PathOf(f)) == Slashes(PathOf(g)) && Suffixes(f) == Suffixes(g) != []
    ensures AllWellFormed([f, g]) && AllOwnDistinct([f, g])
    ensures |AllChunks(hash, [f, g])| == 2 && |Latest(AllChunks(hash, [f, g]))| < 2
  {
    SameSuffixesCollide(f, g);
    TwoFiles(hash, f, g);
    CollisionLoses(hash, [f, g]);
  }

  lemma SlashTwins(hash: string -> string, p: string, q: string, header: string, x: string, y: string)
      returns (files: seq<SourceFile>)
    requires IsHeader(header) && !IsHeader(x) && !IsHeader(y) && Slashes(p) == Slashes(q)
    ensures files == [MarkdownFile(p, [header, x], map[]), MarkdownFile(q, [header, y], map[])]
    ensures AllWellFormed(files) && AllOwnDistinct(files)
    ensures |AllChunks(hash, files)| == 2 && |Latest(AllChunks(hash, files))| < 2
  {
    OneSectionFile(hash, p, header, x);
    OneSectionFile(hash, q, header, y);
    TwinsCollide(hash, MarkdownFile(p, [header, x], map[]), MarkdownFile(q, [header, y], map[]));
    files := [MarkdownFile(p, [header, x], map[]), MarkdownFile(q, [header, y], map[])];
  }

  /** Two files whose names differ in a slash only; on a POSIX file system both can exist. Each has one
      section, and one of the two is not stored. */
  lemma SlashPathsCollide(hash: string -> string) returns (files: seq<SourceFile>)
    ensures files == [MarkdownFile("a/b.md", ["## A", "x"], map[]), MarkdownFile("a\\b.md", ["## A", "y"], map[])]
    ensures AllWellFormed(files) && AllOwnDistinct(files)
    ensures |AllChunks(hash, files)| == 2 && |Latest(AllChunks(hash, files))| < 2
  {
    assert Slashes("a/b.md") == "a/b.md" == Slashes("a\\b.md");
    files := SlashTwins(hash, "a/b.md", "a\\b.md", "## A", "x", "y");
  }

  lemma TwoSections(h: string, a: string, k: string, b: string)
    requires IsHeader(h) && !IsHeader(a) && IsHeader(k) && !IsHeader(b)
    ensures Sections([h, a, k, b]) == [Section(Title(h), [h, a]), Section(Title(k), [k, b])]
  {
    var lines := [h, a, k, b];
    assert lines[1..] == [a, k, b] && [a, k, b][1..] == [k, b];
    assert BodyLength([k, b]) == 0 && BodyLength([a, k, b]) == 1;
    assert lines[..2] == [h, a] && lines[2..] == [k, b];
    OneSection(k, b);
  }

  lemma TwoUntitled(hash: string -> string, path: string, h: string, a: string, k: string, b: string)
    requires IsHeader(h) && !IsHeader(a) && IsHeader(k) && !IsHeader(b)
    requires Slug(Title(h)) == Slug(Title(k))
    ensures var f := MarkdownFile(path, [h, a, k, b], map[]);
            WellFormed(f) && |FileChunks(hash, f)| == 2 && !OwnIdsDistinct(f)
  {
    TwoSections(h, a, k, b);
    var secs := Sections([h, a, k, b]);
    assert Slug(secs[0].title) == Slug(secs[1].title);
  }

  lemma OneCharHeader(c: char) returns (h: string)
    requires c as int > 127 && !IsSpace(c)
    ensures h == "## " + [c] && IsHeader(h) && Slug(Title(h)) == "untitled"
  {
    h := "## " + [c];
    assert h[3..] == [c] && TrimLeft([c], IsSpace) == [c] && TrimRight([c], IsSpace) == [c];
    assert Lower([c]) == [c];
    UntitledSlug([c]);
  }

  lemma SlugTwins(hash: string -> string, path: string, h: string, x: string, k: string, y: string)
      returns (files: seq<SourceFile>)
    requires IsHeader(h) && !IsHeader(x) && IsHeader(k) && !IsHeader(y) && Slug(Title(h)) == Slug(Title(k))
    ensures files == [MarkdownFile(path, [h, x, k, y], map[])] && AllWellFormed(files)
    ensures |AllChunks(hash, files)| == 2 && |Latest(AllChunks(hash, files))| < 2
  {
    var f := MarkdownFile(path, [h, x, k, y], map[]);
    files := [f];
    TwoUntitled(hash, path, h, x, k, y);
    OneFile(hash, f);
    CollisionLoses(hash, files);
  }

  /** A file with two Chinese titles: both sections have the slug "untitled", and one is not stored. */
  lemma ChineseTitlesCollide(hash: string -> string) returns (first: string, second: string, files: seq<SourceFile>)
    ensures first == "## \U{7532}" && second == "## \U{4E59}"
    ensures files == [MarkdownFile("a.md", [first, "x", second, "y"], map[])] && AllWellFormed(files)
    ensures |AllChunks(hash, files)| == 2 && |Latest(AllChunks(hash, files))| < 2
  {
    first := OneCharHeader('\U{7532}');
    second := OneCharHeader('\U{4E59}');
    files := SlugTwins(hash, "a.md", first, "x", second, "y");
  }

  /** In any scan, a Markdown file with two titles that have no ASCII letter or digit loses a section. */
  lemma UntitledSectionsCollide(hash: string -> string, files: seq<SourceFile>, f: SourceFile, i: nat, j: nat)
    requires AllWellFormed(files) && f in files && f.MarkdownFile? && i < j < |Sections(f.lines)|
    requires forall k :: k == i || k == j ==> forall c :: c in Lower(Sections(f.lines)[k].title) ==> !IsSlugChar(c)
    ensures |Latest(AllChunks(hash, files))| < |AllChunks(hash, files)|
  {
    var secs := Sections(f.lines);
    UntitledSlug(secs[i].title);
    UntitledSlug(secs[j].title);
    assert !DistinctSlugs(secs) && !OwnIdsDistinct(f);
    CollisionLoses(hash, files);
  }

  // ----- what a scan leaves of a section -----

  lemma {:induction false} LatestConcat(p: seq<Chunk>, q: seq<Chunk>)
    ensures Latest(p + q) == Latest(p) + Latest(q)
    decreases |q|
  {
    if q == [] {
      assert p + q == p;
    } else {
      var n := |q| - 1;
      LatestConcat(p, q[..n]);
      assert (p + q)[..|p + q| - 1] == p + q[..n] && (p + q)[|p + q| - 1] == q[n];
    }
  }

  lemma LatestKeys(p: seq<Chunk>, id: string)
    ensures id in Latest(p) <==> exists c :: c in p && c.id == id
  {
    OrderIsKeys(p);
    OrderLength(p);
    if id in Latest(p) {
      var k :| 0 <= k < |p| && p[k].id == id;
      assert p[k] in p;
    }
    if c :| c in p && c.id == id {
      var k :| 0 <= k < |p| && p[k] == c;
    }
  }

  lemma SectionIdIff(path: string, a: string, b: string)
    ensures SectionId(path, a) == SectionId(path, b) <==> Slug(a) == Slug(b)
  {
    var x, y := "section_" + Slug(a), "section_" + Slug(b);
    SectionSuffixOk(a);
    SectionSuffixOk(b);
    DocIdIff(path, x, path, y);
    assert x[8..] == Slug(a) && y[8..] == Slug(b);
  }

  lemma LastInFile(hash: string -> string, path: string, meta: Meta, secs: seq<Section>, k: nat)
    requires k < |secs| && forall j :: k < j < |secs| ==> Slug(secs[j].title) != Slug(secs[k].title)
    ensures var latest, id := Latest(SectionChunks(hash, path, meta, secs)), SectionId(path, secs[k].title);
            id in latest && latest[id] == WithHash(hash, Join(secs[k].lines, "\n"), meta)
  {
    var p := SectionChunks(hash, path, meta, secs);
    forall j | k < j < |p| ensures p[j].id != p[k].id {
      SectionIdIff(path, secs[j].title, secs[k].title);
    }
    LatestIsLast(p, k);
  }

  lemma ApartMeansNoId(hash: string -> string, f: SourceFile, g: SourceFile, id: string)
    requires WellFormed(f) && WellFormed(g) && Apart(f, g) && id in Latest(FileChunks(hash, f))
    ensures id !in Latest(FileChunks(hash, g))
  {
    ApartIff(hash, f, g);
    LatestKeys(FileChunks(hash, f), id);
    LatestKeys(FileChunks(hash, g), id);
  }

  lemma LatestOfLast(hash: string -> string, front: seq<SourceFile>, last: SourceFile, id: string)
    requires AllWellFormed(front + [last])
    ensures AllWellFormed(front) && WellFormed(last)
    ensures var all, own := Latest(AllChunks(hash, front + [last])), Latest(FileChunks(hash, last));
            && (id in own ==> id in all && all[id] == own[id])
            && (id !in own && id in Latest(AllChunks(hash, front)) ==>
                  id in all && all[id] == Latest(AllChunks(hash, front))[id])
  {
    var files := front + [last];
    assert last in files && files[..|front|] == front && forall f :: f in front ==> f in files;
    LatestConcat(AllChunks(hash, front), FileChunks(hash, last));
  }

  /** The last file of a scan that has a chunk with this id decides what is stored under it. */
  lemma {:induction false} LastFileDecides(hash: string -> string, before: seq<SourceFile>, f: SourceFile,
                                           after: seq<SourceFile>, id: string)
    requires AllWellFormed(before + [f] + after) && WellFormed(f) && id in Latest(FileChunks(hash, f))
    requires forall g :: g in after ==> WellFormed(g) && Apart(f, g)
    ensures id in Latest(AllChunks(hash, before + [f] + after))
    ensures Latest(AllChunks(hash, before + [f] + after))[id] == Latest(FileChunks(hash, f))[id]
    decreases |after|
  {
    if after == [] {
      assert before + [f] + after == before + [f];
      LatestOfLast(hash, before, f, id);
    } else {
      var front, last := after[..|after| - 1], after[|after| - 1];
      assert before + [f] + after == before + [f] + front + [last];
      LatestOfLast(hash, before + [f] + front, last, id);
      LastFileDecides(hash, before, f, front, id);
      ApartMeansNoId(hash, f, last, id);
    }
  }

  /** In the batch of a scan the last section of each slug is the one that counts, as long as no later file
      collides with this one. */
  lemma LastSectionWins(hash: string -> string, before: seq<SourceFile>, f: SourceFile, after: seq<SourceFile>, k: nat)
    requires AllWellFormed(before + [f] + after) && f.MarkdownFile? && WellFormed(f) && k < |Sections(f.lines)|
    requires forall j :: k < j < |Sections(f.lines)| ==>
               Slug(Sections(f.lines)[j].title) != Slug(Sections(f.lines)[k].title)
    requires forall g :: g in after ==> WellFormed(g) && Apart(f, g)
    ensures var s, latest := Sections(f.lines)[k], Latest(AllChunks(hash, before + [f] + after));
            && SectionId(f.path, s.title) in latest
            && latest[SectionId(f.path, s.title)] == WithHash(hash, Join(s.lines, "\n"), f.meta)
  {
    LastInFile(hash, f.path, f.meta, Sections(f.lines), k);
    LastFileDecides(hash, before, f, after, SectionId(f.path, Sections(f.lines)[k].title));
  }
}
