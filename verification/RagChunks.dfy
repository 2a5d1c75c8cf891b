/** What the chunks of a scanned file hold (backend/gaf_ai/rag.py, lines 254-456): their texts, cut into lines
    again, and their ids, for each of the three splitters. */
module RagChunks {
  import opened Prelude
  import opened PyStrings
  import opened WindowSplitter
  import opened MarkdownSplitter
  import opened RagIndex

  /** What splitting a file at newlines gives. */
  ghost predicate AreLines(lines: seq<string>) {
    lines != [] && forall l :: l in lines ==> '\n' !in l
  }

  /** The text of a chunk as lines. */
  function LinesOf(c: Chunk): seq<string> {
    SplitOn(c.entry.content, '\n')
  }

  lemma LinesBack(hash: string -> string, id: string, lines: seq<string>, meta: Meta)
    requires AreLines(lines)
    ensures LinesOf(NewChunk(hash, id, Join(lines, "\n"), meta)) == lines
  {
    SplitJoin(lines, '\n');
  }

  lemma PartAreLines(lines: seq<string>, a: nat, b: nat)
    requires AreLines(lines) && a < b <= |lines|
    ensures AreLines(lines[a..b])
  {
    forall l | l in lines[a..b] ensures l in lines { }
  }

  /** Backslashes become slashes, place by place. */
  lemma SlashesAt(path: string, i: nat)
    requires i < |path|
    ensures |Slashes(path)| == |path| && Slashes(path)[i] == if path[i] == '\\' then '/' else path[i]
  {
  }

  // ----- TypeScript -----

  lemma WindowChunk(hash: string -> string, path: string, lines: seq<string>, meta: Meta, w: Window)
    requires AreLines(lines) && w.start < w.end <= |lines|
    ensures LinesOf(TsChunk(hash, path, lines, meta, w)) == lines[w.start..w.end]
    ensures TsChunk(hash, path, lines, meta, w).id
         == Slashes(path) + "::" + ("chunk_" + Dec(w.start + 1) + "_" + Dec(w.end))
  {
    PartAreLines(lines, w.start, w.end);
    LinesBack(hash, ChunkId(path, w), lines[w.start..w.end], meta);
  }

  /** Only an empty file has no chunks. */
  lemma EmptyTsFile(hash: string -> string, path: string, lines: seq<string>, meta: Meta, window: nat, overlap: nat)
    requires overlap < window && lines != []
    ensures TsChunks(hash, path, lines, meta, window, overlap) == [] <==> lines == [""]
  {
    assert |ChunksOf(hash, path, lines, meta, Windows(|lines|, window, overlap, 0))| > 0;
  }

  lemma ChunkAt(hash: string -> string, path: string, lines: seq<string>, meta: Meta, ws: seq<Window>, k: nat)
    requires AreLines(lines) && (forall w :: w in ws ==> w.start < w.end <= |lines|) && k < |ws|
    ensures var c, w := ChunksOf(hash, path, lines, meta, ws)[k], ws[k];
            && w.start < w.end <= |lines| && LinesOf(c) == lines[w.start..w.end]
            && c.id == Slashes(path) + "::" + ("chunk_" + Dec(w.start + 1) + "_" + Dec(w.end))
  {
    assert ws[k] in ws;
    WindowChunk(hash, path, lines, meta, ws[k]);
  }

  /** One chunk per window, holding the lines of that window under their numbers counted from 1. */
  lemma TsChunksMeaning(hash: string -> string, path: string, lines: seq<string>, meta: Meta, window: nat,
                        overlap: nat, k: nat)
    requires overlap < window && AreLines(lines) && lines != [""] && k < |Windows(|lines|, window, overlap, 0)|
    ensures var chunks, ws := TsChunks(hash, path, lines, meta, window, overlap), Windows(|lines|, window, overlap, 0);
            && |chunks| == |ws| && ws[k].start < ws[k].end <= |lines|
            && LinesOf(chunks[k]) == lines[ws[k].start..ws[k].end]
            && chunks[k].id == Slashes(path) + "::" + ("chunk_" + Dec(ws[k].start + 1) + "_" + Dec(ws[k].end))
  {
    ChunkAt(hash, path, lines, meta, Windows(|lines|, window, overlap, 0), k);
  }

  /** The lines of each chunk, without the first `overlap`. */
  function FreshOf(chunks: seq<Chunk>, overlap: nat): seq<string> {
    if chunks == [] then []
    else
      var own := LinesOf(chunks[0]);
      (if overlap <= |own| then own[overlap..] else []) + FreshOf(chunks[1..], overlap)
  }

  lemma ChunksTail(hash: string -> string, path: string, lines: seq<string>, meta: Meta, ws: seq<Window>)
    requires ws != [] && forall w :: w in ws ==> w.start < w.end <= |lines|
    ensures (forall w :: w in ws[1..] ==> w.start < w.end <= |lines|) && ws[0].start < ws[0].end <= |lines|
    ensures ChunksOf(hash, path, lines, meta, ws)
         == [TsChunk(hash, path, lines, meta, ws[0])] + ChunksOf(hash, path, lines, meta, ws[1..])
  {
    assert ws[0] in ws && forall w :: w in ws[1..] ==> w in ws;
  }

  lemma FreshOfCons(c: Chunk, rest: seq<Chunk>, overlap: nat)
    requires overlap <= |LinesOf(c)|
    ensures FreshOf([c] + rest, overlap) == LinesOf(c)[overlap..] + FreshOf(rest, overlap)
  {
  }

  lemma {:induction false} FreshOfWindows(hash: string -> string, path: string, lines: seq<string>, meta: Meta,
                                          ws: seq<Window>, overlap: nat)
    requires AreLines(lines) && forall w :: w in ws ==> w.start < w.end <= |lines|
    requires forall k :: 0 <= k < |ws| ==> ws[k].start + overlap <= ws[k].end <= |lines|
    ensures FreshOf(ChunksOf(hash, path, lines, meta, ws), overlap) == FreshLines(lines, ws, overlap)
    decreases |ws|
  {
    if ws != [] {
      var w := ws[0];
      ChunksTail(hash, path, lines, meta, ws);
      WindowChunk(hash, path, lines, meta, w);
      FreshOfWindows(hash, path, lines, meta, ws[1..], overlap);
      FreshOfCons(TsChunk(hash, path, lines, meta, w), ChunksOf(hash, path, lines, meta, ws[1..]), overlap);
      assert lines[w.start..w.end][overlap..] == lines[w.start + overlap..w.end];
    }
  }

  lemma WindowsBack(hash: string -> string, path: string, lines: seq<string>, meta: Meta, ws: seq<Window>, overlap: nat)
    requires AreLines(lines) && ws != [] && forall w :: w in ws ==> w.start < w.end <= |lines|
    requires forall k :: 0 <= k < |ws[1..]| ==> ws[1..][k].start + overlap <= ws[1..][k].end <= |lines|
    ensures ws[0].start < ws[0].end <= |lines|
    ensures var chunks := ChunksOf(hash, path, lines, meta, ws);
            chunks != [] && LinesOf(chunks[0]) + FreshOf(chunks[1..], overlap)
                            == lines[ws[0].start..ws[0].end] + FreshLines(lines, ws[1..], overlap)
  {
    ChunksTail(hash, path, lines, meta, ws);
    WindowChunk(hash, path, lines, meta, ws[0]);
    FreshOfWindows(hash, path, lines, meta, ws[1..], overlap);
  }

  /** A TypeScript file can be read back off its chunks: the first as it is, then each without the lines that it
      repeats. */
  lemma TsFileBack(hash: string -> string, path: string, lines: seq<string>, meta: Meta, window: nat, overlap: nat)
    requires overlap < window && AreLines(lines) && lines != [""]
    ensures var chunks := TsChunks(hash, path, lines, meta, window, overlap);
            chunks != [] && LinesOf(chunks[0]) + FreshOf(chunks[1..], overlap) == lines
  {
    ChunksRebuild(lines, window, overlap);
    WindowsBack(hash, path, lines, meta, Windows(|lines|, window, overlap, 0), overlap);
  }

  // ----- Markdown -----

  lemma {:induction false} SectionsAreLines(lines: seq<string>)
    requires forall l :: l in lines ==> '\n' !in l
    ensures forall s :: s in Sections(lines) ==> AreLines(s.lines)
    ensures Sections(lines) == [] <==> BodyLength(lines) == |lines|
    decreases |lines|
  {
    if lines != [] && !IsHeader(lines[0]) {
      SectionsAreLines(lines[1..]);
    } else if lines != [] {
      var end := 1 + BodyLength(lines[1..]);
      SectionsAtHeader(lines, end);
      SectionsAreLines(lines[end..]);
      assert forall l :: l in lines[..end] ==> l in lines;
    }
  }

  /** One chunk per section, holding its lines under the slug of its title. */
  lemma SectionChunksMeaning(hash: string -> string, path: string, lines: seq<string>, meta: Meta, k: nat)
    requires AreLines(lines) && k < |Sections(lines)|
    ensures var chunks := MarkdownChunks(hash, path, lines, meta);
            && |chunks| == |Sections(lines)| && LinesOf(chunks[k]) == Sections(lines)[k].lines
            && chunks[k].id == Slashes(path) + "::" + ("section_" + Slug(Sections(lines)[k].title))
  {
    SectionsAreLines(lines);
    var s := Sections(lines)[k];
    assert s in Sections(lines);
    LinesBack(hash, SectionId(path, s.title), s.lines, meta);
  }

  /** The lines of the chunks, one after the other. */
  function LinesOfAll(chunks: seq<Chunk>): seq<string> {
    if chunks == [] then [] else LinesOf(chunks[0]) + LinesOfAll(chunks[1..])
  }

  lemma {:induction false} LinesOfSections(hash: string -> string, path: string, meta: Meta, secs: seq<Section>)
    requires forall s :: s in secs ==> AreLines(s.lines)
    ensures LinesOfAll(SectionChunks(hash, path, meta, secs)) == AllLines(secs)
    decreases |secs|
  {
    if secs != [] {
      LinesBack(hash, SectionId(path, secs[0].title), secs[0].lines, meta);
      LinesOfSections(hash, path, meta, secs[1..]);
      assert SectionChunks(hash, path, meta, secs)[1..] == SectionChunks(hash, path, meta, secs[1..]);
    }
  }

  /** The chunks of a Markdown file hold it from its first header on, and all of it, in one chunk, when it has no
      header. */
  lemma MarkdownFileBack(hash: string -> string, path: string, lines: seq<string>, meta: Meta)
    requires AreLines(lines)
    ensures var chunks := MarkdownChunks(hash, path, lines, meta);
            && ((exists l :: l in lines && IsHeader(l)) ==> LinesOfAll(chunks) == lines[BodyLength(lines)..])
            && ((forall l :: l in lines ==> !IsHeader(l)) ==>
                  |chunks| == 1 && LinesOf(chunks[0]) == lines && chunks[0].id == Slashes(path) + "::" + "module")
  {
    SectionsAreLines(lines);
    var n := BodyLength(lines);
    if n < |lines| {
      assert lines[n] in lines;
      SectionsRebuild(lines);
      LinesOfSections(hash, path, meta, Sections(lines));
    } else {
      LinesBack(hash, DocId(path, "module"), lines, meta);
    }
  }

  // ----- Python -----

  lemma {:induction false} SymbolChunksConcat(hash: string -> string, path: string, meta: Meta, a: seq<Symbol>,
                                              b: seq<Symbol>)
    ensures SymbolChunks(hash, path, meta, a + b)
         == SymbolChunks(hash, path, meta, a) + SymbolChunks(hash, path, meta, b)
    decreases |b|
  {
    if b == [] {
      assert a + b == a;
    } else {
      assert (a + b)[..|a + b| - 1] == a + b[..|b| - 1];
      SymbolChunksConcat(hash, path, meta, a, b[..|b| - 1]);
    }
  }

  /** One symbol: a chunk with its text, under its name and line, when it has a text; with SymbolChunksConcat this
      says what the chunks of all symbols are. */
  lemma OneSymbolChunk(hash: string -> string, path: string, meta: Meta, s: Symbol)
    ensures SymbolChunks(hash, path, meta, [s])
         == if s.content.None? then []
            else [Chunk(Slashes(path) + "::" + (s.name + ":" + Dec(s.line)), WithHash(hash, s.content.value, meta))]
  {
    assert [s][..0] == [];
  }

  /** A Python file of nothing but white space has no chunks; any other has one with the whole source and then
      those of its symbols, none when it does not parse. */
  lemma PythonChunksMeaning(hash: string -> string, path: string, source: string, symbols: Option<seq<Symbol>>,
                            meta: Meta)
    ensures var chunks := PythonChunks(hash, path, source, symbols, meta);
            && (chunks == [] <==> All(source, IsSpace))
            && (chunks != [] ==>
                  && chunks[0] == Chunk(Slashes(path) + "::" + "module", WithHash(hash, source, meta))
                  && chunks[1..] == if symbols.None? then [] else SymbolChunks(hash, path, meta, symbols.value))
  {
    BlankIff(source);
  }
}
