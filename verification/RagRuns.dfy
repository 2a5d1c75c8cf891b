/** What one scan of `index_code_files` (backend/gaf_ai/rag.py) and any run of them leave in the collection,
    with lookups and upsert groups that may fail in between. */
module RagRuns {
  import opened Prelude
  import opened PyStrings
  import opened MarkdownSplitter
  import opened RagIndex
  import opened RagScan

  /** One call: the files it finds, whether the lookup answers, and which groups of 64 get through. */
  datatype Scan = Scan(files: seq<SourceFile>, lookupOk: bool, groupOk: nat -> bool)

  /** The files carry no hash of their own; `index_document` computes it. */
  ghost predicate Plain(files: seq<SourceFile>) {
    forall f :: f in files ==> WellFormed(f) && (f.Skipped? || HASH_KEY !in f.meta)
  }

  /** The collection after one scan, as `RAGRetriever.IndexCodeFiles` states it. */
  ghost function AfterScan(hash: string -> string, c: Collection, s: Scan): Collection
    requires AllWellFormed(s.files)
  {
    AfterFlush(c, AllChunks(hash, s.files), s.lookupOk, s.groupOk)
  }

  ghost predicate AllPlain(scans: seq<Scan>) {
    forall s :: s in scans ==> Plain(s.files)
  }

  ghost function AfterScans(hash: string -> string, c: Collection, scans: seq<Scan>): Collection
    requires AllPlain(scans)
  {
    if scans == [] then c
    else
      var n := |scans| - 1;
      AfterScan(hash, AfterScans(hash, c, scans[..n]), scans[n])
  }

  // ----- one scan -----

  /** A scan writes some of its own ids and nothing else. */
  lemma ScanIsPart(hash: string -> string, c: Collection, s: Scan) returns (ids: set<string>)
    requires AllWellFormed(s.files)
    ensures forall id :: id in ids ==> id in Latest(AllChunks(hash, s.files))
    ensures AfterScan(hash, c, s) == Upserted(c, ids, Latest(AllChunks(hash, s.files)))
  {
    ids := WrittenIds(c, AllChunks(hash, s.files), s.lookupOk, s.groupOk);
  }

  /** Stored hashes stay hashes of the stored contents, whatever fails. */
  lemma ScanKeepsHonest(hash: string -> string, c: Collection, s: Scan)
    requires Plain(s.files) && Honest(c, hash)
    ensures Honest(AfterScan(hash, c, s), hash)
  {
    AllChunksHonest(hash, s.files);
    var ids := ScanIsPart(hash, c, s);
    UpsertedHonest(c, AllChunks(hash, s.files), hash, ids);
  }

  /** A scan without failing groups has the contents of a full re-index of its files: for every scanned id
      the last chunk's text, for every other id what was there. */
  lemma ScanRefinesFull(hash: string -> string, c: Collection, s: Scan)
    requires Injective(hash) && Plain(s.files) && Honest(c, hash) && NoGroupFails(s.groupOk)
    ensures Contents(AfterScan(hash, c, s)) == Contents(FullReindex(c, AllChunks(hash, s.files)))
  {
    var p := AllChunks(hash, s.files);
    AllChunksHonest(hash, s.files);
    FlushIsFlushed(c, p, s.lookupOk, s.groupOk);
    FlushRefinesFull(c, p, hash, s.lookupOk);
  }

  lemma StoredContent(hash: string -> string, c: Collection, s: Scan, id: string)
    requires Injective(hash) && Plain(s.files) && Honest(c, hash) && NoGroupFails(s.groupOk)
    requires id in Latest(AllChunks(hash, s.files))
    ensures id in AfterScan(hash, c, s)
    ensures AfterScan(hash, c, s)[id].content == Latest(AllChunks(hash, s.files))[id].content
  {
    var p := AllChunks(hash, s.files);
    ScanRefinesFull(hash, c, s);
    FullIsMerge(c, p);
    assert id in Contents(FullReindex(c, p)) && id in Contents(AfterScan(hash, c, s));
    assert Contents(AfterScan(hash, c, s))[id] == Contents(FullReindex(c, p))[id];
  }

  /** After such a scan the collection holds, under the id of each section that no later section or file
      shares, the text of that section. */
  lemma LastSectionStored(hash: string -> string, c: Collection, s: Scan, before: seq<SourceFile>, f: SourceFile,
                          after: seq<SourceFile>, k: nat)
    requires Injective(hash) && Plain(s.files) && Honest(c, hash) && NoGroupFails(s.groupOk)
    requires s.files == before + [f] + after && f.MarkdownFile? && k < |Sections(f.lines)|
    requires forall j :: k < j < |Sections(f.lines)| ==>
               Slug(Sections(f.lines)[j].title) != Slug(Sections(f.lines)[k].title)
    requires forall g :: g in after ==> WellFormed(g) && WellFormed(f) && Apart(f, g)
    ensures var t, id := AfterScan(hash, c, s), SectionId(f.path, Sections(f.lines)[k].title);
            id in t && t[id].content == Join(Sections(f.lines)[k].lines, "\n")
  {
    assert f in before + [f] + after;
    LastSectionWins(hash, before, f, after, k);
    StoredContent(hash, c, s, SectionId(f.path, Sections(f.lines)[k].title));
  }

  // ----- runs of scans -----

  lemma {:induction false} RunKeepsHonest(hash: string -> string, c: Collection, scans: seq<Scan>)
    requires AllPlain(scans) && Honest(c, hash)
    ensures Honest(AfterScans(hash, c, scans), hash)
    decreases |scans|
  {
    if scans != [] {
      var n := |scans| - 1;
      RunKeepsHonest(hash, c, scans[..n]);
      ScanKeepsHonest(hash, AfterScans(hash, c, scans[..n]), scans[n]);
    }
  }

  /** Over any run, an id that no scan has a chunk for keeps its entry: nothing is ever removed. */
  lemma {:induction false} UnscannedStays(hash: string -> string, c: Collection, scans: seq<Scan>, id: string)
    requires AllPlain(scans) && forall s :: s in scans ==> id !in Latest(AllChunks(hash, s.files))
    ensures id in AfterScans(hash, c, scans) <==> id in c
    ensures id in c ==> AfterScans(hash, c, scans)[id] == c[id]
    decreases |scans|
  {
    if scans != [] {
      var n := |scans| - 1;
      UnscannedStays(hash, c, scans[..n], id);
      var ids := ScanIsPart(hash, AfterScans(hash, c, scans[..n]), scans[n]);
      assert scans[n] in scans;
    }
  }

  /** After any run of scans, with whatever failures, one scan without failing groups has the contents of a
      full re-index of its files over what the run had left. */
  lemma CleanScanRecovers(hash: string -> string, c: Collection, scans: seq<Scan>, last: Scan)
    requires Injective(hash) && Honest(c, hash) && AllPlain(scans) && Plain(last.files) && NoGroupFails(last.groupOk)
    ensures Contents(AfterScan(hash, AfterScans(hash, c, scans), last))
         == Contents(FullReindex(AfterScans(hash, c, scans), AllChunks(hash, last.files)))
  {
    RunKeepsHonest(hash, c, scans);
    ScanRefinesFull(hash, AfterScans(hash, c, scans), last);
  }

  lemma UpsertedTwice(c: Collection, a: set<string>, b: set<string>, latest: Collection)
    ensures Upserted(Upserted(c, a, latest), b, latest) == Upserted(c, a + b, latest)
  {
  }

  /** Any run over the same files amounts to one upsert of some of their chunks. */
  lemma {:induction false} SameFilesPart(hash: string -> string, c: Collection, scans: seq<Scan>,
                                         files: seq<SourceFile>) returns (ids: set<string>)
    requires Plain(files) && forall s :: s in scans ==> s.files == files
    ensures forall id :: id in ids ==> id in Latest(AllChunks(hash, files))
    ensures AfterScans(hash, c, scans) == Upserted(c, ids, Latest(AllChunks(hash, files)))
    decreases |scans|
  {
    var latest := Latest(AllChunks(hash, files));
    if scans == [] {
      ids := {};
      assert c == Upserted(c, {}, latest);
    } else {
      var n := |scans| - 1;
      assert scans[n] in scans;
      var a := SameFilesPart(hash, c, scans[..n], files);
      var b := ScanIsPart(hash, AfterScans(hash, c, scans[..n]), scans[n]);
      UpsertedTwice(c, a, b, latest);
      ids := a + b;
    }
  }

  /** Failures leave no trace: any number of scans of the same files, each losing any of its groups, followed
      by one that loses none, has the contents of a single full re-index of the original collection. */
  lemma FailuresLeaveNoTrace(hash: string -> string, c: Collection, scans: seq<Scan>, last: Scan)
    requires Injective(hash) && Honest(c, hash) && Plain(last.files) && NoGroupFails(last.groupOk)
    requires forall s :: s in scans ==> s.files == last.files
    ensures Contents(AfterScan(hash, AfterScans(hash, c, scans), last))
         == Contents(FullReindex(c, AllChunks(hash, last.files)))
  {
    var p := AllChunks(hash, last.files);
    var ids := SameFilesPart(hash, c, scans, last.files);
    CleanScanRecovers(hash, c, scans, last);
    FullAbsorbs(c, p, ids);
  }

  /** The chunks of a whole run, scan after scan. */
  function RunChunks(hash: string -> string, scans: seq<Scan>): seq<Chunk>
    requires forall s :: s in scans ==> forall f :: f in s.files ==> WellFormed(f)
  {
    if scans == [] then []
    else
      var n := |scans| - 1;
      assert scans[n] in scans;
      RunChunks(hash, scans[..n]) + AllChunks(hash, scans[n].files)
  }

  lemma FullConcat(c: Collection, p: seq<Chunk>, q: seq<Chunk>)
    ensures FullReindex(c, p + q) == FullReindex(FullReindex(c, p), q)
  {
    FullIsMerge(c, p + q);
    FullIsMerge(c, p);
    FullIsMerge(FullReindex(c, p), q);
    LatestConcat(p, q);
  }

  lemma ContentsOfMerge(a: Collection, b: Collection, p: seq<Chunk>)
    requires Contents(a) == Contents(b)
    ensures Contents(FullReindex(a, p)) == Contents(FullReindex(b, p))
  {
    FullIsMerge(a, p);
    FullIsMerge(b, p);
    assert a.Keys == Contents(a).Keys == b.Keys;
    forall id | id in a ensures a[id].content == b[id].content {
      assert Contents(a)[id] == Contents(b)[id];
    }
  }

  /** A run of scans without failing groups, over files that change from scan to scan, has the contents of
      one full re-index of all their chunks in order: the incremental form refines the simple one. */
  lemma {:induction false} RunRefinesFull(hash: string -> string, c: Collection, scans: seq<Scan>)
    requires Injective(hash) && Honest(c, hash) && AllPlain(scans)
    requires forall s :: s in scans ==> NoGroupFails(s.groupOk)
    ensures Contents(AfterScans(hash, c, scans)) == Contents(FullReindex(c, RunChunks(hash, scans)))
    decreases |scans|
  {
    if scans != [] {
      var n := |scans| - 1;
      var front, last := scans[..n], scans[n];
      assert last in scans;
      RunRefinesFull(hash, c, front);
      CleanScanRecovers(hash, c, front, last);
      ContentsOfMerge(AfterScans(hash, c, front), FullReindex(c, RunChunks(hash, front)), AllChunks(hash, last.files));
      FullConcat(c, RunChunks(hash, front), AllChunks(hash, last.files));
    }
  }
}
