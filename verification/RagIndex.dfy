/** The incremental index of the RAG retriever (backend/gaf_ai/rag.py): chunks collected in a batch,
    deduplicated, compared by content hash with what the collection stores, and written in groups of
    64, any of which may fail. */
module RagIndex {
  import opened Prelude
  import opened PyStrings
  import opened WindowSplitter
  import opened MarkdownSplitter

  type Meta = map<string, string>
  datatype Entry = Entry(content: string, meta: Meta)
  datatype Chunk = Chunk(id: string, entry: Entry)
  type Collection = map<string, Entry>

  const HASH_KEY := "content_hash"
  const GROUP: nat := 64

  // ----- what a batch means -----

  /** Last write wins. */
  function Latest(pending: seq<Chunk>): Collection {
    if pending == [] then map[]
    else
      var last := pending[|pending| - 1];
      Latest(pending[..|pending| - 1])[last.id := last.entry]
  }

  /** The ids in the order of their first occurrence. */
  function Order(pending: seq<Chunk>): seq<string> {
    if pending == [] then []
    else
      var last := pending[|pending| - 1];
      var front := Order(pending[..|pending| - 1]);
      if last.id in front then front else front + [last.id]
  }

  lemma {:induction false} OrderIsKeys(pending: seq<Chunk>)
    ensures NoDup(Order(pending)) && forall id :: id in Order(pending) <==> id in Latest(pending)
    decreases |pending|
  {
    if pending != [] { OrderIsKeys(pending[..|pending| - 1]); }
  }

  function Ids(pending: seq<Chunk>): seq<string> {
    seq(|pending|, k requires 0 <= k < |pending| => pending[k].id)
  }

  /** The order is that in which the batch first mentions the ids. */
  lemma {:induction false} OrderMeaning(pending: seq<Chunk>)
    ensures forall id :: id in Order(pending) <==> id in Ids(pending)
    ensures FirstSeenOrder(Order(pending), Ids(pending))
    decreases |pending|
  {
    if pending != [] {
      var n := |pending| - 1;
      var front, last := pending[..n], pending[n].id;
      OrderMeaning(front);
      assert Ids(pending) == Ids(front) + [last];
      if last in Order(front) {
        FirstSeenMore(Order(front), Ids(front), last);
      } else {
        FirstSeenNew(Order(front), Ids(front), last);
      }
    }
  }

  function StoredHash(e: Entry): Option<string> {
    if HASH_KEY in e.meta then Some(e.meta[HASH_KEY]) else None
  }

  /** The hash under which `id` was found; nothing is found when the lookup itself failed. */
  function OldHash(c: Collection, lookupOk: bool, id: string): Option<string> {
    if lookupOk && id in c then StoredHash(c[id]) else None
  }

  /** Every batch entry carries a hash: `index_document` put it there. */
  ghost predicate Hashed(pending: seq<Chunk>) {
    forall k :: 0 <= k < |pending| ==> StoredHash(pending[k].entry).Some?
  }

  predicate IsChanged(c: Collection, lookupOk: bool, id: string, e: Entry) {
    OldHash(c, lookupOk, id) == None || OldHash(c, lookupOk, id) != StoredHash(e)
  }

  function Changed(c: Collection, lookupOk: bool, order: seq<string>, latest: Collection): seq<string>
    requires forall id :: id in order ==> id in latest
  {
    if order == [] then []
    else
      var n := |order| - 1;
      assert forall id :: id in order[..n] ==> id in order;
      Changed(c, lookupOk, order[..n], latest)
      + if IsChanged(c, lookupOk, order[n], latest[order[n]]) then [order[n]] else []
  }

  lemma {:induction false} ChangedMembers(c: Collection, lookupOk: bool, order: seq<string>, latest: Collection)
    requires NoDup(order) && forall id :: id in order ==> id in latest
    ensures var ch := Changed(c, lookupOk, order, latest);
            && NoDup(ch)
            && forall id :: id in ch <==> id in order && IsChanged(c, lookupOk, id, latest[id])
    decreases |order|
  {
    if order != [] {
      var n := |order| - 1;
      assert order == order[..n] + [order[n]];
      ChangedMembers(c, lookupOk, order[..n], latest);
    }
  }

  /** Every id is judged on its own and keeps its place. */
  lemma {:induction false} ChangedMeaning(c: Collection, lookupOk: bool, before: seq<string>, id: string,
                                          after: seq<string>, latest: Collection)
    requires forall x :: x in before + [id] + after ==> x in latest
    ensures id in latest && (forall x :: x in before ==> x in latest) && forall x :: x in after ==> x in latest
    ensures Changed(c, lookupOk, before + [id] + after, latest)
         == Changed(c, lookupOk, before, latest) + (if IsChanged(c, lookupOk, id, latest[id]) then [id] else [])
            + Changed(c, lookupOk, after, latest)
    decreases |after|
  {
    var order := before + [id] + after;
    assert id in order && (forall x :: x in before ==> x in order) && forall x :: x in after ==> x in order;
    if after == [] {
      assert order[..|order| - 1] == before;
    } else {
      var front, last := after[..|after| - 1], after[|after| - 1];
      assert order[..|order| - 1] == before + [id] + front && order[|order| - 1] == last;
      assert forall x :: x in before + [id] + front ==> x in order;
      ChangedMeaning(c, lookupOk, before, id, front, latest);
    }
  }

  /** The changed ids of a batch, in order. */
  ghost function ChangedOf(c: Collection, lookupOk: bool, p: seq<Chunk>): (ch: seq<string>)
    ensures NoDup(ch) && forall id :: id in ch <==> id in Latest(p) && IsChanged(c, lookupOk, id, Latest(p)[id])
  {
    OrderIsKeys(p);
    ChangedMembers(c, lookupOk, Order(p), Latest(p));
    Changed(c, lookupOk, Order(p), Latest(p))
  }

  /** The ids whose group of 64 was written, among the first `upto` changed ids. */
  function Written(changed: seq<string>, groupOk: nat -> bool, upto: nat): set<string>
    requires upto <= |changed|
  {
    set k: nat | k < upto && groupOk(k / GROUP) :: changed[k]
  }

  /** The k-th changed id is in group k / 64. */
  lemma WrittenMeaning(changed: seq<string>, groupOk: nat -> bool, id: string)
    ensures id in Written(changed, groupOk, |changed|)
            <==> exists k: nat :: k < |changed| && changed[k] == id && groupOk(k / 64)
  {
  }

  function Only(c: Collection, ids: set<string>): Collection {
    map id | id in ids && id in c :: c[id]
  }

  /** The collection overwritten by the latest entries of `ids`. */
  function Upserted(c: Collection, ids: set<string>, latest: Collection): Collection {
    c + Only(latest, ids)
  }

  lemma UpsertedMore(c: Collection, a: set<string>, b: set<string>, latest: Collection)
    ensures Upserted(c, a + b, latest) == Upserted(c, a, latest) + Only(latest, b)
  {
  }

  lemma {:induction false} SetOfNoDup(s: seq<string>)
    requires NoDup(s)
    ensures |set x | x in s| == |s|
    decreases |s|
  {
    if s != [] {
      SetOfNoDup(s[1..]);
      assert (set x | x in s) == (set x | x in s[1..]) + {s[0]};
    }
  }

  lemma GroupWritten(changed: seq<string>, groupOk: nat -> bool, g: nat, i: nat, end: nat)
    requires NoDup(changed) && i == g * GROUP && i < end <= |changed| && end <= i + GROUP
    ensures i / GROUP == g
    ensures !groupOk(g) ==> Written(changed, groupOk, end) == Written(changed, groupOk, i)
    ensures var ids := set id | id in changed[i..end];
            && (groupOk(g) ==> Written(changed, groupOk, end) == Written(changed, groupOk, i) + ids)
            && Written(changed, groupOk, i) !! ids && |ids| == end - i
  {
    var ids := set id | id in changed[i..end];
    forall k: nat | i <= k < end ensures k / GROUP == g && changed[k] in ids {
      assert changed[k] == changed[i..end][k - i];
    }
    forall id | id in ids ensures exists k: nat :: i <= k < end && changed[k] == id {
      var j :| 0 <= j < end - i && changed[i..end][j] == id;
      assert changed[i + j] == id;
    }
    SetOfNoDup(changed[i..end]);
  }

  ghost predicate HonestBatch(p: seq<Chunk>, hash: string -> string) {
    forall k :: 0 <= k < |p| ==> StoredHash(p[k].entry) == Some(hash(p[k].entry.content))
  }

  /** The ids that one flush of `p` writes: the changed ones whose group got through. */
  ghost function WrittenIds(c: Collection, p: seq<Chunk>, lookupOk: bool, groupOk: nat -> bool): set<string> {
    var ch := ChangedOf(c, lookupOk, p);
    Written(ch, groupOk, |ch|)
  }

  /** The collection after one flush of `p`. */
  ghost function AfterFlush(c: Collection, p: seq<Chunk>, lookupOk: bool, groupOk: nat -> bool): Collection {
    Upserted(c, WrittenIds(c, p, lookupOk, groupOk), Latest(p))
  }

  /** What an upsert of every scanned chunk, in order, leaves in the collection. */
  ghost function FullReindex(c: Collection, p: seq<Chunk>): Collection
    decreases |p|
  {
    if p == [] then c
    else FullReindex(c, p[..|p| - 1])[p[|p| - 1].id := p[|p| - 1].entry]
  }

  // ----- the retriever -----

  const TS_WINDOW: nat := 80
  const TS_OVERLAP: nat := 10

  /** What `ast.walk` reports of a function or class; `content` is absent when its text cannot be cut out. */
  datatype Symbol = Symbol(name: string, line: nat, content: Option<string>)

  /** A scanned file. Text is given by its lines where the splitter splits at newlines. A Python file
      comes with its symbols in walk order, or without if it does not parse; an exception in the middle
      of the walk leaves the symbols before it. `Skipped` cannot be read or raises before any chunk. */
  datatype SourceFile =
    | TsFile(path: string, lines: seq<string>, meta: Meta)
    | MarkdownFile(path: string, lines: seq<string>, meta: Meta)
    | PythonFile(path: string, source: string, symbols: Option<seq<Symbol>>, meta: Meta)
    | Skipped

  /** A Python identifier, as far as it matters here. */
  predicate IsName(s: string) {
    s != "" && ':' !in s
  }

  /** `split` always gives at least one line, and functions and classes have names. */
  predicate WellFormed(f: SourceFile) {
    && (f.TsFile? || f.MarkdownFile? ==> f.lines != [])
    && (f.PythonFile? && f.symbols.Some? ==> forall s :: s in f.symbols.value ==> IsName(s.name))
  }

  datatype AddOutcome = Stored | Ignored | Failed

  // ----- the chunks of a file -----

  function WithHash(hash: string -> string, content: string, meta: Meta): Entry {
    Entry(content, if HASH_KEY in meta then meta else meta[HASH_KEY := hash(content)])
  }

  /** The text is kept and so is all other metadata; a hash of the text is added, unless there is one. */
  lemma WithHashMeaning(hash: string -> string, content: string, meta: Meta)
    ensures var e := WithHash(hash, content, meta);
            && e.content == content && e.meta.Keys == meta.Keys + {"content_hash"}
            && (forall key :: key in meta ==> e.meta[key] == meta[key])
            && ("content_hash" !in meta ==> e.meta["content_hash"] == hash(content))
  {
  }

  function NewChunk(hash: string -> string, id: string, content: string, meta: Meta): Chunk {
    Chunk(id, WithHash(hash, content, meta))
  }

  /** The chunk of one window. */
  function TsChunk(hash: string -> string, path: string, lines: seq<string>, meta: Meta, w: Window): Chunk
    requires w.start < w.end <= |lines|
  {
    NewChunk(hash, ChunkId(path, w), Join(lines[w.start..w.end], "\n"), meta)
  }

  function ChunksOf(hash: string -> string, path: string, lines: seq<string>, meta: Meta, ws: seq<Window>): seq<Chunk>
    requires forall w :: w in ws ==> w.start < w.end <= |lines|
  {
    seq(|ws|, k requires 0 <= k < |ws| => assert ws[k] in ws; TsChunk(hash, path, lines, meta, ws[k]))
  }

  function TsChunks(hash: string -> string, path: string, lines: seq<string>, meta: Meta, window: nat, overlap: nat)
      : seq<Chunk>
    requires overlap < window && lines != []
  {
    if |lines| == 1 && lines[0] == "" then []
    else ChunksOf(hash, path, lines, meta, Windows(|lines|, window, overlap, 0))
  }

  function SectionId(path: string, title: string): string {
    DocId(path, "section_" + Slug(title))
  }

  function SectionChunk(hash: string -> string, path: string, meta: Meta, s: Section): Chunk {
    NewChunk(hash, SectionId(path, s.title), Join(s.lines, "\n"), meta)
  }

  function SectionChunks(hash: string -> string, path: string, meta: Meta, secs: seq<Section>): seq<Chunk> {
    seq(|secs|, k requires 0 <= k < |secs| => SectionChunk(hash, path, meta, secs[k]))
  }

  function MarkdownChunks(hash: string -> string, path: string, lines: seq<string>, meta: Meta): seq<Chunk> {
    if Sections(lines) == [] then [NewChunk(hash, DocId(path, "module"), Join(lines, "\n"), meta)]
    else SectionChunks(hash, path, meta, Sections(lines))
  }

  function SymbolId(path: string, s: Symbol): string {
    DocId(path, s.name + ":" + Dec(s.line))
  }

  function SymbolChunks(hash: string -> string, path: string, meta: Meta, symbols: seq<Symbol>): seq<Chunk> {
    if symbols == [] then []
    else
      var n := |symbols| - 1;
      SymbolChunks(hash, path, meta, symbols[..n])
      + match symbols[n].content
        case None => []
        case Some(text) => [NewChunk(hash, SymbolId(path, symbols[n]), text, meta)]
  }

  function PythonChunks(hash: string -> string, path: string, source: string, symbols: Option<seq<Symbol>>, meta: Meta)
      : seq<Chunk>
  {
    if Strip(source) == "" then []
    else [NewChunk(hash, DocId(path, "module"), source, meta)]
         + if symbols.Some? then SymbolChunks(hash, path, meta, symbols.value) else []
  }

  function FileChunks(hash: string -> string, f: SourceFile): seq<Chunk>
    requires WellFormed(f)
  {
    match f
    case TsFile(path, lines, meta) => TsChunks(hash, path, lines, meta, TS_WINDOW, TS_OVERLAP)
    case MarkdownFile(path, lines, meta) => MarkdownChunks(hash, path, lines, meta)
    case PythonFile(path, source, symbols, meta) => PythonChunks(hash, path, source, symbols, meta)
    case Skipped => []
  }

  function AllChunks(hash: string -> string, files: seq<SourceFile>): seq<Chunk>
    requires forall f :: f in files ==> WellFormed(f)
  {
    if files == [] then [] else AllChunks(hash, files[..|files| - 1]) + FileChunks(hash, files[|files| - 1])
  }

  lemma {:induction false} SymbolsHonest(hash: string -> string, path: string, meta: Meta, symbols: seq<Symbol>)
    requires HASH_KEY !in meta
    ensures HonestBatch(SymbolChunks(hash, path, meta, symbols), hash)
    decreases |symbols|
  {
    if symbols != [] { SymbolsHonest(hash, path, meta, symbols[..|symbols| - 1]); }
  }

  lemma FileHonest(hash: string -> string, f: SourceFile)
    requires WellFormed(f) && (f.Skipped? || HASH_KEY !in f.meta)
    ensures HonestBatch(FileChunks(hash, f), hash)
  {
    if f.PythonFile? && f.symbols.Some? { SymbolsHonest(hash, f.path, f.meta, f.symbols.value); }
  }

  /** What is scanned is honest, so all of the refinement results below apply to it. */
  lemma {:induction false} AllChunksHonest(hash: string -> string, files: seq<SourceFile>)
    requires forall f :: f in files ==> WellFormed(f) && (f.Skipped? || HASH_KEY !in f.meta)
    ensures HonestBatch(AllChunks(hash, files), hash)
    decreases |files|
  {
    if files != [] {
      AllChunksHonest(hash, files[..|files| - 1]);
      FileHonest(hash, files[|files| - 1]);
    }
  }

  lemma {:induction false} SymbolsPrefix(hash: string -> string, path: string, meta: Meta, symbols: seq<Symbol>, i: nat)
    requires i <= |symbols|
    ensures SymbolChunks(hash, path, meta, symbols[..i]) <= SymbolChunks(hash, path, meta, symbols)
    decreases |symbols| - i
  {
    if i < |symbols| {
      SymbolsPrefix(hash, path, meta, symbols, i + 1);
      assert symbols[..i + 1][..i] == symbols[..i];
    } else {
      assert symbols[..i] == symbols;
    }
  }

  /** The module chunk and the chunks of the first `i` symbols are out, `k` in all. */
  ghost predicate AtSymbol(hash: string -> string, path: string, meta: Meta, symbols: seq<Symbol>, all: seq<Chunk>,
                           k: nat, i: nat)
  {
    && i <= |symbols| && all != [] && all[1..] == SymbolChunks(hash, path, meta, symbols)
    && k == 1 + |SymbolChunks(hash, path, meta, symbols[..i])| <= |all|
  }

  /** One iteration of the walk. */
  lemma NextSymbol(hash: string -> string, path: string, meta: Meta, symbols: seq<Symbol>, all: seq<Chunk>,
                   k: nat, i: nat)
    requires AtSymbol(hash, path, meta, symbols, all, k, i) && i < |symbols|
    ensures symbols[i].content.None? ==> AtSymbol(hash, path, meta, symbols, all, k, i + 1)
    ensures symbols[i].content.Some? ==>
              && AtSymbol(hash, path, meta, symbols, all, k + 1, i + 1)
              && all[k] == NewChunk(hash, SymbolId(path, symbols[i]), symbols[i].content.value, meta)
  {
    SymbolsPrefix(hash, path, meta, symbols, i + 1);
    assert symbols[..i + 1][..i] == symbols[..i];
    var upTo := SymbolChunks(hash, path, meta, symbols[..i + 1]);
    assert upTo <= all[1..];
    if symbols[i].content.Some? {
      assert all[k] == all[1..][k - 1] == upTo[k - 1];
    }
  }

  // ----- handing chunks over -----

  function NoAdd(k: nat): AddOutcome { Ignored }

  /** What `index_document` can reach: the collection and the open batch, if any. */
  datatype Store = Store(collection: Collection, batch: Option<seq<Chunk>>)

  /** One call: the store afterwards and what `index_document` returned. */
  function One(ready: bool, s: Store, c: Chunk, add: AddOutcome): (Store, bool) {
    if !ready then (s, false)
    else if s.batch.Some? then (s.(batch := Some(s.batch.value + [c])), true)
    else (if add.Stored? then s.(collection := s.collection[c.id := c.entry]) else s, !add.Failed?)
  }

  /** The store, and the number of calls that returned True, after `index_document` was called with
      each of the first `k` chunks; `add` tells what ChromaDB makes of the k-th immediate add. */
  function HandedFirst(ready: bool, s: Store, chunks: seq<Chunk>, k: nat, add: nat -> AddOutcome): (Store, nat)
    requires k <= |chunks|
  {
    if k == 0 then (s, 0)
    else
      var (t, count) := HandedFirst(ready, s, chunks, k - 1, add);
      var (u, ok) := One(ready, t, chunks[k - 1], add(k - 1));
      (u, if ok then count + 1 else count)
  }

  function Handed(ready: bool, s: Store, chunks: seq<Chunk>, add: nat -> AddOutcome): (Store, nat) {
    HandedFirst(ready, s, chunks, |chunks|, add)
  }

  /** After the first `k` calls the store is `t` and `count` of them returned True. */
  ghost predicate HandedSoFar(ready: bool, s: Store, chunks: seq<Chunk>, k: nat, add: nat -> AddOutcome,
                              t: Store, count: nat)
  {
    k <= |chunks| && (t, count) == HandedFirst(ready, s, chunks, k, add)
  }

  lemma HandedNext(ready: bool, s: Store, chunks: seq<Chunk>, k: nat, add: nat -> AddOutcome, t: Store, count: nat,
                   u: Store, ok: bool)
    requires k < |chunks| && HandedSoFar(ready, s, chunks, k, add, t, count)
    requires (u, ok) == One(ready, t, chunks[k], add(k))
    ensures HandedSoFar(ready, s, chunks, k + 1, add, u, if ok then count + 1 else count)
  {
  }

  lemma FirstHanded(ready: bool, s: Store, chunks: seq<Chunk>, add: nat -> AddOutcome)
    requires chunks != []
    ensures var (t, ok) := One(ready, s, chunks[0], add(0));
            HandedSoFar(ready, s, chunks, 1, add, t, if ok then 1 else 0)
  {
  }

  lemma HandedOne(ready: bool, s: Store, c: Chunk, add: nat -> AddOutcome)
    ensures var (t, ok) := One(ready, s, c, add(0)); Handed(ready, s, [c], add) == (t, if ok then 1 else 0)
  {
    FirstHanded(ready, s, [c], add);
  }

  /** Without a database nothing happens and nothing counts. */
  lemma {:induction false} HandedNotReady(s: Store, chunks: seq<Chunk>, k: nat, add: nat -> AddOutcome)
    requires k <= |chunks|
    ensures HandedFirst(false, s, chunks, k, add) == (s, 0)
  {
    if k > 0 { HandedNotReady(s, chunks, k - 1, add); }
  }

  /** With a batch open nothing fails and nothing is written: the chunks are appended, each counts. */
  lemma {:induction false} HandedBatch(s: Store, chunks: seq<Chunk>, k: nat, add: nat -> AddOutcome)
    requires s.batch.Some? && k <= |chunks|
    ensures HandedFirst(true, s, chunks, k, add) == (Store(s.collection, Some(s.batch.value + chunks[..k])), k)
  {
    if k == 0 {
      assert s.batch.value + chunks[..0] == s.batch.value;
    } else {
      HandedBatch(s, chunks, k - 1, add);
      assert s.batch.value + chunks[..k - 1] + [chunks[k - 1]] == s.batch.value + chunks[..k];
    }
  }

  /** The chunks among the first `k` whose add was stored. */
  function Kept(chunks: seq<Chunk>, k: nat, add: nat -> AddOutcome): seq<Chunk>
    requires k <= |chunks|
  {
    if k == 0 then [] else Kept(chunks, k - 1, add) + if add(k - 1).Stored? then [chunks[k - 1]] else []
  }

  lemma CountMore(k: nat, add: nat -> AddOutcome)
    ensures |set i | 0 <= i < k + 1 && !add(i).Failed?|
         == |set i | 0 <= i < k && !add(i).Failed?| + if add(k).Failed? then 0 else 1
  {
    var front, all := set i | 0 <= i < k && !add(i).Failed?, set i | 0 <= i < k + 1 && !add(i).Failed?;
    assert all == if add(k).Failed? then front else front + {k};
  }

  lemma FullReindexMore(c: Collection, p: seq<Chunk>, last: Chunk)
    ensures FullReindex(c, p + [last]) == FullReindex(c, p)[last.id := last.entry]
  {
    assert (p + [last])[..|p|] == p;
  }

  /** Without one, the chunks whose add was stored overwrite the collection in order, and the result
      counts the adds that did not fail. */
  lemma {:induction false} HandedDirect(c: Collection, chunks: seq<Chunk>, k: nat, add: nat -> AddOutcome)
    requires k <= |chunks|
    ensures var (t, count) := HandedFirst(true, Store(c, None), chunks, k, add);
            && t == Store(FullReindex(c, Kept(chunks, k, add)), None)
            && count == |set i | 0 <= i < k && !add(i).Failed?|
  {
    if k > 0 {
      HandedDirect(c, chunks, k - 1, add);
      CountMore(k - 1, add);
      FullReindexMore(c, Kept(chunks, k - 1, add), chunks[k - 1]);
      if add(k - 1).Stored? {
        assert Kept(chunks, k, add) == Kept(chunks, k - 1, add) + [chunks[k - 1]];
      } else {
        assert Kept(chunks, k, add) == Kept(chunks, k - 1, add);
      }
    }
  }

  class RAGRetriever {
    const ready: bool              // whether ChromaDB could be opened
    const hash: string -> string
    var collection: Collection
    var batch: Option<seq<Chunk>>

    constructor (ready: bool, hash: string -> string)
      ensures this.ready == ready && this.hash == hash && collection == map[] && batch == None
    {
      this.ready, this.hash, collection, batch := ready, hash, map[], None;
    }

    ghost predicate Valid()
      reads this
    {
      batch.Some? ==> Hashed(batch.value)
    }

    ghost function State(): Store
      reads this
    {
      Store(collection, batch)
    }

    /** While a batch is open the chunk is only collected; otherwise it is added at once, and `add`
        says what the store made of it. */
    method IndexDocument(id: string, content: string, meta: Meta, add: AddOutcome) returns (ok: bool)
      requires Valid()
      modifies this
      ensures Valid()
      ensures ok <==> ready && (old(batch).Some? || !add.Failed?)
      ensures batch == if ready && old(batch).Some?
                       then Some(old(batch).value + [NewChunk(hash, id, content, meta)]) else old(batch)
      ensures collection == if ready && old(batch).None? && add.Stored?
                            then old(collection)[id := WithHash(hash, content, meta)] else old(collection)
      ensures (State(), ok) == One(ready, old(State()), NewChunk(hash, id, content, meta), add)
    {
      if !ready {
        return false;
      }
      var entry := WithHash(hash, content, meta);
      if batch.Some? {
        batch := Some(batch.value + [Chunk(id, entry)]);
        return true;
      }
      if add.Stored? {
        collection := collection[id := entry];
      }
      ok := !add.Failed?;
    }

    /** The loop over line windows; `ws` are the windows it will visit. */
    method IndexWindows(path: string, lines: seq<string>, meta: Meta, window: nat, overlap: nat, add: nat -> AddOutcome,
                        ghost ws: seq<Window>)
        returns (count: nat)
      requires Valid() && overlap < window && Tiles(ws, |lines|, window, overlap)
      modifies this
      ensures Valid()
      ensures (State(), count) == Handed(ready, old(State()), ChunksOf(hash, path, lines, meta, ws), add)
    {
      count := 0;
      var start, total, k := 0, |lines|, 0;  // k: the number of calls so far
      ghost var all := ChunksOf(hash, path, lines, meta, ws);
      while true
        invariant k < |ws| && ws[k].start == start < total && Valid()
        invariant HandedSoFar(ready, old(State()), all, k, add, State(), count)
        decreases total - start
      {
        var end := Min(start + window, total);
        assert TileAt(ws, total, window, overlap, k) && ws[k] == Window(start, end);
        ghost var before := State();
        var ok := IndexDocument(ChunkId(path, Window(start, end)), Join(lines[start..end], "\n"), meta, add(k));
        HandedNext(ready, old(State()), all, k, add, before, count, State(), ok);
        if ok { count := count + 1; }
        k := k + 1;
        if end >= total { break; }
        start := end - overlap;
      }
    }

    /** One TypeScript file. A file split at newlines has at least one line. */
    method IndexTsFile(path: string, lines: seq<string>, meta: Meta, window: nat, overlap: nat, add: nat -> AddOutcome)
        returns (count: nat)
      requires Valid() && overlap < window && lines != []
      modifies this
      ensures Valid()
      ensures (State(), count) == Handed(ready, old(State()), TsChunks(hash, path, lines, meta, window, overlap), add)
    {
      if |lines| == 1 && lines[0] == "" {
        return 0;
      }
      WindowsTile(|lines|, window, overlap);
      count := IndexWindows(path, lines, meta, window, overlap, add, Windows(|lines|, window, overlap, 0));
    }

    /** The loop over the sections of a Markdown file. */
    method IndexSections(path: string, sections: seq<Section>, meta: Meta, add: nat -> AddOutcome) returns (count: nat)
      requires Valid()
      modifies this
      ensures Valid()
      ensures (State(), count) == Handed(ready, old(State()), SectionChunks(hash, path, meta, sections), add)
    {
      ghost var all := SectionChunks(hash, path, meta, sections);
      count := 0;
      for k := 0 to |sections|
        invariant Valid() && HandedSoFar(ready, old(State()), all, k, add, State(), count)
      {
        ghost var before := State();
        var ok := IndexDocument(SectionId(path, sections[k].title), Join(sections[k].lines, "\n"), meta, add(k));
        HandedNext(ready, old(State()), all, k, add, before, count, State(), ok);
        if ok { count := count + 1; }
      }
    }

    /** One Markdown file: a chunk per section, or one for the whole file if it has no header. */
    method IndexMarkdownFile(path: string, lines: seq<string>, meta: Meta, add: nat -> AddOutcome) returns (count: nat)
      requires Valid()
      modifies this
      ensures Valid()
      ensures (State(), count) == Handed(ready, old(State()), MarkdownChunks(hash, path, lines, meta), add)
    {
      var sections := SplitSections(lines);
      if sections == [] {
        HandedOne(ready, State(), NewChunk(hash, DocId(path, "module"), Join(lines, "\n"), meta), add);
        var ok := IndexDocument(DocId(path, "module"), Join(lines, "\n"), meta, add(0));
        return if ok then 1 else 0;
      }
      count := IndexSections(path, sections, meta, add);
    }

    /** The walk over the symbols of a Python file, after the module chunk; `all` are the file's chunks and
        `s0` the store before the first. */
    method IndexSymbols(path: string, nodes: seq<Symbol>, meta: Meta, add: nat -> AddOutcome, first: nat,
                        ghost all: seq<Chunk>, ghost s0: Store)
        returns (count: nat)
      requires Valid() && AtSymbol(hash, path, meta, nodes, all, 1, 0)
      requires HandedSoFar(ready, s0, all, 1, add, State(), first)
      modifies this
      ensures Valid() && HandedSoFar(ready, s0, all, |all|, add, State(), count)
    {
      count := first;
      var k := 1;  // the number of calls so far
      for i := 0 to |nodes|
        invariant AtSymbol(hash, path, meta, nodes, all, k, i)
        invariant Valid() && HandedSoFar(ready, s0, all, k, add, State(), count)
      {
        NextSymbol(hash, path, meta, nodes, all, k, i);
        if nodes[i].content.Some? {
          ghost var before := State();
          var stored := IndexDocument(SymbolId(path, nodes[i]), nodes[i].content.value, meta, add(k));
          HandedNext(ready, s0, all, k, add, before, count, State(), stored);
          if stored { count := count + 1; }
          k := k + 1;
        }
      }
      assert nodes[..|nodes|] == nodes;
    }

    /** One Python file: a chunk for the module and one per symbol; no chunk for a blank file. A file
        that does not parse counts as one even when its chunk was not taken. */
    method IndexPythonFile(path: string, source: string, symbols: Option<seq<Symbol>>, meta: Meta,
                           add: nat -> AddOutcome) returns (count: nat)
      requires Valid()
      modifies this
      ensures Valid()
      ensures var (s, n) := Handed(ready, old(State()), PythonChunks(hash, path, source, symbols, meta), add);
              State() == s && count == if Strip(source) != "" && symbols.None? then 1 else n
    {
      if Strip(source) == "" {
        return 0;
      }
      ghost var all := PythonChunks(hash, path, source, symbols, meta);
      ghost var c := NewChunk(hash, DocId(path, "module"), source, meta);
      HandedOne(ready, State(), c, add);
      var ok := IndexDocument(DocId(path, "module"), source, meta, add(0));
      if symbols.None? {
        assert all == [c];
        return 1;
      }
      count := if ok then 1 else 0;
      FirstHanded(ready, old(State()), all, add);
      assert all[1..] == SymbolChunks(hash, path, meta, symbols.value) && symbols.value[..0] == [];
      count := IndexSymbols(path, symbols.value, meta, add, count, all, old(State()));
    }

    /** `self._batch or []`. */
    function Pending(): seq<Chunk>
      reads this
    {
      if batch.Some? then batch.value else []
    }

    method Dedupe(pending: seq<Chunk>) returns (order: seq<string>, latest: Collection)
      ensures order == Order(pending) && latest == Latest(pending)
    {
      order, latest := [], map[];
      for i := 0 to |pending|
        invariant order == Order(pending[..i]) && latest == Latest(pending[..i])
      {
        assert pending[..i + 1][..i] == pending[..i];
        OrderIsKeys(pending[..i]);
        if pending[i].id !in latest {
          order := order + [pending[i].id];
        }
        latest := latest[pending[i].id := pending[i].entry];
      }
      assert pending[..|pending|] == pending;
    }

    method FilterChanged(lookupOk: bool, order: seq<string>, latest: Collection) returns (changed: seq<string>)
      requires forall id :: id in order ==> id in latest
      ensures changed == Changed(collection, lookupOk, order, latest)
    {
      changed := [];
      for i := 0 to |order|
        invariant changed == Changed(collection, lookupOk, order[..i], latest)
      {
        assert order[..i + 1][..i] == order[..i];
        if IsChanged(collection, lookupOk, order[i], latest[order[i]]) {
          changed := changed + [order[i]];
        }
      }
      assert order[..|order|] == order;
    }

    method UpsertGroups(changed: seq<string>, latest: Collection, groupOk: nat -> bool) returns (total: nat)
      requires NoDup(changed) && forall id :: id in changed ==> id in latest
      modifies this`collection
      ensures collection == Upserted(old(collection), Written(changed, groupOk, |changed|), latest)
      ensures total == |Written(changed, groupOk, |changed|)|
    {
      total := 0;
      var i := 0;
      ghost var g, written := 0, {};
      assert collection == Upserted(collection, {}, latest);
      while i < |changed|
        invariant 0 <= i <= |changed| && i == if g * GROUP <= |changed| then g * GROUP else |changed|
        invariant written == Written(changed, groupOk, i) && total == |written|
        invariant collection == Upserted(old(collection), written, latest)
      {
        var end := if i + GROUP < |changed| then i + GROUP else |changed|;
        GroupWritten(changed, groupOk, g, i, end);
        if groupOk(i / GROUP) {
          var ids := set id | id in changed[i..end];
          UpsertedMore(old(collection), written, ids, latest);
          collection := collection + Only(latest, ids);
          total := total + (end - i);
          written := written + ids;
        }
        i := end;
        g := g + 1;
      }
    }

    /** Diff the batch against the stored hashes and upsert what changed. The collection afterwards
        is the old one overwritten by the latest entry of every id in a group that got through, and
        the result is how many ids that is. */
    method FlushBatch(lookupOk: bool, groupOk: nat -> bool) returns (total: nat)
      requires Valid()
      modifies this`collection
      ensures collection == AfterFlush(old(collection), Pending(), lookupOk, groupOk)
      ensures total == |WrittenIds(old(collection), Pending(), lookupOk, groupOk)|
    {
      OrderIsKeys(Pending());
      var order, latest := Dedupe(Pending());
      var changed := FilterChanged(lookupOk, order, latest);
      assert changed == ChangedOf(collection, lookupOk, Pending());
      total := UpsertGroups(changed, latest, groupOk);
    }

    /** The body of the walk: one file goes into the open batch. */
    method IndexFile(f: SourceFile)
      requires Valid() && ready && batch.Some? && WellFormed(f)
      modifies this
      ensures Valid() && collection == old(collection)
      ensures batch == Some(old(batch).value + FileChunks(hash, f))
    {
      HandedBatch(State(), FileChunks(hash, f), |FileChunks(hash, f)|, NoAdd);
      assert FileChunks(hash, f)[..|FileChunks(hash, f)|] == FileChunks(hash, f);
      match f {
        case TsFile(path, lines, meta) =>
          var _ := IndexTsFile(path, lines, meta, TS_WINDOW, TS_OVERLAP, NoAdd);
        case MarkdownFile(path, lines, meta) =>
          var _ := IndexMarkdownFile(path, lines, meta, NoAdd);
        case PythonFile(path, source, symbols, meta) =>
          var _ := IndexPythonFile(path, source, symbols, meta, NoAdd);
        case Skipped =>
      }
    }

    /** `index_code_files`: open a batch, hand over every scanned file, flush, and close the batch. */
    method IndexCodeFiles(files: seq<SourceFile>, lookupOk: bool, groupOk: nat -> bool) returns (total: nat)
      requires Valid() && forall f :: f in files ==> WellFormed(f)
      modifies this
      ensures Valid()
      ensures !ready ==> total == 0 && collection == old(collection) && batch == old(batch)
      ensures ready ==> batch == None
      ensures ready ==>
                && collection == AfterFlush(old(collection), AllChunks(hash, files), lookupOk, groupOk)
                && total == |WrittenIds(old(collection), AllChunks(hash, files), lookupOk, groupOk)|
    {
      if !ready {
        return 0;
      }
      batch := Some([]);
      for i := 0 to |files|
        invariant Valid() && collection == old(collection)
        invariant (forall f :: f in files[..i] ==> WellFormed(f)) && batch == Some(AllChunks(hash, files[..i]))
      {
        assert files[..i + 1][..i] == files[..i] && files[i] in files;
        IndexFile(files[i]);
      }
      assert files[..|files|] == files;
      total := FlushBatch(lookupOk, groupOk);
      batch := None;
    }
  }

  // ----- refinement of a full re-index -----

  ghost function ChangedSet(c: Collection, p: seq<Chunk>, lookupOk: bool): set<string> {
    set id | id in Latest(p) && IsChanged(c, lookupOk, id, Latest(p)[id])
  }

  /** What one flush without upsert errors leaves in the collection. */
  ghost function Flushed(c: Collection, p: seq<Chunk>, lookupOk: bool): Collection {
    Upserted(c, ChangedSet(c, p, lookupOk), Latest(p))
  }

  ghost function Contents(c: Collection): map<string, string> {
    map id | id in c :: c[id].content
  }

  /** Stored hashes, where present, are hashes of the stored contents. */
  ghost predicate Honest(c: Collection, hash: string -> string) {
    forall id :: id in c && StoredHash(c[id]).Some? ==> StoredHash(c[id]).value == hash(c[id].content)
  }

  /** An id whose stored and new contents differ but hash alike. */
  ghost predicate Collision(c: Collection, p: seq<Chunk>, hash: string -> string, id: string) {
    && id in c && id in Latest(p) && StoredHash(c[id]).Some?
    && c[id].content != Latest(p)[id].content && hash(c[id].content) == hash(Latest(p)[id].content)
  }

  lemma {:induction false} FullIsMerge(c: Collection, p: seq<Chunk>)
    ensures FullReindex(c, p) == c + Latest(p)
    decreases |p|
  {
    if p != [] { FullIsMerge(c, p[..|p| - 1]); }
  }

  lemma {:induction false} LatestHonest(p: seq<Chunk>, hash: string -> string, id: string)
    requires HonestBatch(p, hash) && id in Latest(p)
    ensures StoredHash(Latest(p)[id]) == Some(hash(Latest(p)[id].content))
    decreases |p|
  {
    var last := p[|p| - 1];
    if id != last.id {
      LatestHonest(p[..|p| - 1], hash, id);
    }
  }

  ghost predicate NoGroupFails(groupOk: nat -> bool) {
    forall g: nat :: groupOk(g)
  }

  /** The method's result, when no group fails, is `Flushed`. */
  lemma FlushIsFlushed(c: Collection, p: seq<Chunk>, lookupOk: bool, groupOk: nat -> bool)
    requires NoGroupFails(groupOk)
    ensures WrittenIds(c, p, lookupOk, groupOk) == ChangedSet(c, p, lookupOk)
    ensures AfterFlush(c, p, lookupOk, groupOk) == Flushed(c, p, lookupOk)
  {
  }

  /** An incremental flush stores the same contents as a full re-index if and only if no scanned id
      collides: same hash, different content. */
  lemma FlushRefinesFullIff(c: Collection, p: seq<Chunk>, hash: string -> string, lookupOk: bool)
    requires Honest(c, hash) && HonestBatch(p, hash)
    ensures Contents(Flushed(c, p, lookupOk)) == Contents(FullReindex(c, p))
            <==> !lookupOk || !exists id :: Collision(c, p, hash, id)
  {
    FullIsMerge(c, p);
    var inc, full := Flushed(c, p, lookupOk), FullReindex(c, p);
    assert inc.Keys == full.Keys;
    forall id | id in full
      ensures inc[id].content == full[id].content <==> !lookupOk || !Collision(c, p, hash, id)
    {
      if id in Latest(p) { LatestHonest(p, hash, id); }
    }
    if lookupOk && exists id :: Collision(c, p, hash, id) {
      var id :| Collision(c, p, hash, id);
      assert Contents(inc)[id] != Contents(full)[id];
    }
  }

  ghost predicate Injective(hash: string -> string) {
    forall a, b :: hash(a) == hash(b) ==> a == b
  }

  /** With an injective hash the incremental index is the full one, id by id; ids that were not
      scanned keep their entries. */
  lemma FlushRefinesFull(c: Collection, p: seq<Chunk>, hash: string -> string, lookupOk: bool)
    requires Injective(hash) && Honest(c, hash) && HonestBatch(p, hash)
    ensures Contents(Flushed(c, p, lookupOk)) == Contents(FullReindex(c, p))
    ensures forall id :: id in c && id !in Latest(p) ==>
              id in Flushed(c, p, lookupOk) && Flushed(c, p, lookupOk)[id] == c[id]
    ensures forall id :: id in Latest(p) ==>
              id in Flushed(c, p, lookupOk) && Flushed(c, p, lookupOk)[id].content == Latest(p)[id].content
  {
    FlushRefinesFullIff(c, p, hash, lookupOk);
    FullIsMerge(c, p);
    forall id | id in Latest(p)
      ensures id in Flushed(c, p, lookupOk) && Flushed(c, p, lookupOk)[id].content == Latest(p)[id].content
    {
      assert Contents(Flushed(c, p, lookupOk))[id] == Contents(FullReindex(c, p))[id];
    }
  }

  /** Flushing the same batch again finds nothing to do. */
  lemma SecondFlushIsIdle(c: Collection, p: seq<Chunk>, hash: string -> string, lookupOk: bool)
    requires HonestBatch(p, hash)
    ensures forall id :: id in Latest(p) ==> !IsChanged(Flushed(c, p, lookupOk), true, id, Latest(p)[id])
    ensures Flushed(Flushed(c, p, lookupOk), p, true) == Flushed(c, p, lookupOk)
  {
    var once := Flushed(c, p, lookupOk);
    forall id | id in Latest(p) ensures !IsChanged(once, true, id, Latest(p)[id]) {
      LatestHonest(p, hash, id);
    }
    assert ChangedSet(once, p, true) == {};
  }

  lemma FullAbsorbs(c: Collection, p: seq<Chunk>, ids: set<string>)
    requires forall id :: id in ids ==> id in Latest(p)
    ensures FullReindex(Upserted(c, ids, Latest(p)), p) == FullReindex(c, p)
  {
    FullIsMerge(c, p);
    FullIsMerge(Upserted(c, ids, Latest(p)), p);
  }

  lemma UpsertedHonest(c: Collection, p: seq<Chunk>, hash: string -> string, ids: set<string>)
    requires Honest(c, hash) && HonestBatch(p, hash) && forall id :: id in ids ==> id in Latest(p)
    ensures Honest(Upserted(c, ids, Latest(p)), hash)
  {
    forall id | id in ids ensures StoredHash(Latest(p)[id]) == Some(hash(Latest(p)[id].content)) {
      LatestHonest(p, hash, id);
    }
  }

  /** A flush some of whose groups failed is completed by a later flush of the same chunks: the
      contents end up as a full re-index would have left them, whatever failed before. */
  lemma RetryCompletes(c: Collection, p: seq<Chunk>, hash: string -> string, lookupOk: bool, ids: set<string>)
    requires Injective(hash) && Honest(c, hash) && HonestBatch(p, hash)
    requires forall id :: id in ids ==> id in Latest(p)
    ensures Contents(Flushed(Upserted(c, ids, Latest(p)), p, lookupOk)) == Contents(FullReindex(c, p))
  {
    var part := Upserted(c, ids, Latest(p));
    UpsertedHonest(c, p, hash, ids);
    FlushRefinesFull(part, p, hash, lookupOk);
    FullAbsorbs(c, p, ids);
  }
}
