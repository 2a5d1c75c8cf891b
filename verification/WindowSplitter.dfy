/** The overlapping-window splitter for TypeScript files (backend/gaf_ai/rag.py, _index_ts_file). */
module WindowSplitter {
  import opened PyStrings

  datatype Window = Window(start: nat, end: nat)

  function Min(a: nat, b: nat): nat { if a < b then a else b }

  /** The line ranges the loop visits, from line index `start` on. */
  function Windows(total: nat, window: nat, overlap: nat, start: nat): (ws: seq<Window>)
    requires overlap < window && start < total
    ensures forall w :: w in ws ==> w.start < w.end <= total
    decreases total - start
  {
    var end := Min(start + window, total);
    [Window(start, end)] + if end >= total then [] else Windows(total, window, overlap, end - overlap)
  }

  /** The windows from `w[0]` to the end of the file: sizes within bounds, neighbours that share
      exactly `overlap` lines, each window reaching further than the one before. */
  ghost predicate Chain(w: seq<Window>, total: nat, window: nat, overlap: nat) {
    && w != [] && w[0].start < w[0].end <= total && w[0].end - w[0].start <= window
    && if |w| == 1 then w[0].end == total
       else && w[1].start == w[0].end - overlap && w[0].end < w[1].end && w[0].start < w[1].start
            && Chain(w[1..], total, window, overlap)
  }

  lemma {:induction false} WindowsChain(total: nat, window: nat, overlap: nat, start: nat)
    requires overlap < window && start < total
    ensures Chain(Windows(total, window, overlap, start), total, window, overlap)
    ensures Windows(total, window, overlap, start)[0].start == start
    decreases total - start
  {
    var w := Windows(total, window, overlap, start);
    if w[0].end < total {
      var next := w[0].end - overlap;
      WindowsChain(total, window, overlap, next);
      var rest := Windows(total, window, overlap, next);
      assert w == [w[0]] + rest && w[1..] == rest && w[1] == rest[0];
      assert rest[0].end == Min(next + window, total);
    } else {
      assert w == [w[0]];
    }
  }

  lemma {:induction false} ChainAt(w: seq<Window>, total: nat, window: nat, overlap: nat, k: nat)
    requires Chain(w, total, window, overlap) && k < |w|
    ensures w[k].start < w[k].end <= total && w[k].end - w[k].start <= window
    ensures k == |w| - 1 ==> w[k].end == total
    ensures k < |w| - 1 ==> w[k + 1].start == w[k].end - overlap && w[k].start < w[k + 1].start
    ensures 1 <= k ==> w[k].start + overlap < w[k].end
    decreases k
  {
    if k > 0 {
      ChainAt(w[1..], total, window, overlap, k - 1);
    }
  }

  ghost predicate TileAt(ws: seq<Window>, total: nat, window: nat, overlap: nat, k: nat)
    requires k < |ws|
  {
    && ws[k].end == Min(ws[k].start + window, total) && (k + 1 == |ws| <==> ws[k].end == total)
    && (k + 1 < |ws| ==> ws[k + 1].start == ws[k].end - overlap)
  }

  /** How the loop moves: from which window to which, and where it stops. */
  ghost predicate Tiles(ws: seq<Window>, total: nat, window: nat, overlap: nat) {
    && ws != [] && ws[0].start == 0 && (forall w :: w in ws ==> w.start < w.end <= total)
    && forall k :: 0 <= k < |ws| ==> TileAt(ws, total, window, overlap, k)
  }

  /** The k-th iteration: where its window ends, and whether and where there is a next one. */
  lemma {:induction false} WindowAt(total: nat, window: nat, overlap: nat, start: nat, k: nat)
    requires overlap < window && start < total && k < |Windows(total, window, overlap, start)|
    ensures TileAt(Windows(total, window, overlap, start), total, window, overlap, k)
    decreases k
  {
    var end := Min(start + window, total);
    if end < total {
      var rest := Windows(total, window, overlap, end - overlap);
      var w := [Window(start, end)] + rest;
      assert Windows(total, window, overlap, start) == w;
      if k > 0 {
        WindowAt(total, window, overlap, end - overlap, k - 1);
        assert w[k] == rest[k - 1] && (k + 1 < |w| ==> w[k + 1] == rest[k]);
      } else {
        assert rest[0].start == end - overlap;
      }
    }
  }

  lemma WindowsTile(total: nat, window: nat, overlap: nat)
    requires overlap < window && 0 < total
    ensures Tiles(Windows(total, window, overlap, 0), total, window, overlap)
  {
    var ws := Windows(total, window, overlap, 0);
    forall k | 0 <= k < |ws| ensures TileAt(ws, total, window, overlap, k) {
      WindowAt(total, window, overlap, 0, k);
    }
  }

  /** Every chunk has between one and `window` lines, neighbours share exactly `overlap` lines and
      move forward, the first chunk starts at the top and the last ends at the bottom. */
  lemma WindowsShape(total: nat, window: nat, overlap: nat, k: nat)
    requires overlap < window && 0 < total && k < |Windows(total, window, overlap, 0)|
    ensures var w := Windows(total, window, overlap, 0);
            && w[0].start == 0 && w[k].start < w[k].end <= total && w[k].end - w[k].start <= window
            && (k == |w| - 1 ==> w[k].end == total)
            && (k < |w| - 1 ==> w[k + 1].start == w[k].end - overlap && w[k].start < w[k + 1].start)
  {
    WindowsChain(total, window, overlap, 0);
    ChainAt(Windows(total, window, overlap, 0), total, window, overlap, k);
  }

  lemma {:induction false} StartsIncrease(w: seq<Window>, total: nat, window: nat, overlap: nat, i: nat, j: nat)
    requires Chain(w, total, window, overlap) && i < j < |w|
    ensures w[i].start < w[j].start
    decreases j - i
  {
    ChainAt(w, total, window, overlap, j - 1);
    if i < j - 1 { StartsIncrease(w, total, window, overlap, i, j - 1); }
  }

  /** Each chunk without the `overlap` lines it repeats. */
  function FreshLines<T>(lines: seq<T>, ws: seq<Window>, overlap: nat): seq<T>
    requires forall k :: 0 <= k < |ws| ==> ws[k].start + overlap <= ws[k].end <= |lines|
  {
    if ws == [] then [] else lines[ws[0].start + overlap..ws[0].end] + FreshLines(lines, ws[1..], overlap)
  }

  lemma ChainFresh(w: seq<Window>, total: nat, window: nat, overlap: nat)
    requires Chain(w, total, window, overlap)
    ensures forall k :: 0 <= k < |w[1..]| ==> w[1..][k].start + overlap <= w[1..][k].end <= total
  {
  }

  lemma {:induction false} ChainRebuilds<T>(lines: seq<T>, w: seq<Window>, window: nat, overlap: nat)
    requires Chain(w, |lines|, window, overlap)
    requires forall k :: 0 <= k < |w[1..]| ==> w[1..][k].start + overlap <= w[1..][k].end <= |lines|
    ensures lines[..w[0].end] + FreshLines(lines, w[1..], overlap) == lines
    decreases |w|
  {
    if |w| > 1 {
      var v := w[1..];
      ChainFresh(v, |lines|, window, overlap);
      ChainRebuilds(lines, v, window, overlap);
      assert lines[..v[0].end] == lines[..w[0].end] + lines[v[0].start + overlap..v[0].end];
    }
  }

  /** Joining the chunks, after dropping the first `overlap` lines of each but the first, gives back
      the whole file: nothing is lost and nothing is added. */
  lemma ChunksRebuild<T>(lines: seq<T>, window: nat, overlap: nat)
    requires overlap < window && lines != []
    ensures var w := Windows(|lines|, window, overlap, 0);
            && (forall k :: 0 <= k < |w[1..]| ==> w[1..][k].start + overlap <= w[1..][k].end <= |lines|)
            && w[0].start <= w[0].end <= |lines|
            && lines[w[0].start..w[0].end] + FreshLines(lines, w[1..], overlap) == lines
  {
    var w := Windows(|lines|, window, overlap, 0);
    WindowsChain(|lines|, window, overlap, 0);
    ChainFresh(w, |lines|, window, overlap);
    ChainRebuilds(lines, w, window, overlap);
    assert lines[0..w[0].end] == lines[..w[0].end];
  }

  function Slashes(path: string): string {
    seq(|path|, i requires 0 <= i < |path| => if path[i] == '\\' then '/' else path[i])
  }

  function DocId(path: string, suffix: string): string {
    Slashes(path) + "::" + suffix
  }

  /** Line numbers in ids are 1-based and inclusive. */
  function ChunkId(path: string, w: Window): string {
    DocId(path, "chunk_" + Dec(w.start + 1) + "_" + Dec(w.end))
  }

  lemma ChunkIdInjective(path: string, v: Window, w: Window)
    requires ChunkId(path, v) == ChunkId(path, w)
    ensures v == w
  {
    var head := Slashes(path) + "::" + "chunk_";
    var a, b := Dec(v.start + 1), Dec(v.end);
    var x, y := Dec(w.start + 1), Dec(w.end);
    assert ChunkId(path, v) == head + (a + "_" + b);
    assert ChunkId(path, w) == head + (x + "_" + y);
    assert ChunkId(path, v)[|head|..] == a + ['_'] + b;
    assert ChunkId(path, w)[|head|..] == x + ['_'] + y;
    SeparatorUnique(a, b, x, y, '_');
    DecInjective(v.start + 1, w.start + 1);
    DecInjective(v.end, w.end);
  }

  /** The ids of one file's chunks are pairwise distinct. */
  lemma ChunkIdsDistinct(path: string, total: nat, window: nat, overlap: nat, i: nat, j: nat)
    requires overlap < window && 0 < total
    requires i < j < |Windows(total, window, overlap, 0)|
    ensures var w := Windows(total, window, overlap, 0); ChunkId(path, w[i]) != ChunkId(path, w[j])
  {
    var w := Windows(total, window, overlap, 0);
    WindowsChain(total, window, overlap, 0);
    StartsIncrease(w, total, window, overlap, i, j);
    if ChunkId(path, w[i]) == ChunkId(path, w[j]) {
      ChunkIdInjective(path, w[i], w[j]);
    }
  }
}
