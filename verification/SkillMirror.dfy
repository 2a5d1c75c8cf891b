/** The one-way skill mirror (scripts/sync_workbuddy_skills.py): compare two file trees by hash, copy
    what is missing or different, and prune what is stale. A path is its list of components. Two
    kinds of I/O error are modelled, those that come from a file standing where a directory is
    needed or the reverse; any other error is taken not to happen. */
module SkillMirror {

  type Path = seq<string>
  type Files = map<Path, string>

  const PROTECTED_DIRS: set<string> := {"gaf-architecture-review"}

  predicate IsProtected(p: Path) {
    p != [] && p[0] in PROTECTED_DIRS
  }

  /** `d` is a directory above `p`. */
  predicate Above(d: Path, p: Path) {
    |d| < |p| && d == p[..|d|]
  }

  /** A tree as a file system allows it: the directories above every entry exist, and nothing is both
      a file and a directory. The root is not listed. */
  ghost predicate ValidTree(files: Files, dirs: set<Path>) {
    && files.Keys !! dirs && [] !in files && [] !in dirs
    && forall p, n :: (p in files || p in dirs) && 0 < n < |p| ==> p[..n] in dirs
  }

  ghost predicate ValidSource(src: Files) {
    [] !in src && forall p, q :: p in src && q in src ==> !Above(p, q)
  }

  function Created(src: Files, dst: Files): set<Path> {
    src.Keys - dst.Keys
  }

  function Updated(src: Files, dst: Files, hash: string -> string): set<Path> {
    set p | p in src && p in dst && hash(src[p]) != hash(dst[p])
  }

  /** What a run writes. */
  function ToCopy(src: Files, dst: Files, hash: string -> string): (todo: set<Path>)
    ensures todo <= src.Keys
  {
    Created(src, dst) + Updated(src, dst, hash)
  }

  function Stale(src: Files, dst: Files): set<Path> {
    set p | p in dst && p !in src && !IsProtected(p)
  }

  /** What --check calls drift. */
  predicate HasDrift(src: Files, dst: Files, hash: string -> string) {
    Created(src, dst) != {} || Updated(src, dst, hash) != {} || Stale(src, dst) != {}
  }

  /** The directories a copy to `p` needs. */
  function Parents(p: Path): set<Path> {
    set n | 0 < n < |p| :: p[..n]
  }

  /** A copy to `p` fails: a parent is a file, or `p` itself is a directory. */
  predicate Clashes(files: Files, dirs: set<Path>, p: Path) {
    p in dirs || exists n | 0 < n < |p| :: p[..n] in files
  }

  /** Some unprotected directory's fate: it has a file somewhere below it. */
  ghost predicate HasFileBelow(files: Files, d: Path) {
    exists f :: f in files && Above(d, f)
  }

  /** `any(dirpath.iterdir())`: an entry directly inside `d`. */
  predicate HasEntry(files: Files, dirs: set<Path>, d: Path) {
    (exists f | f in files :: Above(d, f) && |f| == |d| + 1) || (exists e | e in dirs :: Above(d, e) && |e| == |d| + 1)
  }

  /** A listing of directories, each once, by decreasing depth. */
  ghost predicate DeepestFirst(order: seq<Path>) {
    forall i, j :: 0 <= i < j < |order| ==> order[i] != order[j] && |order[i]| >= |order[j]|
  }

  /** The tree after copying the paths `done`. */
  function Copied(files: Files, src: Files, done: set<Path>): Files
    requires done <= src.Keys
  {
    files + map p | p in done :: src[p]
  }

  function CopiedDirs(dirs: set<Path>, done: set<Path>): set<Path> {
    dirs + set p, n | p in done && 0 < n < |p| :: p[..n]
  }

  lemma CopiedDirsMembers(dirs: set<Path>, done: set<Path>)
    ensures forall d :: d in CopiedDirs(dirs, done) <==> d in dirs || (d != [] && exists p :: p in done && Above(d, p))
  {
    forall d | d != [] && exists p :: p in done && Above(d, p) ensures d in CopiedDirs(dirs, done) {
      var p :| p in done && Above(d, p);
      assert d == p[..|d|];
    }
  }

  // ----- copying -----

  lemma CopyKeepsValid(files: Files, dirs: set<Path>, p: Path, content: string)
    requires ValidTree(files, dirs) && p != [] && !Clashes(files, dirs, p)
    ensures ValidTree(files[p := content], dirs + Parents(p))
  {
    forall q, n | (q in files[p := content] || q in dirs + Parents(p)) && 0 < n < |q|
      ensures q[..n] in dirs + Parents(p)
    {
      if q in Parents(p) {
        var m :| 0 < m < |p| && q == p[..m];
        assert q[..n] == p[..n];
      }
    }
  }

  /** What a clash is: exactly then the tree with the copy in it, and the directories the copy needs, would be no
      tree. */
  lemma ClashesIff(files: Files, dirs: set<Path>, p: Path, content: string)
    requires ValidTree(files, dirs) && p != []
    ensures Clashes(files, dirs, p) <==> !ValidTree(files[p := content], dirs + Parents(p))
  {
    if !Clashes(files, dirs, p) {
      CopyKeepsValid(files, dirs, p, content);
    } else if p in dirs {
      assert p in files[p := content];
    } else {
      var n :| 0 < n < |p| && p[..n] in files;
      assert p[..n] in files[p := content] && p[..n] in Parents(p);
    }
  }

  lemma CopyStep(files: Files, dirs: set<Path>, src: Files, done: set<Path>, p: Path)
    requires done <= src.Keys && p in src
    ensures Copied(files, src, done + {p}) == Copied(files, src, done)[p := src[p]]
    ensures CopiedDirs(dirs, done + {p}) == CopiedDirs(dirs, done) + Parents(p)
  {
  }

  lemma FewerFilesValid(files: Files, dirs: set<Path>, gone: set<Path>)
    requires ValidTree(files, dirs)
    ensures ValidTree(files - gone, dirs)
  {
  }

  /** Copies of other source files neither cause nor hide a clash. */
  lemma ClashUnchanged(src: Files, done: set<Path>, files: Files, dirs: set<Path>, p: Path)
    requires ValidSource(src) && done <= src.Keys && p in src
    ensures Clashes(Copied(files, src, done), CopiedDirs(dirs, done), p) <==> Clashes(files, dirs, p)
  {
  }

  /** How far `apply_mirror` has got: the paths `done` are copied, none of them clashed. */
  ghost predicate CopySoFar(src: Files, files0: Files, dirs0: set<Path>, done: set<Path>,
                             files: Files, dirs: set<Path>)
  {
    && done <= src.Keys && ValidTree(files, dirs)
    && files == Copied(files0, src, done) && dirs == CopiedDirs(dirs0, done)
    && forall p :: p in done ==> !Clashes(files0, dirs0, p)
  }

  /** The run copied the paths of some part of `todo`, all of it or not, and nothing else. */
  ghost predicate CopiedPart(src: Files, files0: Files, dirs0: set<Path>, todo: set<Path>, files: Files,
                             dirs: set<Path>, count: nat)
  {
    exists done :: done <= todo && CopySoFar(src, files0, dirs0, done, files, dirs) && count == |done|
  }

  lemma CopyStart(src: Files, files: Files, dirs: set<Path>)
    requires ValidTree(files, dirs)
    ensures CopySoFar(src, files, dirs, {}, files, dirs)
  {
  }

  lemma CopyOne(src: Files, files0: Files, dirs0: set<Path>, done: set<Path>, files: Files, dirs: set<Path>, p: Path)
    requires ValidSource(src) && p in src && CopySoFar(src, files0, dirs0, done, files, dirs)
    ensures Clashes(files, dirs, p) <==> Clashes(files0, dirs0, p)
    ensures !Clashes(files, dirs, p) ==>
              CopySoFar(src, files0, dirs0, done + {p}, files[p := src[p]], dirs + Parents(p))
  {
    ClashUnchanged(src, done, files0, dirs0, p);
    if !Clashes(files, dirs, p) {
      CopyKeepsValid(files, dirs, p, src[p]);
      CopyStep(files0, dirs0, src, done, p);
    }
  }

  // ----- pruning -----

  /** The directories that pruning leaves of `dirs`: the protected ones and those with a file below. */
  ghost function Needed(dirs: set<Path>, files: Files): set<Path> {
    set d | d in dirs && (IsProtected(d) || HasFileBelow(files, d))
  }

  ghost function Surviving(before: set<Path>, files: Files, pending: seq<Path>): set<Path> {
    set d | d in before && (IsProtected(d) || HasFileBelow(files, d) || d in pending)
  }

  lemma {:induction false} Deepest(s: set<Path>) returns (d: Path)
    requires s != {}
    ensures d in s && forall e :: e in s ==> |d| >= |e|
    decreases s
  {
    d :| d in s;
    if s != {d} {
      var e := Deepest(s - {d});
      assert forall x :: x in s ==> x == d || x in s - {d};
      if |e| > |d| { d := e; }
    }
  }

  lemma DeepestFirstAppend(order: seq<Path>, d: Path)
    requires DeepestFirst(order) && forall e :: e in order ==> e != d && |e| >= |d|
    ensures DeepestFirst(order + [d])
  {
  }

  lemma EntryHasFile(before: set<Path>, files: Files, order: seq<Path>, k: nat)
    requires DeepestFirst(order) && k < |order| && order[k] != [] && !IsProtected(order[k])
    requires HasEntry(files, Surviving(before, files, order[k..]), order[k])
    ensures HasFileBelow(files, order[k])
  {
  }

  lemma FileGivesEntry(before: set<Path>, files: Files, pending: seq<Path>, d: Path)
    requires ValidTree(files, before) && HasFileBelow(files, d)
    ensures HasEntry(files, Surviving(before, files, pending), d)
  {
    var alive := Surviving(before, files, pending);
    var f :| f in files && Above(d, f);
    var e := f[..|d| + 1];
    assert Above(d, e) by { assert e[..|d|] == f[..|d|]; }
    if |f| == |d| + 1 {
      assert f == e;
    } else {
      assert e in before && Above(e, f) && e in alive;
    }
  }

  /** When a directory's turn comes, everything deeper has been dealt with: it has an entry exactly if
      there is a file below it. */
  lemma EntryMeansFile(before: set<Path>, files: Files, order: seq<Path>, k: nat)
    requires ValidTree(files, before) && DeepestFirst(order)
    requires k < |order| && order[k] in before && !IsProtected(order[k])
    ensures HasEntry(files, Surviving(before, files, order[k..]), order[k]) <==> HasFileBelow(files, order[k])
  {
    if HasEntry(files, Surviving(before, files, order[k..]), order[k]) {
      EntryHasFile(before, files, order, k);
    }
    if HasFileBelow(files, order[k]) {
      FileGivesEntry(before, files, order[k..], order[k]);
    }
  }

  lemma SurvivingStep(before: set<Path>, files: Files, order: seq<Path>, k: nat)
    requires k < |order| && DeepestFirst(order) && order[k] in before
    ensures Surviving(before, files, order[k + 1..])
         == if IsProtected(order[k]) || HasFileBelow(files, order[k])
            then Surviving(before, files, order[k..]) else Surviving(before, files, order[k..]) - {order[k]}
  {
  }

  lemma SurvivorsValid(before: set<Path>, files: Files)
    requires ValidTree(files, before)
    ensures ValidTree(files, Surviving(before, files, []))
  {
  }

  // ----- a run -----

  /** The destination files after a run: what differed was copied; with pruning, unprotected files
      that the source does not have are gone. */
  function Synced(src: Files, dst: Files, hash: string -> string, prune: bool): Files {
    var copied := Copied(dst, src, ToCopy(src, dst, hash));
    if prune then copied - Stale(src, dst) else copied
  }

  /** No drift means that every source file is there with its hash and whatever else is there is
      protected. */
  lemma NoDriftMeaning(src: Files, dst: Files, hash: string -> string)
    ensures !HasDrift(src, dst, hash)
            <==> (forall p :: p in src ==> p in dst && hash(src[p]) == hash(dst[p]))
                 && (forall p :: p in dst ==> p in src || IsProtected(p))
  {
    if !HasDrift(src, dst, hash) {
      forall p | p in src ensures p in dst && hash(src[p]) == hash(dst[p]) {
        assert p !in Created(src, dst) && p !in Updated(src, dst, hash);
      }
      forall p | p in dst ensures p in src || IsProtected(p) {
        assert p !in Stale(src, dst);
      }
    }
  }

  /** It also means that a run with --prune would leave every file as it is. */
  lemma NoDriftIsFixed(src: Files, dst: Files, hash: string -> string)
    ensures !HasDrift(src, dst, hash) <==> Synced(src, dst, hash, true) == dst
  {
  }

  lemma SyncedCases(src: Files, dst: Files, hash: string -> string, dirs: set<Path>)
    ensures var copied := Copied(dst, src, ToCopy(src, dst, hash));
            && Synced(src, dst, hash, false) == copied && Synced(src, dst, hash, true) == copied - Stale(src, dst)
            && (Stale(src, dst) == {} ==> Synced(src, dst, hash, true) == copied) && Stale(src, dst) <= copied.Keys
    ensures !HasDrift(src, dst, hash) ==> ToCopy(src, dst, hash) == {} && Stale(src, dst) == {}
    ensures CopiedDirs(dirs, {}) == dirs
  {
  }

  // ----- the destination tree -----

  class Destination {
    const hash: string -> string
    var files: Files
    var dirs: set<Path>

    constructor (hash: string -> string, files: Files, dirs: set<Path>)
      requires ValidTree(files, dirs)
      ensures this.hash == hash && this.files == files && this.dirs == dirs && Valid()
    {
      this.hash, this.files, this.dirs := hash, files, dirs;
    }

    ghost predicate Valid()
      reads this
    {
      ValidTree(files, dirs)
    }

    /** `apply_mirror` over the paths `todo`, in any order. It gets through exactly when no copy
        clashes with the tree as it was; then every path of `todo` holds the source's content. A run that a
        clash stops leaves the copies made before it and nothing else. */
    method ApplyMirror(src: Files, todo: set<Path>) returns (ok: bool, count: nat)
      requires Valid() && ValidSource(src) && todo <= src.Keys
      modifies this
      ensures Valid()
      ensures ok <==> forall p :: p in todo ==> !Clashes(old(files), old(dirs), p)
      ensures ok ==> files == Copied(old(files), src, todo) && count == |todo|
      ensures ok ==> dirs == CopiedDirs(old(dirs), todo)
      ensures ok ==> forall d :: d in dirs <==> d in old(dirs) || (d != [] && exists p :: p in todo && Above(d, p))
      ensures CopiedPart(src, old(files), old(dirs), todo, files, dirs, count)
    {
      count := 0;
      var left := todo;
      ghost var done: set<Path> := {};
      CopyStart(src, files, dirs);
      while left != {}
        invariant done + left == todo && done !! left && count == |done|
        invariant CopySoFar(src, old(files), old(dirs), done, files, dirs)
        decreases left
      {
        var rel :| rel in left;
        CopyOne(src, old(files), old(dirs), done, files, dirs, rel);
        if Clashes(files, dirs, rel) {
          return false, count;
        }
        dirs := dirs + Parents(rel);
        files := files[rel := src[rel]];
        done, left := done + {rel}, left - {rel};
        count := count + 1;
      }
      ok := true;
      CopiedDirsMembers(old(dirs), todo);
    }

    /** The first loop of `prune_stale`. */
    method UnlinkAll(stale: set<Path>) returns (removed: nat)
      requires Valid() && stale <= files.Keys
      modifies this
      ensures Valid() && files == old(files) - stale && dirs == old(dirs) && removed == |stale|
    {
      removed := 0;
      var left := stale;
      ghost var done: set<Path> := {};
      while left != {}
        invariant done + left == stale && done !! left && removed == |done|
        invariant files == old(files) - done && dirs == old(dirs)
        decreases left
      {
        var rel :| rel in left;
        files := files - {rel};
        done, left := done + {rel}, left - {rel};
        removed := removed + 1;
      }
      FewerFilesValid(old(files), dirs, stale);
    }

    /** The second loop of `prune_stale`, over a snapshot of the directories. One pass is enough:
        exactly the unprotected directories without a file below them go. */
    method RemoveEmptyDirs(order: seq<Path>)
      requires Valid() && DeepestFirst(order) && forall d :: d in order <==> d in dirs
      modifies this
      ensures Valid() && files == old(files)
      ensures dirs == Needed(old(dirs), files)
      ensures forall d :: d in dirs <==>
                d in old(dirs)
                && ((d != [] && d[0] == "gaf-architecture-review") || exists f :: f in files && Above(d, f))
    {
      ghost var before := dirs;
      for k := 0 to |order|
        invariant files == old(files)
        invariant dirs == Surviving(before, files, order[k..])
      {
        var dirpath := order[k];
        assert order[k..] == [dirpath] + order[k + 1..];
        if !IsProtected(dirpath) {
          EntryMeansFile(before, files, order, k);
          if !HasEntry(files, dirs, dirpath) {
            dirs := dirs - {dirpath};
          }
        }
        SurvivingStep(before, files, order, k);
      }
      SurvivorsValid(before, files);
    }

    /** The snapshot `sorted(..., key=depth, reverse=True)`. */
    method Snapshot() returns (order: seq<Path>)
      ensures DeepestFirst(order) && forall d :: d in order <==> d in dirs
    {
      order := [];
      var left := dirs;
      while left != {}
        invariant left <= dirs && DeepestFirst(order)
        invariant forall d :: d in order <==> d in dirs - left
        invariant forall d, e :: d in order && e in left ==> |d| >= |e|
        decreases left
      {
        ghost var deepest := Deepest(left);
        var d :| d in left && forall e | e in left :: |d| >= |e|;
        DeepestFirstAppend(order, d);
        order := order + [d];
        left := left - {d};
      }
    }

    /** `prune_stale`. */
    method PruneStale(stale: set<Path>) returns (removed: nat)
      requires Valid() && stale <= files.Keys
      modifies this
      ensures Valid() && files == old(files) - stale && removed == |stale|
      ensures dirs == Needed(old(dirs), files)
      ensures forall d :: d in dirs <==>
                d in old(dirs)
                && ((d != [] && d[0] == "gaf-architecture-review") || exists f :: f in files && Above(d, f))
    {
      removed := UnlinkAll(stale);
      var order := Snapshot();
      RemoveEmptyDirs(order);
    }

    /** `main` without --check. */
    method Sync(src: Files, prune: bool) returns (ok: bool, written: nat, removed: nat)
      requires Valid() && ValidSource(src)
      modifies this
      ensures Valid()
      ensures ok <==> forall p :: p in ToCopy(src, old(files), hash)
                                  ==> !Clashes(old(files), old(dirs), p)
      ensures ok ==> written == |ToCopy(src, old(files), hash)|
      ensures !ok ==> removed == 0
      ensures !ok ==> CopiedPart(src, old(files), old(dirs), ToCopy(src, old(files), hash), files, dirs, written)
      ensures ok ==> files == Synced(src, old(files), hash, prune)
      ensures ok ==> removed == if prune then |Stale(src, old(files))| else 0
      ensures ok ==>
                var made := CopiedDirs(old(dirs), ToCopy(src, old(files), hash));
                dirs == if prune && Stale(src, old(files)) != {} then Needed(made, files) else made
      ensures !HasDrift(src, old(files), hash) ==> ok && dirs == old(dirs)
    {
      var todo, stale := ToCopy(src, files, hash), Stale(src, files);
      SyncedCases(src, files, hash, dirs);
      removed := 0;
      ok, written := ApplyMirror(src, todo);
      if !ok {
        return;
      }
      if prune && stale != {} {
        removed := PruneStale(stale);
      }
    }

    /** `main --check`: exit code 0 exactly when a run with --prune would leave every file as it is;
        nothing is written. */
    method Check(src: Files) returns (exitCode: int)
      ensures exitCode == 0 || exitCode == 1
      ensures exitCode == 0 <==> Synced(src, files, hash, true) == files
      ensures exitCode == 0 <==> (forall p :: p in src ==> p in files && hash(src[p]) == hash(files[p]))
                                 && (forall p :: p in files ==> p in src || IsProtected(p))
    {
      NoDriftMeaning(src, files, hash);
      NoDriftIsFixed(src, files, hash);
      var created, updated, stale := Created(src, files), Updated(src, files, hash), Stale(src, files);
      if created != {} || updated != {} || stale != {} {
        return 1;
      }
      exitCode := 0;
    }
  }

  // ----- convergence -----

  /** After mirror and prune, the files are those of the source plus the old files under protected
      directories; a check finds no drift and a second run has nothing to write or remove. */
  lemma SyncConverges(src: Files, dst: Files, hash: string -> string)
    ensures var after := Synced(src, dst, hash, true);
            && after.Keys == src.Keys + (set p | p in dst && IsProtected(p))
            && (forall p :: p in dst && p !in src && IsProtected(p) ==> after[p] == dst[p])
            && !HasDrift(src, after, hash)
            && Synced(src, after, hash, true) == after
  {
  }

  /** Every source file has its exact content in the destination if and only if no path holds two
      different contents with one hash. */
  lemma ContentsExactIff(src: Files, dst: Files, hash: string -> string, prune: bool)
    ensures (forall p :: p in src ==> p in Synced(src, dst, hash, prune) && Synced(src, dst, hash, prune)[p] == src[p])
            <==> !exists p :: p in src && p in dst && hash(src[p]) == hash(dst[p]) && src[p] != dst[p]
  {
  }

  /** Without --prune nothing is ever deleted, and drift remains exactly when something is stale. */
  lemma MirrorOnlyAdds(src: Files, dst: Files, hash: string -> string)
    ensures dst.Keys <= Synced(src, dst, hash, false).Keys
    ensures HasDrift(src, Synced(src, dst, hash, false), hash) <==> Stale(src, dst) != {}
  {
  }
}
