/** Per-execution debug directories (backend/gaf_core/debug_path.py): the path built for an execution
    and the search that finds it again among nested and legacy directories. Paths use "/". */
module DebugPath {
  import opened Prelude
  import opened PyStrings

  const MAX_TASK_NAME_LEN: nat := 40
  const SUFFIX_LEN: nat := 8

  // ----- names -----

  /** The last `n` characters. */
  function Last(s: string, n: nat): string {
    if |s| <= n then s else s[|s| - n..]
  }

  /** `_extract_exec_id_suffix`. */
  function Suffix(executionId: string): string {
    if "exec-" <= executionId then Last(executionId[5..], SUFFIX_LEN) else Last(executionId, SUFFIX_LEN)
  }

  predicate IsUnsafe(c: char) {
    c == '<' || c == '>' || c == ':' || c == '"' || c == '/' || c == '\\' || c == '|' || c == '?' || c == '*'
    || c as int <= 0x1F
  }

  function Replaced(name: string): string {
    seq(|name|, i requires 0 <= i < |name| => if IsUnsafe(name[i]) || name[i] == ' ' then '_' else name[i])
  }

  predicate IsEdge(c: char) { c == '.' || c == '_' }

  /** `_sanitize_task_name`. */
  function Sanitize(name: string): string {
    var safe := Trim(Replaced(name), IsEdge);
    if name == "" || safe == "" then "unnamed"
    else if |safe| <= MAX_TASK_NAME_LEN then safe else safe[..MAX_TASK_NAME_LEN]
  }

  /** The characters no directory entry can have: the separator, and NUL, which ends every path that is
      handed to the kernel. */
  predicate NameSafe(s: string) {
    '/' !in s && '\0' !in s
  }

  /** A single path component that names an entry of a directory. */
  predicate IsComponent(s: string) {
    s != "" && NameSafe(s) && s != "." && s != ".."
  }

  lemma ReplacedAt(name: string, i: nat)
    requires i < |name|
    ensures |Replaced(name)| == |name|
    ensures Replaced(name)[i] == if name[i] in "<>:\"/\\|?* " || name[i] as int <= 31 then '_' else name[i]
  {
  }

  lemma ReplacedEdges(name: string)
    ensures All(Replaced(name), IsEdge) <==> forall c :: c in name ==> IsUnsafe(c) || c == ' ' || IsEdge(c)
  {
    var t := Replaced(name);
    forall i | 0 <= i < |name| ensures IsEdge(t[i]) <==> IsUnsafe(name[i]) || name[i] == ' ' || IsEdge(name[i]) { }
    if All(t, IsEdge) {
      forall c | c in name ensures IsUnsafe(c) || c == ' ' || IsEdge(c) {
        var i :| 0 <= i < |name| && name[i] == c;
        assert t[i] in t;
      }
    } else {
      var i :| 0 <= i < |t| && !IsEdge(t[i]);
      assert name[i] in name;
    }
  }

  /** What a sanitised name is: of the name with every unsafe character and space replaced by "_", the part
      without dots and underscores at its ends, cut at 40 characters; "unnamed" when nothing is left, which is
      when the name has nothing but such characters. */
  lemma SanitizeMeaning(name: string) returns (l: string, core: string, r: string)
    ensures Replaced(name) == l + core + r && All(l, IsEdge) && All(r, IsEdge) && Trimmed(core, IsEdge)
    ensures Sanitize(name) == if core == "" then "unnamed" else if |core| <= 40 then core else core[..40]
    ensures core == "" <==> forall c :: c in name ==> IsUnsafe(c) || c == ' ' || IsEdge(c)
  {
    core := Trim(Replaced(name), IsEdge);
    l, r := TrimParts(Replaced(name), IsEdge);
    ReplacedEdges(name);
    if core == "" {
      assert Replaced(name) == l + r;
    } else {
      TrimKeeps(Replaced(name), IsEdge, core[0]);
    }
  }

  /** A name that is safe already stays as it is. */
  lemma SafeNameStays(name: string)
    requires name != "" && |name| <= 40 && Trimmed(name, IsEdge)
    requires forall c :: c in name ==> !IsUnsafe(c) && c != ' '
    ensures Sanitize(name) == name
  {
    forall i | 0 <= i < |name| ensures Replaced(name)[i] == name[i] { assert name[i] in name; }
    assert Replaced(name) == name;
    TrimPadded("", name, "", IsEdge);
    assert "" + name + "" == name;
  }

  /** Whatever name a task has, its sanitised form is one usable path component. */
  lemma SanitizeIsComponent(name: string)
    ensures IsComponent(Sanitize(name)) && |Sanitize(name)| <= MAX_TASK_NAME_LEN
  {
    var l, core, r := SanitizeMeaning(name);
    if core != "" {
      assert Sanitize(name)[0] == core[0];
      forall c | c in Sanitize(name) ensures c != '/' && c != '\0' { assert c in core && c in Replaced(name); }
    }
  }

  function JoinPath(a: string, b: string): string {
    if a != "" && a[|a| - 1] == '/' then a + b else a + "/" + b
  }

  datatype Clock = Clock(date: string, time: string)  // strftime %Y%m%d and %H%M%S

  predicate Digits(s: string, n: nat) {
    |s| >= n && forall i :: 0 <= i < n ==> '0' <= s[i] <= '9'
  }

  predicate ValidClock(c: Clock) {
    |c.date| == 8 && Digits(c.date, 8) && |c.time| == 6 && Digits(c.time, 6)
  }

  function ExecName(executionId: string, now: Clock): string {
    if Suffix(executionId) == "" then now.time else now.time + "_" + Suffix(executionId)
  }

  /** `build_execution_debug_dir`. */
  function Build(root: string, executionId: string, taskName: string, now: Clock): string {
    var date := JoinPath(if root == "" then "./debug" else root, now.date);
    JoinPath(JoinPath(date, Sanitize(taskName)), ExecName(executionId, now))
  }

  /** The suffix is the end of the id after "exec-", of the whole id when it does not begin so: its last eight
      characters, or all of them. */
  lemma SuffixMeaning(executionId: string, id: string)
    requires executionId == "exec-" + id || (executionId == id && !("exec-" <= id))
    ensures exists front :: id == front + Suffix(executionId)
    ensures |Suffix(executionId)| == if |id| <= 8 then |id| else 8
  {
    assert executionId == "exec-" + id ==> executionId[5..] == id;
    assert id == id[..|id| - |Suffix(executionId)|] + Suffix(executionId);
  }

  predicate NoSlashAtEnd(s: string) { s != "" && s[|s| - 1] != '/' }

  lemma JoinPathPlain(a: string, b: string, c: string)
    requires NoSlashAtEnd(b)
    ensures JoinPath(a + b, c) == a + b + "/" + c
  {
    assert (a + b)[|a + b| - 1] == b[|b| - 1];
  }

  lemma JoinTwice(base: string, date: string, safe: string, name: string)
    requires NoSlashAtEnd(date) && NoSlashAtEnd(safe)
    ensures JoinPath(JoinPath(base + date, safe), name) == base + date + "/" + safe + "/" + name
  {
    JoinPathPlain(base, date, safe);
    JoinPathPlain(base + date + "/", safe, name);
  }

  /** The root with one slash behind it. */
  function RootPrefix(root: string): string {
    if root == "" then "./debug/" else if root[|root| - 1] == '/' then root else root + "/"
  }

  lemma JoinRoot(root: string, date: string)
    ensures JoinPath(if root == "" then "./debug" else root, date) == RootPrefix(root) + date
  {
    assert "./debug" + "/" == "./debug/";
  }

  /** The path that is built, spelled out. */
  lemma BuildShape(root: string, executionId: string, taskName: string, now: Clock)
    requires ValidClock(now)
    ensures var name := if Suffix(executionId) == "" then now.time else now.time + "_" + Suffix(executionId);
            Build(root, executionId, taskName, now)
            == RootPrefix(root) + now.date + "/" + Sanitize(taskName) + "/" + name
  {
    SanitizeIsComponent(taskName);
    var safe := Sanitize(taskName);
    assert safe[|safe| - 1] in safe;
    JoinRoot(root, now.date);
    JoinTwice(RootPrefix(root), now.date, safe, ExecName(executionId, now));
  }

  // ----- the directory tree -----

  /** What listing the debug directory shows, three levels deep. `mtime` is 0 when it cannot be read; a
      directory that cannot be listed has no entries. */
  datatype ExecDir = ExecDir(name: string, isDir: bool, mtime: real)
  datatype PipelineDir = PipelineDir(name: string, isDir: bool, entries: seq<ExecDir>)
  datatype RootEntry = RootEntry(name: string, isDir: bool, mtime: real, pipelines: seq<PipelineDir>)

  datatype Match = Match(path: string, mtime: real)

  predicate EndsWith(s: string, t: string) {
    |t| <= |s| && s[|s| - |t|..] == t
  }

  /** `^\d{8}$`, which also lets a final newline through. */
  predicate IsDate(s: string) {
    Digits(s, 8) && (|s| == 8 || (|s| == 9 && s[8] == '\n'))
  }

  predicate IsExecName(s: string) { |s| > 6 && Digits(s, 6) && s[6] == '_' }

  predicate IsLegacyName(s: string) {
    |s| > 15 && Digits(s, 8) && s[8] == '_' && Digits(s[9..], 6) && s[15] == '_'
  }

  predicate AllDigits(s: string) { forall i :: 0 <= i < |s| ==> '0' <= s[i] <= '9' }

  lemma LegacyParts(d: string, t: string, rest: string)
    requires |d| == 8 && AllDigits(d) && |t| == 6 && AllDigits(t)
    ensures IsLegacyName(d + "_" + t + "_" + rest)
  {
    var s := d + "_" + t + "_" + rest;
    assert s[9..] == t + "_" + rest && s[..8] == d;
    assert forall i :: 0 <= i < 8 ==> s[i] == d[i];
  }

  /** The names a lookup accepts, taken apart: a date directory, an execution's directory, and one of the older
      layout. */
  lemma DatePattern(s: string)
    ensures IsDate(s) <==> exists d :: |d| == 8 && AllDigits(d) && (s == d || s == d + "\n")
  {
    if IsDate(s) { assert s == s[..8] || s == s[..8] + "\n"; }
  }

  lemma ExecPattern(s: string)
    ensures IsExecName(s) <==> exists t, rest :: |t| == 6 && AllDigits(t) && s == t + "_" + rest
  {
    if IsExecName(s) { assert s == s[..6] + "_" + s[7..]; }
  }

  lemma LegacyPattern(s: string)
    ensures IsLegacyName(s)
            <==> exists d, t, rest ::
                   |d| == 8 && AllDigits(d) && |t| == 6 && AllDigits(t) && s == d + "_" + t + "_" + rest
  {
    if IsLegacyName(s) {
      assert s == s[..8] + "_" + s[9..15] + "_" + s[16..];
      assert AllDigits(s[..8]) && AllDigits(s[9..15]);
    }
    if d, t, rest :| |d| == 8 && AllDigits(d) && |t| == 6 && AllDigits(t) && s == d + "_" + t + "_" + rest {
      LegacyParts(d, t, rest);
    }
  }

  function ExecMatches(dir: string, entries: seq<ExecDir>, suffix: string): seq<Match> {
    if entries == [] then []
    else
      var n := |entries| - 1;
      ExecMatches(dir, entries[..n], suffix)
      + if EndsWith(entries[n].name, suffix) && IsExecName(entries[n].name) && entries[n].isDir
        then [Match(JoinPath(dir, entries[n].name), entries[n].mtime)] else []
  }

  function PipelineMatches(dir: string, pipelines: seq<PipelineDir>, suffix: string): seq<Match> {
    if pipelines == [] then []
    else
      var n := |pipelines| - 1;
      PipelineMatches(dir, pipelines[..n], suffix)
      + if pipelines[n].isDir then ExecMatches(JoinPath(dir, pipelines[n].name), pipelines[n].entries, suffix) else []
  }

  function NestedMatches(root: string, tree: seq<RootEntry>, suffix: string): seq<Match> {
    if tree == [] then []
    else
      var n := |tree| - 1;
      NestedMatches(root, tree[..n], suffix)
      + if IsDate(tree[n].name) && tree[n].isDir
        then PipelineMatches(JoinPath(root, tree[n].name), tree[n].pipelines, suffix) else []
  }

  function LegacyMatches(root: string, tree: seq<RootEntry>, suffix: string): seq<Match> {
    if tree == [] then []
    else
      var n := |tree| - 1;
      LegacyMatches(root, tree[..n], suffix)
      + if EndsWith(tree[n].name, suffix) && IsLegacyName(tree[n].name) && tree[n].isDir
        then [Match(JoinPath(root, tree[n].name), tree[n].mtime)] else []
  }

  function AllMatches(root: string, tree: seq<RootEntry>, suffix: string): seq<Match> {
    NestedMatches(root, tree, suffix) + LegacyMatches(root, tree, suffix)
  }

  // ----- the search -----

  method ScanExecs(dir: string, entries: seq<ExecDir>, suffix: string, before: seq<Match>) returns (matches: seq<Match>)
    ensures matches == before + ExecMatches(dir, entries, suffix)
  {
    matches := before;
    for i := 0 to |entries|
      invariant matches == before + ExecMatches(dir, entries[..i], suffix)
    {
      assert entries[..i + 1][..i] == entries[..i];
      var e := entries[i];
      if EndsWith(e.name, suffix) && IsExecName(e.name) && e.isDir {
        matches := matches + [Match(JoinPath(dir, e.name), e.mtime)];
      }
    }
    assert entries[..|entries|] == entries;
  }

  method ScanPipelines(dir: string, pipelines: seq<PipelineDir>, suffix: string, before: seq<Match>)
      returns (matches: seq<Match>)
    ensures matches == before + PipelineMatches(dir, pipelines, suffix)
  {
    matches := before;
    for i := 0 to |pipelines|
      invariant matches == before + PipelineMatches(dir, pipelines[..i], suffix)
    {
      assert pipelines[..i + 1][..i] == pipelines[..i];
      if pipelines[i].isDir {
        matches := ScanExecs(JoinPath(dir, pipelines[i].name), pipelines[i].entries, suffix, matches);
      }
    }
    assert pipelines[..|pipelines|] == pipelines;
  }

  method ScanRoot(root: string, tree: seq<RootEntry>, suffix: string) returns (matches: seq<Match>)
    ensures matches == AllMatches(root, tree, suffix)
  {
    matches := [];
    for i := 0 to |tree|
      invariant matches == NestedMatches(root, tree[..i], suffix)
    {
      assert tree[..i + 1][..i] == tree[..i];
      if IsDate(tree[i].name) && tree[i].isDir {
        matches := ScanPipelines(JoinPath(root, tree[i].name), tree[i].pipelines, suffix, matches);
      }
    }
    assert tree[..|tree|] == tree;
    for i := 0 to |tree|
      invariant matches == NestedMatches(root, tree, suffix) + LegacyMatches(root, tree[..i], suffix)
    {
      assert tree[..i + 1][..i] == tree[..i];
      var e := tree[i];
      if EndsWith(e.name, suffix) && IsLegacyName(e.name) && e.isDir {
        matches := matches + [Match(JoinPath(root, e.name), e.mtime)];
      }
    }
    assert tree[..|tree|] == tree;
  }

  /** The newest match, the earliest in scan order among equals. */
  ghost predicate IsNewest(matches: seq<Match>, path: string) {
    exists k :: 0 <= k < |matches| && matches[k].path == path
             && (forall j :: 0 <= j < |matches| ==> matches[j].mtime <= matches[k].mtime)
             && (forall j :: 0 <= j < k ==> matches[j].mtime < matches[k].mtime)
  }

  /** What a lookup returns for a root, the listing of that root and an id. */
  ghost predicate Finds(root: string, listable: bool, tree: seq<RootEntry>, executionId: string,
                        found: Option<string>)
  {
    var m := AllMatches(root, tree, Suffix(executionId));
    && (found.None? <==> root == "" || Suffix(executionId) == "" || !listable || m == [])
    && (found.Some? ==> IsNewest(m, found.value))
  }

  lemma SuffixOfEmpty()
    ensures Suffix("") == ""
  {
  }

  /** `matches.sort(key=mtime, reverse=True)` and its first element. */
  method Newest(matches: seq<Match>) returns (path: string)
    requires matches != []
    ensures IsNewest(matches, path)
  {
    var best := 0;
    for i := 1 to |matches|
      invariant 0 <= best < i <= |matches|
      invariant forall j :: 0 <= j < i ==> matches[j].mtime <= matches[best].mtime
      invariant forall j :: 0 <= j < best ==> matches[j].mtime < matches[best].mtime
    {
      if matches[i].mtime > matches[best].mtime { best := i; }
    }
    path := matches[best].path;
  }

  /** `find_exec_dir_by_id`. Only the first element of the stable descending sort is used, so the sort
      is a search for the first match of greatest mtime. */
  method FindExecDirById(root: string, listable: bool, tree: seq<RootEntry>, executionId: string)
      returns (found: Option<string>)
    ensures Finds(root, listable, tree, executionId, found)
  {
    SuffixOfEmpty();
    if executionId == "" || root == "" {
      return None;
    }
    var suffix := Suffix(executionId);
    if suffix == "" || !listable {
      return None;
    }
    var matches := ScanRoot(root, tree, suffix);
    if matches == [] {
      return None;
    }
    var path := Newest(matches);
    found := Some(path);
  }

  lemma NewestUnique(matches: seq<Match>, a: string, b: string)
    requires IsNewest(matches, a) && IsNewest(matches, b)
    ensures a == b
  {
  }

  // ----- find undoes build -----

  /** The tree holds the directory that `Build` names: a date directory, in it a directory for the
      sanitised task name, in it the execution's directory. */
  ghost predicate Holds(tree: seq<RootEntry>, executionId: string, taskName: string, now: Clock) {
    exists t, p, e :: t in tree && p in t.pipelines && e in p.entries
                      && t.isDir && t.name == now.date && p.isDir && p.name == Sanitize(taskName)
                      && e.isDir && e.name == ExecName(executionId, now)
  }

  predicate IsExecMatch(dir: string, e: ExecDir, suffix: string, m: Match) {
    e.isDir && EndsWith(e.name, suffix) && IsExecName(e.name) && m == Match(JoinPath(dir, e.name), e.mtime)
  }

  /** `m` is an execution directory under one of the given pipeline directories. */
  ghost predicate NestedIn(dir: string, ps: seq<PipelineDir>, suffix: string, m: Match) {
    exists p, e :: p in ps && p.isDir && e in p.entries && IsExecMatch(JoinPath(dir, p.name), e, suffix, m)
  }

  ghost predicate IsNestedMatch(root: string, t: RootEntry, suffix: string, m: Match) {
    t.isDir && IsDate(t.name) && NestedIn(JoinPath(root, t.name), t.pipelines, suffix, m)
  }

  predicate IsLegacyMatch(root: string, t: RootEntry, suffix: string, m: Match) {
    t.isDir && EndsWith(t.name, suffix) && IsLegacyName(t.name) && m == Match(JoinPath(root, t.name), t.mtime)
  }

  lemma {:induction false} ExecMatchesExact(dir: string, entries: seq<ExecDir>, suffix: string, m: Match)
    ensures m in ExecMatches(dir, entries, suffix) <==> exists e :: e in entries && IsExecMatch(dir, e, suffix, m)
    decreases |entries|
  {
    if entries != [] {
      var n := |entries| - 1;
      ExecMatchesExact(dir, entries[..n], suffix, m);
      var e := entries[n];
      var last := if EndsWith(e.name, suffix) && IsExecName(e.name) && e.isDir
                  then [Match(JoinPath(dir, e.name), e.mtime)] else [];
      assert ExecMatches(dir, entries, suffix) == ExecMatches(dir, entries[..n], suffix) + last;
      assert m in last <==> IsExecMatch(dir, e, suffix, m);
      assert entries == entries[..n] + [entries[n]];
      assert forall e :: e in entries <==> e in entries[..n] || e == entries[n];
    }
  }

  lemma {:induction false} PipelineMatchesExact(dir: string, ps: seq<PipelineDir>, suffix: string, m: Match)
    ensures m in PipelineMatches(dir, ps, suffix) <==> NestedIn(dir, ps, suffix, m)
    decreases |ps|
  {
    if ps != [] {
      var n := |ps| - 1;
      PipelineMatchesExact(dir, ps[..n], suffix, m);
      ExecMatchesExact(JoinPath(dir, ps[n].name), ps[n].entries, suffix, m);
      assert ps == ps[..n] + [ps[n]];
      assert forall p :: p in ps <==> p in ps[..n] || p == ps[n];
    }
  }

  ghost predicate AnyNested(root: string, tree: seq<RootEntry>, suffix: string, m: Match) {
    exists t :: t in tree && IsNestedMatch(root, t, suffix, m)
  }

  lemma AnyNestedLast(root: string, front: seq<RootEntry>, last: RootEntry, suffix: string, m: Match)
    ensures AnyNested(root, front + [last], suffix, m)
            <==> AnyNested(root, front, suffix, m) || IsNestedMatch(root, last, suffix, m)
  {
  }

  lemma {:induction false} NestedMatchesExact(root: string, tree: seq<RootEntry>, suffix: string, m: Match)
    ensures m in NestedMatches(root, tree, suffix) <==> AnyNested(root, tree, suffix, m)
    decreases |tree|
  {
    if tree != [] {
      var n := |tree| - 1;
      NestedMatchesExact(root, tree[..n], suffix, m);
      PipelineMatchesExact(JoinPath(root, tree[n].name), tree[n].pipelines, suffix, m);
      AnyNestedLast(root, tree[..n], tree[n], suffix, m);
      assert tree == tree[..n] + [tree[n]];
    }
  }

  ghost predicate AnyLegacy(root: string, tree: seq<RootEntry>, suffix: string, m: Match) {
    exists t :: t in tree && IsLegacyMatch(root, t, suffix, m)
  }

  lemma AnyLegacyLast(root: string, front: seq<RootEntry>, last: RootEntry, suffix: string, m: Match)
    ensures AnyLegacy(root, front + [last], suffix, m)
            <==> AnyLegacy(root, front, suffix, m) || IsLegacyMatch(root, last, suffix, m)
  {
  }

  lemma {:induction false} LegacyMatchesExact(root: string, tree: seq<RootEntry>, suffix: string, m: Match)
    ensures m in LegacyMatches(root, tree, suffix) <==> AnyLegacy(root, tree, suffix, m)
    decreases |tree|
  {
    if tree != [] {
      var n := |tree| - 1;
      LegacyMatchesExact(root, tree[..n], suffix, m);
      AnyLegacyLast(root, tree[..n], tree[n], suffix, m);
      assert tree == tree[..n] + [tree[n]];
    }
  }

  /** The candidates of a lookup are exactly the directories of either layout whose name ends with the
      suffix. */
  lemma MatchesExactly(root: string, tree: seq<RootEntry>, suffix: string, m: Match)
    ensures m in AllMatches(root, tree, suffix)
            <==> AnyNested(root, tree, suffix, m) || AnyLegacy(root, tree, suffix, m)
  {
    NestedMatchesExact(root, tree, suffix, m);
    LegacyMatchesExact(root, tree, suffix, m);
  }

  /** The directory built for an execution is among the matches of its lookup. */
  lemma BuiltIsMatched(root: string, tree: seq<RootEntry>, executionId: string, taskName: string, now: Clock)
      returns (m: Match)
    requires root != "" && Suffix(executionId) != "" && ValidClock(now) && Holds(tree, executionId, taskName, now)
    ensures m in AllMatches(root, tree, Suffix(executionId)) && m.path == Build(root, executionId, taskName, now)
  {
    var suffix, name := Suffix(executionId), ExecName(executionId, now);
    var t, p, e :| t in tree && p in t.pipelines && e in p.entries
                   && t.isDir && t.name == now.date && p.isDir && p.name == Sanitize(taskName)
                   && e.isDir && e.name == name;
    assert name[7..] == suffix && EndsWith(name, suffix) && IsExecName(name);
    var dir := JoinPath(JoinPath(root, now.date), Sanitize(taskName));
    m := Match(JoinPath(dir, name), e.mtime);
    assert IsExecMatch(dir, e, suffix, m) && IsNestedMatch(root, t, suffix, m);
    MatchesExactly(root, tree, suffix, m);
  }

  /** Find undoes build: once the built directory exists, a lookup by its id succeeds; it returns the
      built path if and only if that is the newest match, in particular when it is the only one. */
  lemma FindUndoesBuild(root: string, tree: seq<RootEntry>, executionId: string, taskName: string, now: Clock,
                        found: Option<string>)
    requires root != "" && Suffix(executionId) != "" && ValidClock(now) && Holds(tree, executionId, taskName, now)
    requires Finds(root, true, tree, executionId, found)
    ensures var m, built := AllMatches(root, tree, Suffix(executionId)), Build(root, executionId, taskName, now);
            && found.Some? && (found.value == built <==> IsNewest(m, built))
            && ((forall k :: 0 <= k < |m| ==> m[k].path == built) ==> found.value == built)
  {
    var b := BuiltIsMatched(root, tree, executionId, taskName, now);
    var m, built := AllMatches(root, tree, Suffix(executionId)), Build(root, executionId, taskName, now);
    if IsNewest(m, built) { NewestUnique(m, found.value, built); }
  }

  // ----- when it cannot -----

  /** A tree that a file system can show under `root`: every listed name is one path component. */
  ghost predicate RealTree(root: string, tree: seq<RootEntry>) {
    '\0' !in root
    && forall t :: t in tree ==>
      IsComponent(t.name)
      && forall p :: p in t.pipelines ==> IsComponent(p.name) && forall e :: e in p.entries ==> IsComponent(e.name)
  }

  lemma SuffixIsNameSafe(name: string, suffix: string)
    requires IsComponent(name) && EndsWith(name, suffix)
    ensures NameSafe(suffix)
  {
  }

  lemma MatchedSuffixIsNameSafe(root: string, tree: seq<RootEntry>, suffix: string, m: Match)
    requires RealTree(root, tree) && m in AllMatches(root, tree, suffix)
    ensures NameSafe(suffix)
  {
    MatchesExactly(root, tree, suffix, m);
    if AnyLegacy(root, tree, suffix, m) {
      var t :| t in tree && IsLegacyMatch(root, t, suffix, m);
      SuffixIsNameSafe(t.name, suffix);
    } else {
      var t :| t in tree && IsNestedMatch(root, t, suffix, m);
      var p, e :| p in t.pipelines && p.isDir && e in p.entries
                  && IsExecMatch(JoinPath(JoinPath(root, t.name), p.name), e, suffix, m);
      SuffixIsNameSafe(e.name, suffix);
    }
  }

  /** No listing has a candidate for a suffix with a slash or a NUL. */
  lemma UnsafeMatchesNothing(root: string, tree: seq<RootEntry>, suffix: string)
    requires RealTree(root, tree) && !NameSafe(suffix)
    ensures AllMatches(root, tree, suffix) == []
  {
    var all := AllMatches(root, tree, suffix);
    if all != [] { MatchedSuffixIsNameSafe(root, tree, suffix, all[0]); }
  }

  /** The tree with nothing but the built directory in it. */
  function OnlyBuilt(executionId: string, taskName: string, now: Clock): seq<RootEntry> {
    var e := ExecDir(ExecName(executionId, now), true, 0.0);
    [RootEntry(now.date, true, 0.0, [PipelineDir(Sanitize(taskName), true, [e])])]
  }

  lemma DigitsAreComponent(s: string)
    requires s != "" && Digits(s, |s|)
    ensures IsComponent(s)
  {
    forall c | c in s ensures '0' <= c <= '9' { var i :| 0 <= i < |s| && s[i] == c; }
    assert '0' <= s[0] <= '9';
  }

  lemma OnlyBuiltIsReal(root: string, executionId: string, taskName: string, now: Clock)
    requires '\0' !in root && ValidClock(now) && NameSafe(Suffix(executionId))
    ensures RealTree(root, OnlyBuilt(executionId, taskName, now))
  {
    SanitizeIsComponent(taskName);
    DigitsAreComponent(now.date);
    DigitsAreComponent(now.time);
    assert IsComponent(ExecName(executionId, now));
  }

  lemma OnlyBuiltMatch(root: string, executionId: string, taskName: string, now: Clock, m: Match)
    requires ValidClock(now) && m in AllMatches(root, OnlyBuilt(executionId, taskName, now), Suffix(executionId))
    ensures m == Match(Build(root, executionId, taskName, now), 0.0) || root == ""
  {
    var tree, suffix := OnlyBuilt(executionId, taskName, now), Suffix(executionId);
    MatchesExactly(root, tree, suffix, m);
    assert !IsLegacyName(now.date);
    var t :| t in tree && IsNestedMatch(root, t, suffix, m);
    var p, e :| p in t.pipelines && p.isDir && e in p.entries
                && IsExecMatch(JoinPath(JoinPath(root, t.name), p.name), e, suffix, m);
  }

  lemma OnlyBuiltHolds(executionId: string, taskName: string, now: Clock)
    ensures Holds(OnlyBuilt(executionId, taskName, now), executionId, taskName, now)
  {
    var t := OnlyBuilt(executionId, taskName, now)[0];
    var p := t.pipelines[0];
    assert t in OnlyBuilt(executionId, taskName, now) && p in t.pipelines && p.entries[0] in p.entries;
  }

  lemma FoundWhenAlone(root: string, tree: seq<RootEntry>, executionId: string, taskName: string, now: Clock)
    requires root != "" && Suffix(executionId) != "" && ValidClock(now) && Holds(tree, executionId, taskName, now)
    requires forall m :: m in AllMatches(root, tree, Suffix(executionId)) ==>
               m == Match(Build(root, executionId, taskName, now), 0.0)
    ensures Finds(root, true, tree, executionId, Some(Build(root, executionId, taskName, now)))
  {
    var b := BuiltIsMatched(root, tree, executionId, taskName, now);
    var m := AllMatches(root, tree, Suffix(executionId));
    assert forall k :: 0 <= k < |m| ==> m[k] in m;
    assert m[0].path == Build(root, executionId, taskName, now);
  }

  lemma OnlyBuiltIsFound(root: string, executionId: string, taskName: string, now: Clock)
    requires root != "" && '\0' !in root && ValidClock(now)
    requires Suffix(executionId) != "" && NameSafe(Suffix(executionId))
    ensures RealTree(root, OnlyBuilt(executionId, taskName, now))
    ensures Finds(root, true, OnlyBuilt(executionId, taskName, now), executionId,
                  Some(Build(root, executionId, taskName, now)))
  {
    OnlyBuiltIsReal(root, executionId, taskName, now);
    OnlyBuiltHolds(executionId, taskName, now);
    forall m | m in AllMatches(root, OnlyBuilt(executionId, taskName, now), Suffix(executionId))
      ensures m == Match(Build(root, executionId, taskName, now), 0.0)
    {
      OnlyBuiltMatch(root, executionId, taskName, now, m);
    }
    FoundWhenAlone(root, OnlyBuilt(executionId, taskName, now), executionId, taskName, now);
  }

  /** A lookup can return the path that was built, for some listing that a file system can show, if and
      only if the root is a non-empty string without NUL and the id has a non-empty suffix without slash
      and NUL. */
  lemma CanBeFoundIff(root: string, executionId: string, taskName: string, now: Clock)
    requires ValidClock(now)
    ensures (exists listable, tree :: RealTree(root, tree)
               && Finds(root, listable, tree, executionId, Some(Build(root, executionId, taskName, now))))
            <==> root != "" && '\0' !in root && Suffix(executionId) != "" && NameSafe(Suffix(executionId))
  {
    var built := Some(Build(root, executionId, taskName, now));
    if root != "" && '\0' !in root && Suffix(executionId) != "" && NameSafe(Suffix(executionId)) {
      OnlyBuiltIsFound(root, executionId, taskName, now);
    } else {
      forall listable, tree | RealTree(root, tree) ensures !Finds(root, listable, tree, executionId, built) {
        if !NameSafe(Suffix(executionId)) { UnsafeMatchesNothing(root, tree, Suffix(executionId)); }
      }
    }
  }

  /** The two functions read an empty root differently: one builds under "./debug", where a lookup
      with that root written out can find it; the other returns None for every listing. */
  lemma EmptyRootDiffers(executionId: string, taskName: string, now: Clock)
    requires ValidClock(now)
    ensures forall listable, tree, found :: Finds("", listable, tree, executionId, found) ==> found == None
    ensures Suffix(executionId) != "" && NameSafe(Suffix(executionId)) ==>
              var tree := OnlyBuilt(executionId, taskName, now);
              RealTree("./debug", tree)
              && Finds("./debug", true, tree, executionId, Some(Build("", executionId, taskName, now)))
  {
    if Suffix(executionId) != "" && NameSafe(Suffix(executionId)) {
      OnlyBuiltIsFound("./debug", executionId, taskName, now);
    }
  }

  /** An id whose directory is built and never found: its suffix makes two path components. */
  lemma SlashIdIsLost(root: string, taskName: string, now: Clock)
    requires ValidClock(now)
    ensures Build(root, "a/b", taskName, now) == Build(root, "a", taskName, now) + "/b"
    ensures forall listable, tree, found ::
              RealTree(root, tree) && Finds(root, listable, tree, "a/b", found) ==> found == None
  {
    assert Suffix("a/b") == "a/b" && Suffix("a") == "a" && '/' in "a/b";
    assert ExecName("a/b", now) == ExecName("a", now) + "/b";
    forall listable, tree, found | RealTree(root, tree) && Finds(root, listable, tree, "a/b", found)
      ensures found == None
    {
      UnsafeMatchesNothing(root, tree, "a/b");
    }
  }
}
