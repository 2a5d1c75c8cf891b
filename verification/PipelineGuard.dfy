/** The static gate for generated pipelines (backend/gaf_ai/pipeline_guard.py): structure, cycle,
    reachability and risk checks over an untrusted graph description. */
module PipelineGuard {
  import opened Prelude
  import opened Graphs
  import Search = CycleSearch

  /** Node types by the severity of their side effects. */
  datatype RiskTable = RiskTable(safe: set<string>, medium: set<string>, high: set<string>)

  const NODE_TYPES: RiskTable := RiskTable(
    safe := {"init", "start", "end", "screenshot", "ocr", "template_match", "wait", "condition",
             "branch", "loop", "delay", "log", "analyze", "nop"},
    medium := {"click", "input_text", "swipe", "key_press", "long_press", "scroll", "double_click",
               "drag"},
    high := {"shell_command", "adb_command", "restart", "install", "uninstall", "file_operation",
             "kill", "broadcast", "start_activity", "api_call", "write_file", "update_config",
             "execute_skill", "send_intent"})

  const COORD_KEYS: set<string> := {"x", "y", "left", "top", "width", "height"}
  const MAX_COORD: real := 4096.0

  /** A missing or falsy text field is "". `coords` holds the numeric, non-boolean entries. */
  datatype RawNode =
    | NotANode
    | RawNode(id: string, nodeId: string, nodeType: string, coords: map<string, real>)
  datatype RawEdge =
    | NotAnEdge
    | RawEdge(source: string, from: string, target: string, to: string)
  datatype RawEdges = NoEdges | EdgeList(edges: seq<RawEdge>) | MalformedEdges
  datatype RawGraph = NotAGraph | NoNodeList | RawGraph(nodes: seq<RawNode>, edges: RawEdges)

  datatype Error =
    | GraphNotObject | NodesMissing | NodeNotObject(index: nat) | NodeMissingId(index: nat)
    | DuplicateId(id: Id) | CycleFound
  datatype Warning =
    | TypeMissing(id: Id) | TypeUnknown(nodeType: string) | CoordOutOfRange(id: Id, key: string, val: real)
    | EdgeDropped(source: Id, target: Id) | EdgesMalformed | Unreachable(ids: seq<Id>)
  datatype Risk = Low | Medium | High
  datatype Report = Report(valid: bool, errors: seq<Error>, warnings: seq<Warning>, riskScore: nat,
                           riskLevel: Risk, highRisk: seq<Id>, cycleDetected: bool, unreachable: seq<Id>)

  // ----- what the node list means -----

  /** `a or b` on text. */
  function Or(a: string, b: string): string { if a != "" then a else b }

  function NodeIdOf(n: RawNode): Id { if n.RawNode? then Or(n.id, n.nodeId) else "" }

  predicate HasId(n: RawNode) { NodeIdOf(n) != "" }

  /** The ids of the well-formed nodes, in list order, duplicates included. */
  function Ids(nodes: seq<RawNode>): seq<Id> {
    if nodes == [] then [] else
      var last := nodes[|nodes| - 1];
      Ids(nodes[..|nodes| - 1]) + (if HasId(last) then [NodeIdOf(last)] else [])
  }

  function NodeError(nodes: seq<RawNode>, i: nat): seq<Error>
    requires i < |nodes|
  {
    if nodes[i].NotANode? then [NodeNotObject(i)]
    else if !HasId(nodes[i]) then [NodeMissingId(i)]
    else if NodeIdOf(nodes[i]) in Ids(nodes[..i]) then [DuplicateId(NodeIdOf(nodes[i]))]
    else []
  }

  function NodeErrors(nodes: seq<RawNode>): seq<Error> {
    if nodes == [] then [] else
      var i := |nodes| - 1;
      NodeErrors(nodes[..i]) + NodeError(nodes, i)
  }

  predicate IsHigh(t: RiskTable, n: RawNode) { HasId(n) && n.nodeType != "" && n.nodeType in t.high }
  predicate IsMedium(t: RiskTable, n: RawNode) { HasId(n) && n.nodeType != "" && n.nodeType in t.medium - t.high }

  function HighRisk(t: RiskTable, nodes: seq<RawNode>): seq<Id> {
    if nodes == [] then [] else
      var last := nodes[|nodes| - 1];
      HighRisk(t, nodes[..|nodes| - 1]) + (if IsHigh(t, last) then [NodeIdOf(last)] else [])
  }

  function MediumCount(t: RiskTable, nodes: seq<RawNode>): nat {
    if nodes == [] then 0 else
      MediumCount(t, nodes[..|nodes| - 1]) + (if IsMedium(t, nodes[|nodes| - 1]) then 1 else 0)
  }

  function CoordWarnings(n: RawNode, keys: seq<string>): seq<Warning>
    requires n.RawNode?
  {
    if keys == [] then [] else
      var key := keys[|keys| - 1];
      CoordWarnings(n, keys[..|keys| - 1]) +
      if key in n.coords && (n.coords[key] < 0.0 || n.coords[key] > MAX_COORD)
      then [CoordOutOfRange(NodeIdOf(n), key, n.coords[key])] else []
  }

  /** A node without a type is reported and its coordinates are not looked at. */
  function NodeWarnings(t: RiskTable, n: RawNode, keys: seq<string>): seq<Warning> {
    if !HasId(n) then []
    else if n.nodeType == "" then [TypeMissing(NodeIdOf(n))]
    else
      (if n.nodeType in t.high + t.medium + t.safe then []
       else [TypeUnknown(n.nodeType)])
      + CoordWarnings(n, keys)
  }

  function AllNodeWarnings(t: RiskTable, nodes: seq<RawNode>, keys: seq<string>): seq<Warning> {
    if nodes == [] then [] else
      AllNodeWarnings(t, nodes[..|nodes| - 1], keys) + NodeWarnings(t, nodes[|nodes| - 1], keys)
  }

  // ----- what the edge list means -----

  function SourceOf(e: RawEdge): Id { if e.RawEdge? then Or(e.source, e.from) else "" }
  function TargetOf(e: RawEdge): Id { if e.RawEdge? then Or(e.target, e.to) else "" }

  /** Self-loops and edges that name an unknown node are dropped. */
  predicate Kept(e: RawEdge, ids: seq<Id>) {
    e.RawEdge? && SourceOf(e) in ids && TargetOf(e) in ids && SourceOf(e) != TargetOf(e)
  }

  /** Some kept edge leads from `s` to `t`. */
  ghost predicate KeptEdge(ids: seq<Id>, edges: seq<RawEdge>, s: Id, t: Id) {
    exists e :: e in edges && Kept(e, ids) && SourceOf(e) == s && TargetOf(e) == t
  }

  /** The adjacency map of the kept edges, targets in edge order: "the graph". */
  function KeptGraph(ids: seq<Id>, edges: seq<RawEdge>): (adj: Adjacency)
    ensures forall n :: n in adj <==> n in ids
  {
    if edges == [] then map n | n in ids :: []
    else
      var e := edges[|edges| - 1];
      var adj := KeptGraph(ids, edges[..|edges| - 1]);
      if Kept(e, ids) then adj[SourceOf(e) := adj[SourceOf(e)] + [TargetOf(e)]] else adj
  }

  function EdgeWarnings(ids: seq<Id>, edges: seq<RawEdge>): seq<Warning> {
    if edges == [] then [] else
      var e := edges[|edges| - 1];
      EdgeWarnings(ids, edges[..|edges| - 1]) +
      if e.RawEdge? && !Kept(e, ids) then [EdgeDropped(SourceOf(e), TargetOf(e))] else []
  }

  function EdgeListWarnings(ids: seq<Id>, edges: RawEdges): seq<Warning> {
    match edges
    case NoEdges => []
    case EdgeList(es) => EdgeWarnings(ids, es)
    case MalformedEdges => [EdgesMalformed]
  }

  function EdgeSeq(edges: RawEdges): seq<RawEdge> {
    if edges.EdgeList? then edges.edges else []
  }

  // ----- the gate -----

  lemma UnrollNodes(t: RiskTable, nodes: seq<RawNode>, keys: seq<string>, i: nat)
    requires i < |nodes|
    ensures Ids(nodes[..i + 1]) == Ids(nodes[..i]) + (if HasId(nodes[i]) then [NodeIdOf(nodes[i])] else [])
    ensures NodeErrors(nodes[..i + 1]) == NodeErrors(nodes[..i]) + NodeError(nodes, i)
    ensures AllNodeWarnings(t, nodes[..i + 1], keys) ==
            AllNodeWarnings(t, nodes[..i], keys) + NodeWarnings(t, nodes[i], keys)
    ensures HighRisk(t, nodes[..i + 1]) ==
            HighRisk(t, nodes[..i]) + (if IsHigh(t, nodes[i]) then [NodeIdOf(nodes[i])] else [])
    ensures MediumCount(t, nodes[..i + 1]) == MediumCount(t, nodes[..i]) + (if IsMedium(t, nodes[i]) then 1 else 0)
  {
    assert nodes[..i + 1][..i] == nodes[..i];
  }

  method ScanCoords(node: RawNode, keys: seq<string>) returns (warnings: seq<Warning>)
    requires node.RawNode?
    ensures warnings == CoordWarnings(node, keys)
  {
    warnings := [];
    for i := 0 to |keys|
      invariant warnings == CoordWarnings(node, keys[..i])
    {
      assert keys[..i + 1][..i] == keys[..i];
      if keys[i] in node.coords && (node.coords[keys[i]] < 0.0 || node.coords[keys[i]] > MAX_COORD) {
        warnings := warnings + [CoordOutOfRange(NodeIdOf(node), keys[i], node.coords[keys[i]])];
      }
    }
    assert keys[..|keys|] == keys;
  }

  /** The node loop. */
  method ScanNodes(t: RiskTable, nodes: seq<RawNode>, keys: seq<string>)
      returns (ids: seq<Id>, errors: seq<Error>, warnings: seq<Warning>, highRisk: seq<Id>, score: nat)
    ensures ids == Ids(nodes) && errors == NodeErrors(nodes)
    ensures warnings == AllNodeWarnings(t, nodes, keys)
    ensures highRisk == HighRisk(t, nodes) && score == 3 * |HighRisk(t, nodes)| + MediumCount(t, nodes)
  {
    ids, errors, warnings, highRisk, score := [], [], [], [], 0;
    var seen: set<Id> := {};
    for i := 0 to |nodes|
      invariant ids == Ids(nodes[..i]) && errors == NodeErrors(nodes[..i])
      invariant warnings == AllNodeWarnings(t, nodes[..i], keys)
      invariant highRisk == HighRisk(t, nodes[..i])
      invariant score == 3 * |HighRisk(t, nodes[..i])| + MediumCount(t, nodes[..i])
      invariant forall n :: n in seen <==> n in ids
    {
      UnrollNodes(t, nodes, keys, i);
      var node := nodes[i];
      if node.NotANode? {
        errors := errors + [NodeNotObject(i)];
        continue;
      }
      var nid := Or(node.id, node.nodeId);
      if nid == "" {
        errors := errors + [NodeMissingId(i)];
        continue;
      }
      if nid in seen {
        errors := errors + [DuplicateId(nid)];
      }
      seen := seen + {nid};
      ids := ids + [nid];
      if node.nodeType == "" {
        warnings := warnings + [TypeMissing(nid)];
        continue;
      }
      var extra: seq<Warning> := [];
      if node.nodeType in t.high {
        highRisk := highRisk + [nid];
        score := score + 3;
      } else if node.nodeType in t.medium {
        score := score + 1;
      } else if node.nodeType !in t.safe {
        extra := [TypeUnknown(node.nodeType)];
      }
      var coords := ScanCoords(node, keys);
      warnings := warnings + (extra + coords);
    }
    assert nodes[..|nodes|] == nodes;
  }

  /** The edge loop. */
  method BuildAdjacency(ids: seq<Id>, edges: seq<RawEdge>) returns (adj: Adjacency, warnings: seq<Warning>)
    ensures adj == KeptGraph(ids, edges) && warnings == EdgeWarnings(ids, edges)
  {
    adj := map n | n in ids :: [];
    warnings := [];
    for i := 0 to |edges|
      invariant adj == KeptGraph(ids, edges[..i]) && warnings == EdgeWarnings(ids, edges[..i])
    {
      assert edges[..i + 1][..i] == edges[..i];
      var e := edges[i];
      if e.RawEdge? {
        var src, tgt := Or(e.source, e.from), Or(e.target, e.to);
        if src in adj && tgt in ids && src != tgt {
          adj := adj[src := adj[src] + [tgt]];
        } else {
          warnings := warnings + [EdgeDropped(src, tgt)];
        }
      }
    }
    assert edges[..|edges|] == edges;
  }

  /** The graph has an edge exactly where a kept edge leads: between two known, different nodes. */
  lemma {:induction false} KeptGraphEdges(ids: seq<Id>, edges: seq<RawEdge>, s: Id, t: Id)
    ensures t in Succ(KeptGraph(ids, edges), s) <==> KeptEdge(ids, edges, s, t)
    ensures KeptEdge(ids, edges, s, t) ==> s in ids && t in ids && s != t
    decreases |edges|
  {
    if edges != [] {
      var n := |edges| - 1;
      KeptGraphEdges(ids, edges[..n], s, t);
      assert edges == edges[..n] + [edges[n]];
      assert forall e :: e in edges <==> e in edges[..n] || e == edges[n];
    }
  }

  /** The nodes of `ids` outside `seen`, in order. */
  function Outside(ids: seq<Id>, seen: set<Id>): seq<Id> {
    if ids == [] then [] else (if ids[0] in seen then [] else [ids[0]]) + Outside(ids[1..], seen)
  }

  /** `found` is `ids` without what the first id reaches, in the same order. */
  ghost predicate IsUnreachableList(adj: Adjacency, ids: seq<Id>, found: seq<Id>) {
    && (forall n :: n in found <==> n in ids && !Reaches(adj, ids[0], n))
    && exists reached :: found == Outside(ids, reached)
  }

  lemma OutsideMembers(ids: seq<Id>, seen: set<Id>)
    ensures forall n :: n in Outside(ids, seen) <==> n in ids && n !in seen
  {
  }

  method FindUnreachable(adj: Adjacency, ids: seq<Id>) returns (unreachable: seq<Id>)
    ensures IsUnreachableList(adj, ids, unreachable)
  {
    if ids == [] {
      assert Outside(ids, {}) == [];
      return [];
    }
    var reached := Search.Reachable(adj, ids[0]);
    unreachable := Outside(ids, reached);
    OutsideMembers(ids, reached);
  }

  function GraphOf(nodes: seq<RawNode>, edges: RawEdges): Adjacency {
    KeptGraph(Ids(nodes), EdgeSeq(edges))
  }

  /** A report whose verdicts on the kept edges are the mathematical ones, with the lists as the loops
      write them. */
  ghost predicate Describes(r: Report, nodes: seq<RawNode>, edges: RawEdges, keys: seq<string>) {
    var ids, adj := Ids(nodes), GraphOf(nodes, edges);
    && (r.cycleDetected <==> HasCycle(adj))
    && r.errors == NodeErrors(nodes) + (if r.cycleDetected then [CycleFound] else [])
    && (r.valid <==> r.errors == [])
    && IsUnreachableList(adj, ids, r.unreachable)
    && r.warnings == AllNodeWarnings(NODE_TYPES, nodes, keys)
                     + EdgeListWarnings(ids, edges)
                     + (if r.unreachable == [] then [] else [Unreachable(r.unreachable)])
    && r.highRisk == HighRisk(NODE_TYPES, nodes)
    && r.riskScore == 3 * |HighRisk(NODE_TYPES, nodes)| + MediumCount(NODE_TYPES, nodes)
    && r.riskLevel == (if r.highRisk != [] || r.cycleDetected then High
                       else if r.riskScore >= 1 then Medium else Low)
  }

  method CheckGraph(nodes: seq<RawNode>, edges: RawEdges, keys: seq<string>) returns (r: Report)
    ensures Describes(r, nodes, edges, keys)
  {
    var ids, errors, warnings, highRisk, score := ScanNodes(NODE_TYPES, nodes, keys);
    var adj, edgeWarnings := BuildAdjacency(ids, EdgeSeq(edges));
    if edges.MalformedEdges? {
      edgeWarnings := [EdgesMalformed];
    }
    assert edgeWarnings == EdgeListWarnings(ids, edges);
    var cycle := Search.HasCycleDfs(adj);
    if cycle {
      errors := errors + [CycleFound];
    }
    var unreachable := FindUnreachable(adj, ids);
    warnings := warnings + edgeWarnings + (if unreachable == [] then [] else [Unreachable(unreachable)]);
    var level := if highRisk != [] || cycle then High else if score >= 1 then Medium else Low;
    r := Report(errors == [], errors, warnings, score, level, highRisk, cycle, unreachable);
  }

  /** `validate_and_score`. `keys` stands for COORD_KEYS in the order in which the set is walked. */
  method ValidateAndScore(g: RawGraph, keys: seq<string>) returns (r: Report)
    requires NoDup(keys) && forall k :: k in keys <==> k in COORD_KEYS
    ensures g.NotAGraph? ==> r == Report(false, [GraphNotObject], [], 0, High, [], true, [])
    ensures g.NoNodeList? || (g.RawGraph? && g.nodes == []) ==>
              r == Report(false, [NodesMissing], [], 0, High, [], false, [])
    ensures g.RawGraph? && g.nodes != [] ==> Describes(r, g.nodes, g.edges, keys)
  {
    if g.NotAGraph? {
      r := Report(false, [GraphNotObject], [], 0, High, [], true, []);
    } else if g.NoNodeList? || g.nodes == [] {
      r := Report(false, [NodesMissing], [], 0, High, [], false, []);
    } else {
      r := CheckGraph(g.nodes, g.edges, keys);
    }
  }

  // ----- what a verdict is worth -----

  ghost predicate SoundNodes(nodes: seq<RawNode>) {
    (forall n :: n in nodes ==> HasId(n)) && NoDup(Ids(nodes))
  }

  lemma NoDupAppend(s: seq<Id>, x: Id)
    ensures NoDup(s + [x]) <==> NoDup(s) && x !in s
  {
    var t := s + [x];
    assert t[|s|] == x && forall i :: 0 <= i < |s| ==> t[i] == s[i];
    if NoDup(t) {
      assert forall i, j :: 0 <= i < j < |s| ==> t[i] != t[j];
    }
  }

  lemma LastNode(nodes: seq<RawNode>, i: nat)
    requires |nodes| == i + 1
    ensures SoundNodes(nodes)
            <==> SoundNodes(nodes[..i]) && HasId(nodes[i]) && NodeIdOf(nodes[i]) !in Ids(nodes[..i])
  {
    assert nodes == nodes[..i] + [nodes[i]];
    assert nodes[i] in nodes && forall n :: n in nodes <==> n in nodes[..i] || n == nodes[i];
    if HasId(nodes[i]) {
      NoDupAppend(Ids(nodes[..i]), NodeIdOf(nodes[i]));
    }
  }

  /** No error from the node loop means exactly: every entry is an object with an id, all distinct. */
  lemma {:induction false} NodeErrorsMeaning(nodes: seq<RawNode>)
    ensures NodeErrors(nodes) == [] <==> SoundNodes(nodes)
    decreases |nodes|
  {
    if nodes != [] {
      var i := |nodes| - 1;
      NodeErrorsMeaning(nodes[..i]);
      LastNode(nodes, i);
      assert |NodeErrors(nodes)| == |NodeErrors(nodes[..i])| + |NodeError(nodes, i)|;
    }
  }

  lemma {:induction false} SoundIdCount(nodes: seq<RawNode>)
    requires forall n :: n in nodes ==> HasId(n)
    ensures |Ids(nodes)| == |nodes|
    decreases |nodes|
  {
    if nodes != [] { SoundIdCount(nodes[..|nodes| - 1]); }
  }

  /** A report is valid exactly when the node list is sound and the kept edges are acyclic. */
  lemma ValidMeaning(r: Report, nodes: seq<RawNode>, edges: RawEdges, keys: seq<string>)
    requires Describes(r, nodes, edges, keys)
    ensures r.valid <==> SoundNodes(nodes) && !HasCycle(GraphOf(nodes, edges))
  {
    NodeErrorsMeaning(nodes);
  }

  /** A walk along kept edges stays among the known nodes. */
  lemma KeptWalkStays(ids: seq<Id>, edges: seq<RawEdge>, p: seq<Id>)
    requires IsWalk(KeptGraph(ids, edges), p) && p[0] in ids
    ensures forall n :: n in p ==> n in ids
  {
    var adj, known := KeptGraph(ids, edges), set n | n in ids;
    forall n, m | n in known && m in Succ(adj, n) ensures m in known {
      KeptGraphEdges(ids, edges, n, m);
    }
    ClosedContainsWalk(adj, known, p);
  }

  lemma {:induction false} SetOfSeqSize(s: seq<Id>)
    ensures |set n | n in s| <= |s|
  {
    if s != [] {
      SetOfSeqSize(s[1..]);
      assert (set n | n in s) == (set n | n in s[1..]) + {s[0]};
    }
  }

  /** An execution of a valid pipeline along kept edges visits no node twice, so it takes at most as
      many steps as the pipeline has nodes. */
  lemma ValidBoundsWalks(nodes: seq<RawNode>, edges: RawEdges, p: seq<Id>)
    requires SoundNodes(nodes) && !HasCycle(GraphOf(nodes, edges))
    requires IsWalk(GraphOf(nodes, edges), p) && p[0] in Ids(nodes)
    ensures NoDup(p) && |p| <= |nodes|
  {
    AcyclicWalkNoDup(GraphOf(nodes, edges), p);
    KeptWalkStays(Ids(nodes), EdgeSeq(edges), p);
    PigeonHole(p, set n | n in Ids(nodes));
    SetOfSeqSize(Ids(nodes));
    SoundIdCount(nodes);
  }

  lemma {:induction false} HighRiskMeaning(t: RiskTable, nodes: seq<RawNode>)
    ensures HighRisk(t, nodes) != [] <==> exists n :: n in nodes && IsHigh(t, n)
    ensures MediumCount(t, nodes) != 0 <==> exists n :: n in nodes && IsMedium(t, n)
    decreases |nodes|
  {
    if nodes != [] {
      var n := |nodes| - 1;
      assert nodes == nodes[..n] + [nodes[n]];
      assert forall x :: x in nodes <==> x in nodes[..n] || x == nodes[n];
      HighRiskMeaning(t, nodes[..n]);
    }
  }

  /** The risk level is high exactly for a cycle or a node of a high type, and low exactly when there is
      neither, nor a node of a medium type. */
  lemma RiskLevelMeaning(r: Report, nodes: seq<RawNode>, edges: RawEdges, keys: seq<string>)
    requires Describes(r, nodes, edges, keys)
    ensures r.riskLevel == High <==>
            HasCycle(GraphOf(nodes, edges)) || exists n :: n in nodes && IsHigh(NODE_TYPES, n)
    ensures r.riskLevel == Low <==>
            !HasCycle(GraphOf(nodes, edges))
            && forall n :: n in nodes ==> !IsHigh(NODE_TYPES, n) && !IsMedium(NODE_TYPES, n)
  {
    HighRiskMeaning(NODE_TYPES, nodes);
  }

  /** No edge is lost silently: a dropped-edge warning appears exactly for the edge objects that are
      not kept. */
  lemma {:induction false} DroppedEdgesReported(ids: seq<Id>, edges: seq<RawEdge>, w: Warning)
    ensures w in EdgeWarnings(ids, edges) <==>
            exists e :: e in edges && e.RawEdge? && !Kept(e, ids) && w == EdgeDropped(SourceOf(e), TargetOf(e))
    decreases |edges|
  {
    if edges != [] {
      var n := |edges| - 1;
      DroppedEdgesReported(ids, edges[..n], w);
      assert edges == edges[..n] + [edges[n]];
      assert forall e :: e in edges <==> e in edges[..n] || e == edges[n];
    }
  }

  /** A coordinate is reported exactly when it lies outside [0, MAX_COORD]; the order in which the keys
      are walked does not matter. */
  lemma {:induction false} CoordsReported(n: RawNode, keys: seq<string>, w: Warning)
    requires n.RawNode?
    ensures w in CoordWarnings(n, keys) <==>
            exists key :: key in keys && key in n.coords && !(0.0 <= n.coords[key] <= MAX_COORD)
                          && w == CoordOutOfRange(NodeIdOf(n), key, n.coords[key])
    decreases |keys|
  {
    if keys != [] {
      var k := |keys| - 1;
      CoordsReported(n, keys[..k], w);
      assert keys == keys[..k] + [keys[k]];
      assert forall key :: key in keys <==> key in keys[..k] || key == keys[k];
    }
  }

  // ----- what a report says, entry by entry -----

  /** The id a node object is known by: `id`, or `node_id` when that is empty. */
  ghost predicate Known(n: RawNode, id: Id) {
    n.RawNode? && id != "" && id == if n.id != "" then n.id else n.nodeId
  }

  lemma {:induction false} NodeOfWarning(t: RiskTable, nodes: seq<RawNode>, keys: seq<string>, w: Warning)
      returns (n: RawNode)
    requires w in AllNodeWarnings(t, nodes, keys)
    ensures n in nodes && w in NodeWarnings(t, n, keys)
    decreases |nodes|
  {
    n := nodes[|nodes| - 1];
    if w !in NodeWarnings(t, n, keys) {
      n := NodeOfWarning(t, nodes[..|nodes| - 1], keys, w);
    }
  }

  lemma {:induction false} NodeWarns(t: RiskTable, nodes: seq<RawNode>, keys: seq<string>, n: RawNode, w: Warning)
    requires n in nodes && w in NodeWarnings(t, n, keys)
    ensures w in AllNodeWarnings(t, nodes, keys)
    decreases |nodes|
  {
    assert nodes == nodes[..|nodes| - 1] + [nodes[|nodes| - 1]];
    if n != nodes[|nodes| - 1] {
      NodeWarns(t, nodes[..|nodes| - 1], keys, n, w);
    }
  }

  lemma {:induction false} NodeOfId(nodes: seq<RawNode>, id: Id) returns (n: RawNode)
    requires id in Ids(nodes)
    ensures n in nodes && Known(n, id)
    decreases |nodes|
  {
    n := nodes[|nodes| - 1];
    if !Known(n, id) {
      n := NodeOfId(nodes[..|nodes| - 1], id);
    }
  }

  lemma {:induction false} IdOfNode(nodes: seq<RawNode>, n: RawNode, id: Id)
    requires n in nodes && Known(n, id)
    ensures id in Ids(nodes)
    decreases |nodes|
  {
    assert nodes == nodes[..|nodes| - 1] + [nodes[|nodes| - 1]];
    if n != nodes[|nodes| - 1] {
      IdOfNode(nodes[..|nodes| - 1], n, id);
    }
  }

  ghost predicate HasNode(nodes: seq<RawNode>, id: Id) {
    exists n :: n in nodes && Known(n, id)
  }

  lemma IdsMembers(nodes: seq<RawNode>, id: Id)
    ensures id in Ids(nodes) <==> HasNode(nodes, id)
  {
    if id in Ids(nodes) {
      var n := NodeOfId(nodes, id);
    } else if n :| n in nodes && Known(n, id) {
      IdOfNode(nodes, n, id);
    }
  }

  /** The three sources of a report's warnings. */
  lemma InWarnings(r: Report, nodes: seq<RawNode>, edges: RawEdges, keys: seq<string>, w: Warning)
    requires Describes(r, nodes, edges, keys)
    ensures w in r.warnings
            <==> w in AllNodeWarnings(NODE_TYPES, nodes, keys) || w in EdgeListWarnings(Ids(nodes), edges)
                 || (r.unreachable != [] && w == Unreachable(r.unreachable))
  {
  }

  lemma NoEdgeListWarning(ids: seq<Id>, edges: RawEdges, w: Warning)
    requires !w.EdgeDropped? && !w.EdgesMalformed?
    ensures w !in EdgeListWarnings(ids, edges)
  {
    if edges.EdgeList? { DroppedEdgesReported(ids, edges.edges, w); }
  }

  lemma NoNodeWarning(t: RiskTable, nodes: seq<RawNode>, keys: seq<string>, w: Warning)
    requires w.EdgeDropped? || w.EdgesMalformed? || w.Unreachable?
    ensures w !in AllNodeWarnings(t, nodes, keys)
  {
    if w in AllNodeWarnings(t, nodes, keys) {
      var n := NodeOfWarning(t, nodes, keys, w);
      CoordsReported(n, keys, w);
      assert false;
    }
  }

  /** `n` is a typed node whose coordinate `key` is `v`, outside [0, MAX_COORD]. */
  ghost predicate Strays(n: RawNode, keys: seq<string>, id: Id, key: string, v: real) {
    && Known(n, id) && n.nodeType != "" && key in keys && key in n.coords && n.coords[key] == v
    && !(0.0 <= v <= MAX_COORD)
  }

  lemma OwnCoordWarning(t: RiskTable, n: RawNode, keys: seq<string>, id: Id, key: string, v: real)
    ensures CoordOutOfRange(id, key, v) in NodeWarnings(t, n, keys) <==> Strays(n, keys, id, key, v)
  {
    if HasId(n) && n.nodeType != "" { CoordsReported(n, keys, CoordOutOfRange(id, key, v)); }
  }

  lemma NodeCoordinateIff(nodes: seq<RawNode>, keys: seq<string>, id: Id, key: string, v: real)
    ensures CoordOutOfRange(id, key, v) in AllNodeWarnings(NODE_TYPES, nodes, keys)
            <==> exists n :: n in nodes && Strays(n, keys, id, key, v)
  {
    var w := CoordOutOfRange(id, key, v);
    if w in AllNodeWarnings(NODE_TYPES, nodes, keys) {
      var n := NodeOfWarning(NODE_TYPES, nodes, keys, w);
      OwnCoordWarning(NODE_TYPES, n, keys, id, key, v);
    } else if n :| n in nodes && Strays(n, keys, id, key, v) {
      OwnCoordWarning(NODE_TYPES, n, keys, id, key, v);
      NodeWarns(NODE_TYPES, nodes, keys, n, w);
    }
  }

  /** A report warns of a coordinate exactly when some typed node has it outside [0, MAX_COORD]. */
  lemma CoordinateWarnedIff(r: Report, nodes: seq<RawNode>, edges: RawEdges, keys: seq<string>,
                            id: Id, key: string, v: real)
    requires Describes(r, nodes, edges, keys)
    ensures CoordOutOfRange(id, key, v) in r.warnings <==> exists n :: n in nodes && Strays(n, keys, id, key, v)
  {
    InWarnings(r, nodes, edges, keys, CoordOutOfRange(id, key, v));
    NoEdgeListWarning(Ids(nodes), edges, CoordOutOfRange(id, key, v));
    NodeCoordinateIff(nodes, keys, id, key, v);
  }

  ghost predicate Typeless(n: RawNode, id: Id) {
    Known(n, id) && n.nodeType == ""
  }

  /** `n` has an id and a type that no risk class lists. */
  ghost predicate OddlyTyped(n: RawNode, nodeType: string) {
    && n.RawNode? && (n.id != "" || n.nodeId != "") && n.nodeType == nodeType != ""
    && nodeType !in NODE_TYPES.safe && nodeType !in NODE_TYPES.medium && nodeType !in NODE_TYPES.high
  }

  lemma OwnTypeWarnings(n: RawNode, keys: seq<string>, id: Id, nodeType: string)
    ensures TypeMissing(id) in NodeWarnings(NODE_TYPES, n, keys) <==> Typeless(n, id)
    ensures TypeUnknown(nodeType) in NodeWarnings(NODE_TYPES, n, keys) <==> OddlyTyped(n, nodeType)
  {
    if HasId(n) && n.nodeType != "" {
      CoordsReported(n, keys, TypeMissing(id));
      CoordsReported(n, keys, TypeUnknown(nodeType));
    }
  }

  lemma NodeTypeIff(nodes: seq<RawNode>, keys: seq<string>, id: Id, nodeType: string)
    ensures TypeMissing(id) in AllNodeWarnings(NODE_TYPES, nodes, keys) <==> exists n :: n in nodes && Typeless(n, id)
    ensures TypeUnknown(nodeType) in AllNodeWarnings(NODE_TYPES, nodes, keys)
            <==> exists n :: n in nodes && OddlyTyped(n, nodeType)
  {
    if TypeMissing(id) in AllNodeWarnings(NODE_TYPES, nodes, keys) {
      var n := NodeOfWarning(NODE_TYPES, nodes, keys, TypeMissing(id));
      OwnTypeWarnings(n, keys, id, nodeType);
    } else if n :| n in nodes && Typeless(n, id) {
      OwnTypeWarnings(n, keys, id, nodeType);
      NodeWarns(NODE_TYPES, nodes, keys, n, TypeMissing(id));
    }
    if TypeUnknown(nodeType) in AllNodeWarnings(NODE_TYPES, nodes, keys) {
      var n := NodeOfWarning(NODE_TYPES, nodes, keys, TypeUnknown(nodeType));
      OwnTypeWarnings(n, keys, id, nodeType);
    } else if n :| n in nodes && OddlyTyped(n, nodeType) {
      OwnTypeWarnings(n, keys, id, nodeType);
      NodeWarns(NODE_TYPES, nodes, keys, n, TypeUnknown(nodeType));
    }
  }

  /** It warns of a missing type exactly for a node with an id and no type, and of an unknown type exactly
      when some node with an id has a type that no risk class lists. */
  lemma TypeWarnedIff(r: Report, nodes: seq<RawNode>, edges: RawEdges, keys: seq<string>, id: Id, nodeType: string)
    requires Describes(r, nodes, edges, keys)
    ensures TypeMissing(id) in r.warnings <==> exists n :: n in nodes && Typeless(n, id)
    ensures TypeUnknown(nodeType) in r.warnings <==> exists n :: n in nodes && OddlyTyped(n, nodeType)
  {
    InWarnings(r, nodes, edges, keys, TypeMissing(id));
    InWarnings(r, nodes, edges, keys, TypeUnknown(nodeType));
    NoEdgeListWarning(Ids(nodes), edges, TypeMissing(id));
    NoEdgeListWarning(Ids(nodes), edges, TypeUnknown(nodeType));
    NodeTypeIff(nodes, keys, id, nodeType);
  }

  /** The ends of an edge object, with the alternative field names. */
  ghost predicate Links(e: RawEdge, s: Id, t: Id) {
    && e.RawEdge? && s == (if e.source != "" then e.source else e.from)
    && t == if e.target != "" then e.target else e.to
  }

  lemma EdgeListIff(ids: seq<Id>, edges: RawEdges, s: Id, t: Id)
    ensures EdgeDropped(s, t) in EdgeListWarnings(ids, edges)
            <==> (exists e :: e in EdgeSeq(edges) && Links(e, s, t)) && (s == t || s !in ids || t !in ids)
    ensures EdgesMalformed in EdgeListWarnings(ids, edges) <==> edges.MalformedEdges?
  {
    if edges.EdgeList? {
      DroppedEdgesReported(ids, edges.edges, EdgeDropped(s, t));
      DroppedEdgesReported(ids, edges.edges, EdgesMalformed);
      forall e ensures Links(e, s, t) <==> e.RawEdge? && SourceOf(e) == s && TargetOf(e) == t { }
      if e :| e in edges.edges && Links(e, s, t) {
        assert s == t || s !in ids || t !in ids <==> !Kept(e, ids);
      }
    }
  }

  /** It reports an edge from `s` to `t` as dropped exactly when the list has such an edge object and it is
      a self-loop or names a node the graph does not have; and malformed edges exactly when they are. */
  lemma EdgeWarnedIff(r: Report, nodes: seq<RawNode>, edges: RawEdges, keys: seq<string>, s: Id, t: Id)
    requires Describes(r, nodes, edges, keys)
    ensures EdgeDropped(s, t) in r.warnings
            <==> (exists e :: e in EdgeSeq(edges) && Links(e, s, t))
                 && (s == t || !HasNode(nodes, s) || !HasNode(nodes, t))
    ensures EdgesMalformed in r.warnings <==> edges.MalformedEdges?
  {
    InWarnings(r, nodes, edges, keys, EdgeDropped(s, t));
    InWarnings(r, nodes, edges, keys, EdgesMalformed);
    NoNodeWarning(NODE_TYPES, nodes, keys, EdgeDropped(s, t));
    NoNodeWarning(NODE_TYPES, nodes, keys, EdgesMalformed);
    EdgeListIff(Ids(nodes), edges, s, t);
    IdsMembers(nodes, s);
    IdsMembers(nodes, t);
  }

  /** The graph has an edge from `s` to `t` exactly when the list has such an edge object, both are nodes
      and they differ. */
  lemma GraphEdgeIff(nodes: seq<RawNode>, edges: RawEdges, s: Id, t: Id)
    ensures t in Succ(GraphOf(nodes, edges), s)
            <==> (exists e :: e in EdgeSeq(edges) && Links(e, s, t)) && HasNode(nodes, s) && HasNode(nodes, t) && s != t
  {
    KeptGraphEdges(Ids(nodes), EdgeSeq(edges), s, t);
    IdsMembers(nodes, s);
    IdsMembers(nodes, t);
    forall e ensures Links(e, s, t) <==> e.RawEdge? && SourceOf(e) == s && TargetOf(e) == t { }
  }

  lemma AppendLast(a: seq<RawNode>, b: seq<RawNode>)
    requires b != []
    ensures var all, n := a + b, |b| - 1; all[..|all| - 1] == a + b[..n] && all[|all| - 1] == b[n]
  {
  }

  /** Ids, risks and warnings come in list order: those of a list are those of its two parts in turn. */
  lemma {:induction false} IdsInOrder(a: seq<RawNode>, b: seq<RawNode>)
    ensures Ids(a + b) == Ids(a) + Ids(b)
    decreases |b|
  {
    if b == [] {
      assert a + b == a;
    } else {
      AppendLast(a, b);
      IdsInOrder(a, b[..|b| - 1]);
    }
  }

  lemma {:induction false} HighRiskInOrder(t: RiskTable, a: seq<RawNode>, b: seq<RawNode>)
    ensures HighRisk(t, a + b) == HighRisk(t, a) + HighRisk(t, b)
    decreases |b|
  {
    if b == [] {
      assert a + b == a;
    } else {
      AppendLast(a, b);
      HighRiskInOrder(t, a, b[..|b| - 1]);
    }
  }

  lemma {:induction false} WarningsInOrder(t: RiskTable, a: seq<RawNode>, b: seq<RawNode>, keys: seq<string>)
    ensures AllNodeWarnings(t, a + b, keys) == AllNodeWarnings(t, a, keys) + AllNodeWarnings(t, b, keys)
    decreases |b|
  {
    if b == [] {
      assert a + b == a;
    } else {
      var n := |b| - 1;
      AppendLast(a, b);
      WarningsInOrder(t, a, b[..n], keys);
      ConcatAssoc(AllNodeWarnings(t, a, keys), AllNodeWarnings(t, b[..n], keys), NodeWarnings(t, b[n], keys));
    }
  }

  /** It warns of unreachable nodes exactly when there are any, and then lists them all. */
  lemma UnreachableWarnedIff(r: Report, nodes: seq<RawNode>, edges: RawEdges, keys: seq<string>, ids: seq<Id>)
    requires Describes(r, nodes, edges, keys)
    ensures Unreachable(ids) in r.warnings <==> ids == r.unreachable != []
  {
    InWarnings(r, nodes, edges, keys, Unreachable(ids));
    NoNodeWarning(NODE_TYPES, nodes, keys, Unreachable(ids));
    NoEdgeListWarning(Ids(nodes), edges, Unreachable(ids));
  }

  lemma {:induction false} PlaceOfError(nodes: seq<RawNode>, e: Error) returns (i: nat)
    requires e in NodeErrors(nodes)
    ensures i < |nodes| && e in NodeError(nodes, i)
    decreases |nodes|
  {
    var n := |nodes| - 1;
    if e in NodeError(nodes, n) {
      i := n;
    } else {
      i := PlaceOfError(nodes[..n], e);
      assert nodes[..n][..i] == nodes[..i];
    }
  }

  lemma {:induction false} ErrorAtPlace(nodes: seq<RawNode>, e: Error, i: nat)
    requires i < |nodes| && e in NodeError(nodes, i)
    ensures e in NodeErrors(nodes)
    decreases |nodes|
  {
    var n := |nodes| - 1;
    if i < n {
      assert nodes[..n][..i] == nodes[..i];
      ErrorAtPlace(nodes[..n], e, i);
    }
  }

  lemma NotObjectIff(nodes: seq<RawNode>, i: nat)
    ensures NodeNotObject(i) in NodeErrors(nodes) <==> i < |nodes| && nodes[i].NotANode?
  {
    if NodeNotObject(i) in NodeErrors(nodes) {
      var k := PlaceOfError(nodes, NodeNotObject(i));
    } else if i < |nodes| && nodes[i].NotANode? {
      ErrorAtPlace(nodes, NodeNotObject(i), i);
    }
  }

  lemma MissingIdIff(nodes: seq<RawNode>, i: nat)
    ensures NodeMissingId(i) in NodeErrors(nodes)
            <==> i < |nodes| && nodes[i].RawNode? && nodes[i].id == "" && nodes[i].nodeId == ""
  {
    if NodeMissingId(i) in NodeErrors(nodes) {
      var k := PlaceOfError(nodes, NodeMissingId(i));
    } else if i < |nodes| && nodes[i].RawNode? && nodes[i].id == "" && nodes[i].nodeId == "" {
      ErrorAtPlace(nodes, NodeMissingId(i), i);
    }
  }

  /** Two entries of the list are nodes with this id. */
  ghost predicate IsTwice(nodes: seq<RawNode>, id: Id) {
    exists j, k :: 0 <= j < k < |nodes| && Known(nodes[j], id) && Known(nodes[k], id)
  }

  lemma DuplicateIff(nodes: seq<RawNode>, id: Id)
    ensures DuplicateId(id) in NodeErrors(nodes) <==> IsTwice(nodes, id)
  {
    if DuplicateId(id) in NodeErrors(nodes) {
      var k := PlaceOfError(nodes, DuplicateId(id));
      var n := NodeOfId(nodes[..k], id);
      var j :| 0 <= j < k && nodes[..k][j] == n;
      assert Known(nodes[j], id) && Known(nodes[k], id);
    } else if j, k :| 0 <= j < k < |nodes| && Known(nodes[j], id) && Known(nodes[k], id) {
      assert nodes[..k][j] == nodes[j];
      IdOfNode(nodes[..k], nodes[j], id);
      ErrorAtPlace(nodes, DuplicateId(id), k);
    }
  }

  lemma InErrors(r: Report, nodes: seq<RawNode>, edges: RawEdges, keys: seq<string>, e: Error)
    requires Describes(r, nodes, edges, keys)
    ensures e in r.errors <==> e in NodeErrors(nodes) || (e == CycleFound && HasCycle(GraphOf(nodes, edges)))
  {
  }

  lemma NoCycleError(nodes: seq<RawNode>)
    ensures CycleFound !in NodeErrors(nodes)
  {
    if CycleFound in NodeErrors(nodes) {
      var i := PlaceOfError(nodes, CycleFound);
    }
  }

  /** The errors of a report, each exactly when it is one: an entry that is no object, an object without an
      id, an id used by two nodes, a cycle of kept edges. */
  lemma ErrorIff(r: Report, nodes: seq<RawNode>, edges: RawEdges, keys: seq<string>, i: nat, id: Id)
    requires Describes(r, nodes, edges, keys)
    ensures NodeNotObject(i) in r.errors <==> i < |nodes| && nodes[i].NotANode?
    ensures NodeMissingId(i) in r.errors
            <==> i < |nodes| && nodes[i].RawNode? && nodes[i].id == "" && nodes[i].nodeId == ""
    ensures DuplicateId(id) in r.errors <==> IsTwice(nodes, id)
    ensures CycleFound in r.errors <==> HasCycle(GraphOf(nodes, edges))
  {
    InErrors(r, nodes, edges, keys, NodeNotObject(i));
    InErrors(r, nodes, edges, keys, NodeMissingId(i));
    InErrors(r, nodes, edges, keys, DuplicateId(id));
    InErrors(r, nodes, edges, keys, CycleFound);
    NotObjectIff(nodes, i);
    MissingIdIff(nodes, i);
    DuplicateIff(nodes, id);
    NoCycleError(nodes);
  }

  ghost function HighPlaces(t: RiskTable, nodes: seq<RawNode>): set<nat> {
    set i: nat | i < |nodes| && IsHigh(t, nodes[i])
  }

  ghost function MediumPlaces(t: RiskTable, nodes: seq<RawNode>): set<nat> {
    set i: nat | i < |nodes| && IsMedium(t, nodes[i])
  }

  lemma AddOne(more: set<nat>, less: set<nat>, k: nat, added: bool)
    requires k !in less && forall i: nat :: i in more <==> i in less || (added && i == k)
    ensures |more| == |less| + if added then 1 else 0
  {
    if added {
      assert more == less + {k};
    } else {
      assert more == less;
    }
  }

  lemma HighPlacesLast(t: RiskTable, front: seq<RawNode>, n: RawNode)
    ensures |HighPlaces(t, front + [n])| == |HighPlaces(t, front)| + if IsHigh(t, n) then 1 else 0
  {
    var all := front + [n];
    forall i: nat ensures i in HighPlaces(t, all) <==> i in HighPlaces(t, front) || (IsHigh(t, n) && i == |front|) {
      if i < |front| { assert all[i] == front[i]; }
      if i == |front| { assert all[i] == n; }
    }
    AddOne(HighPlaces(t, all), HighPlaces(t, front), |front|, IsHigh(t, n));
  }

  lemma MediumPlacesLast(t: RiskTable, front: seq<RawNode>, n: RawNode)
    ensures |MediumPlaces(t, front + [n])| == |MediumPlaces(t, front)| + if IsMedium(t, n) then 1 else 0
  {
    var all := front + [n];
    forall i: nat
      ensures i in MediumPlaces(t, all) <==> i in MediumPlaces(t, front) || (IsMedium(t, n) && i == |front|)
    {
      if i < |front| { assert all[i] == front[i]; }
      if i == |front| { assert all[i] == n; }
    }
    AddOne(MediumPlaces(t, all), MediumPlaces(t, front), |front|, IsMedium(t, n));
  }

  /** The high and the medium nodes are counted once for each time they are listed. */
  lemma {:induction false} RiskCounts(t: RiskTable, nodes: seq<RawNode>)
    ensures |HighRisk(t, nodes)| == |HighPlaces(t, nodes)| && MediumCount(t, nodes) == |MediumPlaces(t, nodes)|
    decreases |nodes|
  {
    if nodes != [] {
      var front, last := nodes[..|nodes| - 1], nodes[|nodes| - 1];
      RiskCounts(t, front);
      assert nodes == front + [last];
      HighPlacesLast(t, front, last);
      MediumPlacesLast(t, front, last);
    }
  }

  lemma {:induction false} HighRiskNode(t: RiskTable, nodes: seq<RawNode>, id: Id) returns (n: RawNode)
    requires id in HighRisk(t, nodes)
    ensures n in nodes && IsHigh(t, n) && Known(n, id)
    decreases |nodes|
  {
    n := nodes[|nodes| - 1];
    if !(IsHigh(t, n) && Known(n, id)) {
      n := HighRiskNode(t, nodes[..|nodes| - 1], id);
    }
  }

  lemma {:induction false} HighRiskListed(t: RiskTable, nodes: seq<RawNode>, n: RawNode, id: Id)
    requires n in nodes && IsHigh(t, n) && Known(n, id)
    ensures id in HighRisk(t, nodes)
    decreases |nodes|
  {
    assert nodes == nodes[..|nodes| - 1] + [nodes[|nodes| - 1]];
    if n != nodes[|nodes| - 1] {
      HighRiskListed(t, nodes[..|nodes| - 1], n, id);
    }
  }

  lemma HighRiskIff(nodes: seq<RawNode>, id: Id)
    ensures id in HighRisk(NODE_TYPES, nodes)
            <==> exists n :: n in nodes && Known(n, id) && n.nodeType in NODE_TYPES.high
  {
    assert "" !in NODE_TYPES.high;
    if id in HighRisk(NODE_TYPES, nodes) {
      var n := HighRiskNode(NODE_TYPES, nodes, id);
    } else if n :| n in nodes && Known(n, id) && n.nodeType in NODE_TYPES.high {
      HighRiskListed(NODE_TYPES, nodes, n, id);
    }
  }

  /** The risk score is three for each entry of a high type and one for each of a medium type, and the
      high-risk list names exactly the nodes of a high type. */
  lemma ScoreMeaning(r: Report, nodes: seq<RawNode>, edges: RawEdges, keys: seq<string>, id: Id)
    requires Describes(r, nodes, edges, keys)
    ensures r.riskScore == 3 * |HighPlaces(NODE_TYPES, nodes)| + |MediumPlaces(NODE_TYPES, nodes)|
    ensures id in r.highRisk <==> exists n :: n in nodes && Known(n, id) && n.nodeType in NODE_TYPES.high
  {
    RiskCounts(NODE_TYPES, nodes);
    HighRiskIff(nodes, id);
  }

  /** A self-loop, wherever it stands in the edge list, leaves the graph and so the verdict as it is. */
  lemma {:induction false} SelfLoopsIgnored(ids: seq<Id>, before: seq<RawEdge>, e: RawEdge, after: seq<RawEdge>)
    requires SourceOf(e) == TargetOf(e)
    ensures KeptGraph(ids, before + [e] + after) == KeptGraph(ids, before + after)
    decreases |after|
  {
    var long, short := before + [e] + after, before + after;
    if after == [] {
      assert long[..|long| - 1] == before && short == before;
    } else {
      var front := after[..|after| - 1];
      assert long[..|long| - 1] == before + [e] + front && short[..|short| - 1] == before + front;
      SelfLoopsIgnored(ids, before, e, front);
    }
  }
}
