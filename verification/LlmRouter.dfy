/** The fallback chain of backend/gaf_ai/llm_router.py: clients registered per level are tried in
    chain order. What a client does when called is given by the tables `replies` and `streams`. */
module LlmRouter {
  import opened Prelude

  datatype Reply = Answer(text: string) | Raises
  /** A generator: the chunks it yields, and whether it then raises instead of ending. */
  datatype Stream = Stream(chunks: seq<string>, raises: bool)

  datatype ChatResult = Routed(level: string, text: string) | AllFailed(errors: seq<string>) | NoClients
  datatype StreamEnd = Completed(level: string) | StreamsFailed(errors: seq<string>) | NoStreamClients

  function Registered(levels: seq<string>, clients: set<string>): seq<string> {
    if levels == [] then []
    else
      var n := |levels| - 1;
      Registered(levels[..n], clients) + if levels[n] in clients then [levels[n]] else []
  }

  /** The chain keeps the order of the levels: that of a list is those of its two parts in turn. */
  lemma {:induction false} RegisteredInOrder(a: seq<string>, b: seq<string>, clients: set<string>)
    ensures Registered(a + b, clients) == Registered(a, clients) + Registered(b, clients)
    ensures forall l :: l in Registered(b, clients) <==> l in b && l in clients
    decreases |b|
  {
    if b == [] {
      assert a + b == a;
    } else {
      var all, n := a + b, |b| - 1;
      assert all[..|all| - 1] == a + b[..n] && all[|all| - 1] == b[n];
      RegisteredInOrder(a, b[..n], clients);
      ConcatAssoc(Registered(a, clients), Registered(b[..n], clients), if b[n] in clients then [b[n]] else []);
      assert b == b[..n] + [b[n]];
    }
  }

  lemma {:induction false} RegisteredPrefix(levels: seq<string>, clients: set<string>, i: nat)
    requires i <= |levels|
    ensures Registered(levels[..i], clients) <= Registered(levels, clients)
    decreases |levels| - i
  {
    if i < |levels| {
      assert levels[..i + 1][..i] == levels[..i];
      RegisteredPrefix(levels, clients, i + 1);
    } else {
      assert levels[..i] == levels;
    }
  }

  lemma RegisteredStep(levels: seq<string>, clients: set<string>, i: nat)
    requires i < |levels|
    ensures levels[i] in clients ==> Registered(levels[..i], clients) + [levels[i]] <= Registered(levels, clients)
    ensures Registered(levels[..i + 1], clients)
            == Registered(levels[..i], clients) + if levels[i] in clients then [levels[i]] else []
  {
    assert levels[..i + 1][..i] == levels[..i];
    RegisteredPrefix(levels, clients, i + 1);
  }

  /** The chunks of several clients, one after the other. */
  function Chunks(chain: seq<string>, streams: string -> Stream): seq<string> {
    if chain == [] then []
    else Chunks(chain[..|chain| - 1], streams) + streams(chain[|chain| - 1]).chunks
  }

  /** What is remembered as the last success when every stream failed: a client that yielded
      something counts as successful although it then raised. */
  function LastYielding(chain: seq<string>, streams: string -> Stream, before: Option<string>): Option<string> {
    if chain == [] then before
    else if streams(chain[|chain| - 1]).chunks != [] then Some(chain[|chain| - 1])
    else LastYielding(chain[..|chain| - 1], streams, before)
  }

  /** It is the last client of the chain that yielded anything, or what was remembered before if none did. */
  lemma {:induction false} LastYieldingMeaning(chain: seq<string>, streams: string -> Stream, before: Option<string>)
    ensures LastYielding(chain, streams, before) == before
            || exists k :: 0 <= k < |chain| && LastYielding(chain, streams, before) == Some(chain[k])
                           && streams(chain[k]).chunks != []
    ensures forall k :: 0 <= k < |chain| && streams(chain[k]).chunks != []
                        && (forall j :: k < j < |chain| ==> streams(chain[j]).chunks == []) ==>
              LastYielding(chain, streams, before) == Some(chain[k])
    ensures (forall k :: 0 <= k < |chain| ==> streams(chain[k]).chunks == []) ==>
              LastYielding(chain, streams, before) == before
    decreases |chain|
  {
    if chain != [] {
      var n := |chain| - 1;
      LastYieldingMeaning(chain[..n], streams, before);
      assert forall k :: 0 <= k < n ==> chain[..n][k] == chain[k];
    }
  }

  lemma {:induction false} ChunksEmptyIff(chain: seq<string>, streams: string -> Stream)
    ensures Chunks(chain, streams) == [] <==> forall j :: 0 <= j < |chain| ==> streams(chain[j]).chunks == []
    decreases |chain|
  {
    if chain != [] {
      var n := |chain| - 1;
      ChunksEmptyIff(chain[..n], streams);
      assert forall j :: 0 <= j < n ==> chain[..n][j] == chain[j];
    }
  }

  ghost predicate AllRaise(chain: seq<string>, streams: string -> Stream) {
    forall j :: 0 <= j < |chain| ==> streams(chain[j]).raises
  }

  /** How many clients are tried: up to the first that ends without raising, or all. */
  function Tried(chain: seq<string>, streams: string -> Stream): (n: nat)
    ensures n <= |chain| && (chain != [] ==> 1 <= n)
    ensures forall j :: 0 <= j < n - 1 ==> streams(chain[j]).raises
    ensures n < |chain| ==> !streams(chain[n - 1]).raises
  {
    if chain == [] then 0 else if !streams(chain[0]).raises then 1 else 1 + Tried(chain[1..], streams)
  }

  /** What reaches the caller. */
  function Delivered(chain: seq<string>, streams: string -> Stream): seq<string> {
    Chunks(chain[..Tried(chain, streams)], streams)
  }

  function LastTried(chain: seq<string>, streams: string -> Stream): string
    requires chain != []
  {
    chain[Tried(chain, streams) - 1]
  }

  lemma TriedUpTo(chain: seq<string>, streams: string -> Stream, errors: seq<string>, level: string)
    requires errors + [level] <= chain && AllRaise(errors, streams) && !streams(level).raises
    ensures Tried(chain, streams) == |errors| + 1 && chain[..Tried(chain, streams)] == errors + [level]
    ensures !AllRaise(chain, streams) && LastTried(chain, streams) == level
  {
    var n, k := Tried(chain, streams), |errors|;
    assert chain[k] == level && forall j :: 0 <= j < k ==> chain[j] == errors[j];
  }

  lemma AllTried(chain: seq<string>, streams: string -> Stream)
    requires AllRaise(chain, streams)
    ensures Tried(chain, streams) == |chain| && chain[..Tried(chain, streams)] == chain
  {
  }

  class LLMRouter {
    const levels: seq<string>
    var clients: set<string>
    var lastSuccessful: Option<string>

    constructor (levels: seq<string>)
      ensures this.levels == levels && clients == {} && lastSuccessful == None
    {
      this.levels, clients, lastSuccessful := levels, {}, None;
    }

    /** Refuses a level outside the chain. */
    method Register(level: string) returns (ok: bool)
      modifies this`clients
      ensures ok <==> level in levels
      ensures clients == if ok then old(clients) + {level} else old(clients)
    {
      ok := level in levels;
      if ok { clients := clients + {level}; }
    }

    /** The registered levels, in chain order. */
    function Chain(): seq<string>
      reads this
    {
      Registered(levels, clients)
    }

    /** The first client in chain order that answers is the route; the others before it all raised. */
    method Chat(replies: string -> Reply) returns (result: ChatResult)
      modifies this`lastSuccessful
      ensures result.NoClients? <==> clients == {}
      ensures result.Routed? ==>
                exists k :: 0 <= k < |Chain()| && Chain()[k] == result.level
                            && replies(result.level) == Answer(result.text)
                            && forall j :: 0 <= j < k ==> replies(Chain()[j]).Raises?
      ensures result.AllFailed? ==>
                result.errors == Chain() && forall j :: 0 <= j < |Chain()| ==> replies(Chain()[j]).Raises?
      ensures lastSuccessful == if result.Routed? then Some(result.level) else old(lastSuccessful)
    {
      if clients == {} {
        return NoClients;
      }
      var errors: seq<string> := [];
      for i := 0 to |levels|
        invariant errors == Registered(levels[..i], clients)
        invariant forall j :: 0 <= j < |errors| ==> replies(errors[j]).Raises?
        invariant lastSuccessful == old(lastSuccessful)
      {
        RegisteredStep(levels, clients, i);
        var level := levels[i];
        if level !in clients { continue; }
        match replies(level) {
          case Answer(text) =>
            lastSuccessful := Some(level);
            assert Chain()[|errors|] == level;
            return Routed(level, text);
          case Raises =>
            errors := errors + [level];
        }
      }
      assert levels[..|levels|] == levels;
      result := AllFailed(errors);
    }

    /** Everything the caller sees, in order: the chunks of every client tried. A client that fails after
        some chunks is followed by the next one all the same. */
    method StreamChat(streams: string -> Stream) returns (yielded: seq<string>, end: StreamEnd)
      modifies this`lastSuccessful
      ensures end.NoStreamClients? <==> clients == {}
      ensures end.NoStreamClients? ==> yielded == [] && lastSuccessful == old(lastSuccessful)
      ensures clients != {} ==>
                && yielded == Delivered(Chain(), streams)
                && end == (if AllRaise(Chain(), streams) then StreamsFailed(Chain())
                           else Completed(LastTried(Chain(), streams)))
                && lastSuccessful == if end.Completed? then Some(end.level)
                                     else LastYielding(Chain(), streams, old(lastSuccessful))
    {
      yielded := [];
      if clients == {} {
        return [], NoStreamClients;
      }
      var errors: seq<string> := [];
      for i := 0 to |levels|
        invariant errors == Registered(levels[..i], clients) && AllRaise(errors, streams)
        invariant yielded == Chunks(errors, streams)
        invariant lastSuccessful == LastYielding(errors, streams, old(lastSuccessful))
      {
        RegisteredStep(levels, clients, i);
        var level := levels[i];
        if level !in clients { continue; }
        var s := streams(level);
        yielded := yielded + s.chunks;
        if s.chunks != [] || !s.raises { lastSuccessful := Some(level); }
        assert (errors + [level])[..|errors|] == errors;
        if !s.raises {
          TriedUpTo(Chain(), streams, errors, level);
          return yielded, Completed(level);
        }
        errors := errors + [level];
      }
      assert levels[..|levels|] == levels;
      AllTried(Chain(), streams);
      end := StreamsFailed(errors);
    }
  }

  /** The documented commitment: "once a client starts yielding chunks, we commit to that client". */
  ghost predicate Committed(chain: seq<string>, streams: string -> Stream)
    requires chain != []
  {
    Delivered(chain, streams) == streams(LastTried(chain, streams)).chunks
  }

  /** It holds of a call if and only if every client that was given up failed before its first chunk. */
  lemma CommittedIff(chain: seq<string>, streams: string -> Stream)
    requires chain != []
    ensures Committed(chain, streams)
            <==> forall j :: 0 <= j < Tried(chain, streams) - 1 ==> streams(chain[j]).chunks == []
  {
    var k := Tried(chain, streams) - 1;
    var early, last := Chunks(chain[..k], streams), streams(chain[k]).chunks;
    assert chain[..k + 1][..k] == chain[..k] && Delivered(chain, streams) == early + last;
    ChunksEmptyIff(chain[..k], streams);
    assert forall j :: 0 <= j < k ==> chain[..k][j] == chain[j];
    assert |early + last| == |early| + |last|;
    if early == [] { assert early + last == last; }
  }

  /** It can be relied on, whatever the clients do, if and only if a single client is registered. */
  lemma AlwaysCommittedIff(chain: seq<string>)
    requires chain != []
    ensures (forall streams: string -> Stream :: Committed(chain, streams)) <==> |chain| == 1
  {
    if |chain| == 1 {
      forall streams: string -> Stream ensures Committed(chain, streams) {
        CommittedIff(chain, streams);
      }
    } else {
      var breaking := (l: string) => Stream(["chunk"], true);
      assert AllRaise(chain, breaking) && breaking(chain[0]).chunks != [];
      AllTried(chain, breaking);
      CommittedIff(chain, breaking);
    }
  }

  function Breaking(level: string): Stream {
    if level == "preferred" then Stream(["a"], true) else Stream(["b"], false)
  }

  /** A call in which the caller sees chunks of two clients: the preferred one breaks after its first
      chunk. */
  method MixedStream() returns (yielded: seq<string>, end: StreamEnd)
    ensures yielded == ["a", "b"] && end == Completed("backup")
  {
    var router := new LLMRouter(["preferred", "backup"]);
    var first := router.Register("preferred");
    var second := router.Register("backup");
    var chain := ["preferred", "backup"];
    assert Registered(["preferred"], router.clients) == ["preferred"];
    assert router.levels[..1] == ["preferred"] && router.Chain() == chain;
    TriedUpTo(chain, Breaking, ["preferred"], "backup");
    assert Delivered(chain, Breaking) == ["a", "b"] by {
      assert chain[..2] == chain && chain[..1] == ["preferred"] && chain[..1][..0] == [];
    }
    yielded, end := router.StreamChat(Breaking);
  }
}
