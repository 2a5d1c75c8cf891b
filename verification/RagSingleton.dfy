/** The double-checked singleton of backend/gaf_ai/rag.py: any number of threads call
    `get_rag_retriever` and `warmup_rag_retriever`, in any interleaving, and a construction may
    raise. Each action is one read, write, lock operation or construction. */
module RagSingleton {
  import opened Prelude

  type Thread = nat
  type Retriever = nat  // object identities

  datatype Caller = Get | Warmup

  /** The next thing a thread does; between calls it is Idle. */
  datatype Pc =
    | Idle
    | FirstCheck               // 633, get only
    | Waiting(who: Caller)     // 634, 661
    | SecondCheck(who: Caller) // 635, 662
    | Building(who: Caller)    // constructor of 644, 669
    | Storing(who: Caller, built: Retriever)  // assignment of 644, 669
    | Leaving(who: Caller)     // end of the with block
    | Failing(who: Caller)     // end of the with block while an exception propagates
    | Returning(who: Caller)   // 645, 670

  datatype Outcome = Returned(who: Caller, r: Option<Retriever>) | Raised(who: Caller)

  datatype State = State(pcs: map<Thread, Pc>, instance: Option<Retriever>, lock: Option<Thread>,
                         made: seq<Retriever>, outcomes: seq<Outcome>)

  datatype Action =
    | Call(t: Thread, who: Caller)
    | Run(t: Thread)                        // the one thing the thread can do next
    | Build(t: Thread, r: Retriever)        // the constructor succeeds with a new object
    | BuildRaises(t: Thread)

  predicate Enabled(s: State, a: Action) {
    && a.t in s.pcs
    && match a
       case Call(t, _) => s.pcs[t] == Idle
       case Build(t, r) => s.pcs[t].Building? && r !in s.made
       case BuildRaises(t) => s.pcs[t].Building?
       case Run(t) =>
         !s.pcs[t].Idle? && !s.pcs[t].Building? && (s.pcs[t].Waiting? ==> s.lock == None)
  }

  function Goto(s: State, t: Thread, pc: Pc): State {
    s.(pcs := s.pcs[t := pc])
  }

  function Finish(s: State, t: Thread, o: Outcome): State {
    s.(pcs := s.pcs[t := Idle], outcomes := s.outcomes + [o])
  }

  function RunStep(s: State, t: Thread): State
    requires Enabled(s, Run(t))
  {
    match s.pcs[t]
    case FirstCheck => Goto(s, t, if s.instance == None then Waiting(Get) else Returning(Get))
    case Waiting(who) => Goto(s.(lock := Some(t)), t, SecondCheck(who))
    case SecondCheck(who) => Goto(s, t, if s.instance == None then Building(who) else Leaving(who))
    case Storing(who, r) => Goto(s.(instance := Some(r)), t, Leaving(who))
    case Leaving(who) => Goto(s.(lock := None), t, Returning(who))
    case Failing(who) => Finish(s.(lock := None), t, if who == Get then Raised(Get) else Returned(Warmup, None))
    case Returning(who) => Finish(s, t, Returned(who, s.instance))
  }

  function Step(s: State, a: Action): State
    requires Enabled(s, a)
  {
    match a
    case Call(t, who) => Goto(s, t, if who == Get then FirstCheck else Waiting(Warmup))
    case Build(t, r) => Goto(s.(made := s.made + [r]), t, Storing(s.pcs[t].who, r))
    case BuildRaises(t) => Goto(s, t, Failing(s.pcs[t].who))
    case Run(t) => RunStep(s, t)
  }

  ghost predicate Init(s: State) {
    s.instance == None && s.lock == None && s.made == [] && s.outcomes == []
    && forall t :: t in s.pcs ==> s.pcs[t] == Idle
  }

  ghost predicate Leads(s: State, run: seq<Action>, u: State)
    decreases |run|
  {
    if run == [] then s == u else Enabled(s, run[0]) && Leads(Step(s, run[0]), run[1..], u)
  }

  ghost predicate Reachable(u: State) {
    exists s, run :: Init(s) && Leads(s, run, u)
  }

  predicate InsideLock(pc: Pc) {
    pc.SecondCheck? || pc.Building? || pc.Storing? || pc.Leaving? || pc.Failing?
  }

  /** What is known about one thread from where it stands. */
  ghost predicate ThreadOk(s: State, t: Thread, pc: Pc) {
    && (InsideLock(pc) <==> s.lock == Some(t))
    && (pc.Building? ==> s.instance == None && s.made == [])
    && (pc.Storing? ==> s.instance == None && s.made == [pc.built])
    && (pc.Leaving? || pc.Returning? ==> s.instance.Some?)
  }

  ghost predicate OutcomeOk(s: State, o: Outcome) {
    && (o.Returned? && o.r.Some? ==> s.made == [o.r.value])
    && (o.Returned? && o.who == Get ==> o.r.Some?)
  }

  ghost predicate Inv(s: State) {
    && (forall t :: t in s.pcs ==> ThreadOk(s, t, s.pcs[t]))
    && (s.lock.Some? ==> s.lock.value in s.pcs)
    && |s.made| <= 1
    && (s.instance.Some? ==> s.made == [s.instance.value])
    && (s.made != [] && s.instance == None ==> s.lock.Some? && s.pcs[s.lock.value].Storing?)
    && (forall k :: 0 <= k < |s.outcomes| ==> OutcomeOk(s, s.outcomes[k]))
  }

  lemma StepKeepsInv(s: State, a: Action)
    requires Inv(s) && Enabled(s, a)
    ensures Inv(Step(s, a))
  {
  }

  lemma {:induction false} RunKeepsInv(s: State, run: seq<Action>, u: State)
    requires Inv(s) && Leads(s, run, u)
    ensures Inv(u)
    decreases |run|
  {
    if run != [] {
      StepKeepsInv(s, run[0]);
      RunKeepsInv(Step(s, run[0]), run[1..], u);
    }
  }

  /** In every interleaving at most one retriever is ever constructed, whatever is stored is that
      one, every non-None result is that same object, and `get_rag_retriever` never returns None. */
  lemma AtMostOneRetriever(s: State)
    requires Reachable(s)
    ensures |s.made| <= 1 && (s.instance.Some? ==> s.made == [s.instance.value])
    ensures forall k :: 0 <= k < |s.outcomes| && s.outcomes[k].Returned? ==>
              && (s.outcomes[k].r.Some? ==> s.made == [s.outcomes[k].r.value])
              && (s.outcomes[k].who == Get ==> s.outcomes[k].r.Some?)
  {
    var s0, run :| Init(s0) && Leads(s0, run, s);
    RunKeepsInv(s0, run, s);
    forall k | 0 <= k < |s.outcomes| ensures OutcomeOk(s, s.outcomes[k]) { }
  }

  /** The lock protects the construction: two threads are never inside the `with` block together. */
  lemma OneInsideLock(s: State, t: Thread, u: Thread)
    requires Reachable(s) && t in s.pcs && u in s.pcs
    requires InsideLock(s.pcs[t]) && InsideLock(s.pcs[u])
    ensures t == u
  {
    var s0, run :| Init(s0) && Leads(s0, run, s);
    RunKeepsInv(s0, run, s);
    assert ThreadOk(s, t, s.pcs[t]) && ThreadOk(s, u, s.pcs[u]);
  }

  /** Failed constructions do no lasting harm: unless all threads are idle, some thread can take a
      step, and the lock is free as soon as nobody is inside the block. */
  lemma NeverStuck(s: State, t: Thread)
    requires Reachable(s) && t in s.pcs && s.pcs[t] != Idle
    ensures exists a :: Enabled(s, a) && !a.Call?
    ensures (forall u :: u in s.pcs ==> !InsideLock(s.pcs[u])) ==> s.lock == None
  {
    var s0, run :| Init(s0) && Leads(s0, run, s);
    RunKeepsInv(s0, run, s);
    if s.lock.Some? {
      assert ThreadOk(s, s.lock.value, s.pcs[s.lock.value]);
    }
    var u := if s.lock.Some? then s.lock.value else t;
    if s.pcs[u].Building? {
      assert Enabled(s, BuildRaises(u));
    } else {
      assert Enabled(s, Run(u));
    }
  }
}
