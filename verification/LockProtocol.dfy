/** Any number of SyncLock instances (scripts/sync_lock.py) on one lock file, as a step system.
    Every action is one statement of `acquire` or `release` that touches shared or instance state,
    so all interleavings of processes are runs of this system. The kernel keeps a table of open file
    descriptions and at most one flock holder; closing the holder drops the lock. */
module LockProtocol {
  import opened Prelude

  type Ofd = nat   // open file descriptions: each os.open makes a new one
  type Name = nat  // SyncLock instances

  /** Where an instance stands: the next statement to execute, by line of the source. */
  datatype Pc =
    | Idle           // outside acquire and release
    | Opened         // 230: about to compute the deadline
    | Trying         // 232: about to call flock
    | Locked         // 233: flock succeeded, flag not yet set
    | Checking       // 235: flock refused, about to read the clock
    | Sleeping       // 245
    | TimingOut      // 237: about to close and raise LockTimeout
    | Unlocking      // 253
    | Clearing       // 254
    | Closing        // 255

  datatype Inst = Inst(pc: Pc, fd: Option<Ofd>, acquired: bool, timeout: real, poll: real,
                       started: real, tries: nat, wake: real, leaked: set<Ofd>)

  datatype State = State(insts: map<Name, Inst>, open: map<Ofd, Name>, holder: Option<Ofd>, clock: real)

  datatype Action =
    | Acquire(i: Name, o: Ofd)  // 218-228: no-op when held, else open a new description
    | SetDeadline(i: Name)
    | Try(i: Name)
    | TryRaises(i: Name)        // flock fails with another errno: the exception leaves `_fd` set
    | SetFlag(i: Name)
    | Check(i: Name)
    | Wake(i: Name)
    | CloseTimedOut(i: Name)
    | Release(i: Name)
    | Unlock(i: Name, fails: bool)  // an OSError from LOCK_UN is swallowed
    | Clear(i: Name)
    | Close(i: Name)
    | Crash(i: Name)            // the process dies; the kernel closes everything it had open
    | Tick(dt: real)

  function With(s: State, i: Name, x: Inst): State {
    s.(insts := s.insts[i := x])
  }

  /** Kernel side of close(2): the description goes away and with it a lock it held. */
  function CloseOfd(s: State, o: Ofd): State {
    s.(open := s.open - {o}, holder := if s.holder == Some(o) then None else s.holder)
  }

  predicate Enabled(s: State, a: Action) {
    match a
    case Tick(dt) => dt >= 0.0
    case Acquire(i, o) => i in s.insts && s.insts[i].pc == Idle && o !in s.open
    case SetDeadline(i) => i in s.insts && s.insts[i].pc == Opened
    case Try(i) => i in s.insts && s.insts[i].pc == Trying
    case TryRaises(i) => i in s.insts && s.insts[i].pc == Trying
    case SetFlag(i) => i in s.insts && s.insts[i].pc == Locked
    case Check(i) => i in s.insts && s.insts[i].pc == Checking
    case Wake(i) => i in s.insts && s.insts[i].pc == Sleeping && s.clock >= s.insts[i].wake
    case CloseTimedOut(i) => i in s.insts && s.insts[i].pc == TimingOut
    case Release(i) => i in s.insts && s.insts[i].pc == Idle
    case Unlock(i, _) => i in s.insts && s.insts[i].pc == Unlocking
    case Clear(i) => i in s.insts && s.insts[i].pc == Clearing
    case Close(i) => i in s.insts && s.insts[i].pc == Closing
    case Crash(i) => i in s.insts
  }

  /** `_close_fd_quietly`. */
  function CloseOwn(s: State, i: Name): State
    requires i in s.insts
  {
    var x := s.insts[i];
    With(if x.fd.Some? then CloseOfd(s, x.fd.value) else s, i, x.(pc := Idle, fd := None))
  }

  function Step(s: State, a: Action): State
    requires Enabled(s, a)
  {
    match a
    case Tick(dt) => s.(clock := s.clock + dt)
    case Acquire(i, o) =>
      var x := s.insts[i];
      if x.acquired then s else
        var left := if x.fd.Some? then {x.fd.value} else {};
        With(s.(open := s.open[o := i]), i, x.(pc := Opened, fd := Some(o), leaked := x.leaked + left))
    case SetDeadline(i) =>
      With(s, i, s.insts[i].(pc := Trying, started := s.clock, tries := 0))
    case Try(i) =>
      var x := s.insts[i].(tries := s.insts[i].tries + 1);
      if s.holder == None || s.holder == x.fd
      then With(s.(holder := x.fd), i, x.(pc := Locked))
      else With(s, i, x.(pc := Checking))
    case TryRaises(i) => With(s, i, s.insts[i].(pc := Idle))
    case SetFlag(i) => With(s, i, s.insts[i].(pc := Idle, acquired := true))
    case Check(i) =>
      var x := s.insts[i];
      if s.clock >= x.started + x.timeout
      then With(s, i, x.(pc := TimingOut))
      else With(s, i, x.(pc := Sleeping, wake := s.clock + x.poll))
    case Wake(i) => With(s, i, s.insts[i].(pc := Trying))
    case CloseTimedOut(i) => CloseOwn(s, i)
    case Release(i) => With(s, i, s.insts[i].(pc := if s.insts[i].acquired then Unlocking else Clearing))
    case Unlock(i, fails) =>
      With(if fails || s.holder != s.insts[i].fd then s else s.(holder := None), i, s.insts[i].(pc := Clearing))
    case Clear(i) => With(s, i, s.insts[i].(pc := Closing, acquired := false))
    case Close(i) => CloseOwn(s, i)
    case Crash(i) =>
      var dead := set o | o in s.open && s.open[o] == i;
      var kept := if s.holder.Some? && s.holder.value in dead then None else s.holder;
      With(s.(open := s.open - dead, holder := kept), i,
           s.insts[i].(pc := Idle, fd := None, acquired := false, leaked := {}))
  }

  ghost predicate Init(s: State) {
    && s.open == map[] && s.holder == None
    && forall i :: i in s.insts ==>
         var x := s.insts[i];
         x.pc == Idle && x.fd == None && !x.acquired && x.timeout >= 0.0 && x.poll >= 0.01 && x.leaked == {}
  }

  /** `t` is the state after executing `run` from `s`. */
  ghost predicate Leads(s: State, run: seq<Action>, t: State)
    decreases |run|
  {
    if run == [] then s == t
    else Enabled(s, run[0]) && Leads(Step(s, run[0]), run[1..], t)
  }

  ghost predicate Reachable(t: State) {
    exists s, run :: Init(s) && Leads(s, run, t)
  }

  // ----- the inductive invariant -----

  predicate InAcquire(pc: Pc) {
    pc in {Opened, Trying, Locked, Checking, Sleeping, TimingOut}
  }

  /** What line a flag, a descriptor and the kernel lock go with. */
  ghost predicate InstOk(s: State, i: Name, x: Inst) {
    && (s.holder.Some? ==> s.holder.value in s.open)
    && (x.fd.Some? ==> x.fd.value in s.open && s.open[x.fd.value] == i && x.fd.value !in x.leaked)
    && (forall o :: o in s.open && s.open[o] == i ==> x.fd == Some(o) || o in x.leaked)
    && (forall o :: o in x.leaked ==> o in s.open && s.open[o] == i && s.holder != Some(o))
    && (InAcquire(x.pc) ==> x.fd.Some? && !x.acquired)
    && (x.pc == Closing ==> !x.acquired)
    && (x.pc == Unlocking ==> x.acquired)
    && (x.acquired ==> x.fd.Some?)
    && (x.pc == Locked || (x.acquired && x.pc != Clearing) ==> s.holder == x.fd)
    && (x.fd.Some? && s.holder == x.fd ==> x.acquired || x.pc == Locked || x.pc == Closing)
  }

  /** `n` poll intervals. */
  ghost function Times(n: nat, poll: real): real {
    if n == 0 then 0.0 else Times(n - 1, poll) + poll
  }

  /** How the number of tries and the clock are tied together while polling. */
  ghost predicate TimeOk(s: State, x: Inst) {
    && x.timeout >= 0.0 && x.poll >= 0.01
    && (x.pc == Trying ==>
          && x.started + Times(x.tries, x.poll) <= s.clock
          && (1 <= x.tries ==> Times(x.tries - 1, x.poll) < x.timeout))
    && (x.pc in {Locked, Checking, TimingOut} ==>
          && 1 <= x.tries && x.started + Times(x.tries - 1, x.poll) <= s.clock
          && (2 <= x.tries ==> Times(x.tries - 2, x.poll) < x.timeout))
    && (x.pc == Sleeping ==>
          && 1 <= x.tries && x.started + Times(x.tries, x.poll) <= x.wake
          && Times(x.tries - 1, x.poll) < x.timeout)
    && (x.pc == TimingOut ==> s.clock >= x.started + x.timeout)
  }

  ghost predicate Inv(s: State) {
    && (forall i :: i in s.insts ==> InstOk(s, i, s.insts[i]))
    && (forall i :: i in s.insts ==> TimeOk(s, s.insts[i]))
    && (forall o :: o in s.open ==> s.open[o] in s.insts)
  }

  function Actor(a: Action): Name
    requires !a.Tick?
  {
    match a
    case Acquire(i, _) => i
    case SetDeadline(i) => i
    case Try(i) => i
    case TryRaises(i) => i
    case SetFlag(i) => i
    case Check(i) => i
    case Wake(i) => i
    case CloseTimedOut(i) => i
    case Release(i) => i
    case Unlock(i, _) => i
    case Clear(i) => i
    case Close(i) => i
    case Crash(i) => i
  }

  lemma OwnClose(s: State, i: Name)
    requires i in s.insts && InstOk(s, i, s.insts[i]) && s.insts[i].pc in {TimingOut, Closing}
    ensures InstOk(CloseOwn(s, i), i, CloseOwn(s, i).insts[i])
  {
  }

  lemma OwnStep(s: State, a: Action)
    requires Enabled(s, a) && !a.Tick? && InstOk(s, Actor(a), s.insts[Actor(a)])
    ensures InstOk(Step(s, a), Actor(a), Step(s, a).insts[Actor(a)])
  {
    match a {
      case Try(i) =>
      case CloseTimedOut(i) => OwnClose(s, i);
      case Close(i) => OwnClose(s, i);
      case Unlock(i, fails) =>
      case _ =>
    }
  }

  /** From `j`'s side nothing has happened: its record, its descriptions and its lock are as before. */
  ghost predicate Undisturbed(s: State, t: State, j: Name) {
    && j in s.insts && j in t.insts && t.insts[j] == s.insts[j]
    && (forall o :: o in s.open && s.open[o] == j ==>
          o in t.open && t.open[o] == j && (s.holder == Some(o) <==> t.holder == Some(o)))
    && (forall o :: o in t.open && t.open[o] == j ==> o in s.open && s.open[o] == j)
    && (t.holder.Some? ==> t.holder.value in t.open)
  }

  lemma OtherStep(s: State, a: Action, j: Name)
    requires Enabled(s, a) && !a.Tick? && j in s.insts && j != Actor(a)
    requires InstOk(s, Actor(a), s.insts[Actor(a)])
    ensures Undisturbed(s, Step(s, a), j)
  {
  }

  lemma UndisturbedOk(s: State, t: State, j: Name)
    requires Undisturbed(s, t, j) && InstOk(s, j, s.insts[j])
    ensures InstOk(t, j, t.insts[j])
  {
  }

  lemma StepKeepsInstOk(s: State, a: Action, j: Name)
    requires Inv(s) && Enabled(s, a) && j in s.insts
    ensures InstOk(Step(s, a), j, Step(s, a).insts[j])
  {
    if a.Tick? {
      assert InstOk(s, j, s.insts[j]);
    } else if j == Actor(a) {
      OwnStep(s, a);
    } else {
      OtherStep(s, a, j);
      UndisturbedOk(s, Step(s, a), j);
    }
  }

  lemma PollStepTime(s: State, a: Action)
    requires a.Try? || a.Check? || a.Wake? || a.SetDeadline?
    requires Enabled(s, a) && TimeOk(s, s.insts[Actor(a)])
    ensures TimeOk(Step(s, a), Step(s, a).insts[Actor(a)])
  {
  }

  lemma StepKeepsTimeOk(s: State, a: Action, j: Name)
    requires j in s.insts && TimeOk(s, s.insts[j]) && Enabled(s, a)
    ensures TimeOk(Step(s, a), Step(s, a).insts[j])
  {
    var x, t := s.insts[j], Step(s, a);
    assert t.clock >= s.clock;
    if a.Tick? || j != Actor(a) {
      assert t.insts[j] == x;
    } else if a.Try? || a.Check? || a.Wake? || a.SetDeadline? {
      PollStepTime(s, a);
    } else {
      assert t.insts[j].pc !in {Trying, Locked, Checking, Sleeping, TimingOut} || a.Acquire?;
    }
  }

  lemma StepKeepsKernel(s: State, a: Action)
    requires Enabled(s, a) && forall o :: o in s.open ==> s.open[o] in s.insts
    ensures Step(s, a).insts.Keys == s.insts.Keys
    ensures forall o :: o in Step(s, a).open ==> Step(s, a).open[o] in Step(s, a).insts
  {
  }

  lemma StepKeepsInv(s: State, a: Action)
    requires Inv(s) && Enabled(s, a)
    ensures Inv(Step(s, a))
  {
    var t := Step(s, a);
    StepKeepsKernel(s, a);
    forall j | j in t.insts ensures InstOk(t, j, t.insts[j]) && TimeOk(t, t.insts[j]) {
      assert TimeOk(s, s.insts[j]);
      StepKeepsInstOk(s, a, j);
      StepKeepsTimeOk(s, a, j);
    }
  }

  lemma InitInv(s: State)
    requires Init(s)
    ensures Inv(s)
  {
  }

  lemma {:induction false} RunKeepsInv(s: State, run: seq<Action>, t: State)
    requires Inv(s) && Leads(s, run, t)
    ensures Inv(t)
    decreases |run|
  {
    if run != [] {
      StepKeepsInv(s, run[0]);
      RunKeepsInv(Step(s, run[0]), run[1..], t);
    }
  }

  lemma ReachableInv(t: State)
    requires Reachable(t)
    ensures Inv(t)
  {
    var s, run :| Init(s) && Leads(s, run, t);
    InitInv(s);
    RunKeepsInv(s, run, t);
  }

  // ----- mutual exclusion -----

  predicate Flagged(s: State, i: Name) {
    i in s.insts && s.insts[i].acquired
  }

  /** The flag is up and no unlock has been issued yet: the caller may rely on the lock. */
  predicate Holds(s: State, i: Name) {
    Flagged(s, i) && s.insts[i].pc != Clearing
  }

  /** In every interleaving whoever holds the lock owns an open, kernel-held description, and no two
      instances hold it. */
  lemma MutualExclusion(s: State, i: Name, j: Name)
    requires Reachable(s) && Holds(s, i)
    ensures s.insts[i].fd.Some? && s.insts[i].fd.value in s.open && s.holder == s.insts[i].fd
    ensures Holds(s, j) ==> i == j
  {
    ReachableInv(s);
    assert InstOk(s, i, s.insts[i]);
    if Holds(s, j) {
      assert InstOk(s, j, s.insts[j]);
    }
  }

  /** The bare flags are weaker: two of them can be up, and only because one instance has issued its
      unlock (line 253) and not yet lowered its flag (line 254). */
  lemma TwoFlagsExactly(s: State, i: Name, j: Name)
    requires Reachable(s) && i != j && Flagged(s, i) && Flagged(s, j)
    ensures s.insts[i].pc == Clearing || s.insts[j].pc == Clearing
  {
    if Holds(s, i) { MutualExclusion(s, i, j); }
  }

  /** A run in which only instance `j` moves (time may pass). */
  ghost predicate OnlyMoves(run: seq<Action>, j: Name) {
    forall k :: 0 <= k < |run| ==> run[k].Tick? || Actor(run[k]) == j
  }

  ghost predicate RunsTo(s: State, run: seq<Action>, t: State, j: Name) {
    OnlyMoves(run, j) && Leads(s, run, t)
  }

  /** `j` is down and someone else holds the kernel lock. */
  ghost predicate LockedOut(s: State, j: Name) {
    && j in s.insts && !s.insts[j].acquired
    && s.holder.Some? && s.holder.value in s.open && s.open[s.holder.value] != j
  }

  lemma LockedOutStep(s: State, a: Action, j: Name)
    requires LockedOut(s, j) && InstOk(s, j, s.insts[j])
    requires Enabled(s, a) && (a.Tick? || Actor(a) == j)
    ensures LockedOut(Step(s, a), j)
  {
  }

  /** While someone else holds the kernel lock, `j` alone cannot raise its flag. */
  lemma {:induction false} LockedOutRun(s: State, run: seq<Action>, t: State, j: Name)
    requires Inv(s) && LockedOut(s, j) && RunsTo(s, run, t, j)
    ensures !Flagged(t, j)
    decreases |run|
  {
    if run != [] {
      assert InstOk(s, j, s.insts[j]);
      LockedOutStep(s, run[0], j);
      StepKeepsInv(s, run[0]);
      assert OnlyMoves(run[1..], j) by {
        forall k | 0 <= k < |run[1..]| ensures run[1..][k].Tick? || Actor(run[1..][k]) == j {
          assert run[1..][k] == run[k + 1];
        }
      }
      LockedOutRun(Step(s, run[0]), run[1..], t, j);
    }
  }

  /** Nobody but possibly `j` itself holds the kernel lock. */
  predicate FreeFor(s: State, j: Name)
    requires j in s.insts
  {
    s.holder == None || s.holder == s.insts[j].fd
  }

  /** The next action of an unflagged `j` on its way to raising its flag; time passes while it sleeps. */
  function Towards(s: State, j: Name, o: Ofd): Action
    requires j in s.insts
  {
    var x := s.insts[j];
    match x.pc
    case Idle => Acquire(j, o)
    case Opened => SetDeadline(j)
    case Trying => Try(j)
    case Locked => SetFlag(j)
    case Checking => Check(j)
    case Sleeping => if s.clock < x.wake then Tick(x.wake - s.clock) else Wake(j)
    case TimingOut => CloseTimedOut(j)
    case Unlocking => Unlock(j, false)
    case Clearing => Clear(j)
    case Closing => Close(j)
  }

  /** How many of these actions are at most left. */
  function StepsLeft(s: State, j: Name): nat
    requires j in s.insts
  {
    match s.insts[j].pc
    case Locked => 1
    case Trying => 2
    case Opened => 3
    case Idle => 4
    case Sleeping => if s.clock < s.insts[j].wake then 4 else 3
    case TimingOut => 5
    case Checking => 6
    case Closing => 5
    case Clearing => 6
    case Unlocking => 7
  }

  ghost predicate OthersSame(s: State, t: State, j: Name) {
    t.insts.Keys == s.insts.Keys && forall i :: i in s.insts && i != j ==> t.insts[i] == s.insts[i]
  }

  lemma TowardsStep(s: State, j: Name, o: Ofd)
    requires j in s.insts && InstOk(s, j, s.insts[j]) && !s.insts[j].acquired && FreeFor(s, j) && o !in s.open
    ensures var a := Towards(s, j, o);
            && Enabled(s, a) && (a.Tick? || Actor(a) == j)
            && var t := Step(s, a);
               && OthersSame(s, t, j)
               && if a.SetFlag? then t.insts[j].acquired && t.insts[j].pc == Idle
                  else !t.insts[j].acquired && FreeFor(t, j) && StepsLeft(t, j) < StepsLeft(s, j)
  {
  }

  lemma LeadsFirst(s: State, a: Action, run: seq<Action>, t: State, j: Name)
    requires Enabled(s, a) && (a.Tick? || Actor(a) == j) && RunsTo(Step(s, a), run, t, j)
    ensures RunsTo(s, [a] + run, t, j)
  {
  }

  lemma {:induction false} Bound(used: set<Ofd>) returns (top: Ofd)
    ensures forall o :: o in used ==> o < top
    decreases used
  {
    if used == {} { return 0; }
    var o :| o in used;
    top := Bound(used - {o});
    assert forall p :: p in used ==> p in used - {o} || p == o;
    if top <= o { top := o + 1; }
  }

  /** With the kernel lock free for it, an unflagged instance that runs alone raises its flag, whatever
      line it stands at: a poll goes on to its next try, a timed-out or released one starts afresh. */
  lemma {:induction false} RaiseAlone(s: State, j: Name) returns (run: seq<Action>, t: State)
    requires Inv(s) && j in s.insts && !Flagged(s, j) && FreeFor(s, j)
    ensures RunsTo(s, run, t, j) && Flagged(t, j) && t.insts[j].pc == Idle && OthersSame(s, t, j)
    decreases StepsLeft(s, j)
  {
    var o := Bound(s.open.Keys);
    assert InstOk(s, j, s.insts[j]);
    TowardsStep(s, j, o);
    var a := Towards(s, j, o);
    var u := Step(s, a);
    if a.SetFlag? {
      run, t := [], u;
    } else {
      StepKeepsInv(s, a);
      run, t := RaiseAlone(u, j);
    }
    LeadsFirst(s, a, run, t, j);
    run := [a] + run;
  }

  predicate Due(s: State, j: Name)
    requires j in s.insts
  {
    s.clock >= s.insts[j].started + s.insts[j].timeout
  }

  /** The next action of a `j` in `acquire` whose tries are refused; it sleeps until its deadline. */
  function Onwards(s: State, j: Name): Action
    requires j in s.insts && InAcquire(s.insts[j].pc)
  {
    var x := s.insts[j];
    var until := if x.wake < x.started + x.timeout then x.started + x.timeout else x.wake;
    match x.pc
    case Opened => SetDeadline(j)
    case Trying => Try(j)
    case Checking => Check(j)
    case Sleeping => if s.clock < until then Tick(until - s.clock) else Wake(j)
    case _ => CloseTimedOut(j)
  }

  function RefusalsLeft(s: State, j: Name): nat
    requires j in s.insts
  {
    match s.insts[j].pc
    case Opened => 9
    case Trying => if Due(s, j) then 3 else 8
    case Checking => if Due(s, j) then 2 else 7
    case Sleeping => if Due(s, j) && s.clock >= s.insts[j].wake then 4 else 6
    case _ => 1
  }

  lemma OnwardsStep(s: State, j: Name)
    requires LockedOut(s, j) && InstOk(s, j, s.insts[j]) && TimeOk(s, s.insts[j]) && InAcquire(s.insts[j].pc)
    ensures var a := Onwards(s, j);
            && Enabled(s, a) && (a.Tick? || Actor(a) == j)
            && var t := Step(s, a);
               && OthersSame(s, t, j) && t.holder == s.holder && !t.insts[j].acquired
               && if a.CloseTimedOut? then t.insts[j].pc == Idle && t.insts[j].fd == None && Due(t, j)
                  else InAcquire(t.insts[j].pc) && RefusalsLeft(t, j) < RefusalsLeft(s, j)
  {
  }

  /** While someone else holds the kernel lock, an `acquire` that runs alone ends in a timeout, whatever line it
      stands at: deadline passed, flag down, descriptor closed, the holder untouched. */
  lemma {:induction false} GivesUpAlone(s: State, j: Name) returns (run: seq<Action>, t: State)
    requires Inv(s) && LockedOut(s, j) && InAcquire(s.insts[j].pc)
    ensures RunsTo(s, run, t, j) && OthersSame(s, t, j) && t.holder == s.holder && j in t.insts
    ensures t.insts[j].pc == Idle && t.insts[j].fd == None && !Flagged(t, j) && Due(t, j)
    decreases RefusalsLeft(s, j)
  {
    assert InstOk(s, j, s.insts[j]) && TimeOk(s, s.insts[j]);
    OnwardsStep(s, j);
    var a := Onwards(s, j);
    var u := Step(s, a);
    if a.CloseTimedOut? {
      run, t := [], u;
    } else {
      StepKeepsInv(s, a);
      LockedOutStep(s, a, j);
      run, t := GivesUpAlone(u, j);
    }
    LeadsFirst(s, a, run, t, j);
    run := [a] + run;
  }

  lemma {:induction false} LeadsTrans(s: State, r1: seq<Action>, t: State, r2: seq<Action>, u: State)
    requires Leads(s, r1, t) && Leads(t, r2, u)
    ensures Leads(s, r1 + r2, u)
    decreases |r1|
  {
    if r1 == [] {
      assert r1 + r2 == r2;
    } else {
      LeadsTrans(Step(s, r1[0]), r1[1..], t, r2, u);
      assert (r1 + r2)[1..] == r1[1..] + r2;
    }
  }

  lemma ReachableRun(s: State, run: seq<Action>, t: State)
    requires Reachable(s) && Leads(s, run, t)
    ensures Reachable(t)
  {
    var s0, r0 :| Init(s0) && Leads(s0, r0, s);
    LeadsTrans(s0, r0, s, run, t);
    assert Leads(s0, r0 + run, t);
  }

  lemma ReachableStep(s: State, a: Action) returns (t: State)
    requires Reachable(s) && Enabled(s, a)
    ensures t == Step(s, a) && Reachable(t)
  {
    t := Step(s, a);
    assert [a][1..] == [] && Leads(t, [], t);
    ReachableRun(s, [a], t);
  }

  /** The exact window in which the flag of `i` says too much: while it is up, an unflagged `j` at any
      line can raise its own flag beside it if and only if the kernel lock is free or already with `j`,
      and for `i` that means the unlock of line 253 went through and line 254 has not yet run. */
  lemma FlagWindow(s: State, i: Name, j: Name)
    requires Reachable(s) && i != j && Flagged(s, i) && j in s.insts && !Flagged(s, j)
    ensures (exists run, t :: RunsTo(s, run, t, j) && Flagged(t, i) && Flagged(t, j))
            <==> s.holder == None || s.holder == s.insts[j].fd
    ensures s.holder == None || s.holder == s.insts[j].fd ==> s.insts[i].pc == Clearing
  {
    ReachableInv(s);
    assert InstOk(s, i, s.insts[i]) && InstOk(s, j, s.insts[j]);
    if FreeFor(s, j) {
      var run, t := RaiseAlone(s, j);
      assert RunsTo(s, run, t, j) && Flagged(t, i) && Flagged(t, j);
    } else {
      forall run, t | RunsTo(s, run, t, j) ensures !Flagged(t, j) {
        LockedOutRun(s, run, t, j);
      }
    }
  }

  /** The instance as constructed with the default limits. */
  function NewInst(): Inst {
    Inst(Idle, None, false, 5.0, 0.1, 0.0, 0, 0.0, {})
  }

  /** Instance 0 alone raises its flag and unlocks; its flag is still up. */
  lemma UnlockedReachable() returns (s: State)
    ensures Reachable(s) && Flagged(s, 0) && s.holder == None && 1 in s.insts && !Flagged(s, 1)
  {
    var s0 := State(map[0 := NewInst(), 1 := NewInst()], map[], None, 0.0);
    assert Init(s0) && Leads(s0, [], s0);
    InitInv(s0);
    var r, s1 := RaiseAlone(s0, 0);
    ReachableRun(s0, r, s1);
    MutualExclusion(s1, 0, 0);
    s := ReachableStep(s1, Release(0));
    s := ReachableStep(s, Unlock(0, false));
  }

  /** The window is reachable: two instances, one inside `release`, the other just acquired. */
  lemma TwoFlagsReachable() returns (s: State)
    ensures Reachable(s) && Flagged(s, 0) && Flagged(s, 1)
  {
    var t := UnlockedReachable();
    ReachableInv(t);
    var r, u := RaiseAlone(t, 1);
    ReachableRun(t, r, u);
    s := u;
  }

  // ----- timeouts and descriptors -----

  lemma {:induction false} TimesIsProduct(n: nat, poll: real)
    ensures Times(n, poll) == n as real * poll
  {
    if n != 0 { TimesIsProduct(n - 1, poll); }
  }

  lemma BelowQuotient(a: real, p: real, t: real)
    requires p > 0.0
    ensures a * p < t ==> a < t / p
    ensures 0.0 <= t ==> 0.0 <= t / p
  {
  }

  /** Fewer than ceil(timeout / poll) whole poll intervals fit strictly below the timeout. */
  lemma IntervalsFit(n: nat, poll: real, timeout: real)
    requires poll > 0.0 && Times(n, poll) < timeout
    ensures n < Ceil(timeout / poll)
  {
    TimesIsProduct(n, poll);
    BelowQuotient(n as real, poll, timeout);
  }

  lemma CeilNonNegative(timeout: real, poll: real)
    requires timeout >= 0.0 && poll > 0.0
    ensures Ceil(timeout / poll) >= 0
  {
  }

  /** `LockTimeout` is raised only after the timeout has elapsed and after at most
      ceil(timeout / poll) + 1 tries; the raise closes the descriptor it opened. */
  lemma TimeoutOnlyWhenDue(s: State, i: Name)
    requires Reachable(s) && Enabled(s, CloseTimedOut(i))
    ensures s.clock >= s.insts[i].started + s.insts[i].timeout
    ensures s.insts[i].poll > 0.0 && s.insts[i].fd.Some?
    ensures 1 <= s.insts[i].tries <= Ceil(s.insts[i].timeout / s.insts[i].poll) + 1
    ensures var t := Step(s, CloseTimedOut(i));
            !Flagged(t, i) && t.insts[i].fd == None && t.insts[i].pc == Idle && s.insts[i].fd.value !in t.open
            && t.holder == s.holder
  {
    ReachableInv(s);
    var x := s.insts[i];
    assert InstOk(s, i, x) && TimeOk(s, x);
    if 2 <= x.tries {
      IntervalsFit(x.tries - 2, x.poll, x.timeout);
    } else {
      CeilNonNegative(x.timeout, x.poll);
    }
  }

  /** `release` always ends with the flag down, the descriptor closed and, if the instance held it,
      the kernel lock free, even when LOCK_UN failed. */
  lemma ReleaseFrees(s: State, i: Name)
    requires Reachable(s) && Enabled(s, Close(i))
    ensures var t := Step(s, Close(i));
            !Flagged(t, i) && t.insts[i].fd == None
            && (t.holder.Some? ==> t.holder.value in t.open && t.open[t.holder.value] != i)
            && (s.insts[i].fd.Some? ==> s.insts[i].fd.value !in t.open)
  {
    ReachableInv(s);
    assert InstOk(s, i, s.insts[i]);
    assert s.holder.Some? && s.open[s.holder.value] == i ==> s.holder == s.insts[i].fd;
  }

  ghost predicate OwnsNothing(s: State, i: Name) {
    forall o :: o in s.open ==> s.open[o] != i
  }

  /** This action is an `acquire` of `i` that opens a description while `_fd` still names another. */
  predicate Overwrites(s: State, a: Action, i: Name) {
    a.Acquire? && a.i == i && i in s.insts && !s.insts[i].acquired && s.insts[i].fd.Some?
  }

  /** Every acquire of `i` in the run that opened a description found `_fd` empty. */
  ghost predicate NeverOverwrites(s: State, run: seq<Action>, i: Name)
    decreases |run|
  {
    run != [] && Enabled(s, run[0]) ==> !Overwrites(s, run[0], i) && NeverOverwrites(Step(s, run[0]), run[1..], i)
  }

  lemma LeakStep(s: State, a: Action, i: Name)
    requires Enabled(s, a) && i in s.insts && a != Crash(i)
    requires s.insts[i].fd.Some? ==> s.insts[i].fd.value !in s.insts[i].leaked
    ensures i in Step(s, a).insts && s.insts[i].leaked <= Step(s, a).insts[i].leaked
    ensures s.insts[i].leaked != Step(s, a).insts[i].leaked <==> Overwrites(s, a, i)
  {
  }

  /** A description drops out of sight exactly at an `acquire` that starts while `_fd` is still set. */
  lemma LeakExactly(s: State, a: Action, i: Name)
    requires Reachable(s) && Enabled(s, a) && i in s.insts && a != Crash(i)
    ensures i in Step(s, a).insts && s.insts[i].leaked <= Step(s, a).insts[i].leaked
    ensures s.insts[i].leaked != Step(s, a).insts[i].leaked <==> Overwrites(s, a, i)
  {
    ReachableInv(s);
    assert InstOk(s, i, s.insts[i]);
    LeakStep(s, a, i);
  }

  lemma {:induction false} LeakRun(s: State, run: seq<Action>, t: State, i: Name)
    requires Reachable(s) && i in s.insts && Leads(s, run, t) && Crash(i) !in run
    ensures i in t.insts && t.insts[i].leaked == {} <==> s.insts[i].leaked == {} && NeverOverwrites(s, run, i)
    decreases |run|
  {
    if run != [] {
      LeakExactly(s, run[0], i);
      var u := ReachableStep(s, run[0]);
      LeakRun(u, run[1..], t, i);
    }
  }

  lemma NothingLeftIffNoLeak(s: State, a: Action, i: Name)
    requires Inv(s) && Enabled(s, a) && (a == CloseTimedOut(i) || a == Close(i))
    ensures OwnsNothing(Step(s, a), i) <==> s.insts[i].leaked == {}
  {
    var x, t := s.insts[i], Step(s, a);
    assert InstOk(s, i, x);
    assert t.open == if x.fd.Some? then s.open - {x.fd.value} else s.open;
    if o :| o in x.leaked {
      assert o in t.open && t.open[o] == i;
    }
  }

  /** From a state in which the process has no lock-file descriptor (before its first `acquire`, say),
      any run without its crash that ends in a timeout or a release of `i` leaves none open exactly
      when every `acquire` of `i` on the way that opened one found `_fd` empty. */
  lemma NothingLeftExactly(s: State, run: seq<Action>, t: State, a: Action, i: Name)
    requires Reachable(s) && i in s.insts && OwnsNothing(s, i)
    requires Leads(s, run, t) && Crash(i) !in run && Enabled(t, a) && (a == CloseTimedOut(i) || a == Close(i))
    ensures OwnsNothing(Step(t, a), i) <==> NeverOverwrites(s, run, i)
  {
    ReachableInv(s);
    assert InstOk(s, i, s.insts[i]);
    assert s.insts[i].leaked == {};
    ReachableRun(s, run, t);
    ReachableInv(t);
    LeakRun(s, run, t, i);
    NothingLeftIffNoLeak(t, a, i);
  }

  /** Only an unexpected flock error (an exception out of line 232) leaves `_fd` set behind it: without
      one, no `acquire` ever finds it set. */
  lemma {:induction false} OnlyErrorsLeak(s: State, run: seq<Action>, t: State, i: Name)
    requires i in s.insts && (s.insts[i].pc == Idle && !s.insts[i].acquired ==> s.insts[i].fd == None)
    requires Leads(s, run, t) && TryRaises(i) !in run
    ensures NeverOverwrites(s, run, i)
    decreases |run|
  {
    if run != [] {
      OnlyErrorsLeak(Step(s, run[0]), run[1..], t, i);
    }
  }

  /** A flock error leaves `acquire` with the descriptor still set. */
  lemma DescriptorLeftSet() returns (s: State)
    ensures Reachable(s) && s.open == map[3 := 0] && s.holder == None
    ensures 0 in s.insts && s.insts[0].pc == Idle && !s.insts[0].acquired && s.insts[0].fd == Some(3)
  {
    var s0 := State(map[0 := NewInst()], map[], None, 0.0);
    assert Init(s0) && Leads(s0, [], s0);
    s := ReachableStep(s0, Acquire(0, 3));
    s := ReachableStep(s, SetDeadline(0));
    s := ReachableStep(s, TryRaises(0));
  }

  /** A second `acquire` then takes the lock. */
  lemma AcquiredOverLeak() returns (s: State)
    ensures Reachable(s) && 0 in s.insts && s.insts[0].acquired && s.insts[0].pc == Idle && 3 in s.insts[0].leaked
  {
    s := DescriptorLeftSet();
    s := ReachableStep(s, Acquire(0, 4));
    s := ReachableStep(s, SetDeadline(0));
    s := ReachableStep(s, Try(0));
    s := ReachableStep(s, SetFlag(0));
  }

  /** The leak is reachable: after a complete `release` description 3 is still open. */
  lemma LeakReachable() returns (s: State)
    ensures Reachable(s) && Enabled(s, Close(0)) && !OwnsNothing(Step(s, Close(0)), 0)
  {
    s := AcquiredOverLeak();
    s := ReachableStep(s, Release(0));
    s := ReachableStep(s, Unlock(0, false));
    s := ReachableStep(s, Clear(0));
    ReachableInv(s);
    NothingLeftIffNoLeak(s, Close(0), 0);
  }
}
