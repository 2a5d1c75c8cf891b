/** The class SyncLock of scripts/sync_lock.py, from one caller's view. Other processes run between
    any two statements: `Kernel.Others` stands for whatever they do, which can neither close this
    process's descriptors nor take a lock this process holds. LockProtocol covers the interleavings
    themselves. */
module SyncLock {
  import opened Prelude
  import opened LockProtocol

  datatype Outcome = Acquired | TimedOut | Raised

  class Kernel {
    var open: set<Ofd>
    var holder: Option<Ofd>
    var clock: real
    ghost var grants: nat  // how often this process's flock was granted
    ghost var errors: nat  // how often it failed with an unexpected errno

    ghost predicate Valid()
      reads this
    {
      holder.Some? ==> holder.value in open
    }

    constructor ()
      ensures Valid() && open == {} && holder == None
    {
      open, holder, clock, grants, errors := {}, None, 0.0, 0, 0;
    }

    method Others(mine: set<Ofd>)
      requires Valid()
      modifies this`open, this`holder, this`clock
      ensures Valid() && clock >= old(clock)
      ensures forall o :: o in mine ==> (o in open <==> o in old(open))
      ensures forall o :: o in mine ==> (holder == Some(o) <==> old(holder) == Some(o))
    {
      var elapsed: real := *;
      var open': set<Ofd> := *;
      var holder': Option<Ofd> := *;
      if elapsed >= 0.0 { clock := clock + elapsed; }
      if && (holder'.Some? ==> holder'.value in open')
         && forall o | o in mine :: (o in open' <==> o in open) && (holder' == Some(o) <==> holder == Some(o))
      {
        open, holder := open', holder';
      }
    }

    method Open() returns (o: Ofd)
      requires Valid()
      modifies this`open
      ensures Valid() && o !in old(open) && open == old(open) + {o}
    {
      ghost var top := Bound(open);
      assert top !in open;
      o :| o !in open;
      open := open + {o};
    }

    method Close(o: Ofd)
      requires Valid()
      modifies this`open, this`holder
      ensures Valid() && open == old(open) - {o}
      ensures holder == if old(holder) == Some(o) then None else old(holder)
    {
      open := open - {o};
      if holder == Some(o) { holder := None; }
    }

    /** flock(LOCK_EX | LOCK_NB), which may also fail with an errno other than EWOULDBLOCK. */
    method TryFlock(o: Ofd) returns (ok: bool, raised: bool)
      requires Valid() && o in open
      modifies this`holder, this`grants, this`errors
      ensures Valid()
      ensures grants == old(grants) + (if ok then 1 else 0) && errors == old(errors) + (if raised then 1 else 0)
      ensures ok ==> !raised && old(holder) in {None, Some(o)} && holder == Some(o)
      ensures !ok ==> holder == old(holder)
      ensures !ok && !raised ==> holder !in {None, Some(o)}
    {
      raised := *;
      ok := !raised && (holder == None || holder == Some(o));
      if ok { holder := Some(o); }
      grants, errors := grants + (if ok then 1 else 0), errors + (if raised then 1 else 0);
    }
  }

  class SyncLock {
    const kernel: Kernel
    const timeout: real
    const poll: real
    var fd: Option<Ofd>
    var acquired: bool

    constructor (kernel: Kernel, timeout: real, pollInterval: real)
      ensures this.kernel == kernel && fd == None && !acquired
      ensures this.timeout == (if timeout < 0.0 then 0.0 else timeout)
      ensures poll == (if pollInterval < 0.01 then 0.01 else pollInterval)
    {
      this.kernel := kernel;
      this.timeout := if timeout < 0.0 then 0.0 else timeout;
      this.poll := if pollInterval < 0.01 then 0.01 else pollInterval;
      fd, acquired := None, false;
    }

    /** The flag is up only while the kernel lock is held through the instance's own descriptor. */
    ghost predicate Valid()
      reads this, kernel
    {
      && kernel.Valid() && poll >= 0.01 && timeout >= 0.0
      && (fd.Some? ==> fd.value in kernel.open)
      && (acquired <==> fd.Some? && kernel.holder == fd)
    }

    /** A held lock is left alone. Otherwise: success means flag up and kernel lock held; LockTimeout
        comes only when no try was granted and the timeout has elapsed, after at most
        ceil(timeout / poll) + 1 tries, and leaves no descriptor; any other flock error, and nothing else,
        makes the call raise, and leaves the new descriptor in `fd`. A granted flock, and nothing else,
        makes it succeed. `ofd` is the description that this call opened, if any. */
    method Acquire() returns (outcome: Outcome, tries: nat, ghost ofd: Option<Ofd>)
      requires Valid() && poll > 0.0
      modifies this, kernel
      ensures Valid() && kernel.clock >= old(kernel.clock)
      ensures old(acquired) ==> outcome == Acquired && tries == 0 && fd == old(fd)
                                && kernel.holder == old(kernel.holder) && kernel.open == old(kernel.open)
      ensures outcome == Acquired <==> acquired
      ensures ofd == None <==> old(acquired)
      ensures ofd.Some? ==>
                ofd.value !in old(kernel.open)
                && if outcome == TimedOut then ofd.value !in kernel.open && kernel.holder != ofd else fd == ofd
      ensures outcome == TimedOut ==>
                fd == None && kernel.clock >= old(kernel.clock) + timeout
                && 1 <= tries <= Ceil(timeout / poll) + 1
      ensures outcome == Raised ==> fd.Some?
      ensures !old(acquired) ==> (outcome == Acquired <==> kernel.grants > old(kernel.grants))
      ensures !old(acquired) ==> (outcome == Raised <==> kernel.errors > old(kernel.errors))
      ensures outcome == TimedOut ==> kernel.grants == old(kernel.grants) && kernel.errors == old(kernel.errors)
    {
      if acquired {
        return Acquired, 0, None;
      }
      var o := kernel.Open();
      fd := Some(o);
      ofd := fd;
      kernel.Others({o});
      var started := kernel.clock;
      var deadline := started + timeout;
      tries := 0;
      CeilNonNegative(timeout, poll);
      while true
        invariant kernel.Valid() && fd == Some(o) && o in kernel.open && !acquired
        invariant kernel.holder != Some(o)
        invariant kernel.grants == old(kernel.grants) && kernel.errors == old(kernel.errors)
        invariant old(kernel.clock) <= started && old(kernel.clock) <= kernel.clock
        invariant started + Times(tries, poll) <= kernel.clock
        invariant 1 <= tries ==> Times(tries - 1, poll) < timeout
        invariant 1 <= tries ==> tries <= Ceil(timeout / poll)
        decreases Ceil(timeout / poll) + 1 - tries
      {
        var ok, raised := kernel.TryFlock(o);
        tries := tries + 1;
        if raised {
          return Raised, tries, ofd;
        }
        if ok {
          kernel.Others({o});
          acquired := true;
          return Acquired, tries, ofd;
        }
        kernel.Others({o});
        if kernel.clock >= deadline {
          kernel.Close(o);
          fd := None;
          return TimedOut, tries, ofd;
        }
        IntervalsFit(tries - 1, poll, timeout);
        kernel.clock := kernel.clock + poll;
        kernel.Others({o});
      }
    }

    /** The lock is given up and the descriptor closed, whether or not LOCK_UN works. */
    method Release(unlockFails: bool)
      requires Valid()
      modifies this, kernel`open, kernel`holder
      ensures Valid() && !acquired && fd == None
      ensures kernel.open == old(kernel.open) - if old(fd).Some? then {old(fd).value} else {}
      ensures kernel.holder == if old(fd).Some? && old(kernel.holder) == old(fd) then None else old(kernel.holder)
    {
      if fd.Some? && acquired && !unlockFails {
        kernel.holder := None;
      }
      acquired := false;
      if fd.Some? {
        kernel.Close(fd.value);
        fd := None;
      }
    }
  }

  /** `acquire_repo_lock`. If the body of the with statement runs, which is exactly on success, it runs
      under the kernel lock from start to end while other processes go on. On every path, a timeout or
      a flock error included, the instance ends up with neither lock nor descriptor, and the
      description it opened is closed. */
  method WithRepoLock(kernel: Kernel, timeout: real, unlockFails: bool)
      returns (outcome: Outcome, lock: SyncLock, ghost bodyUnderLock: bool, ghost ofd: Option<Ofd>)
    requires kernel.Valid()
    modifies kernel
    ensures fresh(lock) && lock.Valid() && !lock.acquired && lock.fd == None
    ensures outcome == TimedOut ==> kernel.clock >= old(kernel.clock) + timeout
    ensures bodyUnderLock <==> outcome == Acquired
    ensures outcome == Acquired <==> kernel.grants > old(kernel.grants)
    ensures outcome == Raised <==> kernel.errors > old(kernel.errors)
    ensures ofd.Some? && ofd.value !in old(kernel.open)
    ensures ofd.value !in kernel.open && kernel.holder != ofd
  {
    lock := new SyncLock(kernel, timeout, 0.1);
    var tries: nat;
    outcome, tries, ofd := lock.Acquire();
    bodyUnderLock := false;
    if outcome == Acquired {
      bodyUnderLock := lock.fd.Some? && kernel.holder == lock.fd;
      kernel.Others({lock.fd.value});  // while the body runs
      bodyUnderLock := bodyUnderLock && kernel.holder == lock.fd;
    }
    lock.Release(unlockFails);
  }
}
