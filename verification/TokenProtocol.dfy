/** Any number of callers running the two-attempt retry loop over one CachedTokenSource.  A step is one
    critical section, one clock reading, one answer from outside or one receive; steps of different
    callers interleave in every way. */
module TokenProtocol {
  import opened Wrappers
  import opened TokenSource

  type Id = nat

  /** Where a caller stands. */
  datatype Caller =
    | Asking(attempt: nat)                                      // about to read the clock
    | Locking(attempt: nat, now: int)                           // about to enter Token's first section
    | Waiting(attempt: nat, refresh: nat)                       // in the select
    | Exchanging(attempt: nat, refresh: nat)                    // inside the exchange function
    | Publishing(attempt: nat, refresh: nat, result: Exchange)  // about to enter Token's second section
    | Holding(attempt: nat, token: Token)                       // Token returned; about to send
    | Rejected                                                  // the first send was unauthenticated
    | Finished

  datatype System = System(cache: Cache, callers: map<Id, Caller>)

  datatype Label =
    | Begin(c: Id)
    | ReadClock(c: Id, now: int)
    | EnterSection(c: Id)
    | Receive(c: Id)                    // the refresh's channel is closed
    | Cancel(c: Id)                     // the context is done
    | Exchanged(c: Id, result: Exchange)
    | LeaveSection(c: Id)
    | Send(c: Id, rejected: bool)       // the reply carries the stable unauthenticated code, or not
    | GiveUp(c: Id)                     // signing, applying or building the request failed
    | Discard(c: Id)                    // Invalidate by a caller whose first send was rejected
    | DiscardElsewhere                  // Invalidate by anyone else

  const INITIAL: System := System(EMPTY, map[])

  predicate Enabled(s: System, l: Label) {
    match l
    case Begin(c) => c !in s.callers
    case ReadClock(c, _) => c in s.callers && s.callers[c].Asking?
    case EnterSection(c) => c in s.callers && s.callers[c].Locking?
    case Receive(c) =>
      && c in s.callers && s.callers[c].Waiting?
      && s.callers[c].refresh < |s.cache.refreshes| && s.cache.refreshes[s.callers[c].refresh].Closed?
    case Cancel(c) => c in s.callers && s.callers[c].Waiting?
    case Exchanged(c, _) => c in s.callers && s.callers[c].Exchanging?
    case LeaveSection(c) =>
      c in s.callers && s.callers[c].Publishing? && s.callers[c].refresh < |s.cache.refreshes|
    case Send(c, _) => c in s.callers && s.callers[c].Holding?
    case GiveUp(c) => c in s.callers && s.callers[c].Holding?
    case Discard(c) => c in s.callers && s.callers[c].Rejected?
    case DiscardElsewhere => true
  }

  /** A caller whose Token call ends with this result. */
  function Took(attempt: nat, result: Exchange): Caller {
    match result
    case Ok(token) => Holding(attempt, token)
    case Err(_) => Finished
  }

  function Entered(attempt: nat, decision: Decision): Caller {
    match decision
    case Hit(token) => Holding(attempt, token)
    case Wait(r) => Waiting(attempt, r)
    case Lead(r) => Exchanging(attempt, r)
  }

  /** The caller taking part in a step, after it. */
  function Moved(s: System, l: Label): Caller
    requires Enabled(s, l) && l != DiscardElsewhere
  {
    match l
    case Begin(_) => Asking(0)
    case ReadClock(c, now) => Locking(s.callers[c].attempt, now)
    case EnterSection(c) => Entered(s.callers[c].attempt, Decide(s.cache, s.callers[c].now))
    case Receive(c) => Took(s.callers[c].attempt, s.cache.refreshes[s.callers[c].refresh].result)
    case Cancel(_) => Finished
    case Exchanged(c, result) => Publishing(s.callers[c].attempt, s.callers[c].refresh, result)
    case LeaveSection(c) => Took(s.callers[c].attempt, s.callers[c].result)
    case Send(c, rejected) => if rejected && s.callers[c].attempt == 0 then Rejected else Finished
    case GiveUp(_) => Finished
    case Discard(_) => Asking(1)
  }

  function CacheAfter(s: System, l: Label): Cache
    requires Enabled(s, l)
  {
    match l
    case EnterSection(c) => Enter(s.cache, s.callers[c].now)
    case LeaveSection(c) => Publish(s.cache, s.callers[c].refresh, s.callers[c].result)
    case Discard(_) => Invalidate(s.cache)
    case DiscardElsewhere => Invalidate(s.cache)
    case _ => s.cache
  }

  function Step(s: System, l: Label): System
    requires Enabled(s, l)
  {
    System(CacheAfter(s, l), if l == DiscardElsewhere then s.callers else s.callers[l.c := Moved(s, l)])
  }

  /** A run: its states, and the labels of the steps between them. */
  datatype Run = Run(states: seq<System>, labels: seq<Label>) {
    ghost predicate Valid() {
      && |states| == |labels| + 1
      && states[0] == INITIAL
      && forall k | 0 <= k < |labels| :: Enabled(states[k], labels[k]) && states[k + 1] == Step(states[k], labels[k])
    }

    /** Step `k` starts refresh `r`. */
    predicate StartsAt(k: nat, r: nat)
      requires |states| == |labels| + 1
    {
      && k < |labels| && labels[k].EnterSection? && Enabled(states[k], labels[k])
      && Decide(states[k].cache, states[k].callers[labels[k].c].now) == Lead(r)
    }

    /** Step `k` closes refresh `r` with `result`. */
    predicate ClosesAt(k: nat, r: nat, result: Exchange)
      requires |states| == |labels| + 1
    {
      && k < |labels| && labels[k].LeaveSection? && Enabled(states[k], labels[k])
      && states[k].callers[labels[k].c].refresh == r && states[k].callers[labels[k].c].result == result
    }

    predicate DiscardsAt(k: nat) {
      k < |labels| && (labels[k].Discard? || labels[k] == DiscardElsewhere)
    }
  }

  // ---- single flight ----

  predicate Leading(p: Caller) {
    p.Exchanging? || p.Publishing?
  }

  /** At most one refresh is open; it is the last one started and the one `refreshing` names. */
  predicate OneOpen(c: Cache) {
    && (forall r | 0 <= r < |c.refreshes| :: c.refreshes[r].InFlight? <==> c.refreshing == Some(r))
    && (c.refreshing.Some? ==> c.refreshing.value == |c.refreshes| - 1)
  }

  /** Callers lead the open refresh only, and wait for refreshes that exist. */
  ghost predicate Placed(s: System) {
    forall i | i in s.callers ::
      && (s.callers[i].Waiting? ==> s.callers[i].refresh < |s.cache.refreshes|)
      && (Leading(s.callers[i]) ==> s.cache.refreshing == Some(s.callers[i].refresh))
  }

  ghost predicate OneLeader(s: System) {
    && (s.cache.refreshing.Some? ==> exists i :: i in s.callers && Leading(s.callers[i]))
    && (forall i, j | i in s.callers && j in s.callers && i != j ::
          !Leading(s.callers[i]) || !Leading(s.callers[j]))
  }

  /** At most one exchange is in flight, it is the one `refreshing` names, and exactly one caller runs it. */
  ghost predicate SingleFlight(s: System) {
    OneOpen(s.cache) && Placed(s) && OneLeader(s)
  }

  lemma PlacedStep(s: System, l: Label)
    requires SingleFlight(s) && Enabled(s, l)
    ensures OneOpen(Step(s, l).cache) && Placed(Step(s, l))
  {
  }

  lemma OneLeaderStep(s: System, l: Label)
    requires SingleFlight(s) && Enabled(s, l)
    ensures OneLeader(Step(s, l))
  {
    var t := Step(s, l);
    if s.cache.refreshing.Some? && t.cache.refreshing.Some? {
      var i :| i in s.callers && Leading(s.callers[i]);
      assert i in t.callers && Leading(t.callers[i]);
    } else if t.cache.refreshing.Some? {
      assert Leading(t.callers[l.c]);
    }
  }

  lemma SingleFlightStep(s: System, l: Label)
    requires SingleFlight(s) && Enabled(s, l)
    ensures SingleFlight(Step(s, l))
  {
    PlacedStep(s, l);
    OneLeaderStep(s, l);
  }

  lemma {:induction false} SingleFlightAlways(run: Run, k: nat)
    requires run.Valid() && k <= |run.labels|
    ensures SingleFlight(run.states[k])
    decreases k
  {
    if k > 0 {
      SingleFlightAlways(run, k - 1);
      SingleFlightStep(run.states[k - 1], run.labels[k - 1]);
    }
  }
}
