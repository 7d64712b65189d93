/** What holds over every run of the token protocol. */
module TokenTheorems {
  import opened Wrappers
  import opened TokenSource
  import opened TokenProtocol

  function CacheAt(run: Run, k: nat): Cache
    requires k < |run.states|
  {
    run.states[k].cache
  }

  /** Refresh `r` has not been closed: it is in flight or not started yet. */
  predicate Open(c: Cache, r: nat) {
    r < |c.refreshes| ==> c.refreshes[r].InFlight?
  }

  // ---- what Token finds ----

  /** Entering Token, a caller takes the cached token exactly if it is not empty and expires more than a
      minute after the caller's reading of the clock; otherwise it waits for the exchange in flight, or
      runs one of its own if there is none. */
  lemma CacheIsHit(run: Run, k: nat, c: Id)
    requires run.Valid() && k < |run.labels| && run.labels[k] == EnterSection(c)
    ensures var w, cache := run.states[k].callers[c], CacheAt(run, k);
            run.states[k + 1].callers[c]
            == if cache.cached.accessToken != "" && cache.cached.expiresAt - w.now > 60_000_000_000 then
                 Holding(w.attempt, cache.cached)
               else match cache.refreshing
                 case Some(r) => Waiting(w.attempt, r)
                 case None => Exchanging(w.attempt, |cache.refreshes|)
  {
    assert Enabled(run.states[k], run.labels[k]);
  }

  // ---- refreshes ----

  /** Refreshes are never forgotten, and a closed one keeps its result. */
  lemma {:induction false} ResultsAreFinal(run: Run, i: nat, k: nat, r: nat)
    requires run.Valid() && i <= k <= |run.labels| && r < |CacheAt(run, i).refreshes|
    ensures |CacheAt(run, i).refreshes| <= |CacheAt(run, k).refreshes|
    ensures CacheAt(run, i).refreshes[r].Closed? ==> CacheAt(run, k).refreshes[r] == CacheAt(run, i).refreshes[r]
    decreases k
  {
    if i < k {
      ResultsAreFinal(run, i, k - 1, r);
      SingleFlightAlways(run, k - 1);
    }
  }

  /** A refresh is closed while it is in flight, so by one step only. */
  lemma ClosedOnce(run: Run, p: nat, q: nat, r: nat, a: Exchange, b: Exchange)
    requires run.Valid() && run.ClosesAt(p, r, a) && run.ClosesAt(q, r, b)
    ensures p == q && a == b
  {
    SingleFlightAlways(run, p);
    SingleFlightAlways(run, q);
    if p < q {
      ResultsAreFinal(run, p + 1, q, r);
    } else if q < p {
      ResultsAreFinal(run, q + 1, p, r);
    }
  }

  /** Some step from `i` up to `k` closed refresh `r` with `result`. */
  ghost predicate ClosedWithin(run: Run, i: nat, k: nat, r: nat, result: Exchange)
    requires run.Valid()
  {
    exists p: nat :: i <= p < k && run.ClosesAt(p, r, result)
  }

  lemma {:induction false} ClosedSince(run: Run, i: nat, k: nat, r: nat)
    requires run.Valid() && i <= k <= |run.labels| && Open(CacheAt(run, i), r) && !Open(CacheAt(run, k), r)
    ensures ClosedWithin(run, i, k, r, CacheAt(run, k).refreshes[r].result)
    decreases k
  {
    SingleFlightAlways(run, k - 1);
    if Open(CacheAt(run, k - 1), r) {
      assert run.ClosesAt(k - 1, r, CacheAt(run, k).refreshes[r].result);
    } else {
      ClosedSince(run, i, k - 1, r);
    }
  }

  /** A waiter that is not cancelled returns exactly the result its refresh was closed with. */
  lemma WaiterGetsTheResult(run: Run, k: nat)
    requires run.Valid() && k < |run.labels| && run.labels[k].Receive?
    ensures var c := run.labels[k].c;
            var w := run.states[k].callers[c];
            exists result :: ClosedWithin(run, 0, k, w.refresh, result)
                             && run.states[k + 1].callers[c] == Took(w.attempt, result)
  {
    var w := run.states[k].callers[run.labels[k].c];
    ClosedSince(run, 0, k, w.refresh);
  }

  // ---- where tokens come from ----

  /** `token` is the result of a refresh closed at a step from `i` up to `k`. */
  ghost predicate PublishedWithin(run: Run, i: nat, k: nat, token: Token)
    requires run.Valid()
  {
    exists r: nat :: ClosedWithin(run, i, k, r, Ok(token))
  }

  lemma Later(run: Run, i: nat, k: nat, token: Token)
    requires run.Valid() && PublishedWithin(run, i, k, token)
    ensures PublishedWithin(run, i, k + 1, token)
  {
    var r: nat :| ClosedWithin(run, i, k, r, Ok(token));
    assert ClosedWithin(run, i, k + 1, r, Ok(token));
  }

  lemma JustPublished(run: Run, i: nat, k: nat)
    requires run.Valid() && i <= k < |run.labels| && run.labels[k].LeaveSection?
    requires run.states[k].callers[run.labels[k].c].result.Ok?
    ensures PublishedWithin(run, i, k + 1, run.states[k].callers[run.labels[k].c].result.value)
  {
    var w := run.states[k].callers[run.labels[k].c];
    assert run.ClosesAt(k, w.refresh, Ok(w.result.value));
    assert ClosedWithin(run, i, k + 1, w.refresh, Ok(w.result.value));
  }

  /** Since step `i`, at which the cache was empty, the cached token can only have been published. */
  lemma {:induction false} CachedSince(run: Run, i: nat, k: nat)
    requires run.Valid() && i <= k <= |run.labels| && CacheAt(run, i).cached == NO_TOKEN
    ensures CacheAt(run, k).cached == NO_TOKEN || PublishedWithin(run, i, k, CacheAt(run, k).cached)
    decreases k
  {
    if i < k {
      CachedSince(run, i, k - 1);
      if CacheAt(run, k).cached == CacheAt(run, k - 1).cached {
        if CacheAt(run, k).cached != NO_TOKEN {
          Later(run, i, k - 1, CacheAt(run, k).cached);
        }
      } else if run.labels[k - 1].LeaveSection? {
        JustPublished(run, i, k - 1);
      }
    }
  }

  /** After anyone's Invalidate no caller finds the old token: what is found in the cache was published
      since. */
  lemma InvalidatedTokensAreGone(run: Run, i: nat, k: nat, c: Id)
    requires run.Valid() && run.DiscardsAt(i) && i < k < |run.labels| && run.labels[k] == EnterSection(c)
    requires run.states[k + 1].callers[c].Holding?
    ensures PublishedWithin(run, i + 1, k, run.states[k + 1].callers[c].token)
  {
    assert Enabled(run.states[i], run.labels[i]) && Enabled(run.states[k], run.labels[k]);
    CachedSince(run, i + 1, k);
  }

  /** What a caller whose current Token call began after step `i` owes to the exchanges closed since. */
  ghost predicate Sourced(run: Run, i: nat, k: nat, p: Caller)
    requires run.Valid() && i <= k <= |run.labels|
  {
    match p
    case Waiting(_, r) => Open(CacheAt(run, i), r)
    case Exchanging(_, r) => Open(CacheAt(run, i), r)
    case Publishing(_, r, _) => Open(CacheAt(run, i), r)
    case Holding(_, token) => PublishedWithin(run, i, k, token)
    case _ => true
  }

  lemma EnteredIsSourced(run: Run, i: nat, k: nat)
    requires run.Valid() && i <= k < |run.labels| && CacheAt(run, i).cached == NO_TOKEN
    requires run.labels[k].EnterSection?
    ensures Sourced(run, i, k + 1, run.states[k + 1].callers[run.labels[k].c])
  {
    var c, w := CacheAt(run, k), run.states[k].callers[run.labels[k].c];
    SingleFlightAlways(run, k);
    match Decide(c, w.now)
    case Hit(token) =>
      CachedSince(run, i, k);
      Later(run, i, k, token);
    case Wait(r) =>
      if r < |CacheAt(run, i).refreshes| {
        ResultsAreFinal(run, i, k, r);
      }
    case Lead(r) =>
      if r < |CacheAt(run, i).refreshes| {
        ResultsAreFinal(run, i, k, r);
      }
  }

  lemma ReceivedIsSourced(run: Run, i: nat, k: nat)
    requires run.Valid() && i <= k < |run.labels| && run.labels[k].Receive?
    requires Sourced(run, i, k, run.states[k].callers[run.labels[k].c])
    ensures Sourced(run, i, k + 1, run.states[k + 1].callers[run.labels[k].c])
  {
    var r := run.states[k].callers[run.labels[k].c].refresh;
    var result := CacheAt(run, k).refreshes[r].result;
    ClosedSince(run, i, k, r);
    if result.Ok? {
      assert ClosedWithin(run, i, k, r, Ok(result.value));
      Later(run, i, k, result.value);
    }
  }

  lemma SourcedStep(run: Run, i: nat, k: nat, c: Id)
    requires run.Valid() && i <= k < |run.labels| && CacheAt(run, i).cached == NO_TOKEN
    requires c in run.states[k].callers && Sourced(run, i, k, run.states[k].callers[c])
    ensures Sourced(run, i, k + 1, run.states[k + 1].callers[c])
  {
    var l, w := run.labels[k], run.states[k].callers[c];
    if l == DiscardElsewhere || l.c != c {
      if w.Holding? {
        Later(run, i, k, w.token);
      }
    } else if l.EnterSection? {
      EnteredIsSourced(run, i, k);
    } else if l.Receive? {
      ReceivedIsSourced(run, i, k);
    } else if l.LeaveSection? && w.result.Ok? {
      JustPublished(run, i, k);
    }
  }

  // ---- the retry ----

  /** Which callers have discarded the token: exactly those at the second attempt. */
  predicate SecondAttempt(p: Caller) {
    !p.Rejected? && !p.Finished? && p.attempt == 1
  }

  /** The caller's Discard at step `i` has happened, and its second Token call owes to exchanges
      closed after it. */
  ghost predicate RetriedAt(run: Run, i: nat, k: nat, c: Id)
    requires run.Valid() && k <= |run.labels| && c in run.states[k].callers
  {
    i < k && run.labels[i] == Discard(c) && Sourced(run, i + 1, k, run.states[k].callers[c])
  }

  lemma SecondAttemptBefore(run: Run, k: nat, c: Id)
    requires run.Valid() && 0 < k <= |run.labels| && c in run.states[k].callers
    requires SecondAttempt(run.states[k].callers[c]) && run.labels[k - 1] != Discard(c)
    ensures c in run.states[k - 1].callers && SecondAttempt(run.states[k - 1].callers[c])
  {
    assert Enabled(run.states[k - 1], run.labels[k - 1]);
  }

  lemma {:induction false} RetrySource(run: Run, k: nat, c: Id) returns (i: nat)
    requires run.Valid() && k <= |run.labels| && c in run.states[k].callers
    requires SecondAttempt(run.states[k].callers[c])
    ensures RetriedAt(run, i, k, c)
    decreases k
  {
    if run.labels[k - 1] == Discard(c) {
      i := k - 1;
    } else {
      SecondAttemptBefore(run, k, c);
      i := RetrySource(run, k - 1, c);
      SourcedStep(run, i + 1, k - 1, c);
    }
  }

  /** The token `c` is about to send again comes from refresh `r`, closed at step `p`, after the
      caller's own Invalidate at step `i`. */
  ghost predicate FreshRetry(run: Run, k: nat, c: Id, token: Token, i: nat, p: nat, r: nat)
    requires run.Valid()
  {
    i < p < k && k <= |run.labels| && run.labels[i] == Discard(c) && run.ClosesAt(p, r, Ok(token))
  }

  /** In every interleaving, the token of a retry came from an exchange that completed after the
      caller's Invalidate, whether it was found in the cache, waited for or exchanged by the caller. */
  lemma RetryTokenIsFresh(run: Run, k: nat, c: Id, token: Token)
    requires run.Valid() && k <= |run.labels| && c in run.states[k].callers
    requires run.states[k].callers[c] == Holding(1, token)
    ensures exists i: nat, p: nat, r: nat :: FreshRetry(run, k, c, token, i, p, r)
  {
    var i := RetrySource(run, k, c);
    var r: nat :| ClosedWithin(run, i + 1, k, r, Ok(token));
    var p: nat :| i + 1 <= p < k && run.ClosesAt(p, r, Ok(token));
    assert FreshRetry(run, k, c, token, i, p, r);
  }

  /** That exchange also started after the Invalidate, except when it was the one in flight then. */
  lemma RetryExchangeStart(run: Run, k: nat, c: Id, token: Token, i: nat, p: nat, r: nat)
    requires run.Valid() && FreshRetry(run, k, c, token, i, p, r)
    ensures r < |CacheAt(run, i).refreshes| <==> CacheAt(run, i).refreshing == Some(r)
  {
    SingleFlightAlways(run, i);
    SingleFlightAlways(run, p);
    if r < |CacheAt(run, i).refreshes| {
      ResultsAreFinal(run, i, p, r);
    }
  }

  /** The exchange of refresh `r` had returned `token` before step `i`. */
  ghost predicate IssuedBefore(run: Run, i: nat, r: nat, token: Token)
    requires run.Valid() && i <= |run.labels|
  {
    exists x: nat, d: Id ::
      && x < i && run.labels[x] == Exchanged(d, Ok(token)) && run.states[x].callers[d].refresh == r
  }

  /** At step `i` some caller holds the result of refresh `r` but has not entered Token's second section. */
  ghost predicate AwaitsPublication(run: Run, i: nat, r: nat, token: Token)
    requires run.Valid() && i <= |run.labels|
  {
    exists d: Id :: d in run.states[i].callers && PublishesNext(run.states[i].callers[d], r, token)
  }

  predicate PublishesNext(p: Caller, r: nat, token: Token) {
    p.Publishing? && p.refresh == r && p.result == Ok(token)
  }

  lemma {:induction false} PublishingWasExchanged(run: Run, n: nat, d: Id, r: nat, token: Token)
    requires run.Valid() && n <= |run.labels| && d in run.states[n].callers
    requires PublishesNext(run.states[n].callers[d], r, token)
    ensures IssuedBefore(run, n, r, token)
    decreases n
  {
    var l := run.labels[n - 1];
    if l == Exchanged(d, Ok(token)) && run.states[n - 1].callers[d].refresh == r {
    } else {
      PublishingWasExchanged(run, n - 1, d, r, token);
    }
  }

  /** A caller that has the result stays put until it closes the refresh. */
  lemma {:induction false} StaysUntilClosed(run: Run, x: nat, n: nat, d: Id, r: nat, token: Token)
    requires run.Valid() && x < n <= |run.labels| && run.labels[x] == Exchanged(d, Ok(token))
    requires run.states[x].callers[d].refresh == r && !ClosedWithin(run, x, n, r, Ok(token))
    ensures d in run.states[n].callers && PublishesNext(run.states[n].callers[d], r, token)
    decreases n
  {
    if n > x + 1 {
      assert !ClosedWithin(run, x, n - 1, r, Ok(token));
      StaysUntilClosed(run, x, n - 1, d, r, token);
      assert !run.ClosesAt(n - 1, r, Ok(token));
    }
  }

  /** The token of a retry was issued before the Invalidate exactly when at that moment its exchange had
      returned but its leader had not yet entered Token's second section. */
  lemma RetryTokenIssue(run: Run, k: nat, c: Id, token: Token, i: nat, p: nat, r: nat)
    requires run.Valid() && FreshRetry(run, k, c, token, i, p, r)
    ensures IssuedBefore(run, i, r, token) <==> AwaitsPublication(run, i, r, token)
  {
    if IssuedBefore(run, i, r, token) {
      var x: nat, d: Id :|
        x < i && run.labels[x] == Exchanged(d, Ok(token)) && run.states[x].callers[d].refresh == r;
      if ClosedWithin(run, x, i, r, Ok(token)) {
        var q: nat :| x <= q < i && run.ClosesAt(q, r, Ok(token));
        ClosedOnce(run, p, q, r, Ok(token), Ok(token));
        assert false;
      }
      StaysUntilClosed(run, x, i, d, r, token);
    }
    if d: Id :| d in run.states[i].callers && PublishesNext(run.states[i].callers[d], r, token) {
      PublishingWasExchanged(run, i, d, r, token);
    }
  }

  const SECONDS: int := 1_000_000_000
  const OLD: Token := Token("a", "Bearer", "", 300 * SECONDS)
  const ISSUED: Token := Token("b", "Bearer", "", 600 * SECONDS)

  /** `run` with one more step, which leads to `s`. */
  lemma Extend(run: Run, l: Label, s: System) returns (longer: Run)
    requires run.Valid() && Enabled(run.states[|run.labels|], l) && Step(run.states[|run.labels|], l) == s
    ensures longer.Valid() && longer.labels == run.labels + [l] && longer.states == run.states + [s]
  {
    longer := Run(run.states + [s], run.labels + [l]);
  }

  /** The first caller has exchanged a token and holds it. */
  lemma FirstExchange() returns (run: Run)
    ensures run.Valid() && |run.labels| == 5
    ensures run.states[5] == System(Cache(OLD, None, [Closed(Ok(OLD))]), map[0 := Holding(0, OLD)])
  {
    var first := Cache(NO_TOKEN, Some(0), [InFlight]);
    run := Run([INITIAL], []);
    run := Extend(run, Begin(0), System(EMPTY, map[0 := Asking(0)]));
    run := Extend(run, ReadClock(0, 0), System(EMPTY, map[0 := Locking(0, 0)]));
    run := Extend(run, EnterSection(0), System(first, map[0 := Exchanging(0, 0)]));
    run := Extend(run, Exchanged(0, Ok(OLD)), System(first, map[0 := Publishing(0, 0, Ok(OLD))]));
    run := Extend(run, LeaveSection(0),
                  System(Cache(OLD, None, [Closed(Ok(OLD))]), map[0 := Holding(0, OLD)]));
  }

  /** Then the second caller's exchange has returned ISSUED. */
  lemma SecondExchangeReturned() returns (run: Run)
    ensures run.Valid() && |run.labels| == 9 && run.labels[8] == Exchanged(1, Ok(ISSUED))
    ensures 1 in run.states[8].callers && run.states[8].callers[1] == Exchanging(0, 1)
    ensures run.states[9] == System(Cache(OLD, Some(1), [Closed(Ok(OLD)), InFlight]),
                                    map[0 := Holding(0, OLD), 1 := Publishing(0, 1, Ok(ISSUED))])
  {
    var holder := Holding(0, OLD);
    var second, third := Cache(OLD, None, [Closed(Ok(OLD))]), Cache(OLD, Some(1), [Closed(Ok(OLD)), InFlight]);
    run := FirstExchange();
    run := Extend(run, Begin(1), System(second, map[0 := holder, 1 := Asking(0)]));
    run := Extend(run, ReadClock(1, 250 * SECONDS), System(second, map[0 := holder, 1 := Locking(0, 250 * SECONDS)]));
    run := Extend(run, EnterSection(1), System(third, map[0 := holder, 1 := Exchanging(0, 1)]));
    run := Extend(run, Exchanged(1, Ok(ISSUED)), System(third, map[0 := holder, 1 := Publishing(0, 1, Ok(ISSUED))]));
  }

  /** Then the first caller is rejected and invalidates. */
  lemma FirstCallerInvalidates() returns (run: Run)
    ensures run.Valid() && |run.labels| == 11
    ensures run.labels[8] == Exchanged(1, Ok(ISSUED)) && run.labels[10] == Discard(0)
    ensures 1 in run.states[8].callers && run.states[8].callers[1] == Exchanging(0, 1)
    ensures |CacheAt(run, 10).refreshes| == 2
    ensures run.states[11] == System(Cache(NO_TOKEN, Some(1), [Closed(Ok(OLD)), InFlight]),
                                     map[0 := Asking(1), 1 := Publishing(0, 1, Ok(ISSUED))])
  {
    var leader := Publishing(0, 1, Ok(ISSUED));
    var third := Cache(OLD, Some(1), [Closed(Ok(OLD)), InFlight]);
    run := SecondExchangeReturned();
    run := Extend(run, Send(0, true), System(third, map[0 := Rejected, 1 := leader]));
    run := Extend(run, Discard(0), System(third.(cached := NO_TOKEN), map[0 := Asking(1), 1 := leader]));
  }

  /** Then it waits for that exchange. */
  lemma FirstCallerWaits() returns (run: Run)
    ensures run.Valid() && |run.labels| == 13
    ensures run.labels[8] == Exchanged(1, Ok(ISSUED)) && run.labels[10] == Discard(0)
    ensures 1 in run.states[8].callers && run.states[8].callers[1] == Exchanging(0, 1)
    ensures |CacheAt(run, 10).refreshes| == 2
    ensures run.states[13] == System(Cache(NO_TOKEN, Some(1), [Closed(Ok(OLD)), InFlight]),
                                     map[0 := Waiting(1, 1), 1 := Publishing(0, 1, Ok(ISSUED))])
  {
    var leader := Publishing(0, 1, Ok(ISSUED));
    var fourth := Cache(NO_TOKEN, Some(1), [Closed(Ok(OLD)), InFlight]);
    run := FirstCallerInvalidates();
    run := Extend(run, ReadClock(0, 251 * SECONDS), System(fourth, map[0 := Locking(1, 251 * SECONDS), 1 := leader]));
    run := Extend(run, EnterSection(0), System(fourth, map[0 := Waiting(1, 1), 1 := leader]));
  }

  /** "Completed" cannot be strengthened to "issued" or "started": the retry's token may have been handed
      out by its exchange before the Invalidate. */
  lemma RetryTokenMayBeIssuedBefore() returns (run: Run, i: nat, p: nat)
    ensures run.Valid() && FreshRetry(run, 15, 0, ISSUED, i, p, 1)
    ensures IssuedBefore(run, i, 1, ISSUED) && 1 < |CacheAt(run, i).refreshes|
    ensures 0 in run.states[15].callers && run.states[15].callers[0] == Holding(1, ISSUED)
  {
    run := FirstCallerWaits();
    var last := Cache(ISSUED, None, [Closed(Ok(OLD)), Closed(Ok(ISSUED))]);
    run := Extend(run, LeaveSection(1), System(last, map[0 := Waiting(1, 1), 1 := Holding(0, ISSUED)]));
    run := Extend(run, Receive(0), System(last, map[0 := Holding(1, ISSUED), 1 := Holding(0, ISSUED)]));
    i, p := 10, 13;
    assert run.labels[8] == Exchanged(1, Ok(ISSUED)) && run.states[8].callers[1].refresh == 1;
  }

  // ---- what a caller is seen to do ----

  datatype Action = Sent(rejected: bool) | Discarded

  function ActionOf(l: Label, c: Id): seq<Action> {
    match l
    case Send(d, rejected) => if d == c then [Sent(rejected)] else []
    case Discard(d) => if d == c then [Discarded] else []
    case _ => []
  }

  /** The sends and Invalidates of one caller, in order. */
  function Actions(labels: seq<Label>, c: Id): seq<Action> {
    if labels == [] then []
    else Actions(labels[..|labels| - 1], c) + ActionOf(labels[|labels| - 1], c)
  }

  /** What a caller standing at `p` has done. */
  predicate HasDone(p: Caller, done: seq<Action>) {
    match p
    case Rejected => done == [Sent(true)]
    case Finished => || done == [] || done == [Sent(false)] || done == [Sent(true), Discarded]
                     || (exists last :: done == [Sent(true), Discarded, Sent(last)])
    case _ => if p.attempt == 0 then done == [] else p.attempt == 1 && done == [Sent(true), Discarded]
  }

  lemma HasDoneStep(s: System, l: Label, c: Id, done: seq<Action>)
    requires Enabled(s, l) && (if c in s.callers then HasDone(s.callers[c], done) else done == [])
    ensures var t := Step(s, l);
            var now := done + ActionOf(l, c);
            if c in t.callers then HasDone(t.callers[c], now) else now == []
  {
    var now := done + ActionOf(l, c);
    assert ActionOf(l, c) == [] ==> now == done;
    match l
    case Send(d, rejected) =>
      assert d == c && done == [] ==> now == [Sent(rejected)];
      assert d == c && done == [Sent(true), Discarded] ==> now == [Sent(true), Discarded, Sent(rejected)];
    case _ =>
  }

  /** Every caller sends at most twice, the second time only after an unauthenticated reply and
      exactly one Invalidate of its own. */
  lemma {:induction false} CallersFollowTheLoop(run: Run, k: nat, c: Id)
    requires run.Valid() && k <= |run.labels|
    ensures var s, done := run.states[k], Actions(run.labels[..k], c);
            if c in s.callers then HasDone(s.callers[c], done) else done == []
    decreases k
  {
    if k > 0 {
      CallersFollowTheLoop(run, k - 1, c);
      assert run.labels[..k][..k - 1] == run.labels[..k - 1];
      HasDoneStep(run.states[k - 1], run.labels[k - 1], c, Actions(run.labels[..k - 1], c));
    }
  }

  // ---- exchange accounting ----

  /** Refresh `r - 1` was closed at step `p` with `result`, nothing was started since, and up to step
      `k` the cached token is that result unless the exchange failed or an Invalidate intervened. */
  ghost predicate LastClosed(run: Run, k: nat, p: nat, result: Exchange)
    requires run.Valid() && k <= |run.labels|
  {
    && CacheAt(run, k).refreshes != []
    && p < k && run.ClosesAt(p, |CacheAt(run, k).refreshes| - 1, result)
    && (forall j: nat, q: nat | j < k && run.StartsAt(j, q) :: j < p)
    && (result.Err? || CacheAt(run, k).cached == result.value || exists i: nat :: p < i < k && run.DiscardsAt(i))
  }

  lemma {:induction false} FindLastClosed(run: Run, k: nat) returns (p: nat, result: Exchange)
    requires run.Valid() && k <= |run.labels|
    requires CacheAt(run, k).refreshes != [] && CacheAt(run, k).refreshing.None?
    ensures LastClosed(run, k, p, result)
    decreases k
  {
    SingleFlightAlways(run, k - 1);
    var l := run.labels[k - 1];
    if l.LeaveSection? {
      var w := run.states[k - 1].callers[l.c];
      p, result := k - 1, w.result;
      assert run.ClosesAt(p, w.refresh, result);
    } else {
      p, result := FindLastClosed(run, k - 1);
      assert run.DiscardsAt(k - 1) || CacheAt(run, k).cached == CacheAt(run, k - 1).cached;
    }
  }

  /** What caused the exchange that step `k` starts, given the step `p` and the result that closed the
      one before it. */
  ghost predicate Caused(run: Run, k: nat, p: nat, result: Exchange)
    requires run.Valid() && k < |run.labels| && run.labels[k].EnterSection? && Enabled(run.states[k], run.labels[k])
  {
    || result.Err?
    || (exists i: nat :: p < i < k && run.DiscardsAt(i))
    || result.value.accessToken == ""
    || result.value.expiresAt - run.states[k].callers[run.labels[k].c].now <= 60_000_000_000
  }

  /** Every exchange but the first follows the end of the one before it, and has a cause of its own in
      between: that one failed, an Invalidate happened since, or its token was empty or within a minute of
      its expiry at the starter's reading of the clock.  No other exchange starts in between, so no two
      share a cause. */
  lemma EveryExchangeHasACause(run: Run, k: nat, r: nat) returns (p: nat, result: Exchange)
    requires run.Valid() && run.StartsAt(k, r) && r > 0
    ensures p < k && run.ClosesAt(p, r - 1, result)
    ensures forall j: nat, q: nat | j < k && run.StartsAt(j, q) :: j < p
    ensures Caused(run, k, p, result)
  {
    p, result := FindLastClosed(run, k);
  }
}
