/** The reconnect loop of the Snake client (`_ws_connect`): how each way a
    gateway connection can end is turned into "reconnect now", "sleep 5 then
    reconnect", "return" or "raise", and how the session parameters handed to
    the next connection attempt evolve. The connection itself is opaque: each
    attempt is described by how `ws.run()` ended and by what the client could
    observe at that moment. */
module Gateway {
  import opened Base

  // Gateway close codes the loop distinguishes.
  const NORMAL_CLOSURE: int := 1000
  const SHARDING_REQUIRED: int := 4011
  const INVALID_INTENTS: int := 4013
  const DISALLOWED_INTENTS: int := 4014

  /** The errno values treated as "connection reset by peer". */
  const RESET_ERRNOS: set<int> := {54, 10054}

  /** The resumable part of the `params` record passed to every connection attempt. */
  datatype Params = Params(resume: bool, sessionId: Option<string>, sequence: Option<nat>)

  /** The record the loop starts from, and the one every fresh restart resets to. */
  const Fresh: Params := Params(false, None, None)

  /** How one connection attempt ended. */
  datatype RunEnd =
    | Restart(resume: bool)   // WebSocketRestart, an internally requested restart
    | Closed(code: int)       // WebSocketClosed with its close code
    | OsError(errno: int)     // OSError with its errno
    | TransportError          // GatewayNotFound, aiohttp.ClientError, asyncio.TimeoutError
    | Unexpected              // any other Exception
    | Returned                // ws.run() returned normally

  /** One connection attempt: how it ended, whether `ws` held a websocket
      when the handler ran (it is MISSING until a `connect` has returned, on
      this attempt or an earlier one), the session id and sequence that
      websocket held, and whether the client was ready. */
  datatype Attempt = Attempt(end: RunEnd, hasWs: bool, sessionId: Option<string>, sequence: Option<nat>, ready: bool)

  /** The errors that leave the loop. `MissingWebsocket` is the AttributeError
      raised by reading `session_id` of the MISSING sentinel. */
  datatype Fatal = ShardingRequired | InvalidIntents | DisallowedIntents | Reraised(code: int) | MissingWebsocket

  /** The ends whose handler resumes, reading the websocket's session id and sequence. */
  predicate ReadsSession(a: Attempt) {
    || a.end == Restart(true)
    || (a.end == Closed(NORMAL_CLOSURE) && a.ready)
    || (a.end.OsError? && a.end.errno in RESET_ERRNOS)
  }

  datatype Action = Reconnect | SleepThenReconnect | Exit | Raise(error: Fatal)

  /** What the loop does after one attempt: the action, the parameters of the
      next attempt, and whether a Disconnect event was dispatched. */
  datatype Decision = Decision(action: Action, next: Params, disconnect: bool)

  predicate Continues(a: Action) {
    a.Reconnect? || a.SleepThenReconnect?
  }

  /** The parameters of a resumed session: the websocket's session id and sequence. */
  function Resumed(a: Attempt): Params {
    Params(true, a.sessionId, a.sequence)
  }

  /** `params.update(resume=True, session_id=self.ws.session_id, ...)` and `continue`,
      after Disconnect was dispatched. */
  function Resume(p: Params, a: Attempt): Decision {
    if a.hasWs then Decision(Reconnect, Resumed(a), true)
    else Decision(Raise(MissingWebsocket), p, true)
  }

  /** The body of one loop iteration after `ws.run()` ended. */
  function Decide(p: Params, a: Attempt): (d: Decision)
    // every exceptional end dispatches Disconnect; a normal return does not
    ensures d.disconnect <==> !a.end.Returned?
    // an immediate reconnect always resumes the session the websocket held
    ensures d.action.Reconnect? ==> d.next == Resumed(a)
    ensures d.action.Reconnect? <==> ReadsSession(a) && a.hasWs
    // resuming before any websocket was connected raises
    ensures ReadsSession(a) && !a.hasWs ==> d.action == Raise(MissingWebsocket)
    // a sleep precedes every fresh start; a normal return keeps the parameters
    ensures d.action.SleepThenReconnect? ==> d.next == (if a.end.Returned? then p else Fresh)
    // a close never sleeps: it resumes, returns or raises
    ensures a.end.Closed? ==> !d.action.SleepThenReconnect?
    ensures d.action.Exit? <==> a.end == Closed(NORMAL_CLOSURE) && !a.ready
    ensures d.action.Raise? <==>
      (a.end.Closed? && a.end.code != NORMAL_CLOSURE) || (ReadsSession(a) && !a.hasWs)
    ensures a.end == Closed(SHARDING_REQUIRED) ==> d.action == Raise(ShardingRequired)
    ensures a.end == Closed(INVALID_INTENTS) ==> d.action == Raise(InvalidIntents)
    ensures a.end == Closed(DISALLOWED_INTENTS) ==> d.action == Raise(DisallowedIntents)
    ensures d.action.Raise? && d.action.error.Reraised? ==>
      a.end == Closed(d.action.error.code) &&
      d.action.error.code !in {NORMAL_CLOSURE, SHARDING_REQUIRED, INVALID_INTENTS, DISALLOWED_INTENTS}
  {
    match a.end
    case Restart(resume) =>
      if resume then Resume(p, a)
      else Decision(SleepThenReconnect, Fresh, true)
    case Closed(code) =>
      if code == NORMAL_CLOSURE then
        if a.ready then Resume(p, a)
        else Decision(Exit, p, true)
      else if code == SHARDING_REQUIRED then Decision(Raise(ShardingRequired), p, true)
      else if code == INVALID_INTENTS then Decision(Raise(InvalidIntents), p, true)
      else if code == DISALLOWED_INTENTS then Decision(Raise(DisallowedIntents), p, true)
      else Decision(Raise(Reraised(code)), p, true)
    case OsError(errno) =>
      if errno in RESET_ERRNOS then Resume(p, a)
      else Decision(SleepThenReconnect, Fresh, true)
    case TransportError => Decision(SleepThenReconnect, Fresh, true)
    case Unexpected => Decision(SleepThenReconnect, Fresh, true)
    case Returned => Decision(SleepThenReconnect, p, false)
  }

  datatype LoopEnd = Exited | Raised(error: Fatal) | AttemptsExhausted

  /** What the loop did: the parameters of each connection attempt, the
      decision taken after each, and how the loop ended. */
  datatype LoopResult = LoopResult(connects: seq<Params>, decisions: seq<Decision>, end: LoopEnd)

  /** `r` is what the loop does when the connection attempts end as `attempts`
      say, starting from `p`. The loop stops at the first decision that does not
      continue; `AttemptsExhausted` only says that the given attempts ran out. */
  ghost predicate IsRunOf(attempts: seq<Attempt>, p: Params, r: LoopResult) {
    && |r.connects| == |r.decisions| <= |attempts|
    && (|r.connects| > 0 ==> r.connects[0] == p)
    && (forall i :: 0 <= i < |r.connects| ==> r.decisions[i] == Decide(r.connects[i], attempts[i]))
    && (forall i :: 0 <= i < |r.connects| - 1 ==>
          Continues(r.decisions[i].action) && r.connects[i + 1] == r.decisions[i].next)
    && (match r.end
        case AttemptsExhausted =>
          |r.connects| == |attempts| && forall i :: 0 <= i < |r.connects| ==> Continues(r.decisions[i].action)
        case Exited =>
          |r.connects| > 0 && r.decisions[|r.connects| - 1].action == Exit
        case Raised(e) =>
          |r.connects| > 0 && r.decisions[|r.connects| - 1].action == Raise(e))
  }

  /** The loop so far: `connects` and `decisions` are its first attempts,
      starting from `p`, and each decision continued the loop with the
      parameters the next attempt used. */
  ghost predicate Continued(attempts: seq<Attempt>, p: Params, connects: seq<Params>, decisions: seq<Decision>) {
    && |connects| == |decisions| <= |attempts|
    && (|connects| > 0 ==> connects[0] == p)
    && (forall i :: 0 <= i < |connects| ==> decisions[i] == Decide(connects[i], attempts[i]))
    && (forall i :: 0 <= i < |connects| ==> Continues(decisions[i].action))
    && (forall i :: 0 <= i < |connects| - 1 ==> connects[i + 1] == decisions[i].next)
  }

  /** The parameters of the next attempt of a loop that has gone on so far. */
  function NextParams(p: Params, decisions: seq<Decision>): Params {
    if decisions == [] then p else decisions[|decisions| - 1].next
  }

  /** One more attempt whose decision continues the loop. */
  lemma ContinuedStep(attempts: seq<Attempt>, p: Params, connects: seq<Params>, decisions: seq<Decision>)
    requires Continued(attempts, p, connects, decisions) && |connects| < |attempts|
    requires Continues(Decide(NextParams(p, decisions), attempts[|connects|]).action)
    ensures var q := NextParams(p, decisions);
      Continued(attempts, p, connects + [q], decisions + [Decide(q, attempts[|connects|])])
  {
  }

  /** The loop ends at an attempt whose decision exits or raises. */
  lemma StoppedRun(attempts: seq<Attempt>, p: Params, connects: seq<Params>, decisions: seq<Decision>, end: LoopEnd)
    requires Continued(attempts, p, connects, decisions) && |connects| < |attempts|
    requires var d := Decide(NextParams(p, decisions), attempts[|connects|]);
      (end == Exited && d.action == Exit) || (end.Raised? && d.action == Raise(end.error))
    ensures var q := NextParams(p, decisions);
      IsRunOf(attempts, p, LoopResult(connects + [q], decisions + [Decide(q, attempts[|connects|])], end))
  {
  }

  /** `_ws_connect`. `closed` is the client's `_closed` flag, which nothing in
      the client writes, so it is the same on every iteration. */
  method WsConnect(closed: bool, attempts: seq<Attempt>) returns (r: LoopResult)
    ensures closed ==> r == LoopResult([], [], Exited)
    ensures !closed ==> IsRunOf(attempts, Fresh, r)
  {
    if closed {
      return LoopResult([], [], Exited);
    }
    var params := Fresh;
    var connects: seq<Params> := [];
    var decisions: seq<Decision> := [];
    var i := 0;
    while i < |attempts|
      invariant i == |connects| && Continued(attempts, Fresh, connects, decisions)
      invariant params == NextParams(Fresh, decisions)
    {
      var d := Decide(params, attempts[i]);
      match d.action {
        case Exit =>
          StoppedRun(attempts, Fresh, connects, decisions, Exited);
          return LoopResult(connects + [params], decisions + [d], Exited);
        case Raise(e) =>
          StoppedRun(attempts, Fresh, connects, decisions, Raised(e));
          return LoopResult(connects + [params], decisions + [d], Raised(e));
        case Reconnect =>
          // `continue`: straight to the next attempt
        case SleepThenReconnect =>
          // `await asyncio.sleep(5)` before the next attempt
      }
      ContinuedStep(attempts, Fresh, connects, decisions);
      connects := connects + [params];
      decisions := decisions + [d];
      params := d.next;
      i := i + 1;
    }
    return LoopResult(connects, decisions, AttemptsExhausted);
  }
}

/** Properties of the reconnect loop, stated over every run `IsRunOf` admits. */
module GatewayProperties {
  import opened Base
  import opened Gateway

  /** A run is determined by the attempts: `IsRunOf` is a complete description of the loop. */
  lemma {:induction false} RunIsUnique(attempts: seq<Attempt>, p: Params, r1: LoopResult, r2: LoopResult)
    requires IsRunOf(attempts, p, r1) && IsRunOf(attempts, p, r2)
    ensures r1 == r2
  {
    var n := if |r1.connects| < |r2.connects| then |r1.connects| else |r2.connects|;
    SamePrefix(attempts, p, r1, r2, n);
    assert |r1.connects| == |r2.connects|;
    assert r1.connects == r2.connects;
    assert r1.decisions == r2.decisions;
  }

  /** Two runs of the same attempts agree on their first `n` connections. */
  lemma {:induction false} SamePrefix(attempts: seq<Attempt>, p: Params, r1: LoopResult, r2: LoopResult, n: nat)
    requires IsRunOf(attempts, p, r1) && IsRunOf(attempts, p, r2)
    requires n <= |r1.connects| && n <= |r2.connects|
    ensures forall i :: 0 <= i < n ==> r1.connects[i] == r2.connects[i] && r1.decisions[i] == r2.decisions[i]
  {
    if n > 0 {
      SamePrefix(attempts, p, r1, r2, n - 1);
      if n > 1 {
        assert r1.connects[n - 1] == r1.decisions[n - 2].next;
        assert r2.connects[n - 1] == r2.decisions[n - 2].next;
      }
    }
  }

  /** Closing with 4011, 4013, 4014 or any other code but 1000 ends the loop
      at that attempt with an error: no further connection is attempted. */
  lemma FatalCloseStops(attempts: seq<Attempt>, p: Params, r: LoopResult, k: nat)
    requires IsRunOf(attempts, p, r)
    requires k < |r.connects| && attempts[k].end.Closed? && attempts[k].end.code != NORMAL_CLOSURE
    ensures |r.connects| == k + 1 && r.end.Raised?
    ensures attempts[k].end.code == SHARDING_REQUIRED ==> r.end == Raised(ShardingRequired)
    ensures attempts[k].end.code == INVALID_INTENTS ==> r.end == Raised(InvalidIntents)
    ensures attempts[k].end.code == DISALLOWED_INTENTS ==> r.end == Raised(DisallowedIntents)
  {
    assert r.decisions[k] == Decide(r.connects[k], attempts[k]);
  }

  /** A clean close before readiness was reached ends the loop without an error. */
  lemma CleanCloseBeforeReadyReturns(attempts: seq<Attempt>, p: Params, r: LoopResult, k: nat)
    requires IsRunOf(attempts, p, r)
    requires k < |r.connects| && attempts[k].end == Closed(NORMAL_CLOSURE) && !attempts[k].ready
    ensures |r.connects| == k + 1 && r.end == Exited
  {
    assert r.decisions[k] == Decide(r.connects[k], attempts[k]);
  }

  /** A clean close after readiness dispatches Disconnect and reconnects at
      once, resuming with the websocket's session id and sequence. */
  lemma ResumeAfterCleanClose(attempts: seq<Attempt>, p: Params, r: LoopResult, k: nat)
    requires IsRunOf(attempts, p, r)
    requires k < |r.connects| && attempts[k].end == Closed(NORMAL_CLOSURE) && attempts[k].ready
    requires attempts[k].hasWs && k + 1 < |attempts|
    ensures k + 1 < |r.connects|
    ensures r.decisions[k] == Decision(Reconnect, Resumed(attempts[k]), true)
    ensures r.connects[k + 1] == Params(true, attempts[k].sessionId, attempts[k].sequence)
  {
    assert r.decisions[k] == Decide(r.connects[k], attempts[k]);
    if |r.connects| == k + 1 {
      match r.end {
        case AttemptsExhausted =>
        case Exited =>
        case Raised(_) =>
      }
    }
  }

  /** A resuming end before any websocket was connected (a reset `connect`
      on the very first attempt, say) ends the loop with the AttributeError. */
  lemma ResumeWithoutWebsocketRaises(attempts: seq<Attempt>, p: Params, r: LoopResult, k: nat)
    requires IsRunOf(attempts, p, r)
    requires k < |r.connects| && ReadsSession(attempts[k]) && !attempts[k].hasWs
    ensures |r.connects| == k + 1 && r.end == Raised(MissingWebsocket)
  {
    assert r.decisions[k] == Decide(r.connects[k], attempts[k]);
  }

  /** Every connection attempt after the first either starts afresh, resumes
      the session the previous websocket held, or repeats the previous
      parameters because the previous run returned normally. */
  lemma ConnectShapes(attempts: seq<Attempt>, p: Params, r: LoopResult, i: nat)
    requires IsRunOf(attempts, p, r)
    requires 0 < i < |r.connects|
    ensures || r.connects[i] == Fresh
            || r.connects[i] == Resumed(attempts[i - 1])
            || (r.connects[i] == r.connects[i - 1] && attempts[i - 1].end.Returned?)
  {
    assert r.decisions[i - 1] == Decide(r.connects[i - 1], attempts[i - 1]);
  }

  /** A connection only ever resumes with a session id and sequence that some
      earlier websocket held. */
  lemma {:induction false} ResumeUsesObservedSession(attempts: seq<Attempt>, r: LoopResult, i: nat)
    requires IsRunOf(attempts, Fresh, r)
    requires i < |r.connects| && r.connects[i].resume
    ensures exists j :: 0 <= j < i && r.connects[i] == Resumed(attempts[j])
  {
    if i > 0 {
      ConnectShapes(attempts, Fresh, r, i);
      if r.connects[i] == Resumed(attempts[i - 1]) {
      } else {
        ResumeUsesObservedSession(attempts, r, i - 1);
        var j :| 0 <= j < i - 1 && r.connects[i - 1] == Resumed(attempts[j]);
        assert r.connects[i] == Resumed(attempts[j]);
      }
    }
  }
}
