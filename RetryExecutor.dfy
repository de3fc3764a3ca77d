/**
 * `run_transaction(conn, op, max_retries)`: inside `with conn:` it calls
 * `op(conn)` for `retry` in `1..max_retries`; a `SerializationFailure`
 * is followed by `conn.rollback()` and a sleep of
 * `2**retry * 0.1 * (random.random() + 0.5)` seconds before the next try,
 * any other `psycopg2.Error` is re-raised at once, and when every try
 * fails with a `SerializationFailure` a `ValueError` is raised.
 *
 * The outcome of the `k`-th call of `op` is the parameter `op(k)`, the
 * value `random.random()` gives after the `k`-th failure is `jitter(k)`,
 * and the calls, rollbacks, sleeps and the exit from `with conn:` are
 * recorded as events.
 */
module RetryExecutor {

  /** An exception `op` can raise. */
  datatype Exception =
    | SerializationFailure       // psycopg2.errors.SerializationFailure (SQLSTATE 40001)
    | DatabaseError(code: string) // any other psycopg2.Error
    | OtherError(name: string)    // an exception that is not a psycopg2.Error

  /** How one call of `op` ends. */
  datatype Outcome = Completed | Raised(error: Exception)

  /** The `except` clause that catches an exception, if any. */
  datatype Clause = RetryClause | ReraiseClause | NoClause

  /** What `run_transaction` ends with. */
  datatype TxResult =
    | Success                    // `op` completed: `return`
    | Propagated(error: Exception) // the exception leaves `run_transaction` unchanged
    | RetriesExhausted(maxRetries: int) // `ValueError(f"... after {max_retries} retries")`

  /** What `run_transaction` does, in order. */
  datatype Event =
    | Invoke(attempt: nat)   // `op(conn)` for `retry == attempt`
    | Rollback               // `conn.rollback()`
    | Sleep(seconds: real)   // `time.sleep(sleep_ms)`
    | ExitCommit             // `with conn:` left normally: the transaction is committed
    | ExitRollback           // `with conn:` left by an exception: the transaction is rolled back

  datatype Trace = Trace(result: TxResult, events: seq<Event>)

  predicate IsPsycopgError(e: Exception)
  {
    e.SerializationFailure? || e.DatabaseError?
  }

  /**
   * The clauses are tried in order, and `SerializationFailure` comes
   * first, so although it is a `psycopg2.Error` it is retried.
   */
  function ClauseFor(e: Exception): (c: Clause)
    ensures c == RetryClause <==> e == SerializationFailure
    ensures c == ReraiseClause <==> IsPsycopgError(e) && e != SerializationFailure
    ensures c == NoClause <==> !IsPsycopgError(e)
  {
    if e.SerializationFailure? then RetryClause
    else if e.DatabaseError? then ReraiseClause
    else NoClause
  }

  function Pow2(k: nat): (p: nat)
    ensures p >= 1
  {
    if k == 0 then 1 else 2 * Pow2(k - 1)
  }

  /** `(2**retry) * 0.1 * (r + 0.5)` seconds. */
  function Backoff(retry: nat, r: real): real
  {
    Pow2(retry) as real * 0.1 * (r + 0.5)
  }

  /** The events of a failed attempt: the call, the rollback and the sleep. */
  function RetryEvents(k: nat, jitter: nat -> real): seq<Event>
  {
    [Invoke(k), Rollback, Sleep(Backoff(k, jitter(k)))]
  }

  /** The loop from `retry == k` on. */
  function Attempts(op: nat -> Outcome, jitter: nat -> real, maxRetries: int, k: nat): Trace
    requires k >= 1
    decreases if k <= maxRetries then maxRetries - k + 1 else 0
  {
    if k > maxRetries then Trace(RetriesExhausted(maxRetries), [])
    else match op(k)
      case Completed => Trace(Success, [Invoke(k)])
      case Raised(e) =>
        if ClauseFor(e) == RetryClause then
          var rest := Attempts(op, jitter, maxRetries, k + 1);
          Trace(rest.result, RetryEvents(k, jitter) + rest.events)
        else Trace(Propagated(e), [Invoke(k)])
  }

  /** The whole call: the loop, then the exit from `with conn:`. */
  function Transaction(op: nat -> Outcome, jitter: nat -> real, maxRetries: int): Trace
  {
    var t := Attempts(op, jitter, maxRetries, 1);
    Trace(t.result, t.events + [if t.result.Success? then ExitCommit else ExitRollback])
  }

  /** `run_transaction(conn, op, max_retries)`. */
  method RunTransaction(op: nat -> Outcome, jitter: nat -> real, maxRetries: int := 3)
    returns (result: TxResult, events: seq<Event>)
    ensures Trace(result, events) == Transaction(op, jitter, maxRetries)
  {
    events := [];
    var retry := 1;
    while retry <= maxRetries
      invariant 1 <= retry
      invariant Attempts(op, jitter, maxRetries, 1) == Resume(events, Attempts(op, jitter, maxRetries, retry))
      decreases maxRetries - retry
    {
      ghost var before := events;
      events := events + [Invoke(retry)];
      var outcome := op(retry);
      if outcome.Completed? {
        events := events + [ExitCommit];
        return Success, events;
      }
      var e := outcome.error;
      match ClauseFor(e) {
        case RetryClause =>
          events := events + [Rollback];
          var seconds := Backoff(retry, jitter(retry));
          events := events + [Sleep(seconds)];
          assert events == before + RetryEvents(retry, jitter);
          ResumeRetry(before, op, jitter, maxRetries, retry);
        case ReraiseClause =>
          events := events + [ExitRollback];
          return Propagated(e), events;
        case NoClause =>
          events := events + [ExitRollback];
          return Propagated(e), events;
      }
      retry := retry + 1;
    }
    events := events + [ExitRollback];
    return RetriesExhausted(maxRetries), events;
  }

  /** The events `done` so far followed by those of the rest of the loop. */
  function Resume(done: seq<Event>, rest: Trace): Trace
  {
    Trace(rest.result, done + rest.events)
  }

  lemma ResumeRetry(done: seq<Event>, op: nat -> Outcome, jitter: nat -> real, maxRetries: int, k: nat)
    requires 1 <= k <= maxRetries && op(k) == Raised(SerializationFailure)
    ensures Resume(done, Attempts(op, jitter, maxRetries, k))
      == Resume(done + RetryEvents(k, jitter), Attempts(op, jitter, maxRetries, k + 1))
  {
    var rest := Attempts(op, jitter, maxRetries, k + 1);
    assert done + (RetryEvents(k, jitter) + rest.events) == done + RetryEvents(k, jitter) + rest.events;
  }

  /**
   * The first attempt from `k` on that does not fail with a
   * `SerializationFailure`, or the attempt after the budget when every
   * remaining one does.
   */
  function FirstStop(op: nat -> Outcome, maxRetries: int, k: nat): (n: nat)
    requires k >= 1
    ensures k <= n
    ensures forall j :: k <= j < n ==> j <= maxRetries && op(j) == Raised(SerializationFailure)
    ensures n <= maxRetries ==> op(n) != Raised(SerializationFailure)
    ensures n > maxRetries ==> n == k || n == maxRetries + 1
    decreases if k <= maxRetries then maxRetries - k + 1 else 0
  {
    if k > maxRetries || op(k) != Raised(SerializationFailure) then k
    else FirstStop(op, maxRetries, k + 1)
  }

  /** The events of the failed attempts `k`, ..., `n - 1`. */
  function Retries(k: nat, n: nat, jitter: nat -> real): (es: seq<Event>)
    requires k <= n
    ensures |es| == 3 * (n - k)
    decreases n - k
  {
    if k == n then [] else RetryEvents(k, jitter) + Retries(k + 1, n, jitter)
  }

  /** How the loop ends when attempt `n` is the first that is not retried. */
  function StopResult(op: nat -> Outcome, maxRetries: int, n: nat): TxResult
  {
    if n > maxRetries then RetriesExhausted(maxRetries)
    else if op(n).Completed? then Success
    else Propagated(op(n).error)
  }

  /**
   * The loop from attempt `k` on: the failed attempts, each a call, a
   * rollback and a sleep, then the call that stops it, if the budget
   * allows one.
   */
  lemma {:induction false} AttemptsShape(op: nat -> Outcome, jitter: nat -> real, maxRetries: int, k: nat)
    requires k >= 1
    ensures var n := FirstStop(op, maxRetries, k);
      Attempts(op, jitter, maxRetries, k)
      == Trace(StopResult(op, maxRetries, n), Retries(k, n, jitter) + (if n <= maxRetries then [Invoke(n)] else []))
    decreases if k <= maxRetries then maxRetries - k + 1 else 0
  {
    if k <= maxRetries && op(k) == Raised(SerializationFailure) {
      AttemptsShape(op, jitter, maxRetries, k + 1);
      var n := FirstStop(op, maxRetries, k);
      var stop: seq<Event> := if n <= maxRetries then [Invoke(n)] else [];
      assert RetryEvents(k, jitter) + (Retries(k + 1, n, jitter) + stop) == Retries(k, n, jitter) + stop;
    }
  }

  /**
   * The whole call: with `n` the first attempt that is not retried, the
   * events are the `n - 1` failed attempts, the `n`-th call when the
   * budget allows it, and the exit from `with conn:`, which commits
   * exactly when `op` completed.
   */
  lemma TransactionShape(op: nat -> Outcome, jitter: nat -> real, maxRetries: int)
    ensures var n := FirstStop(op, maxRetries, 1);
      var t := Transaction(op, jitter, maxRetries);
      t.result == StopResult(op, maxRetries, n)
      && t.events == Retries(1, n, jitter) + (if n <= maxRetries then [Invoke(n)] else [])
        + [if t.result.Success? then ExitCommit else ExitRollback]
  {
    AttemptsShape(op, jitter, maxRetries, 1);
  }

  /**
   * `run_transaction` succeeds exactly when some attempt within the budget
   * completes after only `SerializationFailure`s; it then called `op` that
   * many times.
   */
  lemma SuccessIff(op: nat -> Outcome, jitter: nat -> real, maxRetries: int, n: nat)
    requires 1 <= n
    requires forall j :: 1 <= j < n ==> op(j) == Raised(SerializationFailure)
    requires n <= maxRetries ==> op(n) != Raised(SerializationFailure)
    ensures Transaction(op, jitter, maxRetries).result == Success <==> n <= maxRetries && op(n) == Completed
    ensures n <= maxRetries && op(n) == Completed ==>
      Count(Transaction(op, jitter, maxRetries).events, IsInvoke) == n
  {
    TransactionShape(op, jitter, maxRetries);
    StopIsFirst(op, maxRetries, n);
    if n <= maxRetries && op(n) == Completed {
      TransactionCounts(op, jitter, maxRetries);
    }
  }

  /**
   * An exception other than `SerializationFailure` leaves `run_transaction`
   * unchanged, at the first attempt that raises it, without a rollback of
   * its own.
   */
  lemma PropagatedIff(op: nat -> Outcome, jitter: nat -> real, maxRetries: int, n: nat, e: Exception)
    requires 1 <= n
    requires forall j :: 1 <= j < n ==> op(j) == Raised(SerializationFailure)
    requires n <= maxRetries ==> op(n) != Raised(SerializationFailure)
    ensures Transaction(op, jitter, maxRetries).result == Propagated(e) <==>
      n <= maxRetries && op(n) == Raised(e) && e != SerializationFailure
    ensures n <= maxRetries && op(n) == Raised(e) && e != SerializationFailure ==>
      Count(Transaction(op, jitter, maxRetries).events, IsInvoke) == n
      && Count(Transaction(op, jitter, maxRetries).events, IsRollback) == n - 1
  {
    TransactionShape(op, jitter, maxRetries);
    StopIsFirst(op, maxRetries, n);
    if n <= maxRetries && op(n) == Raised(e) && e != SerializationFailure {
      TransactionCounts(op, jitter, maxRetries);
    }
  }

  /**
   * `ValueError` is raised exactly when every attempt of the budget fails
   * with a `SerializationFailure` (vacuously when `max_retries < 1`); then
   * `op` was called, and rollback and sleep performed, `max_retries` times.
   */
  lemma ExhaustedIff(op: nat -> Outcome, jitter: nat -> real, maxRetries: int)
    ensures Transaction(op, jitter, maxRetries).result.RetriesExhausted? <==>
      forall j :: 1 <= j <= maxRetries ==> op(j) == Raised(SerializationFailure)
    ensures Transaction(op, jitter, maxRetries).result.RetriesExhausted? ==>
      var events := Transaction(op, jitter, maxRetries).events;
      var budget := if maxRetries < 1 then 0 else maxRetries;
      Count(events, IsInvoke) == budget && Count(events, IsRollback) == budget
      && Count(events, IsSleep) == budget
  {
    TransactionShape(op, jitter, maxRetries);
    TransactionCounts(op, jitter, maxRetries);
    var n := FirstStop(op, maxRetries, 1);
    if n <= maxRetries {
      assert op(n) != Raised(SerializationFailure);
    }
  }

  /** With no budget, `op` is never called and `ValueError` is raised. */
  lemma NoBudget(op: nat -> Outcome, jitter: nat -> real, maxRetries: int)
    requires maxRetries < 1
    ensures Transaction(op, jitter, maxRetries) == Trace(RetriesExhausted(maxRetries), [ExitRollback])
  {
    AttemptsShape(op, jitter, maxRetries, 1);
  }

  /** `op` is called at most `max_retries` times, and the call ends the transaction exactly once. */
  lemma InvocationsBounded(op: nat -> Outcome, jitter: nat -> real, maxRetries: int)
    ensures Count(Transaction(op, jitter, maxRetries).events, IsInvoke) <= if maxRetries < 1 then 0 else maxRetries
    ensures Count(Transaction(op, jitter, maxRetries).events, IsExit) == 1
    ensures IsExit(Transaction(op, jitter, maxRetries).events[|Transaction(op, jitter, maxRetries).events| - 1])
  {
    TransactionShape(op, jitter, maxRetries);
    TransactionCounts(op, jitter, maxRetries);
  }

  /** The attempt `n` at which the loop stops is the one `FirstStop` finds. */
  lemma StopIsFirst(op: nat -> Outcome, maxRetries: int, n: nat)
    requires 1 <= n
    requires forall j :: 1 <= j < n ==> op(j) == Raised(SerializationFailure)
    requires n <= maxRetries ==> op(n) != Raised(SerializationFailure)
    ensures n <= maxRetries ==> FirstStop(op, maxRetries, 1) == n
    ensures n > maxRetries ==> FirstStop(op, maxRetries, 1) > maxRetries
  {
  }

  predicate IsInvoke(e: Event) { e.Invoke? }
  predicate IsRollback(e: Event) { e.Rollback? }
  predicate IsSleep(e: Event) { e.Sleep? }
  predicate IsExit(e: Event) { e.ExitCommit? || e.ExitRollback? }

  /** The number of events that satisfy `p`. */
  function Count(events: seq<Event>, p: Event -> bool): (c: nat)
    ensures c <= |events|
  {
    if |events| == 0 then 0 else (if p(events[0]) then 1 else 0) + Count(events[1..], p)
  }

  lemma {:induction false} CountAppend(a: seq<Event>, b: seq<Event>, p: Event -> bool)
    ensures Count(a + b, p) == Count(a, p) + Count(b, p)
  {
    if |a| == 0 {
      assert a + b == b;
    } else {
      var c := if p(a[0]) then 1 else 0;
      assert (a + b)[0] == a[0];
      assert (a + b)[1..] == a[1..] + b;
      CountAppend(a[1..], b, p);
      assert Count(a + b, p) == c + Count(a[1..] + b, p);
    }
  }

  lemma CountOne(x: Event, p: Event -> bool)
    ensures Count([x], p) == if p(x) then 1 else 0
  {
    assert [x][1..] == [];
  }

  /** The events of one failed attempt: one call, one rollback, one sleep. */
  lemma RetryEventsCounts(k: nat, jitter: nat -> real, p: Event -> bool)
    ensures Count(RetryEvents(k, jitter), p)
      == (if p(Invoke(k)) then 1 else 0) + (if p(Rollback) then 1 else 0)
        + (if p(Sleep(Backoff(k, jitter(k)))) then 1 else 0)
  {
    var x, y, z := Invoke(k), Rollback, Sleep(Backoff(k, jitter(k)));
    assert RetryEvents(k, jitter) == [x] + ([y] + [z]);
    CountAppend([x], [y] + [z], p);
    CountAppend([y], [z], p);
    CountOne(x, p);
    CountOne(y, p);
    CountOne(z, p);
  }

  /** Failed attempts `k`, ..., `n - 1` hold `n - k` events of each kind one attempt holds once. */
  lemma {:induction false} RetriesCount(k: nat, n: nat, jitter: nat -> real, p: Event -> bool, c: nat)
    requires k <= n && c <= 1
    requires forall j :: Count(RetryEvents(j, jitter), p) == c
    ensures Count(Retries(k, n, jitter), p) == if c == 0 then 0 else n - k
    decreases n - k
  {
    if k < n {
      RetriesCount(k + 1, n, jitter, p, c);
      CountAppend(RetryEvents(k, jitter), Retries(k + 1, n, jitter), p);
    }
  }

  /** Each failed attempt contributes one call, one rollback and one sleep, and no exit. */
  lemma RetriesCounts(k: nat, n: nat, jitter: nat -> real)
    requires k <= n
    ensures Count(Retries(k, n, jitter), IsInvoke) == n - k
    ensures Count(Retries(k, n, jitter), IsRollback) == n - k
    ensures Count(Retries(k, n, jitter), IsSleep) == n - k
    ensures Count(Retries(k, n, jitter), IsExit) == 0
  {
    forall j ensures Count(RetryEvents(j, jitter), IsInvoke) == 1 && Count(RetryEvents(j, jitter), IsRollback) == 1
      && Count(RetryEvents(j, jitter), IsSleep) == 1 && Count(RetryEvents(j, jitter), IsExit) == 0
    {
      RetryEventsCounts(j, jitter, IsInvoke);
      RetryEventsCounts(j, jitter, IsRollback);
      RetryEventsCounts(j, jitter, IsSleep);
      RetryEventsCounts(j, jitter, IsExit);
    }
    RetriesCount(k, n, jitter, IsInvoke, 1);
    RetriesCount(k, n, jitter, IsRollback, 1);
    RetriesCount(k, n, jitter, IsSleep, 1);
    RetriesCount(k, n, jitter, IsExit, 0);
  }

  /** The counts of each kind of event over the whole call. */
  lemma TransactionCounts(op: nat -> Outcome, jitter: nat -> real, maxRetries: int)
    ensures var n := FirstStop(op, maxRetries, 1);
      var events := Transaction(op, jitter, maxRetries).events;
      Count(events, IsInvoke) == (if n <= maxRetries then n else n - 1)
      && Count(events, IsRollback) == n - 1 && Count(events, IsSleep) == n - 1
      && Count(events, IsExit) == 1
  {
    var n := FirstStop(op, maxRetries, 1);
    RetriesCounts(1, n, jitter);
    TransactionCount(op, jitter, maxRetries, IsInvoke);
    TransactionCount(op, jitter, maxRetries, IsRollback);
    TransactionCount(op, jitter, maxRetries, IsSleep);
    TransactionCount(op, jitter, maxRetries, IsExit);
  }

  /** The events satisfying `p`: those of the failed attempts, of the last call and of the exit. */
  lemma TransactionCount(op: nat -> Outcome, jitter: nat -> real, maxRetries: int, p: Event -> bool)
    ensures var n := FirstStop(op, maxRetries, 1);
      var t := Transaction(op, jitter, maxRetries);
      Count(t.events, p) == Count(Retries(1, n, jitter), p)
        + (if n <= maxRetries && p(Invoke(n)) then 1 else 0)
        + (if p(if t.result.Success? then ExitCommit else ExitRollback) then 1 else 0)
  {
    TransactionShape(op, jitter, maxRetries);
    var n := FirstStop(op, maxRetries, 1);
    var t := Transaction(op, jitter, maxRetries);
    var stop: seq<Event> := if n <= maxRetries then [Invoke(n)] else [];
    var exit := if t.result.Success? then ExitCommit else ExitRollback;
    CountAppend(Retries(1, n, jitter), stop, p);
    CountAppend(Retries(1, n, jitter) + stop, [exit], p);
    CountOne(exit, p);
    if n <= maxRetries {
      CountOne(Invoke(n), p);
    }
  }

  /** With `r` in `[0, 1)`, the sleep after attempt `k` lies in `[0.05 * 2^k, 0.15 * 2^k)`. */
  lemma BackoffBounds(k: nat, r: real)
    requires 0.0 <= r < 1.0
    ensures 0.05 * Pow2(k) as real <= Backoff(k, r) < 0.15 * Pow2(k) as real
  {
    var p := Pow2(k) as real;
    assert Backoff(k, r) == 0.05 * p + 0.1 * p * r;
    assert 0.0 <= p * r < p;
  }

  /** Position `j` of the failed attempts' events: attempt `k + j / 3`, event `j % 3` of it. */
  lemma {:induction false} RetriesAt(k: nat, n: nat, jitter: nat -> real, j: nat)
    requires k <= n && j < 3 * (n - k)
    ensures Retries(k, n, jitter)[j] == RetryEvents(k + j / 3, jitter)[j % 3]
    decreases n - k
  {
    if j >= 3 {
      RetriesAt(k + 1, n, jitter, j - 3);
      assert (k + 1) + (j - 3) / 3 == k + j / 3;
      assert (j - 3) % 3 == j % 3;
    }
  }

  /**
   * Every sleep comes right after a rollback that comes right after a call
   * of `op` that raised `SerializationFailure`, and it lasts
   * `2^k * 0.1 * (r + 0.5)` for that attempt `k`; with `r` in `[0, 1)` that
   * is in `[0.05 * 2^k, 0.15 * 2^k)`.
   */
  lemma SleepFollowsFailure(op: nat -> Outcome, jitter: nat -> real, maxRetries: int, i: nat)
    requires i < |Transaction(op, jitter, maxRetries).events|
    requires Transaction(op, jitter, maxRetries).events[i].Sleep?
    ensures var events := Transaction(op, jitter, maxRetries).events;
      i >= 2 && events[i - 1] == Rollback && events[i - 2].Invoke?
      && var k := events[i - 2].attempt;
      1 <= k <= maxRetries && op(k) == Raised(SerializationFailure)
      && events[i].seconds == Backoff(k, jitter(k))
      && (0.0 <= jitter(k) < 1.0 ==> 0.05 * Pow2(k) as real <= events[i].seconds < 0.15 * Pow2(k) as real)
  {
    TransactionShape(op, jitter, maxRetries);
    var n := FirstStop(op, maxRetries, 1);
    var events := Transaction(op, jitter, maxRetries).events;
    var rs := Retries(1, n, jitter);
    assert i < |rs|;
    var k := RetriesSleep(n, jitter, i);
    assert events[i] == rs[i] && events[i - 1] == rs[i - 1] && events[i - 2] == rs[i - 2];
    if 0.0 <= jitter(k) < 1.0 {
      BackoffBounds(k, jitter(k));
    }
  }

  /** A sleep among the failed attempts' events comes after that attempt's call and rollback. */
  lemma RetriesSleep(n: nat, jitter: nat -> real, i: nat) returns (k: nat)
    requires 1 <= n && i < |Retries(1, n, jitter)| && Retries(1, n, jitter)[i].Sleep?
    ensures 2 <= i && 1 <= k < n
    ensures Retries(1, n, jitter)[i - 2] == Invoke(k)
    ensures Retries(1, n, jitter)[i - 1] == Rollback
    ensures Retries(1, n, jitter)[i] == Sleep(Backoff(k, jitter(k)))
  {
    k := 1 + i / 3;
    RetriesAt(1, n, jitter, i);
    assert i % 3 == 2;
    RetriesAt(1, n, jitter, i - 1);
    RetriesAt(1, n, jitter, i - 2);
    assert (i - 1) / 3 == i / 3 && (i - 2) / 3 == i / 3;
  }
}
