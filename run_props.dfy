/**
 * What a run of `Main.execute` (stock-watch/main.py) guarantees: failed
 * notifier calls only add exception records, the loop stops at the first
 * code the store cannot answer for, the notifications sent are exactly the
 * ones the watch list calls for, and the judge is only ever applied to the
 * price just fetched. The last part specialises all of it to the production
 * store `CsvAsDb`.
 */
module RunProperties {
  import opened Wrappers
  import opened CsvDb
  import opened Orchestrator

  // ---------------------------------------------------------------------------
  // Notifier failures
  // ---------------------------------------------------------------------------

  predicate NoLogs(events: seq<Event>) {
    forall i :: 0 <= i < |events| ==> !events[i].LogException?
  }

  /** The events with the exception records taken out. */
  function StripLogs(events: seq<Event>): (kept: seq<Event>)
    ensures NoLogs(kept)
    ensures |kept| <= |events|
  {
    if events == [] then []
    else (if events[0].LogException? then [] else [events[0]]) + StripLogs(events[1..])
  }

  function LogCount(events: seq<Event>): nat {
    if events == [] then 0
    else (if events[0].LogException? then 1 else 0) + LogCount(events[1..])
  }

  /** How many of the notifier calls numbered `k` to `k + n - 1` fail. */
  function Failures(ok: nat -> bool, k: nat, n: nat): (f: nat)
    ensures f <= n
    decreases n
  {
    if n == 0 then 0 else (if ok(k) then 0 else 1) + Failures(ok, k + 1, n - 1)
  }

  /** Every exception record comes straight after the send it reports. */
  predicate LogsFollowSends(events: seq<Event>) {
    forall i :: 0 <= i < |events| && events[i].LogException? ==> 0 < i && events[i - 1].Send?
  }

  /** `Deliver` on a non-empty sequence, written as its head and the rest. */
  lemma DeliverCons(events: seq<Event>, ok: nat -> bool, k: nat)
    requires events != []
    ensures var logs: seq<Event> := if events[0].Send? && !ok(k) then [LogException] else [];
      Deliver(events, ok, k) ==
        [events[0]] + (logs + Deliver(events[1..], ok, if events[0].Send? then k + 1 else k))
  {
  }

  lemma CountsCons(e: Event, rest: seq<Event>)
    ensures StripLogs([e] + rest) == (if e.LogException? then [] else [e]) + StripLogs(rest)
    ensures Sends([e] + rest) == (if e.Send? then [e.message] else []) + Sends(rest)
    ensures LogCount([e] + rest) == (if e.LogException? then 1 else 0) + LogCount(rest)
  {
    assert ([e] + rest)[1..] == rest;
  }

  lemma LogCons(rest: seq<Event>)
    ensures StripLogs([LogException] + rest) == StripLogs(rest)
    ensures Sends([LogException] + rest) == Sends(rest)
    ensures LogCount([LogException] + rest) == 1 + LogCount(rest)
  {
    CountsCons(LogException, rest);
  }

  /**
   * A failed notifier call adds one exception record and changes nothing
   * else: the same events in the same order, the same messages, and one
   * record per failed call.
   */
  lemma {:induction false} DeliverStripLogs(events: seq<Event>, ok: nat -> bool, k: nat)
    requires NoLogs(events)
    ensures StripLogs(Deliver(events, ok, k)) == events
  {
    if events != [] {
      var e, tail := events[0], events[1..];
      assert !e.LogException?;
      assert NoLogs(tail) by {
        forall i | 0 <= i < |tail| ensures !tail[i].LogException? {
          assert tail[i] == events[i + 1];
        }
      }
      var next := if e.Send? then k + 1 else k;
      var rest := Deliver(tail, ok, next);
      DeliverStripLogs(tail, ok, next);
      var logs: seq<Event> := if e.Send? && !ok(k) then [LogException] else [];
      DeliverCons(events, ok, k);
      CountsCons(e, logs + rest);
      if logs != [] {
        LogCons(rest);
      } else {
        assert logs + rest == rest;
      }
      assert events == [e] + tail;
    }
  }

  lemma {:induction false} DeliverSends(events: seq<Event>, ok: nat -> bool, k: nat)
    ensures Sends(Deliver(events, ok, k)) == Sends(events)
    ensures LogCount(Deliver(events, ok, k)) == LogCount(events) + Failures(ok, k, SendCount(events))
  {
    if events != [] {
      var e, tail := events[0], events[1..];
      var next := if e.Send? then k + 1 else k;
      var rest := Deliver(tail, ok, next);
      DeliverSends(tail, ok, next);
      var logs: seq<Event> := if e.Send? && !ok(k) then [LogException] else [];
      DeliverCons(events, ok, k);
      CountsCons(e, logs + rest);
      CountsCons(e, tail);
      if logs != [] {
        LogCons(rest);
      } else {
        assert logs + rest == rest;
      }
      assert events == [e] + tail;
    }
  }

  lemma {:induction false} NoLogsCount(events: seq<Event>)
    requires NoLogs(events)
    ensures LogCount(events) == 0
  {
    if events != [] {
      NoLogsCount(events[1..]);
    }
  }

  lemma {:induction false} DeliverLogsFollowSends(events: seq<Event>, ok: nat -> bool, k: nat)
    requires NoLogs(events)
    ensures LogsFollowSends(Deliver(events, ok, k))
    ensures |Deliver(events, ok, k)| > 0 ==> !Deliver(events, ok, k)[0].LogException?
  {
    if events != [] {
      var e, tail := events[0], events[1..];
      assert NoLogs(tail) by {
        forall i | 0 <= i < |tail| ensures !tail[i].LogException? {
          assert tail[i] == events[i + 1];
        }
      }
      var next := if e.Send? then k + 1 else k;
      var rest := Deliver(tail, ok, next);
      DeliverLogsFollowSends(tail, ok, next);
      var logs: seq<Event> := if e.Send? && !ok(k) then [LogException] else [];
      DeliverCons(events, ok, k);
      var d := Deliver(events, ok, k);
      var after := logs + rest;
      assert d[0] == e && !e.LogException?;
      forall i | 0 <= i < |d| && d[i].LogException? ensures 0 < i && d[i - 1].Send? {
        assert d[i] == after[i - 1];
        if i > |logs| + 1 {
          var j := i - 1 - |logs|;
          assert after[i - 1] == rest[j] && after[i - 2] == rest[j - 1];
        }
      }
    }
  }

  /** When every notifier call succeeds, nothing is logged. */
  lemma {:induction false} DeliverAllOk(events: seq<Event>, ok: nat -> bool, k: nat)
    requires forall j :: k <= j ==> ok(j)
    ensures Deliver(events, ok, k) == events
  {
    if events != [] {
      DeliverAllOk(events[1..], ok, if events[0].Send? then k + 1 else k);
      assert events == [events[0]] + events[1..];
    }
  }

  lemma {:induction false} LoopNoLogs(db: Db, prices: int -> Option<real>, codes: seq<int>)
    ensures NoLogs(Loop(db, prices, codes).events)
  {
    if codes != [] {
      LoopNoLogs(db, prices, codes[..|codes| - 1]);
    }
  }

  /**
   * Notifier failures never change the course of a run: without its
   * exception records the trace is the plan, the same messages go out, and
   * each record follows the failed send it reports.
   */
  lemma NotifierFailuresOnlyLog(db: Db, prices: int -> Option<real>, ok: nat -> bool)
    ensures StripLogs(Run(db, prices, ok).events) == Plan(db, prices).events
    ensures Sends(Run(db, prices, ok).events) == Sends(Plan(db, prices).events)
    ensures LogCount(Run(db, prices, ok).events) == Failures(ok, 0, SendCount(Plan(db, prices).events))
    ensures LogsFollowSends(Run(db, prices, ok).events)
  {
    var plan := Plan(db, prices).events;
    PlanNoLogs(db, prices);
    assert Run(db, prices, ok).events == Deliver(plan, ok, 0);
    DeliverStripLogs(plan, ok, 0);
    DeliverSends(plan, ok, 0);
    NoLogsCount(plan);
    DeliverLogsFollowSends(plan, ok, 0);
  }

  lemma PlanNoLogs(db: Db, prices: int -> Option<real>)
    ensures NoLogs(Plan(db, prices).events)
  {
    if db.descriptions.Success? {
      LoopNoLogs(db, prices, db.descriptions.value);
    }
  }

  /** A store that cannot list its codes: one failure notice, then `exit()`. */
  lemma DbFailureExitsEarly(db: Db, prices: int -> Option<real>, ok: nat -> bool)
    requires db.descriptions.Failure?
    ensures Run(db, prices, ok).status == ExitedEarly
    ensures Run(db, prices, ok).events ==
      [Send(FailGetDescriptions)] + (if ok(0) then [] else [LogException])
  {
    DeliverSend(FailGetDescriptions, ok, 0);
  }

  // ---------------------------------------------------------------------------
  // Which codes the loop gets through, and what it sends
  // ---------------------------------------------------------------------------

  /** The loop body for `code` gets through without a `DbException`. */
  predicate Answers(db: Db, prices: int -> Option<real>, code: int) {
    match prices(code)
    case None => true
    case Some(p) =>
      db.judgeFunc(code).Success? &&
      (db.judgeFunc(code).value(p) ==> db.alertMessage(code).Success?)
  }

  /** The notification due for `code`: its failure notice, its alert, or nothing. */
  function Notices(db: Db, prices: int -> Option<real>, code: int): seq<string> {
    match prices(code)
    case None => [db.failMessage(code)]
    case Some(p) =>
      if db.judgeFunc(code).Success? && db.judgeFunc(code).value(p) && db.alertMessage(code).Success?
      then [db.alertMessage(code).value]
      else []
  }

  function Expected(db: Db, prices: int -> Option<real>, codes: seq<int>): seq<string> {
    if codes == [] then []
    else Expected(db, prices, codes[..|codes| - 1]) + Notices(db, prices, codes[|codes| - 1])
  }

  lemma CodeStepSpec(db: Db, prices: int -> Option<real>, code: int)
    ensures CodeStep(db, prices, code).error == None <==> Answers(db, prices, code)
    ensures Sends(CodeStep(db, prices, code).events) == Notices(db, prices, code)
  {
    var events := CodeStep(db, prices, code).events;
    if prices(code).None? {
      var m := db.failMessage(code);
      DeliverQuiet([FetchPrice(code)], [Send(m)], (_: nat) => true, 0);
      DeliverSend(m, (_: nat) => true, 0);
      SendsAppend([FetchPrice(code)], [Send(m)]);
    } else if db.judgeFunc(code).Success? {
      var judged := [FetchPrice(code), GetJudge(code), ApplyJudge(code, prices(code).value)];
      DeliverQuiet(judged, [], (_: nat) => true, 0);
      assert judged + [] == judged;
      if db.judgeFunc(code).value(prices(code).value) && db.alertMessage(code).Success? {
        var m := db.alertMessage(code).value;
        DeliverQuiet(judged, [Send(m)], (_: nat) => true, 0);
        DeliverSend(m, (_: nat) => true, 0);
        SendsAppend(judged, [Send(m)]);
      }
      SendsAppend(judged, []);
    } else {
      DeliverQuiet(events, [], (_: nat) => true, 0);
      DeliverNothing((_: nat) => true, 0);
      assert events + [] == events;
    }
  }

  /**
   * The loop gets through all of `codes` exactly when every code gets
   * through, and then it sends the notifications due, in list order.
   */
  lemma {:induction false} LoopRuns(db: Db, prices: int -> Option<real>, codes: seq<int>)
    ensures Loop(db, prices, codes).error == None <==>
      forall i :: 0 <= i < |codes| ==> Answers(db, prices, codes[i])
    ensures Loop(db, prices, codes).error == None ==>
      Sends(Loop(db, prices, codes).events) == Expected(db, prices, codes)
  {
    if codes != [] {
      var front, last := codes[..|codes| - 1], codes[|codes| - 1];
      LoopRuns(db, prices, front);
      CodeStepSpec(db, prices, last);
      AllAnswerSnoc(db, prices, codes);
      var before := Loop(db, prices, front);
      if before.error == None {
        SendsAppend(before.events, CodeStep(db, prices, last).events);
      }
    }
  }

  lemma AllAnswerSnoc(db: Db, prices: int -> Option<real>, codes: seq<int>)
    requires codes != []
    ensures var front := codes[..|codes| - 1];
      (forall i :: 0 <= i < |codes| ==> Answers(db, prices, codes[i])) <==>
      (forall i :: 0 <= i < |front| ==> Answers(db, prices, front[i])) && Answers(db, prices, codes[|codes| - 1])
  {
    var front := codes[..|codes| - 1];
    assert forall i :: 0 <= i < |front| ==> front[i] == codes[i];
  }

  /**
   * A `DbException` ends the loop at the first code that does not get
   * through: the codes before it sent their notifications, that code sent
   * nothing, and no later code is reached.
   */
  lemma {:induction false} LoopStopsAtFirstFailure(db: Db, prices: int -> Option<real>, codes: seq<int>)
    returns (n: nat)
    requires Loop(db, prices, codes).error.Some?
    ensures n < |codes|
    ensures forall i :: 0 <= i < n ==> Answers(db, prices, codes[i])
    ensures !Answers(db, prices, codes[n])
    ensures Loop(db, prices, codes) ==
      Step(Loop(db, prices, codes[..n]).events + CodeStep(db, prices, codes[n]).events,
           CodeStep(db, prices, codes[n]).error)
    ensures Sends(Loop(db, prices, codes).events) == Expected(db, prices, codes[..n])
  {
    var front, last := codes[..|codes| - 1], codes[|codes| - 1];
    var before := Loop(db, prices, front);
    if before.error.Some? {
      n := LoopStopsAtFirstFailure(db, prices, front);
      assert front[..n] == codes[..n];
      assert front[n] == codes[n];
      forall i | 0 <= i < n ensures Answers(db, prices, codes[i]) {
        assert front[i] == codes[i];
      }
    } else {
      n := |codes| - 1;
      assert codes[..n] == front;
      LoopRuns(db, prices, front);
      forall i | 0 <= i < n ensures Answers(db, prices, codes[i]) {
        assert front[i] == codes[i];
      }
      CodeStepSpec(db, prices, last);
      SendsAppend(before.events, CodeStep(db, prices, last).events);
    }
  }

  /** The codes whose price is fetched, in order. */
  function Fetched(events: seq<Event>): seq<int> {
    if events == [] then []
    else (if events[0].FetchPrice? then [events[0].code] else []) + Fetched(events[1..])
  }

  lemma {:induction false} FetchedAppend(a: seq<Event>, b: seq<Event>)
    ensures Fetched(a + b) == Fetched(a) + Fetched(b)
  {
    if a == [] {
      assert a + b == b;
    } else {
      assert (a + b)[0] == a[0] && (a + b)[1..] == a[1..] + b;
      FetchedAppend(a[1..], b);
    }
  }

  /** Each pass of the loop fetches the price of its own code, once. */
  lemma CodeStepFetches(db: Db, prices: int -> Option<real>, code: int)
    ensures Fetched(CodeStep(db, prices, code).events) == [code]
  {
    var events := CodeStep(db, prices, code).events;
    assert events[0] == FetchPrice(code);
    var rest := events[1..];
    assert forall i :: 0 <= i < |rest| ==> !rest[i].FetchPrice?;
    NoFetches(rest);
    assert events == [FetchPrice(code)] + rest;
    FetchedAppend([FetchPrice(code)], rest);
  }

  lemma {:induction false} NoFetches(events: seq<Event>)
    requires forall i :: 0 <= i < |events| ==> !events[i].FetchPrice?
    ensures Fetched(events) == []
  {
    if events != [] {
      NoFetches(events[1..]);
    }
  }

  /** A loop that gets through fetches every listed price once, in list order. */
  lemma {:induction false} LoopFetches(db: Db, prices: int -> Option<real>, codes: seq<int>)
    requires Loop(db, prices, codes).error == None
    ensures Fetched(Loop(db, prices, codes).events) == codes
  {
    if codes != [] {
      var front, last := codes[..|codes| - 1], codes[|codes| - 1];
      var before := Loop(db, prices, front);
      LoopFetches(db, prices, front);
      CodeStepFetches(db, prices, last);
      FetchedAppend(before.events, CodeStep(db, prices, last).events);
      assert front + [last] == codes;
    }
  }

  /**
   * `execute` over a listed store completes exactly when every listed code
   * gets through; it never exits early.
   */
  lemma PlanOutcome(db: Db, prices: int -> Option<real>)
    requires db.descriptions.Success?
    ensures var codes := db.descriptions.value;
      Plan(db, prices).status == Completed <==> forall i :: 0 <= i < |codes| ==> Answers(db, prices, codes[i])
    ensures Plan(db, prices).status != ExitedEarly
  {
    LoopRuns(db, prices, db.descriptions.value);
  }

  /**
   * A completed run fetched every listed price once, in list order, and sent
   * the notifications due, in list order, then the end message.
   */
  lemma CompletedRun(db: Db, prices: int -> Option<real>)
    requires db.descriptions.Success? && Plan(db, prices).status == Completed
    ensures Fetched(Plan(db, prices).events) == db.descriptions.value
    ensures Sends(Plan(db, prices).events) == Expected(db, prices, db.descriptions.value) + [EndMessage]
  {
    var loop := Loop(db, prices, db.descriptions.value).events;
    LoopRuns(db, prices, db.descriptions.value);
    LoopFetches(db, prices, db.descriptions.value);
    SendsAppend(loop, [Send(EndMessage)]);
    FetchedAppend(loop, [Send(EndMessage)]);
    DeliverSend(EndMessage, (_: nat) => true, 0);
    NoFetches([Send(EndMessage)]);
  }

  /**
   * An aborted run stopped at the first listed code that does not get
   * through: it fetched the prices up to that code, sent the notifications
   * due for the codes before it, and no end message.
   */
  lemma AbortedRun(db: Db, prices: int -> Option<real>) returns (n: nat)
    requires db.descriptions.Success? && Plan(db, prices).status.AbortedByDbError?
    ensures n < |db.descriptions.value|
    ensures !Answers(db, prices, db.descriptions.value[n])
    ensures forall i :: 0 <= i < n ==> Answers(db, prices, db.descriptions.value[i])
    ensures Fetched(Plan(db, prices).events) == db.descriptions.value[..n + 1]
    ensures Sends(Plan(db, prices).events) == Expected(db, prices, db.descriptions.value[..n])
  {
    var codes := db.descriptions.value;
    n := LoopStopsAtFirstFailure(db, prices, codes);
    var before := Loop(db, prices, codes[..n]);
    LoopRuns(db, prices, codes[..n]);
    LoopFetches(db, prices, codes[..n]);
    CodeStepFetches(db, prices, codes[n]);
    FetchedAppend(before.events, CodeStep(db, prices, codes[n]).events);
    assert codes[..n] + [codes[n]] == codes[..n + 1];
  }

  // ---------------------------------------------------------------------------
  // The judge is applied to the price just fetched
  // ---------------------------------------------------------------------------

  /**
   * At position `i`: a judge is asked for right after a successful price
   * fetch of the same code, and applied right after it is obtained, to the
   * price fetched for that code.
   */
  predicate JudgedAt(events: seq<Event>, prices: int -> Option<real>, i: nat)
    requires i < |events|
  {
    (events[i].GetJudge? ==>
      0 < i && events[i - 1] == FetchPrice(events[i].code) && prices(events[i].code).Some?) &&
    (events[i].ApplyJudge? ==>
      0 < i && events[i - 1] == GetJudge(events[i].code) && prices(events[i].code) == Some(events[i].price))
  }

  predicate JudgedAfterFetch(events: seq<Event>, prices: int -> Option<real>) {
    forall i :: 0 <= i < |events| ==> JudgedAt(events, prices, i)
  }

  lemma JudgedAfterFetchAppend(a: seq<Event>, b: seq<Event>, prices: int -> Option<real>)
    requires JudgedAfterFetch(a, prices) && JudgedAfterFetch(b, prices)
    ensures JudgedAfterFetch(a + b, prices)
  {
    var ab := a + b;
    forall i | 0 <= i < |ab| ensures JudgedAt(ab, prices, i) {
      if i < |a| {
        assert ab[i] == a[i] && JudgedAt(a, prices, i);
        if 0 < i { assert ab[i - 1] == a[i - 1]; }
      } else {
        var j := i - |a|;
        assert ab[i] == b[j] && JudgedAt(b, prices, j);
        if 0 < j { assert ab[i - 1] == b[j - 1]; }
      }
    }
  }

  lemma {:induction false} LoopJudgedAfterFetch(db: Db, prices: int -> Option<real>, codes: seq<int>)
    ensures JudgedAfterFetch(Loop(db, prices, codes).events, prices)
  {
    if codes != [] {
      var front := codes[..|codes| - 1];
      LoopJudgedAfterFetch(db, prices, front);
      var step := CodeStep(db, prices, codes[|codes| - 1]);
      assert JudgedAfterFetch(step.events, prices) by {
        forall i | 0 <= i < |step.events| ensures JudgedAt(step.events, prices, i) {
        }
      }
      JudgedAfterFetchAppend(Loop(db, prices, front).events, step.events, prices);
    }
  }

  /** Throughout `execute`, each judge is applied to the price just fetched for its code. */
  lemma PlanJudgedAfterFetch(db: Db, prices: int -> Option<real>)
    ensures JudgedAfterFetch(Plan(db, prices).events, prices)
  {
    var sent := [Send(if db.descriptions.Failure? then FailGetDescriptions else EndMessage)];
    assert JudgedAt(sent, prices, 0);
    if db.descriptions.Success? {
      var loop := Loop(db, prices, db.descriptions.value);
      LoopJudgedAfterFetch(db, prices, db.descriptions.value);
      JudgedAfterFetchAppend(loop.events, sent, prices);
    }
  }

  // ---------------------------------------------------------------------------
  // With the production store
  // ---------------------------------------------------------------------------

  /** The notification due for `code` with the CSV store, read off its row. */
  function CsvNotices(table: seq<Row>, prices: int -> Option<real>, code: int): seq<string> {
    match prices(code)
    case None => [MakeFailMessage(code)]
    case Some(p) =>
      match Lookup(table, code)
      case Failure(_) => []
      case Success(th) => if Judge(th, p) then [AlertText(code, th.price, th.trigger)] else []
  }

  function CsvExpected(table: seq<Row>, prices: int -> Option<real>, codes: seq<int>): seq<string> {
    if codes == [] then []
    else CsvExpected(table, prices, codes[..|codes| - 1]) + CsvNotices(table, prices, codes[|codes| - 1])
  }

  /**
   * With the CSV store a code gets through exactly when its price is not
   * fetched or its row looks up; when it does not, the run stopped right
   * after asking for the judge, with the lookup's error.
   */
  lemma CsvCodeStep(table: seq<Row>, prices: int -> Option<real>, code: int)
    ensures Answers(CsvStore(table), prices, code) <==> prices(code).None? || Lookup(table, code).Success?
    ensures Notices(CsvStore(table), prices, code) == CsvNotices(table, prices, code)
    ensures CodeStep(CsvStore(table), prices, code).error.Some? ==>
      CodeStep(CsvStore(table), prices, code) ==
        Step([FetchPrice(code), GetJudge(code)], Some(Lookup(table, code).error))
  {
  }

  lemma {:induction false} CsvExpectedAgrees(table: seq<Row>, prices: int -> Option<real>, codes: seq<int>)
    ensures Expected(CsvStore(table), prices, codes) == CsvExpected(table, prices, codes)
  {
    if codes != [] {
      CsvExpectedAgrees(table, prices, codes[..|codes| - 1]);
      CsvCodeStep(table, prices, codes[|codes| - 1]);
    }
  }

  lemma CsvAllAnswer(table: seq<Row>, prices: int -> Option<real>, codes: seq<int>)
    ensures (forall i :: 0 <= i < |codes| ==> Answers(CsvStore(table), prices, codes[i])) <==>
      (forall c :: c in codes && prices(c).Some? ==> Lookup(table, c).Success?)
  {
    forall i | 0 <= i < |codes| ensures Answers(CsvStore(table), prices, codes[i]) <==>
      prices(codes[i]).None? || Lookup(table, codes[i]).Success? {
      CsvCodeStep(table, prices, codes[i]);
    }
  }

  /** With the CSV store a run stops right after asking for a judge whose row does not look up. */
  lemma CsvAbort(table: seq<Row>, prices: int -> Option<real>, codes: seq<int>) returns (c: int)
    requires Loop(CsvStore(table), prices, codes).error.Some?
    ensures c in codes && prices(c).Some?
    ensures Lookup(table, c) == Failure(Loop(CsvStore(table), prices, codes).error.value)
    ensures var events := Loop(CsvStore(table), prices, codes).events;
      |events| >= 2 && events[|events| - 2..] == [FetchPrice(c), GetJudge(c)]
  {
    var n := LoopStopsAtFirstFailure(CsvStore(table), prices, codes);
    c := codes[n];
    CsvCodeStep(table, prices, c);
    var events := Loop(CsvStore(table), prices, codes).events;
    assert events[|events| - 2..] == [FetchPrice(c), GetJudge(c)];
  }

  /**
   * `execute` over a CSV file: it never exits early; it completes exactly
   * when every listed code whose price was fetched has a valid row, and then
   * sends the failure notices and alerts the rows call for, then the end
   * message. Otherwise it stops right after asking for the judge of a
   * fetched code without a valid row, with that row's lookup error.
   */
  lemma CsvRunOutcome(table: seq<Row>, prices: int -> Option<real>)
    ensures Plan(CsvStore(table), prices).status != ExitedEarly
    ensures Plan(CsvStore(table), prices).status == Completed <==>
      forall c :: c in GetDescriptions(table) && prices(c).Some? ==> Lookup(table, c).Success?
    ensures Plan(CsvStore(table), prices).status == Completed ==>
      Sends(Plan(CsvStore(table), prices).events) ==
        CsvExpected(table, prices, GetDescriptions(table)) + [EndMessage]
    ensures Plan(CsvStore(table), prices).status.AbortedByDbError? ==>
      var events := Plan(CsvStore(table), prices).events;
      exists c :: c in GetDescriptions(table) && prices(c).Some? &&
        Lookup(table, c) == Failure(Plan(CsvStore(table), prices).status.error) &&
        |events| >= 2 && events[|events| - 2..] == [FetchPrice(c), GetJudge(c)]
  {
    var db := CsvStore(table);
    var codes := GetDescriptions(table);
    PlanOutcome(db, prices);
    CsvExpectedAgrees(table, prices, codes);
    CsvAllAnswer(table, prices, codes);
    if Loop(db, prices, codes).error.Some? {
      var c := CsvAbort(table, prices, codes);
    } else {
      CompletedRun(db, prices);
    }
  }

  /** How many of `codes` had their price fetch fail. */
  function FetchFailures(prices: int -> Option<real>, codes: seq<int>): nat {
    if codes == [] then 0
    else FetchFailures(prices, codes[..|codes| - 1]) + (if prices(codes[|codes| - 1]).None? then 1 else 0)
  }

  /** How many of `codes` crossed the threshold of their row. */
  function Crossings(table: seq<Row>, prices: int -> Option<real>, codes: seq<int>): nat {
    if codes == [] then 0
    else
      var code := codes[|codes| - 1];
      var crossed := prices(code).Some? && Lookup(table, code).Success? &&
        Judge(Lookup(table, code).value, prices(code).value);
      Crossings(table, prices, codes[..|codes| - 1]) + (if crossed then 1 else 0)
  }

  lemma {:induction false} CsvExpectedCount(table: seq<Row>, prices: int -> Option<real>, codes: seq<int>)
    ensures |CsvExpected(table, prices, codes)| == FetchFailures(prices, codes) + Crossings(table, prices, codes)
  {
    if codes != [] {
      CsvExpectedCount(table, prices, codes[..|codes| - 1]);
    }
  }

  /**
   * A completed run over a CSV file sends one message per failed price
   * fetch, one per crossed threshold, and the end message.
   */
  lemma CsvCompletedCount(table: seq<Row>, prices: int -> Option<real>)
    requires Plan(CsvStore(table), prices).status == Completed
    ensures SendCount(Plan(CsvStore(table), prices).events) ==
      FetchFailures(prices, GetDescriptions(table)) + Crossings(table, prices, GetDescriptions(table)) + 1
  {
    CsvRunOutcome(table, prices);
    CsvExpectedCount(table, prices, GetDescriptions(table));
  }
}
