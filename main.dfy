/**
 * The orchestrator `Main` (stock-watch/main.py): reads the watched codes from
 * the store, fetches each code's price, asks the store whether the code's
 * threshold is crossed, and sends one notification per crossing, one per
 * failed fetch and one at the end.
 *
 * The collaborators are inputs: the store as a record of its answers (`Db`),
 * the price source as a per-code price-or-failure function, and the notifier
 * as an oracle telling whether its k-th call succeeds. What the run does is
 * recorded as a trace of events: the calls it makes to the price source and
 * the store's judge, the messages it hands to the notifier, and the
 * exception records it writes to the logger.
 */
module Orchestrator {
  import opened Wrappers
  import opened CsvDb

  /** `Main.end_message` */
  const EndMessage: string := "株価チェックが完了しました"
  /** `Main.fail_get_descriptions` */
  const FailGetDescriptions: string := "DBからの対象銘柄取得に失敗しました"

  /**
   * The store as `Main` sees it (`IDb`): the code list or its `DbException`,
   * and per code the judge or its `DbException`, the alert message or its
   * `DbException`, and the failure message.
   */
  datatype Db = Db(
    descriptions: Result<seq<int>, DbError>,
    judgeFunc: int -> Result<real -> bool, DbError>,
    alertMessage: int -> Result<string, DbError>,
    failMessage: int -> string)

  /** The production store, `CsvAsDb`, over a loaded table. */
  function CsvStore(table: seq<Row>): (db: Db)
    ensures db.descriptions == Success(GetDescriptions(table))
    ensures forall code :: db.judgeFunc(code).Failure? <==> Lookup(table, code).Failure?
    ensures forall code :: db.alertMessage(code).Failure? <==> db.judgeFunc(code).Failure?
    ensures forall code :: db.alertMessage(code).Failure? ==>
      db.alertMessage(code).error == db.judgeFunc(code).error == Lookup(table, code).error
  {
    Db(Success(GetDescriptions(table)),
       code => GetJudgeFunc(table, code),
       code => MakeAlertMessage(table, code),
       MakeFailMessage)
  }

  datatype Event =
    | FetchPrice(code: int)              // price.get_data(code)
    | GetJudge(code: int)                // db.get_judge_func(code)
    | ApplyJudge(code: int, price: real) // judge_func(price)
    | Send(message: string)              // alert.send_message(message)
    | LogException                       // logger.exception(ex) for an AlertException

  /** How a run ends: normally, through `exit()`, or by an uncaught `DbException`. */
  datatype Status = Completed | ExitedEarly | AbortedByDbError(error: DbError)

  /** Events of a stretch of the run and the `DbException` that ended it, if any. */
  datatype Step = Step(events: seq<Event>, error: Option<DbError>)

  datatype Planned = Planned(events: seq<Event>, status: Status)

  // ---------------------------------------------------------------------------
  // The run, before notifier failures are taken into account
  // ---------------------------------------------------------------------------

  /** One pass of the loop body of `execute` for `code`. */
  function CodeStep(db: Db, prices: int -> Option<real>, code: int): (step: Step)
    ensures |step.events| >= 2 && step.events[0] == FetchPrice(code)
    ensures step.error.Some? ==> prices(code).Some?
    ensures step.error.Some? ==>
      (db.judgeFunc(code).Failure? && step.error.value == db.judgeFunc(code).error) ||
      (db.alertMessage(code).Failure? && step.error.value == db.alertMessage(code).error)
  {
    match prices(code)
    case None => Step([FetchPrice(code), Send(db.failMessage(code))], None)
    case Some(p) =>
      match db.judgeFunc(code)
      case Failure(e) => Step([FetchPrice(code), GetJudge(code)], Some(e))
      case Success(judge) =>
        var judged := [FetchPrice(code), GetJudge(code), ApplyJudge(code, p)];
        if !judge(p) then Step(judged, None)
        else
          match db.alertMessage(code)
          case Failure(e) => Step(judged, Some(e))
          case Success(m) => Step(judged + [Send(m)], None)
  }

  /** The loop of `execute` over `codes`, stopping at the first `DbException`. */
  function Loop(db: Db, prices: int -> Option<real>, codes: seq<int>): (loop: Step)
  {
    if codes == [] then Step([], None)
    else
      var before := Loop(db, prices, codes[..|codes| - 1]);
      if before.error.Some? then before
      else
        var last := CodeStep(db, prices, codes[|codes| - 1]);
        Step(before.events + last.events, last.error)
  }

  /** A `DbException` that ends the loop was raised for one of the loop's codes. */
  lemma {:induction false} LoopErrorFromCode(db: Db, prices: int -> Option<real>, codes: seq<int>)
    requires Loop(db, prices, codes).error.Some?
    ensures exists c :: c in codes && CodeStep(db, prices, c).error == Loop(db, prices, codes).error
  {
    var m := |codes| - 1;
    if Loop(db, prices, codes[..m]).error.Some? {
      LoopErrorFromCode(db, prices, codes[..m]);
      var c :| c in codes[..m] && CodeStep(db, prices, c).error == Loop(db, prices, codes[..m]).error;
      assert c in codes;
    } else {
      assert codes[m] in codes;
    }
  }

  /** `Main.execute` with every notifier call succeeding. */
  function Plan(db: Db, prices: int -> Option<real>): (plan: Planned)
    ensures plan.status == ExitedEarly <==> db.descriptions.Failure?
    ensures plan.status == Completed ==>
      |plan.events| > 0 && plan.events[|plan.events| - 1] == Send(EndMessage)
    ensures plan.status.AbortedByDbError? ==>
      db.descriptions.Success? &&
      exists c :: c in db.descriptions.value && CodeStep(db, prices, c).error == Some(plan.status.error)
  {
    match db.descriptions
    case Failure(_) => Planned([Send(FailGetDescriptions)], ExitedEarly)
    case Success(codes) =>
      var loop := Loop(db, prices, codes);
      match loop.error
      case Some(e) =>
        LoopErrorFromCode(db, prices, codes);
        Planned(loop.events, AbortedByDbError(e))
      case None => Planned(loop.events + [Send(EndMessage)], Completed)
  }

  // ---------------------------------------------------------------------------
  // Notifier failures: each failed send is followed by one exception record
  // ---------------------------------------------------------------------------

  /** The messages handed to the notifier, in order. */
  function Sends(events: seq<Event>): seq<string> {
    if events == [] then []
    else (if events[0].Send? then [events[0].message] else []) + Sends(events[1..])
  }

  function SendCount(events: seq<Event>): nat {
    |Sends(events)|
  }

  /**
   * The events as the logger sees them when the notifier's k-th call
   * succeeds exactly when `ok(k)`; `k` numbers the first send of `events`.
   */
  function Deliver(events: seq<Event>, ok: nat -> bool, k: nat): (delivered: seq<Event>)
  {
    if events == [] then []
    else if events[0].Send? then
      [events[0]] + (if ok(k) then [] else [LogException]) + Deliver(events[1..], ok, k + 1)
    else [events[0]] + Deliver(events[1..], ok, k)
  }

  /** The trace and the end of a run of `Main.execute` from a fresh `Main`. */
  function Run(db: Db, prices: int -> Option<real>, ok: nat -> bool): (run: Planned)
    ensures run.status == ExitedEarly <==> db.descriptions.Failure?
    ensures run.status == Plan(db, prices).status
  {
    var plan := Plan(db, prices);
    Planned(Deliver(plan.events, ok, 0), plan.status)
  }

  lemma {:induction false} SendsAppend(a: seq<Event>, b: seq<Event>)
    ensures Sends(a + b) == Sends(a) + Sends(b)
    ensures SendCount(a + b) == SendCount(a) + SendCount(b)
  {
    if a == [] {
      assert a + b == b;
    } else {
      assert (a + b)[0] == a[0] && (a + b)[1..] == a[1..] + b;
      SendsAppend(a[1..], b);
    }
  }

  lemma {:induction false} DeliverAppend(a: seq<Event>, b: seq<Event>, ok: nat -> bool, k: nat)
    ensures Deliver(a + b, ok, k) == Deliver(a, ok, k) + Deliver(b, ok, k + SendCount(a))
  {
    if a == [] {
      assert a + b == b;
    } else {
      assert (a + b)[0] == a[0] && (a + b)[1..] == a[1..] + b;
      DeliverAppend(a[1..], b, ok, if a[0].Send? then k + 1 else k);
    }
  }

  predicate Quiet(events: seq<Event>) {
    forall i :: 0 <= i < |events| ==> !events[i].Send?
  }

  /** Events other than sends pass through unchanged and use up no notifier call. */
  lemma {:induction false} DeliverQuiet(a: seq<Event>, b: seq<Event>, ok: nat -> bool, k: nat)
    requires Quiet(a)
    ensures Deliver(a + b, ok, k) == a + Deliver(b, ok, k)
    ensures SendCount(a + b) == SendCount(b)
  {
    if a == [] {
      assert a + b == b;
    } else {
      assert (a + b)[0] == a[0] && (a + b)[1..] == a[1..] + b;
      DeliverQuiet(a[1..], b, ok, k);
    }
  }

  lemma DeliverNothing(ok: nat -> bool, k: nat)
    ensures Deliver([], ok, k) == [] && SendCount([]) == 0
  {
  }

  lemma DeliverSend(message: string, ok: nat -> bool, k: nat)
    ensures Deliver([Send(message)], ok, k) == [Send(message)] + (if ok(k) then [] else [LogException])
    ensures Sends([Send(message)]) == [message] && SendCount([Send(message)]) == 1
  {
    assert [Send(message)][1..] == [];
  }

  lemma ConcatAssoc(a: seq<Event>, b: seq<Event>, c: seq<Event>)
    ensures a + (b + c) == (a + b) + c
  {
  }

  /** The loop over one more code runs the loop body for it after the earlier ones. */
  lemma LoopExtend(db: Db, prices: int -> Option<real>, codes: seq<int>, i: nat)
    requires i < |codes| && Loop(db, prices, codes[..i]).error == None
    ensures Loop(db, prices, codes[..i + 1]) ==
      Step(Loop(db, prices, codes[..i]).events + CodeStep(db, prices, codes[i]).events,
           CodeStep(db, prices, codes[i]).error)
  {
    assert codes[..i + 1][..i] == codes[..i];
  }

  /** Once a `DbException` has ended the loop, later codes are never reached. */
  lemma {:induction false} LoopAfterError(db: Db, prices: int -> Option<real>, codes: seq<int>, n: nat)
    requires n <= |codes| && Loop(db, prices, codes[..n]).error.Some?
    ensures Loop(db, prices, codes) == Loop(db, prices, codes[..n])
  {
    if n < |codes| {
      var m := |codes| - 1;
      assert codes[..m][..n] == codes[..n];
      LoopAfterError(db, prices, codes[..m], n);
      assert Loop(db, prices, codes[..m]).error.Some?;
    } else {
      assert codes[..n] == codes;
    }
  }

  /** One more loop pass, as delivered: its events follow those of the earlier passes. */
  lemma LoopExtendDelivered(db: Db, prices: int -> Option<real>, codes: seq<int>, i: nat, ok: nat -> bool, k: nat)
    requires i < |codes| && Loop(db, prices, codes[..i]).error == None
    ensures var before := Loop(db, prices, codes[..i]).events;
      var step := CodeStep(db, prices, codes[i]);
      var after := Loop(db, prices, codes[..i + 1]);
      && after.error == step.error
      && Deliver(after.events, ok, k) == Deliver(before, ok, k) + Deliver(step.events, ok, k + SendCount(before))
      && SendCount(after.events) == SendCount(before) + SendCount(step.events)
  {
    var before := Loop(db, prices, codes[..i]).events;
    var step := CodeStep(db, prices, codes[i]);
    LoopExtend(db, prices, codes, i);
    assert Loop(db, prices, codes[..i + 1]).events == before + step.events;
    DeliverAppend(before, step.events, ok, k);
    SendsAppend(before, step.events);
  }

  /** A loop without a `DbException` is followed by the end message. */
  lemma PlanCompleted(db: Db, prices: int -> Option<real>, ok: nat -> bool, k: nat)
    requires db.descriptions.Success? && Loop(db, prices, db.descriptions.value).error == None
    ensures var loop := Loop(db, prices, db.descriptions.value).events;
      && Plan(db, prices) == Planned(loop + [Send(EndMessage)], Completed)
      && Deliver(Plan(db, prices).events, ok, k) ==
           Deliver(loop, ok, k) + Deliver([Send(EndMessage)], ok, k + SendCount(loop))
      && Deliver([Send(EndMessage)], ok, k + SendCount(loop)) ==
           [Send(EndMessage)] + (if ok(k + SendCount(loop)) then [] else [LogException])
      && SendCount(Plan(db, prices).events) == SendCount(loop) + 1
  {
    var loop := Loop(db, prices, db.descriptions.value).events;
    DeliverAppend(loop, [Send(EndMessage)], ok, k);
    SendsAppend(loop, [Send(EndMessage)]);
    DeliverSend(EndMessage, ok, k + SendCount(loop));
  }

  // ---------------------------------------------------------------------------
  // The object
  // ---------------------------------------------------------------------------

  class Main {
    const db: Db
    const prices: int -> Option<real>
    /** Whether the notifier's k-th call succeeds (`false`: it raises AlertException). */
    const alertOk: nat -> bool
    /** What the run has done so far. */
    var trace: seq<Event>
    /** How many times the notifier has been called. */
    var attempts: nat

    constructor(db: Db, prices: int -> Option<real>, alertOk: nat -> bool)
      ensures this.db == db && this.prices == prices && this.alertOk == alertOk
      ensures trace == [] && attempts == 0
    {
      this.db := db;
      this.prices := prices;
      this.alertOk := alertOk;
      trace := [];
      attempts := 0;
    }

    /** `send_message`: the notifier call, with an AlertException logged and swallowed. */
    method SendMessage(message: string)
      modifies this
      ensures attempts == old(attempts) + 1
      ensures trace == old(trace) + [Send(message)] + (if alertOk(old(attempts)) then [] else [LogException])
    {
      trace := trace + [Send(message)];
      if !alertOk(attempts) {
        trace := trace + [LogException];
      }
      attempts := attempts + 1;
    }

    /**
     * `alert`: sends the store's alert message; a `DbException` from the
     * store is not caught and is returned to the caller instead.
     */
    method Alert(code: int) returns (error: Option<DbError>)
      modifies this
      ensures db.alertMessage(code).Failure? ==>
        error == Some(db.alertMessage(code).error) && trace == old(trace) && attempts == old(attempts)
      ensures db.alertMessage(code).Success? ==>
        error == None && attempts == old(attempts) + 1 &&
        trace == old(trace) + Deliver([Send(db.alertMessage(code).value)], alertOk, old(attempts))
    {
      var message := db.alertMessage(code);
      if message.Success? {
        DeliverSend(message.value, alertOk, attempts);
      }
      if message.Failure? {
        return Some(message.error);
      }
      SendMessage(message.value);
      return None;
    }

    /** `fail`: sends the store's failure message for `code`. */
    method Fail(code: int)
      modifies this
      ensures attempts == old(attempts) + 1
      ensures trace == old(trace) + Deliver([Send(db.failMessage(code))], alertOk, old(attempts))
    {
      DeliverSend(db.failMessage(code), alertOk, attempts);
      SendMessage(db.failMessage(code));
    }

    /**
     * The body of the loop in `execute` for one code: fetch the price (on a
     * PriceException send the failure message and go on), get the judge,
     * apply it to the fetched price, and alert if it holds.
     */
    method Process(description: int) returns (error: Option<DbError>)
      modifies this
      ensures error == CodeStep(db, prices, description).error
      ensures trace == old(trace) + Deliver(CodeStep(db, prices, description).events, alertOk, old(attempts))
      ensures attempts == old(attempts) + SendCount(CodeStep(db, prices, description).events)
    {
      ghost var t0, k0 := trace, attempts;
      var price := prices(description);
      if price.None? {
        ghost var sent := [Send(db.failMessage(description))];
        DeliverQuiet([FetchPrice(description)], sent, alertOk, k0);
        DeliverSend(db.failMessage(description), alertOk, k0);
        trace := trace + [FetchPrice(description)];
        Fail(description);
        ConcatAssoc(t0, [FetchPrice(description)], Deliver(sent, alertOk, k0));
        return None;
      }
      var judgeFunc := db.judgeFunc(description);
      if judgeFunc.Failure? {
        ghost var fetched := [FetchPrice(description), GetJudge(description)];
        DeliverQuiet(fetched, [], alertOk, k0);
        DeliverNothing(alertOk, k0);
        assert fetched + [] == fetched;
        trace := trace + [FetchPrice(description)];
        trace := trace + [GetJudge(description)];
        assert trace == t0 + fetched;
        return Some(judgeFunc.error);
      }
      ghost var judged := [FetchPrice(description), GetJudge(description), ApplyJudge(description, price.value)];
      trace := trace + [FetchPrice(description)];
      trace := trace + [GetJudge(description)];
      trace := trace + [ApplyJudge(description, price.value)];
      assert trace == t0 + judged;
      if judgeFunc.value(price.value) && db.alertMessage(description).Success? {
        ghost var sent := [Send(db.alertMessage(description).value)];
        DeliverQuiet(judged, sent, alertOk, k0);
        DeliverSend(db.alertMessage(description).value, alertOk, k0);
        error := Alert(description);
        ConcatAssoc(t0, judged, Deliver(sent, alertOk, k0));
      } else {
        DeliverQuiet(judged, [], alertOk, k0);
        DeliverNothing(alertOk, k0);
        assert judged + [] == judged;
        if judgeFunc.value(price.value) {
          error := Alert(description);
        } else {
          error := None;
        }
      }
    }

    /** `execute`. */
    method Execute() returns (status: Status)
      modifies this
      ensures status == Plan(db, prices).status
      ensures trace == old(trace) + Deliver(Plan(db, prices).events, alertOk, old(attempts))
      ensures attempts == old(attempts) + SendCount(Plan(db, prices).events)
    {
      if db.descriptions.Failure? {
        DeliverSend(FailGetDescriptions, alertOk, attempts);
        SendMessage(FailGetDescriptions);
        return ExitedEarly;
      }
      ghost var trace0, attempts0 := trace, attempts;
      var descriptions := db.descriptions.value;
      var error := ProcessAll(descriptions);
      if error.Some? {
        return AbortedByDbError(error.value);
      }
      ghost var loop := Loop(db, prices, descriptions).events;
      PlanCompleted(db, prices, alertOk, attempts0);
      ConcatAssoc(trace0, Deliver(loop, alertOk, attempts0), Deliver([Send(EndMessage)], alertOk, attempts));
      ConcatAssoc(trace, [Send(EndMessage)], if alertOk(attempts) then [] else [LogException]);
      SendMessage(EndMessage);
      return Completed;
    }

    /**
     * The `for` loop of `execute`: each code in turn, until a `DbException`
     * escapes from one of them.
     */
    method ProcessAll(descriptions: seq<int>) returns (error: Option<DbError>)
      modifies this
      ensures error == Loop(db, prices, descriptions).error
      ensures trace == old(trace) + Deliver(Loop(db, prices, descriptions).events, alertOk, old(attempts))
      ensures attempts == old(attempts) + SendCount(Loop(db, prices, descriptions).events)
    {
      ghost var trace0, attempts0 := trace, attempts;
      ghost var done := Step([], None);
      var i := 0;
      while i < |descriptions|
        invariant 0 <= i <= |descriptions|
        invariant done == Loop(db, prices, descriptions[..i]) && done.error == None
        invariant trace == trace0 + Deliver(done.events, alertOk, attempts0)
        invariant attempts == attempts0 + SendCount(done.events)
      {
        ghost var step := CodeStep(db, prices, descriptions[i]);
        ghost var earlier := Deliver(done.events, alertOk, attempts0);
        ghost var current := Deliver(step.events, alertOk, attempts);
        LoopExtendDelivered(db, prices, descriptions, i, alertOk, attempts0);
        ConcatAssoc(trace0, earlier, current);
        error := Process(descriptions[i]);
        assert trace == (trace0 + earlier) + current;
        done := Loop(db, prices, descriptions[..i + 1]);
        assert Deliver(done.events, alertOk, attempts0) == earlier + current;
        if error.Some? {
          LoopAfterError(db, prices, descriptions, i + 1);
          return;
        }
        i := i + 1;
      }
      assert descriptions[..i] == descriptions;
      return None;
    }
  }

  /** The entry point `execute()`: builds `Main` from its collaborators and runs it. */
  method ExecuteMain(db: Db, prices: int -> Option<real>, alertOk: nat -> bool)
    returns (trace: seq<Event>, status: Status)
    ensures trace == Run(db, prices, alertOk).events
    ensures status == Run(db, prices, alertOk).status
  {
    var main := new Main(db, prices, alertOk);
    status := main.Execute();
    trace := main.trace;
  }
}
