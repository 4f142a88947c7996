/**
 * The watch-list store `CsvAsDb` (stock-watch/db/csv.py): an already-loaded
 * table of rows `(description, price, trigger)` read as a database of
 * stock codes, their threshold prices and their trigger directions.
 *
 * The table is read once when the store is built and never changed, so every
 * query is a function of the table; only the grouping query is a loop.
 */
module CsvDb {
  import opened Wrappers
  import opened Format

  /** One line of the watch-list file. `price` is the cell as `str()` renders it. */
  datatype Row = Row(description: int, price: string, trigger: string)

  datatype Trigger = Over | Under

  /** A validated row: the threshold price and the direction that fires. */
  datatype Threshold = Threshold(price: nat, trigger: Trigger)

  /** `DbException`, by the two messages the store raises it with. */
  datatype DbError = NotExist(code: int) | Invalid(code: int)

  const NotExistPrefix: string := "DBにデータが存在しません。 銘柄コード: "
  const InvalidPrefix: string := "DBデータが不正です。 銘柄コード: "

  /** The text of the exception; it always ends with the offending code. */
  function ErrorMessage(e: DbError): (m: string)
    ensures |m| >= |IntToString(e.code)| && m[|m| - |IntToString(e.code)|..] == IntToString(e.code)
  {
    var prefix := if e.NotExist? then NotExistPrefix else InvalidPrefix;
    var m := prefix + IntToString(e.code);
    assert m[|prefix|..] == IntToString(e.code);
    m
  }

  lemma ErrorMessageKind(e: DbError)
    ensures |ErrorMessage(e)| > 2
    ensures ErrorMessage(e)[2] == if e.NotExist? then 'に' else 'デ'
  {
    var prefix := if e.NotExist? then NotExistPrefix else InvalidPrefix;
    assert prefix[2] == if e.NotExist? then 'に' else 'デ';
    assert ErrorMessage(e) == prefix + IntToString(e.code);
  }

  /** Distinct errors give distinct messages: the message tells the kind and the code. */
  lemma {:induction false} ErrorMessageInjective(e1: DbError, e2: DbError)
    requires ErrorMessage(e1) == ErrorMessage(e2)
    ensures e1 == e2
  {
    var m1, m2 := ErrorMessage(e1), ErrorMessage(e2);
    ErrorMessageKind(e1);
    ErrorMessageKind(e2);
    if e1.NotExist? == e2.NotExist? {
      var prefix := if e1.NotExist? then NotExistPrefix else InvalidPrefix;
      assert m1 == prefix + IntToString(e1.code) && m2 == prefix + IntToString(e2.code);
      assert IntToString(e1.code) == m1[|prefix|..];
      IntToStringInjective(e1.code, e2.code);
    }
  }

  // ---------------------------------------------------------------------------
  // get_descriptions: the description column without repeats
  // ---------------------------------------------------------------------------

  function Column(table: seq<Row>): (codes: seq<int>)
    ensures |codes| == |table|
    ensures forall i :: 0 <= i < |table| ==> codes[i] == table[i].description
  {
    seq(|table|, i requires 0 <= i < |table| => table[i].description)
  }

  predicate Distinct(s: seq<int>) {
    forall i, j :: 0 <= i < j < |s| ==> s[i] != s[j]
  }

  /**
   * `list(dict.fromkeys(xs))`: each element kept at its first occurrence,
   * later repeats dropped.
   */
  function Dedup(xs: seq<int>): (r: seq<int>)
    ensures forall x :: x in r <==> x in xs
    ensures Distinct(r)
  {
    if xs == [] then []
    else
      var d := Dedup(xs[..|xs| - 1]);
      var x := xs[|xs| - 1];
      assert forall y :: y in xs <==> y in xs[..|xs| - 1] || y == x by {
        assert xs == xs[..|xs| - 1] + [x];
      }
      if x in d then d else d + [x]
  }

  /** The position of the first occurrence of `x`. */
  function FirstIndex(xs: seq<int>, x: int): (k: nat)
    requires x in xs
    ensures k < |xs| && xs[k] == x && x !in xs[..k]
  {
    if xs[0] == x then 0
    else
      var k := FirstIndex(xs[1..], x);
      assert xs[..k + 1] == [xs[0]] + xs[1..][..k];
      k + 1
  }

  lemma FirstIndexUnique(xs: seq<int>, x: int, k: nat)
    requires k < |xs| && xs[k] == x && x !in xs[..k]
    ensures FirstIndex(xs, x) == k
  {
  }

  /** `get_descriptions()` */
  function GetDescriptions(table: seq<Row>): (ds: seq<int>)
    ensures Distinct(ds)
    ensures forall c :: c in ds <==> c in Column(table)
  {
    Dedup(Column(table))
  }

  /**
   * The de-duplicated codes keep the order of their first occurrences: an
   * earlier code in the result first appears earlier in the input.
   */
  lemma {:induction false} DedupKeepsFirstOccurrenceOrder(xs: seq<int>)
    ensures forall i, j :: 0 <= i < j < |Dedup(xs)| ==>
      FirstIndex(xs, Dedup(xs)[i]) < FirstIndex(xs, Dedup(xs)[j])
  {
    if xs != [] {
      var n := |xs|;
      var p, x := xs[..n - 1], xs[n - 1];
      var d := Dedup(p);
      DedupKeepsFirstOccurrenceOrder(p);
      assert xs == p + [x];
      forall y | y in p
        ensures FirstIndex(xs, y) == FirstIndex(p, y) < n - 1
      {
        var k := FirstIndex(p, y);
        assert xs[..k] == p[..k];
        FirstIndexUnique(xs, y, k);
      }
      if x !in d {
        FirstIndexUnique(xs, x, n - 1);
        var r := d + [x];
        assert r[|d|] == x;
        forall i, j | 0 <= i < j < |r|
          ensures FirstIndex(xs, r[i]) < FirstIndex(xs, r[j])
        {
          assert r[i] == d[i] && r[i] in p;
          if j < |d| {
            assert r[j] == d[j] && r[j] in p;
          }
        }
      } else {
        forall i, j | 0 <= i < j < |d|
          ensures FirstIndex(xs, d[i]) < FirstIndex(xs, d[j])
        {
          assert d[i] in p && d[j] in p;
        }
      }
    }
  }

  /** A list without repeats is left as it is. */
  lemma {:induction false} DedupOfDistinct(xs: seq<int>)
    requires Distinct(xs)
    ensures Dedup(xs) == xs
  {
    if xs != [] {
      var n := |xs|;
      var p := xs[..n - 1];
      DedupOfDistinct(p);
      assert xs[n - 1] !in p;
      assert p + [xs[n - 1]] == xs;
    }
  }

  /** Removing repeats twice is the same as removing them once. */
  lemma DedupIdempotent(xs: seq<int>)
    ensures Dedup(Dedup(xs)) == Dedup(xs)
  {
    DedupOfDistinct(Dedup(xs));
  }

  /**
   * `get_descriptions` lists every code of the description column exactly
   * once, in first-occurrence order.
   */
  lemma GetDescriptionsSpec(table: seq<Row>)
    ensures var ds := GetDescriptions(table);
      && Distinct(ds)
      && (forall c :: c in ds <==> exists i :: 0 <= i < |table| && table[i].description == c)
      && (forall i, j :: 0 <= i < j < |ds| ==>
            FirstIndex(Column(table), ds[i]) < FirstIndex(Column(table), ds[j]))
  {
    var col := Column(table);
    DedupKeepsFirstOccurrenceOrder(col);
    forall c ensures c in col <==> exists i :: 0 <= i < |table| && table[i].description == c {
      if c in col {
        var i :| 0 <= i < |col| && col[i] == c;
        assert table[i].description == c;
      }
    }
  }

  // ---------------------------------------------------------------------------
  // __get_price_trigger_from_db: single-row lookup with validation
  // ---------------------------------------------------------------------------

  /** `df[df['description'] == code]`: the rows of `code`, in table order. */
  function Matching(table: seq<Row>, code: int): (rows: seq<Row>)
    ensures |rows| <= |table|
    ensures forall r :: r in rows ==> r in table && r.description == code
  {
    if table == [] then []
    else (if table[0].description == code then [table[0]] else []) + Matching(table[1..], code)
  }

  /** The lookup: exactly one row, a known trigger, an all-digit price. */
  function Lookup(table: seq<Row>, code: int): (r: Result<Threshold, DbError>)
    ensures r.Failure? ==> r.error.code == code
    ensures r.Failure? && r.error.NotExist? <==> Matching(table, code) == []
  {
    var records := Matching(table, code);
    if |records| == 0 then Failure(NotExist(code))
    else if |records| > 1 then Failure(Invalid(code))
    else
      var record := records[0];
      if record.trigger != "under" && record.trigger != "over" then Failure(Invalid(code))
      else if !IsDigits(record.price) then Failure(Invalid(code))
      else Success(Threshold(DigitsValue(record.price), if record.trigger == "over" then Over else Under))
  }

  lemma {:induction false} MatchingEmpty(table: seq<Row>, code: int)
    ensures Matching(table, code) == [] <==>
      forall i :: 0 <= i < |table| ==> table[i].description != code
  {
    if table != [] {
      MatchingEmpty(table[1..], code);
      if Matching(table, code) == [] {
        forall i | 0 <= i < |table| ensures table[i].description != code {
          if i > 0 { assert table[i] == table[1..][i - 1]; }
        }
      } else if table[0].description != code {
        var i :| 0 <= i < |table[1..]| && table[1..][i].description == code;
        assert table[i + 1].description == code;
      }
    }
  }

  lemma {:induction false} MatchingTwo(table: seq<Row>, code: int, i: nat, j: nat)
    requires i < j < |table|
    requires table[i].description == code && table[j].description == code
    ensures |Matching(table, code)| >= 2
  {
    if i > 0 {
      MatchingTwo(table[1..], code, i - 1, j - 1);
    } else {
      MatchingEmpty(table[1..], code);
      assert table[1..][j - 1].description == code;
    }
  }

  lemma {:induction false} MatchingOne(table: seq<Row>, code: int, i: nat)
    requires i < |table| && table[i].description == code
    requires forall j :: 0 <= j < |table| && j != i ==> table[j].description != code
    ensures Matching(table, code) == [table[i]]
  {
    if i > 0 {
      forall j | 0 <= j < |table[1..]| && j != i - 1 ensures table[1..][j].description != code {
        assert table[1..][j] == table[j + 1];
      }
      MatchingOne(table[1..], code, i - 1);
    } else {
      MatchingEmpty(table[1..], code);
      forall j | 0 <= j < |table[1..]| ensures table[1..][j].description != code {
        assert table[1..][j] == table[j + 1];
      }
    }
  }

  /** Every row of the code is among the selected records. */
  lemma {:induction false} MatchingComplete(table: seq<Row>, code: int, i: nat)
    requires i < |table| && table[i].description == code
    ensures table[i] in Matching(table, code)
  {
    if i > 0 {
      assert table[i] == table[1..][i - 1];
      MatchingComplete(table[1..], code, i - 1);
    }
  }

  /** Zero matching rows: the "not exist" error naming the code, and only then. */
  lemma LookupNotExist(table: seq<Row>, code: int)
    ensures Lookup(table, code) == Failure(NotExist(code)) <==>
      forall i :: 0 <= i < |table| ==> table[i].description != code
  {
    MatchingEmpty(table, code);
  }

  /** Two rows for the same code: the "invalid" error naming the code. */
  lemma LookupDuplicate(table: seq<Row>, code: int, i: nat, j: nat)
    requires i < j < |table|
    requires table[i].description == code && table[j].description == code
    ensures Lookup(table, code) == Failure(Invalid(code))
  {
    MatchingTwo(table, code, i, j);
  }

  /**
   * One row for the code: it is rejected as invalid unless its trigger is
   * exactly "over" or "under" and its price is a non-empty digit string;
   * otherwise the lookup gives the digits' value and the direction.
   */
  lemma LookupSingle(table: seq<Row>, code: int, i: nat)
    requires i < |table| && table[i].description == code
    requires forall j :: 0 <= j < |table| && j != i ==> table[j].description != code
    ensures var row := table[i];
      var valid := (row.trigger == "over" || row.trigger == "under") && IsDigits(row.price);
      && (!valid ==> Lookup(table, code) == Failure(Invalid(code)))
      && (valid ==>
            Lookup(table, code) ==
              Success(Threshold(DigitsValue(row.price), if row.trigger == "over" then Over else Under)))
  {
    MatchingOne(table, code, i);
  }

  /** A successful lookup rests on exactly one valid row of that code. */
  lemma LookupSuccessRow(table: seq<Row>, code: int)
    requires Lookup(table, code).Success?
    ensures exists i ::
      && 0 <= i < |table| && table[i].description == code
      && IsDigits(table[i].price) && DigitsValue(table[i].price) == Lookup(table, code).value.price
      && table[i].trigger == (if Lookup(table, code).value.trigger == Over then "over" else "under")
    ensures forall i, j :: 0 <= i < j < |table| && table[i].description == code ==>
      table[j].description != code
  {
    var row := Matching(table, code)[0];
    assert row in table;
    var i :| 0 <= i < |table| && table[i] == row;
    forall i, j | 0 <= i < j < |table| && table[i].description == code
      ensures table[j].description != code
    {
      if table[j].description == code {
        LookupDuplicate(table, code, i, j);
      }
    }
  }

  // ---------------------------------------------------------------------------
  // get_judge_func: the inclusive threshold predicate
  // ---------------------------------------------------------------------------

  /** `judge_func(now_price)` for a validated row. */
  function Judge(th: Threshold, nowPrice: real): (fires: bool)
    ensures th.trigger == Over ==> (fires <==> nowPrice >= th.price as real)
    ensures th.trigger == Under ==> (fires <==> nowPrice <= th.price as real)
  {
    if th.trigger == Over then nowPrice - th.price as real >= 0.0
    else th.price as real - nowPrice >= 0.0
  }

  /** Both directions fire at the threshold itself, and one unit past it. */
  lemma JudgeAtBoundary(th: Threshold)
    ensures Judge(th, th.price as real)
    ensures th.trigger == Over ==>
      Judge(th, th.price as real + 1.0) && !Judge(th, th.price as real - 1.0)
    ensures th.trigger == Under ==>
      Judge(th, th.price as real - 1.0) && !Judge(th, th.price as real + 1.0)
  {
  }

  /** `get_judge_func(code)`: fails as the lookup fails, else the row's predicate. */
  function GetJudgeFunc(table: seq<Row>, code: int): (r: Result<real -> bool, DbError>)
    ensures r.Failure? <==> Lookup(table, code).Failure?
    ensures r.Failure? ==> r.error == Lookup(table, code).error
    ensures r.Success? ==> forall now :: r.value(now) == Judge(Lookup(table, code).value, now)
  {
    match Lookup(table, code)
    case Success(th) => Success(now => Judge(th, now))
    case Failure(e) => Failure(e)
  }

  /**
   * For the single valid "over" row of a code with price text `p`, the judge
   * holds exactly at prices at or above the value of `p`.
   */
  lemma JudgeOverRow(table: seq<Row>, code: int, i: nat, now: real)
    requires i < |table| && table[i].description == code
    requires forall j :: 0 <= j < |table| && j != i ==> table[j].description != code
    requires table[i].trigger == "over" && IsDigits(table[i].price)
    ensures GetJudgeFunc(table, code).Success?
    ensures GetJudgeFunc(table, code).value(now) <==> now >= DigitsValue(table[i].price) as real
  {
    LookupSingle(table, code, i);
  }

  /**
   * For the single valid "under" row of a code with price text `p`, the
   * judge holds exactly at prices at or below the value of `p`.
   */
  lemma JudgeUnderRow(table: seq<Row>, code: int, i: nat, now: real)
    requires i < |table| && table[i].description == code
    requires forall j :: 0 <= j < |table| && j != i ==> table[j].description != code
    requires table[i].trigger == "under" && IsDigits(table[i].price)
    ensures GetJudgeFunc(table, code).Success?
    ensures GetJudgeFunc(table, code).value(now) <==> now <= DigitsValue(table[i].price) as real
  {
    LookupSingle(table, code, i);
  }

  // ---------------------------------------------------------------------------
  // make_alert_message / make_fail_message
  // ---------------------------------------------------------------------------

  const CodeLabel: string := "銘柄コード: "
  const PriceLabel: string := " が 価格: "
  const YenLabel: string := " 円を"
  const FellBelow: string := "下回りました。"
  const RoseAbove: string := "上回りました。"
  const FailSuffix: string := "のDB登録取得が失敗しました。"

  /** The closing word of an alert: "fell below" for under, "rose above" for over. */
  function Direction(trigger: Trigger): (word: string)
    ensures word == FellBelow <==> trigger == Under
    ensures word == RoseAbove <==> trigger == Over
  {
    assert FellBelow[0] != RoseAbove[0];
    match trigger
    case Under => FellBelow
    case Over => RoseAbove
  }

  /**
   * `m` opens with the label `a`, then the value `b`, and closes with the
   * word `d`.
   */
  predicate Framed(m: string, a: string, b: string, d: string) {
    |m| >= |a| + |b| + |d| && m[..|a|] == a && m[|a|..|a| + |b|] == b && m[|m| - |d|..] == d
  }

  /** The alert text for a code, its threshold price and its direction. */
  function AlertText(code: int, price: nat, trigger: Trigger): (m: string)
    ensures Framed(m, CodeLabel, IntToString(code), Direction(trigger))
  {
    var rest := AfterCode(price, trigger);
    ThreeParts(CodeLabel, IntToString(code), rest, Direction(trigger));
    CodeLabel + (IntToString(code) + rest)
  }

  /** Where the three parts of `a + (b + c)` sit, when `c` ends in `d`. */
  lemma ThreeParts(a: string, b: string, c: string, d: string)
    requires |d| <= |c| && c[|c| - |d|..] == d
    ensures Framed(a + (b + c), a, b, d)
  {
    ConcatParts(a, b + c);
    ConcatParts(b, c);
    ConcatSuffix(a, b + c, |d|);
    ConcatSuffix(b, c, |d|);
  }

  /** What follows the code in an alert: the price phrase and the direction word. */
  function AfterCode(price: nat, trigger: Trigger): (rest: string)
    ensures |rest| >= |Direction(trigger)| && rest[|rest| - |Direction(trigger)|..] == Direction(trigger)
    ensures rest[0] == ' '
  {
    var d := Direction(trigger);
    ConcatSuffix(YenLabel, d, |d|);
    ConcatSuffix(FormatPrice(price), YenLabel + d, |d|);
    ConcatSuffix(PriceLabel, FormatPrice(price) + (YenLabel + d), |d|);
    PriceLabel + (FormatPrice(price) + (YenLabel + d))
  }

  lemma ConcatParts(a: string, b: string)
    ensures (a + b)[..|a|] == a && (a + b)[|a|..] == b
  {
  }

  lemma ConcatSuffix(a: string, b: string, k: nat)
    requires k <= |b|
    ensures (a + b)[|a + b| - k..] == b[|b| - k..]
  {
  }

  lemma DropPrefix(prefix: string, a: string, b: string)
    requires prefix + a == prefix + b
    ensures a == b
  {
    ConcatParts(prefix, a);
    ConcatParts(prefix, b);
  }

  lemma DirectionFirst(trigger: Trigger)
    ensures |Direction(trigger)| > 0
    ensures Direction(trigger)[0] == if trigger == Under then '下' else '上'
  {
  }

  /**
   * The alert text determines the code, the threshold and the direction:
   * code and price are printed without spaces, so the labels around them
   * split the text in one way only.
   */
  lemma {:induction false} AlertTextInjective(c1: int, p1: nat, t1: Trigger, c2: int, p2: nat, t2: Trigger)
    requires AlertText(c1, p1, t1) == AlertText(c2, p2, t2)
    ensures c1 == c2 && p1 == p2 && t1 == t2
  {
    var s1, s2 := IntToString(c1), IntToString(c2);
    var f1, f2 := FormatPrice(p1), FormatPrice(p2);
    var d1, d2 := Direction(t1), Direction(t2);
    FormatPriceNoSpace(p1);
    FormatPriceNoSpace(p2);
    var r1, r2 := AfterCode(p1, t1), AfterCode(p2, t2);
    DropPrefix(CodeLabel, s1 + r1, s2 + r2);
    SplitAtSpace(s1, r1, s2, r2);
    IntToStringInjective(c1, c2);
    DropPrefix(PriceLabel, f1 + (YenLabel + d1), f2 + (YenLabel + d2));
    SplitAtSpace(f1, YenLabel + d1, f2, YenLabel + d2);
    FormatPriceInjective(p1, p2);
    DropPrefix(YenLabel, d1, d2);
    DirectionFirst(t1);
    DirectionFirst(t2);
  }

  /** The alert text as the part up to the price and the part from the price on. */
  lemma AlertTextSplit(code: int, price: nat, trigger: Trigger)
    ensures AlertText(code, price, trigger) ==
      (CodeLabel + IntToString(code) + PriceLabel) + (FormatPrice(price) + YenLabel + Direction(trigger))
  {
    var c, p, d := IntToString(code), FormatPrice(price), Direction(trigger);
    assert CodeLabel + (c + (PriceLabel + (p + (YenLabel + d)))) == (CodeLabel + c + PriceLabel) + (p + YenLabel + d);
  }

  // The two alert texts of the sample watch list: code 12345 with threshold
  // 134 "over", and code 8267 with threshold 2700 "under". Each is built from
  // its part up to the price and its part from the price on, kept in lemmas
  // of their own so that each literal is compared with a short concatenation.

  lemma AlertHead12345()
    ensures CodeLabel + IntToString(12345) + PriceLabel == "銘柄コード: 12345 が 価格: "
  {
    Digits12345();
  }

  lemma AlertTail134Over()
    ensures FormatPrice(134) + YenLabel + Direction(Over) == "134.0 円を上回りました。"
  {
    FormatPriceUngrouped();
    RoseAboveAfter134();
  }

  lemma RoseAboveAfter134()
    ensures "134.0" + YenLabel + RoseAbove == "134.0 円を上回りました。"
  {
  }

  lemma AlertJoin12345()
    ensures "銘柄コード: 12345 が 価格: " + "134.0 円を上回りました。" == "銘柄コード: 12345 が 価格: 134.0 円を上回りました。"
  {
  }

  /** An "over" alert: the rendered price has no separator below a thousand. */
  lemma AlertTextOverExample()
    ensures AlertText(12345, 134, Over) == "銘柄コード: 12345 が 価格: 134.0 円を上回りました。"
  {
    AlertTextSplit(12345, 134, Over);
    AlertHead12345();
    AlertTail134Over();
    AlertJoin12345();
  }

  lemma AlertHead8267()
    ensures CodeLabel + IntToString(8267) + PriceLabel == "銘柄コード: 8267 が 価格: "
  {
    Digits8267();
  }

  lemma AlertTail2700Under()
    ensures FormatPrice(2700) + YenLabel + Direction(Under) == "2,700.0 円を下回りました。"
  {
    FormatPriceGrouped();
    FellBelowAfter2700();
  }

  lemma FellBelowAfter2700()
    ensures "2,700.0" + YenLabel + FellBelow == "2,700.0 円を下回りました。"
  {
  }

  lemma AlertJoin8267()
    ensures "銘柄コード: 8267 が 価格: " + "2,700.0 円を下回りました。" == "銘柄コード: 8267 が 価格: 2,700.0 円を下回りました。"
  {
  }

  /** An "under" alert: the thousands of the price are split off by a comma. */
  lemma AlertTextUnderExample()
    ensures AlertText(8267, 2700, Under) == "銘柄コード: 8267 が 価格: 2,700.0 円を下回りました。"
  {
    AlertTextSplit(8267, 2700, Under);
    AlertHead8267();
    AlertTail2700Under();
    AlertJoin8267();
  }

  /** `make_alert_message(code)`: the lookup's error, or the alert text of the row. */
  function MakeAlertMessage(table: seq<Row>, code: int): (r: Result<string, DbError>)
    ensures r.Failure? <==> Lookup(table, code).Failure?
    ensures r.Failure? ==> r.error == Lookup(table, code).error
    ensures r.Success? ==> var th := Lookup(table, code).value;
      r.value == AlertText(code, th.price, th.trigger)
  {
    match Lookup(table, code)
    case Success(th) => Success(AlertText(code, th.price, th.trigger))
    case Failure(e) => Failure(e)
  }

  /** `make_fail_message(code)`: never fails and reads nothing but the code. */
  function MakeFailMessage(code: int): (m: string)
    ensures |m| == |CodeLabel| + |IntToString(code)| + |FailSuffix|
    ensures m[..|CodeLabel|] == CodeLabel
    ensures m[|CodeLabel|..|CodeLabel| + |IntToString(code)|] == IntToString(code)
    ensures m[|CodeLabel| + |IntToString(code)|..] == FailSuffix
  {
    CodeLabel + IntToString(code) + FailSuffix
  }

  /** Different codes get different failure messages. */
  lemma MakeFailMessageInjective(c1: int, c2: int)
    requires MakeFailMessage(c1) == MakeFailMessage(c2)
    ensures c1 == c2
  {
    IntToStringInjective(c1, c2);
  }

  // ---------------------------------------------------------------------------
  // get_description_groups: partition into [over_group, under_group]
  // ---------------------------------------------------------------------------

  predicate InGroup(table: seq<Row>, code: int, trigger: Trigger) {
    Lookup(table, code).Success? && Lookup(table, code).value.trigger == trigger
  }

  /** The codes of `codes`, in order, whose lookup succeeds with direction `trigger`. */
  function Select(table: seq<Row>, codes: seq<int>, trigger: Trigger): (group: seq<int>)
    ensures forall c :: c in group <==> c in codes && InGroup(table, c, trigger)
  {
    if codes == [] then []
    else
      var rest := Select(table, codes[..|codes| - 1], trigger);
      var c := codes[|codes| - 1];
      assert codes == codes[..|codes| - 1] + [c];
      if InGroup(table, c, trigger) then rest + [c] else rest
  }

  /** Selecting from a concatenation selects from each part, in order. */
  lemma {:induction false} SelectAppend(table: seq<Row>, a: seq<int>, b: seq<int>, trigger: Trigger)
    ensures Select(table, a + b, trigger) == Select(table, a, trigger) + Select(table, b, trigger)
  {
    if b == [] {
      assert a + b == a;
    } else {
      var b' := b[..|b| - 1];
      assert (a + b)[..|a + b| - 1] == a + b';
      SelectAppend(table, a, b', trigger);
    }
  }

  /** Selecting from a list without repeats gives a list without repeats. */
  lemma {:induction false} SelectDistinct(table: seq<Row>, codes: seq<int>, trigger: Trigger)
    requires Distinct(codes)
    ensures Distinct(Select(table, codes, trigger))
  {
    if codes != [] {
      var p := codes[..|codes| - 1];
      SelectDistinct(table, p, trigger);
      assert codes[|codes| - 1] !in p;
    }
  }

  /**
   * A group keeps the order of the list it is selected from: the members
   * picked from the first `k` codes come first, followed by those picked
   * from the rest.
   */
  lemma SelectKeepsOrder(table: seq<Row>, codes: seq<int>, trigger: Trigger, k: nat)
    requires k <= |codes|
    ensures Select(table, codes[..k], trigger) <= Select(table, codes, trigger)
    ensures Select(table, codes, trigger) == Select(table, codes[..k], trigger) + Select(table, codes[k..], trigger)
  {
    assert codes[..k] + codes[k..] == codes;
    SelectAppend(table, codes[..k], codes[k..], trigger);
  }

  /**
   * `get_description_groups()`: walks the distinct codes once, appending each
   * code whose lookup succeeds to the over or the under group and skipping
   * the codes whose lookup raises.
   */
  method GetDescriptionGroups(table: seq<Row>) returns (groups: seq<seq<int>>)
    ensures |groups| == 2
    ensures groups[0] == Select(table, GetDescriptions(table), Over)
    ensures groups[1] == Select(table, GetDescriptions(table), Under)
  {
    var overGroup: seq<int> := [];
    var underGroup: seq<int> := [];
    var descriptions := GetDescriptions(table);
    var i := 0;
    while i < |descriptions|
      invariant 0 <= i <= |descriptions|
      invariant overGroup == Select(table, descriptions[..i], Over)
      invariant underGroup == Select(table, descriptions[..i], Under)
    {
      var description := descriptions[i];
      assert descriptions[..i + 1][..i] == descriptions[..i];
      var found := Lookup(table, description);
      if found.Success? {
        if found.value.trigger == Over {
          overGroup := overGroup + [description];
        } else {
          underGroup := underGroup + [description];
        }
      }
      i := i + 1;
    }
    assert descriptions[..i] == descriptions;
    groups := [overGroup, underGroup];
  }

  /**
   * The two groups partition the listed codes whose lookup succeeds: such a
   * code sits in exactly one group, the one of its direction, exactly once;
   * a code whose lookup fails sits in neither.
   */
  lemma GroupsPartition(table: seq<Row>, code: int)
    ensures var ds := GetDescriptions(table);
      var over, under := Select(table, ds, Over), Select(table, ds, Under);
      && Distinct(over) && Distinct(under)
      && (code in ds && Lookup(table, code).Success? ==>
            (code in over <==> Lookup(table, code).value.trigger == Over) &&
            (code in under <==> Lookup(table, code).value.trigger == Under))
      && (Lookup(table, code).Failure? ==> code !in over && code !in under)
  {
    SelectDistinct(table, GetDescriptions(table), Over);
    SelectDistinct(table, GetDescriptions(table), Under);
  }
}
