/** The stock-market feature store's driver: its two registered tasks and
    the previous-close-date rule. Dates are proleptic Gregorian ordinals as
    Python's `date.toordinal()` numbers them: 0001-01-01 is day 1 (a
    Monday) and 9999-12-31 is the last day a `date` can hold. */
module FeatureStore {
  import opened Wrappers
  import opened TaskPipeline

  // ---------------------------------------------------------------------------
  // Task registration
  // ---------------------------------------------------------------------------

  const FirstTask := "first_task"
  const SecondTask := "second_task"

  /** The module body: `first_task` without a dependency, then
      `second_task` after it. */
  method Register() returns (p: Pipeline<string>)
    ensures fresh(p)
    ensures p.tasks == [FirstTask, SecondTask]
  {
    p := new Pipeline();
    var r1 := p.Task(FirstTask, None);
    assert p.tasks == [FirstTask];
    var r2 := p.Task(SecondTask, Some(FirstTask));
    assert IndexOf([FirstTask], FirstTask) == 0;
  }

  /** The registered pipeline fetches the history, then engineers the
      features from it. */
  lemma {:induction false} RunOrder<X>(call: string -> X -> X, x: X)
    ensures RunAll([FirstTask, SecondTask], call, x) == call(SecondTask)(call(FirstTask)(x))
  {
    var ts := [FirstTask, SecondTask];
    var y1 := call(FirstTask)(x);
    var y2 := call(SecondTask)(y1);
    assert ts[1..] == [SecondTask];
    assert [SecondTask][1..] == [];
    calc {
      RunAll(ts, call, x);
      RunAll([SecondTask], call, y1);
      RunAll([], call, y2);
    }
  }

  // ---------------------------------------------------------------------------
  // get_prev_close_date
  // ---------------------------------------------------------------------------

  /** `date.max.toordinal()`. */
  const MaxOrdinal := 3652059

  type Date = d: int | 1 <= d <= MaxOrdinal witness 1

  /** `date.weekday()`: Monday is 0 and Sunday is 6. */
  function Weekday(d: Date): (w: nat)
    ensures w < 7
  {
    (d + 6) % 7
  }

  /** The day before `today` as the Python code finds it: step back one day,
      and once more while the day's weekday number exceeds 5. Stepping back
      from the first representable day raises OverflowError. */
  function PrevCloseDate(today: Date): (r: Result<Date, PyError>)
    ensures r.Failure? <==> today == 1
    ensures r.Failure? ==> r.error == OverflowError
  {
    if today == 1 then Failure(OverflowError)
    else if Weekday(today - 1) > 5 then Success(today - 2)
    else Success(today - 1)
  }

  /** The previous close date is strictly earlier, at most two days back, and
      never a Sunday. */
  lemma PrevCloseDateSpec(today: Date)
    requires today > 1
    ensures var r := PrevCloseDate(today).value;
      today - 2 <= r < today && Weekday(r) != 6
  {
    if Weekday(today - 1) > 5 {
      assert Weekday(today - 2) == 5;
    }
  }

  /** Only Sunday is skipped: the result is the day before unless that is a
      Sunday, and then the Saturday before it. */
  lemma PrevCloseDateRule(today: Date)
    requires today > 1
    ensures PrevCloseDate(today).value == today - 1 <==> Weekday(today - 1) != 6
    ensures PrevCloseDate(today).value == today - 2 <==> Weekday(today - 1) == 6
  {
  }

  /** A Monday's previous close date is the Saturday before it, and a
      Sunday's is the Saturday too. */
  lemma PrevCloseDateWeekend(today: Date)
    requires today > 2
    ensures Weekday(today) == 0 ==> Weekday(PrevCloseDate(today).value) == 5
    ensures Weekday(today) == 6 ==> Weekday(PrevCloseDate(today).value) == 5
  {
  }

  /** The `while` loop of `get_prev_close_date`; it runs at most once. */
  method GetPrevCloseDate(today: Date) returns (r: Result<Date, PyError>)
    ensures r == PrevCloseDate(today)
  {
    if today == 1 {
      return Failure(OverflowError);
    }
    var prev: Date := today - 1;
    var steps := 0;
    while Weekday(prev) > 5
      invariant prev == today - 1 - steps && 0 <= steps <= 1
      invariant steps == 1 ==> Weekday(today - 1) == 6
      decreases prev
    {
      prev := prev - 1;
      steps := steps + 1;
    }
    r := Success(prev);
  }
}
