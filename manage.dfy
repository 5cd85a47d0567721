/** The government-contracts driver: its three registered tasks and the
    strings `last_task` builds for each table's INSERT statement. */
module Manage {
  import opened Wrappers
  import opened PyStr
  import opened TaskPipeline

  // ---------------------------------------------------------------------------
  // Task registration
  // ---------------------------------------------------------------------------

  // The decorated functions, named by their Python names.
  const FirstTask := "first_task"
  const SecondTask := "second_task"
  const LastTask := "last_task"

  /** The module body: `first_task` without a dependency, `second_task`
      after `first_task`, `last_task` after `second_task`. */
  method Register() returns (p: Pipeline<string>)
    ensures fresh(p)
    ensures p.tasks == [FirstTask, SecondTask, LastTask]
  {
    p := new Pipeline();
    var r1 := p.Task(FirstTask, None);
    assert p.tasks == [FirstTask];
    var r2 := p.Task(SecondTask, Some(FirstTask));
    assert IndexOf([FirstTask], FirstTask) == 0;
    assert p.tasks == [FirstTask, SecondTask];
    var r3 := p.Task(LastTask, Some(SecondTask));
    assert IndexOf([FirstTask, SecondTask], SecondTask) == 1;
  }

  /** Running the registered pipeline cleans, then sets up the database,
      then inserts: each task receives the previous one's result. */
  lemma {:induction false} RunOrder<X>(call: string -> X -> X, x: X)
    ensures RunAll([FirstTask, SecondTask, LastTask], call, x)
      == call(LastTask)(call(SecondTask)(call(FirstTask)(x)))
  {
    var ts := [FirstTask, SecondTask, LastTask];
    var y1 := call(FirstTask)(x);
    var y2 := call(SecondTask)(y1);
    var y3 := call(LastTask)(y2);
    assert ts[1..] == [SecondTask, LastTask];
    assert [SecondTask, LastTask][1..] == [LastTask];
    assert [LastTask][1..] == [];
    calc {
      RunAll(ts, call, x);
      RunAll([SecondTask, LastTask], call, y1);
      RunAll([LastTask], call, y2);
      RunAll([], call, y3);
    }
  }

  // ---------------------------------------------------------------------------
  // Python's sorted() on strings
  // ---------------------------------------------------------------------------

  /** Python's `a <= b` on strings: code point by code point, a proper
      prefix first. */
  predicate StrLe(a: string, b: string)
    decreases |a|
  {
    |a| == 0 || (|b| > 0 && (a[0] < b[0] || (a[0] == b[0] && StrLe(a[1..], b[1..]))))
  }

  lemma {:induction false} StrLeTotal(a: string, b: string)
    ensures StrLe(a, b) || StrLe(b, a)
    decreases |a|
  {
    if |a| > 0 && |b| > 0 && a[0] == b[0] {
      StrLeTotal(a[1..], b[1..]);
    }
  }

  lemma {:induction false} StrLeRefl(a: string)
    ensures StrLe(a, a)
    decreases |a|
  {
    if |a| > 0 {
      StrLeRefl(a[1..]);
    }
  }

  lemma {:induction false} StrLeTrans(a: string, b: string, c: string)
    requires StrLe(a, b) && StrLe(b, c)
    ensures StrLe(a, c)
    decreases |a|
  {
    if |a| > 0 && a[0] == b[0] && b[0] == c[0] {
      StrLeTrans(a[1..], b[1..], c[1..]);
    }
  }

  lemma {:induction false} StrLeAntisym(a: string, b: string)
    requires StrLe(a, b) && StrLe(b, a)
    ensures a == b
    decreases |a|
  {
    if |a| > 0 {
      StrLeAntisym(a[1..], b[1..]);
      assert a == [a[0]] + a[1..];
      assert b == [b[0]] + b[1..];
    }
  }

  predicate SortedStrs(xs: seq<string>) {
    forall i, j :: 0 <= i < j < |xs| ==> StrLe(xs[i], xs[j])
  }

  /** One step of insertion sort. */
  function InsertSorted(x: string, xs: seq<string>): seq<string>
    decreases |xs|
  {
    if |xs| == 0 then [x]
    else if StrLe(x, xs[0]) then [x] + xs
    else [xs[0]] + InsertSorted(x, xs[1..])
  }

  /** `sorted(xs)` on a list of strings. */
  function SortStrs(xs: seq<string>): seq<string>
    decreases |xs|
  {
    if |xs| == 0 then [] else InsertSorted(xs[0], SortStrs(xs[1..]))
  }

  /** A string below every element of a sorted list can go in front. */
  lemma ConsSorted(x: string, xs: seq<string>)
    requires SortedStrs(xs) && forall k :: 0 <= k < |xs| ==> StrLe(x, xs[k])
    ensures SortedStrs([x] + xs)
  {
    var r := [x] + xs;
    forall i, j | 0 <= i < j < |r| ensures StrLe(r[i], r[j]) {
      assert r[j] == xs[j - 1];
      if i > 0 {
        assert r[i] == xs[i - 1];
      }
    }
  }

  /** A lower bound of a list's elements bounds every permutation of it. */
  lemma LowerBoundMoves(y: string, t: seq<string>, s: seq<string>)
    requires multiset(t) == multiset(s) && forall k :: 0 <= k < |s| ==> StrLe(y, s[k])
    ensures forall k :: 0 <= k < |t| ==> StrLe(y, t[k])
  {
    forall k | 0 <= k < |t| ensures StrLe(y, t[k]) {
      assert t[k] in multiset(s);
      var m :| 0 <= m < |s| && s[m] == t[k];
    }
  }

  lemma {:induction false} InsertSortedSpec(x: string, xs: seq<string>)
    requires SortedStrs(xs)
    ensures SortedStrs(InsertSorted(x, xs))
    ensures multiset(InsertSorted(x, xs)) == multiset(xs) + multiset{x}
    decreases |xs|
  {
    if |xs| == 0 {
    } else if StrLe(x, xs[0]) {
      InsertFront(x, xs);
    } else {
      InsertSortedSpec(x, xs[1..]);
      InsertLater(x, xs);
    }
  }

  /** A string not above the head goes in front. */
  lemma InsertFront(x: string, xs: seq<string>)
    requires |xs| > 0 && SortedStrs(xs) && StrLe(x, xs[0])
    ensures SortedStrs([x] + xs)
  {
    forall k | 0 <= k < |xs| ensures StrLe(x, xs[k]) {
      if k > 0 {
        StrLeTrans(x, xs[0], xs[k]);
      }
    }
    ConsSorted(x, xs);
  }

  /** A string above the head is inserted into the tail, below the head. */
  lemma InsertLater(x: string, xs: seq<string>)
    requires |xs| > 0 && SortedStrs(xs) && !StrLe(x, xs[0])
    requires SortedStrs(InsertSorted(x, xs[1..]))
    requires multiset(InsertSorted(x, xs[1..])) == multiset(xs[1..]) + multiset{x}
    ensures InsertSorted(x, xs) == [xs[0]] + InsertSorted(x, xs[1..])
    ensures SortedStrs(InsertSorted(x, xs))
    ensures multiset(InsertSorted(x, xs)) == multiset(xs) + multiset{x}
  {
    StrLeTotal(x, xs[0]);
    var t := InsertSorted(x, xs[1..]);
    var s := [x] + xs[1..];
    forall k | 0 <= k < |s| ensures StrLe(xs[0], s[k]) {
      if k > 0 {
        assert s[k] == xs[k];
      }
    }
    LowerBoundMoves(xs[0], t, s);
    ConsSorted(xs[0], t);
    assert xs == [xs[0]] + xs[1..];
  }

  /** `sorted` returns the same strings, in order. */
  lemma {:induction false} SortStrsSpec(xs: seq<string>)
    ensures SortedStrs(SortStrs(xs))
    ensures multiset(SortStrs(xs)) == multiset(xs)
    decreases |xs|
  {
    if |xs| > 0 {
      SortStrsSpec(xs[1..]);
      InsertSortedSpec(xs[0], SortStrs(xs[1..]));
      assert xs == [xs[0]] + xs[1..];
    }
  }

  /** A sorted list is fixed by its contents: whatever order the columns come
      in, `sorted` gives one and the same list. */
  lemma {:induction false} SortedUnique(a: seq<string>, b: seq<string>)
    requires SortedStrs(a) && SortedStrs(b) && multiset(a) == multiset(b)
    ensures a == b
    decreases |a|
  {
    if |a| > 0 {
      SameHead(a, b);
      TailMultiset(a);
      TailMultiset(b);
      SortedUnique(a[1..], b[1..]);
      assert a == [a[0]] + a[1..] && b == [b[0]] + b[1..];
    }
  }

  /** Two sorted lists with the same contents start with the same string. */
  lemma SameHead(a: seq<string>, b: seq<string>)
    requires |a| > 0 && SortedStrs(a) && SortedStrs(b) && multiset(a) == multiset(b)
    ensures |b| > 0 && a[0] == b[0]
  {
    assert a[0] in multiset(b);
    var i :| 0 <= i < |b| && b[i] == a[0];
    assert b[0] in multiset(a);
    var j :| 0 <= j < |a| && a[j] == b[0];
    StrLeRefl(a[0]);
    StrLeRefl(b[0]);
    assert StrLe(b[0], a[0]);
    assert StrLe(a[0], b[0]);
    StrLeAntisym(a[0], b[0]);
  }

  lemma TailMultiset(a: seq<string>)
    requires |a| > 0
    ensures multiset(a[1..]) == multiset(a) - multiset{a[0]}
  {
    assert a == [a[0]] + a[1..];
  }

  /** The loop over `db.all_tbl_cols` that sorts every table's column list
      in place. */
  method SortColumns(cols: map<string, seq<string>>) returns (r: map<string, seq<string>>)
    ensures r == map t | t in cols :: SortStrs(cols[t])
  {
    r := cols;
    var todo := cols.Keys;
    while todo != {}
      invariant todo <= cols.Keys && r.Keys == cols.Keys
      invariant forall t :: t in cols && t !in todo ==> r[t] == SortStrs(cols[t])
      invariant forall t :: t in todo ==> r[t] == cols[t]
      decreases todo
    {
      var t :| t in todo;
      r := r[t := SortStrs(r[t])];
      todo := todo - {t};
    }
  }

  /** After the loop every table's columns are in order and are the same
      columns as before. */
  lemma SortColumnsSpec(cols: map<string, seq<string>>, t: string)
    requires t in cols
    ensures var s := (map t | t in cols :: SortStrs(cols[t]))[t];
      SortedStrs(s) && multiset(s) == multiset(cols[t])
  {
    SortStrsSpec(cols[t]);
  }

  // ---------------------------------------------------------------------------
  // The INSERT statement of last_task
  // ---------------------------------------------------------------------------

  /** `('?,' * n).rstrip(',')`. */
  function Placeholders(n: nat): string {
    RStrip(Repeat("?,", n), ',')
  }

  /** `n` question marks. */
  function Marks(n: nat): seq<string> {
    seq(n, _ => "?")
  }

  lemma {:induction false} RepeatMarks(n: nat)
    requires n > 0
    ensures Repeat("?,", n) == Join(Marks(n), ",") + ","
  {
    if n == 1 {
      assert Marks(1) == ["?"];
      assert Repeat("?,", 0) == [];
    } else {
      RepeatMarks(n - 1);
      assert Marks(n)[1..] == Marks(n - 1);
      assert Marks(n)[0] == "?";
      calc {
        Repeat("?,", n);
        "?," + Repeat("?,", n - 1);
        "?," + (Join(Marks(n - 1), ",") + ",");
        ("?" + "," + Join(Marks(n - 1), ",")) + ",";
        Join(Marks(n), ",") + ",";
      }
    }
  }

  lemma {:induction false} JoinMarksEnds(n: nat)
    requires n > 0
    ensures var j := Join(Marks(n), ","); |j| > 0 && j[|j| - 1] == '?'
  {
    if n > 1 {
      JoinMarksEnds(n - 1);
      assert Marks(n)[1..] == Marks(n - 1);
    } else {
      assert Marks(1) == ["?"];
    }
  }

  /** The VALUES list for `n` columns is `n` question marks joined by
      commas; none for no column. */
  lemma PlaceholdersSpec(n: nat)
    ensures Placeholders(n) == Join(Marks(n), ",")
  {
    if n > 0 {
      RepeatMarks(n);
      JoinMarksEnds(n);
      var j := Join(Marks(n), ",");
      assert (j + ",")[..|j + ","| - 1] == j;
      assert RStrip(j + ",", ',') == RStrip(j, ',');
      assert RStrip(j, ',') == j;
    } else {
      assert Marks(0) == [];
    }
  }

  /** `','.join(cols).rstrip(',')`. */
  function ColumnNames(cols: seq<string>): string {
    RStrip(Join(cols, ","), ',')
  }

  lemma {:induction false} JoinLast(cols: seq<string>)
    requires |cols| > 0 && |cols[|cols| - 1]| > 0
    ensures var j := Join(cols, ",");
      |j| > 0 && j[|j| - 1] == cols[|cols| - 1][|cols[|cols| - 1]| - 1]
    decreases |cols|
  {
    if |cols| > 1 {
      JoinLast(cols[1..]);
    }
  }

  /** The `rstrip` only matters when the last column name ends in a comma:
      otherwise the column list is the names joined by commas. */
  lemma ColumnNamesSpec(cols: seq<string>)
    requires |cols| > 0
    requires var last := cols[|cols| - 1]; |last| > 0 && last[|last| - 1] != ','
    ensures ColumnNames(cols) == Join(cols, ",")
  {
    JoinLast(cols);
  }

  /** The statement for one table, given its (sorted) columns and the
      number of rows to insert. `values[0]` of an empty row tuple raises
      IndexError; a record has one value per column. */
  function InsertQuery(table: string, cols: seq<string>, rows: nat): (r: Result<string, PyError>)
    ensures rows == 0 <==> r == Failure(IndexError)
  {
    if rows == 0 then Failure(IndexError)
    else Success("INSERT OR IGNORE INTO " + table + " (" + ColumnNames(cols)
                 + ") VALUES (" + Placeholders(|cols|) + ")")
  }

  /** For columns with ordinary names the statement lists the sorted columns
      and one placeholder per column. */
  lemma InsertQuerySpec(table: string, cols: seq<string>, rows: nat)
    requires rows > 0 && |cols| > 0
    requires forall c :: c in cols ==> |c| > 0 && c[|c| - 1] != ','
    ensures InsertQuery(table, SortStrs(cols), rows) == Success(
      "INSERT OR IGNORE INTO " + table + " (" + Join(SortStrs(cols), ",")
      + ") VALUES (" + Join(Marks(|cols|), ",") + ")")
  {
    var s := SortStrs(cols);
    SortStrsSpec(cols);
    assert |s| == |multiset(s)| == |cols|;
    assert s[|s| - 1] in multiset(cols);
    ColumnNamesSpec(s);
    PlaceholdersSpec(|cols|);
  }
}
