/** The correction merge of `add_definitions.py`: rows of a corrections
    file are normalised and merged into the stored field definitions, then
    their keys are renamed to the bind names of the update statement. The
    database reads and writes and the file access are not modelled: the
    stored definitions and the file's rows are inputs. */
module AddDefinitions {
  import opened Wrappers
  import Util

  /** A row as a dict from column name to value (`None` for a missing or
      NULL value). */
  type Record = map<string, Option<string>>

  const FieldId: string := "FIELD_ID"
  const FieldName: string := "FIELD_NAME"

  /** `header_remap`, in its declaration order. */
  const HeaderRemap: seq<(string, string)> := [
    ("FIELD_ID", "fid"),
    ("FIELD_NAME", "fn"),
    ("FIELD_DESCRIPTION", "fd"),
    ("FIELD_DTYPE", "dt"),
    ("FIELD_TAG", "ft")
  ]

  // ---------------------------------------------------------------------
  // compare_dict
  // ---------------------------------------------------------------------

  /** The value `compare_dict` stores for key `k` of the existing record. */
  function MergeValue(existing: Record, updated: Record, k: string): Option<string>
    requires k in existing && (k == FieldId || k in updated)
  {
    var v := existing[k];
    if k == FieldId then v
    else if updated[k] != v || v.None? then updated[k]
    else v
  }

  /** Every non-id key of the existing record is present in the incoming
      row. */
  predicate Covers(existing: Record, updated: Record) {
    forall k :: k in existing && k != FieldId ==> k in updated
  }

  function MergedRecord(existing: Record, updated: Record): Record
    requires Covers(existing, updated)
  {
    map k | k in existing :: MergeValue(existing, updated, k)
  }

  /** What `compare_dict(updated)` returns or raises. */
  function CompareResult(cur: map<string, Record>, updated: Record): Result<Record, PyError> {
    if FieldName !in updated || updated[FieldName].None? || updated[FieldName].value !in cur then Failure(KeyError)
    else
      var existing := cur[updated[FieldName].value];
      if Covers(existing, updated) then Success(MergedRecord(existing, updated)) else Failure(KeyError)
  }

  /** The merge keeps exactly the existing record's keys, copies `FIELD_ID`
      from it, and takes the incoming value for every other key, even when
      that value is empty or NULL. */
  lemma MergedRecordSpec(existing: Record, updated: Record)
    requires Covers(existing, updated)
    ensures MergedRecord(existing, updated).Keys == existing.Keys
    ensures FieldId in existing ==> MergedRecord(existing, updated)[FieldId] == existing[FieldId]
    ensures forall k :: k in existing && k != FieldId ==> MergedRecord(existing, updated)[k] == updated[k]
  {
  }

  /** `compare_dict` raises `KeyError` exactly when the name is unknown or
      the incoming row lacks a key of the existing record. */
  lemma CompareResultSpec(cur: map<string, Record>, updated: Record)
    ensures CompareResult(cur, updated).Success? <==>
      (&& FieldName in updated && updated[FieldName].Some? && updated[FieldName].value in cur
       && forall k :: k in cur[updated[FieldName].value] && k != FieldId ==> k in updated)
    ensures CompareResult(cur, updated).Failure? ==> CompareResult(cur, updated).error == KeyError
  {
  }

  // ---------------------------------------------------------------------
  // load_update_file
  // ---------------------------------------------------------------------

  /** One pass of `load_update_file`: the row as it is left in `updates`
      (its name normalised once it could be read) and what is appended to
      `updated_dd`, or the exception raised. */
  datatype RowOutcome = RowOutcome(row: Record, res: Result<Record, PyError>)

  function LoadRow(cur: map<string, Record>, d: Record): RowOutcome {
    if FieldName !in d then RowOutcome(d, Failure(KeyError))
    else if d[FieldName].None? then RowOutcome(d, Failure(AttributeError))
    else
      var name := Util.CleanFieldName(d[FieldName].value);
      var cleaned := d[FieldName := Some(name)];
      if name in cur then RowOutcome(cleaned, CompareResult(cur, cleaned))
      else RowOutcome(cleaned, Success(cleaned))
  }

  /** The state `load_update_file` leaves over a list of rows: the rows as
      left in `updates`, what was appended to `updated_dd`, and the exception
      that stopped the loop, if any. */
  datatype LoadOutcome = LoadOutcome(rows: seq<Record>, out: seq<Record>, err: Option<PyError>)

  /** `LoadRow` against the stored definitions, as a function value. */
  function Step(cur: map<string, Record>): Record -> RowOutcome {
    d => LoadRow(cur, d)
  }

  /** The loop of `load_update_file` for any per-row step: rows are passed
      through `step` in order until one raises, and the rows after it are
      left as they are. */
  function Fold(step: Record -> RowOutcome, rows: seq<Record>): (r: LoadOutcome)
    ensures |r.rows| == |rows|
    decreases |rows|
  {
    if |rows| == 0 then LoadOutcome([], [], None)
    else
      var p := Fold(step, rows[..|rows| - 1]);
      var d := rows[|rows| - 1];
      if p.err.Some? then LoadOutcome(p.rows + [d], p.out, p.err)
      else
        var o := step(d);
        if o.res.Success? then LoadOutcome(p.rows + [o.row], p.out + [o.res.value], None)
        else LoadOutcome(p.rows + [o.row], p.out, Some(o.res.error))
  }

  /** `load_update_file` over the rows of the corrections file. */
  function Load(cur: map<string, Record>, rows: seq<Record>): LoadOutcome {
    Fold(Step(cur), rows)
  }

  /** A normalised row keeps all its other columns; a row with an unknown
      name is appended as it is (with no `FIELD_ID` added) and a known one
      is merged. */
  lemma LoadRowSpec(cur: map<string, Record>, d: Record)
    requires FieldName in d && d[FieldName].Some?
    ensures var o := LoadRow(cur, d); var name := Util.CleanFieldName(d[FieldName].value);
      && o.row == d[FieldName := Some(name)]
      && (name !in cur ==> o.res == Success(o.row))
      && (name in cur ==> o.res == CompareResult(cur, o.row))
  {
  }

  /** The fold raises exactly when some row's step does. */
  lemma {:induction false} FoldRaises(step: Record -> RowOutcome, rows: seq<Record>)
    ensures Fold(step, rows).err.None? <==> forall i :: 0 <= i < |rows| ==> step(rows[i]).res.Success?
    decreases |rows|
  {
    if |rows| > 0 {
      var init := rows[..|rows| - 1];
      FoldRaises(step, init);
      assert forall i :: 0 <= i < |init| ==> rows[i] == init[i];
    }
  }

  /** The loop raises exactly when some row does. */
  lemma LoadRaises(cur: map<string, Record>, rows: seq<Record>)
    ensures Load(cur, rows).err.None? <==> forall i :: 0 <= i < |rows| ==> LoadRow(cur, rows[i]).res.Success?
  {
    FoldRaises(Step(cur), rows);
    assert forall i :: 0 <= i < |rows| ==> Step(cur)(rows[i]) == LoadRow(cur, rows[i]);
  }

  /** Without an exception the fold outputs each row's step result, in
      order, and leaves each row as its step left it. */
  lemma {:induction false} FoldSpec(step: Record -> RowOutcome, rows: seq<Record>)
    requires Fold(step, rows).err.None?
    ensures |Fold(step, rows).out| == |rows|
    ensures forall i :: 0 <= i < |rows| ==>
      && step(rows[i]).res == Success(Fold(step, rows).out[i])
      && Fold(step, rows).rows[i] == step(rows[i]).row
    decreases |rows|
  {
    if |rows| > 0 {
      var init := rows[..|rows| - 1];
      var p := Fold(step, init);
      assert p.err.None?;
      FoldSpec(step, init);
      assert forall i :: 0 <= i < |init| ==> rows[i] == init[i];
      var o := step(rows[|rows| - 1]);
      assert Fold(step, rows) == LoadOutcome(p.rows + [o.row], p.out + [o.res.value], None);
    }
  }

  /** When no row raises, one output per row in file order, each what
      `LoadRow` gives for that row, and every row left normalised. */
  lemma LoadSpec(cur: map<string, Record>, rows: seq<Record>)
    requires Load(cur, rows).err.None?
    ensures |Load(cur, rows).out| == |rows|
    ensures forall i :: 0 <= i < |rows| ==>
      && LoadRow(cur, rows[i]).res == Success(Load(cur, rows).out[i])
      && Load(cur, rows).rows[i] == LoadRow(cur, rows[i]).row
  {
    FoldSpec(Step(cur), rows);
    assert forall i :: 0 <= i < |rows| ==> Step(cur)(rows[i]) == LoadRow(cur, rows[i]);
  }

  /** Once a row has raised, later rows are left as they are. */
  lemma {:induction false} FoldStops(step: Record -> RowOutcome, xs: seq<Record>, ys: seq<Record>)
    requires Fold(step, xs).err.Some?
    ensures Fold(step, xs + ys) == LoadOutcome(Fold(step, xs).rows + ys, Fold(step, xs).out, Fold(step, xs).err)
    decreases |ys|
  {
    if |ys| == 0 {
      assert xs + ys == xs;
      assert Fold(step, xs).rows + ys == Fold(step, xs).rows;
    } else {
      var init := ys[..|ys| - 1];
      FoldStops(step, xs, init);
      assert (xs + ys)[..|xs + ys| - 1] == xs + init;
      assert Fold(step, xs).rows + ys == Fold(step, xs).rows + init + [ys[|ys| - 1]];
    }
  }

  /** After an exception in the loop of `load_update_file`, the later rows
      are neither touched nor output. */
  lemma LoadStops(cur: map<string, Record>, xs: seq<Record>, ys: seq<Record>)
    requires Load(cur, xs).err.Some?
    ensures Load(cur, xs + ys) == LoadOutcome(Load(cur, xs).rows + ys, Load(cur, xs).out, Load(cur, xs).err)
  {
    FoldStops(Step(cur), xs, ys);
  }

  lemma FoldStep(step: Record -> RowOutcome, rows: seq<Record>, i: nat)
    requires i < |rows|
    ensures Fold(step, rows[..i + 1]) ==
      var p := Fold(step, rows[..i]);
      if p.err.Some? then LoadOutcome(p.rows + [rows[i]], p.out, p.err)
      else
        var o := step(rows[i]);
        if o.res.Success? then LoadOutcome(p.rows + [o.row], p.out + [o.res.value], None)
        else LoadOutcome(p.rows + [o.row], p.out, Some(o.res.error))
  {
    assert rows[..i + 1][..i] == rows[..i];
  }

  // ---------------------------------------------------------------------
  // The key remap of update_data_definitions
  // ---------------------------------------------------------------------

  /** `x[v] = x.pop(k)`. */
  function Rename(x: Record, k: string, v: string): (r: Record)
    requires k in x
    ensures r.Keys == x.Keys - {k} + {v}
  {
    (x - {k})[v := x[k]]
  }

  /** The index of the first record that lacks `k`, if any. */
  function FirstLacking(xs: seq<Record>, k: string): (r: Option<nat>)
    ensures r.None? <==> forall i :: 0 <= i < |xs| ==> k in xs[i]
    ensures r.Some? ==> r.value < |xs| && k !in xs[r.value] && forall i :: 0 <= i < r.value ==> k in xs[i]
    decreases |xs|
  {
    if |xs| == 0 then None
    else if k !in xs[0] then Some(0)
    else
      match FirstLacking(xs[1..], k)
      case None => assert forall i :: 1 <= i < |xs| ==> xs[i] == xs[1..][i - 1]; None
      case Some(f) => assert forall i :: 1 <= i <= f ==> xs[i] == xs[1..][i - 1]; Some(f + 1)
  }

  /** The records after the inner loop for one `(k, v)` pair, and whether
      it finished: records are renamed in order until one lacks `k`, where
      the `pop` raises and the rest are left untouched. */
  datatype Partial = Partial(xs: seq<Record>, ok: bool)

  function RenameAll(xs: seq<Record>, k: string, v: string): (r: Partial)
    ensures |r.xs| == |xs|
    ensures r.ok <==> forall i :: 0 <= i < |xs| ==> k in xs[i]
    ensures r.ok ==> forall i :: 0 <= i < |xs| ==> r.xs[i] == Rename(xs[i], k, v)
  {
    match FirstLacking(xs, k)
    case None => Partial(seq(|xs|, i requires 0 <= i < |xs| => Rename(xs[i], k, v)), true)
    case Some(f) =>
      Partial(seq(|xs|, i requires 0 <= i < |xs| && (i < f ==> k in xs[i]) =>
                    if i < f then Rename(xs[i], k, v) else xs[i]), false)
  }

  /** The outer loop over the header pairs, stopping at the first raise. */
  function RemapAll(xs: seq<Record>, hs: seq<(string, string)>): (r: Partial)
    ensures |r.xs| == |xs|
    decreases |hs|
  {
    if |hs| == 0 then Partial(xs, true)
    else
      var p := RenameAll(xs, hs[0].0, hs[0].1);
      if !p.ok then p else RemapAll(p.xs, hs[1..])
  }

  ghost predicate NoSourceIsTarget(hs: seq<(string, string)>) {
    forall i, j :: 0 <= i < |hs| && 0 <= j < |hs| ==> hs[i].0 != hs[j].1
  }

  ghost predicate SourcesDistinct(hs: seq<(string, string)>) {
    forall i, j :: 0 <= i < j < |hs| ==> hs[i].0 != hs[j].0
  }

  ghost predicate TargetsDistinct(hs: seq<(string, string)>) {
    forall i, j :: 0 <= i < j < |hs| ==> hs[i].1 != hs[j].1
  }

  /** Dropping the first pair keeps the three shape conditions. */
  lemma ShapeTail(hs: seq<(string, string)>)
    requires |hs| > 0
    ensures NoSourceIsTarget(hs) ==> NoSourceIsTarget(hs[1..])
    ensures SourcesDistinct(hs) ==> SourcesDistinct(hs[1..])
    ensures TargetsDistinct(hs) ==> TargetsDistinct(hs[1..])
  {
    assert forall i :: 0 <= i < |hs| - 1 ==> hs[1..][i] == hs[i + 1];
  }

  ghost predicate HasSources(x: Record, hs: seq<(string, string)>) {
    forall j :: 0 <= j < |hs| ==> hs[j].0 in x
  }

  /** One record renamed for every pair in turn. */
  function RemapRecord(x: Record, hs: seq<(string, string)>): Record
    requires HasSources(x, hs) && NoSourceIsTarget(hs) && SourcesDistinct(hs)
    decreases |hs|
  {
    if |hs| == 0 then x
    else
      var y := Rename(x, hs[0].0, hs[0].1);
      ShapeTail(hs);
      assert forall j :: 0 <= j < |hs| - 1 ==> hs[1..][j] == hs[j + 1];
      RemapRecord(y, hs[1..])
  }

  /** One step of the remap: rename by the first pair, then remap by the
      rest. */
  lemma RemapRecordStep(x: Record, hs: seq<(string, string)>)
    requires |hs| > 0
    requires HasSources(x, hs) && NoSourceIsTarget(hs) && SourcesDistinct(hs) && TargetsDistinct(hs)
    ensures var y := Rename(x, hs[0].0, hs[0].1); var tl := hs[1..];
      && HasSources(y, tl) && NoSourceIsTarget(tl) && SourcesDistinct(tl) && TargetsDistinct(tl)
      && RemapRecord(x, hs) == RemapRecord(y, tl)
  {
    ShapeTail(hs);
    RenameKeepsSources(x, hs);
  }

  /** Renaming by the first pair keeps the sources of the other pairs. */
  lemma RenameKeepsSources(x: Record, hs: seq<(string, string)>)
    requires |hs| > 0 && HasSources(x, hs) && SourcesDistinct(hs)
    ensures HasSources(Rename(x, hs[0].0, hs[0].1), hs[1..])
  {
    var y := Rename(x, hs[0].0, hs[0].1);
    forall j | 0 <= j < |hs| - 1 ensures hs[1..][j].0 in y {
      assert hs[1..][j] == hs[j + 1];
      assert hs[j + 1].0 != hs[0].0;
    }
  }

  /** Keys that no pair names keep their presence and their value. */
  lemma {:induction false} RemapRecordOthers(x: Record, hs: seq<(string, string)>)
    requires HasSources(x, hs) && NoSourceIsTarget(hs) && SourcesDistinct(hs) && TargetsDistinct(hs)
    ensures forall q :: q !in Names(hs) ==>
      (q in RemapRecord(x, hs) <==> q in x) && (q in x ==> RemapRecord(x, hs)[q] == x[q])
    decreases |hs|
  {
    if |hs| > 0 {
      RemapRecordStep(x, hs);
      var y := Rename(x, hs[0].0, hs[0].1);
      RemapRecordOthers(y, hs[1..]);
      NamesTail(hs);
    }
  }

  /** Every source key is gone. */
  lemma {:induction false} RemapRecordSourcesGone(x: Record, hs: seq<(string, string)>)
    requires HasSources(x, hs) && NoSourceIsTarget(hs) && SourcesDistinct(hs) && TargetsDistinct(hs)
    ensures forall j :: 0 <= j < |hs| ==> hs[j].0 !in RemapRecord(x, hs)
    decreases |hs|
  {
    if |hs| > 0 {
      RemapRecordStep(x, hs);
      NamesTail(hs);
      var y := Rename(x, hs[0].0, hs[0].1);
      var tl := hs[1..];
      RemapRecordSourcesGone(y, tl);
      RemapRecordOthers(y, tl);
      var r := RemapRecord(x, hs);
      forall j | 0 <= j < |hs| ensures hs[j].0 !in r {
        if j > 0 {
          assert tl[j - 1] == hs[j];
        }
      }
    }
  }

  /** Every target holds the old value of its source. */
  lemma {:induction false} RemapRecordTargets(x: Record, hs: seq<(string, string)>)
    requires HasSources(x, hs) && NoSourceIsTarget(hs) && SourcesDistinct(hs) && TargetsDistinct(hs)
    ensures forall j :: 0 <= j < |hs| ==> hs[j].1 in RemapRecord(x, hs) && RemapRecord(x, hs)[hs[j].1] == x[hs[j].0]
    decreases |hs|
  {
    if |hs| > 0 {
      RemapRecordStep(x, hs);
      NamesTail(hs);
      var y := Rename(x, hs[0].0, hs[0].1);
      var tl := hs[1..];
      RemapRecordTargets(y, tl);
      RemapRecordOthers(y, tl);
      var r := RemapRecord(x, hs);
      forall j | 0 <= j < |hs| ensures hs[j].1 in r && r[hs[j].1] == x[hs[j].0] {
        if j > 0 {
          assert tl[j - 1] == hs[j];
          assert hs[j].0 != hs[0].0 && hs[j].0 != hs[0].1;
        }
      }
    }
  }

  /** A renamed record holds the old value of each source under its target,
      has lost the source keys, and keeps every other key with its value. */
  lemma RemapRecordSpec(x: Record, hs: seq<(string, string)>)
    requires HasSources(x, hs) && NoSourceIsTarget(hs) && SourcesDistinct(hs) && TargetsDistinct(hs)
    ensures forall j :: 0 <= j < |hs| ==> hs[j].1 in RemapRecord(x, hs) && RemapRecord(x, hs)[hs[j].1] == x[hs[j].0]
    ensures forall j :: 0 <= j < |hs| ==> hs[j].0 !in RemapRecord(x, hs)
    ensures forall q :: q !in Names(hs) ==>
      (q in RemapRecord(x, hs) <==> q in x) && (q in x ==> RemapRecord(x, hs)[q] == x[q])
  {
    RemapRecordTargets(x, hs);
    RemapRecordSourcesGone(x, hs);
    RemapRecordOthers(x, hs);
  }

  /** The source and target names of the pairs. */
  function Names(hs: seq<(string, string)>): (r: set<string>)
    ensures forall j :: 0 <= j < |hs| ==> hs[j].0 in r && hs[j].1 in r
    ensures forall q :: q in r ==> exists j :: 0 <= j < |hs| && (q == hs[j].0 || q == hs[j].1)
  {
    (set j | 0 <= j < |hs| :: hs[j].0) + (set j | 0 <= j < |hs| :: hs[j].1)
  }

  lemma NamesTail(hs: seq<(string, string)>)
    requires |hs| > 0 && NoSourceIsTarget(hs) && SourcesDistinct(hs) && TargetsDistinct(hs)
    ensures Names(hs) == Names(hs[1..]) + {hs[0].0, hs[0].1}
    ensures hs[0].0 !in Names(hs[1..]) && hs[0].1 !in Names(hs[1..])
  {
    assert forall j :: 0 <= j < |hs| - 1 ==> hs[1..][j] == hs[j + 1];
  }

  /** The whole remap succeeds exactly when every record has every source
      key, and then every record is renamed for every pair. */
  lemma {:induction false} RemapAllSpec(xs: seq<Record>, hs: seq<(string, string)>)
    requires NoSourceIsTarget(hs) && SourcesDistinct(hs) && TargetsDistinct(hs)
    ensures RemapAll(xs, hs).ok <==> forall i :: 0 <= i < |xs| ==> HasSources(xs[i], hs)
    ensures RemapAll(xs, hs).ok ==>
      forall i :: 0 <= i < |xs| ==> RemapAll(xs, hs).xs[i] == RemapRecord(xs[i], hs)
    decreases |hs|
  {
    if |hs| > 0 {
      var tl := hs[1..];
      ShapeTail(hs);
      assert forall j :: 0 <= j < |tl| ==> tl[j] == hs[j + 1];
      var p := RenameAll(xs, hs[0].0, hs[0].1);
      if p.ok {
        RemapAllSpec(p.xs, tl);
        forall i | 0 <= i < |xs|
          ensures HasSources(p.xs[i], tl) <==> HasSources(xs[i], hs)
        {
          assert p.xs[i] == Rename(xs[i], hs[0].0, hs[0].1);
        }
      } else {
        var i :| 0 <= i < |xs| && hs[0].0 !in xs[i];
        assert !HasSources(xs[i], hs);
      }
    }
  }

  /** The header pairs rename to distinct bind names that are not column
      names. */
  lemma HeaderRemapShape()
    ensures NoSourceIsTarget(HeaderRemap) && SourcesDistinct(HeaderRemap) && TargetsDistinct(HeaderRemap)
  {
    var hs := HeaderRemap;
    // The sources have lengths 8, 10, 17, 11 and 9; the targets at most 3.
    forall i, j | 0 <= i < |hs| && 0 <= j < |hs| ensures hs[i].0 != hs[j].1 {
      assert |hs[j].1| <= 3 < 8 <= |hs[i].0|;
    }
    forall i, j | 0 <= i < j < |hs| ensures hs[i].0 != hs[j].0 {
      assert |hs[i].0| != |hs[j].0|;
    }
    // Two-letter targets differ in their first or second letter.
    forall i, j | 0 <= i < j < |hs| ensures hs[i].1 != hs[j].1 {
      assert |hs[i].1| != |hs[j].1| || hs[i].1[0] != hs[j].1[0] || hs[i].1[1] != hs[j].1[1];
    }
  }

  /** One record after the remap holds the old `FIELD_ID`, `FIELD_NAME`,
      ... values under `fid`, `fn`, `fd`, `dt`, `ft`, has lost the old keys
      and keeps every other key. */
  lemma RemapHeaderRecord(x: Record)
    requires HasSources(x, HeaderRemap)
    ensures var y := RemapRecord(x, HeaderRemap);
      && "fid" in y && y["fid"] == x["FIELD_ID"] && "FIELD_ID" !in y
      && "fn" in y && y["fn"] == x["FIELD_NAME"] && "FIELD_NAME" !in y
      && "fd" in y && y["fd"] == x["FIELD_DESCRIPTION"] && "FIELD_DESCRIPTION" !in y
      && "dt" in y && y["dt"] == x["FIELD_DTYPE"] && "FIELD_DTYPE" !in y
      && "ft" in y && y["ft"] == x["FIELD_TAG"] && "FIELD_TAG" !in y
      && forall q :: q !in Names(HeaderRemap) ==> (q in y <==> q in x) && (q in x ==> y[q] == x[q])
  {
    HeaderRemapShape();
    RemapRecordSpec(x, HeaderRemap);
    assert HeaderRemap[0] == ("FIELD_ID", "fid");
    assert HeaderRemap[1] == ("FIELD_NAME", "fn");
    assert HeaderRemap[2] == ("FIELD_DESCRIPTION", "fd");
    assert HeaderRemap[3] == ("FIELD_DTYPE", "dt");
    assert HeaderRemap[4] == ("FIELD_TAG", "ft");
  }

  /** A row `load_update_file` appends by reference: its name could be
      read and is not a stored field, so no merged copy is made. */
  predicate Unknown(cur: map<string, Record>, r: Record) {
    FieldName in r && r[FieldName].Some? && r[FieldName].value !in cur
  }

  /** An unknown row's step appends the very row it leaves in the list. */
  lemma UnknownPassedOn(cur: map<string, Record>, d: Record)
    requires LoadRow(cur, d).res.Success? && Unknown(cur, LoadRow(cur, d).row)
    ensures LoadRow(cur, d).res.value == LoadRow(cur, d).row
  {
  }

  /** `b` is `a` except at the rows some entry of `sh` points to. */
  ghost predicate SameUnshared(a: Option<seq<Record>>, b: Option<seq<Record>>, sh: map<nat, nat>) {
    && a.None? == b.None?
    && (a.Some? ==>
         && |a.value| == |b.value|
         && forall i :: 0 <= i < |a.value| && i !in sh.Values ==> b.value[i] == a.value[i])
  }

  lemma SameUnsharedTrans(a: Option<seq<Record>>, b: Option<seq<Record>>, c: Option<seq<Record>>, sh: map<nat, nat>)
    requires SameUnshared(a, b, sh) && SameUnshared(b, c, sh)
    ensures SameUnshared(a, c, sh)
  {
  }

  // ---------------------------------------------------------------------
  // The updater object
  // ---------------------------------------------------------------------

  class UpdateDataDict {
    /** The stored definitions by field name (`current_dd`). */
    const currentDd: map<string, Record>
    var updatedDd: seq<Record>
    var updates: Option<seq<Record>>
    /** `shared[j] == i` when `updated_dd[j]` is the very dict object
        `updates[i]`: a row with an unknown name is appended by reference,
        so a later in-place change to one is a change to the other. */
    var shared: map<nat, nat>

    /** Each shared entry of `updated_dd` is equal to the row of `updates`
        it is, and no two entries are the same row. */
    ghost predicate Linked()
      reads this
    {
      && (updates.None? ==> shared == map[])
      && (forall j :: j in shared ==>
            j < |updatedDd| && updates.Some? && shared[j] < |updates.value| && updatedDd[j] == updates.value[shared[j]])
      && (forall j, j' :: j in shared && j' in shared && j != j' ==> shared[j] != shared[j'])
    }

    /** `UpdateDataDict()` up to the point where the corrections file is
        read: nothing merged yet. */
    constructor (currentDd: map<string, Record>)
      ensures this.currentDd == currentDd && updatedDd == [] && updates == None
      ensures shared == map[] && Linked()
    {
      this.currentDd := currentDd;
      updatedDd := [];
      updates := None;
      shared := map[];
    }

    /** `compare_dict`: walk the existing record's keys (in any order: the
        outcome does not depend on it), copying `FIELD_ID` and merging every
        other key. */
    method CompareDict(updated: Record) returns (r: Result<Record, PyError>)
      ensures r == CompareResult(currentDd, updated)
    {
      if FieldName !in updated || updated[FieldName].None? || updated[FieldName].value !in currentDd {
        return Failure(KeyError);
      }
      var existing := currentDd[updated[FieldName].value];
      var ret: Record := map[];
      var todo := existing.Keys;
      while todo != {}
        invariant todo <= existing.Keys
        invariant ret.Keys == existing.Keys - todo
        invariant forall k :: k in ret ==> k == FieldId || k in updated
        invariant forall k :: k in ret ==> ret[k] == MergeValue(existing, updated, k)
        decreases |todo|
      {
        var k :| k in todo;
        var v := existing[k];
        if k == FieldId {
          ret := ret[k := v];
        } else if k !in updated {
          return Failure(KeyError);
        } else if updated[k] != v || v.None? {
          ret := ret[k := updated[k]];
        } else {
          ret := ret[k := v];
        }
        todo := todo - {k};
      }
      assert Covers(existing, updated);
      assert ret == MergedRecord(existing, updated);
      r := Success(ret);
    }

    /** `load_update_file` over the rows of the corrections file: normalise
        each row's name in place, merge known names, append unknown rows as
        they are. Returns `updated_dd` or the exception that stopped it. */
    method LoadUpdateFile(rows: seq<Record>) returns (r: Result<seq<Record>, PyError>)
      modifies this
      ensures var o := Load(currentDd, rows);
        && updates == Some(o.rows)
        && updatedDd == old(updatedDd) + o.out
        && r == (if o.err.None? then Success(updatedDd) else Failure(o.err.value))
      ensures Linked() && |updatedDd| <= |old(updatedDd)| + |rows|
      ensures forall j :: j in shared ==> |old(updatedDd)| <= j && shared[j] == j - |old(updatedDd)|
      ensures forall i :: 0 <= i < |updatedDd| - |old(updatedDd)| ==>
        (i + |old(updatedDd)| in shared <==> Unknown(currentDd, updates.value[i]))
    {
      r := LoadRows(rows, Step(currentDd));
    }

    /** The loop of `load_update_file` for a step known only row by row to
        be `LoadRow` against the stored definitions. */
    method LoadRows(rows: seq<Record>, ghost step: Record -> RowOutcome) returns (r: Result<seq<Record>, PyError>)
      requires forall d {:trigger LoadRow(currentDd, d)} :: step(d) == LoadRow(currentDd, d)
      modifies this
      ensures var o := Fold(step, rows);
        && updates == Some(o.rows)
        && updatedDd == old(updatedDd) + o.out
        && r == (if o.err.None? then Success(updatedDd) else Failure(o.err.value))
      ensures Linked() && |updatedDd| <= |old(updatedDd)| + |rows|
      ensures forall j :: j in shared ==> |old(updatedDd)| <= j && shared[j] == j - |old(updatedDd)|
      ensures forall i :: 0 <= i < |updatedDd| - |old(updatedDd)| ==>
        (i + |old(updatedDd)| in shared <==> Unknown(currentDd, updates.value[i]))
    {
      var n := |updatedDd|;
      var us := rows;
      updates := Some(us);
      shared := map[];
      FoldStart(step, rows);
      assert SharedUpTo(n, 0);
      for i := 0 to |rows|
        invariant var p := Fold(step, rows[..i]);
          us == p.rows + rows[i..] && updates == Some(us) && updatedDd == old(updatedDd) + p.out && p.err.None?
        invariant SharedUpTo(n, i)
      {
        var o;
        o, us := LoadRowAt(rows, i, step, us);
        StoreRow(o, us, n, i);
        if o.res.Failure? {
          FoldFail(step, rows, i);
          return Failure(o.res.error);
        }
      }
      FoldEnd(step, rows);
      r := Success(updatedDd);
    }

    /** After `i` rows of a load that started with `n` entries in
        `updated_dd`: entry `n + m` is shared with row `m` exactly when that
        row has an unknown name. */
    ghost predicate SharedUpTo(n: nat, i: nat)
      reads this
    {
      && updates.Some? && i <= |updates.value| && |updatedDd| == n + i && Linked()
      && (forall j :: j in shared ==> n <= j && shared[j] == j - n)
      && (forall m :: 0 <= m < i ==> (m + n in shared <==> Unknown(currentDd, updates.value[m])))
    }

    /** Store the row the step left in the list and append its output, by
        reference when the name is unknown. */
    method StoreRow(o: RowOutcome, us: seq<Record>, n: nat, i: nat)
      requires o.res.Success? && Unknown(currentDd, o.row) ==> o.res.value == o.row
      requires SharedUpTo(n, i) && i < |updates.value| && us == updates.value[i := o.row]
      modifies this
      ensures updates == Some(us)
      ensures updatedDd == old(updatedDd) + (if o.res.Success? then [o.res.value] else [])
      ensures SharedUpTo(n, if o.res.Success? then i + 1 else i)
    {
      assert forall j :: j in shared ==> shared[j] < i;
      assert forall m :: 0 <= m < i ==> us[m] == updates.value[m];
      updates := Some(us);
      assert SharedUpTo(n, i);
      if o.res.Success? {
        AppendRow(o, n, i);
      }
    }

    /** Append a successful step's output, sharing it with row `i` when the
        name is unknown. */
    method AppendRow(o: RowOutcome, n: nat, i: nat)
      requires o.res.Success? && (Unknown(currentDd, o.row) ==> o.res.value == o.row)
      requires SharedUpTo(n, i) && i < |updates.value| && updates.value[i] == o.row
      modifies this
      ensures updates == old(updates) && updatedDd == old(updatedDd) + [o.res.value]
      ensures SharedUpTo(n, i + 1)
    {
      updatedDd := updatedDd + [o.res.value];
      if Unknown(currentDd, o.row) {
        shared := shared[n + i := i];
      }
    }

    /** One pass of the `load_update_file` loop, stated against the fold
        over the rows before it: the row at `i` is normalised in the list. */
    method LoadRowAt(rows: seq<Record>, i: nat, ghost step: Record -> RowOutcome, us: seq<Record>)
      returns (o: RowOutcome, us': seq<Record>)
      requires forall d {:trigger LoadRow(currentDd, d)} :: step(d) == LoadRow(currentDd, d)
      requires i < |rows| && Fold(step, rows[..i]).err.None?
      requires us == Fold(step, rows[..i]).rows + rows[i..]
      ensures var q := Fold(step, rows[..i + 1]);
        && us' == q.rows + rows[i + 1..]
        && (o.res.Success? ==> q.out == Fold(step, rows[..i]).out + [o.res.value] && q.err.None?)
        && (o.res.Failure? ==> q.err == Some(o.res.error) && q.out == Fold(step, rows[..i]).out)
      ensures us' == us[i := o.row]
      ensures o.res.Success? && Unknown(currentDd, o.row) ==> o.res.value == o.row
    {
      FoldAdvance(step, rows, i, us);
      o := NormaliseRow(us[i]);
      assert o == step(rows[i]);
      if o.res.Success? && Unknown(currentDd, o.row) {
        UnknownPassedOn(currentDd, us[i]);
      }
      us' := us[i := o.row];
    }

    /** One pass of the `load_update_file` loop: normalise the name (the
        row as it is left in the list) and merge it or take it as it is. */
    method NormaliseRow(d: Record) returns (o: RowOutcome)
      ensures o == LoadRow(currentDd, d)
    {
      if FieldName !in d {
        return RowOutcome(d, Failure(KeyError));
      }
      if d[FieldName].None? {
        return RowOutcome(d, Failure(AttributeError));
      }
      var name := Util.CleanFieldName(d[FieldName].value);
      var cleaned := d[FieldName := Some(name)];
      if name in currentDd {
        var m := CompareDict(cleaned);
        o := RowOutcome(cleaned, m);
      } else {
        o := RowOutcome(cleaned, Success(cleaned));
      }
    }

    /** The remap loop of `update_data_definitions`: `x[v] = x.pop(k)` for
        each header pair, over every record, raising `KeyError` at the first
        record that lacks the key. The rows of `updates` that are the same
        objects as records of `updated_dd` are renamed with them; the other
        rows are untouched. */
    method RemapHeaders() returns (r: Result<(), PyError>)
      requires Linked()
      modifies this
      ensures var p := RemapAll(old(updatedDd), HeaderRemap);
        updatedDd == p.xs && r == (if p.ok then Success(()) else Failure(KeyError))
      ensures shared == old(shared) && Linked()
      ensures SameUnshared(old(updates), updates, shared)
    {
      for j := 0 to |HeaderRemap|
        invariant RemapAll(updatedDd, HeaderRemap[j..]) == RemapAll(old(updatedDd), HeaderRemap)
        invariant shared == old(shared) && Linked()
        invariant SameUnshared(old(updates), updates, shared)
      {
        assert HeaderRemap[j..][1..] == HeaderRemap[j + 1..];
        ghost var before := updates;
        var ok := RenameKey(HeaderRemap[j].0, HeaderRemap[j].1);
        SameUnsharedTrans(old(updates), before, updates, shared);
        if !ok {
          return Failure(KeyError);
        }
      }
      r := Success(());
    }

    /** The inner remap loop for one pair. */
    method RenameKey(k: string, v: string) returns (ok: bool)
      requires Linked()
      modifies this
      ensures RenameAll(old(updatedDd), k, v) == Partial(updatedDd, ok)
      ensures shared == old(shared) && Linked()
      ensures SameUnshared(old(updates), updates, shared)
    {
      var start := updatedDd;
      for i := 0 to |start|
        invariant |updatedDd| == |start|
        invariant forall m :: 0 <= m < i ==> k in start[m] && updatedDd[m] == Rename(start[m], k, v)
        invariant forall m :: i <= m < |start| ==> updatedDd[m] == start[m]
        invariant shared == old(shared) && Linked()
        invariant SameUnshared(old(updates), updates, shared)
      {
        if k !in updatedDd[i] {
          assert FirstLacking(start, k) == Some(i) by {
            FirstLackingAt(start, k, i);
          }
          assert updatedDd == RenameAll(start, k, v).xs;
          return false;
        }
        ghost var before := updates;
        RenameAt(i, k, v);
        SameUnsharedTrans(old(updates), before, updates, shared);
      }
      assert updatedDd == RenameAll(start, k, v).xs;
      ok := true;
    }

    /** `x[v] = x.pop(k)` on record `i` of `updated_dd`, which is also the
        row of `updates` it shares. */
    method RenameAt(i: nat, k: string, v: string)
      requires Linked() && i < |updatedDd| && k in updatedDd[i]
      modifies this
      ensures updatedDd == old(updatedDd)[i := Rename(old(updatedDd)[i], k, v)]
      ensures shared == old(shared) && Linked()
      ensures SameUnshared(old(updates), updates, shared)
    {
      var x := Rename(updatedDd[i], k, v);
      updatedDd := updatedDd[i := x];
      if i in shared {
        updates := Some(updates.value[shared[i] := x]);
      }
    }
  }

  /** A row that raised ends the loop: the state reached is the whole
      outcome. */
  lemma FoldFail(step: Record -> RowOutcome, rows: seq<Record>, i: nat)
    requires i < |rows| && Fold(step, rows[..i + 1]).err.Some?
    ensures var p := Fold(step, rows[..i + 1]);
      Fold(step, rows) == LoadOutcome(p.rows + rows[i + 1..], p.out, p.err)
  {
    SplitAt(rows, i + 1);
    FoldStops(step, rows[..i + 1], rows[i + 1..]);
  }

  lemma SplitAt(rows: seq<Record>, k: nat)
    requires k <= |rows|
    ensures rows[..k] + rows[k..] == rows
  {
  }

  lemma FoldStart(step: Record -> RowOutcome, rows: seq<Record>)
    ensures Fold(step, rows[..0]) == LoadOutcome([], [], None)
    ensures rows == Fold(step, rows[..0]).rows + rows[0..]
  {
    assert rows[..0] == [];
  }

  lemma FoldAdvance(step: Record -> RowOutcome, rows: seq<Record>, i: nat, us: seq<Record>)
    requires i < |rows| && Fold(step, rows[..i]).err.None?
    requires us == Fold(step, rows[..i]).rows + rows[i..]
    ensures us[i] == rows[i]
    ensures var o := step(rows[i]); var q := Fold(step, rows[..i + 1]);
      && us[i := o.row] == q.rows + rows[i + 1..]
      && (o.res.Success? ==> q.out == Fold(step, rows[..i]).out + [o.res.value] && q.err.None?)
      && (o.res.Failure? ==> q.err == Some(o.res.error) && q.out == Fold(step, rows[..i]).out)
  {
    FoldStep(step, rows, i);
    assert rows[i..] == [rows[i]] + rows[i + 1..];
  }

  lemma FoldEnd(step: Record -> RowOutcome, rows: seq<Record>)
    ensures Fold(step, rows[..|rows|]) == Fold(step, rows)
    ensures Fold(step, rows).rows + rows[|rows|..] == Fold(step, rows).rows
  {
    assert rows[..|rows|] == rows;
    assert rows[|rows|..] == [];
  }

  /** The first record lacking `k` is the one the loop stopped at. */
  lemma FirstLackingAt(xs: seq<Record>, k: string, i: nat)
    requires i < |xs| && k !in xs[i] && forall m :: 0 <= m < i ==> k in xs[m]
    ensures FirstLacking(xs, k) == Some(i)
  {
  }
}
