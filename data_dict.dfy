/** The data dictionary of a set of reports (`data_dict.py`): the field
    definitions read from the definitions table or its CSV backup, the
    de-duplicated fields the reports use, which reports use each field, and
    the report, field and bridge rows written back. The definition rows are
    an input here; reading them is not modelled. */
module DataDictionary {
  import opened Wrappers
  import opened PyDict
  import opened Seqs

  /** A field definition: the field name, its description, type and tag,
      each possibly NULL. This is the shape of a definition row read back
      and of a `fields` tuple `data_structs` writes out. */
  datatype DefRow = DefRow(name: string, description: Option<string>, dtype: Option<string>, tag: Option<string>)

  /** A report as the dictionary sees it: its name and the field list its
      `get_fields` produced. */
  datatype Report = Report(name: string, fieldList: seq<string>)

  datatype ReportTuple = ReportTuple(name: string, project: string)
  datatype BridgeTuple = BridgeTuple(report: string, field: string)

  const NoDefinition: string := "No definition"
  const Project: string := "01 Productivity"

  // ---------------------------------------------------------------------
  // Specification functions
  // ---------------------------------------------------------------------

  /** The distinct elements in order of first occurrence. This is the order
      the model gives to `list(set(xs))`. */
  function Dedup(xs: seq<string>): (r: seq<string>)
    ensures NoDups(r)
    ensures forall x :: x in r <==> x in xs
    decreases |xs|
  {
    if |xs| == 0 then []
    else
      var d := Dedup(xs[..|xs| - 1]);
      var x := xs[|xs| - 1];
      assert forall y :: y in xs <==> y in xs[..|xs| - 1] || y == x by {
        assert xs == xs[..|xs| - 1] + [x];
      }
      if x in d then d else d + [x]
  }

  function RowName(r: DefRow): string { r.name }
  function RowDescription(r: DefRow): Option<string> { r.description }
  function RowType(r: DefRow): Option<string> { r.dtype }
  function RowTag(r: DefRow): Option<string> { r.tag }

  /** name → description, last row winning (`data_definitions`). */
  function Definitions(rows: seq<DefRow>): map<string, Option<string>> {
    LastWinsMap(rows, RowName, RowDescription)
  }

  /** name → type, last row winning (`data_types`). */
  function Types(rows: seq<DefRow>): map<string, Option<string>> {
    LastWinsMap(rows, RowName, RowType)
  }

  /** name → tag, last row winning (`data_tags`). */
  function Tags(rows: seq<DefRow>): map<string, Option<string>> {
    LastWinsMap(rows, RowName, RowTag)
  }

  /** The row names in order (duplicates kept). */
  function RowNames(rows: seq<DefRow>): (r: seq<string>)
    ensures |r| == |rows|
    ensures forall i :: 0 <= i < |rows| ==> r[i] == rows[i].name
  {
    seq(|rows|, i requires 0 <= i < |rows| => rows[i].name)
  }

  /** Every field of every report, in report order. */
  function ReportFields(reports: seq<Report>): seq<string>
    decreases |reports|
  {
    if |reports| == 0 then []
    else ReportFields(reports[..|reports| - 1]) + reports[|reports| - 1].fieldList
  }

  /** The names of the reports whose field list contains `f`, in report
      order. */
  function ReportsWith(reports: seq<Report>, f: string): seq<string>
    decreases |reports|
  {
    if |reports| == 0 then []
    else
      var r := reports[|reports| - 1];
      ReportsWith(reports[..|reports| - 1], f) + (if f in r.fieldList then [r.name] else [])
  }

  /** `data_dict` after the missing fields got `'No definition'`. */
  function WithNoDefinition(defs: map<string, Option<string>>, fields: seq<string>): map<string, Option<string>>
    decreases |fields|
  {
    if |fields| == 0 then defs
    else
      var m := WithNoDefinition(defs, fields[..|fields| - 1]);
      var f := fields[|fields| - 1];
      if f in m then m else m[f := Some(NoDefinition)]
  }

  /** `col_report_dict` after each field got the names of the reports that
      use it appended. */
  function ColReports(m: map<string, seq<string>>, fields: seq<string>, reports: seq<Report>): map<string, seq<string>>
    decreases |fields|
  {
    if |fields| == 0 then m
    else
      var c := ColReports(m, fields[..|fields| - 1], reports);
      var f := fields[|fields| - 1];
      c[f := (if f in c then c[f] else []) + ReportsWith(reports, f)]
  }

  /** The fields not yet keys of `m`, in order: the keys the loop adds to
      `col_report_dict`, in insertion order. */
  function NewKeys(m: map<string, seq<string>>, fields: seq<string>): seq<string>
    decreases |fields|
  {
    if |fields| == 0 then []
    else
      var f := fields[|fields| - 1];
      NewKeys(m, fields[..|fields| - 1]) + (if f in m || f in fields[..|fields| - 1] then [] else [f])
  }

  function ReportTuples(names: seq<string>): (r: seq<ReportTuple>)
    ensures |r| == |names|
    ensures forall i :: 0 <= i < |names| ==> r[i] == ReportTuple(names[i], Project)
  {
    seq(|names|, i requires 0 <= i < |names| => ReportTuple(names[i], Project))
  }

  /** One tuple `(name, description, type, tag)` per defined name, in the
      key order of the definitions dict. */
  function DefTuples(rows: seq<DefRow>): (r: seq<DefRow>)
    ensures |r| == |Dedup(RowNames(rows))|
    ensures forall i :: 0 <= i < |r| ==> r[i].name == Dedup(RowNames(rows))[i]
  {
    var keys := Dedup(RowNames(rows));
    DefinitionKeys(rows);
    seq(|keys|, i requires 0 <= i < |keys| =>
      DefRow(keys[i], Definitions(rows)[keys[i]], Types(rows)[keys[i]], Tags(rows)[keys[i]]))
  }

  /** `(col, None, None, None)` for each column without a definition. */
  function UndefinedTuples(cols: seq<string>, defs: map<string, Option<string>>): seq<DefRow>
    decreases |cols|
  {
    if |cols| == 0 then []
    else
      var c := cols[|cols| - 1];
      UndefinedTuples(cols[..|cols| - 1], defs) + (if c in defs then [] else [DefRow(c, None, None, None)])
  }

  function Pairs(rs: seq<string>, col: string): (r: seq<BridgeTuple>)
    ensures |r| == |rs|
    ensures forall i :: 0 <= i < |rs| ==> r[i] == BridgeTuple(rs[i], col)
  {
    seq(|rs|, i requires 0 <= i < |rs| => BridgeTuple(rs[i], col))
  }

  /** A `(report, col)` pair per report listed for each column, in column
      order. */
  function Bridge(cols: seq<string>, crd: map<string, seq<string>>): seq<BridgeTuple>
    requires forall c :: c in cols ==> c in crd
    decreases |cols|
  {
    if |cols| == 0 then []
    else
      var c := cols[|cols| - 1];
      Bridge(cols[..|cols| - 1], crd) + Pairs(crd[c], c)
  }

  // ---------------------------------------------------------------------
  // The dictionary object
  // ---------------------------------------------------------------------

  /** `order` lists the keys of `m` once each. */
  ghost predicate OrderOf<V>(order: seq<string>, m: map<string, V>) {
    NoDups(order) && (forall c :: c in order <==> c in m)
  }

  /** Setting a key keeps the order when the key is appended exactly when
      it is new. */
  lemma OrderOfSet<V>(order: seq<string>, m: map<string, V>, k: string, v: V)
    requires OrderOf(order, m)
    ensures OrderOf(order + (if k in m then [] else [k]), m[k := v])
  {
    if k !in m {
      var o := order + [k];
      forall i, j | 0 <= i < j < |o| ensures o[i] != o[j] {
        if j < |order| {
          assert o[i] == order[i] && o[j] == order[j];
        } else {
          assert o[i] == order[i] && order[i] in order;
        }
      }
    } else {
      assert order + [] == order;
    }
  }

  class DataDict {
    const reportObjs: seq<Report>
    const fromFile: bool
    /** The rows the definitions table (or its CSV backup) holds. */
    const rows: seq<DefRow>
    var allFields: seq<string>
    var rawFields: seq<string>
    var colReportDict: map<string, seq<string>>
    /** The insertion order of `col_report_dict`'s keys. */
    var colOrder: seq<string>
    var dataDefinitions: map<string, Option<string>>
    var dataDict: map<string, Option<string>>
    var dataTypes: map<string, Option<string>>
    var dataTags: map<string, Option<string>>
    var reportNames: seq<string>

    /** `colOrder` lists the keys of `col_report_dict` once each. */
    ghost predicate Valid()
      reads this
    {
      OrderOf(colOrder, colReportDict)
    }

    /** `DataDict(wbh_list, from_file)`: read the definitions, list the
        report names, and collect the fields. */
    constructor (reports: seq<Report>, fromFile: bool, rows: seq<DefRow>)
      ensures Valid()
      ensures reportObjs == reports && this.rows == rows
      ensures dataDefinitions == Definitions(rows)
      ensures reportNames == seq(|reports|, i requires 0 <= i < |reports| => reports[i].name)
      ensures rawFields == ReportFields(reports) && allFields == Dedup(rawFields)
      ensures dataDict == WithNoDefinition(Definitions(rows), allFields)
      ensures colReportDict == ColReports(map[], allFields, reports)
      ensures colOrder == NewKeys(map[], allFields)
      ensures dataTypes == Types(rows) && dataTags == Tags(rows)
    {
      reportObjs := reports;
      this.fromFile := fromFile;
      this.rows := rows;
      allFields := [];
      rawFields := [];
      colReportDict := map[];
      colOrder := [];
      dataDefinitions := map[];
      dataDict := map[];
      dataTypes := map[];
      dataTags := map[];
      reportNames := [];
      new;
      var defs, _ := DataDictLookup();
      dataDefinitions := defs;
      QuickBuild();
      assert [] + ReportFields(reports) == ReportFields(reports);
      var _ := GetAllFields();
    }

    /** `data_dict_lookup`: one entry per distinct name, the last row
        winning; the description, type and tag maps share one key set. The
        second result is the key order of the returned dict. */
    method DataDictLookup() returns (defs: map<string, Option<string>>, keys: seq<string>)
      modifies this
      ensures defs == Definitions(rows) && keys == Dedup(RowNames(rows))
      ensures dataTypes == Types(rows) && dataTags == Tags(rows)
      ensures reportNames == old(reportNames) && allFields == old(allFields) && rawFields == old(rawFields)
      ensures colReportDict == old(colReportDict) && colOrder == old(colOrder)
      ensures dataDict == old(dataDict) && dataDefinitions == old(dataDefinitions)
    {
      defs := map[];
      keys := [];
      dataTypes := map[];
      dataTags := map[];
      for i := 0 to |rows|
        invariant defs == Definitions(rows[..i]) && keys == Dedup(RowNames(rows[..i]))
        invariant dataTypes == Types(rows[..i]) && dataTags == Tags(rows[..i])
        invariant reportNames == old(reportNames) && allFields == old(allFields) && rawFields == old(rawFields)
        invariant colReportDict == old(colReportDict) && colOrder == old(colOrder)
        invariant dataDict == old(dataDict) && dataDefinitions == old(dataDefinitions)
      {
        var k := rows[i];
        LookupStep(rows, i);
        if k.name !in defs {
          keys := keys + [k.name];
        }
        defs := defs[k.name := k.description];
        dataTypes := dataTypes[k.name := k.dtype];
        dataTags := dataTags[k.name := k.tag];
      }
      LookupAll(rows);
    }

    /** `quick_build`: the report names, in order. */
    method QuickBuild()
      modifies this
      ensures reportNames == seq(|reportObjs|, i requires 0 <= i < |reportObjs| => reportObjs[i].name)
      ensures allFields == old(allFields) && rawFields == old(rawFields)
      ensures colReportDict == old(colReportDict) && colOrder == old(colOrder)
      ensures dataDict == old(dataDict) && dataDefinitions == old(dataDefinitions)
      ensures dataTypes == old(dataTypes) && dataTags == old(dataTags)
    {
      reportNames := seq(|reportObjs|, i requires 0 <= i < |reportObjs| => reportObjs[i].name);
    }

    /** `get_all_fields`: re-read the definitions, extend `all_fields` with
        every report's fields, de-duplicate, give each undefined field
        `'No definition'`, and append to each field's report list the names
        of the reports that use it. */
    method GetAllFields() returns (r: map<string, seq<string>>)
      requires Valid()
      modifies this
      ensures Valid()
      ensures rawFields == old(allFields) + ReportFields(reportObjs)
      ensures allFields == Dedup(rawFields)
      ensures dataDict == WithNoDefinition(Definitions(rows), allFields)
      ensures colReportDict == ColReports(old(colReportDict), allFields, reportObjs)
      ensures colOrder == old(colOrder) + NewKeys(old(colReportDict), allFields)
      ensures r == colReportDict
      ensures dataTypes == Types(rows) && dataTags == Tags(rows)
      ensures reportNames == old(reportNames) && dataDefinitions == old(dataDefinitions)
    {
      var defs, _ := DataDictLookup();
      dataDict := defs;
      CollectFields();
      rawFields := allFields;
      allFields := Dedup(allFields);
      RecordFields(allFields);
      r := colReportDict;
    }

    /** The fields the field loop of `get_all_fields` leaves alone. */
    ghost function Untouched(): (seq<string>, seq<string>, map<string, Option<string>>, map<string, Option<string>>,
                                 seq<string>, map<string, Option<string>>)
      reads this
    {
      (allFields, rawFields, dataTypes, dataTags, reportNames, dataDefinitions)
    }

    /** The second loop of `get_all_fields`, over the de-duplicated fields. */
    method RecordFields(fields: seq<string>)
      requires Valid() && NoDups(fields)
      modifies this
      ensures Valid()
      ensures dataDict == WithNoDefinition(old(dataDict), fields)
      ensures colReportDict == ColReports(old(colReportDict), fields, reportObjs)
      ensures colOrder == old(colOrder) + NewKeys(old(colReportDict), fields)
      ensures Untouched() == old(Untouched())
    {
      FieldsAll(old(colReportDict), old(dataDict), fields, reportObjs);
      for i := 0 to |fields|
        invariant dataDict == WithNoDefinition(old(dataDict), fields[..i])
        invariant colReportDict == ColReports(old(colReportDict), fields[..i], reportObjs)
        invariant colOrder == old(colOrder) + NewKeys(old(colReportDict), fields[..i])
        invariant Valid()
        invariant Untouched() == old(Untouched())
      {
        RecordFieldAt(fields, i, old(colReportDict), old(dataDict), old(colOrder));
      }
    }

    /** One pass of the field loop, stated against the state before the
        loop (`m0`, `d0`, `o0`). */
    method RecordFieldAt(fields: seq<string>, i: nat, ghost m0: map<string, seq<string>>,
                         ghost d0: map<string, Option<string>>, ghost o0: seq<string>)
      requires Valid() && NoDups(fields) && i < |fields|
      requires dataDict == WithNoDefinition(d0, fields[..i])
      requires colReportDict == ColReports(m0, fields[..i], reportObjs)
      requires colOrder == o0 + NewKeys(m0, fields[..i])
      modifies this
      ensures Valid()
      ensures dataDict == WithNoDefinition(d0, fields[..i + 1])
      ensures colReportDict == ColReports(m0, fields[..i + 1], reportObjs)
      ensures colOrder == o0 + NewKeys(m0, fields[..i + 1])
      ensures Untouched() == old(Untouched())
    {
      FieldStep(m0, d0, fields, i, reportObjs);
      RecordField(fields[i]);
    }

    /** The first loop of `get_all_fields`: `all_fields += rep.get_fields()`
        for each report. */
    method CollectFields()
      modifies this
      ensures allFields == old(allFields) + ReportFields(reportObjs)
      ensures rawFields == old(rawFields) && colReportDict == old(colReportDict) && colOrder == old(colOrder)
      ensures dataDict == old(dataDict) && dataTypes == old(dataTypes) && dataTags == old(dataTags)
      ensures reportNames == old(reportNames) && dataDefinitions == old(dataDefinitions)
    {
      for i := 0 to |reportObjs|
        invariant allFields == old(allFields) + ReportFields(reportObjs[..i])
        invariant rawFields == old(rawFields) && colReportDict == old(colReportDict) && colOrder == old(colOrder)
        invariant dataDict == old(dataDict) && dataTypes == old(dataTypes) && dataTags == old(dataTags)
        invariant reportNames == old(reportNames) && dataDefinitions == old(dataDefinitions)
      {
        ReportFieldsStep(old(allFields), reportObjs, i);
        allFields := allFields + reportObjs[i].fieldList;
      }
      ReportFieldsAll(old(allFields), reportObjs);
    }

    /** One pass of the second loop of `get_all_fields`. */
    method RecordField(field: string)
      requires Valid()
      modifies this
      ensures Valid()
      ensures dataDict == if field in old(dataDict) then old(dataDict) else old(dataDict)[field := Some(NoDefinition)]
      ensures var c := old(colReportDict);
        colReportDict == c[field := (if field in c then c[field] else []) + ReportsWith(reportObjs, field)]
      ensures colOrder == old(colOrder) + (if field in old(colReportDict) then [] else [field])
      ensures Untouched() == old(Untouched())
    {
      if field !in dataDict {
        dataDict := dataDict[field := Some(NoDefinition)];
      }
      OrderOfSet(colOrder, colReportDict, field, []);
      if field !in colReportDict {
        colReportDict := colReportDict[field := []];
        colOrder := colOrder + [field];
      } else {
        assert colOrder + [] == colOrder;
      }
      ghost var order := colOrder;
      RecordReports(field);
      OrderOfSet(order, colReportDict, field, colReportDict[field]);
      assert colReportDict == old(colReportDict)[field := colReportDict[field]] by {
        assert colReportDict.Keys == old(colReportDict).Keys + {field};
      }
    }

    /** The inner loop of `get_all_fields` for one field: append the name of
        every report whose field list contains it. */
    method RecordReports(field: string)
      requires field in colReportDict
      modifies this
      ensures colReportDict == old(colReportDict)[field := old(colReportDict)[field] + ReportsWith(reportObjs, field)]
      ensures colOrder == old(colOrder) && dataDict == old(dataDict)
      ensures Untouched() == old(Untouched())
    {
      ghost var before := colReportDict[field];
      ReportsWithStart(reportObjs, before, field, colReportDict);
      for j := 0 to |reportObjs|
        invariant colReportDict == old(colReportDict)[field := before + ReportsWith(reportObjs[..j], field)]
        invariant colOrder == old(colOrder) && dataDict == old(dataDict)
        invariant Untouched() == old(Untouched())
      {
        ReportsWithStep(reportObjs, j, field, before);
        if field in reportObjs[j].fieldList {
          colReportDict := colReportDict[field := colReportDict[field] + [reportObjs[j].name]];
        }
      }
      ReportsWithAll(reportObjs, field);
    }

    /** `data_structs`: the report rows, the field rows (every definition,
        then `(col, None, None, None)` for each column without one) and the
        bridge rows (one per report listed for each column). */
    method DataStructs() returns (reports: seq<ReportTuple>, fields: seq<DefRow>, bridge: seq<BridgeTuple>)
      requires Valid()
      modifies this
      ensures colReportDict == old(colReportDict) && colOrder == old(colOrder) && reportNames == old(reportNames)
      ensures allFields == old(allFields) && rawFields == old(rawFields)
      ensures dataDict == old(dataDict) && dataDefinitions == old(dataDefinitions)
      ensures Valid()
      ensures reports == ReportTuples(reportNames)
      ensures dataTypes == Types(rows) && dataTags == Tags(rows)
      ensures fields == DefTuples(rows) + UndefinedTuples(colOrder, Definitions(rows))
      ensures bridge == Bridge(colOrder, colReportDict)
    {
      var defs, keys := DataDictLookup();
      DefinitionKeys(rows);
      reports := ReportTuples(reportNames);
      var types, tags := dataTypes, dataTags;
      fields := seq(|keys|, i requires 0 <= i < |keys| =>
        DefRow(keys[i], defs[keys[i]], types[keys[i]], tags[keys[i]]));
      assert fields == DefTuples(rows);
      bridge := [];
      var cols, crd := colOrder, colReportDict;
      for c := 0 to |cols|
        invariant fields == DefTuples(rows) + UndefinedTuples(cols[..c], defs)
        invariant bridge == Bridge(cols[..c], crd)
        invariant colReportDict == crd && colOrder == cols && reportNames == old(reportNames)
        invariant dataTypes == Types(rows) && dataTags == Tags(rows)
        invariant allFields == old(allFields) && rawFields == old(rawFields)
        invariant dataDict == old(dataDict) && dataDefinitions == old(dataDefinitions)
      {
        var col := cols[c];
        StructsStep(cols, c, defs, crd);
        if col !in defs {
          fields := fields + [DefRow(col, None, None, None)];
        }
        var rList := crd[col];
        bridge := AppendPairs(bridge, rList, col);
      }
      StructsAll(cols, defs, crd);
    }
  }

  /** The inner loop over one column's report list. */
  method AppendPairs(bridge: seq<BridgeTuple>, rList: seq<string>, col: string) returns (r: seq<BridgeTuple>)
    ensures r == bridge + Pairs(rList, col)
  {
    r := bridge;
    for j := 0 to |rList|
      invariant |r| == |bridge| + j
      invariant r[..|bridge|] == bridge
      invariant forall k :: 0 <= k < j ==> r[|bridge| + k] == BridgeTuple(rList[k], col)
    {
      r := r + [BridgeTuple(rList[j], col)];
    }
  }

  // ---------------------------------------------------------------------
  // Loop steps
  // ---------------------------------------------------------------------

  lemma LookupStep(rows: seq<DefRow>, i: nat)
    requires i < |rows|
    ensures Definitions(rows[..i + 1]) == Definitions(rows[..i])[rows[i].name := rows[i].description]
    ensures Types(rows[..i + 1]) == Types(rows[..i])[rows[i].name := rows[i].dtype]
    ensures Tags(rows[..i + 1]) == Tags(rows[..i])[rows[i].name := rows[i].tag]
    ensures Dedup(RowNames(rows[..i + 1])) ==
      Dedup(RowNames(rows[..i])) + (if rows[i].name in Definitions(rows[..i]) then [] else [rows[i].name])
  {
    assert rows[..i + 1] == rows[..i] + [rows[i]];
    LastWinsMapAppend(rows[..i], rows[i], RowName, RowDescription);
    LastWinsMapAppend(rows[..i], rows[i], RowName, RowType);
    LastWinsMapAppend(rows[..i], rows[i], RowName, RowTag);
    var names := RowNames(rows[..i + 1]);
    assert names[..|names| - 1] == RowNames(rows[..i]);
    DefinitionKeys(rows[..i]);
  }

  lemma LookupAll(rows: seq<DefRow>)
    ensures Definitions(rows[..|rows|]) == Definitions(rows)
    ensures Types(rows[..|rows|]) == Types(rows) && Tags(rows[..|rows|]) == Tags(rows)
    ensures Dedup(RowNames(rows[..|rows|])) == Dedup(RowNames(rows))
  {
    assert rows[..|rows|] == rows;
  }

  lemma ReportFieldsStep(start: seq<string>, reports: seq<Report>, i: nat)
    requires i < |reports|
    ensures start + ReportFields(reports[..i + 1]) == start + ReportFields(reports[..i]) + reports[i].fieldList
  {
    assert reports[..i + 1][..i] == reports[..i];
  }

  lemma ReportFieldsAll(start: seq<string>, reports: seq<Report>)
    ensures start + ReportFields(reports[..0]) == start
    ensures start + ReportFields(reports[..|reports|]) == start + ReportFields(reports)
  {
    assert reports[..|reports|] == reports;
    assert start + [] == start;
  }

  lemma ReportsWithStart(reports: seq<Report>, before: seq<string>, f: string, m: map<string, seq<string>>)
    requires f in m && m[f] == before
    ensures m == m[f := before + ReportsWith(reports[..0], f)]
  {
    assert before + [] == before;
  }

  lemma ReportsWithStep(reports: seq<Report>, j: nat, f: string, before: seq<string>)
    requires j < |reports|
    ensures f in reports[j].fieldList ==>
      before + ReportsWith(reports[..j + 1], f) == before + ReportsWith(reports[..j], f) + [reports[j].name]
    ensures f !in reports[j].fieldList ==>
      before + ReportsWith(reports[..j + 1], f) == before + ReportsWith(reports[..j], f)
  {
    assert reports[..j + 1][..j] == reports[..j];
    assert ReportsWith(reports[..j], f) + [] == ReportsWith(reports[..j], f);
  }

  lemma ReportsWithAll(reports: seq<Report>, f: string)
    ensures ReportsWith(reports[..|reports|], f) == ReportsWith(reports, f)
  {
    assert reports[..|reports|] == reports;
  }

  lemma FieldStep(m: map<string, seq<string>>, defs: map<string, Option<string>>, fields: seq<string>, i: nat,
                  reports: seq<Report>)
    requires i < |fields| && NoDups(fields)
    ensures var f := fields[i]; var c := ColReports(m, fields[..i], reports);
      ColReports(m, fields[..i + 1], reports) == c[f := (if f in c then c[f] else []) + ReportsWith(reports, f)]
    ensures var f := fields[i]; var w := WithNoDefinition(defs, fields[..i]);
      WithNoDefinition(defs, fields[..i + 1]) == if f in w then w else w[f := Some(NoDefinition)]
    ensures var f := fields[i]; var c := ColReports(m, fields[..i], reports);
      NewKeys(m, fields[..i + 1]) == NewKeys(m, fields[..i]) + (if f in c then [] else [f])
    ensures var c := ColReports(m, fields[..i], reports);
      forall k :: k in c <==> k in m || k in fields[..i]
  {
    assert fields[..i + 1][..i] == fields[..i];
    ColReportsKeys(m, fields[..i], reports);
    assert fields[i] !in fields[..i];
  }

  lemma FieldsAll(m: map<string, seq<string>>, defs: map<string, Option<string>>, fields: seq<string>,
                  reports: seq<Report>)
    ensures ColReports(m, fields[..|fields|], reports) == ColReports(m, fields, reports)
    ensures WithNoDefinition(defs, fields[..|fields|]) == WithNoDefinition(defs, fields)
    ensures NewKeys(m, fields[..|fields|]) == NewKeys(m, fields)
  {
    assert fields[..|fields|] == fields;
  }

  lemma StructsStep(cols: seq<string>, c: nat, defs: map<string, Option<string>>, crd: map<string, seq<string>>)
    requires c < |cols| && forall k :: k in cols ==> k in crd
    ensures UndefinedTuples(cols[..c + 1], defs) ==
      UndefinedTuples(cols[..c], defs) + (if cols[c] in defs then [] else [DefRow(cols[c], None, None, None)])
    ensures Bridge(cols[..c + 1], crd) == Bridge(cols[..c], crd) + Pairs(crd[cols[c]], cols[c])
  {
    assert cols[..c + 1][..c] == cols[..c];
  }

  lemma StructsAll(cols: seq<string>, defs: map<string, Option<string>>, crd: map<string, seq<string>>)
    requires forall k :: k in cols ==> k in crd
    ensures UndefinedTuples(cols[..|cols|], defs) == UndefinedTuples(cols, defs)
    ensures Bridge(cols[..|cols|], crd) == Bridge(cols, crd)
  {
    assert cols[..|cols|] == cols;
  }

  // ---------------------------------------------------------------------
  // Properties
  // ---------------------------------------------------------------------

  /** The definition, type and tag maps have one key per distinct row name,
      the same for all three, and the key order lists each once. */
  lemma DefinitionKeys(rows: seq<DefRow>)
    ensures forall k :: k in Definitions(rows) <==> k in RowNames(rows)
    ensures forall k :: k in Types(rows) <==> k in RowNames(rows)
    ensures forall k :: k in Tags(rows) <==> k in RowNames(rows)
    ensures forall k :: k in Dedup(RowNames(rows)) <==> k in Definitions(rows)
  {
    LastWinsMapSpec(rows, RowName, RowDescription);
    LastWinsMapSpec(rows, RowName, RowType);
    LastWinsMapSpec(rows, RowName, RowTag);
    forall k | k in RowNames(rows)
      ensures k in Definitions(rows) && k in Types(rows) && k in Tags(rows)
    {
      var i :| 0 <= i < |rows| && RowNames(rows)[i] == k;
      assert RowName(rows[i]) == k;
    }
    forall k | k in Definitions(rows) || k in Types(rows) || k in Tags(rows)
      ensures k in RowNames(rows)
    {
      var i :| 0 <= i < |rows| && RowName(rows[i]) == k;
      assert RowNames(rows)[i] == k;
    }
  }

  /** The last row for a name gives its description, type and tag. */
  lemma DefinitionsLastRow(rows: seq<DefRow>, i: nat)
    requires i < |rows| && forall j :: i < j < |rows| ==> rows[j].name != rows[i].name
    ensures rows[i].name in Definitions(rows) && rows[i].name in Types(rows) && rows[i].name in Tags(rows)
    ensures Definitions(rows)[rows[i].name] == rows[i].description
    ensures Types(rows)[rows[i].name] == rows[i].dtype
    ensures Tags(rows)[rows[i].name] == rows[i].tag
  {
    LastWinsMapAt(rows, RowName, RowDescription, i);
    LastWinsMapAt(rows, RowName, RowType, i);
    LastWinsMapAt(rows, RowName, RowTag, i);
  }

  /** Every field gets an entry: existing definitions are kept, and a field
      without one gets `'No definition'`; nothing else is added. */
  lemma {:induction false} WithNoDefinitionSpec(defs: map<string, Option<string>>, fields: seq<string>)
    ensures forall k :: k in WithNoDefinition(defs, fields) <==> k in defs || k in fields
    ensures forall k :: k in defs ==> WithNoDefinition(defs, fields)[k] == defs[k]
    ensures forall k :: k in fields && k !in defs ==> WithNoDefinition(defs, fields)[k] == Some(NoDefinition)
    decreases |fields|
  {
    if |fields| > 0 {
      var init := fields[..|fields| - 1];
      WithNoDefinitionSpec(defs, init);
      assert fields == init + [fields[|fields| - 1]];
    }
  }

  /** A report name is listed for `f` exactly when that report's field
      list contains `f`; the list follows report order, so it has at most
      one name per report. */
  lemma {:induction false} ReportsWithSpec(reports: seq<Report>, f: string, name: string)
    ensures name in ReportsWith(reports, f) <==>
      exists i :: 0 <= i < |reports| && reports[i].name == name && f in reports[i].fieldList
    ensures |ReportsWith(reports, f)| <= |reports|
    decreases |reports|
  {
    if |reports| > 0 {
      var init := reports[..|reports| - 1];
      ReportsWithSpec(init, f, name);
      if exists i :: 0 <= i < |init| && init[i].name == name && f in init[i].fieldList {
        var i :| 0 <= i < |init| && init[i].name == name && f in init[i].fieldList;
        assert reports[i] == init[i];
      }
      if exists i :: 0 <= i < |reports| && reports[i].name == name && f in reports[i].fieldList {
        var i :| 0 <= i < |reports| && reports[i].name == name && f in reports[i].fieldList;
        if i < |init| {
          assert init[i] == reports[i];
        }
      }
    }
  }

  lemma {:induction false} ColReportsKeys(m: map<string, seq<string>>, fields: seq<string>, reports: seq<Report>)
    ensures forall k :: k in ColReports(m, fields, reports) <==> k in m || k in fields
    decreases |fields|
  {
    if |fields| > 0 {
      var init := fields[..|fields| - 1];
      ColReportsKeys(m, init, reports);
      assert fields == init + [fields[|fields| - 1]];
    }
  }

  /** For distinct fields, each field's list is its earlier list (empty if
      none) followed by the reports that use it; other keys keep their
      lists. */
  lemma {:induction false} ColReportsSpec(m: map<string, seq<string>>, fields: seq<string>, reports: seq<Report>)
    requires NoDups(fields)
    ensures forall k :: k in ColReports(m, fields, reports) <==> k in m || k in fields
    ensures forall k :: k in fields ==>
      ColReports(m, fields, reports)[k] == (if k in m then m[k] else []) + ReportsWith(reports, k)
    ensures forall k :: k in m && k !in fields ==> ColReports(m, fields, reports)[k] == m[k]
    decreases |fields|
  {
    ColReportsKeys(m, fields, reports);
    if |fields| > 0 {
      var init := fields[..|fields| - 1];
      var f := fields[|fields| - 1];
      ColReportsSpec(m, init, reports);
      assert fields == init + [f];
      assert f !in init;
    }
  }

  /** The de-duplicated field list holds every field any report uses (or
      that was collected before), each once. */
  lemma AllFieldsSpec(start: seq<string>, reports: seq<Report>, f: string)
    ensures var all := Dedup(start + ReportFields(reports));
      NoDups(all) && (f in all <==> f in start || exists i :: 0 <= i < |reports| && f in reports[i].fieldList)
  {
    ReportFieldsMembership(reports, f);
  }

  lemma {:induction false} ReportFieldsMembership(reports: seq<Report>, f: string)
    ensures f in ReportFields(reports) <==> exists i :: 0 <= i < |reports| && f in reports[i].fieldList
    decreases |reports|
  {
    if |reports| > 0 {
      var init := reports[..|reports| - 1];
      ReportFieldsMembership(init, f);
      if exists i :: 0 <= i < |init| && f in init[i].fieldList {
        var i :| 0 <= i < |init| && f in init[i].fieldList;
        assert reports[i] == init[i];
      }
      if exists i :: 0 <= i < |reports| && f in reports[i].fieldList {
        var i :| 0 <= i < |reports| && f in reports[i].fieldList;
        if i < |init| {
          assert init[i] == reports[i];
        }
      }
    }
  }

  /** Each undefined tuple is a bare tuple for a column without a
      definition. */
  lemma {:induction false} UndefinedTuplesShape(cols: seq<string>, defs: map<string, Option<string>>)
    ensures forall t :: t in UndefinedTuples(cols, defs) ==>
      t.name in cols && t.name !in defs && t == DefRow(t.name, None, None, None)
    decreases |cols|
  {
    if |cols| > 0 {
      var init := cols[..|cols| - 1];
      UndefinedTuplesShape(init, defs);
      assert cols == init + [cols[|cols| - 1]];
    }
  }

  /** Every column without a definition gets a tuple. */
  lemma {:induction false} UndefinedTuplesCover(cols: seq<string>, defs: map<string, Option<string>>)
    ensures forall c :: c in cols && c !in defs ==> c in RowNames(UndefinedTuples(cols, defs))
    decreases |cols|
  {
    if |cols| > 0 {
      var init := cols[..|cols| - 1];
      var c := cols[|cols| - 1];
      UndefinedTuplesCover(init, defs);
      assert cols == init + [c];
      var u := UndefinedTuples(init, defs);
      var u' := UndefinedTuples(cols, defs);
      forall x | x in cols && x !in defs ensures x in RowNames(u') {
        if x != c {
          var k :| 0 <= k < |u| && RowNames(u)[k] == x;
          assert RowNames(u')[k] == x;
        } else {
          assert RowNames(u')[|u'| - 1] == c;
        }
      }
    }
  }

  /** Distinct columns give tuples with distinct names. */
  lemma {:induction false} UndefinedTuplesUnique(cols: seq<string>, defs: map<string, Option<string>>)
    requires NoDups(cols)
    ensures NoDups(RowNames(UndefinedTuples(cols, defs)))
    decreases |cols|
  {
    if |cols| > 0 {
      var init := cols[..|cols| - 1];
      var c := cols[|cols| - 1];
      assert NoDups(init) by {
        forall i, j | 0 <= i < j < |init| ensures init[i] != init[j] {
          assert init[i] == cols[i] && init[j] == cols[j];
        }
      }
      assert c !in init;
      UndefinedTuplesUnique(init, defs);
      UndefinedTuplesShape(init, defs);
      var u := UndefinedTuples(init, defs);
      var u' := UndefinedTuples(cols, defs);
      var names := RowNames(u');
      forall i, j | 0 <= i < j < |names| ensures names[i] != names[j] {
        if j < |u| {
          assert names[i] == RowNames(u)[i] && names[j] == RowNames(u)[j];
        } else {
          assert names[i] == u[i].name && u[i] in u;
        }
      }
    }
  }

  lemma UndefinedTuplesSpec(cols: seq<string>, defs: map<string, Option<string>>)
    ensures forall t :: t in UndefinedTuples(cols, defs) ==>
      t.name in cols && t.name !in defs && t == DefRow(t.name, None, None, None)
    ensures forall c :: c in cols && c !in defs ==> c in RowNames(UndefinedTuples(cols, defs))
    ensures NoDups(cols) ==> NoDups(RowNames(UndefinedTuples(cols, defs)))
  {
    UndefinedTuplesShape(cols, defs);
    UndefinedTuplesCover(cols, defs);
    if NoDups(cols) {
      UndefinedTuplesUnique(cols, defs);
    }
  }

  /** Field names in the field rows are unique: the definitions contribute
      each distinct name once and undefined columns are added only when not
      defined. */
  lemma FieldNamesUnique(rows: seq<DefRow>, cols: seq<string>)
    requires NoDups(cols)
    ensures var defs := Definitions(rows);
      NoDups(RowNames(DefTuples(rows) + UndefinedTuples(cols, defs)))
  {
    DefinitionKeys(rows);
    var defs := Definitions(rows);
    var keys := Dedup(RowNames(rows));
    var a := DefTuples(rows);
    var b := UndefinedTuples(cols, defs);
    UndefinedTuplesShape(cols, defs);
    UndefinedTuplesUnique(cols, defs);
    var names := RowNames(a + b);
    forall i, j | 0 <= i < j < |names| ensures names[i] != names[j] {
      if j < |a| {
        assert names[i] == keys[i] && names[j] == keys[j];
      } else if i >= |a| {
        assert names[i] == RowNames(b)[i - |a|] && names[j] == RowNames(b)[j - |a|];
      } else {
        assert names[i] == keys[i] && keys[i] in defs;
        assert b[j - |a|] in b;
      }
    }
  }

  lemma {:induction false} BridgeSpec(cols: seq<string>, crd: map<string, seq<string>>, t: BridgeTuple)
    requires forall c :: c in cols ==> c in crd
    ensures t in Bridge(cols, crd) <==> t.field in cols && t.report in crd[t.field]
    decreases |cols|
  {
    if |cols| > 0 {
      var init := cols[..|cols| - 1];
      var c := cols[|cols| - 1];
      BridgeSpec(init, crd, t);
      assert cols == init + [c];
      if t.field == c && t.report in crd[c] {
        var k :| 0 <= k < |crd[c]| && crd[c][k] == t.report;
        assert Pairs(crd[c], c)[k] == t;
      }
    }
  }

  /** Every bridge row names a column that also has a field row. */
  lemma BridgeFieldsInFields(rows: seq<DefRow>, cols: seq<string>, crd: map<string, seq<string>>, t: BridgeTuple)
    requires forall c :: c in cols ==> c in crd
    requires t in Bridge(cols, crd)
    ensures var defs := Definitions(rows);
      t.field in RowNames(DefTuples(rows) + UndefinedTuples(cols, defs))
  {
    BridgeSpec(cols, crd, t);
    DefinitionKeys(rows);
    var defs := Definitions(rows);
    var keys := Dedup(RowNames(rows));
    var a := DefTuples(rows);
    var b := UndefinedTuples(cols, defs);
    UndefinedTuplesCover(cols, defs);
    var names := RowNames(a + b);
    if t.field in defs {
      var k :| 0 <= k < |keys| && keys[k] == t.field;
      assert names[k] == t.field;
    } else {
      var k :| 0 <= k < |b| && RowNames(b)[k] == t.field;
      assert names[|a| + k] == t.field;
    }
  }
}
