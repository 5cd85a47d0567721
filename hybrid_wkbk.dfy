/** A workbook seen both as a server item and as a document
    (`hybrid_wkbk.py`): its name, its custom SQL query, the cleaned names of
    its fields, and the rewriting of query text in its XML nodes. The
    document's XML is represented by plain records. */
module HybridWkbk {
  import opened Wrappers
  import opened PyStr
  import opened Util
  import opened PyDict

  /** A field of a datasource as the document library reports it. */
  datatype Field = Field(name: string, calculation: Option<string>, dtype: string, description: Option<string>)

  /** A custom-SQL element of a datasource; its text may be absent. */
  datatype SqlElement = SqlElement(text: Option<string>)

  /** A datasource: its fields, in order, and its custom-SQL elements. */
  datatype Datasource = Datasource(fields: seq<Field>, customSql: seq<SqlElement>)

  /** A workbook document: its file name and its datasources. */
  datatype WorkbookDoc = WorkbookDoc(filename: string, datasources: seq<Datasource>)

  /** A workbook item on the server; only its name is used here. */
  datatype ServerWorkbook = ServerWorkbook(name: string)

  /** An XML element under a connection: its tag and its text. */
  datatype XmlNode = XmlNode(tag: string, text: Option<string>)

  /** What `FieldInfo` records about a field. */
  datatype FieldInfo = FieldInfo(name: string, calculation: Option<string>, source: string,
                                 dtype: string, description: Option<string>)

  const SourceData: string := "Source Data"
  const CalculatedField: string := "Calculated Field"

  /** The tag `update_sql_query` looks for unless told otherwise. */
  const DefaultSearchTag: string := "relation"

  /** `FieldInfo(field_obj)`: the cleaned name, and the origin of the field,
      which is source data exactly when it has no calculation. */
  function MakeFieldInfo(f: Field): (r: FieldInfo)
    ensures r.name == CleanFieldName(f.name)
    ensures r.source == SourceData <==> f.calculation.None?
    ensures r.source == CalculatedField <==> f.calculation.Some?
    ensures r.calculation == f.calculation && r.dtype == f.dtype && r.description == f.description
  {
    FieldInfo(CleanFieldName(f.name), f.calculation,
              if f.calculation.None? then SourceData else CalculatedField,
              f.dtype, f.description)
  }

  /** The name a workbook gets: from the document's file name, else the
      server item's name, else `name_error`. */
  function WorkbookName(wbs: Option<ServerWorkbook>, wbd: Option<WorkbookDoc>): string {
    if wbd.Some? then ExtractName(wbd.value.filename)
    else if wbs.Some? then wbs.value.name
    else "name_error"
  }

  // ---------------------------------------------------------------------
  // get_sql
  // ---------------------------------------------------------------------

  /** The first custom-SQL element of the last datasource that has one. */
  function LastSql(dss: seq<Datasource>): Option<SqlElement>
    decreases |dss|
  {
    if |dss| == 0 then None
    else
      var last := dss[|dss| - 1];
      if |last.customSql| > 0 then Some(last.customSql[0]) else LastSql(dss[..|dss| - 1])
  }

  /** `LastSql` picks the last datasource with custom SQL, skipping every
      later one, and finds nothing exactly when no datasource has any. */
  lemma {:induction false} LastSqlSpec(dss: seq<Datasource>)
    ensures LastSql(dss).None? <==> forall i :: 0 <= i < |dss| ==> dss[i].customSql == []
    ensures LastSql(dss).Some? ==> exists i :: (0 <= i < |dss| && |dss[i].customSql| > 0
      && LastSql(dss) == Some(dss[i].customSql[0])
      && forall j :: i < j < |dss| ==> dss[j].customSql == [])
    decreases |dss|
  {
    if |dss| > 0 {
      var init := dss[..|dss| - 1];
      LastSqlSpec(init);
      if |dss[|dss| - 1].customSql| == 0 {
        assert forall i :: 0 <= i < |init| ==> init[i] == dss[i];
        if LastSql(dss).Some? {
          var i :| 0 <= i < |init| && |init[i].customSql| > 0 && LastSql(init) == Some(init[i].customSql[0])
            && forall j :: i < j < |init| ==> init[j].customSql == [];
          assert dss[i] == init[i];
        }
      }
    }
  }

  /** `get_sql(wkbk_obj, simple)`: with `simple` set, the text of the first
      custom-SQL element of the last datasource that has one. A missing
      document raises AttributeError; when no datasource has custom SQL the
      result variable is never bound and UnboundLocalError is raised. Without
      `simple` the result is None. */
  method GetSql(wkbkObj: Option<WorkbookDoc>, simple: bool) returns (r: Result<Option<string>, PyError>)
    ensures !simple ==> r == Success(None)
    ensures simple && wkbkObj.None? ==> r == Failure(AttributeError)
    ensures simple && wkbkObj.Some? && LastSql(wkbkObj.value.datasources).None? ==> r == Failure(UnboundLocalError)
    ensures simple && wkbkObj.Some? && LastSql(wkbkObj.value.datasources).Some? ==>
      r == Success(LastSql(wkbkObj.value.datasources).value.text)
  {
    if !simple {
      return Success(None);
    }
    if wkbkObj.None? {
      return Failure(AttributeError);
    }
    var dss := wkbkObj.value.datasources;
    var sqlList: Option<SqlElement> := None;
    for i := 0 to |dss|
      invariant sqlList == LastSql(dss[..i])
    {
      assert dss[..i + 1][..i] == dss[..i];
      if |dss[i].customSql| > 0 {
        sqlList := Some(dss[i].customSql[0]);
      }
    }
    assert dss[..|dss|] == dss;
    if sqlList.None? {
      return Failure(UnboundLocalError);
    }
    return Success(sqlList.value.text);
  }

  // ---------------------------------------------------------------------
  // get_fields
  // ---------------------------------------------------------------------

  /** Every field of every datasource, in datasource then field order. */
  function AllFields(dss: seq<Datasource>): seq<Field>
    decreases |dss|
  {
    if |dss| == 0 then [] else AllFields(dss[..|dss| - 1]) + dss[|dss| - 1].fields
  }

  /** The key a field is recorded under: its cleaned name. */
  function FieldKey(f: Field): string {
    CleanFieldName(f.name)
  }

  /** cleaned name → `FieldInfo`; a later field with the same cleaned name
      overwrites an earlier one. */
  function FieldDict(fs: seq<Field>): map<string, FieldInfo> {
    LastWinsMap(fs, FieldKey, MakeFieldInfo)
  }

  /** The cleaned names of the fields, in order, duplicates kept. */
  function FieldNames(fs: seq<Field>): (r: seq<string>)
    ensures |r| == |fs|
    ensures forall i :: 0 <= i < |fs| ==> r[i] == FieldKey(fs[i])
    decreases |fs|
  {
    if |fs| == 0 then [] else FieldNames(fs[..|fs| - 1]) + [FieldKey(fs[|fs| - 1])]
  }

  lemma FieldDictAppend(fs: seq<Field>, f: Field)
    ensures FieldDict(fs + [f]) == FieldDict(fs)[FieldKey(f) := MakeFieldInfo(f)]
  {
    LastWinsMapAppend(fs, f, FieldKey, MakeFieldInfo);
  }

  lemma FieldsAppendNothing(fs: seq<Field>, more: seq<Field>)
    ensures FieldNames(fs + more[..0]) == FieldNames(fs)
    ensures FieldDict(fs + more[..0]) == FieldDict(fs)
  {
    assert fs + more[..0] == fs;
  }

  lemma FieldsAppendStep(fs: seq<Field>, more: seq<Field>, i: nat)
    requires i < |more|
    ensures FieldNames(fs + more[..i + 1]) == FieldNames(fs + more[..i]) + [FieldKey(more[i])]
    ensures FieldDict(fs + more[..i + 1]) == FieldDict(fs + more[..i])[FieldKey(more[i]) := MakeFieldInfo(more[i])]
  {
    assert fs + more[..i + 1] == (fs + more[..i]) + [more[i]];
    FieldNamesAppend(fs + more[..i], more[i]);
    FieldDictAppend(fs + more[..i], more[i]);
  }

  lemma FieldsAppendAll(fs: seq<Field>, more: seq<Field>)
    ensures FieldNames(fs + more[..|more|]) == FieldNames(fs + more)
    ensures FieldDict(fs + more[..|more|]) == FieldDict(fs + more)
  {
    assert more[..|more|] == more;
  }

  lemma FieldNamesAppend(fs: seq<Field>, f: Field)
    ensures FieldNames(fs + [f]) == FieldNames(fs) + [FieldKey(f)]
  {
    assert (fs + [f])[..|fs|] == fs;
  }

  lemma {:induction false} AllFieldsCount(dss: seq<Datasource>)
    ensures |AllFields(dss)| == TotalFields(dss)
    decreases |dss|
  {
    if |dss| > 0 {
      AllFieldsCount(dss[..|dss| - 1]);
    }
  }

  /** The number of fields over all datasources. */
  function TotalFields(dss: seq<Datasource>): nat
    decreases |dss|
  {
    if |dss| == 0 then 0 else TotalFields(dss[..|dss| - 1]) + |dss[|dss| - 1].fields|
  }

  /** The keys of the field dict are exactly the names in the field list,
      and each maps to the `FieldInfo` of the last field with that cleaned
      name. */
  lemma FieldDictSpec(fs: seq<Field>)
    ensures forall k :: k in FieldDict(fs) <==> k in FieldNames(fs)
    ensures forall k :: k in FieldDict(fs) ==>
      exists i :: IsLastWithKey(fs, FieldKey, k, i) && FieldDict(fs)[k] == MakeFieldInfo(fs[i])
  {
    LastWinsMapSpec(fs, FieldKey, MakeFieldInfo);
    forall k | k in FieldNames(fs) ensures k in FieldDict(fs) {
      var i :| 0 <= i < |fs| && FieldNames(fs)[i] == k;
      assert FieldKey(fs[i]) == k;
    }
  }

  /** A field name is in the list exactly when some field of some
      datasource cleans to it. */
  lemma FieldNamesMembership(fs: seq<Field>, k: string)
    ensures k in FieldNames(fs) <==> exists i :: 0 <= i < |fs| && CleanFieldName(fs[i].name) == k
  {
    if k in FieldNames(fs) {
      var i :| 0 <= i < |fs| && FieldNames(fs)[i] == k;
    }
  }

  /** The class attribute `WBhybrid.active`: every workbook object made. */
  class WBhybridRegistry {
    var active: seq<WBhybrid>

    constructor ()
      ensures active == []
    {
      active := [];
    }
  }

  /** A `WBhybrid` that was constructed: it always has a document, because
      construction without one fails. */
  class WBhybrid {
    const wbs: Option<ServerWorkbook>
    const wbd: WorkbookDoc
    const name: string
    const query: Option<string>
    var fieldList: seq<string>
    var fieldDict: map<string, FieldInfo>

    constructor (wbs: Option<ServerWorkbook>, wbd: WorkbookDoc, name: string, query: Option<string>)
      ensures this.wbs == wbs && this.wbd == wbd && this.name == name && this.query == query
      ensures fieldList == [] && fieldDict == map[]
    {
      this.wbs := wbs;
      this.wbd := wbd;
      this.name := name;
      this.query := query;
      fieldList := [];
      fieldDict := map[];
    }

    /** `get_fields`: reset the list and dict, then for every field of every
        datasource append its cleaned name to the list and record its
        `FieldInfo` under that name. */
    method GetFields() returns (r: seq<string>)
      modifies this
      ensures fieldList == FieldNames(AllFields(wbd.datasources))
      ensures fieldDict == FieldDict(AllFields(wbd.datasources))
      ensures r == fieldList
    {
      fieldList := [];
      fieldDict := map[];
      var dss := wbd.datasources;
      for d := 0 to |dss|
        invariant fieldList == FieldNames(AllFields(dss[..d]))
        invariant fieldDict == FieldDict(AllFields(dss[..d]))
      {
        RecordFields(AllFields(dss[..d]), dss[d].fields);
        assert dss[..d + 1][..d] == dss[..d];
      }
      assert dss[..|dss|] == dss;
      r := fieldList;
    }

    /** The inner loop of `get_fields` over one datasource's fields: append
        each cleaned name and record its `FieldInfo`. */
    method RecordFields(ghost before: seq<Field>, fs: seq<Field>)
      modifies this
      requires fieldList == FieldNames(before) && fieldDict == FieldDict(before)
      ensures fieldList == FieldNames(before + fs) && fieldDict == FieldDict(before + fs)
    {
      FieldsAppendNothing(before, fs);
      for i := 0 to |fs|
        invariant fieldList == FieldNames(before + fs[..i])
        invariant fieldDict == FieldDict(before + fs[..i])
      {
        var field := FieldKey(fs[i]);
        FieldsAppendStep(before, fs, i);
        fieldList := fieldList + [field];
        fieldDict := fieldDict[field := MakeFieldInfo(fs[i])];
      }
      FieldsAppendAll(before, fs);
    }

    /** `update_sql_query`: in every node that has text and whose tag
        contains the search tag, replace each occurrence of `oldItem` by
        `replaceWith`; then work out the updated file's name from the
        workbook name and the extension of the document's file name, which
        raises ValueError when that name has no dot. */
    method UpdateSqlQuery(nodes: array<XmlNode>, oldItem: string, replaceWith: string, searchTag: string)
      returns (r: Result<string, PyError>)
      modifies nodes
      ensures nodes[..] == RewriteNodes(old(nodes[..]), oldItem, replaceWith, searchTag)
      ensures r == match Extension(wbd.filename)
        case Success(ext) => Success(name + ext)
        case Failure(e) => Failure(e)
    {
      ghost var orig := nodes[..];
      for i := 0 to nodes.Length
        invariant forall k :: 0 <= k < i ==> nodes[k] == RewriteNode(orig[k], oldItem, replaceWith, searchTag)
        invariant forall k :: i <= k < nodes.Length ==> nodes[k] == orig[k]
      {
        var node := nodes[i];
        if node.text.None? {
          continue;
        }
        if Contains(node.tag, searchTag) {
          nodes[i] := node.(text := Some(Replace(node.text.value, oldItem, replaceWith)));
        }
      }
      assert nodes[..] == RewriteNodes(orig, oldItem, replaceWith, searchTag);
      var ext := Extension(wbd.filename);
      if ext.Failure? {
        return Failure(ext.error);
      }
      return Success(name + ext.value);
    }
  }

  /** `WBhybrid(wbs_obj, wbd_obj)`: pick the name, read the query with
      `get_sql`, and append the new object to the registry. `get_sql` reads
      the document's datasources, so without a document construction raises
      AttributeError, and without custom SQL it raises UnboundLocalError. */
  method NewWBhybrid(wbs: Option<ServerWorkbook>, wbd: Option<WorkbookDoc>, registry: WBhybridRegistry)
    returns (r: Result<WBhybrid, PyError>)
    modifies registry
    ensures wbd.None? ==> r == Failure(AttributeError) && registry.active == old(registry.active)
    ensures wbd.Some? && LastSql(wbd.value.datasources).None? ==>
      r == Failure(UnboundLocalError) && registry.active == old(registry.active)
    ensures wbd.Some? && LastSql(wbd.value.datasources).Some? ==>
      && r.Success? && fresh(r.value)
      && r.value.name == WorkbookName(wbs, wbd)
      && r.value.name == ExtractName(wbd.value.filename)
      && r.value.query == LastSql(wbd.value.datasources).value.text
      && r.value.wbd == wbd.value && r.value.wbs == wbs
      && registry.active == old(registry.active) + [r.value]
  {
    var name := WorkbookName(wbs, wbd);
    var query := GetSql(wbd, true);
    if query.Failure? {
      return Failure(query.error);
    }
    var wb := new WBhybrid(wbs, wbd.value, name, query.value);
    registry.active := registry.active + [wb];
    return Success(wb);
  }

  /** One node after the rewrite. */
  function RewriteNode(n: XmlNode, oldItem: string, replaceWith: string, searchTag: string): XmlNode {
    if n.text.Some? && Contains(n.tag, searchTag)
    then n.(text := Some(Replace(n.text.value, oldItem, replaceWith)))
    else n
  }

  /** Every node after the rewrite, in order. */
  function RewriteNodes(ns: seq<XmlNode>, oldItem: string, replaceWith: string, searchTag: string): (r: seq<XmlNode>)
    ensures |r| == |ns|
    ensures forall i :: 0 <= i < |ns| ==> r[i] == RewriteNode(ns[i], oldItem, replaceWith, searchTag)
  {
    seq(|ns|, i requires 0 <= i < |ns| => RewriteNode(ns[i], oldItem, replaceWith, searchTag))
  }

  /** The rewrite keeps the number of nodes and every tag, and changes only
      nodes that have text and whose tag contains the search tag. */
  lemma RewriteNodesChangesOnlyMatches(ns: seq<XmlNode>, oldItem: string, replaceWith: string, searchTag: string)
    ensures var r := RewriteNodes(ns, oldItem, replaceWith, searchTag);
      && |r| == |ns|
      && (forall i :: 0 <= i < |ns| ==> r[i].tag == ns[i].tag)
      && (forall i :: 0 <= i < |ns| && r[i] != ns[i] ==> ns[i].text.Some? && Contains(ns[i].tag, searchTag))
      && (forall i :: 0 <= i < |ns| ==> (r[i].text.None? <==> ns[i].text.None?))
  {
  }

  /** Replacing a non-empty item by itself leaves every node as it was. */
  lemma RewriteNodesSelf(ns: seq<XmlNode>, item: string, searchTag: string)
    requires |item| > 0
    ensures RewriteNodes(ns, item, item, searchTag) == ns
  {
    forall i | 0 <= i < |ns| ensures RewriteNode(ns[i], item, item, searchTag) == ns[i] {
      if ns[i].text.Some? {
        ReplaceSelf(ns[i].text.value, item);
      }
    }
  }

  /** Where a node's text no longer contains the item, it is not touched
      again: the rewrite is idempotent when the replacement does not bring
      the item back. */
  lemma RewriteNodeAbsent(n: XmlNode, oldItem: string, replaceWith: string, searchTag: string)
    requires |oldItem| > 0 && n.text.Some? && !Contains(n.text.value, oldItem)
    ensures RewriteNode(n, oldItem, replaceWith, searchTag) == n
  {
    ReplaceAbsent(n.text.value, oldItem, replaceWith);
  }

  /** Under the default search tag a `relation` node with text has its
      text rewritten, and a node whose tag has no `r` (`column`, say) is
      left alone. */
  lemma RewriteDefaultTag(n: XmlNode, oldItem: string, replaceWith: string)
    requires n.text.Some?
    ensures n.tag == DefaultSearchTag ==>
      RewriteNode(n, oldItem, replaceWith, DefaultSearchTag) == n.(text := Some(Replace(n.text.value, oldItem, replaceWith)))
    ensures 'r' !in n.tag ==> RewriteNode(n, oldItem, replaceWith, DefaultSearchTag) == n
  {
    if n.tag == DefaultSearchTag {
      assert StartsWith(n.tag, DefaultSearchTag);
    }
    if 'r' !in n.tag && Contains(n.tag, DefaultSearchTag) {
      ContainsChars(n.tag, DefaultSearchTag, 'r');
    }
  }

  /** The index of the first occurrence of `c`, None where `str.index`
      raises ValueError. */
  function Index(s: string, c: char): (r: Option<nat>)
    ensures r.Some? ==> r.value < |s| && s[r.value] == c && c !in s[..r.value]
    ensures r.None? ==> c !in s
    decreases |s|
  {
    if |s| == 0 then None
    else if s[0] == c then Some(0)
    else match Index(s[1..], c)
      case None => None
      case Some(k) =>
        assert s[..k + 1] == [s[0]] + s[1..][..k];
        Some(k + 1)
  }

  /** `filename[filename.index('.'):]`: the suffix from the first dot, or
      ValueError when there is no dot. */
  function Extension(filename: string): (r: Result<string, PyError>)
    ensures r.Failure? <==> '.' !in filename
    ensures r.Failure? ==> r.error == ValueError
    ensures r.Success? ==> (
      && 0 < |r.value| <= |filename| && r.value[0] == '.'
      && filename == filename[..|filename| - |r.value|] + r.value
      && '.' !in filename[..|filename| - |r.value|])
  {
    match Index(filename, '.')
    case None => Failure(ValueError)
    case Some(k) =>
      assert filename == filename[..k] + filename[k..];
      Success(filename[k..])
  }
}
