# Tableau metadata sync, maze path finder and pipeline helpers — a Dafny model

This project models the logic core of a Python repository that keeps a data
dictionary for a Tableau Server site, together with a few self-contained
helpers from the same repository:

- **`tableau_server_mgr`**, the metadata-sync core.
  - `util.py`: chunking, field-name normalisation, workbook-name
    extraction and id lookup.
  - `tabsrvr.py`: the `UpdateCheck` registry; change detection against a
    saved snapshot; chunked download and publish.
  - `hybrid_wkbk.py`: `FieldInfo`; the `WBhybrid` name, query and field
    extraction; the custom-SQL rewrite.
  - `data_dict.py`: definition lookup, field and report collection, and
    the report, field and bridge tuples.
  - `add_definitions.py`: merging of corrections, loading of the
    corrections file, and the header remap.
- **`agraph.py`**: the maze graph (`Graph.add_edge`, `Runner.map_maze`) and
  the recursive depth-first path search `find_path`.
- **`gov_contracts_pipeline`**: `reformat_names` and `fix_date_issues`; the
  `Pipeline` task registry of `manage.py`; the SQL column and placeholder
  strings of its `last_task`.
- **`stock_market_project/feature_store.py`**: its copy of `Pipeline`, its
  registration order and `get_prev_close_date`.

Modules:

- `Wrappers`: `Option`, `Result` and the Python exception kinds a
  modelled call can raise (`PyError`).
- `Seqs`: `NoDups`.
- `PyStr`: `str.replace`, `in`, `join`, `strip`/`lstrip`/`rstrip` and
  `*`, as recursive functions with lemmas.
- `PyDict`: a dict filled by a loop in which the last write wins.
- `Util`, `TabSrvr`, `HybridWkbk`, `DataDictionary`, `AddDefinitions`,
  `AGraph`, `ContractCleaner`: one module per source file.
- `TaskPipeline`: the `Pipeline` class, defined once. `manage.py` and
  `feature_store.py` each contain an identical copy of it.
- `Manage`, `FeatureStore`: the registrations, and the other logic of those
  two files.

Modelling conventions:

- Objects whose methods update fields in place are classes with
  `modifies` clauses.
  - `TabServer`, `WBhybrid`, `DataDict`, `UpdateDataDict`, `Graph` and
    `Pipeline`.
  - The class-level lists `UpdateCheck.active` and `WBhybrid.active` are
    registry objects.
  - Where two attributes hold the same Python object, the model keeps
    that. `TabServer.update_objs` refers to the registry itself.
    `UpdateDataDict.shared` records which `updated_dd` entries are rows of
    `updates`, so the in-place header remap renames both.
- Each method is proved against a specification function. That function's
  own properties are proved as lemmas.
- Pure expression code is functions and lemmas.
  - `clean_field_names`, `extract_name`, `get_chunks`, `find_path`.
  - `reformat_names`, `fix_date_issues`.
- Calls into code outside the model become parameters.
  - Tableau Server downloads and publishes.
  - The tasks a pipeline runs.
- Python exceptions become `Failure` results naming the exception, for
  example `KeyError` from a missing dict key or `ValueError` from
  `list.index`.

The code's own quirks are modelled as written.

- `get_sql` takes the *last* datasource that has custom SQL, and fails when
  none has any.
- On the first run, `compare_update_at` returns one list rather than a pair.
  Ids new in the catalogue are never reported.
- `clean_field_names` turns a literal `ZZZ` into `%`.
- `compare_dict` takes the incoming value for every key but `FIELD_ID`.
- `get_prev_close_date` skips only Sundays.

## Model

| member | source | states |
|---|---|---|
| Util.Chunks | tableau_server_mgr/util.py:54 | concatenating the chunks in order gives back exactly the items; every chunk is non-empty and holds at most `size` items; all but the last hold exactly `size`; their number is the ceiling of len/size (none for empty input) |
| Util.GetChunks | tableau_server_mgr/util.py:44-55 | a chunk size of 0 raises ValueError (from `range`); a negative size gives no chunks; a positive size gives the partition above |
| Util.CleanFieldNameShape | tableau_server_mgr/util.py:111-118 | for ASCII input the cleaned name holds only A–Z, 0–9, `_` and `%`, and neither starts nor ends with `_` |
| Util.CleanFieldNameChar | tableau_server_mgr/util.py:113-117 | every character of a cleaned ASCII name is one of A–Z, 0–9, `_`, `%` |
| Util.CleanFieldNameSafe | tableau_server_mgr/util.py:114-116 | a cleaned ASCII name contains no `ZZZ` and no `Z%`, so protecting `%` and restoring it again is the identity on it |
| Util.CleanFieldNameIdempotent | tableau_server_mgr/util.py:111-118 | cleaning a cleaned ASCII name changes nothing |
| Util.CleanFieldNamePercent | tableau_server_mgr/util.py:111-118 | `"% of total"` becomes `"%_OF_TOTAL"` |
| Util.CleanFieldNameZzz | tableau_server_mgr/util.py:114-116 | the placeholder quirk: `"pizzza"` becomes `"PI%A"` |
| Util.FinishThreeWords | tableau_server_mgr/util.py:117 | three space-free words joined by single spaces come out joined by `_` |
| Util.CollapseSepsNoSep | tableau_server_mgr/util.py:69 | after runs of `/` and `\` are replaced by `%` no separator is left |
| Util.ExtractNameChars | tableau_server_mgr/util.py:69-80 | the extracted name never contains `/`, `\` or `%` |
| Util.ExtractFromBetween | tableau_server_mgr/util.py:69-79 | the name is the text strictly between the last `%` (a collapsed separator) and the last `.` |
| Util.ExtractNameOfPath | tableau_server_mgr/util.py:60-80 | `dir/base.ext` (with either separator) gives `base` |
| Util.ExtractNameDotInDirectory | tableau_server_mgr/util.py:69-80 | when the last dot precedes the last separator, as in `dir.v2/file`, the name is empty |
| Util.ExtractNameAfterSep | tableau_server_mgr/util.py:69-80 | a collapsed name `…%base.ext`, with no `%` in `base` and neither `%` nor `.` in `ext`, gives `base` |
| Util.ExtractFromDotFirst | tableau_server_mgr/util.py:69-80 | a collapsed name whose last `.` comes before its last `%` gives the empty name |
| Util.MatchingIdsSpec | tableau_server_mgr/util.py:29-31 | every object whose name contains `obj_name` has its id as a key, and each key maps to the name of the last matching object with that id |
| Util.GetId | tableau_server_mgr/util.py:16-36 | with `return_all` the id→name dict of the matching objects; otherwise the id of the first object whatever its name, or None for an empty list |
| TabSrvr.UpdateCheckRegistry.constructor | tableau_server_mgr/tabsrvr.py:16 | the class-level list starts empty |
| TabSrvr.UpdateCheckRegistry.Register | tableau_server_mgr/tabsrvr.py:17-26 | a new `UpdateCheck` carries the workbook's id and update time and is appended to `active` |
| TabSrvr.ChecksOf | tableau_server_mgr/tabsrvr.py:113-114 | one `UpdateCheck` per catalogued workbook, in catalogue order |
| TabSrvr.IdsOf | tableau_server_mgr/tabsrvr.py:140-141 | the ids of the update objects, in order |
| TabSrvr.FirstMissing | tableau_server_mgr/tabsrvr.py:144-145 | the first snapshot entry whose id is absent from the current map (where the lookup raises), or none when every id is present |
| TabSrvr.TabServer.constructor | tableau_server_mgr/tabsrvr.py:56-57 | after sign-in the catalogue is empty, there are no update objects, and `check_new_updates` does not exist yet |
| TabSrvr.TabServer.RecordWorkbookList | tableau_server_mgr/tabsrvr.py:107 | the workbook entry of the catalogue becomes the listed items and the reported total; nothing else changes |
| TabSrvr.TabServer.BuildUpdateCheck | tableau_server_mgr/tabsrvr.py:110-116 | `check_new_updates` maps each catalogued id to its update time (last duplicate wins); one check per workbook is appended to the registry; `update_objs` refers to the registry's own list, so checks created later are seen through it; an empty catalogue raises UnboundLocalError and no catalogue raises KeyError |
| TabSrvr.TabServer.CompareUpdateAt | tableau_server_mgr/tabsrvr.py:125-149 | without a snapshot the ids of every check now in the referenced registry come back as one list (TypeError when there is none); with one, each entry is classed in snapshot order as changed or unchanged by exact equality, stopping with KeyError at the first id missing from the current map, or with AttributeError at the first entry when `build_update_check` never ran |
| TabSrvr.TabServer.DownloadWkbks | tableau_server_mgr/tabsrvr.py:152-157 | one download result per id, in input order; a catalogue total below 8 makes the chunk size 0 and raises ValueError |
| TabSrvr.TabServer.PublishWkbks | tableau_server_mgr/tabsrvr.py:167-172 | one publish result per item, in order, published under its document file name and the mode; fewer than 8 items raises ValueError |
| TabSrvr.TransferChunk | tableau_server_mgr/tabsrvr.py:160-164 | the per-chunk loop returns the remote call's result for each item of the chunk, in order (`_download_wkbks` and `_publish_wkbks` alike) |
| TabSrvr.TransferChunks | tableau_server_mgr/tabsrvr.py:155-156 | accumulating chunk results with `+=` gives one result per item of the flattened chunks, in order |
| TabSrvr.UpdateMapSpec | tableau_server_mgr/tabsrvr.py:112-115 | every catalogued id is a key, and each id maps to the update time of its last occurrence |
| TabSrvr.ClassifyCounts | tableau_server_mgr/tabsrvr.py:144-149 | each snapshot entry lands in exactly one of the two lists: the lengths sum to the snapshot length and together they hold the snapshot ids as a multiset |
| TabSrvr.ClassifyLast | tableau_server_mgr/tabsrvr.py:144-148 | an entry whose id is in the current map extends exactly one of the two lists by its id |
| TabSrvr.ChangedIdsMembership | tableau_server_mgr/tabsrvr.py:145-148 | an id is reported as changed exactly when some snapshot entry with that id has a time different from the current one |
| TabSrvr.UnchangedIdsMembership | tableau_server_mgr/tabsrvr.py:145-146 | an id is reported as unchanged exactly when some snapshot entry with that id has the current time |
| TabSrvr.ClassifyDisjoint | tableau_server_mgr/tabsrvr.py:144-149 | with distinct snapshot ids, no id is both changed and unchanged |
| TabSrvr.NewIdsNotReported | tableau_server_mgr/tabsrvr.py:144 | an id absent from the snapshot appears in neither list |
| TabSrvr.BackwardsIsChanged | tableau_server_mgr/tabsrvr.py:145 | a timestamp that moved backwards is classed as needing update |
| HybridWkbk.MakeFieldInfo | tableau_server_mgr/hybrid_wkbk.py:12-21 | the name is the cleaned field name; the source is 'Source Data' exactly when there is no calculation, 'Calculated Field' exactly when there is one; the other attributes are copied |
| HybridWkbk.LastSqlSpec | tableau_server_mgr/hybrid_wkbk.py:88-97 | the query found is the first custom-SQL element of the last datasource that has one; there is none exactly when no datasource has custom SQL |
| HybridWkbk.GetSql | tableau_server_mgr/hybrid_wkbk.py:73-99 | `simple=False` returns None; no document raises AttributeError; no custom SQL anywhere raises UnboundLocalError; otherwise the text of the last datasource's query |
| HybridWkbk.FieldNames | tableau_server_mgr/hybrid_wkbk.py:64-68 | one cleaned name per field, in order, duplicates kept |
| HybridWkbk.AllFieldsCount | tableau_server_mgr/hybrid_wkbk.py:64-66 | the field list is as long as the total field count over all datasources |
| HybridWkbk.FieldDictSpec | tableau_server_mgr/hybrid_wkbk.py:67-70 | the keys of `field_dict` are exactly the entries of `field_list`, and each maps to the `FieldInfo` of the last field with that cleaned name |
| HybridWkbk.FieldNamesMembership | tableau_server_mgr/hybrid_wkbk.py:64-68 | a name is listed exactly when some field cleans to it |
| HybridWkbk.WBhybridRegistry.constructor | tableau_server_mgr/hybrid_wkbk.py:29 | the class-level list starts empty |
| HybridWkbk.WBhybrid.constructor | tableau_server_mgr/hybrid_wkbk.py:39-52 | the object holds the given server item, document, name and query, with no fields gathered yet |
| HybridWkbk.WBhybrid.GetFields | tableau_server_mgr/hybrid_wkbk.py:59-71 | `field_list` becomes the cleaned names of all fields of all datasources, in order; `field_dict` becomes the last-wins map from those names to their `FieldInfo`; the list is returned |
| HybridWkbk.WBhybrid.RecordFields | tableau_server_mgr/hybrid_wkbk.py:66-70 | the inner loop extends the list and the dict by one datasource's fields |
| HybridWkbk.WBhybrid.UpdateSqlQuery | tableau_server_mgr/hybrid_wkbk.py:142-157 | the node array is rewritten in place exactly as `RewriteNodes` says; the output file name is the workbook name plus the extension, or ValueError without a dot |
| HybridWkbk.NewWBhybrid | tableau_server_mgr/hybrid_wkbk.py:30-57 | without a document the constructor raises AttributeError; without custom SQL UnboundLocalError; otherwise a fresh object named by `extract_name` of the document file name, holding the last datasource's query, appended to the registry |
| HybridWkbk.RewriteNodes | tableau_server_mgr/hybrid_wkbk.py:146-151 | node by node: a node with text whose tag contains the search tag gets every occurrence of the old item replaced, any other node is kept |
| HybridWkbk.RewriteNodesChangesOnlyMatches | tableau_server_mgr/hybrid_wkbk.py:146-151 | node count and tags are unchanged, only matching nodes with text can change, and text presence is kept |
| HybridWkbk.RewriteNodesSelf | tableau_server_mgr/hybrid_wkbk.py:150 | replacing a non-empty item by itself changes no node |
| HybridWkbk.RewriteNodeAbsent | tableau_server_mgr/hybrid_wkbk.py:150 | a node whose text lacks the old item is unchanged |
| HybridWkbk.RewriteDefaultTag | tableau_server_mgr/hybrid_wkbk.py:133-150 | with the default search tag `'relation'`, a `relation` node with text is rewritten, and a node whose tag has no `r` is left alone |
| HybridWkbk.Index | tableau_server_mgr/hybrid_wkbk.py:155 | `str.index`: the first position of the character, or none when it is absent |
| HybridWkbk.Extension | tableau_server_mgr/hybrid_wkbk.py:155 | the suffix from the first `.`: a non-empty suffix starting with `.`, with no `.` before it; ValueError exactly when there is no `.` |
| DataDictionary.Dedup | tableau_server_mgr/data_dict.py:52 | no duplicates, and exactly the same elements as the input |
| DataDictionary.RowNames | tableau_server_mgr/data_dict.py:112-113 | the name of each definition row (or `fields` tuple), in order |
| DataDictionary.ReportTuples | tableau_server_mgr/data_dict.py:76 | one `(name, '01 Productivity')` pair per report, in order |
| DataDictionary.DefTuples | tableau_server_mgr/data_dict.py:78 | one field tuple per distinct definition name, in first-appearance order |
| DataDictionary.Pairs | tableau_server_mgr/data_dict.py:84-85 | one `(report, col)` bridge tuple per report in the list, in order |
| DataDictionary.AppendPairs | tableau_server_mgr/data_dict.py:84-85 | the inner loop appends exactly those pairs to the bridge |
| DataDictionary.DataDict.constructor | tableau_server_mgr/data_dict.py:30-40 | after construction: the definitions are the last-wins lookup; the report names are listed; the raw and de-duplicated field lists are the reports' fields; the data dict and field→reports map are filled as `get_all_fields` fills them; the map's keys are in the order of the de-duplicated fields; the type and tag maps are the rows' last-wins maps |
| DataDictionary.DataDict.DataDictLookup | tableau_server_mgr/data_dict.py:95-117 | returns the name→description map (last row wins), sets the type and tag maps the same way, and keys them by the distinct row names; nothing else changes |
| DataDictionary.DataDict.QuickBuild | tableau_server_mgr/data_dict.py:42-43 | the report names are the reports' names in order, and no other attribute changes |
| DataDictionary.DataDict.GetAllFields | tableau_server_mgr/data_dict.py:45-62 | the raw fields are the earlier fields plus every report's fields; `all_fields` is their de-duplication; undefined fields get 'No definition'; `col_report_dict` gains each field's reports |
| DataDictionary.DataDict.CollectFields | tableau_server_mgr/data_dict.py:49-50 | `all_fields` is extended by each report's field list in report order |
| DataDictionary.DataDict.RecordFields | tableau_server_mgr/data_dict.py:54-61 | the field loop updates the data dict and the field→reports map field by field |
| DataDictionary.DataDict.RecordField | tableau_server_mgr/data_dict.py:55-61 | one field: 'No definition' if it is new to the data dict; an empty entry if it is new to the map; then the names of the reports listing it are appended |
| DataDictionary.DataDict.RecordReports | tableau_server_mgr/data_dict.py:59-61 | the report loop appends the names of the reports whose field list contains the field |
| DataDictionary.DataDict.DataStructs | tableau_server_mgr/data_dict.py:69-93 | reports: one pair per report name; fields: each definition once, then `(col, None, None, None)` for each map key without a definition; bridge: one pair per report listed under each key, in key order; only the type and tag maps are re-read, and the field lists, data dict and definitions are unchanged |
| DataDictionary.DefinitionKeys | tableau_server_mgr/data_dict.py:112-117 | the description, type and tag maps all have exactly the row names as keys |
| DataDictionary.DefinitionsLastRow | tableau_server_mgr/data_dict.py:112-115 | the last row with a name supplies its description, type and tag |
| DataDictionary.WithNoDefinitionSpec | tableau_server_mgr/data_dict.py:54-56 | the keys become the old keys plus the fields; existing entries are untouched; new fields map to 'No definition' |
| DataDictionary.ReportsWithSpec | tableau_server_mgr/data_dict.py:59-61 | a report name is listed for a field exactly when some report of that name lists the field |
| DataDictionary.ColReportsSpec | tableau_server_mgr/data_dict.py:54-61 | for distinct fields: the map's keys are the old keys plus the fields; each field gets its old list plus its reports in report order; other keys are untouched |
| DataDictionary.AllFieldsSpec | tableau_server_mgr/data_dict.py:49-52 | `all_fields` has no duplicates and holds exactly the earlier fields and the fields of every report |
| DataDictionary.ReportFieldsMembership | tableau_server_mgr/data_dict.py:49-50 | a field is in the raw list exactly when some report lists it |
| DataDictionary.UndefinedTuplesSpec | tableau_server_mgr/data_dict.py:80-82 | each appended tuple is `(col, None, None, None)` for a column without a definition; every such column gets one; distinct columns give distinct tuples |
| DataDictionary.UndefinedTuplesShape | tableau_server_mgr/data_dict.py:80-82 | each appended tuple is `(col, None, None, None)` for a listed column without a definition |
| DataDictionary.UndefinedTuplesCover | tableau_server_mgr/data_dict.py:80-82 | every listed column without a definition gets a tuple |
| DataDictionary.UndefinedTuplesUnique | tableau_server_mgr/data_dict.py:80-82 | distinct columns give tuples with distinct names |
| DataDictionary.FieldNamesUnique | tableau_server_mgr/data_dict.py:74-82 | the names of the field tuples are unique |
| DataDictionary.BridgeSpec | tableau_server_mgr/data_dict.py:80-85 | a `(report, field)` pair is in the bridge exactly when the field is a key and the report is listed under it |
| DataDictionary.BridgeFieldsInFields | tableau_server_mgr/data_dict.py:78-85 | every bridge field name occurs among the field tuples |
| PyDict.LastWinsMapSpec | tableau_server_mgr/data_dict.py:112-115 | a dict filled in a loop has every key written, each holding the value of the last element with that key |
| AddDefinitions.MergedRecordSpec | tableau_server_mgr/add_definitions.py:46-54 | the merge has exactly the existing record's keys; `FIELD_ID` is copied from it; every other key takes the incoming value, even an empty one |
| AddDefinitions.CompareResultSpec | tableau_server_mgr/add_definitions.py:46-50 | the merge succeeds exactly when the incoming name is a stored name and the incoming row has every key of that record but `FIELD_ID`; otherwise KeyError |
| AddDefinitions.LoadRowSpec | tableau_server_mgr/add_definitions.py:63-68 | the row's name is replaced by its cleaned form; a known name is merged, an unknown row is passed on as it is |
| AddDefinitions.LoadRaises | tableau_server_mgr/add_definitions.py:62-68 | loading stops with an error exactly when some row fails |
| AddDefinitions.LoadSpec | tableau_server_mgr/add_definitions.py:62-69 | without an error there is one output per row, in file order, and every row is left normalised in `updates` |
| AddDefinitions.LoadStops | tableau_server_mgr/add_definitions.py:62-68 | after an exception the later rows are neither touched nor output |
| AddDefinitions.Rename | tableau_server_mgr/add_definitions.py:83 | `x[v] = x.pop(k)`: the old key is gone and the new key is present |
| AddDefinitions.FirstLacking | tableau_server_mgr/add_definitions.py:82-83 | the first record without the key, where `pop` raises |
| AddDefinitions.RenameAll | tableau_server_mgr/add_definitions.py:82-83 | the inner loop succeeds exactly when every record has the key, renaming it in each; the record count is kept |
| AddDefinitions.HeaderRemapShape | tableau_server_mgr/add_definitions.py:10-16 | the header remap has distinct sources and distinct targets, and no source is a target |
| AddDefinitions.RemapRecordSpec | tableau_server_mgr/add_definitions.py:81-83 | for a well-formed remap: each target holds its source's old value; the sources are gone; every other key is untouched |
| AddDefinitions.RemapRecordTargets | tableau_server_mgr/add_definitions.py:81-83 | for a well-formed remap each target holds the old value of its source |
| AddDefinitions.RemapRecordSourcesGone | tableau_server_mgr/add_definitions.py:81-83 | for a well-formed remap every source key is gone |
| AddDefinitions.RemapRecordOthers | tableau_server_mgr/add_definitions.py:81-83 | keys the remap does not name keep their presence and their value |
| AddDefinitions.RemapAllSpec | tableau_server_mgr/add_definitions.py:81-83 | the remap succeeds exactly when every record has every source key, and then each record is remapped |
| AddDefinitions.RemapHeaderRecord | tableau_server_mgr/add_definitions.py:81-83 | after the remap a record holds the old `FIELD_ID`/`FIELD_NAME`/`FIELD_DESCRIPTION`/`FIELD_DTYPE`/`FIELD_TAG` values under `fid`/`fn`/`fd`/`dt`/`ft`, the old keys are gone and other keys are untouched |
| AddDefinitions.UpdateDataDict.constructor | tableau_server_mgr/add_definitions.py:21-24 | the stored definitions are given; nothing is merged or loaded yet |
| AddDefinitions.UpdateDataDict.CompareDict | tableau_server_mgr/add_definitions.py:40-55 | the loop builds exactly the merge result (or raises KeyError) |
| AddDefinitions.UpdateDataDict.LoadUpdateFile | tableau_server_mgr/add_definitions.py:58-69 | `updates` holds the rows as the loop left them; `updated_dd` is extended by the outputs; the first exception is returned; each new `updated_dd` entry is the same object as its row of `updates` exactly when that row's name is not a stored field |
| AddDefinitions.UpdateDataDict.LoadRows | tableau_server_mgr/add_definitions.py:62-69 | the loop, for any per-row step that agrees with the row rule: `updates`, `updated_dd` and the exception are those of the fold over the rows, and the rows appended by reference are recorded as shared |
| AddDefinitions.UnknownPassedOn | tableau_server_mgr/add_definitions.py:65-68 | a row whose cleaned name is not a stored field is appended as the very row left in `updates` |
| AddDefinitions.UpdateDataDict.StoreRow | tableau_server_mgr/add_definitions.py:63-68 | one pass leaves its row in `updates` and appends its output, keeping the record of shared rows exact |
| AddDefinitions.UpdateDataDict.AppendRow | tableau_server_mgr/add_definitions.py:65-68 | the output is appended, and recorded as shared with its row exactly when the name is unknown |
| AddDefinitions.UpdateDataDict.NormaliseRow | tableau_server_mgr/add_definitions.py:63-68 | one row of the loop: the name is normalised, then the row is merged or passed on |
| AddDefinitions.UpdateDataDict.RemapHeaders | tableau_server_mgr/add_definitions.py:81-83 | `updated_dd` becomes the remapped records (as far as the loop gets before a KeyError); the rows of `updates` shared with those records are renamed with them and every other row of `updates` is untouched |
| AddDefinitions.UpdateDataDict.RenameKey | tableau_server_mgr/add_definitions.py:82-83 | one inner loop over `updated_dd`, renaming in place until a record lacks the key; a shared row of `updates` is renamed with its record |
| AddDefinitions.UpdateDataDict.RenameAt | tableau_server_mgr/add_definitions.py:83 | `x[v] = x.pop(k)` on one record changes that record and the row of `updates` that is the same object, and nothing else |
| AGraph.KeepSpec | agraph.py:34-35 | the kept cells are exactly the candidates that are nodes, in order, with no duplicates introduced |
| AGraph.NeighboursSpec | agraph.py:88-95 | the cells a node is linked to are exactly its 4-neighbours that are nodes, without duplicates |
| AGraph.Graph.constructor | agraph.py:24 | the class-level node dict starts empty |
| AGraph.Graph.AddNode | agraph.py:25-28 | `Graph.__init__` sets the node's adjacency list to empty |
| AGraph.Graph.AddEdge | agraph.py:33-39 | a destination that is not a node leaves the graph unchanged; a missing source raises KeyError; otherwise the destination is appended to the source's list |
| AGraph.Graph.LinkNode | agraph.py:89-95 | one node gains its node neighbours in the order up, left, down, right |
| AGraph.Graph.LinkOffset | agraph.py:90-93 | one pass over `i`: the edge to `(y + i, x)`, then the edge to `(y, x + i)`, each added only when that cell is a node |
| AGraph.Graph.LinkAll | agraph.py:88-95 | every node gains its node neighbours |
| AGraph.Graph.MapMaze | agraph.py:79-95 | a start outside the grid raises IndexError; otherwise every cell with the start cell's value becomes a node (adjacency reset) and every node is linked to its node neighbours |
| AGraph.MapMazeFresh | agraph.py:84-95 | on an empty graph the nodes are exactly the cells with the start value, each linked to exactly its node neighbours |
| AGraph.MapMazeSymmetric | agraph.py:88-95 | adjacency is symmetric: b is linked from a exactly when a is linked from b |
| AGraph.FindPathSound | agraph.py:113-124 | start == end gives `path + [start]` even off the graph; a start that is not a node gives None; any result starts with the prefix and start, ends at end, moves along edges and repeats no cell |
| AGraph.FindFirstSome | agraph.py:119-123 | a result of the neighbour loop is the search result from some neighbour not yet on the path |
| AGraph.FindFirstReaches | agraph.py:119-123 | if some unvisited neighbour leads to the end, the loop returns a path |
| AGraph.FindPathComplete | agraph.py:113-124 | whenever a simple path from start to end avoids the prefix, the search returns a path (and the recursion terminates) |
| ContractCleaner.ReformatNames | gov_contracts_pipeline/gov_contract_data_cleaner.py:46-54 | a null name becomes 'missing' |
| ContractCleaner.ReformatNamesNoPunctuation | gov_contracts_pipeline/gov_contract_data_cleaner.py:49-53 | the result contains no `,` and no `.` |
| ContractCleaner.ReformatNamesUnchanged | gov_contracts_pipeline/gov_contract_data_cleaner.py:49-54 | a name containing none of the four patterns is returned unchanged |
| ContractCleaner.ReformatNamesIncorporated | gov_contracts_pipeline/gov_contract_data_cleaner.py:49-53 | `w + ", INCORPORATED."` becomes `w + " INC"` for any plain prefix `w` |
| ContractCleaner.ReformatNamesLimited | gov_contracts_pipeline/gov_contract_data_cleaner.py:49-53 | `w + "LIMITED LIABILITY COMPANY"` becomes `w + "LLC"` |
| ContractCleaner.ReformatNamesAcme | gov_contracts_pipeline/gov_contract_data_cleaner.py:49-53 | "ACME, INCORPORATED." becomes "ACME INC" |
| ContractCleaner.ReformatNamesLlc | gov_contracts_pipeline/gov_contract_data_cleaner.py:49-53 | "LIMITED LIABILITY COMPANY" becomes "LLC" |
| ContractCleaner.ReformatNamesCaseSensitive | gov_contracts_pipeline/gov_contract_data_cleaner.py:49-53 | matching is case-sensitive: "acme incorporated" is unchanged |
| ContractCleaner.ReformatNamesPlain | gov_contracts_pipeline/gov_contract_data_cleaner.py:49-53 | a name with no `,`, no `.`, no `R` and no `L` cannot hold any of the four patterns and is returned unchanged |
| ContractCleaner.ParseFourDigits | gov_contracts_pipeline/gov_contract_data_cleaner.py:61 | `int()` of four ASCII digits is the number they spell |
| ContractCleaner.FixDateIssues | gov_contracts_pipeline/gov_contract_data_cleaner.py:57-63 | null stays null; a first four characters `int()` cannot read raise ValueError; otherwise the length and everything from index 2 on are kept, and the value is either unchanged or starts with "20" |
| ContractCleaner.FixDateYearRule | gov_contracts_pipeline/gov_contract_data_cleaner.py:61-62 | a year within 2000..2100 keeps the value; any other year has its first two characters replaced by "20" |
| ContractCleaner.FixDateIdempotent | gov_contracts_pipeline/gov_contract_data_cleaner.py:60-63 | on values starting with four digits the repair is idempotent |
| ContractCleaner.FixDateNotIdempotent | gov_contracts_pipeline/gov_contract_data_cleaner.py:60-62 | without the digits it is not: "   5" becomes "20 5", which then raises ValueError |
| TaskPipeline.IndexOf | gov_contracts_pipeline/manage.py:17 | `list.index`: the position of the first occurrence |
| TaskPipeline.InsertAtSpec | gov_contracts_pipeline/manage.py:19 | `list.insert` puts the element at the index and removing it gives back the old list; the contents grow by exactly that element |
| TaskPipeline.TaskIndex | gov_contracts_pipeline/manage.py:15-17 | index 0 without a dependency; right after the dependency's first occurrence with one; none when the dependency is not registered |
| TaskPipeline.RegisteredSpec | gov_contracts_pipeline/manage.py:14-21 | registration fails exactly when the dependency is unregistered; otherwise the task sits first or immediately after the dependency's first occurrence, and the others keep their order |
| TaskPipeline.RunAllAppend | gov_contracts_pipeline/manage.py:22-25 | running a concatenation of task lists runs the first part, then the second |
| TaskPipeline.RunFirst | gov_contracts_pipeline/manage.py:15-25 | a task registered without a dependency runs first, on the input |
| TaskPipeline.RunAfter | gov_contracts_pipeline/manage.py:16-25 | a task registered after `d` receives what the tasks up to `d` produced and hands its result to the rest |
| TaskPipeline.Pipeline.constructor | gov_contracts_pipeline/manage.py:11-12 | no tasks |
| TaskPipeline.Pipeline.Task | gov_contracts_pipeline/manage.py:14-21 | the tasks become the registration result, or ValueError with the list unchanged (the same class is in stock_market_project/feature_store.py:237-252) |
| TaskPipeline.Pipeline.Run | gov_contracts_pipeline/manage.py:22-25 | folds the input through the tasks in list order (an empty pipeline returns it) |
| Manage.Register | gov_contracts_pipeline/manage.py:27-71 | the module registers `[first_task, second_task, last_task]` |
| Manage.RunOrder | gov_contracts_pipeline/manage.py:22-71 | running the registered pipeline calls first_task, then second_task, then last_task |
| Manage.StrLeTotal | gov_contracts_pipeline/manage.py:84 | Python's string order is total |
| Manage.StrLeTrans | gov_contracts_pipeline/manage.py:84 | Python's string order is transitive |
| Manage.StrLeAntisym | gov_contracts_pipeline/manage.py:84 | Python's string order is antisymmetric |
| Manage.StrLeRefl | gov_contracts_pipeline/manage.py:84 | Python's string order is reflexive |
| Manage.InsertSortedSpec | gov_contracts_pipeline/manage.py:84 | inserting into a sorted list keeps it sorted and adds exactly the element |
| Manage.SortStrsSpec | gov_contracts_pipeline/manage.py:84 | `sorted` returns a sorted permutation of its input |
| Manage.SortedUnique | gov_contracts_pipeline/manage.py:84 | a sorted permutation is unique, so the sort is exactly `sorted` |
| Manage.SortColumns | gov_contracts_pipeline/manage.py:83-84 | each table's column list is replaced by its sorted form, keys unchanged |
| Manage.SortColumnsSpec | gov_contracts_pipeline/manage.py:83-84 | each new column list is sorted and a permutation of the old one |
| Manage.PlaceholdersSpec | gov_contracts_pipeline/manage.py:89 | the placeholder string for n columns is n `?` joined by commas |
| Manage.ColumnNamesSpec | gov_contracts_pipeline/manage.py:90 | when the last name does not end in `,` the column string is the names joined by commas |
| Manage.InsertQuery | gov_contracts_pipeline/manage.py:88-91 | an empty row set raises IndexError at `values[0]` |
| Manage.InsertQuerySpec | gov_contracts_pipeline/manage.py:89-91 | the query is `INSERT OR IGNORE INTO table (sorted columns joined by commas) VALUES (one ? per column joined by commas)` |
| FeatureStore.Register | stock_market_project/feature_store.py:254-279 | the module registers `[first_task, second_task]` |
| FeatureStore.RunOrder | stock_market_project/feature_store.py:249-279 | running the registered pipeline calls first_task, then second_task |
| FeatureStore.PrevCloseDate | stock_market_project/feature_store.py:196-198 | stepping back from the first representable date raises OverflowError, and only then |
| FeatureStore.PrevCloseDateSpec | stock_market_project/feature_store.py:196-198 | the result is strictly earlier than today, at most two days back, and never a Sunday |
| FeatureStore.PrevCloseDateRule | stock_market_project/feature_store.py:197 | only Sunday is skipped: the day before, unless that is a Sunday, and then the Saturday before it |
| FeatureStore.PrevCloseDateWeekend | stock_market_project/feature_store.py:196-198 | a Monday or a Sunday yields a Saturday |
| FeatureStore.GetPrevCloseDate | stock_market_project/feature_store.py:196-198 | the `while` loop computes exactly that date (and runs at most once) |

## Left out

- Remote server I/O is left out: sign-in, paging the catalogue, and populating connections and users. The download and publish calls are function parameters.
- TabSrvr.TabServer.RecordWorkbookList: records only the workbook entry (`s_wb`) of `list_catalogue`; other object kinds are not modelled.
- Persisting the snapshot is left out: pickle save and load, and the file write on the first run of `compare_update_at`. The saved snapshot is a parameter (None when the file is missing).
- The `strftime` strings of `UpdateCheck` and of `get_prev_close_date(date_string=True)` are left out. Dates and update times are integers, and dates are proleptic Gregorian ordinals.
- TabSrvr.TabServer: `update_ids` and `no_update_ids` start as empty lists, but in Python they do not exist until `compare_update_at` runs. No modelled operation reads them before that call sets them.
- TabSrvr.TabServer.DownloadWkbks and TabSrvr.TabServer.PublishWkbks run the chunks sequentially. The `tqdm` progress bar is not modelled.
- HybridWkbk: loading the workbook XML, `findall`, `save_as`, `create_sql_file` and `search_query` are left out. Datasources and the nodes `findall` returns are plain records.
- HybridWkbk.WBhybrid.UpdateSqlQuery: the `kwargs` overrides, the broad `except` around the rewrite, and the destination directory path are left out.
- HybridWkbk: `isinstance(wbd_obj, str)` loading is left out. Because `get_sql` always runs, the fallback names ('server name', 'name_error') never reach a constructed object, and the model says so.
- DataDictionary: reading the definitions from the database or the CSV backup is left out. The rows are a constructor argument, so every `data_dict_lookup` re-read returns the same rows. The `build_defs_file` CSV write is left out.
- DataDictionary.DataDict.GetAllFields: `list(set(...))` has no defined order in Python. The model keeps first occurrences in order, so no property depends on that order beyond membership and uniqueness.
- The bridge is modelled as `data_structs` builds it in Python. The SQL `LEFT JOIN` in `connect.py` and all other database code (`connect.py`, `build_db.py`, `retrieve_definitions`, the update in `update_data_definitions`) are not part of this model.
- AddDefinitions: the database query behind `current_dd`, the file-exists check and prompt in `__init__`, and the CSV read are left out. The corrections rows are an argument of `LoadUpdateFile`.
- AddDefinitions.UpdateDataDict.CompareDict: CSV values are strings or None. The comparison `!=` / `is None` picks the incoming value in every case, so it is modelled as that.
- AGraph: the `Vertex` bookkeeping (`v.edges`, `dest`, `last_node`), `run_maze` and `viz` are left out. `start` is a pair of naturals, so Python's negative indexing is not modelled. The `KeyError` caught in `map_maze` cannot occur there, because every source is a node.
- ContractCleaner: `pd.isnull` is an `Option`. Only text values are modelled; `str()` of numbers and dates is left out.
- ContractCleaner.FixDateIssues: `int()` is modelled over ASCII digits, ASCII whitespace and the separators U+001C–U+001F. Unicode digits and other Unicode whitespace are not modelled.
- Manage: what the three tasks do (CSV cleaning, database build and inserts, prompts) is left out. The inserted rows are represented only by their number, and the row width is the column count.
- FeatureStore: the machine-learning pipeline and data download of `feature_store.py` are left out, along with the module-level `pipeline.run` calls.
- Util.CleanFieldNameShape: `str.upper()` and `\W` are modelled on ASCII. Non-ASCII characters count as word characters and are unchanged by `upper()`, so the shape lemmas require ASCII input.
- Command-line menus, prompts, configuration modules, the dashboards and the other machine-learning scripts are not part of this model.
