/** Change detection and chunked transfer of workbooks on a Tableau Server
    (`tabsrvr.py`). The server itself is not modelled: the workbook list it
    returns is an input, and downloading or publishing one workbook is a
    function parameter. */
module TabSrvr {
  import opened Wrappers
  import opened Util
  import opened PyDict

  /** A catalogued workbook: its id and its `updated_at` time. */
  datatype WorkbookItem = WorkbookItem(id: string, updatedAt: int)

  /** An `UpdateCheck` record: a workbook id and the update time seen for it. */
  datatype UpdateCheck = UpdateCheck(id: string, lastUpdate: int)

  /** The workbooks entry of the catalogue: the listed items and the total
      the server reported. */
  datatype CatalogueEntry = CatalogueEntry(items: seq<WorkbookItem>, total: nat)

  /** What `compare_update_at` returns: on the first run (no saved
      snapshot) one list of ids, otherwise the pair of changed and unchanged
      ids. */
  datatype CompareOutcome =
    | FirstRun(ids: seq<string>)
    | Changes(updateIds: seq<string>, noUpdateIds: seq<string>)

  /** `TabServer.n_workers`, which sets the chunk size of transfers. */
  const NWorkers: nat := 8

  /** The class attribute `UpdateCheck.active`: every `UpdateCheck` ever
      created, in creation order. It only grows. */
  class UpdateCheckRegistry {
    var active: seq<UpdateCheck>

    constructor ()
      ensures active == []
    {
      active := [];
    }

    /** `UpdateCheck(s_wb)`: record the workbook's id and update time and
        append the new record to `active`. */
    method Register(wb: WorkbookItem) returns (u: UpdateCheck)
      modifies this
      ensures u == UpdateCheck(wb.id, wb.updatedAt)
      ensures active == old(active) + [u]
    {
      u := UpdateCheck(wb.id, wb.updatedAt);
      active := active + [u];
    }
  }

  // ---------------------------------------------------------------------
  // Specification functions
  // ---------------------------------------------------------------------

  /** The `UpdateCheck` records made for the workbooks, in order. */
  function ChecksOf(items: seq<WorkbookItem>): (r: seq<UpdateCheck>)
    ensures |r| == |items|
    ensures forall i :: 0 <= i < |items| ==> r[i] == UpdateCheck(items[i].id, items[i].updatedAt)
  {
    seq(|items|, i requires 0 <= i < |items| => UpdateCheck(items[i].id, items[i].updatedAt))
  }

  /** id → update time for the workbooks; a later workbook with the same id
      overwrites an earlier one. */
  function UpdateMap(items: seq<WorkbookItem>): map<string, int> {
    LastWinsMap(items, WorkbookId, WorkbookTime)
  }

  function WorkbookId(wb: WorkbookItem): string { wb.id }

  function WorkbookTime(wb: WorkbookItem): int { wb.updatedAt }

  /** The ids of the snapshot entries, in order. */
  function IdsOf(snap: seq<UpdateCheck>): (r: seq<string>)
    ensures |r| == |snap|
    ensures forall i :: 0 <= i < |snap| ==> r[i] == snap[i].id
  {
    seq(|snap|, i requires 0 <= i < |snap| => snap[i].id)
  }

  /** The entry's workbook is in the current map and its time differs. */
  predicate IsChanged(e: UpdateCheck, current: map<string, int>) {
    e.id in current && current[e.id] != e.lastUpdate
  }

  /** The entry's workbook is in the current map with the same time. */
  predicate IsUnchanged(e: UpdateCheck, current: map<string, int>) {
    e.id in current && current[e.id] == e.lastUpdate
  }

  /** Ids of the snapshot entries whose time differs from the current one,
      in snapshot order. */
  function ChangedIds(snap: seq<UpdateCheck>, current: map<string, int>): seq<string>
    decreases |snap|
  {
    if |snap| == 0 then []
    else
      var e := snap[|snap| - 1];
      ChangedIds(snap[..|snap| - 1], current) + (if IsChanged(e, current) then [e.id] else [])
  }

  /** Ids of the snapshot entries whose time equals the current one, in
      snapshot order. */
  function UnchangedIds(snap: seq<UpdateCheck>, current: map<string, int>): seq<string>
    decreases |snap|
  {
    if |snap| == 0 then []
    else
      var e := snap[|snap| - 1];
      UnchangedIds(snap[..|snap| - 1], current) + (if IsUnchanged(e, current) then [e.id] else [])
  }

  /** The index of the first snapshot entry whose id is not in the current
      map: where the lookup raises KeyError. */
  function FirstMissing(snap: seq<UpdateCheck>, current: map<string, int>): (r: Option<nat>)
    ensures r.Some? ==> r.value < |snap| && snap[r.value].id !in current
    ensures r.Some? ==> forall i :: 0 <= i < r.value ==> snap[i].id in current
    ensures r.None? ==> forall i :: 0 <= i < |snap| ==> snap[i].id in current
    decreases |snap|
  {
    if |snap| == 0 then None
    else if snap[0].id !in current then Some(0)
    else match FirstMissing(snap[1..], current)
      case None => None
      case Some(k) => Some(k + 1)
  }

  // ---------------------------------------------------------------------
  // The server object
  // ---------------------------------------------------------------------

  /** The state a `TabServer` keeps between calls. */
  class TabServer {
    /** `list_catalogue['s_wb']`, None until the workbooks are listed. */
    var workbookCatalogue: Option<CatalogueEntry>
    /** `check_new_updates`: id → current update time; the attribute does
        not exist (None) until `build_update_check` first runs. */
    var checkNewUpdates: Option<map<string, int>>
    /** `update_objs`: the class-level `active` list itself, so checks
        created after it was set are seen through it. */
    var updateObjs: Option<UpdateCheckRegistry>
    var updateIds: seq<string>
    var noUpdateIds: seq<string>

    /** The state right after signing in: an empty catalogue and no update
        objects. */
    constructor ()
      ensures workbookCatalogue == None && updateObjs == None
      ensures checkNewUpdates == None && updateIds == [] && noUpdateIds == []
    {
      workbookCatalogue := None;
      checkNewUpdates := None;
      updateObjs := None;
      updateIds := [];
      noUpdateIds := [];
    }

    /** `_get_item_list('s_wb')` once the pager has produced the items:
        store them with the reported total. */
    method RecordWorkbookList(items: seq<WorkbookItem>, total: nat)
      modifies this
      ensures workbookCatalogue == Some(CatalogueEntry(items, total))
      ensures checkNewUpdates == old(checkNewUpdates) && updateObjs == old(updateObjs)
      ensures updateIds == old(updateIds) && noUpdateIds == old(noUpdateIds)
    {
      workbookCatalogue := Some(CatalogueEntry(items, total));
    }

    /** `build_update_check`: reset `check_new_updates`, make an
        `UpdateCheck` per catalogued workbook and record its time, then keep
        the whole registry as `update_objs`. Without a workbook list the
        lookup raises KeyError; with an empty list the loop variable is
        never bound and the last line raises UnboundLocalError. */
    method BuildUpdateCheck(registry: UpdateCheckRegistry) returns (r: Result<(), PyError>)
      modifies this, registry
      ensures checkNewUpdates == Some(if workbookCatalogue.Some? then UpdateMap(workbookCatalogue.value.items) else map[])
      ensures workbookCatalogue == old(workbookCatalogue)
      ensures updateIds == old(updateIds) && noUpdateIds == old(noUpdateIds)
      ensures workbookCatalogue.None? ==> r == Failure(KeyError)
      ensures workbookCatalogue.Some? ==>
        registry.active == old(registry.active) + ChecksOf(workbookCatalogue.value.items)
      ensures workbookCatalogue.None? ==> registry.active == old(registry.active)
      ensures workbookCatalogue.Some? && workbookCatalogue.value.items == [] ==>
        r == Failure(UnboundLocalError) && updateObjs == old(updateObjs)
      ensures workbookCatalogue.Some? && workbookCatalogue.value.items != [] ==>
        r == Success(()) && updateObjs == Some(registry)
      ensures workbookCatalogue.None? ==> updateObjs == old(updateObjs)
    {
      checkNewUpdates := Some(map[]);
      if workbookCatalogue.None? {
        return Failure(KeyError);
      }
      var items := workbookCatalogue.value.items;
      ghost var before := registry.active;
      var i := 0;
      while i < |items|
        invariant 0 <= i <= |items|
        invariant checkNewUpdates == Some(UpdateMap(items[..i]))
        invariant registry.active == before + ChecksOf(items[..i])
        invariant workbookCatalogue == old(workbookCatalogue)
        invariant updateObjs == old(updateObjs)
        invariant updateIds == old(updateIds) && noUpdateIds == old(noUpdateIds)
      {
        var u := registry.Register(items[i]);
        BuildStep(items, i);
        checkNewUpdates := Some(checkNewUpdates.value[u.id := u.lastUpdate]);
        i := i + 1;
      }
      BuildAll(items);
      if |items| == 0 {
        return Failure(UnboundLocalError);
      }
      updateObjs := Some(registry);
      return Success(());
    }

    /** `compare_update_at`, given the saved snapshot (None when the file
        does not exist). On the first run the ids of every check now in the
        registry `update_objs` refers to are returned as one list; iterating
        a missing `update_objs` raises TypeError. Otherwise each snapshot
        entry is classed as changed or unchanged by exact equality of its
        time with the current one; a snapshot id the current map lacks
        raises KeyError, leaving the entries classed so far in the two
        lists, and so does reading `check_new_updates` before
        `build_update_check` made it (AttributeError). */
    method CompareUpdateAt(snapshot: Option<seq<UpdateCheck>>) returns (r: Result<CompareOutcome, PyError>)
      modifies this
      ensures workbookCatalogue == old(workbookCatalogue)
      ensures checkNewUpdates == old(checkNewUpdates) && updateObjs == old(updateObjs)
      ensures snapshot.None? && updateObjs.None? ==>
        r == Failure(TypeError) && updateIds == [] && noUpdateIds == []
      ensures snapshot.None? && updateObjs.Some? ==>
        r == Success(FirstRun(IdsOf(updateObjs.value.active)))
        && updateIds == IdsOf(updateObjs.value.active) && noUpdateIds == []
      ensures snapshot.Some? && checkNewUpdates.None? ==>
        && updateIds == [] && noUpdateIds == []
        && r == (if snapshot.value == [] then Success(Changes([], [])) else Failure(AttributeError))
      ensures snapshot.Some? && checkNewUpdates.Some? ==> match FirstMissing(snapshot.value, checkNewUpdates.value)
        case None =>
          && updateIds == ChangedIds(snapshot.value, checkNewUpdates.value)
          && noUpdateIds == UnchangedIds(snapshot.value, checkNewUpdates.value)
          && r == Success(Changes(updateIds, noUpdateIds))
        case Some(k) =>
          && updateIds == ChangedIds(snapshot.value[..k], checkNewUpdates.value)
          && noUpdateIds == UnchangedIds(snapshot.value[..k], checkNewUpdates.value)
          && r == Failure(KeyError)
    {
      noUpdateIds := [];
      updateIds := [];
      if snapshot.None? {
        if updateObjs.None? {
          return Failure(TypeError);
        }
        var objs := updateObjs.value.active;
        var i := 0;
        while i < |objs|
          invariant 0 <= i <= |objs|
          invariant updateIds == IdsOf(objs[..i]) && noUpdateIds == []
          invariant workbookCatalogue == old(workbookCatalogue)
          invariant checkNewUpdates == old(checkNewUpdates) && updateObjs == old(updateObjs)
        {
          updateIds := updateIds + [objs[i].id];
          i := i + 1;
        }
        assert objs[..i] == objs;
        return Success(FirstRun(updateIds));
      }
      var snap := snapshot.value;
      if checkNewUpdates.None? {
        if |snap| > 0 {
          return Failure(AttributeError);
        }
        return Success(Changes([], []));
      }
      var current := checkNewUpdates.value;
      var i := 0;
      while i < |snap|
        invariant 0 <= i <= |snap|
        invariant forall j :: 0 <= j < i ==> snap[j].id in current
        invariant updateIds == ChangedIds(snap[..i], current)
        invariant noUpdateIds == UnchangedIds(snap[..i], current)
        invariant workbookCatalogue == old(workbookCatalogue)
        invariant checkNewUpdates == old(checkNewUpdates) && updateObjs == old(updateObjs)
      {
        var obj := snap[i];
        assert snap[..i + 1][..i] == snap[..i];
        if obj.id !in current {
          FirstMissingAt(snap, current, i);
          return Failure(KeyError);
        }
        if obj.lastUpdate == current[obj.id] {
          noUpdateIds := noUpdateIds + [obj.id];
        } else {
          updateIds := updateIds + [obj.id];
        }
        i := i + 1;
      }
      assert snap[..i] == snap;
      FirstMissingNone(snap, current);
      return Success(Changes(updateIds, noUpdateIds));
    }

    /** `download_wkbks`: split the ids into chunks of `total // 8`, where
        `total` is the catalogue's reported workbook count, and download
        them chunk by chunk. Without a workbook list the lookup raises
        KeyError; a total below 8 gives chunk size 0, which raises
        ValueError. */
    method DownloadWkbks<R>(wkbkIds: seq<string>, destDir: string, download: (string, string) -> R)
      returns (r: Result<seq<R>, PyError>)
      ensures workbookCatalogue.None? ==> r == Failure(KeyError)
      ensures workbookCatalogue.Some? && workbookCatalogue.value.total < NWorkers ==> r == Failure(ValueError)
      ensures workbookCatalogue.Some? && workbookCatalogue.value.total >= NWorkers ==>
        r.Success? && |r.value| == |wkbkIds|
        && forall i :: 0 <= i < |wkbkIds| ==> r.value[i] == download(wkbkIds[i], destDir)
    {
      if workbookCatalogue.None? {
        return Failure(KeyError);
      }
      var chunks := GetChunks(wkbkIds, workbookCatalogue.value.total / NWorkers);
      if chunks.Failure? {
        return Failure(chunks.error);
      }
      var f := (id: string) => download(id, destDir);
      var dlList := TransferChunks(chunks.value, f);
      return Success(dlList);
    }

    /** `publish_wkbks`: split the items into chunks of `len(wb_items) // 8`
        and publish them chunk by chunk, each under its file name and the
        given mode. Fewer than 8 items give chunk size 0, which raises
        ValueError. */
    method PublishWkbks<W, R>(wbItems: seq<W>, mode: string, fileName: W -> string,
                              publish: (W, string, string) -> R)
      returns (r: Result<seq<R>, PyError>)
      ensures |wbItems| < NWorkers ==> r == Failure(ValueError)
      ensures |wbItems| >= NWorkers ==>
        r.Success? && |r.value| == |wbItems|
        && forall i :: 0 <= i < |wbItems| ==> r.value[i] == publish(wbItems[i], fileName(wbItems[i]), mode)
    {
      var chunks := GetChunks(wbItems, |wbItems| / NWorkers);
      if chunks.Failure? {
        return Failure(chunks.error);
      }
      var f := (wb: W) => publish(wb, fileName(wb), mode);
      var pubList := TransferChunks(chunks.value, f);
      return Success(pubList);
    }
  }

  lemma BuildStep(items: seq<WorkbookItem>, i: nat)
    requires i < |items|
    ensures UpdateMap(items[..i + 1]) == UpdateMap(items[..i])[items[i].id := items[i].updatedAt]
    ensures ChecksOf(items[..i + 1]) == ChecksOf(items[..i]) + [UpdateCheck(items[i].id, items[i].updatedAt)]
  {
    assert items[..i + 1] == items[..i] + [items[i]];
    LastWinsMapAppend(items[..i], items[i], WorkbookId, WorkbookTime);
  }

  lemma BuildAll(items: seq<WorkbookItem>)
    ensures UpdateMap(items[..|items|]) == UpdateMap(items)
    ensures ChecksOf(items[..|items|]) == ChecksOf(items)
  {
    assert items[..|items|] == items;
  }

  lemma FirstMissingAt(snap: seq<UpdateCheck>, current: map<string, int>, i: nat)
    requires i < |snap| && snap[i].id !in current
    requires forall j :: 0 <= j < i ==> snap[j].id in current
    ensures FirstMissing(snap, current) == Some(i)
  {
  }

  lemma FirstMissingNone(snap: seq<UpdateCheck>, current: map<string, int>)
    requires forall j :: 0 <= j < |snap| ==> snap[j].id in current
    ensures FirstMissing(snap, current) == None
  {
  }

  /** `_download_wkbks` / `_publish_wkbks`: transfer each item of one chunk,
      in order. */
  method TransferChunk<T, R>(chunk: seq<T>, transfer: T -> R) returns (retlist: seq<R>)
    ensures |retlist| == |chunk|
    ensures forall i :: 0 <= i < |chunk| ==> retlist[i] == transfer(chunk[i])
  {
    retlist := [];
    for i := 0 to |chunk|
      invariant |retlist| == i
      invariant forall j :: 0 <= j < i ==> retlist[j] == transfer(chunk[j])
    {
      retlist := retlist + [transfer(chunk[i])];
    }
  }

  /** The loop of `download_wkbks` / `publish_wkbks`: concatenate the
      per-chunk results, chunk by chunk. */
  method TransferChunks<T, R>(chunks: seq<seq<T>>, transfer: T -> R) returns (results: seq<R>)
    ensures |results| == |Flatten(chunks)|
    ensures forall i :: 0 <= i < |results| ==> results[i] == transfer(Flatten(chunks)[i])
  {
    results := [];
    for c := 0 to |chunks|
      invariant |results| == |Flatten(chunks[..c])|
      invariant forall i :: 0 <= i < |results| ==> results[i] == transfer(Flatten(chunks[..c])[i])
    {
      var part := TransferChunk(chunks[c], transfer);
      FlattenAppend(chunks[..c], chunks[c]);
      assert chunks[..c + 1] == chunks[..c] + [chunks[c]];
      results := results + part;
    }
    assert chunks[..|chunks|] == chunks;
  }

  // ---------------------------------------------------------------------
  // Properties
  // ---------------------------------------------------------------------

  /** The update map has a key for every catalogued workbook and no other,
      and each key maps to the time of the last workbook with that id. */
  lemma UpdateMapSpec(items: seq<WorkbookItem>)
    ensures forall i :: 0 <= i < |items| ==> items[i].id in UpdateMap(items)
    ensures forall k :: k in UpdateMap(items) ==>
      exists i :: IsLastWithKey(items, WorkbookId, k, i) && UpdateMap(items)[k] == items[i].updatedAt
  {
    LastWinsMapSpec(items, WorkbookId, WorkbookTime);
    assert forall i :: 0 <= i < |items| ==> WorkbookId(items[i]) == items[i].id;
  }

  /** Every snapshot entry whose id is current lands in exactly one of the
      two lists: their lengths add up to the number of such entries. */
  lemma {:induction false} ClassifyCounts(snap: seq<UpdateCheck>, current: map<string, int>)
    requires forall i :: 0 <= i < |snap| ==> snap[i].id in current
    ensures |ChangedIds(snap, current)| + |UnchangedIds(snap, current)| == |snap|
    ensures multiset(ChangedIds(snap, current)) + multiset(UnchangedIds(snap, current)) == multiset(IdsOf(snap))
    decreases |snap|
  {
    if |snap| > 0 {
      var init := snap[..|snap| - 1];
      var x := snap[|snap| - 1].id;
      assert forall i :: 0 <= i < |init| ==> init[i] == snap[i];
      ClassifyCounts(init, current);
      ClassifyLast(snap, current);
      assert IdsOf(snap) == IdsOf(init) + [x];
      SplitOne(ChangedIds(init, current), UnchangedIds(init, current), IdsOf(init),
               ChangedIds(snap, current), UnchangedIds(snap, current), x);
    }
  }

  /** The last entry, whose id is current, extends exactly one of the two
      lists. */
  lemma ClassifyLast(snap: seq<UpdateCheck>, current: map<string, int>)
    requires |snap| > 0 && snap[|snap| - 1].id in current
    ensures var init, x := snap[..|snap| - 1], snap[|snap| - 1].id;
      var c, u := ChangedIds(init, current), UnchangedIds(init, current);
      || (ChangedIds(snap, current) == c + [x] && UnchangedIds(snap, current) == u)
      || (ChangedIds(snap, current) == c && UnchangedIds(snap, current) == u + [x])
  {
    var init := snap[..|snap| - 1];
    assert ChangedIds(init, current) + [] == ChangedIds(init, current);
    assert UnchangedIds(init, current) + [] == UnchangedIds(init, current);
  }

  /** Adding one element to one side of a split of `ids` splits `ids + [x]`. */
  lemma SplitOne(c: seq<string>, u: seq<string>, ids: seq<string>, c': seq<string>, u': seq<string>, x: string)
    requires |c| + |u| == |ids| && multiset(c) + multiset(u) == multiset(ids)
    requires (c' == c + [x] && u' == u) || (c' == c && u' == u + [x])
    ensures |c'| + |u'| == |ids + [x]| && multiset(c') + multiset(u') == multiset(ids + [x])
  {
  }

  /** An id is reported as changed exactly when some snapshot entry with
      that id has a time different from the current one. */
  lemma {:induction false} ChangedIdsMembership(snap: seq<UpdateCheck>, current: map<string, int>, id: string)
    ensures id in ChangedIds(snap, current) <==>
      exists i :: 0 <= i < |snap| && snap[i].id == id && IsChanged(snap[i], current)
    decreases |snap|
  {
    if |snap| > 0 {
      var init := snap[..|snap| - 1];
      ChangedIdsMembership(init, current, id);
      if exists i :: 0 <= i < |init| && init[i].id == id && IsChanged(init[i], current) {
        var i :| 0 <= i < |init| && init[i].id == id && IsChanged(init[i], current);
        assert snap[i] == init[i];
      }
      if exists i :: 0 <= i < |snap| && snap[i].id == id && IsChanged(snap[i], current) {
        var i :| 0 <= i < |snap| && snap[i].id == id && IsChanged(snap[i], current);
        if i < |init| {
          assert init[i] == snap[i];
        }
      }
    }
  }

  /** An id is reported as unchanged exactly when some snapshot entry with
      that id has the current time. */
  lemma {:induction false} UnchangedIdsMembership(snap: seq<UpdateCheck>, current: map<string, int>, id: string)
    ensures id in UnchangedIds(snap, current) <==>
      exists i :: 0 <= i < |snap| && snap[i].id == id && IsUnchanged(snap[i], current)
    decreases |snap|
  {
    if |snap| > 0 {
      var init := snap[..|snap| - 1];
      UnchangedIdsMembership(init, current, id);
      if exists i :: 0 <= i < |init| && init[i].id == id && IsUnchanged(init[i], current) {
        var i :| 0 <= i < |init| && init[i].id == id && IsUnchanged(init[i], current);
        assert snap[i] == init[i];
      }
      if exists i :: 0 <= i < |snap| && snap[i].id == id && IsUnchanged(snap[i], current) {
        var i :| 0 <= i < |snap| && snap[i].id == id && IsUnchanged(snap[i], current);
        if i < |init| {
          assert init[i] == snap[i];
        }
      }
    }
  }

  /** With one snapshot entry per id, no id is both changed and unchanged. */
  lemma ClassifyDisjoint(snap: seq<UpdateCheck>, current: map<string, int>, id: string)
    requires forall i, j :: 0 <= i < j < |snap| ==> snap[i].id != snap[j].id
    ensures !(id in ChangedIds(snap, current) && id in UnchangedIds(snap, current))
  {
    ChangedIdsMembership(snap, current, id);
    UnchangedIdsMembership(snap, current, id);
  }

  /** A workbook that is catalogued now but absent from the snapshot is
      reported in neither list. */
  lemma NewIdsNotReported(snap: seq<UpdateCheck>, current: map<string, int>, id: string)
    requires id !in IdsOf(snap)
    ensures id !in ChangedIds(snap, current) && id !in UnchangedIds(snap, current)
  {
    ChangedIdsMembership(snap, current, id);
    UnchangedIdsMembership(snap, current, id);
  }

  /** The test is equality, not "newer than": a time that moved backwards
      also marks the workbook as changed. */
  lemma BackwardsIsChanged(snap: seq<UpdateCheck>, current: map<string, int>, i: nat)
    requires i < |snap| && snap[i].id in current && current[snap[i].id] < snap[i].lastUpdate
    ensures snap[i].id in ChangedIds(snap, current)
  {
    ChangedIdsMembership(snap, current, snap[i].id);
  }
}
