/**
  Applying one batch of the remote change feed to the mirror
  (`syncChangesForItem`): the fail-closed guard on the anchor, reconciliation
  of provisional rows by name, erasures, and the parent's new anchor and size.
  The functions here specify the store's method step by step; the lemmas state
  what a batch guarantees.
 */
module StoreSync {
  import opened Wrappers
  import opened SwiftText
  import StoreDomains
  import opened StoreAPI
  import opened StoreItems
  import opened StoreQuery

  /**
    The remote change feed, `storeEnumerateChangesToContainer(withIdentifier:from:num:)`:
    for an identifier, an anchor and a batch size, a batch of changes or the
    error it throws.
   */
  type RemoteClient = (string, int, int) -> Result<DirectoryChanges, StoreAPIError>

  /** The four values the handler of `syncChangesForItem` receives. */
  datatype SyncResult = SyncResult(
    newItems: seq<StoreItem>,
    deletedIdentifiers: seq<string>,
    anchor: int,
    hasMore: bool)

  /** A row that holds a remote record: identity, name, size, type and dates from the record, anchor 0, uploaded. */
  predicate CarriesRemoteRecord(item: StoreItem, pid: string, info: FileItemInfo, convert: UtiConverter) {
    item.id == info.Identifier() && item.pid == pid && item.name == info.name &&
    item.size == info.size && item.uti == info.Uti(convert) &&
    item.mdate == info.mdate && item.cdate == info.cdate &&
    item.anchor == 0 && item.IsUploaded()
  }

  /** The assignments of the loop body, applied to the row that receives the record. */
  function Absorb(item: StoreItem, pid: string, info: FileItemInfo, convert: UtiConverter): (r: StoreItem)
    ensures CarriesRemoteRecord(r, pid, info, convert)
    ensures r.parent == item.parent && r.domain == item.domain
    ensures r.downloadingState == item.downloadingState
    ensures r.uploadError == item.uploadError && r.downloadError == item.downloadError
  {
    item.(id := info.Identifier(), pid := pid, name := info.name, size := info.size,
          uti := info.Uti(convert), mdate := info.mdate, cdate := info.cdate, anchor := 0)
        .WithUploadState(ItemUploadState.Uploaded)
  }

  /** `row` is a live child of the object in slot `parentRef`. */
  predicate IsChildRow(row: Option<StoreItem>, parentRef: nat) {
    row.Some? && row.value.parent == Some(parentRef)
  }

  /**
    One pass of the loop over `changes.new`. If the parent already has a child
    with the record's name (a provisional row from staging, or any earlier
    row), the first such child takes the record and its old identifier is
    reported as deleted; otherwise a new child row is inserted.
   */
  function ApplyNewItem(rows: Table, parent: StoreItem, parentRef: nat, pid: string, info: FileItemInfo, convert: UtiConverter): (r: (Table, seq<string>))
    ensures |r.0| >= |rows|
  {
    match FindChildNamed(rows, parentRef, info.name)
    case Some(k) => (rows[k := Some(Absorb(rows[k].value, pid, info, convert))], [rows[k].value.id])
    case None => (rows + [Some(Absorb(ChildOf(parent, parentRef), pid, info, convert))], [])
  }

  /**
    What one pass does: the first child with the record's name, if any, is the
    only slot that changes and its old identifier is the one reported; without
    one, exactly one child is appended. Either way the child the name finds
    afterwards carries the record, no slot changes object, parent or name,
    the store stays well formed, and no parent gains two children with one
    name.
   */
  lemma ApplyNewItemEffect(rows: Table, parent: StoreItem, parentRef: nat, pid: string, info: FileItemInfo, convert: UtiConverter)
    ensures var r := ApplyNewItem(rows, parent, parentRef, pid, info, convert);
      var found := FindChildNamed(rows, parentRef, info.name);
      && (found.Some? ==> |r.0| == |rows| && r.1 == [rows[found.value].value.id])
      && (found.None? ==> |r.0| == |rows| + 1 && r.1 == [])
      && (forall j :: 0 <= j < |rows| && (found.None? || j != found.value) ==> r.0[j] == rows[j])
      && (found.Some? ==> IsChildRow(rows[found.value], parentRef))
      && (forall j :: 0 <= j < |rows| ==> SameShape(rows, r.0, j))
    ensures var r := ApplyNewItem(rows, parent, parentRef, pid, info, convert);
      var k := FindChildNamed(r.0, parentRef, info.name);
      && k.Some?
      && (k.value == if FindChildNamed(rows, parentRef, info.name).Some? then FindChildNamed(rows, parentRef, info.name).value else |rows|)
      && CarriesRemoteRecord(r.0[k.value].value, pid, info, convert)
    ensures var r := ApplyNewItem(rows, parent, parentRef, pid, info, convert);
      forall j :: |rows| <= j < |r.0| ==>
        r.0[j].Some? && r.0[j].value.parent == Some(parentRef) && r.0[j].value.domain == parent.domain
  {
    var r := ApplyNewItem(rows, parent, parentRef, pid, info, convert);
    match FindChildNamed(rows, parentRef, info.name)
    case Some(k) =>
      FindChildNamedIsFirst(r.0, parentRef, info.name, k);
    case None =>
      FindChildNamedIsFirst(r.0, parentRef, info.name, |rows|);
  }

  /**
    One pass keeps the store well formed (when the parent is an existing row)
    and gives no parent two children with one name: a new row is inserted
    only when the parent has no child with the record's name.
   */
  lemma ApplyNewItemKeepsInvariants(rows: Table, parent: StoreItem, parentRef: nat, pid: string, info: FileItemInfo, convert: UtiConverter, q: nat)
    ensures WellFormed(rows) && parentRef < |rows| ==> WellFormed(ApplyNewItem(rows, parent, parentRef, pid, info, convert).0)
    ensures UniqueChildNames(rows, q) ==> UniqueChildNames(ApplyNewItem(rows, parent, parentRef, pid, info, convert).0, q)
  {
    var r := ApplyNewItem(rows, parent, parentRef, pid, info, convert).0;
    match FindChildNamed(rows, parentRef, info.name)
    case Some(k) =>
      if UniqueChildNames(rows, q) {
        assert forall j :: 0 <= j < |rows| ==> SameShape(rows, r, j);
        SameShapeKeepsNamesUnique(rows, r, q);
      }
    case None =>
      if UniqueChildNames(rows, q) {
        forall a, b | 0 <= a < b < |r| && r[a].Some? && r[b].Some? &&
                      r[a].value.parent == Some(q) && r[b].value.parent == Some(q)
          ensures r[a].value.name != r[b].value.name
        {
          if b == |rows| {
            assert !IsChildNamed(rows[a], parentRef, info.name);
          }
        }
      }
  }

  /** The loop over `changes.new` after its first `|news|` passes: the rows and the superseded identifiers. */
  function ApplyNew(rows: Table, parent: StoreItem, parentRef: nat, pid: string, news: seq<FileItemInfo>, convert: UtiConverter): (r: (Table, seq<string>))
    ensures |r.0| >= |rows|
  {
    if |news| == 0 then (rows, [])
    else
      var prev := ApplyNew(rows, parent, parentRef, pid, news[..|news| - 1], convert);
      var step := ApplyNewItem(prev.0, parent, parentRef, pid, news[|news| - 1], convert);
      (step.0, prev.1 + step.1)
  }

  /** The loop's next pass extends its prefix by one record. */
  lemma ApplyNewStep(rows: Table, parent: StoreItem, parentRef: nat, pid: string, news: seq<FileItemInfo>, i: nat, convert: UtiConverter)
    requires i < |news|
    ensures var prev := ApplyNew(rows, parent, parentRef, pid, news[..i], convert);
      var step := ApplyNewItem(prev.0, parent, parentRef, pid, news[i], convert);
      ApplyNew(rows, parent, parentRef, pid, news[..i + 1], convert) == (step.0, prev.1 + step.1)
  {
    assert news[..i + 1][..i] == news[..i];
  }

  /**
    What the whole loop does: at most one row per record is added, at most
    one identifier per record is reported, no slot changes object, parent or
    name, rows that are not children of the parent are untouched, added rows
    are children of the parent in its domain, every record's name has a child
    afterwards, and the store stays well formed with unique names per parent.
   */
  lemma {:induction false} ApplyNewEffect(rows: Table, parent: StoreItem, parentRef: nat, pid: string, news: seq<FileItemInfo>, convert: UtiConverter)
    ensures var r := ApplyNew(rows, parent, parentRef, pid, news, convert);
      && |rows| <= |r.0| <= |rows| + |news|
      && |r.1| <= |news|
      && (forall j :: 0 <= j < |rows| ==> SameShape(rows, r.0, j))
      && (forall j :: 0 <= j < |rows| && !IsChildRow(rows[j], parentRef) ==> r.0[j] == rows[j])
      && (forall j :: |rows| <= j < |r.0| ==>
            r.0[j].Some? && r.0[j].value.parent == Some(parentRef) && r.0[j].value.domain == parent.domain)
      && (forall i :: 0 <= i < |news| ==> FindChildNamed(r.0, parentRef, news[i].name).Some?)
  {
    if |news| > 0 {
      var init := news[..|news| - 1];
      ApplyNewEffect(rows, parent, parentRef, pid, init, convert);
      var prev := ApplyNew(rows, parent, parentRef, pid, init, convert);
      ApplyNewItemEffect(prev.0, parent, parentRef, pid, news[|news| - 1], convert);
      var step := ApplyNewItem(prev.0, parent, parentRef, pid, news[|news| - 1], convert);
      ChildNamedSurvives(prev.0, step.0, parentRef);
      forall i | 0 <= i < |news| - 1
        ensures FindChildNamed(prev.0, parentRef, news[i].name).Some?
      {
        assert init[i] == news[i];
      }
      forall j | 0 <= j < |rows| && !IsChildRow(rows[j], parentRef) ensures step.0[j] == rows[j] {
        assert !IsChildRow(prev.0[j], parentRef);
      }
      forall j | 0 <= j < |rows| ensures SameShape(rows, step.0, j) {
        assert SameShape(rows, prev.0, j) && SameShape(prev.0, step.0, j);
      }
    }
  }

  /** The whole loop keeps the store well formed and gives no parent two children with one name. */
  lemma {:induction false} ApplyNewKeepsInvariants(rows: Table, parent: StoreItem, parentRef: nat, pid: string, news: seq<FileItemInfo>, convert: UtiConverter, q: nat)
    ensures WellFormed(rows) && parentRef < |rows| ==> WellFormed(ApplyNew(rows, parent, parentRef, pid, news, convert).0)
    ensures UniqueChildNames(rows, q) ==> UniqueChildNames(ApplyNew(rows, parent, parentRef, pid, news, convert).0, q)
  {
    if |news| > 0 {
      var init := news[..|news| - 1];
      ApplyNewKeepsInvariants(rows, parent, parentRef, pid, init, convert, q);
      var prev := ApplyNew(rows, parent, parentRef, pid, init, convert);
      ApplyNewItemKeepsInvariants(prev.0, parent, parentRef, pid, news[|news| - 1], convert, q);
    }
  }

  /** A name that has a child under `parentRef` keeps one when every slot keeps its shape. */
  lemma ChildNamedSurvives(before: Table, after: Table, parentRef: nat)
    requires |before| <= |after|
    requires forall j :: 0 <= j < |before| ==> SameShape(before, after, j)
    ensures forall name :: FindChildNamed(before, parentRef, name).Some? ==> FindChildNamed(after, parentRef, name).Some?
  {
    forall name | FindChildNamed(before, parentRef, name).Some?
      ensures FindChildNamed(after, parentRef, name).Some?
    {
      var k := FindChildNamed(before, parentRef, name).value;
      assert SameShape(before, after, k);
      assert IsChildNamed(after[k], parentRef, name);
    }
  }

  /** One pass of the loop over `changes.erase`: the first row with that identifier goes; a missing one is skipped. */
  function ApplyEraseId(rows: Table, domain: int, rawId: int): (r: Table)
    ensures |r| == |rows|
    ensures FindId(rows, IntToDecimal(rawId), domain).None? ==> r == rows
    ensures FindId(rows, IntToDecimal(rawId), domain).Some? ==>
      r == rows[FindId(rows, IntToDecimal(rawId), domain).value := None]
  {
    match FindId(rows, IntToDecimal(rawId), domain)
    case None => rows
    case Some(k) => rows[k := None]
  }

  /** The loop over `changes.erase` after its first `|ids|` passes. */
  function ApplyErase(rows: Table, domain: int, ids: seq<int>): (r: Table)
    ensures |r| == |rows|
    ensures forall j :: 0 <= j < |rows| ==> r[j] == rows[j] || r[j].None?
  {
    if |ids| == 0 then rows
    else ApplyEraseId(ApplyErase(rows, domain, ids[..|ids| - 1]), domain, ids[|ids| - 1])
  }

  /** Erasing deletes only rows that carry one of the erased identifiers. */
  lemma {:induction false} ApplyEraseDeletesOnlyErased(rows: Table, domain: int, ids: seq<int>)
    ensures var r := ApplyErase(rows, domain, ids);
      forall j :: 0 <= j < |rows| && r[j] != rows[j] ==>
        r[j].None? && exists i :: 0 <= i < |ids| && HasId(rows[j], IntToDecimal(ids[i]), domain)
  {
    if |ids| > 0 {
      var init := ids[..|ids| - 1];
      ApplyEraseDeletesOnlyErased(rows, domain, init);
      var prev := ApplyErase(rows, domain, init);
      var r := ApplyErase(rows, domain, ids);
      forall j | 0 <= j < |rows| && r[j] != rows[j]
        ensures exists i :: 0 <= i < |ids| && HasId(rows[j], IntToDecimal(ids[i]), domain)
      {
        if prev[j] == rows[j] {
          assert HasId(rows[j], IntToDecimal(ids[|ids| - 1]), domain);
        } else {
          var i :| 0 <= i < |init| && HasId(rows[j], IntToDecimal(init[i]), domain);
          assert init[i] == ids[i];
        }
      }
    }
  }

  /** Emptying slots keeps the store well formed and keeps every parent's child names unique. */
  lemma EmptyingKeepsInvariants(before: Table, after: Table, q: nat)
    requires |after| == |before| && forall j :: 0 <= j < |before| ==> after[j] == before[j] || after[j].None?
    ensures WellFormed(before) ==> WellFormed(after)
    ensures UniqueChildNames(before, q) ==> UniqueChildNames(after, q)
  {
    if UniqueChildNames(before, q) {
      forall a, b | 0 <= a < b < |after| && after[a].Some? && after[b].Some? &&
                    after[a].value.parent == Some(q) && after[b].value.parent == Some(q)
        ensures after[a].value.name != after[b].value.name
      {
        assert after[a] == before[a] && after[b] == before[b];
      }
    }
  }

  /** When each erased identifier names at most one row, no row with an erased identifier is left. */
  lemma {:induction false} ErasedIdentifiersAreGone(rows: Table, domain: int, ids: seq<int>)
    requires forall i :: 0 <= i < |ids| ==> AtMostOneWithId(rows, IntToDecimal(ids[i]), domain)
    ensures forall i, j :: 0 <= i < |ids| && 0 <= j < |rows| ==> !HasId(ApplyErase(rows, domain, ids)[j], IntToDecimal(ids[i]), domain)
  {
    if |ids| > 0 {
      var init := ids[..|ids| - 1];
      forall i | 0 <= i < |init| ensures AtMostOneWithId(rows, IntToDecimal(init[i]), domain) {
        assert init[i] == ids[i];
      }
      ErasedIdentifiersAreGone(rows, domain, init);
      var prev := ApplyErase(rows, domain, init);
      var r := ApplyErase(rows, domain, ids);
      var last := IntToDecimal(ids[|ids| - 1]);
      assert r == ApplyEraseId(prev, domain, ids[|ids| - 1]);
      forall i, j | 0 <= i < |ids| && 0 <= j < |rows|
        ensures !HasId(r[j], IntToDecimal(ids[i]), domain)
      {
        if i < |ids| - 1 {
          assert init[i] == ids[i];
          assert !HasId(prev[j], IntToDecimal(init[i]), domain);
        }
      }
    }
  }

  /** The parent's final assignments, `parent.anchor = changes.anchor; parent.size = changes.size`. */
  function SetParentAnchor(rows: Table, parentRef: nat, anchor: int, size: int): (r: Table)
    ensures |r| == |rows|
    ensures forall j :: 0 <= j < |rows| && j != parentRef ==> r[j] == rows[j]
    ensures Live(rows, parentRef) ==> r[parentRef] == Some(rows[parentRef].value.(anchor := anchor, size := size))
    ensures !Live(rows, parentRef) ==> r == rows
  {
    if Live(rows, parentRef) then rows[parentRef := Some(rows[parentRef].value.(anchor := anchor, size := size))]
    else rows
  }

  /** The one transaction of a batch: nothing when the parent row is missing. */
  function ApplyBatch(rows: Table, identifier: string, domainIdentifier: string, changes: DirectoryChanges, convert: UtiConverter): (r: (Table, seq<string>))
    ensures ItemWithIdentifier(rows, identifier, domainIdentifier).None? ==> r == (rows, [])
  {
    match ItemWithIdentifier(rows, identifier, domainIdentifier)
    case None => (rows, [])
    case Some(p) =>
      var domain := StoreDomains.Lookup(domainIdentifier).value.id;
      var applied := ApplyNew(rows, rows[p].value, p, identifier, changes.newItems, convert);
      var erased := ApplyErase(applied.0, domain, changes.erase);
      (SetParentAnchor(erased, p, changes.anchor, changes.size), applied.1)
  }

  /** A batch's transaction keeps the store well formed. */
  lemma ApplyBatchKeepsWellFormed(rows: Table, identifier: string, domainIdentifier: string, changes: DirectoryChanges, convert: UtiConverter)
    ensures WellFormed(rows) ==> WellFormed(ApplyBatch(rows, identifier, domainIdentifier, changes, convert).0)
  {
    match ItemWithIdentifier(rows, identifier, domainIdentifier)
    case None =>
    case Some(p) =>
      ApplyNewKeepsInvariants(rows, rows[p].value, p, identifier, changes.newItems, convert, 0);
      var applied := ApplyNew(rows, rows[p].value, p, identifier, changes.newItems, convert);
      EmptyingKeepsInvariants(applied.0, ApplyErase(applied.0, StoreDomains.Lookup(domainIdentifier).value.id, changes.erase), 0);
  }

  /** A batch's transaction gives no parent two children with one name. */
  lemma ApplyBatchKeepsNamesUnique(rows: Table, identifier: string, domainIdentifier: string, changes: DirectoryChanges, convert: UtiConverter, q: nat)
    requires UniqueChildNames(rows, q)
    ensures UniqueChildNames(ApplyBatch(rows, identifier, domainIdentifier, changes, convert).0, q)
  {
    match ItemWithIdentifier(rows, identifier, domainIdentifier)
    case None =>
    case Some(p) =>
      var domain := StoreDomains.Lookup(domainIdentifier).value.id;
      ApplyNewKeepsInvariants(rows, rows[p].value, p, identifier, changes.newItems, convert, q);
      var applied := ApplyNew(rows, rows[p].value, p, identifier, changes.newItems, convert);
      var erased := ApplyErase(applied.0, domain, changes.erase);
      var r0 := SetParentAnchor(erased, p, changes.anchor, changes.size);
      EmptyingKeepsInvariants(applied.0, erased, q);
      assert forall j :: 0 <= j < |erased| ==> SameShape(erased, r0, j);
      SameShapeKeepsNamesUnique(erased, r0, q);
  }

  /** The new items as re-read after the commit: those whose identifier resolves, in feed order. */
  function ResolveNew(rows: Table, domainIdentifier: string, news: seq<FileItemInfo>): (r: seq<StoreItem>)
    ensures |r| <= |news|
    ensures StoreDomains.Lookup(domainIdentifier).None? ==> r == []
    ensures forall x :: x in r ==> exists i :: 0 <= i < |news| && LookupItem(rows, news[i].Identifier(), domainIdentifier) == Some(x)
    ensures (forall i :: 0 <= i < |news| ==> LookupItem(rows, news[i].Identifier(), domainIdentifier).Some?) ==> |r| == |news|
    ensures forall i :: 0 <= i < |news| && LookupItem(rows, news[i].Identifier(), domainIdentifier).Some? ==>
      LookupItem(rows, news[i].Identifier(), domainIdentifier).value in r
  {
    if |news| == 0 then []
    else
      var prev := ResolveNew(rows, domainIdentifier, news[..|news| - 1]);
      assert forall i :: 0 <= i < |news| - 1 ==> news[..|news| - 1][i] == news[i];
      match LookupItem(rows, news[|news| - 1].Identifier(), domainIdentifier)
      case None => prev
      case Some(item) => prev + [item]
  }
  /** The values present in a sequence of lookups, in order. */
  function Present(xs: seq<Option<StoreItem>>): (r: seq<StoreItem>)
    ensures |r| <= |xs|
  {
    if |xs| == 0 then []
    else Present(xs[..|xs| - 1]) + (if xs[|xs| - 1].Some? then [xs[|xs| - 1].value] else [])
  }

  /** The positions of the present values, in order. */
  function Positions(xs: seq<Option<StoreItem>>): (idx: seq<nat>)
    ensures |idx| == |Present(xs)|
    ensures forall k :: 0 <= k < |idx| ==> idx[k] < |xs|
  {
    if |xs| == 0 then []
    else Positions(xs[..|xs| - 1]) + (if xs[|xs| - 1].Some? then [|xs| - 1] else [])
  }

  lemma {:induction false} PositionsIncrease(xs: seq<Option<StoreItem>>)
    ensures forall a, b :: 0 <= a < b < |Positions(xs)| ==> Positions(xs)[a] < Positions(xs)[b]
  {
    if |xs| > 0 {
      PositionsIncrease(xs[..|xs| - 1]);
    }
  }

  lemma {:induction false} PositionsLocatePresent(xs: seq<Option<StoreItem>>)
    ensures forall k :: 0 <= k < |Positions(xs)| ==> xs[Positions(xs)[k]] == Some(Present(xs)[k])
  {
    if |xs| > 0 {
      var n := |xs| - 1;
      var init := xs[..n];
      PositionsLocatePresent(init);
      forall k | 0 <= k < |Positions(xs)| ensures xs[Positions(xs)[k]] == Some(Present(xs)[k]) {
        if k < |Positions(init)| {
          assert Positions(xs)[k] == Positions(init)[k] && Present(xs)[k] == Present(init)[k];
          assert xs[Positions(init)[k]] == init[Positions(init)[k]];
        }
      }
    }
  }

  lemma {:induction false} PositionsCoverPresent(xs: seq<Option<StoreItem>>)
    ensures forall i :: 0 <= i < |xs| && xs[i].Some? ==> i in Positions(xs)
  {
    if |xs| > 0 {
      var n := |xs| - 1;
      var init := xs[..n];
      PositionsCoverPresent(init);
      forall i | 0 <= i < |xs| && xs[i].Some? ensures i in Positions(xs) {
        if i < n {
          assert init[i] == xs[i];
          var t :| 0 <= t < |Positions(init)| && Positions(init)[t] == i;
          assert Positions(xs)[t] == i;
        } else {
          assert Positions(xs)[|Positions(init)|] == n;
        }
      }
    }
  }

  /** The lookups of the new records' identifiers, one per record. */
  function Lookups(rows: Table, domainIdentifier: string, news: seq<FileItemInfo>): (xs: seq<Option<StoreItem>>)
    ensures |xs| == |news|
    ensures forall i :: 0 <= i < |news| ==> xs[i] == LookupItem(rows, news[i].Identifier(), domainIdentifier)
  {
    seq(|news|, i requires 0 <= i < |news| => LookupItem(rows, news[i].Identifier(), domainIdentifier))
  }

  lemma {:induction false} ResolveNewIsPresent(rows: Table, domainIdentifier: string, news: seq<FileItemInfo>)
    ensures ResolveNew(rows, domainIdentifier, news) == Present(Lookups(rows, domainIdentifier, news))
  {
    if |news| > 0 {
      var n := |news| - 1;
      ResolveNewIsPresent(rows, domainIdentifier, news[..n]);
      assert Lookups(rows, domainIdentifier, news)[..n] == Lookups(rows, domainIdentifier, news[..n]);
    }
  }

  /**
    The reported items follow the feed: `idx` maps each reported item to the
    position of the record it resolves, strictly increasing, and hits every
    position whose record resolves.
  */
  lemma ResolveNewFollowsFeed(rows: Table, domainIdentifier: string, news: seq<FileItemInfo>)
    returns (idx: seq<nat>)
    ensures var r := ResolveNew(rows, domainIdentifier, news);
      && |idx| == |r|
      && (forall a, b :: 0 <= a < b < |idx| ==> idx[a] < idx[b])
      && (forall k :: 0 <= k < |idx| ==>
            idx[k] < |news| && LookupItem(rows, news[idx[k]].Identifier(), domainIdentifier) == Some(r[k]))
      && (forall i :: 0 <= i < |news| && LookupItem(rows, news[i].Identifier(), domainIdentifier).Some? ==> i in idx)
  {
    var xs := Lookups(rows, domainIdentifier, news);
    ResolveNewIsPresent(rows, domainIdentifier, news);
    PositionsIncrease(xs);
    PositionsLocatePresent(xs);
    PositionsCoverPresent(xs);
    idx := Positions(xs);
  }

  /** `changes.erase` rendered as identifiers. */
  function ErasedIdentifiers(erase: seq<int>): (r: seq<string>)
    ensures |r| == |erase| && forall i :: 0 <= i < |erase| ==> r[i] == IntToDecimal(erase[i])
  {
    seq(|erase|, i requires 0 <= i < |erase| => IntToDecimal(erase[i]))
  }

  /** The fail-closed guard: a batch is applied only when the call succeeds and reports a strictly greater anchor. */
  predicate Applies(outcome: Result<DirectoryChanges, StoreAPIError>, anchor: int) {
    outcome.Success? && anchor < outcome.value.anchor
  }

  /**
    `syncChangesForItem`: the rows after the call and what the handler
    receives. On a failed call or an anchor that does not advance, nothing
    changes and the handler gets no items, no deletions, the caller's anchor
    and no more to come. Otherwise the batch's transaction runs, and the
    handler gets the new items that resolve afterwards, the superseded local
    identifiers followed by the erased ones, the remote anchor and whether
    more remain.
   */
  function SyncChanges(rows: Table, identifier: string, domainIdentifier: string, anchor: int, count: int, remote: RemoteClient, convert: UtiConverter): (r: (Table, SyncResult))
    ensures !Applies(remote(identifier, anchor, count), anchor) ==>
      r == (rows, SyncResult([], [], anchor, false))
    ensures Applies(remote(identifier, anchor, count), anchor) ==>
      var changes := remote(identifier, anchor, count).value;
      && r.0 == ApplyBatch(rows, identifier, domainIdentifier, changes, convert).0
      && r.1.newItems == ResolveNew(r.0, domainIdentifier, changes.newItems)
      && r.1.deletedIdentifiers == ApplyBatch(rows, identifier, domainIdentifier, changes, convert).1 + ErasedIdentifiers(changes.erase)
      && r.1.anchor == changes.anchor > anchor
      && r.1.hasMore == (changes.remain > 0)
    ensures r.1.anchor >= anchor
    ensures WellFormed(rows) ==> WellFormed(r.0)
  {
    var outcome := remote(identifier, anchor, count);
    if !Applies(outcome, anchor) then (rows, SyncResult([], [], anchor, false))
    else
      var changes := outcome.value;
      var applied := ApplyBatch(rows, identifier, domainIdentifier, changes, convert);
      ApplyBatchKeepsWellFormed(rows, identifier, domainIdentifier, changes, convert);
      (applied.0, SyncResult(ResolveNew(applied.0, domainIdentifier, changes.newItems),
                             applied.1 + ErasedIdentifiers(changes.erase),
                             changes.anchor, changes.remain > 0))
  }

  /**
    After an applied batch the parent row holds the batch's anchor and size,
    unless the batch erased the parent itself; and it is still the row the
    parent's identifier finds.
   */
  lemma SyncSetsParentAnchorAndSize(rows: Table, identifier: string, domainIdentifier: string, anchor: int, count: int, remote: RemoteClient, convert: UtiConverter)
    requires WellFormed(rows)
    requires Applies(remote(identifier, anchor, count), anchor)
    requires ItemWithIdentifier(rows, identifier, domainIdentifier).Some?
    requires forall e :: e in remote(identifier, anchor, count).value.erase ==> IntToDecimal(e) != identifier
    ensures var p := ItemWithIdentifier(rows, identifier, domainIdentifier).value;
      var after := SyncChanges(rows, identifier, domainIdentifier, anchor, count, remote, convert).0;
      && Live(after, p)
      && after[p].value.anchor == remote(identifier, anchor, count).value.anchor > anchor
      && after[p].value.size == remote(identifier, anchor, count).value.size
      && after[p].value.id == identifier && after[p].value.domain == rows[p].value.domain
      && forall j :: 0 <= j < p ==> after[j] == rows[j] || after[j].None?
  {
    var changes := remote(identifier, anchor, count).value;
    var p := ItemWithIdentifier(rows, identifier, domainIdentifier).value;
    var domain := StoreDomains.Lookup(domainIdentifier).value.id;
    var applied := ApplyNew(rows, rows[p].value, p, identifier, changes.newItems, convert);
    ApplyNewEffect(rows, rows[p].value, p, identifier, changes.newItems, convert);
    // the parent is not its own child, so reconciliation leaves its row alone
    assert !IsChildRow(rows[p], p);
    assert applied.0[p] == rows[p];
    // children sit after their parent, so the slots before it are not children either
    assert forall j :: 0 <= j < p ==> !IsChildRow(rows[j], p);
    var erased := ApplyErase(applied.0, domain, changes.erase);
    ApplyEraseDeletesOnlyErased(applied.0, domain, changes.erase);
    assert ApplyBatch(rows, identifier, domainIdentifier, changes, convert).0 == SetParentAnchor(erased, p, changes.anchor, changes.size);
  }

  /**
    Started from the anchor the parent stores (the value `currentSyncAnchor`
    hands to the host), an applied batch strictly advances the stored anchor.
   */
  lemma SyncFromStoredAnchorAdvances(rows: Table, identifier: string, domainIdentifier: string, count: int, remote: RemoteClient, convert: UtiConverter)
    requires WellFormed(rows)
    requires ItemWithIdentifier(rows, identifier, domainIdentifier).Some?
    requires var anchor := SyncAnchorForItem(rows, identifier, domainIdentifier);
      && Applies(remote(identifier, anchor, count), anchor)
      && forall e :: e in remote(identifier, anchor, count).value.erase ==> IntToDecimal(e) != identifier
    ensures var p := ItemWithIdentifier(rows, identifier, domainIdentifier).value;
      var anchor := SyncAnchorForItem(rows, identifier, domainIdentifier);
      var after := SyncChanges(rows, identifier, domainIdentifier, anchor, count, remote, convert).0;
      Live(after, p) && after[p].value.anchor > rows[p].value.anchor
  {
    var anchor := SyncAnchorForItem(rows, identifier, domainIdentifier);
    SyncSetsParentAnchorAndSize(rows, identifier, domainIdentifier, anchor, count, remote, convert);
  }

  /**
    The guard compares the remote anchor with the caller's token, not with the
    stored anchor. From a stale token, a batch whose anchor lies below the
    stored one is applied and moves the stored anchor back.
   */
  lemma StaleTokenMovesAnchorBack(rows: Table, identifier: string, domainIdentifier: string, anchor: int, count: int, remote: RemoteClient, convert: UtiConverter)
    requires WellFormed(rows)
    requires ItemWithIdentifier(rows, identifier, domainIdentifier).Some?
    requires Applies(remote(identifier, anchor, count), anchor)
    requires forall e :: e in remote(identifier, anchor, count).value.erase ==> IntToDecimal(e) != identifier
    requires remote(identifier, anchor, count).value.anchor < SyncAnchorForItem(rows, identifier, domainIdentifier)
    ensures var p := ItemWithIdentifier(rows, identifier, domainIdentifier).value;
      var after := SyncChanges(rows, identifier, domainIdentifier, anchor, count, remote, convert).0;
      Live(after, p) && anchor < after[p].value.anchor < rows[p].value.anchor
  {
    SyncSetsParentAnchorAndSize(rows, identifier, domainIdentifier, anchor, count, remote, convert);
  }

  /**
    Repeating the call from the anchor a batch returned, while the remote has
    nothing newer to report, changes nothing and reports nothing.
   */
  lemma SecondSyncIsEmpty(rows: Table, identifier: string, domainIdentifier: string, anchor: int, count: int, remote: RemoteClient, convert: UtiConverter)
    requires Applies(remote(identifier, anchor, count), anchor)
    requires var next := remote(identifier, anchor, count).value.anchor;
      remote(identifier, next, count).Success? && remote(identifier, next, count).value.anchor == next
    ensures var first := SyncChanges(rows, identifier, domainIdentifier, anchor, count, remote, convert);
      SyncChanges(first.0, identifier, domainIdentifier, first.1.anchor, count, remote, convert) ==
        (first.0, SyncResult([], [], first.1.anchor, false))
  {
  }

  /**
    A batch whose parent row is missing applies nothing, yet the handler still
    receives the erased identifiers, the remote anchor and the remaining flag.
   */
  lemma SyncWithoutParentStillReportsBatch(rows: Table, identifier: string, domainIdentifier: string, anchor: int, count: int, remote: RemoteClient, convert: UtiConverter)
    requires Applies(remote(identifier, anchor, count), anchor)
    requires ItemWithIdentifier(rows, identifier, domainIdentifier).None?
    ensures var changes := remote(identifier, anchor, count).value;
      var r := SyncChanges(rows, identifier, domainIdentifier, anchor, count, remote, convert);
      && r.0 == rows
      && r.1.deletedIdentifiers == ErasedIdentifiers(changes.erase)
      && r.1.anchor == changes.anchor
  {
  }

  /** A batch never makes two children of one parent share a name. */
  lemma SyncKeepsChildNamesUnique(rows: Table, identifier: string, domainIdentifier: string, anchor: int, count: int, remote: RemoteClient, convert: UtiConverter, q: nat)
    requires UniqueChildNames(rows, q)
    ensures UniqueChildNames(SyncChanges(rows, identifier, domainIdentifier, anchor, count, remote, convert).0, q)
  {
    if Applies(remote(identifier, anchor, count), anchor) {
      ApplyBatchKeepsNamesUnique(rows, identifier, domainIdentifier, remote(identifier, anchor, count).value, convert, q);
    }
  }

  /**
    A provisional row, staged under the parent with name N, absorbs the remote
    record named N: the provisional identifier is reported as deleted, and
    exactly one child named N remains, carrying the remote identity.
   */
  lemma ProvisionalRowIsAbsorbed(rows: Table, parent: StoreItem, parentRef: nat, pid: string, info: FileItemInfo, convert: UtiConverter, k: nat)
    requires UniqueChildNames(rows, parentRef)
    requires k < |rows| && IsChildNamed(rows[k], parentRef, info.name)
    ensures var r := ApplyNewItem(rows, parent, parentRef, pid, info, convert);
      && r.1 == [rows[k].value.id]
      && IsChildNamed(r.0[k], parentRef, info.name)
      && CarriesRemoteRecord(r.0[k].value, pid, info, convert)
      && forall j :: 0 <= j < |r.0| && IsChildNamed(r.0[j], parentRef, info.name) ==> j == k
  {
    var r := ApplyNewItem(rows, parent, parentRef, pid, info, convert);
    ApplyNewItemEffect(rows, parent, parentRef, pid, info, convert);
    ApplyNewItemKeepsInvariants(rows, parent, parentRef, pid, info, convert, parentRef);
  }
}
