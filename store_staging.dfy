/**
  Local creation of items before the server knows them (`createDirectory`,
  `importFile`): a provisional row under a fresh temporary identifier, the
  parent's child count bumped, and the background task that will report the
  server's record back.
 */
module StoreStaging {
  import opened Wrappers
  import StoreDomains
  import opened StoreAPI
  import opened StoreItems
  import opened StoreQuery
  import opened UploadTasks

  /** The errors handed to the completion handler: `.noSuchItem`, or a collision with an existing child. */
  datatype ProviderError = NoSuchItem | Collision(existing: StoreItem)

  /** A staged item as the completion handler receives it, with the task scheduled for it. */
  datatype Staged = Staged(item: StoreItem, task: BackgroundTask)

  /** The parent a staging operation attaches to: found by identifier in the domain, and a directory. */
  function DirectoryParent(rows: Table, parentId: string, domainIdentifier: string): (p: Option<nat>)
    ensures p.Some? <==> ItemWithIdentifier(rows, parentId, domainIdentifier).Some? && rows[ItemWithIdentifier(rows, parentId, domainIdentifier).value].value.IsDirectory()
    ensures p.Some? ==> p == ItemWithIdentifier(rows, parentId, domainIdentifier) && Live(rows, p.value)
  {
    match ItemWithIdentifier(rows, parentId, domainIdentifier)
    case None => None
    case Some(k) => if rows[k].value.IsDirectory() then Some(k) else None
  }

  /** Insert `item` as a new row and count it in the parent's size. */
  function InsertChild(rows: Table, parentRef: nat, item: StoreItem): (r: Table)
    requires Live(rows, parentRef)
    ensures |r| == |rows| + 1 && r[|rows|] == Some(item)
    ensures r[parentRef] == Some(rows[parentRef].value.(size := rows[parentRef].value.size + 1))
    ensures forall j :: 0 <= j < |rows| && j != parentRef ==> r[j] == rows[j]
    ensures forall j :: 0 <= j < |rows| ==> SameShape(rows, r, j)
  {
    rows[parentRef := Some(rows[parentRef].value.(size := rows[parentRef].value.size + 1))] + [Some(item)]
  }

  /** The re-fetch by the temporary identifier after the transaction, which decides success. */
  function Refetch(rows: Table, tmpId: string, domainIdentifier: string): (r: Result<StoreItem, ProviderError>)
    ensures r.Success? <==> LookupItem(rows, tmpId, domainIdentifier).Some?
    ensures r.Success? ==> r.value == LookupItem(rows, tmpId, domainIdentifier).value
    ensures r.Failure? ==> r.error == NoSuchItem
  {
    match LookupItem(rows, tmpId, domainIdentifier)
    case None => Failure(NoSuchItem)
    case Some(item) => Success(item)
  }

  /** The provisional directory row: a folder named `name`, created now, downloaded and being uploaded. */
  function DirectoryRow(parent: StoreItem, parentRef: nat, name: string, parentId: string, tmpId: string, now: int): (item: StoreItem)
    ensures item.id == tmpId && item.pid == parentId && item.name == name
    ensures item.parent == Some(parentRef) && item.domain == parent.domain
    ensures item.IsDirectory() && item.size == 0 && item.anchor == 0
    ensures item.cdate == now && item.mdate == now
    ensures item.HasValidStates() && item.IsDownloaded() && item.IsUploading()
    ensures item.uploadError.None? && item.downloadError.None?
  {
    ChildOf(parent, parentRef).(id := tmpId, pid := parentId, name := name, uti := FolderUti, size := 0, cdate := now, mdate := now, anchor := 0)
      .WithDownloadState(ItemDownloadState.Downloaded)
      .WithUploadState(ItemUploadState.Uploading)
  }

  /**
    `createDirectory`: without a directory parent nothing is inserted;
    otherwise a provisional folder row is inserted and the parent's size grows
    by one. There is no check for an existing child with the same name. The
    handler then gets whatever the temporary identifier fetches, and on
    success a directory-creation task is scheduled under `"<domain>/<id>"`.
   */
  function CreateDirectory(rows: Table, name: string, parentId: string, domainIdentifier: string, tmpId: string, now: int): (r: (Table, Result<Staged, ProviderError>))
    ensures DirectoryParent(rows, parentId, domainIdentifier).None? ==> r.0 == rows
    ensures DirectoryParent(rows, parentId, domainIdentifier).Some? ==>
      var p := DirectoryParent(rows, parentId, domainIdentifier).value;
      r.0 == InsertChild(rows, p, DirectoryRow(rows[p].value, p, name, parentId, tmpId, now))
    ensures r.1.Failure? <==> LookupItem(r.0, tmpId, domainIdentifier).None?
    ensures r.1.Failure? ==> r.1.error == NoSuchItem
    ensures r.1.Success? ==>
      && r.1.value.item == LookupItem(r.0, tmpId, domainIdentifier).value
      && r.1.value.task == CreateDirectoryTask(TaskIdFor(domainIdentifier, r.1.value.item.id), r.1.value.item.name, parentId)
  {
    var after := match DirectoryParent(rows, parentId, domainIdentifier)
      case None => rows
      case Some(p) => InsertChild(rows, p, DirectoryRow(rows[p].value, p, name, parentId, tmpId, now));
    match Refetch(after, tmpId, domainIdentifier)
    case Failure(e) => (after, Failure(e))
    case Success(item) => (after, Success(Staged(item, CreateDirectoryTask(TaskIdFor(domainIdentifier, item.id), item.name, parentId))))
  }

  /** The resource values `importFile` reads from the file (all the keys it requests). */
  datatype ResourceValues = ResourceValues(
    typeIdentifier: string,
    isDirectory: bool,
    name: string,
    creationDate: int,
    contentModificationDate: int,
    totalFileSize: int)

  /**
    What the file system answers for the imported URL: whether security-scoped
    access was granted, the resource values if they could be read, and whether
    the coordinated move into the temporary directory succeeded.
   */
  datatype ImportSource = ImportSource(accessGranted: bool, values: Option<ResourceValues>, moved: bool)

  /** The first guard of `importFile`: a directory parent, access, readable values, and not a directory. */
  predicate ImportAdmissible(rows: Table, source: ImportSource, parentId: string, domainIdentifier: string) {
    DirectoryParent(rows, parentId, domainIdentifier).Some? && source.accessGranted &&
    source.values.Some? && !source.values.value.isDirectory
  }

  /** The provisional file row: the file's name, type, dates and size, not downloaded, being uploaded. */
  function FileRow(parent: StoreItem, parentRef: nat, values: ResourceValues, parentId: string, tmpId: string): (item: StoreItem)
    ensures item.id == tmpId && item.pid == parentId && item.name == values.name
    ensures item.parent == Some(parentRef) && item.domain == parent.domain
    ensures item.uti == values.typeIdentifier && item.size == values.totalFileSize
    ensures item.cdate == values.creationDate && item.mdate == values.contentModificationDate
    ensures item.anchor == 0
    ensures item.HasValidStates() && item.DownloadState() == ItemDownloadState.NotStarted && item.IsUploading()
    ensures item.uploadError.None? && item.downloadError.None?
  {
    ChildOf(parent, parentRef).(id := tmpId, pid := parentId, name := values.name, uti := values.typeIdentifier,
                                cdate := values.creationDate, mdate := values.contentModificationDate, size := values.totalFileSize)
      .WithDownloadState(ItemDownloadState.NotStarted)
      .WithUploadState(ItemUploadState.Uploading)
  }

  /**
    `importFile`: `.noSuchItem` when the first guard fails; a collision when
    the parent already has a child with exactly the file's name (the
    comparison is case-sensitive); `.noSuchItem` when the move fails; otherwise
    a provisional file row under `tmpId`, the parent's size grown by one, the
    re-fetch by `tmpId`, and on success an upload task for the temporary copy.
   */
  function ImportFile(rows: Table, source: ImportSource, parentId: string, domainIdentifier: string, tmpId: string): (r: (Table, Result<Staged, ProviderError>))
    ensures !ImportAdmissible(rows, source, parentId, domainIdentifier) ==> r == (rows, Failure(NoSuchItem))
    ensures ImportAdmissible(rows, source, parentId, domainIdentifier) ==>
      var p := DirectoryParent(rows, parentId, domainIdentifier).value;
      var values := source.values.value;
      && (FindChildNamed(rows, p, values.name).Some? ==>
            r == (rows, Failure(Collision(rows[FindChildNamed(rows, p, values.name).value].value))))
      && (FindChildNamed(rows, p, values.name).None? && !source.moved ==> r == (rows, Failure(NoSuchItem)))
      && (FindChildNamed(rows, p, values.name).None? && source.moved ==>
            && r.0 == InsertChild(rows, p, FileRow(rows[p].value, p, values, parentId, tmpId))
            && (r.1.Failure? <==> LookupItem(r.0, tmpId, domainIdentifier).None?)
            && (r.1.Failure? ==> r.1.error == NoSuchItem)
            && (r.1.Success? ==>
                  && r.1.value.item == LookupItem(r.0, tmpId, domainIdentifier).value
                  && r.1.value.task == UploadFileTask(TaskIdFor(domainIdentifier, r.1.value.item.id), tmpId, r.1.value.item.name, rows[p].value.id)))
  {
    if !ImportAdmissible(rows, source, parentId, domainIdentifier) then (rows, Failure(NoSuchItem))
    else
      var p := DirectoryParent(rows, parentId, domainIdentifier).value;
      var values := source.values.value;
      match FindChildNamed(rows, p, values.name)
      case Some(k) => (rows, Failure(Collision(rows[k].value)))
      case None =>
        if !source.moved then (rows, Failure(NoSuchItem))
        else
          var after := InsertChild(rows, p, FileRow(rows[p].value, p, values, parentId, tmpId));
          match Refetch(after, tmpId, domainIdentifier)
          case Failure(e) => (after, Failure(e))
          case Success(item) => (after, Success(Staged(item, UploadFileTask(TaskIdFor(domainIdentifier, item.id), tmpId, item.name, rows[p].value.id))))
  }

  /** `tmpId` names no row of the domain yet: the fresh temporary identifier a UUID provides. */
  predicate FreshIn(rows: Table, tmpId: string, domainIdentifier: string) {
    LookupItem(rows, tmpId, domainIdentifier).None?
  }

  /** With a fresh temporary identifier, the re-fetch after an insertion returns the inserted row. */
  lemma RefetchFindsInserted(rows: Table, parentRef: nat, item: StoreItem, tmpId: string, domainIdentifier: string)
    requires Live(rows, parentRef) && FreshIn(rows, tmpId, domainIdentifier)
    requires item.id == tmpId && item.domain == rows[parentRef].value.domain
    requires StoreDomains.Lookup(domainIdentifier).Some? && rows[parentRef].value.domain == StoreDomains.Lookup(domainIdentifier).value.id
    ensures LookupItem(InsertChild(rows, parentRef, item), tmpId, domainIdentifier) == Some(item)
  {
    var after := InsertChild(rows, parentRef, item);
    var d := StoreDomains.Lookup(domainIdentifier).value.id;
    assert FindId(rows, tmpId, d).None?;
    forall j | 0 <= j < |rows| ensures !HasId(after[j], tmpId, d) {
      assert !HasId(rows[j], tmpId, d);
    }
    assert HasId(after[|rows|], tmpId, d);
    assert IsFirstWithId(after, |rows|, tmpId, d);
    FindIdIsFirst(after, tmpId, d, |rows|);
  }

  /**
    With a fresh temporary identifier, `createDirectory` succeeds exactly when
    the parent is a directory, and the handler then receives the new row.
   */
  lemma CreateDirectoryOutcome(rows: Table, name: string, parentId: string, domainIdentifier: string, tmpId: string, now: int)
    requires FreshIn(rows, tmpId, domainIdentifier)
    ensures var r := CreateDirectory(rows, name, parentId, domainIdentifier, tmpId, now);
      && (r.1.Success? <==> DirectoryParent(rows, parentId, domainIdentifier).Some?)
      && (r.1.Success? ==> |r.0| == |rows| + 1 && r.0[|rows|] == Some(r.1.value.item) && r.1.value.item.IsDirectory() && r.1.value.item.name == name)
  {
    match DirectoryParent(rows, parentId, domainIdentifier)
    case None =>
    case Some(p) =>
      ParentDomainMatches(rows, parentId, domainIdentifier, p);
      RefetchFindsInserted(rows, p, DirectoryRow(rows[p].value, p, name, parentId, tmpId, now), tmpId, domainIdentifier);
  }

  /**
    With a fresh temporary identifier, `importFile` succeeds exactly when the
    first guard holds, the parent has no child with the file's name and the
    move succeeded; the handler then receives the new row.
   */
  lemma ImportFileOutcome(rows: Table, source: ImportSource, parentId: string, domainIdentifier: string, tmpId: string)
    requires FreshIn(rows, tmpId, domainIdentifier)
    ensures var r := ImportFile(rows, source, parentId, domainIdentifier, tmpId);
      && (r.1.Success? <==>
            ImportAdmissible(rows, source, parentId, domainIdentifier) && source.moved &&
            FindChildNamed(rows, DirectoryParent(rows, parentId, domainIdentifier).value, source.values.value.name).None?)
      && (r.1.Success? ==> |r.0| == |rows| + 1 && r.0[|rows|] == Some(r.1.value.item) && r.1.value.item.IsUploading())
      && (r.1.Failure? ==> r.0 == rows || LookupItem(r.0, tmpId, domainIdentifier).None?)
  {
    if ImportAdmissible(rows, source, parentId, domainIdentifier) {
      var p := DirectoryParent(rows, parentId, domainIdentifier).value;
      if FindChildNamed(rows, p, source.values.value.name).None? && source.moved {
        ParentDomainMatches(rows, parentId, domainIdentifier, p);
        RefetchFindsInserted(rows, p, FileRow(rows[p].value, p, source.values.value, parentId, tmpId), tmpId, domainIdentifier);
      }
    }
  }

  /** The parent found in a domain belongs to that domain. */
  lemma ParentDomainMatches(rows: Table, parentId: string, domainIdentifier: string, p: nat)
    requires DirectoryParent(rows, parentId, domainIdentifier) == Some(p)
    ensures StoreDomains.Lookup(domainIdentifier).Some?
    ensures rows[p].value.domain == StoreDomains.Lookup(domainIdentifier).value.id
  {
  }

  /** An import never gives a parent two children with the same name, and keeps the store well formed. */
  lemma ImportKeepsChildNamesUnique(rows: Table, source: ImportSource, parentId: string, domainIdentifier: string, tmpId: string, q: nat)
    requires UniqueChildNames(rows, q)
    ensures UniqueChildNames(ImportFile(rows, source, parentId, domainIdentifier, tmpId).0, q)
  {
    var after := ImportFile(rows, source, parentId, domainIdentifier, tmpId).0;
    if after != rows {
      var p := DirectoryParent(rows, parentId, domainIdentifier).value;
      var name := source.values.value.name;
      assert FindChildNamed(rows, p, name).None?;
      forall a, b | 0 <= a < b < |after| && after[a].Some? && after[b].Some? &&
                    after[a].value.parent == Some(q) && after[b].value.parent == Some(q)
        ensures after[a].value.name != after[b].value.name
      {
        assert SameShape(rows, after, a);
        if b < |rows| {
          assert SameShape(rows, after, b);
        } else {
          assert !IsChildNamed(rows[a], p, name);
        }
      }
    }
  }

  /** Staging keeps the store well formed. */
  lemma StagingKeepsWellFormed(rows: Table, name: string, source: ImportSource, parentId: string, domainIdentifier: string, tmpId: string, now: int)
    requires WellFormed(rows)
    ensures WellFormed(CreateDirectory(rows, name, parentId, domainIdentifier, tmpId, now).0)
    ensures WellFormed(ImportFile(rows, source, parentId, domainIdentifier, tmpId).0)
  {
  }

  /**
    Unlike `importFile`, `createDirectory` stages a folder whose name an
    existing child of the parent already has, leaving two children with that
    name.
   */
  lemma CreateDirectoryAllowsDuplicateName(rows: Table, name: string, parentId: string, domainIdentifier: string, tmpId: string, now: int)
    requires FreshIn(rows, tmpId, domainIdentifier)
    requires DirectoryParent(rows, parentId, domainIdentifier).Some?
    requires FindChildNamed(rows, DirectoryParent(rows, parentId, domainIdentifier).value, name).Some?
    ensures var r := CreateDirectory(rows, name, parentId, domainIdentifier, tmpId, now);
      r.1.Success? && !UniqueChildNames(r.0, DirectoryParent(rows, parentId, domainIdentifier).value)
  {
    var p := DirectoryParent(rows, parentId, domainIdentifier).value;
    var k := FindChildNamed(rows, p, name).value;
    CreateDirectoryOutcome(rows, name, parentId, domainIdentifier, tmpId, now);
    var after := CreateDirectory(rows, name, parentId, domainIdentifier, tmpId, now).0;
    assert SameShape(rows, after, k);
    assert after[|rows|].value.parent == Some(p) && after[|rows|].value.name == name;
  }
}
