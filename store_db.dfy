/**
  The store object: one table of rows that every operation updates in place.
  Each method follows the statements of its Swift counterpart and is proved
  to leave the table, and to return, what the specification functions of
  the staging, sync and completion modules say.
 */
module StoreDatabase {
  import opened Wrappers
  import opened SwiftText
  import StoreDomains
  import opened StoreAPI
  import opened StoreItems
  import opened StoreQuery
  import opened StoreSync
  import opened StoreBootstrap
  import opened StoreStaging
  import opened StoreUploads

  class StoreDB {
    /** The persistent store's rows, in insertion order. */
    var rows: Table

    /** The invariant every operation keeps. */
    predicate Valid()
      reads this
    {
      WellFormed(rows)
    }

    /**
      The shared instance as the first access creates it: the persisted rows,
      then a root container row for each domain whose root the fetch does not
      find (the intended fetch; see the bootstrap module for the fetch as
      written).
     */
    constructor Open(persisted: Table)
      ensures rows == Bootstrap(persisted, StoreDomains.Entries)
      ensures WellFormed(persisted) ==> Valid()
    {
      var r := persisted;
      for i := 0 to |StoreDomains.Entries|
        invariant r == Bootstrap(persisted, StoreDomains.Entries[..i])
      {
        var d := StoreDomains.Entries[i].1;
        if FindId(r, RootContainerIdentifier, d.id).None? {
          r := r + [Some(RootRow(d))];
        }
        assert StoreDomains.Entries[..i + 1][..i] == StoreDomains.Entries[..i];
      }
      assert StoreDomains.Entries[..|StoreDomains.Entries|] == StoreDomains.Entries;
      rows := r;
    }

    /**
      `syncChangesForItem`: asks the remote for changes after `anchor`,
      applies an advancing batch in one transaction (reconcile or insert each
      new record, delete each erased identifier, store the parent's new anchor
      and size) and returns what the handler receives.
     */
    method SyncChangesForItem(identifier: string, domainIdentifier: string, anchor: int, count: int, remote: RemoteClient, convert: UtiConverter)
      returns (newItems: seq<StoreItem>, deletedIdentifiers: seq<string>, nextAnchor: int, hasMore: bool)
      requires Valid()
      modifies this
      ensures Valid()
      ensures (rows, SyncResult(newItems, deletedIdentifiers, nextAnchor, hasMore)) ==
        SyncChanges(old(rows), identifier, domainIdentifier, anchor, count, remote, convert)
    {
      var outcome := remote(identifier, anchor, count);
      if !(outcome.Success? && anchor < outcome.value.anchor) {
        return [], [], anchor, false;
      }
      var changes := outcome.value;
      var superseded: seq<string> := [];
      var found := ItemWithIdentifier(rows, identifier, domainIdentifier);
      if found.Some? {
        var p := found.value;
        superseded := ReconcileNewItems(p, rows[p].value, identifier, changes.newItems, convert);
        ghost var applied := rows;
        var domain := StoreDomains.Lookup(domainIdentifier).value.id;
        EraseItems(domain, changes.erase);
        assert rows == ApplyErase(applied, domain, changes.erase);
        if Live(rows, p) {
          rows := rows[p := Some(rows[p].value.(anchor := changes.anchor, size := changes.size))];
        }
        assert rows == SetParentAnchor(ApplyErase(applied, domain, changes.erase), p, changes.anchor, changes.size);
      }
      assert (rows, superseded) == ApplyBatch(old(rows), identifier, domainIdentifier, changes, convert);
      ApplyBatchKeepsWellFormed(old(rows), identifier, domainIdentifier, changes, convert);
      newItems := ResolveNew(rows, domainIdentifier, changes.newItems);
      deletedIdentifiers := superseded + ErasedIdentifiers(changes.erase);
      nextAnchor := changes.anchor;
      hasMore := changes.remain > 0;
    }

    /** The loop over `changes.new`: returns the superseded local identifiers. */
    method ReconcileNewItems(p: nat, parent: StoreItem, identifier: string, news: seq<FileItemInfo>, convert: UtiConverter)
      returns (superseded: seq<string>)
      modifies this
      ensures (rows, superseded) == ApplyNew(old(rows), parent, p, identifier, news, convert)
    {
      superseded := [];
      for i := 0 to |news|
        invariant (rows, superseded) == ApplyNew(old(rows), parent, p, identifier, news[..i], convert)
      {
        ApplyNewStep(old(rows), parent, p, identifier, news, i, convert);
        var info := news[i];
        ghost var step := ApplyNewItem(rows, parent, p, identifier, info, convert);
        ghost var before := superseded;
        var existing := FindChildNamed(rows, p, info.name);
        if existing.Some? {
          superseded := superseded + [rows[existing.value].value.id];
          rows := rows[existing.value := Some(Absorb(rows[existing.value].value, identifier, info, convert))];
        } else {
          rows := rows + [Some(Absorb(ChildOf(parent, p), identifier, info, convert))];
        }
        assert rows == step.0 && superseded == before + step.1;
      }
      assert news[..|news|] == news;
    }

    /** The loop over `changes.erase`. */
    method EraseItems(domain: int, erase: seq<int>)
      modifies this
      ensures rows == ApplyErase(old(rows), domain, erase)
    {
      for i := 0 to |erase|
        invariant rows == ApplyErase(old(rows), domain, erase[..i])
      {
        var k := FindId(rows, IntToDecimal(erase[i]), domain);
        if k.Some? {
          rows := rows[k.value := None];
        }
        assert erase[..i + 1][..i] == erase[..i];
      }
      assert erase[..|erase|] == erase;
    }

    /**
      `createDirectory`: stages a provisional folder under `tmpId` (the UUID
      the source draws) with creation and modification date `now`.
     */
    method CreateDirectory(name: string, parentId: string, domainIdentifier: string, tmpId: string, now: int)
      returns (result: Result<Staged, ProviderError>)
      requires Valid()
      modifies this
      ensures Valid()
      ensures (rows, result) == StoreStaging.CreateDirectory(old(rows), name, parentId, domainIdentifier, tmpId, now)
    {
      var parent := DirectoryParent(rows, parentId, domainIdentifier);
      if parent.Some? {
        var p := parent.value;
        var dirItem := DirectoryRow(rows[p].value, p, name, parentId, tmpId, now);
        rows := rows[p := Some(rows[p].value.(size := rows[p].value.size + 1))] + [Some(dirItem)];
      }
      var item := LookupItem(rows, tmpId, domainIdentifier);
      if item.None? {
        return Failure(NoSuchItem);
      }
      var taskId := UploadTasks.TaskIdFor(domainIdentifier, item.value.id);
      result := Success(Staged(item.value, UploadTasks.CreateDirectoryTask(taskId, item.value.name, parentId)));
    }

    /**
      `importFile`: the file system's answers are in `source`; `tmpId` is the
      UUID that names the provisional row and its temporary directory.
     */
    method ImportFile(source: ImportSource, parentId: string, domainIdentifier: string, tmpId: string)
      returns (result: Result<Staged, ProviderError>)
      requires Valid()
      modifies this
      ensures Valid()
      ensures (rows, result) == StoreStaging.ImportFile(old(rows), source, parentId, domainIdentifier, tmpId)
    {
      var parent := DirectoryParent(rows, parentId, domainIdentifier);
      if parent.None? || !source.accessGranted || source.values.None? || source.values.value.isDirectory {
        return Failure(NoSuchItem);
      }
      var p := parent.value;
      var values := source.values.value;
      var child := FindChildNamed(rows, p, values.name);
      if child.Some? {
        return Failure(Collision(rows[child.value].value));
      }
      if !source.moved {
        return Failure(NoSuchItem);
      }
      var parentItem := rows[p].value;
      var fileItem := FileRow(parentItem, p, values, parentId, tmpId);
      rows := rows[p := Some(parentItem.(size := parentItem.size + 1))] + [Some(fileItem)];
      var item := LookupItem(rows, tmpId, domainIdentifier);
      if item.None? {
        return Failure(NoSuchItem);
      }
      var taskId := UploadTasks.TaskIdFor(domainIdentifier, item.value.id);
      result := Success(Staged(item.value, UploadTasks.UploadFileTask(taskId, tmpId, item.value.name, parentItem.id)));
    }

    /** `uploadTask(withId:completeWithError:)`. */
    method UploadTaskCompleteWithError(taskId: string, error: StoreAPIError)
      requires Valid()
      modifies this
      ensures Valid()
      ensures rows == CompleteWithError(old(rows), taskId, error)
    {
      var parts := UploadTasks.ParseTaskId(taskId);
      if parts.None? {
        return;
      }
      var k := ItemWithIdentifier(rows, parts.value.1, parts.value.0);
      if k.None? {
        return;
      }
      var item := rows[k.value].value;
      rows := rows[k.value := Some(item.WithUploadState(ItemUploadState.NotStarted).(uploadError := Some(error.LocalizedDescription())))];
    }

    /**
      `uploadTask(withId:completeWithServerItem:)`: returns the identifier of
      the enumerator it signals, if any.
     */
    method UploadTaskCompleteWithServerItem(taskId: string, itemInfo: FileItemInfo)
      returns (signalled: Option<string>)
      requires Valid()
      modifies this
      ensures Valid()
      ensures (rows, signalled) == CompleteWithServerItem(old(rows), taskId, itemInfo)
    {
      var parts := UploadTasks.ParseTaskId(taskId);
      if parts.None? {
        return None;
      }
      var k := ItemWithIdentifier(rows, parts.value.1, parts.value.0);
      if k.None? || rows[k.value].value.parent.None? || !Live(rows, rows[k.value].value.parent.value) {
        return None;
      }
      var item := rows[k.value].value;
      var parentId := rows[item.parent.value].value.ItemIdentifier();
      item := item.WithUploadState(ItemUploadState.Uploaded).(uploadError := None);
      item := item.WithDownloadState(ItemDownloadState.DeleteLocal);
      rows := rows[k.value := Some(item)];
      signalled := Some(parentId);
    }
  }
}
