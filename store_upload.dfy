/**
  The store's handlers for finished background tasks
  (`uploadTask(withId:completeWithError:)` and
  `uploadTask(withId:completeWithServerItem:)`): the task identifier names the
  domain and the provisional row, whose upload state is then settled.
 */
module StoreUploads {
  import opened Wrappers
  import StoreDomains
  import opened StoreAPI
  import opened StoreItems
  import opened StoreQuery
  import opened UploadTasks

  /** The row a task identifier designates: nothing when it has no '/', or its domain or row is unknown. */
  function TaskRow(rows: Table, taskId: string): (k: Option<nat>)
    ensures ParseTaskId(taskId).None? ==> k.None?
    ensures ParseTaskId(taskId).Some? ==> k == ItemWithIdentifier(rows, ParseTaskId(taskId).value.1, ParseTaskId(taskId).value.0)
    ensures k.Some? ==> Live(rows, k.value)
  {
    match ParseTaskId(taskId)
    case None => None
    case Some((domainIdentifier, itemId)) => ItemWithIdentifier(rows, itemId, domainIdentifier)
  }

  /** The failed item: upload not started, and the error's description kept for the host to show. */
  function FailedUpload(item: StoreItem, error: StoreAPIError): (r: StoreItem)
    ensures UploadStateFromRaw(r.uploadingState) == Some(ItemUploadState.NotStarted)
    ensures r.UploadingError() == Some(error)
    ensures r.(uploadingState := item.uploadingState, uploadError := item.uploadError) == item
  {
    item.WithUploadState(ItemUploadState.NotStarted).(uploadError := Some(error.LocalizedDescription()))
  }

  /** `completeWithError`: the designated row becomes a failed upload; an unresolved task identifier changes nothing. */
  function CompleteWithError(rows: Table, taskId: string, error: StoreAPIError): (r: Table)
    ensures |r| == |rows|
    ensures TaskRow(rows, taskId).None? ==> r == rows
    ensures TaskRow(rows, taskId).Some? ==>
      var k := TaskRow(rows, taskId).value;
      && r[k] == Some(FailedUpload(rows[k].value, error))
      && forall j :: 0 <= j < |rows| && j != k ==> r[j] == rows[j]
  {
    match TaskRow(rows, taskId)
    case None => rows
    case Some(k) => rows[k := Some(FailedUpload(rows[k].value, error))]
  }

  /**
    The uploaded item: uploaded, its error cleared, and marked for deletion of
    the local copy, which the next sync replaces with the server's record.
   */
  function CompletedUpload(item: StoreItem): (r: StoreItem)
    ensures UploadStateFromRaw(r.uploadingState) == Some(ItemUploadState.Uploaded) && r.uploadError.None?
    ensures DownloadStateFromRaw(r.downloadingState) == Some(ItemDownloadState.DeleteLocal)
    ensures r.(uploadingState := item.uploadingState, uploadError := item.uploadError, downloadingState := item.downloadingState) == item
  {
    item.WithUploadState(ItemUploadState.Uploaded).(uploadError := None).WithDownloadState(ItemDownloadState.DeleteLocal)
  }

  /** The guard of `completeWithServerItem`: the row is found and its parent relationship still holds an object. */
  predicate HasLiveParent(rows: Table, k: nat)
    requires Live(rows, k)
  {
    rows[k].value.parent.Some? && Live(rows, rows[k].value.parent.value)
  }

  /**
    `completeWithServerItem`: when the designated row is found and its parent
    still exists, the row becomes a completed upload and the parent's
    enumerator is signalled; otherwise nothing changes and nothing is
    signalled. The server's record itself is not used here: it reaches the
    store through the next sync.
   */
  function CompleteWithServerItem(rows: Table, taskId: string, itemInfo: FileItemInfo): (r: (Table, Option<string>))
    ensures |r.0| == |rows|
    ensures r.1.None? <==> TaskRow(rows, taskId).None? || !HasLiveParent(rows, TaskRow(rows, taskId).value)
    ensures r.1.None? ==> r.0 == rows
    ensures r.1.Some? ==>
      var k := TaskRow(rows, taskId).value;
      && r.0[k] == Some(CompletedUpload(rows[k].value))
      && r.1.value == rows[rows[k].value.parent.value].value.ItemIdentifier()
      && r.1.value == ParentItemIdentifier(rows, rows[k].value)
      && forall j :: 0 <= j < |rows| && j != k ==> r.0[j] == rows[j]
  {
    match TaskRow(rows, taskId)
    case None => (rows, None)
    case Some(k) =>
      if HasLiveParent(rows, k) then
        (rows[k := Some(CompletedUpload(rows[k].value))], Some(rows[rows[k].value.parent.value].value.ItemIdentifier()))
      else (rows, None)
  }

  /**
    A task identifier built when staging row `k` leads its completion back to
    that row, provided `k` is the first row with its identifier in a known
    domain.
   */
  lemma StagedTaskReachesItsRow(rows: Table, domainIdentifier: string, k: nat)
    requires StoreDomains.Lookup(domainIdentifier).Some?
    requires Live(rows, k) && IsFirstWithId(rows, k, rows[k].value.id, StoreDomains.Lookup(domainIdentifier).value.id)
    ensures TaskRow(rows, TaskIdFor(domainIdentifier, rows[k].value.id)) == Some(k)
  {
    assert '/' !in domainIdentifier by {
      assert domainIdentifier == StoreDomains.FilesKey || domainIdentifier == StoreDomains.PhotosKey;
    }
    TaskIdRoundTrip(domainIdentifier, rows[k].value.id);
    FindIdIsFirst(rows, rows[k].value.id, StoreDomains.Lookup(domainIdentifier).value.id, k);
  }

  /** Completing a task, either way, keeps the store well formed and every parent's child names as they were. */
  lemma CompletionKeepsShape(rows: Table, taskId: string, error: StoreAPIError, itemInfo: FileItemInfo, q: nat)
    requires WellFormed(rows) && UniqueChildNames(rows, q)
    ensures WellFormed(CompleteWithError(rows, taskId, error)) && UniqueChildNames(CompleteWithError(rows, taskId, error), q)
    ensures WellFormed(CompleteWithServerItem(rows, taskId, itemInfo).0) && UniqueChildNames(CompleteWithServerItem(rows, taskId, itemInfo).0, q)
  {
  }

  /** A successful completion followed by a failure report for the same task leaves the row as a failed upload marked for local deletion. */
  lemma FailureAfterCompletion(rows: Table, taskId: string, itemInfo: FileItemInfo, error: StoreAPIError)
    requires CompleteWithServerItem(rows, taskId, itemInfo).1.Some?
    ensures var after := CompleteWithError(CompleteWithServerItem(rows, taskId, itemInfo).0, taskId, error);
      var k := TaskRow(rows, taskId).value;
      && UploadStateFromRaw(after[k].value.uploadingState) == Some(ItemUploadState.NotStarted)
      && DownloadStateFromRaw(after[k].value.downloadingState) == Some(ItemDownloadState.DeleteLocal)
  {
    var mid := CompleteWithServerItem(rows, taskId, itemInfo).0;
    var k := TaskRow(rows, taskId).value;
    var parts := ParseTaskId(taskId).value;
    var d := StoreDomains.Lookup(parts.0).value.id;
    assert forall j :: 0 <= j < |rows| ==> (HasId(mid[j], parts.1, d) <==> HasId(rows[j], parts.1, d));
    FindIdIsFirst(mid, parts.1, d, k);
  }
}
