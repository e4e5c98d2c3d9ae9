/**
  The background URL session's delegate callbacks that finish an upload or a
  directory creation: a response body is validated and decoded, and the
  outcome is routed by the task's description (its task identifier) to the
  store's completion handlers.
 */
module StoreBackgroundSession {
  import opened Wrappers
  import opened StoreAPI
  import opened StoreItems
  import opened StoreQuery
  import opened StoreUploads
  import opened StoreDatabase
  import UploadTasks
  import StoreDomains

  /**
    `urlSession(_:dataTask:didReceive:)`: without a task description nothing
    happens; otherwise a decoded server record completes the task, and any
    validation or decoding error fails it with that error's description.
    Returns the enumerator the completion signals, if any.
   */
  method DidReceiveData(db: StoreDB, taskDescription: Option<string>, data: seq<byte>, response: HttpResponse, decode: JsonDecoder<FileItemInfo>)
    returns (signalled: Option<string>)
    requires db.Valid()
    modifies db
    ensures db.Valid()
    ensures taskDescription.None? ==> db.rows == old(db.rows) && signalled.None?
    ensures taskDescription.Some? && IsAcceptedJson(Some(data), response) && decode(data).Some? ==>
      (db.rows, signalled) == CompleteWithServerItem(old(db.rows), taskDescription.value, decode(data).value)
    ensures taskDescription.Some? && !IsSuccessStatus(response.statusCode) ==>
      db.rows == CompleteWithError(old(db.rows), taskDescription.value, StatusCodeError(response.statusCode)) && signalled.None?
    ensures taskDescription.Some? && IsSuccessStatus(response.statusCode) && ContentType(response) != Some("application/json") ==>
      db.rows == CompleteWithError(old(db.rows), taskDescription.value, StoreAPIError("Unsupported content-type")) && signalled.None?
    ensures taskDescription.Some? && IsAcceptedJson(Some(data), response) && decode(data).None? ==>
      db.rows == CompleteWithError(old(db.rows), taskDescription.value, StoreAPIError("JSON decode fail")) && signalled.None?
  {
    signalled := None;
    if taskDescription.None? {
      return;
    }
    var taskId := taskDescription.value;
    var itemInfo, error := DecodeJsonResponse(Some(data), response, decode);
    if error.Some? {
      db.UploadTaskCompleteWithError(taskId, error.value);
    } else {
      signalled := db.UploadTaskCompleteWithServerItem(taskId, itemInfo.value);
    }
  }

  /**
    `urlSession(_:task:didCompleteWithError:)`: a transport error with a task
    description fails that task with the error's description; a completion
    without error, or without a description, changes nothing.
   */
  method DidCompleteWithError(db: StoreDB, taskDescription: Option<string>, error: Option<string>)
    requires db.Valid()
    modifies db
    ensures db.Valid()
    ensures error.None? || taskDescription.None? ==> db.rows == old(db.rows)
    ensures error.Some? && taskDescription.Some? ==>
      db.rows == CompleteWithError(old(db.rows), taskDescription.value, StoreAPIError(error.value))
  {
    if error.None? || taskDescription.None? {
      return;
    }
    db.UploadTaskCompleteWithError(taskDescription.value, StoreAPIError(error.value));
  }

  /**
    A staged item whose task is answered with an HTTP error ends as a failed
    upload: not started, with the message naming the status code.
   */
  lemma HttpErrorFailsStagedItem(rows: Table, domainIdentifier: string, k: nat, code: int)
    requires StoreDomains.Lookup(domainIdentifier).Some?
    requires Live(rows, k) && IsFirstWithId(rows, k, rows[k].value.id, StoreDomains.Lookup(domainIdentifier).value.id)
    ensures var after := CompleteWithError(rows, UploadTasks.TaskIdFor(domainIdentifier, rows[k].value.id), StatusCodeError(code));
      && UploadStateFromRaw(after[k].value.uploadingState) == Some(ItemUploadState.NotStarted)
      && after[k].value.uploadError == Some("Received '" + SwiftText.IntToDecimal(code) + "' error code")
  {
    StagedTaskReachesItsRow(rows, domainIdentifier, k);
    LocalizedDescriptionIsGiven(StatusCodeError(code).errorDescription);
  }
}
