/**
  Background tasks scheduled after staging, and the task identifier
  `"<domain>/<item id>"` that ties a completed task back to its row.
 */
module UploadTasks {
  import opened Wrappers
  import opened SwiftText

  /**
    The request a staged item schedules: a directory to create remotely, or a
    file to upload from its temporary directory (named by the provisional
    identifier) in shared storage.
   */
  datatype BackgroundTask =
    | CreateDirectoryTask(taskId: string, name: string, parentId: string)
    | UploadFileTask(taskId: string, tmpDirectory: string, name: string, parentId: string)

  /** `"\(domainIdentifier)/\(item.id)"`. */
  function TaskIdFor(domainIdentifier: string, itemId: string): (taskId: string)
    ensures |taskId| == |domainIdentifier| + 1 + |itemId|
    ensures taskId[|domainIdentifier|] == '/'
    ensures taskId[..|domainIdentifier|] == domainIdentifier && taskId[|domainIdentifier| + 1..] == itemId
  {
    domainIdentifier + "/" + itemId
  }

  /**
    `taskId.split(separator: "/", maxSplits: 1, omittingEmptySubsequences: false)`
    with the guard on two components: the domain before the first '/', the
    item identifier (which may itself hold '/') after it, or nothing when the
    identifier holds no '/'.
   */
  function ParseTaskId(taskId: string): (r: Option<(string, string)>)
    ensures r.None? <==> '/' !in taskId
    ensures r.Some? ==> '/' !in r.value.0 && r.value.0 + "/" + r.value.1 == taskId
  {
    var parts := SplitAtFirst(taskId, '/');
    if |parts| == 2 then Some((parts[0], parts[1])) else None
  }

  /** A task identifier built from a domain identifier without '/' parses back to its two parts. */
  lemma TaskIdRoundTrip(domainIdentifier: string, itemId: string)
    requires '/' !in domainIdentifier
    ensures ParseTaskId(TaskIdFor(domainIdentifier, itemId)) == Some((domainIdentifier, itemId))
  {
    SplitAtFirstOfJoin(domainIdentifier, itemId, '/');
  }
}
