/**
  One row of the local mirror: the store item the file-provider host sees,
  with its upload and download state machines stored as raw integers.
 */
module StoreItems {
  import opened Wrappers
  import opened StoreAPI

  /** `NSFileProviderItemIdentifier.rootContainer.rawValue`. */
  const RootContainerIdentifier: string := "NSFileProviderRootContainerItemIdentifier"

  datatype ItemDownloadState = NotStarted | Downloading | Downloaded | DeleteLocal {
    function RawValue(): int {
      match this
      case NotStarted => 0
      case Downloading => 1
      case Downloaded => 2
      case DeleteLocal => 3
    }
  }

  datatype ItemUploadState = NotStarted | Uploading | Uploaded {
    function RawValue(): int {
      match this
      case NotStarted => 0
      case Uploading => 1
      case Uploaded => 2
    }
  }

  /** `ItemDownloadState(rawValue:)`. */
  function DownloadStateFromRaw(raw: int): (s: Option<ItemDownloadState>)
    ensures s.Some? <==> 0 <= raw <= 3
    ensures s.Some? ==> s.value.RawValue() == raw
  {
    if raw == 0 then Some(ItemDownloadState.NotStarted)
    else if raw == 1 then Some(ItemDownloadState.Downloading)
    else if raw == 2 then Some(ItemDownloadState.Downloaded)
    else if raw == 3 then Some(ItemDownloadState.DeleteLocal)
    else None
  }

  /** `ItemUploadState(rawValue:)`. */
  function UploadStateFromRaw(raw: int): (s: Option<ItemUploadState>)
    ensures s.Some? <==> 0 <= raw <= 2
    ensures s.Some? ==> s.value.RawValue() == raw
  {
    if raw == 0 then Some(ItemUploadState.NotStarted)
    else if raw == 1 then Some(ItemUploadState.Uploading)
    else if raw == 2 then Some(ItemUploadState.Uploaded)
    else None
  }

  /** Every state is recovered from its raw value. */
  lemma StateRawValuesRoundTrip(d: ItemDownloadState, u: ItemUploadState)
    ensures DownloadStateFromRaw(d.RawValue()) == Some(d)
    ensures UploadStateFromRaw(u.RawValue()) == Some(u)
  {
  }

  datatype Capability = AllowsAddingSubItems | AllowsContentEnumerating | AllowsReading | AllowsDeleting

  /**
    A managed object of the store. `parent` is the parent relationship: the
    slot of the parent object in the store (see StoreQuery.Table). Dates are
    seconds since 1970.
   */
  datatype StoreItem = StoreItem(
    id: string,
    pid: string,
    name: string,
    domain: int,
    cdate: int,
    uti: string,
    mdate: int,
    anchor: int,
    size: int,
    uploadingState: int,
    uploadError: Option<string>,
    downloadingState: int,
    downloadError: Option<string>,
    parent: Option<nat>)
  {
    function ItemIdentifier(): string {
      id
    }

    /** `isDirectory`: the item's type is the folder type, "public.folder". */
    predicate IsDirectory()
      ensures IsDirectory() <==> uti == "public.folder"
    {
      uti == FolderUti
    }

    /** A non-directory is an item that accepts no children. */
    predicate IsNotDirectory()
      ensures IsNotDirectory() <==> AllowsAddingSubItems !in Capabilities()
    {
      !IsDirectory()
    }

    /** What the host may do with the item: directories also accept new children and listing. */
    function Capabilities(): (caps: set<Capability>)
      ensures AllowsReading in caps && AllowsDeleting in caps
      ensures AllowsAddingSubItems in caps <==> IsDirectory()
      ensures AllowsContentEnumerating in caps <==> IsDirectory()
    {
      if IsDirectory() then {AllowsAddingSubItems, AllowsContentEnumerating, AllowsReading, AllowsDeleting}
      else {AllowsReading, AllowsDeleting}
    }

    /** A directory reports its size as its child count; a file reports none. */
    function ChildItemCount(): (count: Option<int>)
      ensures count.Some? <==> AllowsContentEnumerating in Capabilities()
      ensures count.Some? ==> count.value == size
    {
      if IsDirectory() then Some(size) else None
    }

    predicate HasValidStates() {
      UploadStateFromRaw(uploadingState).Some? && DownloadStateFromRaw(downloadingState).Some?
    }

    /** The `uploadState` getter; the source force-unwraps the conversion. */
    function UploadState(): (s: ItemUploadState)
      requires UploadStateFromRaw(uploadingState).Some?
      ensures s.RawValue() == uploadingState
    {
      UploadStateFromRaw(uploadingState).value
    }

    /** The `uploadState` setter: reading back gives the state set, and no other field changes. */
    function WithUploadState(s: ItemUploadState): (item: StoreItem)
      ensures UploadStateFromRaw(item.uploadingState) == Some(s) && item.UploadState() == s
      ensures item.(uploadingState := uploadingState) == this
    {
      this.(uploadingState := s.RawValue())
    }

    /** `isUploading`: the stored raw value decodes to the uploading state. */
    predicate IsUploading()
      ensures IsUploading() <==> UploadStateFromRaw(uploadingState) == Some(ItemUploadState.Uploading)
    {
      uploadingState == ItemUploadState.Uploading.RawValue()
    }

    /** `isUploaded`: the stored raw value decodes to the uploaded state. */
    predicate IsUploaded()
      ensures IsUploaded() <==> UploadStateFromRaw(uploadingState) == Some(ItemUploadState.Uploaded)
    {
      uploadingState == ItemUploadState.Uploaded.RawValue()
    }

    /** The `downloadState` getter; the source force-unwraps the conversion. */
    function DownloadState(): (s: ItemDownloadState)
      requires DownloadStateFromRaw(downloadingState).Some?
      ensures s.RawValue() == downloadingState
    {
      DownloadStateFromRaw(downloadingState).value
    }

    /** The `downloadState` setter: reading back gives the state set, and no other field changes. */
    function WithDownloadState(s: ItemDownloadState): (item: StoreItem)
      ensures DownloadStateFromRaw(item.downloadingState) == Some(s) && item.DownloadState() == s
      ensures item.(downloadingState := downloadingState) == this
    {
      this.(downloadingState := s.RawValue())
    }

    /** `isDownloading`: the stored raw value decodes to the downloading state. */
    predicate IsDownloading()
      ensures IsDownloading() <==> DownloadStateFromRaw(downloadingState) == Some(ItemDownloadState.Downloading)
    {
      downloadingState == ItemDownloadState.Downloading.RawValue()
    }

    /** `isDownloaded`: the stored raw value decodes to the downloaded state. */
    predicate IsDownloaded()
      ensures IsDownloaded() <==> DownloadStateFromRaw(downloadingState) == Some(ItemDownloadState.Downloaded)
    {
      downloadingState == ItemDownloadState.Downloaded.RawValue()
    }

    /** An upload error exists exactly when its text is set, and it reports that text. */
    function UploadingError(): (e: Option<StoreAPIError>)
      ensures e.Some? <==> uploadError.Some?
      ensures e.Some? ==> e.value.LocalizedDescription() == uploadError.value
    {
      if uploadError.Some? then Some(StoreAPIError(uploadError.value)) else None
    }

    /** A download error exists exactly when its text is set, and it reports that text. */
    function DownloadingError(): (e: Option<StoreAPIError>)
      ensures e.Some? <==> downloadError.Some?
      ensures e.Some? ==> e.value.LocalizedDescription() == downloadError.value
    {
      if downloadError.Some? then Some(StoreAPIError(downloadError.value)) else None
    }
  }

  /**
    The directory views of an item agree: its type is the folder type exactly
    when it is not a non-directory, accepts children, can be listed and reports
    a child count.
  */
  lemma DirectoryViewsAgree(item: StoreItem)
    ensures item.IsDirectory() <==> item.uti == FolderUti
    ensures item.IsDirectory() <==> !item.IsNotDirectory()
    ensures item.IsDirectory() <==> AllowsAddingSubItems in item.Capabilities()
    ensures item.IsDirectory() <==> item.ChildItemCount().Some?
  {
  }

  /** The `isUploading`/`isUploaded` flags agree with the state the getter reads. */
  lemma UploadFlagsMatchState(item: StoreItem)
    requires UploadStateFromRaw(item.uploadingState).Some?
    ensures item.IsUploading() <==> item.UploadState() == ItemUploadState.Uploading
    ensures item.IsUploaded() <==> item.UploadState() == ItemUploadState.Uploaded
  {
  }

  /** The `isDownloading`/`isDownloaded` flags agree with the state the getter reads. */
  lemma DownloadFlagsMatchState(item: StoreItem)
    requires DownloadStateFromRaw(item.downloadingState).Some?
    ensures item.IsDownloading() <==> item.DownloadState() == ItemDownloadState.Downloading
    ensures item.IsDownloaded() <==> item.DownloadState() == ItemDownloadState.Downloaded
  {
  }

  /**
    `init(asChildOf:)`: a new object under `parentItem`, which sits in slot
    `parentRef`. It takes the parent's domain and starts with anchor 0, both
    states not started and no errors. The attributes the initialiser leaves
    alone take empty values here; every caller assigns them.
   */
  function ChildOf(parentItem: StoreItem, parentRef: nat): (item: StoreItem)
    ensures item.parent == Some(parentRef) && item.domain == parentItem.domain
    ensures item.anchor == 0
    ensures item.HasValidStates()
    ensures item.UploadState() == ItemUploadState.NotStarted
    ensures item.DownloadState() == ItemDownloadState.NotStarted
    ensures item.uploadError.None? && item.downloadError.None?
  {
    StoreItem(
      id := "", pid := "", name := "", domain := parentItem.domain,
      cdate := 0, uti := "", mdate := 0, anchor := 0, size := 0,
      uploadingState := ItemUploadState.NotStarted.RawValue(), uploadError := None,
      downloadingState := ItemDownloadState.NotStarted.RawValue(), downloadError := None,
      parent := Some(parentRef))
  }
}
