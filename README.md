# StorageClient sync engine, modelled in Dafny

This project models the local-mirror engine of the StorageClient file provider.
The engine keeps a Core Data store of items in two domains ("files" and
"photos"). It applies batches from the remote change feed to that store and
reconciles provisional rows by name. It stages new directories and imported
files before the server knows them, and it settles their upload state when the
background task finishes. It also serves the file-provider host: pages of
children, change batches and sync anchors.

Modules and what they model:

- `Wrappers`: `Option` and `Result`.
- `SwiftText`: the Swift string operations the engine relies on:
  - `String(Int)`;
  - `split(maxSplits: 1)`;
  - `lowercased()`;
  - a total order standing in for `localizedStandardCompare`.
- `StoreAPI`: the following parts of `StoreAPI.swift`:
  - `StoreAPIError`;
  - `FileItemInfo`, with its identifier and folder detection;
  - `DirectoryChanges`;
  - the validation chain of `decodeJsonResponse`.
- `StoreItems`: the state enums and the `StoreItem` row with its computed properties. `init(asChildOf:)` is `ChildOf`.
- `StoreDomains`: the fixed domain table, its lookup and `register`.
- `StoreQuery`: the store as a table of slots, plus the fetches:
  - by identifier;
  - by name under a parent;
  - children of a directory, sorted and with offset and limit;
  - the stored anchor.
- `StoreSync`: `syncChangesForItem` as specification functions (one function per loop), and the lemmas about a batch.
- `UploadTasks`: the `"<domain>/<item id>"` task identifier and the scheduled tasks.
- `StoreStaging`: `createDirectory` and `importFile` as specification functions.
- `StoreUploads`: the two `uploadTask(withId:…)` handlers as specification functions.
- `StoreBootstrap`: the root-row bootstrap of the store's singleton, both as written and as intended (see Findings).
- `StoreDatabase`: `class StoreDB`. It holds the rows, and its methods implement the store's operations with the source's loops. Each method is proved equal to its specification function.
- `StoreBackgroundSession`: the URL-session delegate callbacks that route results to the store.
- `FileProviderEnumeration`: the page and anchor tokens, plus `class FileProviderEnumerator` with `enumerateItems`, `enumerateChanges` and `currentSyncAnchor`.

The store is a sequence of slots, `seq<Option<StoreItem>>`:

- A slot's index is a managed object's identity.
- A parent relationship names the parent's slot.
- Deleting an object empties its slot.
- One `performInContextAndWait` block is one update of the whole sequence.

External pieces are parameters rather than code:

- The remote change feed is a function from (identifier, anchor, count) to a batch or an error.
- MIME-to-UTI conversion is a function.
- The JSON decoder is a function.
- The UUID of a new row and the current date are parameters.
- Three answers from the file system are a value `ImportSource`: whether security-scoped access is granted, the resource values, and whether the coordinated move succeeds.

Some behaviour of the code differs from what one would expect of a mirror that keeps sibling names unique, one root per domain and monotone anchors. The model keeps the code's behaviour in each case:

- `createDirectory` does not check for a sibling with the same name. Only `importFile` does, and its check is case-sensitive, although the comment at Storage/StoreDB.swift:275 asks for a case-insensitive one.
- A page token that does not decode falls back to sorting by creation date for the host's initial date page, and to sorting by name for any other page.
- A reconciled provisional row is not deleted. As the comment at Storage/StoreDB.swift:177-178 describes, the row found by name takes the remote identity in place, and its old identifier is reported as deleted.
- The code as written does not keep exactly one root row per domain (see Findings).
- A directory's stored anchor is not monotone. The guard compares the remote anchor with the caller's token, not with the stored anchor. From a stale token, a batch whose anchor lies below the stored one is applied and moves the stored anchor back (`StoreSync.StaleTokenMovesAnchorBack`). Started from the stored anchor, an applied batch always advances it (`StoreSync.SyncFromStoredAnchorAdvances`).

## Model

| member | source | states |
|---|---|---|
| `StoreAPI.LocalizedDescriptionIsGiven` | Storage/StoreAPI.swift:12-21 | an error's localized description is the description it was built with |
| `StoreAPI.IdentifierIsInjective` | Storage/StoreAPI.swift:32-34 | two remote records have the same local identifier exactly when their numeric ids are equal |
| `StoreAPI.FileItemInfo.Uti` | Storage/StoreAPI.swift:36-49 | a content type spelling "folder" in any letter case gives the folder type; any other goes through the MIME conversion |
| `StoreAPI.FileItemInfo.IsDirectory` | Storage/StoreAPI.swift:59-61 | a remote record whose content type spells "folder" in any letter case is a directory; any other is one exactly when the MIME conversion answers the folder type |
| `StoreAPI.DirectoryIffFolderContentType` | Storage/StoreAPI.swift:36-61 | a content type spelling "folder" in any letter case makes a directory; when the MIME conversion never yields the folder type, nothing else does |
| `StoreAPI.DecodeJsonResponse` | Storage/StoreAPI.swift:95-119 | exactly one of result and error is set. The checks run in order: a non-2xx status gives the status-code error, then a missing body gives "Received empty data", then a Content-Type other than exactly "application/json" gives "Unsupported content-type". A result exists exactly when every check passes and the decoder succeeds, and it is the decoded value; otherwise the error is "JSON decode fail" |
| `StoreAPI.StatusCodeErrorNamesCode` | Storage/StoreAPI.swift:101-104 | the status-code error names its code: two codes give the same error exactly when they are equal |
| `SwiftText.NatToDecimal` | Storage/StoreAPI.swift:32-34 | the decimal rendering of a natural number is a non-empty string of digits |
| `SwiftText.IntToDecimal` | Storage/StoreAPI.swift:32-34 | the rendering of an integer starts with '-' exactly when the integer is negative, and the rest is digits |
| `SwiftText.IntToDecimalInjective` | Storage/StoreAPI.swift:32-34 | two integers render to the same text exactly when they are equal |
| `SwiftText.IntToDecimalIsNotAWord` | Storage/StoreDB.swift:55 | no integer renders to a word that begins with a letter (the reason the bootstrap fetch as written never matches) |
| `SwiftText.SplitAtFirst` | Storage/StoreDB.swift:355-356 | the split has two parts exactly when the separator occurs. The first part is free of the separator, and the parts rejoined with it give the input back; one part is the whole input |
| `SwiftText.SplitAtFirstOfJoin` | Storage/StoreDB.swift:355-361 | joining two strings with a separator absent from the first, then splitting, gives the two strings back |
| `SwiftText.Lowercased` | Storage/StoreAPI.swift:37 | lower-casing keeps the length and lower-cases each ASCII letter in place |
| `SwiftText.LowercasedIsFolderIff` | Storage/StoreAPI.swift:37 | a string lower-cases to "folder" exactly when it spells "folder" in some mix of letter cases |
| `SwiftText.StrLeTotal` | Storage/StoreDB.swift:148 | the stand-in name order is total |
| `SwiftText.StrLeTransitive` | Storage/StoreDB.swift:148 | the stand-in name order is transitive |
| `StoreItems.DownloadStateFromRaw` | Storage/StoreItem+CoreDataClass.swift:15-20 | a raw download state converts exactly when it is in 0..3, to the state with that raw value |
| `StoreItems.UploadStateFromRaw` | Storage/StoreItem+CoreDataClass.swift:22-26 | a raw upload state converts exactly when it is in 0..2, to the state with that raw value |
| `StoreItems.StateRawValuesRoundTrip` | Storage/StoreItem+CoreDataClass.swift:15-26 | every state is recovered from its raw value |
| `StoreItems.StoreItem.IsNotDirectory` | Storage/StoreItem+CoreDataClass.swift:91-97 | an item is not a directory exactly when it may not be given children |
| `StoreItems.StoreItem.IsDirectory` | Storage/StoreItem+CoreDataClass.swift:91-93 | an item is a directory exactly when its type is the folder type "public.folder" |
| `StoreItems.DirectoryViewsAgree` | Storage/StoreItem+CoreDataClass.swift:77-97 | `isDirectory` holds exactly when the type is the folder type; it is the negation of `isNotDirectory`, and it holds exactly when children may be added and exactly when a child count exists |
| `StoreItems.StoreItem.Capabilities` | Storage/StoreItem+CoreDataClass.swift:77-82 | every item may be read and deleted; adding children and content enumeration are allowed exactly for directories |
| `StoreItems.StoreItem.ChildItemCount` | Storage/StoreItem+CoreDataClass.swift:84-89 | a child count exists exactly for items whose content may be enumerated, and it is the size |
| `StoreItems.StoreItem.UploadState` | Storage/StoreItem+CoreDataClass.swift:111-114 | the getter returns the state whose raw value is stored |
| `StoreItems.StoreItem.DownloadState` | Storage/StoreItem+CoreDataClass.swift:135-138 | the getter returns the state whose raw value is stored |
| `StoreItems.StoreItem.WithUploadState` | Storage/StoreItem+CoreDataClass.swift:111-118 | after setting an upload state the getter reads that state back, and no other attribute changes |
| `StoreItems.StoreItem.WithDownloadState` | Storage/StoreItem+CoreDataClass.swift:135-142 | after setting a download state the getter reads that state back, and no other attribute changes |
| `StoreItems.StoreItem.UploadingError` | Storage/StoreItem+CoreDataClass.swift:128-133 | the upload error exists exactly when its text is set, and it reports that text |
| `StoreItems.StoreItem.DownloadingError` | Storage/StoreItem+CoreDataClass.swift:152-157 | the download error exists exactly when its text is set, and it reports that text |
| `StoreItems.StoreItem.IsUploading` | Storage/StoreItem+CoreDataClass.swift:120-122 | `isUploading` holds exactly when the stored raw value decodes to the uploading state |
| `StoreItems.StoreItem.IsUploaded` | Storage/StoreItem+CoreDataClass.swift:124-126 | `isUploaded` holds exactly when the stored raw value decodes to the uploaded state |
| `StoreItems.StoreItem.IsDownloading` | Storage/StoreItem+CoreDataClass.swift:144-146 | `isDownloading` holds exactly when the stored raw value decodes to the downloading state |
| `StoreItems.StoreItem.IsDownloaded` | Storage/StoreItem+CoreDataClass.swift:148-150 | `isDownloaded` holds exactly when the stored raw value decodes to the downloaded state |
| `StoreItems.UploadFlagsMatchState` | Storage/StoreItem+CoreDataClass.swift:111-126 | `isUploading` and `isUploaded` hold exactly for the uploading and the uploaded state |
| `StoreItems.DownloadFlagsMatchState` | Storage/StoreItem+CoreDataClass.swift:135-150 | `isDownloading` and `isDownloaded` hold exactly for the downloading and the downloaded state |
| `StoreItems.ChildOf` | Storage/StoreItem+CoreDataClass.swift:53-62 | a new child points to its parent and takes the parent's domain, with anchor 0, both states not started and no errors |
| `StoreDomains.Lookup` | Storage/StoreDomains.swift:65-67 | only "files" and "photos" are found, with ids 1 and 2; a found domain carries the identifier looked up; anything else gives nothing |
| `StoreDomains.TableIsConsistent` | Storage/StoreDomains.swift:45-58 | each key of the table is its domain's identifier, and distinct keys have distinct ids |
| `StoreDomains.EntriesAreTheTable` | Storage/StoreDomains.swift:69-71 | iterating yields exactly the table's entries, each key once |
| `StoreDomains.DoesExist` | Storage/StoreDomains.swift:76-78 | the `reduce` over the host's domains is true exactly when the key is among their identifiers |
| `StoreDomains.Register` | Storage/StoreDomains.swift:73-85 | the domains added are exactly the configured ones whose identifier the host lacks, each once |
| `StoreQuery.FindId` | Storage/StoreDB.swift:109-115 | the fetch by identifier and domain returns the first live row with both, or nothing when no live row has them |
| `StoreQuery.FindIdIsFirst` | Storage/StoreDB.swift:111-115 | the first live row with an identifier in a domain is what the fetch returns |
| `StoreQuery.ItemWithIdentifier` | Storage/StoreDB.swift:104-116 | an unknown domain gives nothing; otherwise the fetch by identifier under the domain's integer id |
| `StoreQuery.LookupItem` | Storage/StoreDB.swift:118-120 | the row is found exactly when the lookup finds a slot; it is that slot's row, and it carries the identifier |
| `StoreQuery.SyncAnchorForItem` | Storage/StoreDB.swift:134-139 | the stored anchor of the item, or 0 when the item is not found |
| `StoreQuery.FindChildNamed` | Storage/StoreDB.swift:122-132 | the fetch by name under a parent returns the first live child with exactly that name, or nothing when there is none |
| `StoreQuery.FindChildNamedIsFirst` | Storage/StoreDB.swift:122-132 | the first live child with a name is what the fetch returns |
| `StoreQuery.SameShapeKeepsNamesUnique` | Storage/StoreDB.swift:176-203 | changes that keep every slot's object, parent and name keep the sibling names unique |
| `StoreQuery.ParentItemIdentifier` | Storage/StoreItem+CoreDataClass.swift:70-75 | the parent's identifier when the parent relationship holds a live object, otherwise the root container identifier |
| `StoreQuery.ChildrenUpTo` | Storage/StoreDB.swift:146-147 | one entry per live slot whose parent has the identifier and the domain, so each child is listed once; every entry is such a slot's object, and every such object is listed |
| `StoreQuery.KeyLeTotal` | Storage/StoreDB.swift:148 | the sort-key order is total for both keys |
| `StoreQuery.KeyLeTransitive` | Storage/StoreDB.swift:148 | the sort-key order is transitive for both keys |
| `StoreQuery.InsertSorted` | Storage/StoreDB.swift:148 | inserting into a sorted sequence keeps it sorted and adds exactly the one element |
| `StoreQuery.SortItems` | Storage/StoreDB.swift:148 | the output is sorted by the key and is a permutation of the input |
| `StoreQuery.Listing` | Storage/StoreDB.swift:141-148 | an unknown domain lists nothing; otherwise the list is sorted by the key and is a permutation of the item's children |
| `StoreQuery.PageEnd` | Storage/StoreDB.swift:149-151 | a page holds at most `count` rows when `count` is positive, and a limit of 0 means no limit; a page ends before the listing's end only because it is full |
| `StoreQuery.Enumerate` | Storage/StoreDB.swift:141-156 | an unknown domain gives no rows. Otherwise it gives at most `count` rows in sort order: the slice of the sorted listing from `offset`, and no rows when `offset` is at or past its end |
| `StoreQuery.EnumeratedAreChildren` | Storage/StoreDB.swift:146-147 | every enumerated row is a live child of the enumerated item in a known domain |
| `StoreSync.Absorb` | Storage/StoreDB.swift:186-194 | the row takes the record's identifier, the parent identifier, and the record's name, size, type and dates. Its anchor becomes 0 and it is uploaded; its parent, domain, download state and errors are kept |
| `StoreSync.ApplyNewItem` | Storage/StoreDB.swift:176-195 | one pass of the loop never removes slots |
| `StoreSync.ApplyNewItemEffect` | Storage/StoreDB.swift:176-195 | case one: the parent has a child with the record's name. The first such child is the only slot that changes, and its old identifier is the one reported. Case two: it has none. Exactly one child, in the parent's domain, is appended, and nothing is reported. In both cases no slot changes object, parent or name, and the name afterwards finds the child that carries the record |
| `StoreSync.ApplyNewItemKeepsInvariants` | Storage/StoreDB.swift:176-185 | one pass keeps the store well formed and gives no parent two children with one name |
| `StoreSync.ApplyNew` | Storage/StoreDB.swift:176-195 | the loop over new records never removes slots |
| `StoreSync.ApplyNewStep` | Storage/StoreDB.swift:176-195 | the loop's next pass extends the prefix by one record |
| `StoreSync.ApplyNewEffect` | Storage/StoreDB.swift:176-195 | the loop adds at most one row and reports at most one identifier per record. No slot changes object, parent or name, and rows that are not children of the parent are untouched. Added rows are children of the parent in its domain, and every record's name finds a child afterwards |
| `StoreSync.ApplyNewKeepsInvariants` | Storage/StoreDB.swift:176-195 | the loop keeps the store well formed and gives no parent two children with one name |
| `StoreSync.ChildNamedSurvives` | Storage/StoreDB.swift:176-185 | a name that has a child keeps one while every slot keeps its object, parent and name |
| `StoreSync.ApplyEraseId` | Storage/StoreDB.swift:196-201 | an erased identifier with no row changes nothing; otherwise exactly the first row with it is deleted |
| `StoreSync.ApplyErase` | Storage/StoreDB.swift:196-201 | erasing keeps every slot or empties it |
| `StoreSync.ApplyEraseDeletesOnlyErased` | Storage/StoreDB.swift:196-201 | a slot erasing changes is emptied, and its row carried one of the erased identifiers |
| `StoreSync.ErasedIdentifiersAreGone` | Storage/StoreDB.swift:196-201 | when each erased identifier names at most one row, no row with an erased identifier remains |
| `StoreSync.EmptyingKeepsInvariants` | Storage/StoreDB.swift:196-201 | deleting rows keeps the store well formed and the sibling names unique |
| `StoreSync.SetParentAnchor` | Storage/StoreDB.swift:202-203 | a live parent gets the batch's anchor and size and no other slot changes; a missing parent changes nothing |
| `StoreSync.ApplyBatch` | Storage/StoreDB.swift:172-175 | when the parent row is not found, the transaction changes nothing and supersedes nothing |
| `StoreSync.ApplyBatchKeepsWellFormed` | Storage/StoreDB.swift:172-204 | a batch's transaction keeps the store well formed |
| `StoreSync.ApplyBatchKeepsNamesUnique` | Storage/StoreDB.swift:172-204 | a batch's transaction gives no parent two children with one name |
| `StoreSync.ResolveNew` | Storage/StoreDB.swift:206-212 | the handler's items are, in feed order, the new records whose identifier resolves after the commit; when every one resolves, all of them are reported |
| `StoreSync.ResolveNewFollowsFeed` | Storage/StoreDB.swift:206-212 | each reported item is the row of a distinct new record, in feed order, and every record that resolves after the commit is reported |
| `StoreSync.ErasedIdentifiers` | Storage/StoreDB.swift:214-216 | the erase list rendered element by element as decimal identifiers |
| `StoreSync.SyncChanges` | Storage/StoreDB.swift:158-219 | case one: the call fails or the anchor does not strictly advance. Nothing changes, and the handler gets no items, no deletions, the caller's anchor and no more. Case two: the batch's transaction runs. The handler gets the items that resolve afterwards, the superseded identifiers followed by the erased ones, the strictly greater remote anchor and `remain > 0`. The anchor returned is never below the one given, and the store stays well formed |
| `StoreSync.SyncSetsParentAnchorAndSize` | Storage/StoreDB.swift:202-203 | after an applied batch that does not erase the parent, the parent row is still live with its identity, and it holds the batch's anchor and size. Rows older than the parent are kept or deleted |
| `StoreSync.SyncFromStoredAnchorAdvances` | Storage/StoreDB.swift:161-167 | started from the parent's stored anchor, an applied batch that does not erase the parent leaves a strictly greater stored anchor |
| `StoreSync.StaleTokenMovesAnchorBack` | Storage/StoreDB.swift:161-167 | started from a token below the stored anchor, a batch whose anchor lies between the two is applied and moves the stored anchor back |
| `StoreSync.SecondSyncIsEmpty` | Storage/StoreDB.swift:161-167 | repeating the call from the returned anchor, with nothing newer on the remote, changes nothing and reports nothing |
| `StoreSync.SyncWithoutParentStillReportsBatch` | Storage/StoreDB.swift:172-218 | a batch whose parent row is missing applies nothing, yet the handler gets the erased identifiers and the remote anchor |
| `StoreSync.SyncKeepsChildNamesUnique` | Storage/StoreDB.swift:176-185 | a sync never gives a parent two children with one name |
| `StoreSync.ProvisionalRowIsAbsorbed` | Storage/StoreDB.swift:177-185 | the provisional child named N absorbs the remote record named N. Its identifier is reported as deleted, and it stays the only child named N, now carrying the remote identity |
| `UploadTasks.TaskIdFor` | Storage/StoreDB.swift:250 | the task identifier is the domain identifier, a '/', and the item identifier |
| `UploadTasks.ParseTaskId` | Storage/StoreDB.swift:355-361 | no parts exactly when the identifier holds no '/'. Otherwise the domain contains no '/', and domain, '/' and item identifier give the task identifier back |
| `UploadTasks.TaskIdRoundTrip` | Storage/StoreDB.swift:355-361 | a task identifier built from a domain without '/' parses back to its domain and item identifier |
| `StoreStaging.DirectoryParent` | Storage/StoreDB.swift:224 | a parent qualifies exactly when its identifier is found in the domain and it is a directory |
| `StoreStaging.InsertChild` | Storage/StoreDB.swift:239 | exactly one row is appended, the parent's size grows by one, and no other slot changes |
| `StoreStaging.Refetch` | Storage/StoreDB.swift:242-245 | success exactly when the temporary identifier is found, with that row; otherwise `noSuchItem` |
| `StoreStaging.DirectoryRow` | Storage/StoreDB.swift:227-237 | the provisional folder has the temporary identifier, the parent identifier, the name and the parent's domain. Its size and anchor are 0 and both dates are now; it is downloaded and uploading, with no errors |
| `StoreStaging.CreateDirectory` | Storage/StoreDB.swift:221-247 | without a directory parent nothing changes. Otherwise the folder row is inserted and the parent's size grows by one, with no name check. The result fails with `noSuchItem` exactly when the temporary identifier is not found. On success it is that row, with a directory task under `"<domain>/<id>"` |
| `StoreStaging.FileRow` | Storage/StoreDB.swift:311-320 | the provisional file takes the file's name, type, dates and size, the temporary identifier and the parent's domain; it is not downloaded and it is uploading |
| `StoreStaging.ImportFile` | Storage/StoreDB.swift:262-331 | a failed first guard gives `noSuchItem` with nothing changed. A child with exactly the file's name gives a collision with that child, nothing changed. A failed move gives `noSuchItem`, nothing changed. Otherwise the file row is inserted and the parent's size grows; the re-fetch decides success, which schedules the upload task |
| `StoreStaging.RefetchFindsInserted` | Storage/StoreDB.swift:325-329 | with a fresh temporary identifier, the re-fetch returns the inserted row |
| `StoreStaging.CreateDirectoryOutcome` | Storage/StoreDB.swift:221-247 | with a fresh temporary identifier, `createDirectory` succeeds exactly when the parent is a directory, and the handler gets the new folder row |
| `StoreStaging.ImportFileOutcome` | Storage/StoreDB.swift:262-331 | with a fresh temporary identifier, `importFile` succeeds exactly when the guard holds, no child has the name and the move succeeded. The handler then gets the new uploading row; a failure leaves no findable row |
| `StoreStaging.ParentDomainMatches` | Storage/StoreDB.swift:224 | the parent found in a domain belongs to that domain |
| `StoreStaging.ImportKeepsChildNamesUnique` | Storage/StoreDB.swift:275-279 | an import never gives a parent two children with one name |
| `StoreStaging.StagingKeepsWellFormed` | Storage/StoreDB.swift:221-331 | staging keeps the store well formed |
| `StoreStaging.CreateDirectoryAllowsDuplicateName` | Storage/StoreDB.swift:223-240 | staging a directory under a name a sibling already has succeeds and leaves two children with that name |
| `StoreUploads.TaskRow` | Storage/StoreDB.swift:355-366 | a task identifier without '/', an unknown domain or an unknown row designates nothing; otherwise the first row with the item identifier in that domain |
| `StoreUploads.FailedUpload` | Storage/StoreDB.swift:367-368 | a failed item's upload is not started and its error reports the given error; nothing else changes |
| `StoreUploads.CompleteWithError` | Storage/StoreDB.swift:354-373 | the designated row becomes a failed upload and no other slot changes; an unresolved task identifier changes nothing |
| `StoreUploads.CompletedUpload` | Storage/StoreDB.swift:389-393 | a completed item is uploaded, has no error and is marked for local deletion; nothing else changes |
| `StoreUploads.CompleteWithServerItem` | Storage/StoreDB.swift:375-420 | case one: the designated row is found and its parent is live. The row becomes a completed upload, no other slot changes, and the parent's identifier is signalled. Case two: otherwise nothing changes and nothing is signalled |
| `StoreUploads.StagedTaskReachesItsRow` | Storage/StoreDB.swift:354-366 | the task identifier built when a row is staged leads its completion back to that row |
| `StoreUploads.CompletionKeepsShape` | Storage/StoreDB.swift:354-395 | either completion keeps the store well formed and the sibling names unique |
| `StoreUploads.FailureAfterCompletion` | Storage/StoreDB.swift:354-395 | a failure reported after a success leaves the row not started and still marked for local deletion |
| `StoreBootstrap.RootRow` | Storage/StoreDB.swift:60-71 | the root row has the root container identifier, the domain's id and display name and an empty parent identifier. It is a directory of size 0 with anchor 0 and dates at 0, downloaded and uploaded, with no parent and no errors |
| `StoreBootstrap.MatchesRootAsWritten` | Storage/StoreDB.swift:55 | the fetch as written matches only a root row whose domain's decimal text equals the domain's string identifier, which then starts with a digit or '-' |
| `StoreBootstrap.EnsureRootAsWritten` | Storage/StoreDB.swift:54-72 | one domain's step as written keeps the stored rows and appends at most that domain's root row |
| `StoreBootstrap.BootstrapAsWritten` | Storage/StoreDB.swift:52-73 | the loop as written keeps the stored rows and appends at most one row per domain, each the root row of a configured domain |
| `StoreBootstrap.RootFetchAsWrittenNeverMatches` | Storage/StoreDB.swift:55 | the fetch as written, which compares the domain's string identifier with the integer domain, matches no row |
| `StoreBootstrap.BootstrapAsWrittenAlwaysAppends` | Storage/StoreDB.swift:52-72 | as written, every launch appends one fresh root row per domain, whatever the store holds |
| `StoreBootstrap.RelaunchDuplicatesRoot` | Storage/StoreDB.swift:52-72 | as written, two launches add four rows and leave two root rows in the "files" domain |
| `StoreBootstrap.EnsureRoot` | Storage/StoreDB.swift:54-72 | a domain's root row is appended only when its fetch finds none, and that fetch then succeeds |
| `StoreBootstrap.Bootstrap` | Storage/StoreDB.swift:52-72 | the bootstrap only appends, at most one row per domain. Afterwards every domain's root fetch succeeds, and a well-formed store stays well formed |
| `StoreBootstrap.FoundIdSurvivesGrowth` | Storage/StoreDB.swift:52-72 | a row that is found is still found after rows are appended |
| `StoreBootstrap.BootstrapWithRootsIsIdentity` | Storage/StoreDB.swift:52-72 | when every domain already has its root, the bootstrap changes nothing |
| `StoreBootstrap.BootstrapIsIdempotent` | Storage/StoreDB.swift:52-72 | launching twice gives the same store as launching once |
| `StoreBootstrap.BootstrapProvidesRoots` | Storage/StoreDB.swift:52-72 | after the bootstrap, each configured domain's root container identifier resolves |
| `StoreBootstrap.BootstrapKeepsRootsUnique` | Storage/StoreDB.swift:52-72 | a store with at most one root per domain keeps that through the bootstrap |
| `StoreDatabase.StoreDB.Open` | Storage/StoreDB.swift:48-76 | opening the store runs the corrected bootstrap of the Findings row over the persisted rows, and a well-formed store is valid |
| `StoreDatabase.StoreDB.SyncChangesForItem` | Storage/StoreDB.swift:158-219 | the new rows and the four values handed to the handler are those `SyncChanges` specifies, and the store stays valid |
| `StoreDatabase.StoreDB.ReconcileNewItems` | Storage/StoreDB.swift:176-195 | the loop over new records leaves the rows that `ApplyNew` specifies and returns the superseded identifiers |
| `StoreDatabase.StoreDB.EraseItems` | Storage/StoreDB.swift:196-201 | the loop over erased identifiers leaves the rows `ApplyErase` specifies |
| `StoreDatabase.StoreDB.CreateDirectory` | Storage/StoreDB.swift:221-247 | new rows and result as `StoreStaging.CreateDirectory` specifies, store kept valid |
| `StoreDatabase.StoreDB.ImportFile` | Storage/StoreDB.swift:262-331 | new rows and result as `StoreStaging.ImportFile` specifies, store kept valid |
| `StoreDatabase.StoreDB.UploadTaskCompleteWithError` | Storage/StoreDB.swift:354-373 | new rows as `CompleteWithError` specifies, store kept valid |
| `StoreDatabase.StoreDB.UploadTaskCompleteWithServerItem` | Storage/StoreDB.swift:375-420 | new rows and signalled enumerator as `CompleteWithServerItem` specifies, store kept valid |
| `StoreBackgroundSession.DidReceiveData` | Storage/StoreAPI.swift:262-273 | no task description changes nothing. A decoded record goes to the success completion with the same task identifier. A status, content-type or decoding error goes to the failure completion with that error |
| `StoreBackgroundSession.DidCompleteWithError` | Storage/StoreAPI.swift:284-293 | a transport error with a task description fails that task with the error's text; otherwise nothing changes |
| `StoreBackgroundSession.HttpErrorFailsStagedItem` | Storage/StoreAPI.swift:262-273 | a staged item whose task is answered with an HTTP error ends not started, its error naming the status code |
| `FileProviderEnumeration.DecodePage` | StorageFileProvider/FileProviderEnumerator.swift:52-63 | a decodable token is used as it is. Otherwise the offset is 0 and ascending is false, and the sort is by creation date exactly for the initial date page, by name for anything else |
| `FileProviderEnumeration.ListPage` | StorageFileProvider/FileProviderEnumerator.swift:65-91 | a page lists up to 128 children from its offset in its sort order. There is a next page exactly when the page is full, and its token keeps the sort key and moves the offset by the 128 rows returned |
| `FileProviderEnumeration.PageEvents` | StorageFileProvider/FileProviderEnumerator.swift:72-91 | the items are reported once exactly when there are some, and the only other call, the last, finishes with the next page or none |
| `FileProviderEnumeration.FollowPages` | StorageFileProvider/FileProviderEnumerator.swift:76-91 | following the next-page tokens from an offset reports the sorted listing from that offset to its end |
| `FileProviderEnumeration.PagingReportsWholeListing` | StorageFileProvider/FileProviderEnumerator.swift:52-91 | from either initial page, the pages together report every child once, sorted by the page's key |
| `FileProviderEnumeration.DecodeAnchor` | StorageFileProvider/FileProviderEnumerator.swift:106-111 | a decodable anchor token gives its anchor; any other gives 0 |
| `FileProviderEnumeration.ChangeEvents` | StorageFileProvider/FileProviderEnumerator.swift:113-125 | deletions are reported exactly when there are some, as the first call; updates are reported exactly when there are some, as the call just before the last. The last call finishes at the returned anchor, with `moreComing` as returned, and there are no other calls |
| `FileProviderEnumeration.ChangesFinishAtOrAfterAnchor` | StorageFileProvider/FileProviderEnumerator.swift:106-125 | a change enumeration never finishes behind its starting anchor. It moves ahead exactly when a batch applies, and then announces more exactly when the remote has more; otherwise its only call is the finish at the same anchor |
| `FileProviderEnumeration.CurrentAnchorMatchesFinishedChanges` | StorageFileProvider/FileProviderEnumerator.swift:130-136 | after an applied batch that does not erase the container, the current sync anchor is the one the change enumeration finished with |
| `FileProviderEnumeration.FileProviderEnumerator.constructor` | StorageFileProvider/FileProviderEnumerator.swift:28-32 | the enumerator keeps the container identifier and the domain it is given |
| `FileProviderEnumeration.FileProviderEnumerator.EnumerateItems` | StorageFileProvider/FileProviderEnumerator.swift:38-92 | the observer calls are those of the page the token decodes to |
| `FileProviderEnumeration.FileProviderEnumerator.EnumerateChanges` | StorageFileProvider/FileProviderEnumerator.swift:94-127 | one sync batch of 3 from the token's anchor. The store becomes what the sync specifies, and the observer calls are those for its result |
| `FileProviderEnumeration.FileProviderEnumerator.CurrentSyncAnchor` | StorageFileProvider/FileProviderEnumerator.swift:130-136 | the token carries the container's stored anchor, and 0 when the container is not found |

## Left out

- The network, `URLSession` and request construction. The remote change feed is a function parameter and is never called for real, so every remote answer is possible.
- `DispatchQueue` hand-off, task registration with the file-provider manager and `resume`. A staged item's task is returned as a value.
- File coordination, security-scoped access and the move into the temporary directory in `importFile`. Each is reduced to a flag of `ImportSource`. Removing temporary files after an upload is not modelled.
- Core Data internals:
  - container setup, merge policies and save errors;
  - `fatalError` when a fetch throws.
  
  Each `performInContextAndWait` block is one atomic update.
- The cascade or nullify rules of the data model when a parent is deleted. A child whose parent slot is empty behaves as though the relationship were nullified.
- Fixed-width integers. Sizes, anchors and ids are unbounded integers, so the model misses the overflow of `size += 1` and of `offset += count`.
- The force-unwraps of optional resource values in `importFile` (`isDirectory!`, `name!`, `typeIdentifier!`, `creationDate!`, `contentModificationDate!`, `totalFileSize!`). `ImportSource` holds every value, so the traps on a missing one are not modelled.
- The domain attribute's `Int16` width. Domain ids are the small constants 1 and 2.
- MIME-to-UTI conversion: only the "folder" branch is modelled; the rest is a function parameter.
- JSON and property-list codecs. A page or anchor token is a datatype value that either decodes to its data or does not, so the round trip of the encoders is taken as given.
- `localizedStandardCompare`. For the name key it is replaced by code-point order, and for the creation-date key the `cdate` attribute is compared as an integer number of seconds rather than through that selector. Of either order only totality and transitivity are used. Ties between equal keys come in insertion order here, where the source promises no order. Each page is a separate fetch in the source, so `FileProviderEnumeration.PagingReportsWholeListing` (every child once) relies on every fetch putting equal keys in the same order, which the source does not promise.
- `lowercased()`: only the ASCII letters are case-folded.
- Date values: they are integer seconds, and the creation moment of `createDirectory` is a parameter.
- Dictionary order: the iteration order of the domain table is fixed as "files", then "photos".
- The optional file-provider manager is assumed present when the success completion signals the parent's enumerator.
- StoreBackgroundSession.DidReceiveData: the force cast `dataTask.response as! HTTPURLResponse` is not modelled. The response is a parameter that is always present, so the trap when a task has no HTTP response is not captured.
- `downloadFileForItem` (it has an empty body) and the download-task delegate callback, which only logs.
- `invalidate()` of the enumerator, which is empty.
- Managed objects are updated in place in the source. In the model a row is a value replaced in its slot, and the store's slots stand for object identity.
- Negative page offsets: the offset is a natural number.
- Fetch order: an unsorted Core Data fetch promises no order. Here it returns matches in slot order, so "the first result" is the lowest matching slot.
- StoreDatabase.StoreDB.Open: this constructor runs the corrected bootstrap, which appends a root row only for a domain that has none. The source as written appends a root row for every domain on every open (see Findings and `StoreBootstrap.BootstrapAsWritten`).
- StoreQuery.Enumerate: the page-token field `ascending` is carried but has no effect, as in the source, where the fetch always sorts ascending.
- StoreQuery.Listing: this contract states a permutation of the children, not which of several rows with equal keys comes first.
- StoreAPI.DirectoryIffFolderContentType: this contract states the converse only for converters that never answer the folder type, because the real conversion is not modelled.
- StoreItems.StoreItem.UploadState and StoreItems.StoreItem.DownloadState: these getters require a raw value in range, where the source force-unwraps and would trap. `StoreQuery.WellFormed` keeps every stored row in range.

## Findings

| source | as written | input that shows it | evidently intended | confidence | as-written member | corrected member |
|---|---|---|---|---|---|---|
| Storage/StoreDB.swift:55 | the root fetch binds `domain.identifier` (the string "files" or "photos") against the integer attribute `domain`. The root row is therefore never found, and a new root row is inserted for every domain on every launch | any store, including one that already holds both roots; two launches leave two root rows in "files" | bind the domain's integer id, as the lookup at line 110 does, so that the root is created only when missing and the bootstrap is idempotent | medium, not executed (the model reads the comparison as equal only to the integer's decimal text; the data model file is not part of this model, and a uniqueness constraint on (id, domain) there would let the merge policies set at lines 44 and 89 merge the duplicate roots) | `StoreBootstrap.RelaunchDuplicatesRoot` | `StoreBootstrap.BootstrapIsIdempotent` |
