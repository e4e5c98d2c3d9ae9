/**
  The file-provider enumerator for one container: it lists the container's
  children page by page from the local store, and reports remote changes by
  running one sync batch from the anchor the host hands back.
 */
module FileProviderEnumeration {
  import opened Wrappers
  import StoreDomains
  import opened StoreAPI
  import opened StoreItems
  import opened StoreQuery
  import opened StoreSync
  import opened StoreDatabase

  /** `PageData.batchSize`: the number of children asked for per page. */
  const BatchSize: nat := 128

  /** The batch size `enumerateChanges` asks the remote for. */
  const ChangesBatchSize: int := 3

  /** The state a page token carries. `ascending` is carried but never used: the fetch always sorts ascending. */
  datatype PageData = PageData(ascending: bool, sortKey: SortType, offset: nat)

  /**
    A page as the host hands it to `enumerateItems`: a token this enumerator
    encoded, one of the host's two initial pages, or data that does not decode.
   */
  datatype Page = EncodedPage(data: PageData) | InitialPageSortedByName | InitialPageSortedByDate | UndecodablePage

  /** The page's state: the decoded token, else offset 0 sorted by creation date for the initial date page and by name otherwise. */
  function DecodePage(page: Page): (data: PageData)
    ensures page.EncodedPage? ==> data == page.data
    ensures !page.EncodedPage? ==> data.offset == 0 && !data.ascending
    ensures !page.EncodedPage? ==> (data.sortKey == ByCreateDate <==> page == InitialPageSortedByDate)
  {
    match page
    case EncodedPage(d) => d
    case InitialPageSortedByDate => PageData(false, ByCreateDate, 0)
    case _ => PageData(false, ByName, 0)
  }

  /** The calls `enumerateItems` makes on its observer. */
  datatype EnumerationEvent = DidEnumerate(items: seq<StoreItem>) | FinishEnumerating(upTo: Option<Page>)

  /** The children one page reports, and the token of the next page when the page is full. */
  datatype PageResult = PageResult(items: seq<StoreItem>, next: Option<PageData>)

  /**
    One page: at most `BatchSize` children from the page's offset in its sort
    order; a full page continues at the offset just past it, a short one ends
    the enumeration.
   */
  function ListPage(rows: Table, identifier: string, domainIdentifier: string, data: PageData): (r: PageResult)
    ensures r.items == Enumerate(rows, identifier, domainIdentifier, data.offset, BatchSize, data.sortKey)
    ensures r.next.Some? <==> |r.items| == BatchSize
    ensures r.next.Some? ==> r.next.value == data.(offset := data.offset + BatchSize)
    ensures r.next.Some? ==> r.next.value.offset <= |Listing(rows, identifier, domainIdentifier, data.sortKey)|
  {
    var items := Enumerate(rows, identifier, domainIdentifier, data.offset, BatchSize, data.sortKey);
    PageResult(items, if |items| >= BatchSize then Some(data.(offset := data.offset + |items|)) else None)
  }

  /** The observer calls for a page: the children if there are any, then the finish with the next page or none. */
  function PageEvents(r: PageResult): (events: seq<EnumerationEvent>)
    ensures |events| >= 1 && events[|events| - 1] == FinishEnumerating(if r.next.Some? then Some(EncodedPage(r.next.value)) else None)
    ensures |r.items| > 0 <==> events[0] == DidEnumerate(r.items)
    ensures forall i :: 0 <= i < |events| - 1 ==> events[i] == DidEnumerate(r.items)
    ensures |events| == (if |r.items| > 0 then 2 else 1)
  {
    (if |r.items| > 0 then [DidEnumerate(r.items)] else []) +
    [FinishEnumerating(if r.next.Some? then Some(EncodedPage(r.next.value)) else None)]
  }

  /** All children reported by following the next-page tokens from `data` until a page ends the enumeration. */
  function FollowPages(rows: Table, identifier: string, domainIdentifier: string, data: PageData): (items: seq<StoreItem>)
    ensures var listing := Listing(rows, identifier, domainIdentifier, data.sortKey);
      items == if data.offset <= |listing| then listing[data.offset..] else []
    decreases |Listing(rows, identifier, domainIdentifier, data.sortKey)| - data.offset
  {
    var page := ListPage(rows, identifier, domainIdentifier, data);
    match page.next
    case None => page.items
    case Some(next) =>
      var listing := Listing(rows, identifier, domainIdentifier, data.sortKey);
      assert listing[data.offset..] == page.items + listing[next.offset..];
      page.items + FollowPages(rows, identifier, domainIdentifier, next)
  }

  /** Starting from either initial page and following every next-page token reports each child once, in sort order. */
  lemma PagingReportsWholeListing(rows: Table, identifier: string, domainIdentifier: string, page: Page)
    requires page == InitialPageSortedByName || page == InitialPageSortedByDate
    ensures var key := if page == InitialPageSortedByDate then ByCreateDate else ByName;
      var items := FollowPages(rows, identifier, domainIdentifier, DecodePage(page));
      && items == Listing(rows, identifier, domainIdentifier, key)
      && SortedBy(items, key)
      && (StoreDomains.Lookup(domainIdentifier).Some? ==>
            multiset(items) == multiset(Children(rows, identifier, StoreDomains.Lookup(domainIdentifier).value.id)))
  {
    var d := DecodePage(page);
    assert Listing(rows, identifier, domainIdentifier, d.sortKey)[0..] == Listing(rows, identifier, domainIdentifier, d.sortKey);
  }

  /** A sync anchor as the host hands it back: a token this enumerator encoded, or data that does not decode. */
  datatype AnchorToken = EncodedAnchor(anchor: int) | UndecodableAnchor

  /** The anchor a token carries; 0 when it does not decode. */
  function DecodeAnchor(token: AnchorToken): (anchor: int)
    ensures token.EncodedAnchor? ==> anchor == token.anchor
    ensures token.UndecodableAnchor? ==> anchor == 0
  {
    match token
    case EncodedAnchor(a) => a
    case UndecodableAnchor => 0
  }

  /** The calls `enumerateChanges` makes on its observer. */
  datatype ChangeEvent =
    | DidDeleteItems(identifiers: seq<string>)
    | DidUpdate(items: seq<StoreItem>)
    | FinishEnumeratingChanges(upTo: AnchorToken, moreComing: bool)

  /** The observer calls for a sync result: deletions if any, updates if any, then the finish with the next anchor. */
  function ChangeEvents(result: SyncResult): (events: seq<ChangeEvent>)
    ensures |events| >= 1 && events[|events| - 1] == FinishEnumeratingChanges(EncodedAnchor(result.anchor), result.hasMore)
    ensures DidDeleteItems(result.deletedIdentifiers) in events <==> |result.deletedIdentifiers| > 0
    ensures DidUpdate(result.newItems) in events <==> |result.newItems| > 0
    ensures |events| == 1 + (if |result.deletedIdentifiers| > 0 then 1 else 0) + (if |result.newItems| > 0 then 1 else 0)
    ensures |result.deletedIdentifiers| > 0 ==> events[0] == DidDeleteItems(result.deletedIdentifiers)
    ensures |result.newItems| > 0 ==> events[|events| - 2] == DidUpdate(result.newItems)
  {
    (if |result.deletedIdentifiers| > 0 then [DidDeleteItems(result.deletedIdentifiers)] else []) +
    (if |result.newItems| > 0 then [DidUpdate(result.newItems)] else []) +
    [FinishEnumeratingChanges(EncodedAnchor(result.anchor), result.hasMore)]
  }

  /**
    The anchor a change enumeration finishes with never lies behind the one it
    started from; it lies ahead exactly when a batch was applied, and then
    more changes are announced exactly when the remote has more.
   */
  lemma ChangesFinishAtOrAfterAnchor(rows: Table, identifier: string, domainIdentifier: string, token: AnchorToken, remote: RemoteClient, convert: UtiConverter)
    ensures var from := DecodeAnchor(token);
      var result := SyncChanges(rows, identifier, domainIdentifier, from, ChangesBatchSize, remote, convert).1;
      var finish := ChangeEvents(result)[|ChangeEvents(result)| - 1];
      && DecodeAnchor(finish.upTo) >= from
      && (DecodeAnchor(finish.upTo) > from <==> Applies(remote(identifier, from, ChangesBatchSize), from))
      && (Applies(remote(identifier, from, ChangesBatchSize), from) ==>
            finish.moreComing == (remote(identifier, from, ChangesBatchSize).value.remain > 0))
      && (!Applies(remote(identifier, from, ChangesBatchSize), from) ==> ChangeEvents(result) == [FinishEnumeratingChanges(EncodedAnchor(from), false)])
  {
  }

  /**
    After an applied batch that does not erase the container itself, the
    container's current sync anchor is the anchor the change enumeration
    finished with.
   */
  lemma CurrentAnchorMatchesFinishedChanges(rows: Table, identifier: string, domainIdentifier: string, token: AnchorToken, remote: RemoteClient, convert: UtiConverter)
    requires WellFormed(rows)
    requires Applies(remote(identifier, DecodeAnchor(token), ChangesBatchSize), DecodeAnchor(token))
    requires ItemWithIdentifier(rows, identifier, domainIdentifier).Some?
    requires forall e :: e in remote(identifier, DecodeAnchor(token), ChangesBatchSize).value.erase ==> SwiftText.IntToDecimal(e) != identifier
    ensures var sync := SyncChanges(rows, identifier, domainIdentifier, DecodeAnchor(token), ChangesBatchSize, remote, convert);
      EncodedAnchor(SyncAnchorForItem(sync.0, identifier, domainIdentifier)) == ChangeEvents(sync.1)[|ChangeEvents(sync.1)| - 1].upTo
  {
    var from := DecodeAnchor(token);
    var after := SyncChanges(rows, identifier, domainIdentifier, from, ChangesBatchSize, remote, convert).0;
    var p := ItemWithIdentifier(rows, identifier, domainIdentifier).value;
    var d := StoreDomains.Lookup(domainIdentifier).value.id;
    SyncSetsParentAnchorAndSize(rows, identifier, domainIdentifier, from, ChangesBatchSize, remote, convert);
    forall j | 0 <= j < p ensures !HasId(after[j], identifier, d) {
      assert !HasId(rows[j], identifier, d);
    }
    FindIdIsFirst(after, identifier, d, p);
  }

  /** An enumerator for one container in one domain. */
  class FileProviderEnumerator {
    const enumeratedItemIdentifier: string
    const domainIdentifier: string

    constructor(enumeratedItemIdentifier: string, domain: string)
      ensures this.enumeratedItemIdentifier == enumeratedItemIdentifier && this.domainIdentifier == domain
    {
      this.enumeratedItemIdentifier := enumeratedItemIdentifier;
      this.domainIdentifier := domain;
    }

    /** `enumerateItems(for:startingAt:)`: the observer calls for one page of the container's children. */
    method EnumerateItems(db: StoreDB, page: Page) returns (events: seq<EnumerationEvent>)
      ensures events == PageEvents(ListPage(db.rows, enumeratedItemIdentifier, domainIdentifier, DecodePage(page)))
    {
      var pageData := DecodePage(page);
      var items := Enumerate(db.rows, enumeratedItemIdentifier, domainIdentifier, pageData.offset, BatchSize, pageData.sortKey);
      ghost var r := ListPage(db.rows, enumeratedItemIdentifier, domainIdentifier, pageData);
      assert r.items == items;
      events := [];
      if |items| > 0 {
        events := events + [DidEnumerate(items)];
      }
      if |items| < BatchSize {
        events := events + [FinishEnumerating(None)];
        return;
      }
      pageData := pageData.(offset := pageData.offset + |items|);
      events := events + [FinishEnumerating(Some(EncodedPage(pageData)))];
    }

    /**
      `enumerateChanges(for:from:)`: one sync batch of `ChangesBatchSize`
      from the token's anchor, reported to the observer.
     */
    method EnumerateChanges(db: StoreDB, anchor: AnchorToken, remote: RemoteClient, convert: UtiConverter)
      returns (events: seq<ChangeEvent>)
      requires db.Valid()
      modifies db
      ensures db.Valid()
      ensures var sync := SyncChanges(old(db.rows), enumeratedItemIdentifier, domainIdentifier, DecodeAnchor(anchor), ChangesBatchSize, remote, convert);
        db.rows == sync.0 && events == ChangeEvents(sync.1)
    {
      var anchorValue := DecodeAnchor(anchor);
      var newItems, deletedItems, nextAnchorValue, hasMore :=
        db.SyncChangesForItem(enumeratedItemIdentifier, domainIdentifier, anchorValue, ChangesBatchSize, remote, convert);
      events := [];
      if |deletedItems| > 0 {
        events := events + [DidDeleteItems(deletedItems)];
      }
      if |newItems| > 0 {
        events := events + [DidUpdate(newItems)];
      }
      events := events + [FinishEnumeratingChanges(EncodedAnchor(nextAnchorValue), hasMore)];
    }

    /** `currentSyncAnchor(completionHandler:)`: the container row's anchor, 0 when the row is missing. */
    method CurrentSyncAnchor(db: StoreDB) returns (token: AnchorToken)
      ensures token == EncodedAnchor(SyncAnchorForItem(db.rows, enumeratedItemIdentifier, domainIdentifier))
      ensures LookupItem(db.rows, enumeratedItemIdentifier, domainIdentifier).None? ==> DecodeAnchor(token) == 0
    {
      token := EncodedAnchor(SyncAnchorForItem(db.rows, enumeratedItemIdentifier, domainIdentifier));
    }
  }
}
