/**
  The metadata store as a table of rows, and the fetches the engine runs
  against it: by identifier, by name under a parent, children of a directory
  in a sort order with offset and limit, and the stored anchor.
 */
module StoreQuery {
  import opened Wrappers
  import opened SwiftText
  import StoreDomains
  import opened StoreItems

  /**
    The rows of the store, one slot per managed object, in insertion order. A
    slot's index is the object's identity: a parent relationship names it, and
    deleting an object empties its slot for good. An unsorted fetch returns
    matches in slot order, so "the first result" is the lowest matching slot.
   */
  type Table = seq<Option<StoreItem>>

  predicate Live(rows: Table, k: int) {
    0 <= k < |rows| && rows[k].Some?
  }

  /** The invariant the store keeps: states hold valid raw values, and a parent was created before its children. */
  predicate WellFormed(rows: Table) {
    forall k :: 0 <= k < |rows| && rows[k].Some? ==>
      rows[k].value.HasValidStates() &&
      (rows[k].value.parent.Some? ==> rows[k].value.parent.value < k)
  }

  // ---------------------------------------------------------------- by identifier

  predicate HasId(row: Option<StoreItem>, id: string, domain: int) {
    row.Some? && row.value.id == id && row.value.domain == domain
  }

  /** `row` is the first live row with `id` in `domain`. */
  predicate IsFirstWithId(rows: Table, k: nat, id: string, domain: int) {
    k < |rows| && HasId(rows[k], id, domain) && forall j :: 0 <= j < k ==> !HasId(rows[j], id, domain)
  }

  function FindIdFrom(rows: Table, id: string, domain: int, from: nat): (r: Option<nat>)
    requires from <= |rows|
    ensures r.Some? ==> from <= r.value < |rows| && HasId(rows[r.value], id, domain)
    ensures r.Some? ==> forall j :: from <= j < r.value ==> !HasId(rows[j], id, domain)
    ensures r.None? ==> forall j :: from <= j < |rows| ==> !HasId(rows[j], id, domain)
    decreases |rows| - from
  {
    if from == |rows| then None
    else if HasId(rows[from], id, domain) then Some(from)
    else FindIdFrom(rows, id, domain, from + 1)
  }

  /** The fetch `id == identifier and domain == domain`, first result. */
  function FindId(rows: Table, id: string, domain: int): (r: Option<nat>)
    ensures r.Some? ==> IsFirstWithId(rows, r.value, id, domain)
    ensures r.None? ==> forall j :: 0 <= j < |rows| ==> !HasId(rows[j], id, domain)
  {
    FindIdFrom(rows, id, domain, 0)
  }

  /** A first row with the identifier is what the fetch returns. */
  lemma FindIdIsFirst(rows: Table, id: string, domain: int, k: nat)
    requires IsFirstWithId(rows, k, id, domain)
    ensures FindId(rows, id, domain) == Some(k)
  {
  }

  /** At most one live row has `id` in `domain`. */
  predicate AtMostOneWithId(rows: Table, id: string, domain: int) {
    forall a, b :: 0 <= a < |rows| && 0 <= b < |rows| && HasId(rows[a], id, domain) && HasId(rows[b], id, domain) ==> a == b
  }

  /**
    `item(withIdentifier:inContext:inDomain:)`: nothing for an unknown domain,
    otherwise the first row with that identifier in that domain.
   */
  function ItemWithIdentifier(rows: Table, identifier: string, domainIdentifier: string): (r: Option<nat>)
    ensures StoreDomains.Lookup(domainIdentifier).None? ==> r.None?
    ensures StoreDomains.Lookup(domainIdentifier).Some? ==>
      r == FindId(rows, identifier, StoreDomains.Lookup(domainIdentifier).value.id)
  {
    match StoreDomains.Lookup(domainIdentifier)
    case None => None
    case Some(d) => FindId(rows, identifier, d.id)
  }

  /** The row `ItemWithIdentifier` finds, as the host receives it. */
  function LookupItem(rows: Table, identifier: string, domainIdentifier: string): (r: Option<StoreItem>)
    ensures r.Some? <==> ItemWithIdentifier(rows, identifier, domainIdentifier).Some?
    ensures r.Some? ==> r.value.id == identifier
    ensures r.Some? ==> r == rows[ItemWithIdentifier(rows, identifier, domainIdentifier).value]
  {
    match ItemWithIdentifier(rows, identifier, domainIdentifier)
    case None => None
    case Some(k) => rows[k]
  }

  /** `syncAnchorForItem`: the stored anchor of the item, or 0 when there is none. */
  function SyncAnchorForItem(rows: Table, identifier: string, domainIdentifier: string): (anchor: int)
    ensures LookupItem(rows, identifier, domainIdentifier).None? ==> anchor == 0
    ensures LookupItem(rows, identifier, domainIdentifier).Some? ==>
      anchor == LookupItem(rows, identifier, domainIdentifier).value.anchor
  {
    match LookupItem(rows, identifier, domainIdentifier)
    case None => 0
    case Some(item) => item.anchor
  }

  // ---------------------------------------------------------------- by name under a parent

  predicate IsChildNamed(row: Option<StoreItem>, parentRef: nat, name: string) {
    row.Some? && row.value.parent == Some(parentRef) && row.value.name == name
  }

  function FindChildNamedFrom(rows: Table, parentRef: nat, name: string, from: nat): (r: Option<nat>)
    requires from <= |rows|
    ensures r.Some? ==> from <= r.value < |rows| && IsChildNamed(rows[r.value], parentRef, name)
    ensures r.Some? ==> forall j :: from <= j < r.value ==> !IsChildNamed(rows[j], parentRef, name)
    ensures r.None? ==> forall j :: from <= j < |rows| ==> !IsChildNamed(rows[j], parentRef, name)
    decreases |rows| - from
  {
    if from == |rows| then None
    else if IsChildNamed(rows[from], parentRef, name) then Some(from)
    else FindChildNamedFrom(rows, parentRef, name, from + 1)
  }

  /**
    `item(withName:childOf:)`: the first row whose parent relationship is the
    object in slot `parentRef` and whose name is exactly `name` (case-sensitive).
   */
  function FindChildNamed(rows: Table, parentRef: nat, name: string): (r: Option<nat>)
    ensures r.Some? ==> r.value < |rows| && IsChildNamed(rows[r.value], parentRef, name)
    ensures r.Some? ==> forall j :: 0 <= j < r.value ==> !IsChildNamed(rows[j], parentRef, name)
    ensures r.None? ==> forall j :: 0 <= j < |rows| ==> !IsChildNamed(rows[j], parentRef, name)
  {
    FindChildNamedFrom(rows, parentRef, name, 0)
  }

  /** Slot `j` of `after` holds the same object under the same parent and name as in `before`, or stays empty. */
  predicate SameShape(before: Table, after: Table, j: nat)
    requires j < |before| && j < |after|
  {
    (before[j].None? <==> after[j].None?) &&
    (before[j].Some? ==> after[j].value.parent == before[j].value.parent && after[j].value.name == before[j].value.name)
  }

  /** Names stay unique under `parentRef` when no slot changes object, parent or name. */
  lemma SameShapeKeepsNamesUnique(before: Table, after: Table, parentRef: nat)
    requires |before| == |after| && forall j :: 0 <= j < |before| ==> SameShape(before, after, j)
    requires UniqueChildNames(before, parentRef)
    ensures UniqueChildNames(after, parentRef)
  {
    forall a, b | 0 <= a < b < |after| && after[a].Some? && after[b].Some? &&
                  after[a].value.parent == Some(parentRef) && after[b].value.parent == Some(parentRef)
      ensures after[a].value.name != after[b].value.name
    {
      assert SameShape(before, after, a) && SameShape(before, after, b);
    }
  }

  /** A first matching child is what the fetch returns. */
  lemma FindChildNamedIsFirst(rows: Table, parentRef: nat, name: string, k: nat)
    requires k < |rows| && IsChildNamed(rows[k], parentRef, name)
    requires forall j :: 0 <= j < k ==> !IsChildNamed(rows[j], parentRef, name)
    ensures FindChildNamed(rows, parentRef, name) == Some(k)
  {
  }

  /** No two live children of the object in slot `parentRef` share a name. */
  predicate UniqueChildNames(rows: Table, parentRef: nat) {
    forall a, b ::
      (0 <= a < b < |rows| && rows[a].Some? && rows[b].Some? &&
       rows[a].value.parent == Some(parentRef) && rows[b].value.parent == Some(parentRef)) ==>
      rows[a].value.name != rows[b].value.name
  }

  /** `parentItemIdentifier`: the parent's identifier, or the root container when the item has no live parent. */
  function ParentItemIdentifier(rows: Table, item: StoreItem): (r: string)
    ensures item.parent.Some? && Live(rows, item.parent.value) ==> r == rows[item.parent.value].value.id
    ensures !(item.parent.Some? && Live(rows, item.parent.value)) ==> r == RootContainerIdentifier
  {
    if item.parent.Some? && Live(rows, item.parent.value) then rows[item.parent.value].value.ItemIdentifier()
    else RootContainerIdentifier
  }

  // ---------------------------------------------------------------- children of a directory

  /** Slot `k` holds a child of an object with identifier `id` in `domain` (`parent.id == id and parent.domain == domain`). */
  predicate IsChildOf(rows: Table, k: int, id: string, domain: int) {
    Live(rows, k) && rows[k].value.parent.Some? && Live(rows, rows[k].value.parent.value) &&
    rows[rows[k].value.parent.value].value.id == id &&
    rows[rows[k].value.parent.value].value.domain == domain
  }

  /** The slots among the first `n` that hold a child of `id` in `domain`. */
  function ChildSlots(rows: Table, id: string, domain: int, n: nat): set<int> {
    set k | 0 <= k < n && IsChildOf(rows, k, id, domain)
  }

  /**
    The children among the first `n` slots, in slot order: one entry per
    child slot, and every entry is the object of a child slot.
  */
  function ChildrenUpTo(rows: Table, id: string, domain: int, n: nat): (r: seq<StoreItem>)
    requires n <= |rows|
    ensures |r| <= n
    ensures |r| == |ChildSlots(rows, id, domain, n)|
    ensures forall x :: x in r <==> exists k :: 0 <= k < n && IsChildOf(rows, k, id, domain) && rows[k].value == x
  {
    if n == 0 then
      assert ChildSlots(rows, id, domain, 0) == {};
      []
    else
      var prev := ChildrenUpTo(rows, id, domain, n - 1);
      if IsChildOf(rows, n - 1, id, domain) then
        assert ChildSlots(rows, id, domain, n) == ChildSlots(rows, id, domain, n - 1) + {n - 1};
        prev + [rows[n - 1].value]
      else
        assert ChildSlots(rows, id, domain, n) == ChildSlots(rows, id, domain, n - 1);
        prev
  }

  function Children(rows: Table, id: string, domain: int): seq<StoreItem> {
    ChildrenUpTo(rows, id, domain, |rows|)
  }

  /** The sort keys of `enumerate`: the `name` and `cdate` attributes. */
  datatype SortType = ByName | ByCreateDate

  predicate KeyLe(a: StoreItem, b: StoreItem, key: SortType) {
    match key
    case ByName => StrLe(a.name, b.name)
    case ByCreateDate => a.cdate <= b.cdate
  }

  lemma KeyLeTotal(a: StoreItem, b: StoreItem, key: SortType)
    ensures KeyLe(a, b, key) || KeyLe(b, a, key)
  {
    if key == ByName {
      StrLeTotal(a.name, b.name);
    }
  }

  lemma KeyLeTransitive(a: StoreItem, b: StoreItem, c: StoreItem, key: SortType)
    requires KeyLe(a, b, key) && KeyLe(b, c, key)
    ensures KeyLe(a, c, key)
  {
    if key == ByName {
      StrLeTransitive(a.name, b.name, c.name);
    }
  }

  predicate SortedBy(s: seq<StoreItem>, key: SortType) {
    forall i, j :: 0 <= i < j < |s| ==> KeyLe(s[i], s[j], key)
  }

  /** A head that precedes every element of a sorted tail gives a sorted sequence. */
  lemma ConsSorted(h: StoreItem, t: seq<StoreItem>, key: SortType)
    requires SortedBy(t, key)
    requires forall j :: 0 <= j < |t| ==> KeyLe(h, t[j], key)
    ensures SortedBy([h] + t, key)
  {
    var r := [h] + t;
    forall i, j | 0 <= i < j < |r| ensures KeyLe(r[i], r[j], key) {
      if i > 0 { assert r[i] == t[i - 1] && r[j] == t[j - 1]; }
      else { assert r[j] == t[j - 1]; }
    }
  }

  function InsertSorted(x: StoreItem, s: seq<StoreItem>, key: SortType): (r: seq<StoreItem>)
    requires SortedBy(s, key)
    ensures SortedBy(r, key)
    ensures multiset(r) == multiset(s) + multiset{x}
  {
    if |s| == 0 then [x]
    else if KeyLe(x, s[0], key) then
      assert forall j :: 0 <= j < |s| ==> KeyLe(x, s[j], key) by {
        forall j | 0 <= j < |s| ensures KeyLe(x, s[j], key) {
          if j > 0 { KeyLeTransitive(x, s[0], s[j], key); }
        }
      }
      ConsSorted(x, s, key);
      [x] + s
    else
      KeyLeTotal(x, s[0], key);
      var rest := InsertSorted(x, s[1..], key);
      assert s == [s[0]] + s[1..];
      assert forall y :: y in multiset(rest) ==> KeyLe(s[0], y, key) by {
        forall y | y in multiset(rest) ensures KeyLe(s[0], y, key) {
          if y != x {
            assert y in multiset(s[1..]);
            var j :| 0 <= j < |s[1..]| && s[1..][j] == y;
            assert s[j + 1] == y;
          }
        }
      }
      assert forall j :: 0 <= j < |rest| ==> KeyLe(s[0], rest[j], key) by {
        forall j | 0 <= j < |rest| ensures KeyLe(s[0], rest[j], key) {
          assert rest[j] in multiset(rest);
        }
      }
      ConsSorted(s[0], rest, key);
      [s[0]] + rest
  }

  /** The rows in the order of the sort key (ties in no promised order). */
  function SortItems(s: seq<StoreItem>, key: SortType): (r: seq<StoreItem>)
    ensures SortedBy(r, key)
    ensures multiset(r) == multiset(s)
  {
    if |s| == 0 then []
    else
      assert s == [s[0]] + s[1..];
      InsertSorted(s[0], SortItems(s[1..], key), key)
  }

  /** All children of the item, sorted: the sequence `enumerate` pages through. */
  function Listing(rows: Table, identifier: string, domainIdentifier: string, key: SortType): (r: seq<StoreItem>)
    ensures StoreDomains.Lookup(domainIdentifier).None? ==> r == []
    ensures SortedBy(r, key)
    ensures StoreDomains.Lookup(domainIdentifier).Some? ==>
      multiset(r) == multiset(Children(rows, identifier, StoreDomains.Lookup(domainIdentifier).value.id))
  {
    match StoreDomains.Lookup(domainIdentifier)
    case None => []
    case Some(d) => SortItems(Children(rows, identifier, d.id), key)
  }

  /** The end of the page that starts at `offset`; a limit of 0 means no limit, as for a fetch request. */
  function PageEnd(length: nat, offset: nat, count: nat): (e: nat)
    requires offset <= length
    ensures offset <= e <= length
    ensures count > 0 ==> e - offset <= count
    ensures e < length ==> count > 0 && e == offset + count
  {
    if count == 0 || offset + count >= length then length else offset + count
  }

  /**
    `enumerate(childrenOf:inDomain:startAt:atLeast:sortBy:)`: no rows for an
    unknown domain; otherwise at most `count` children of the item, in sort
    order, starting at position `offset` of the sorted listing.
   */
  function Enumerate(rows: Table, identifier: string, domainIdentifier: string, offset: nat, count: nat, key: SortType): (r: seq<StoreItem>)
    ensures StoreDomains.Lookup(domainIdentifier).None? ==> r == []
    ensures count > 0 ==> |r| <= count
    ensures SortedBy(r, key)
    ensures forall x :: x in r ==> x in Listing(rows, identifier, domainIdentifier, key)
    ensures offset >= |Listing(rows, identifier, domainIdentifier, key)| ==> r == []
    ensures offset < |Listing(rows, identifier, domainIdentifier, key)| ==>
      r == Listing(rows, identifier, domainIdentifier, key)
             [offset..PageEnd(|Listing(rows, identifier, domainIdentifier, key)|, offset, count)]
  {
    var listing := Listing(rows, identifier, domainIdentifier, key);
    if offset >= |listing| then []
    else listing[offset..PageEnd(|listing|, offset, count)]
  }

  /** Every row `enumerate` returns is a live child of the enumerated item. */
  lemma EnumeratedAreChildren(rows: Table, identifier: string, domainIdentifier: string, offset: nat, count: nat, key: SortType, x: StoreItem)
    requires x in Enumerate(rows, identifier, domainIdentifier, offset, count, key)
    ensures StoreDomains.Lookup(domainIdentifier).Some?
    ensures exists k :: 0 <= k < |rows| && IsChildOf(rows, k, identifier, StoreDomains.Lookup(domainIdentifier).value.id) && rows[k].value == x
  {
    var d := StoreDomains.Lookup(domainIdentifier).value;
    assert x in multiset(Listing(rows, identifier, domainIdentifier, key));
    assert x in Children(rows, identifier, d.id);
  }
}
