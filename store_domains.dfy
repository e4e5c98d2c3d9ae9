/**
  The fixed table of file-provider domains: two independent root namespaces,
  "files" and "photos", that share one metadata store.
 */
module StoreDomains {
  import opened Wrappers

  /** A configured domain. The host's domain and manager objects are reduced to their names. */
  datatype StoreDomain = StoreDomain(
    id: int,
    identifier: string,
    displayName: string,
    pathRelativeToDocumentStorage: string)

  const FilesKey: string := "files"
  const PhotosKey: string := "photos"

  const Files: StoreDomain := StoreDomain(1, FilesKey, "Files", "/files")
  const Photos: StoreDomain := StoreDomain(2, PhotosKey, "Photos", "/photos")

  /** The `storeDomains` dictionary, keyed by domain identifier. */
  const Table: map<string, StoreDomain> := map[FilesKey := Files, PhotosKey := Photos]

  /**
    The dictionary's entries in the order the model iterates them. Swift leaves
    the iteration order of a dictionary unspecified; the model fixes this one.
   */
  const Entries: seq<(string, StoreDomain)> := [(FilesKey, Files), (PhotosKey, Photos)]

  /** `StoreDomains.domains[identifier]`. */
  function Lookup(identifier: string): (r: Option<StoreDomain>)
    ensures r.Some? <==> identifier == FilesKey || identifier == PhotosKey
    ensures r.Some? ==> r.value.identifier == identifier
    ensures identifier == FilesKey ==> r == Some(Files) && r.value.id == 1
    ensures identifier == PhotosKey ==> r == Some(Photos) && r.value.id == 2
  {
    if identifier in Table then Some(Table[identifier]) else None
  }

  /** Each key of the table is its domain's identifier, and distinct domains have distinct ids. */
  lemma TableIsConsistent()
    ensures forall k :: k in Table ==> Table[k].identifier == k
    ensures forall k, k' :: k in Table && k' in Table && Table[k].id == Table[k'].id ==> k == k'
  {
  }

  /** Iterating the table yields exactly its entries, each key once. */
  lemma EntriesAreTheTable()
    ensures forall i :: 0 <= i < |Entries| ==> Entries[i].0 in Table && Table[Entries[i].0] == Entries[i].1
    ensures forall k :: k in Table ==> exists i :: 0 <= i < |Entries| && Entries[i].0 == k
    ensures forall i, j :: 0 <= i < j < |Entries| ==> Entries[i].0 != Entries[j].0
  {
    assert Entries[0].0 == FilesKey && Entries[1].0 == PhotosKey;
  }

  /**
    The `reduce` in `register`: whether one of the host's existing domains
    carries identifier `key`, folded left to right with `||`.
   */
  function DoesExist(hostIdentifiers: seq<string>, key: string): (r: bool)
    ensures r <==> key in hostIdentifiers
  {
    if |hostIdentifiers| == 0 then false
    else
      assert hostIdentifiers == hostIdentifiers[..|hostIdentifiers| - 1] + [hostIdentifiers[|hostIdentifiers| - 1]];
      DoesExist(hostIdentifiers[..|hostIdentifiers| - 1], key) || hostIdentifiers[|hostIdentifiers| - 1] == key
  }

  /**
    `register`: given the identifiers of the domains the host already knows,
    the domains it asks the host to add, in iteration order.
   */
  method Register(hostIdentifiers: seq<string>) returns (added: seq<StoreDomain>)
    ensures forall d :: d in added <==> d in Table.Values && d.identifier !in hostIdentifiers
    ensures forall i, j :: 0 <= i < j < |added| ==> added[i] != added[j]
  {
    added := [];
    for i := 0 to |Entries|
      invariant forall d :: d in added <==>
        exists j :: 0 <= j < i && Entries[j].1 == d && Entries[j].0 !in hostIdentifiers
      invariant forall a, b :: 0 <= a < b < |added| ==> added[a] != added[b]
      invariant forall a, b :: 0 <= a < b < |Entries| ==> Entries[a].1 != Entries[b].1
    {
      var (key, storeDomain) := Entries[i];
      var doesExist := DoesExist(hostIdentifiers, key);
      if !doesExist {
        // every domain added so far comes from an earlier entry, and entries are distinct
        assert storeDomain !in added;
        added := added + [storeDomain];
      }
    }
    assert Table.Values == {Files, Photos} by {
      assert Table[FilesKey] == Files && Table[PhotosKey] == Photos;
    }
    forall d
      ensures d in added <==> d in Table.Values && d.identifier !in hostIdentifiers
    {
      assert Entries[0] == (Files.identifier, Files) && Entries[1] == (Photos.identifier, Photos);
    }
  }
}
