/**
  The bootstrap the store's singleton runs once per launch: every configured
  domain gets a root container row unless its fetch finds one. The fetch as
  written binds the domain's string identifier against the integer `domain`
  attribute and so never finds the row; both that fetch and the intended one
  (the domain's integer id, as every other lookup of the store uses) are
  modelled.
 */
module StoreBootstrap {
  import opened Wrappers
  import opened SwiftText
  import StoreDomains
  import opened StoreAPI
  import opened StoreItems
  import opened StoreQuery

  /** The root container row of a domain. */
  function RootRow(d: StoreDomains.StoreDomain): (row: StoreItem)
    ensures row.id == RootContainerIdentifier && row.domain == d.id && row.name == d.displayName && row.pid == ""
    ensures row.IsDirectory() && row.size == 0 && row.anchor == 0 && row.cdate == 0 && row.mdate == 0
    ensures row.HasValidStates() && row.IsDownloaded() && row.IsUploaded()
    ensures row.parent.None? && row.uploadError.None? && row.downloadError.None?
  {
    StoreItem(RootContainerIdentifier, "", d.displayName, d.id, 0, FolderUti, 0, 0, 0,
              ItemUploadState.Uploaded.RawValue(), None, ItemDownloadState.Downloaded.RawValue(), None, None)
  }

  // ---------------------------------------------------------------- as written

  /**
    The fetch `id == %@ and domain == %@` with the domain's string identifier:
    against an integer attribute, the string can only be equal to the
    integer's decimal text.
    A match needs a root row and a domain identifier that reads as a number.
   */
  function MatchesRootAsWritten(row: Option<StoreItem>, d: StoreDomains.StoreDomain): (m: bool)
    ensures m ==> row.Some? && row.value.id == RootContainerIdentifier
    ensures m ==> |d.identifier| >= 1 && (d.identifier[0] == '-' || IsDigit(d.identifier[0]))
  {
    row.Some? && row.value.id == RootContainerIdentifier && IntToDecimal(row.value.domain) == d.identifier
  }

  /** One domain's step as written: the store is kept, or grows by that domain's root row. */
  function EnsureRootAsWritten(rows: Table, d: StoreDomains.StoreDomain): (r: Table)
    ensures |rows| <= |r| <= |rows| + 1 && r[..|rows|] == rows
    ensures |r| == |rows| + 1 ==> r[|rows|] == Some(RootRow(d))
  {
    if exists j :: 0 <= j < |rows| && MatchesRootAsWritten(rows[j], d) then rows
    else rows + [Some(RootRow(d))]
  }

  /**
    The `forEach` over the domains, as written, after the first `|entries|`
    domains: the rows already stored are kept, and every row added is the root
    row of one of the domains.
  */
  function BootstrapAsWritten(rows: Table, entries: seq<(string, StoreDomains.StoreDomain)>): (r: Table)
    ensures |rows| <= |r| <= |rows| + |entries| && r[..|rows|] == rows
    ensures forall k :: |rows| <= k < |r| ==> exists i :: 0 <= i < |entries| && r[k] == Some(RootRow(entries[i].1))
  {
    if |entries| == 0 then rows
    else
      var init := entries[..|entries| - 1];
      var prev := BootstrapAsWritten(rows, init);
      var r := EnsureRootAsWritten(prev, entries[|entries| - 1].1);
      forall k | |rows| <= k < |r|
        ensures exists i :: 0 <= i < |entries| && r[k] == Some(RootRow(entries[i].1))
      {
        if k < |prev| {
          var i :| 0 <= i < |init| && prev[k] == Some(RootRow(init[i].1));
          assert r[k] == r[..|prev|][k];
          assert init[i] == entries[i];
        } else {
          assert r[k] == Some(RootRow(entries[|entries| - 1].1));
        }
      }
      assert r[..|rows|] == prev[..|prev|][..|rows|] by {
        assert r[..|prev|] == prev;
      }
      r
  }

  /** A configured domain's identifier is a word, never an integer's decimal text, so the fetch as written matches no row. */
  lemma RootFetchAsWrittenNeverMatches(row: Option<StoreItem>, i: nat)
    requires i < |StoreDomains.Entries|
    ensures !MatchesRootAsWritten(row, StoreDomains.Entries[i].1)
  {
    var d := StoreDomains.Entries[i].1;
    assert d == StoreDomains.Files || d == StoreDomains.Photos;
    if row.Some? {
      IntToDecimalIsNotAWord(row.value.domain, d.identifier);
    }
  }

  /** Every launch appends a fresh root row for each domain, whatever the store holds. */
  lemma {:induction false} BootstrapAsWrittenAlwaysAppends(rows: Table, n: nat)
    requires n <= |StoreDomains.Entries|
    ensures BootstrapAsWritten(rows, StoreDomains.Entries[..n]) ==
      rows + seq(n, i requires 0 <= i < n => Some(RootRow(StoreDomains.Entries[i].1)))
  {
    if n > 0 {
      var es := StoreDomains.Entries[..n];
      assert es[..n - 1] == StoreDomains.Entries[..n - 1];
      BootstrapAsWrittenAlwaysAppends(rows, n - 1);
      var prev := BootstrapAsWritten(rows, es[..n - 1]);
      forall j | 0 <= j < |prev| ensures !MatchesRootAsWritten(prev[j], es[n - 1].1) {
        RootFetchAsWrittenNeverMatches(prev[j], n - 1);
      }
    }
  }

  /** Two launches leave two root rows for the "files" domain, so the root identifier no longer names one row. */
  lemma RelaunchDuplicatesRoot(rows: Table)
    ensures var twice := BootstrapAsWritten(BootstrapAsWritten(rows, StoreDomains.Entries), StoreDomains.Entries);
      && |twice| == |rows| + 4
      && !AtMostOneWithId(twice, RootContainerIdentifier, StoreDomains.Files.id)
  {
    assert StoreDomains.Entries[..2] == StoreDomains.Entries;
    BootstrapAsWrittenAlwaysAppends(rows, 2);
    var once := BootstrapAsWritten(rows, StoreDomains.Entries);
    BootstrapAsWrittenAlwaysAppends(once, 2);
    var twice := BootstrapAsWritten(once, StoreDomains.Entries);
    assert HasId(twice[|rows|], RootContainerIdentifier, StoreDomains.Files.id);
    assert HasId(twice[|rows| + 2], RootContainerIdentifier, StoreDomains.Files.id);
  }

  // ---------------------------------------------------------------- intended

  /** One domain's step with the intended fetch: a root row is added only when none is found by the domain's id. */
  function EnsureRoot(rows: Table, d: StoreDomains.StoreDomain): (r: Table)
    ensures FindId(r, RootContainerIdentifier, d.id).Some?
    ensures |rows| <= |r| <= |rows| + 1 && r[..|rows|] == rows
    ensures FindId(rows, RootContainerIdentifier, d.id).Some? <==> r == rows
  {
    if FindId(rows, RootContainerIdentifier, d.id).Some? then rows
    else
      var r := rows + [Some(RootRow(d))];
      assert HasId(r[|rows|], RootContainerIdentifier, d.id);
      r
  }

  /** The `forEach` over the domains, with the intended fetch, after the first `|entries|` domains. */
  function Bootstrap(rows: Table, entries: seq<(string, StoreDomains.StoreDomain)>): (r: Table)
    ensures |rows| <= |r| <= |rows| + |entries| && r[..|rows|] == rows
    ensures forall i :: 0 <= i < |entries| ==> FindId(r, RootContainerIdentifier, entries[i].1.id).Some?
    ensures WellFormed(rows) ==> WellFormed(r)
  {
    if |entries| == 0 then rows
    else
      var prev := Bootstrap(rows, entries[..|entries| - 1]);
      var r := EnsureRoot(prev, entries[|entries| - 1].1);
      forall i | 0 <= i < |entries| - 1 ensures FindId(r, RootContainerIdentifier, entries[i].1.id).Some? {
        assert entries[..|entries| - 1][i] == entries[i];
        FoundIdSurvivesGrowth(prev, r, RootContainerIdentifier, entries[i].1.id);
      }
      assert r[..|rows|] == prev[..|rows|];
      r
  }

  /** A row found in a table is still found once rows are appended. */
  lemma FoundIdSurvivesGrowth(rows: Table, grown: Table, id: string, domain: int)
    requires |rows| <= |grown| && grown[..|rows|] == rows
    requires FindId(rows, id, domain).Some?
    ensures FindId(grown, id, domain).Some?
  {
    var k := FindId(rows, id, domain).value;
    assert grown[k] == rows[k];
  }

  /** When every domain already has a root, the bootstrap changes nothing. */
  lemma {:induction false} BootstrapWithRootsIsIdentity(rows: Table, entries: seq<(string, StoreDomains.StoreDomain)>)
    requires forall i :: 0 <= i < |entries| ==> FindId(rows, RootContainerIdentifier, entries[i].1.id).Some?
    ensures Bootstrap(rows, entries) == rows
  {
    if |entries| > 0 {
      var init := entries[..|entries| - 1];
      forall i | 0 <= i < |init| ensures FindId(rows, RootContainerIdentifier, init[i].1.id).Some? {
        assert init[i] == entries[i];
      }
      BootstrapWithRootsIsIdentity(rows, init);
    }
  }

  /** Launching twice is launching once. */
  lemma BootstrapIsIdempotent(rows: Table)
    ensures Bootstrap(Bootstrap(rows, StoreDomains.Entries), StoreDomains.Entries) == Bootstrap(rows, StoreDomains.Entries)
  {
    BootstrapWithRootsIsIdentity(Bootstrap(rows, StoreDomains.Entries), StoreDomains.Entries);
  }

  /** After the bootstrap, every configured domain's root container identifier resolves, to a root row when one was added. */
  lemma BootstrapProvidesRoots(rows: Table, domainIdentifier: string)
    requires StoreDomains.Lookup(domainIdentifier).Some?
    ensures ItemWithIdentifier(Bootstrap(rows, StoreDomains.Entries), RootContainerIdentifier, domainIdentifier).Some?
  {
    StoreDomains.EntriesAreTheTable();
    var i :| 0 <= i < |StoreDomains.Entries| && StoreDomains.Entries[i].0 == domainIdentifier;
  }

  /** A store with at most one root per domain keeps that property through the bootstrap. */
  lemma {:induction false} BootstrapKeepsRootsUnique(rows: Table, entries: seq<(string, StoreDomains.StoreDomain)>, domain: int)
    requires AtMostOneWithId(rows, RootContainerIdentifier, domain)
    ensures AtMostOneWithId(Bootstrap(rows, entries), RootContainerIdentifier, domain)
  {
    if |entries| > 0 {
      var prev := Bootstrap(rows, entries[..|entries| - 1]);
      BootstrapKeepsRootsUnique(rows, entries[..|entries| - 1], domain);
      var d := entries[|entries| - 1].1;
      var r := EnsureRoot(prev, d);
      if r != prev && d.id == domain {
        // the added row is the only one: the fetch found none before
        assert FindId(prev, RootContainerIdentifier, domain).None?;
        forall a | 0 <= a < |prev| ensures !HasId(r[a], RootContainerIdentifier, domain) {
          assert r[a] == prev[a];
        }
      } else if r != prev {
        forall a | 0 <= a < |prev| ensures r[a] == prev[a] {
        }
      }
    }
  }
}
