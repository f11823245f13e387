/** Discovery of deliverable files (`findStoredFiles`), and what the claim set
    guarantees across discovery, release and commit. */
module Discovery {
  import opened FileSystem

  /** The directory after a scan, and the files the scan hands out, in listing order. */
  datatype Scan = Scan(disk: Disk, found: seq<Path>)

  /** `File.length()`, which is 0 for a file that does not exist. */
  function LengthOf(d: Disk, f: Path): nat
  {
    if f in d.files then d.files[f].length else 0
  }

  /** A file `findStoredFiles` hands out: non-empty, a regular file, not already claimed. */
  predicate Claimable(d: Disk, queued: set<Path>, f: Path)
  {
    f in d.files && d.files[f].length > 0 && d.files[f].isFile && f !in queued
  }

  function ClaimableSet(d: Disk, queued: set<Path>): set<Path>
  {
    set f | f in d.files && Claimable(d, queued, f)
  }

  /** The zero-length ("tombstone") entries of the directory. */
  function Tombstones(d: Disk): set<Path>
  {
    set f | f in d.files && d.files[f].length == 0
  }

  /** One iteration of the discovery loop: a zero-length file is deleted (or marked for
      deletion on exit) whether or not it is claimed; otherwise an unclaimed regular
      file is collected. */
  function ScanStep(s: Scan, f: Path, queued: set<Path>, refused: set<Path>): Scan
  {
    if LengthOf(s.disk, f) == 0 then Scan(DeleteOrMark(s.disk, f, refused), s.found)
    else if s.disk.files[f].isFile && f !in queued then Scan(s.disk, s.found + [f])
    else s
  }

  /** The discovery loop over a listing, first entry to last. */
  function ScanListing(d: Disk, listing: seq<Path>, queued: set<Path>, refused: set<Path>): Scan
    decreases |listing|
  {
    if listing == [] then Scan(d, [])
    else ScanStep(ScanListing(d, listing[..|listing| - 1], queued, refused), listing[|listing| - 1], queued, refused)
  }

  /** The scan hands out only listed, claimable files; every listed zero-length file ends
      gone or registered for deletion on exit; only listed zero-length files may disappear,
      and nothing is created or rewritten. */
  lemma {:induction false} ScanListingOutcome(d: Disk, listing: seq<Path>, queued: set<Path>, refused: set<Path>)
    ensures var r := ScanListing(d, listing, queued, refused);
            && (forall f :: f in r.found ==> f in listing && Claimable(d, queued, f))
            && (forall f :: f in listing && f in d.files && d.files[f].length == 0 ==>
                  f !in r.disk.files || f in r.disk.deleteOnExit)
            && (forall g :: g in r.disk.files ==> g in d.files && r.disk.files[g] == d.files[g])
            && (forall g :: g in d.files && (d.files[g].length > 0 || g !in listing) ==> g in r.disk.files)
            && d.deleteOnExit <= r.disk.deleteOnExit
    decreases |listing|
  {
    if listing != [] {
      var p, x := listing[..|listing| - 1], listing[|listing| - 1];
      assert listing == p + [x];
      ScanListingOutcome(d, p, queued, refused);
      var s := ScanListing(d, p, queued, refused);
      DeleteOrMarkOutcome(s.disk, x, refused);
    }
  }

  lemma ScanListingSnoc(d: Disk, listing: seq<Path>, x: Path, queued: set<Path>, refused: set<Path>)
    ensures ScanListing(d, listing + [x], queued, refused)
         == ScanStep(ScanListing(d, listing, queued, refused), x, queued, refused)
  {
    assert (listing + [x])[..|listing|] == listing;
  }

  /** One turn of the discovery loop over the `i`-th listed entry. */
  lemma ScanTurn(d: Disk, listing: seq<Path>, i: nat, queued: set<Path>, refused: set<Path>, before: Scan)
    requires i < |listing|
    requires before == ScanListing(d, listing[..i], queued, refused)
    ensures ScanStep(before, listing[i], queued, refused) == ScanListing(d, listing[..i + 1], queued, refused)
  {
    assert listing[..i + 1] == listing[..i] + [listing[i]];
    ScanListingSnoc(d, listing[..i], listing[i], queued, refused);
  }

  /** The listed entries of `d` that are tombstones. */
  function ListedTombstones(d: Disk, listing: seq<Path>): set<Path>
  {
    set f | f in listing && f in d.files && d.files[f].length == 0
  }

  lemma ScanDiskStep(d: Disk, p: seq<Path>, x: Path, queued: set<Path>, refused: set<Path>)
    requires x !in p && x in d.files
    requires ScanListing(d, p, queued, refused).disk == DeleteAll(d, ListedTombstones(d, p), refused)
    ensures ScanListing(d, p + [x], queued, refused).disk == DeleteAll(d, ListedTombstones(d, p + [x]), refused)
  {
    ScanListingSnoc(d, p, x, queued, refused);
    var s := ScanListing(d, p, queued, refused);
    var t, t' := ListedTombstones(d, p), ListedTombstones(d, p + [x]);
    assert x !in t;
    assert x in s.disk.files && s.disk.files[x] == d.files[x];
    if d.files[x].length == 0 {
      assert t' == t + {x};
      DeleteAllSnoc(d, t, x, refused);
    } else {
      assert t' == t;
    }
  }

  /** Over a listing without repetitions, the scan deletes (or marks) exactly the listed tombstones. */
  lemma {:induction false} ScanPrefixDisk(d: Disk, prefix: seq<Path>, queued: set<Path>, refused: set<Path>)
    requires Distinct(prefix) && Elems(prefix) <= d.files.Keys
    ensures ScanListing(d, prefix, queued, refused).disk == DeleteAll(d, ListedTombstones(d, prefix), refused)
  {
    if prefix == [] {
      DeleteAllNone(d, refused);
      assert ListedTombstones(d, prefix) == {};
    } else {
      var p, x := prefix[..|prefix| - 1], prefix[|prefix| - 1];
      assert prefix == p + [x];
      assert Distinct(p) && x !in p;
      ScanPrefixDisk(d, p, queued, refused);
      ScanDiskStep(d, p, x, queued, refused);
    }
  }

  /** Over a listing without repetitions, the scan hands out each claimable listed file once. */
  lemma {:induction false} ScanPrefixFound(d: Disk, prefix: seq<Path>, queued: set<Path>, refused: set<Path>)
    requires Distinct(prefix) && Elems(prefix) <= d.files.Keys
    ensures var r := ScanListing(d, prefix, queued, refused);
            Distinct(r.found) && Elems(r.found) == (set f | f in prefix && Claimable(d, queued, f))
  {
    if prefix != [] {
      var p, x := prefix[..|prefix| - 1], prefix[|prefix| - 1];
      assert prefix == p + [x];
      assert Distinct(p) && x !in p;
      ScanPrefixFound(d, p, queued, refused);
      ScanListingSnoc(d, p, x, queued, refused);
      var s := ScanListing(d, p, queued, refused);
      ScanListingOutcome(d, p, queued, refused);
      var c := set f | f in p && Claimable(d, queued, f);
      var c' := set f | f in prefix && Claimable(d, queued, f);
      assert x in s.disk.files && s.disk.files[x] == d.files[x];
      if Claimable(d, queued, x) {
        assert c' == c + {x};
        assert Elems(s.found + [x]) == Elems(s.found) + {x};
        assert x !in s.found;
      } else {
        assert c' == c;
      }
    }
  }

  /** A scan over a complete listing hands out exactly the claimable files, each once. */
  lemma ScanFoundOutcome(d: Disk, listing: seq<Path>, queued: set<Path>, refused: set<Path>)
    requires IsListing(listing, d.files)
    ensures var r := ScanListing(d, listing, queued, refused);
            Distinct(r.found) && Elems(r.found) == ClaimableSet(d, queued)
  {
    ScanPrefixFound(d, listing, queued, refused);
    assert (set f | f in listing && Claimable(d, queued, f)) == ClaimableSet(d, queued);
  }

  /** A scan over a complete listing deletes (or marks) exactly the tombstones. */
  lemma ScanDiskOutcome(d: Disk, listing: seq<Path>, queued: set<Path>, refused: set<Path>)
    requires IsListing(listing, d.files)
    ensures ScanListing(d, listing, queued, refused).disk == DeleteAll(d, Tombstones(d), refused)
  {
    ScanPrefixDisk(d, listing, queued, refused);
    assert ListedTombstones(d, listing) == Tombstones(d);
  }

  /** Every claimable file of the directory is among those a scan of a complete listing hands out. */
  lemma ClaimableIsFound(d: Disk, listing: seq<Path>, queued: set<Path>, refused: set<Path>, a: Path)
    requires IsListing(listing, d.files) && Claimable(d, queued, a)
    ensures a in ScanListing(d, listing, queued, refused).found
  {
    ScanFoundOutcome(d, listing, queued, refused);
    assert a in ClaimableSet(d, queued);
    assert a in Elems(ScanListing(d, listing, queued, refused).found);
  }

  /** A second discovery, with the first one's files added to the claim set and no release
      or commit in between, hands out none of them again. */
  lemma NoDoubleClaim(d: Disk, listing: seq<Path>, queued: set<Path>, refused: set<Path>,
                      listing2: seq<Path>, refused2: set<Path>)
    ensures var r1 := ScanListing(d, listing, queued, refused);
            var r2 := ScanListing(r1.disk, listing2, queued + Elems(r1.found), refused2);
            forall f :: f in r2.found ==> f !in r1.found && f !in queued
  {
    var r1 := ScanListing(d, listing, queued, refused);
    ScanListingOutcome(r1.disk, listing2, queued + Elems(r1.found), refused2);
  }

  /** A file handed out by discovery and then released (`cancelQueuedFiles`) is handed
      out again by the next discovery. */
  lemma ReleasedFileIsRediscovered(d: Disk, listing: seq<Path>, queued: set<Path>, refused: set<Path>,
                                   released: seq<Path>, a: Path, listing2: seq<Path>, refused2: set<Path>)
    requires a in released
    requires a in ScanListing(d, listing, queued, refused).found
    requires IsListing(listing2, ScanListing(d, listing, queued, refused).disk.files)
    ensures var r1 := ScanListing(d, listing, queued, refused);
            a in ScanListing(r1.disk, listing2, (queued + Elems(r1.found)) - Elems(released), refused2).found
  {
    var r1 := ScanListing(d, listing, queued, refused);
    var q2 := (queued + Elems(r1.found)) - Elems(released);
    ScanListingOutcome(d, listing, queued, refused);
    assert LengthOf(d, a) > 0;
    assert a in r1.disk.files && r1.disk.files[a] == d.files[a];
    assert Claimable(r1.disk, q2, a);
    ClaimableIsFound(r1.disk, listing2, q2, refused2, a);
  }

  /** A file committed (`deleteStoredFiles`) whose delete the OS accepted is not handed out
      by the next discovery over the directory the commit leaves. */
  lemma CommittedFileIsNotRediscovered(d: Disk, committed: seq<Path>, refused: set<Path>, f: Path,
                                       queued: set<Path>, listing: seq<Path>, refused2: set<Path>)
    requires f in committed && f !in refused
    ensures f !in ScanListing(DeleteEach(d, committed, refused), listing, queued - Elems(committed), refused2).found
  {
    var d2 := DeleteEach(d, committed, refused);
    DeleteEachOutcome(d, committed, refused);
    ScanListingOutcome(d2, listing, queued - Elems(committed), refused2);
  }

  /** When the OS refuses to delete a committed non-empty file, the commit only registers it
      for deletion on exit; it has left the claim set, so the next discovery hands it out again. */
  lemma RefusedCommitIsRediscovered(d: Disk, committed: seq<Path>, refused: set<Path>, f: Path,
                                    queued: set<Path>, listing: seq<Path>, refused2: set<Path>)
    requires f in committed && f in refused
    requires f in d.files && d.files[f].length > 0 && d.files[f].isFile
    requires IsListing(listing, DeleteEach(d, committed, refused).files)
    ensures var d2 := DeleteEach(d, committed, refused);
            f in d2.files && f in d2.deleteOnExit
            && f in ScanListing(d2, listing, queued - Elems(committed), refused2).found
  {
    var d2 := DeleteEach(d, committed, refused);
    DeleteEachOutcome(d, committed, refused);
    assert f in d2.files && d2.files[f] == d.files[f] by {
      DeleteEachKeepsRefused(d, committed, refused, f);
    }
    assert Claimable(d2, queued - Elems(committed), f);
    ClaimableIsFound(d2, listing, queued - Elems(committed), refused2, f);
  }

  /** `DeleteEach` never removes a file whose delete the OS refuses. */
  lemma {:induction false} DeleteEachKeepsRefused(d: Disk, fs: seq<Path>, refused: set<Path>, f: Path)
    requires f in d.files && f in refused
    ensures var r := DeleteEach(d, fs, refused);
            f in r.files && r.files[f] == d.files[f]
  {
    if fs != [] {
      DeleteEachKeepsRefused(d, fs[..|fs| - 1], refused, f);
    }
  }
}
