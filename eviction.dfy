/** Capacity eviction: what `discardOldestFileIfNeeded` does as written, and the
    oldest-first eviction its comment describes. */
module Eviction {
  import opened FileSystem

  /** The listed files the as-written loop hands to `deleteStoredFiles`:
      every one not in the claim set, in listing order. */
  function Unclaimed(listing: seq<Path>, queued: set<Path>): seq<Path>
  {
    Filter(listing, (f: Path) => f !in queued)
  }

  /** The loop visits exactly the listed files outside the claim set, each once when the
      listing has no repetitions. */
  lemma UnclaimedElems(listing: seq<Path>, queued: set<Path>)
    ensures Elems(Unclaimed(listing, queued)) == set f | f in listing && f !in queued
    ensures Distinct(listing) ==> Distinct(Unclaimed(listing, queued))
  {
    FilterElems(listing, (f: Path) => f !in queued);
  }

  lemma UnclaimedSnoc(listing: seq<Path>, x: Path, queued: set<Path>)
    ensures Unclaimed(listing + [x], queued) == Unclaimed(listing, queued) + (if x !in queued then [x] else [])
  {
    assert (listing + [x])[..|listing|] == listing;
  }

  /** When no listed file is claimed, the loop visits the whole listing. */
  lemma {:induction false} UnclaimedWhenNoneQueued(listing: seq<Path>, queued: set<Path>)
    requires forall f :: f in listing ==> f !in queued
    ensures Unclaimed(listing, queued) == listing
  {
    if listing != [] {
      var p, x := listing[..|listing| - 1], listing[|listing| - 1];
      assert listing == p + [x];
      UnclaimedWhenNoneQueued(p, queued);
      UnclaimedSnoc(p, x, queued);
    }
  }

  /** One turn of the as-written loop: the k-th listed file is deleted (or marked) unless claimed. */
  lemma EvictionStep(d0: Disk, listing: seq<Path>, k: nat, queued: set<Path>, refused: set<Path>, before: Disk)
    requires k < |listing|
    requires before == DeleteEach(d0, Unclaimed(listing[..k], queued), refused)
    ensures (if listing[k] !in queued then DeleteEach(before, [listing[k]], refused) else before)
         == DeleteEach(d0, Unclaimed(listing[..k + 1], queued), refused)
  {
    var x := listing[k];
    assert listing[..k + 1] == listing[..k] + [x];
    UnclaimedSnoc(listing[..k], x, queued);
    if x !in queued {
      DeleteEachSnoc(before, [], x, refused);
      assert [] + [x] == [x];
      DeleteEachSnoc(d0, Unclaimed(listing[..k], queued), x, refused);
    }
  }

  /** Reference outcome of the as-written eviction, over the whole directory: below the
      cap nothing happens, otherwise every entry outside the claim set is deleted or,
      when the OS refuses, registered for deletion on exit. */
  function Evicted(d: Disk, queued: set<Path>, maxStoreCount: int, refused: set<Path>): Disk
  {
    if |d.files| < maxStoreCount then d else DeleteAll(d, d.files.Keys - queued, refused)
  }

  /** Below the cap nothing changes; claimed files are always kept unchanged; at or above
      the cap every unclaimed entry is gone or registered for deletion on exit. */
  lemma EvictedOutcome(d: Disk, queued: set<Path>, maxStoreCount: int, refused: set<Path>)
    ensures var r := Evicted(d, queued, maxStoreCount, refused);
            && (|d.files| < maxStoreCount ==> r == d)
            && (forall f :: f in d.files && f in queued ==> f in r.files && r.files[f] == d.files[f])
            && (|d.files| >= maxStoreCount ==>
                  forall f :: f in d.files && f !in queued ==> f !in r.files || f in r.deleteOnExit)
            && Untouched(d, r, d.files.Keys - queued)
  {
    DeleteAllOutcome(d, d.files.Keys - queued, refused);
  }

  /** The loop of `discardOldestFileIfNeeded`, run over a listing of the directory that
      has at least `maxStoreCount` entries, ends in the state `Evicted` describes. */
  lemma EvictionLoopOutcome(d: Disk, listing: seq<Path>, queued: set<Path>, maxStoreCount: int, refused: set<Path>)
    requires IsListing(listing, d.files) && |listing| >= maxStoreCount
    ensures DeleteEach(d, Unclaimed(listing, queued), refused) == Evicted(d, queued, maxStoreCount, refused)
  {
    ListingLength(listing, d.files);
    var u := Unclaimed(listing, queued);
    UnclaimedElems(listing, queued);
    DeleteEachDistinct(d, u, refused);
    assert Elems(u) == d.files.Keys - queued;
  }

  /** As written, once the listing reaches the cap and nothing is claimed or refused,
      eviction empties the directory instead of removing only the oldest file. */
  lemma AsWrittenEvictsEveryUnclaimedFile(d: Disk, queued: set<Path>, maxStoreCount: int)
    requires |d.files| >= maxStoreCount
    ensures Evicted(d, queued, maxStoreCount, {}).files.Keys == d.files.Keys * queued
  {
  }

  function Min(a: nat, b: nat): nat
  {
    if a <= b then a else b
  }

  /** How many files must go for the count to drop below the cap. */
  function Excess(total: int, maxStoreCount: int): nat
  {
    if total - maxStoreCount + 1 > 0 then total - maxStoreCount + 1 else 0
  }

  /** The eviction the comment at FileStore.java:147 describes, over the first files of a
      listing sorted oldest first: a file is discarded when it is unclaimed and the files
      not yet discarded (out of `total`) are still at least the cap. */
  function Chosen(prefix: seq<Path>, queued: set<Path>, total: int, maxStoreCount: int): (r: seq<Path>)
    decreases |prefix|
  {
    if prefix == [] then []
    else
      var c := Chosen(prefix[..|prefix| - 1], queued, total, maxStoreCount);
      var x := prefix[|prefix| - 1];
      if x !in queued && total - |c| >= maxStoreCount then c + [x] else c
  }

  /** The files the corrected eviction discards from a sorted listing. */
  function IntendedTargets(sorted: seq<Path>, queued: set<Path>, maxStoreCount: int): seq<Path>
  {
    Chosen(sorted, queued, |sorted|, maxStoreCount)
  }

  /** The corrected loop discards the oldest unclaimed files, and exactly as many of them
      as it takes to drop below the cap (or all of them, if there are too few). */
  lemma {:induction false} ChosenIsOldestUnclaimed(prefix: seq<Path>, queued: set<Path>, total: int, maxStoreCount: int)
    ensures var u := Unclaimed(prefix, queued);
            Chosen(prefix, queued, total, maxStoreCount) == u[..Min(|u|, Excess(total, maxStoreCount))]
  {
    if prefix != [] {
      var p, x := prefix[..|prefix| - 1], prefix[|prefix| - 1];
      assert prefix == p + [x];
      ChosenIsOldestUnclaimed(p, queued, total, maxStoreCount);
      UnclaimedSnoc(p, x, queued);
      var u := Unclaimed(p, queued);
      var b := Excess(total, maxStoreCount);
      if x !in queued && Min(|u|, b) < b {
        assert u[..Min(|u|, b)] == u;
        assert (u + [x])[..Min(|u| + 1, b)] == u + [x];
      } else if x !in queued {
        assert (u + [x])[..b] == u[..b];
      }
    }
  }

  /** `s` is sorted by the comparator: no file comes after one it orders strictly before it.
      `older(a, b)` holds when the comparator puts `a` strictly before `b`. */
  predicate OldestFirst(s: seq<Path>, older: (Path, Path) -> bool)
  {
    forall i, j :: 0 <= i < j < |s| ==> !older(s[j], s[i])
  }

  /** Skipping the claimed files keeps a sorted listing sorted. */
  lemma {:induction false} UnclaimedOldestFirst(s: seq<Path>, queued: set<Path>, older: (Path, Path) -> bool)
    requires OldestFirst(s, older)
    ensures OldestFirst(Unclaimed(s, queued), older)
  {
    if s != [] {
      var p, x := s[..|s| - 1], s[|s| - 1];
      assert s == p + [x];
      assert OldestFirst(p, older) by {
        forall i, j | 0 <= i < j < |p| ensures !older(p[j], p[i]) {
          assert p[i] == s[i] && p[j] == s[j];
        }
      }
      UnclaimedOldestFirst(p, queued, older);
      UnclaimedSnoc(p, x, queued);
      UnclaimedElems(p, queued);
      var u := Unclaimed(p, queued);
      if x !in queued {
        forall i | 0 <= i < |u| ensures !older(x, u[i]) {
          assert u[i] in Elems(u);
          var k :| 0 <= k < |p| && p[k] == u[i];
          assert s[k] == u[i];
        }
        var v := u + [x];
        forall i, j | 0 <= i < j < |v| ensures !older(v[j], v[i]) {
          if j < |u| {
            assert v[i] == u[i] && v[j] == u[j];
          } else {
            assert v[i] == u[i];
          }
        }
      }
    }
  }

  /** Over a sorted listing, the corrected eviction discards no file the comparator orders
      strictly after an unclaimed file it keeps: the discarded files are the oldest ones. */
  lemma CorrectedEvictsOldestFirst(sorted: seq<Path>, queued: set<Path>, maxStoreCount: int,
                                   older: (Path, Path) -> bool)
    requires OldestFirst(sorted, older)
    ensures var t := IntendedTargets(sorted, queued, maxStoreCount);
            forall c, k :: c in t && k in sorted && k !in queued && k !in t ==> !older(k, c)
  {
    var u := Unclaimed(sorted, queued);
    var t := IntendedTargets(sorted, queued, maxStoreCount);
    var m := Min(|u|, Excess(|sorted|, maxStoreCount));
    ChosenIsOldestUnclaimed(sorted, queued, |sorted|, maxStoreCount);
    assert t == u[..m];
    UnclaimedOldestFirst(sorted, queued, older);
    UnclaimedElems(sorted, queued);
    forall c, k | c in t && k in sorted && k !in queued && k !in t ensures !older(k, c) {
      var i :| 0 <= i < m && u[i] == c;
      assert k in Elems(u);
      var j :| 0 <= j < |u| && u[j] == k;
      assert m <= j;
    }
  }

  /** Removing `gone` from the entries drops the entry count by exactly its size. */
  lemma RemovedCount(files: map<Path, FileInfo>, gone: set<Path>)
    requires gone <= files.Keys
    ensures |files - gone| == |files| - |gone|
  {
    var kept := (files - gone).Keys;
    assert kept == files.Keys - gone;
    assert files.Keys == kept + gone;
    assert kept !! gone;
    assert |files.Keys| == |kept| + |gone|;
  }

  /** One turn of the corrected loop over the `k`-th file of the sorted listing. */
  lemma IntendedStep(d0: Disk, sorted: seq<Path>, k: nat, queued: set<Path>, total: int, maxStoreCount: int,
                     refused: set<Path>, before: Disk)
    requires k < |sorted| && total - |Chosen(sorted[..k], queued, total, maxStoreCount)| >= maxStoreCount
    requires before == DeleteEach(d0, Chosen(sorted[..k], queued, total, maxStoreCount), refused)
    ensures var c := Chosen(sorted[..k], queued, total, maxStoreCount);
            var c' := Chosen(sorted[..k + 1], queued, total, maxStoreCount);
            && c' == (if sorted[k] !in queued then c + [sorted[k]] else c)
            && (if sorted[k] !in queued then DeleteEach(before, [sorted[k]], refused) else before)
               == DeleteEach(d0, c', refused)
  {
    var x := sorted[k];
    assert sorted[..k + 1][..k] == sorted[..k];
    if x !in queued {
      DeleteEachSnoc(before, [], x, refused);
      assert [] + [x] == [x];
      DeleteEachSnoc(d0, Chosen(sorted[..k], queued, total, maxStoreCount), x, refused);
    }
  }

  /** Once the files left are below the cap, the corrected loop discards nothing more. */
  lemma {:induction false} ChosenSaturated(sorted: seq<Path>, k: nat, queued: set<Path>, total: int, maxStoreCount: int)
    requires k <= |sorted| && total - |Chosen(sorted[..k], queued, total, maxStoreCount)| < maxStoreCount
    ensures Chosen(sorted, queued, total, maxStoreCount) == Chosen(sorted[..k], queued, total, maxStoreCount)
  {
    if k < |sorted| {
      var p := sorted[..|sorted| - 1];
      assert p[..k] == sorted[..k];
      ChosenSaturated(p, k, queued, total, maxStoreCount);
    } else {
      assert sorted[..k] == sorted;
    }
  }

  /** The corrected targets are the first `Excess` unclaimed files of the listing. */
  lemma IntendedTargetsOfListing(sorted: seq<Path>, queued: set<Path>, maxStoreCount: int)
    requires Distinct(sorted)
    requires |Unclaimed(sorted, queued)| >= Excess(|sorted|, maxStoreCount)
    ensures var t := IntendedTargets(sorted, queued, maxStoreCount);
            |t| == Excess(|sorted|, maxStoreCount) && Distinct(t) && Elems(t) <= Elems(sorted)
  {
    var u := Unclaimed(sorted, queued);
    UnclaimedElems(sorted, queued);
    ChosenIsOldestUnclaimed(sorted, queued, |sorted|, maxStoreCount);
    var t := u[..Excess(|sorted|, maxStoreCount)];
    assert forall f :: f in t ==> f in u && f in Elems(u);
  }

  /** With enough unclaimed files and no refused delete, the corrected eviction leaves
      exactly `maxStoreCount - 1` files, so the write that follows brings the store to the cap. */
  lemma IntendedEvictionLeavesRoomForOne(d: Disk, sorted: seq<Path>, queued: set<Path>, maxStoreCount: int)
    requires IsListing(sorted, d.files)
    requires 1 <= maxStoreCount <= |sorted|
    requires |Unclaimed(sorted, queued)| >= |sorted| - maxStoreCount + 1
    ensures var r := DeleteEach(d, IntendedTargets(sorted, queued, maxStoreCount), {});
            |r.files| == maxStoreCount - 1 && r.deleteOnExit == d.deleteOnExit
  {
    var t := IntendedTargets(sorted, queued, maxStoreCount);
    IntendedTargetsOfListing(sorted, queued, maxStoreCount);
    DeleteEachDistinct(d, t, {});
    DistinctCard(t);
    ListingLength(sorted, d.files);
    assert Elems(t) - {} == Elems(t);
    RemovedCount(d.files, Elems(t));
    assert (set f | f in Elems(t) && !DeleteSucceeds(d, f, {})) == {};
  }

  /** Five unclaimed files t1..t5 (oldest first) with a cap of five: the code as written
      deletes all five before the sixth is written; the corrected eviction deletes only t1. */
  lemma CapacityFiveScenario(info: FileInfo)
    ensures var listing := ["t1", "t2", "t3", "t4", "t5"];
            var d := Disk(map f | f in listing :: info, {});
            && Evicted(d, {}, 5, {}).files == map[]
            && IntendedTargets(listing, {}, 5) == ["t1"]
  {
    var listing := ["t1", "t2", "t3", "t4", "t5"];
    var d := Disk(map f | f in listing :: info, {});
    assert IsListing(listing, d.files);
    ListingLength(listing, d.files);
    AsWrittenEvictsEveryUnclaimedFile(d, {}, 5);
    ChosenIsOldestUnclaimed(listing, {}, 5, 5);
    UnclaimedWhenNoneQueued(listing, {});
  }
}
