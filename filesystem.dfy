/** The slice of java.io.File behaviour the store relies on, as values:
    one directory's entries, the JVM's delete-on-exit registry, and the
    outcome of `File.delete()`. */
module FileSystem {

  datatype Option<T> = None | Some(value: T)

  type Path = string

  /** What `File.length()` and `File.isFile()` report for one entry. */
  datatype FileInfo = FileInfo(length: nat, isFile: bool)

  /** What the store's directory path currently is on disk. */
  datatype DirKind = Missing | Folder | NotAFolder

  /** The entries of the store directory, and the paths registered with `deleteOnExit()`. */
  datatype Disk = Disk(files: map<Path, FileInfo>, deleteOnExit: set<Path>)

  function Elems(s: seq<Path>): set<Path>
  {
    set x | x in s
  }

  predicate Distinct(s: seq<Path>)
  {
    forall i, j :: 0 <= i < j < |s| ==> s[i] != s[j]
  }

  /** `listing` is what `listFiles()` returns for `files`: every entry exactly once, in some order. */
  predicate IsListing(listing: seq<Path>, files: map<Path, FileInfo>)
  {
    Distinct(listing) && Elems(listing) == files.Keys
  }

  /** `File.delete()` returns true exactly when the file exists and the OS does not refuse. */
  predicate DeleteSucceeds(d: Disk, f: Path, refused: set<Path>)
  {
    f in d.files && f !in refused
  }

  /** From `d` to `r` nothing outside `touched` was deleted, nothing was created or
      rewritten, and delete-on-exit registrations only grew, and only inside `touched`. */
  ghost predicate Untouched(d: Disk, r: Disk, touched: set<Path>)
  {
    && (forall g :: g in r.files ==> g in d.files && r.files[g] == d.files[g])
    && (forall g :: g in d.files && g !in touched ==> g in r.files)
    && d.deleteOnExit <= r.deleteOnExit <= d.deleteOnExit + touched
  }

  /** One `File.delete()` call, its result not acted on. */
  function TryDelete(d: Disk, f: Path, refused: set<Path>): Disk
  {
    if DeleteSucceeds(d, f, refused) then d.(files := d.files - {f}) else d
  }

  /** A delete attempt removes the file exactly when it succeeds, touches nothing else
      and never registers a deletion on exit. */
  lemma TryDeleteOutcome(d: Disk, f: Path, refused: set<Path>)
    ensures var r := TryDelete(d, f, refused);
            && (DeleteSucceeds(d, f, refused) ==> f !in r.files)
            && (!DeleteSucceeds(d, f, refused) ==> r == d)
            && Untouched(d, r, {f}) && r.deleteOnExit == d.deleteOnExit
  {
  }

  /** Delete the file and, when the delete reports failure, register it for deletion on exit. */
  function DeleteOrMark(d: Disk, f: Path, refused: set<Path>): Disk
  {
    if DeleteSucceeds(d, f, refused) then d.(files := d.files - {f})
    else d.(deleteOnExit := d.deleteOnExit + {f})
  }

  /** Afterwards the file is gone or registered for deletion on exit; it is gone unless the
      OS refused; a successful delete registers nothing; nothing else is touched. */
  lemma DeleteOrMarkOutcome(d: Disk, f: Path, refused: set<Path>)
    ensures var r := DeleteOrMark(d, f, refused);
            && (f !in r.files || f in r.deleteOnExit)
            && (f !in refused ==> f !in r.files)
            && (DeleteSucceeds(d, f, refused) ==> r.deleteOnExit == d.deleteOnExit)
            && Untouched(d, r, {f})
  {
  }

  /** The delete helper the write paths call on a failed file. Its text is not part of this
      model, so whether it falls back to deletion on exit when the delete fails is an input:
      `marks` chooses the fallback, otherwise the result of the delete is ignored. */
  function DeleteFile(d: Disk, f: Path, refused: set<Path>, marks: bool): Disk
  {
    if marks then DeleteOrMark(d, f, refused) else TryDelete(d, f, refused)
  }

  /** Whichever the helper does, the file is gone when the delete succeeds, nothing else is
      touched, and at most this file is registered for deletion on exit; without the
      fallback a failed delete changes nothing. */
  lemma DeleteFileOutcome(d: Disk, f: Path, refused: set<Path>, marks: bool)
    ensures var r := DeleteFile(d, f, refused, marks);
            && (DeleteSucceeds(d, f, refused) ==> f !in r.files && r.deleteOnExit == d.deleteOnExit)
            && (!DeleteSucceeds(d, f, refused) ==> r.files == d.files)
            && (!DeleteSucceeds(d, f, refused) && !marks ==> r == d)
            && (!DeleteSucceeds(d, f, refused) && marks ==> f in r.deleteOnExit)
            && Untouched(d, r, {f})
  {
    TryDeleteOutcome(d, f, refused);
    DeleteOrMarkOutcome(d, f, refused);
  }

  /** `DeleteOrMark` applied to each element of `fs`, first to last. */
  function DeleteEach(d: Disk, fs: seq<Path>, refused: set<Path>): Disk
    decreases |fs|
  {
    if fs == [] then d
    else DeleteOrMark(DeleteEach(d, fs[..|fs| - 1], refused), fs[|fs| - 1], refused)
  }

  /** After a commit every listed file is gone or registered for deletion on exit, every
      listed file the OS does not refuse is gone, and nothing outside the list is touched. */
  lemma {:induction false} DeleteEachOutcome(d: Disk, fs: seq<Path>, refused: set<Path>)
    ensures var r := DeleteEach(d, fs, refused);
            && (forall f :: f in fs ==> f !in r.files || f in r.deleteOnExit)
            && (forall f :: f in fs && f !in refused ==> f !in r.files)
            && Untouched(d, r, Elems(fs))
    decreases |fs|
  {
    if fs != [] {
      var p, x := fs[..|fs| - 1], fs[|fs| - 1];
      assert fs == p + [x];
      DeleteEachOutcome(d, p, refused);
      var m := DeleteEach(d, p, refused);
      DeleteOrMarkOutcome(m, x, refused);
      assert Elems(fs) == Elems(p) + {x};
    }
  }

  lemma DeleteEachSnoc(d: Disk, fs: seq<Path>, x: Path, refused: set<Path>)
    ensures DeleteEach(d, fs + [x], refused) == DeleteOrMark(DeleteEach(d, fs, refused), x, refused)
  {
    assert (fs + [x])[..|fs|] == fs;
  }

  /** Reference outcome of deleting (or, failing that, marking) every path of `targets` once. */
  function DeleteAll(d: Disk, targets: set<Path>, refused: set<Path>): Disk
  {
    Disk(d.files - (targets - refused),
         d.deleteOnExit + (set f | f in targets && !DeleteSucceeds(d, f, refused)))
  }

  /** Every target is gone or registered for deletion on exit, and nothing else is touched. */
  lemma DeleteAllOutcome(d: Disk, targets: set<Path>, refused: set<Path>)
    ensures var r := DeleteAll(d, targets, refused);
            && (forall f :: f in targets ==> f !in r.files || f in r.deleteOnExit)
            && Untouched(d, r, targets)
  {
  }

  lemma DeleteAllNone(d: Disk, refused: set<Path>)
    ensures DeleteAll(d, {}, refused) == d
  {
    assert d.files - ({} - refused) == d.files;
    assert (set f: Path | f in {} && !DeleteSucceeds(d, f, refused)) == {};
  }

  /** Adding one fresh target to `DeleteAll` is one more `DeleteOrMark`. */
  lemma DeleteAllSnoc(d: Disk, targets: set<Path>, x: Path, refused: set<Path>)
    requires x !in targets
    ensures DeleteOrMark(DeleteAll(d, targets, refused), x, refused) == DeleteAll(d, targets + {x}, refused)
  {
    var m := DeleteAll(d, targets, refused);
    var lhs := DeleteOrMark(m, x, refused);
    var rhs := DeleteAll(d, targets + {x}, refused);
    assert x in m.files <==> x in d.files;
    assert DeleteSucceeds(m, x, refused) <==> DeleteSucceeds(d, x, refused);
    assert lhs.files == rhs.files;
    var marked := set f | f in targets && !DeleteSucceeds(d, f, refused);
    var marked' := set f | f in targets + {x} && !DeleteSucceeds(d, f, refused);
    if DeleteSucceeds(d, x, refused) {
      assert marked' == marked;
    } else {
      assert marked' == marked + {x};
    }
  }

  /** Deleting a list without repetitions one by one is `DeleteAll` of its elements. */
  lemma {:induction false} DeleteEachDistinct(d: Disk, fs: seq<Path>, refused: set<Path>)
    requires Distinct(fs)
    ensures DeleteEach(d, fs, refused) == DeleteAll(d, Elems(fs), refused)
  {
    if fs == [] {
      DeleteAllNone(d, refused);
    } else {
      var p, x := fs[..|fs| - 1], fs[|fs| - 1];
      assert Distinct(p);
      DeleteEachDistinct(d, p, refused);
      assert x !in Elems(p);
      assert Elems(fs) == Elems(p) + {x} by { assert fs == p + [x]; }
      DeleteAllSnoc(d, Elems(p), x, refused);
    }
  }

  /** A list without repetitions has as many elements as its set. */
  lemma {:induction false} DistinctCard(s: seq<Path>)
    requires Distinct(s)
    ensures |Elems(s)| == |s|
  {
    if s != [] {
      var p, x := s[..|s| - 1], s[|s| - 1];
      assert Distinct(p);
      DistinctCard(p);
      assert Elems(s) == Elems(p) + {x} by { assert s == p + [x]; }
      assert x !in Elems(p);
    }
  }

  /** A listing has exactly one element per directory entry. */
  lemma ListingLength(listing: seq<Path>, files: map<Path, FileInfo>)
    requires IsListing(listing, files)
    ensures |listing| == |files|
  {
    DistinctCard(listing);
    assert |files.Keys| == |files|;
  }

  /** The elements of `s` that satisfy `keep`, in order. */
  function Filter(s: seq<Path>, keep: Path -> bool): seq<Path>
    decreases |s|
  {
    if s == [] then []
    else
      var p := Filter(s[..|s| - 1], keep);
      if keep(s[|s| - 1]) then p + [s[|s| - 1]] else p
  }

  lemma FilterSnoc(s: seq<Path>, x: Path, keep: Path -> bool)
    ensures Filter(s + [x], keep) == Filter(s, keep) + (if keep(x) then [x] else [])
  {
    assert (s + [x])[..|s|] == s;
  }

  /** Filtering keeps every kept element and no repetitions are introduced. */
  lemma {:induction false} FilterElems(s: seq<Path>, keep: Path -> bool)
    ensures Elems(Filter(s, keep)) == set x | x in s && keep(x)
    ensures Distinct(s) ==> Distinct(Filter(s, keep))
  {
    if s != [] {
      var p, x := s[..|s| - 1], s[|s| - 1];
      FilterElems(p, keep);
      assert s == p + [x];
      FilterSnoc(p, x, keep);
      var fp := Filter(p, keep);
      if keep(x) {
        assert Elems(fp + [x]) == Elems(fp) + {x};
      }
      assert (set y | y in s && keep(y)) == (set y | y in p && keep(y)) + (if keep(x) then {x} else {});
      if Distinct(s) {
        assert Distinct(p);
        assert x !in p;
      }
    }
  }
}
