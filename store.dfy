/** The `FileStore` object: a bounded spool of payload files in one directory, with
    the in-memory claim set (`queuedFiles`) a delivery consumer checks files out of. */
module Store {
  import opened FileSystem
  import opened Eviction
  import opened Discovery

  /** What the injected `getFilename` is applied to. */
  datatype Payload = Streamable(id: string) | Content(text: string)

  /** How opening and filling the new file ends. In both failure cases `partial` is
      `Some(n)` when the file was already opened, leaving n bytes on disk, and None when
      opening it threw. */
  datatype WriteOutcome =
    | Completed(length: nat)              // written and closed: a regular file of `length` bytes
    | FileNotFound(partial: Option<nat>)  // FileNotFoundException, from opening or from the payload's own code
    | Failed(partial: Option<nat>)        // any other exception

  /** One `Delegate.onErrorIOFailure` call: the file and the context label. */
  datatype Report = Report(file: Path, context: string)

  const SerializationContext: string := "Crash report serialization"
  const CopyContext: string := "NDK Crash report copy"

  /** Opening a file in a directory that is not a folder throws FileNotFoundException
      before anything is created. */
  function Opened(kind: DirKind, outcome: WriteOutcome): WriteOutcome
  {
    if kind == Folder then outcome else FileNotFound(None)
  }

  function Created(d: Disk, name: Path, partial: Option<nat>): Disk
  {
    if partial.Some? then d.(files := d.files[name := FileInfo(partial.value, true)]) else d
  }

  /** The directory after `write` opens and fills `name`: a completed file is kept, a
      FileNotFoundException leaves whatever was already written in place, and any other
      failure is followed by an attempt to delete the partial file. */
  function AfterWrite(d: Disk, name: Path, outcome: WriteOutcome, refused: set<Path>, marks: bool): Disk
  {
    match outcome
    case Completed(n) => d.(files := d.files[name := FileInfo(n, true)])
    case FileNotFound(partial) => Created(d, name, partial)
    case Failed(partial) => DeleteFile(Created(d, name, partial), name, refused, marks)
  }

  /** A completed write leaves the file with its length; a FileNotFoundException from
      opening changes nothing, and one thrown later leaves the partial file on disk, nothing
      registered; after any other failure the file is gone unless the OS refuses; no other
      entry changes, and only the named file may be registered for deletion on exit (and
      not even that when the delete helper has no fallback). */
  lemma AfterWriteOutcome(d: Disk, name: Path, outcome: WriteOutcome, refused: set<Path>, marks: bool)
    ensures var r := AfterWrite(d, name, outcome, refused, marks);
            && (outcome.Completed? ==> name in r.files && r.files[name] == FileInfo(outcome.length, true))
            && (outcome == FileNotFound(None) ==> r == d)
            && (outcome.FileNotFound? && outcome.partial.Some? ==>
                  name in r.files && r.files[name] == FileInfo(outcome.partial.value, true)
                  && r.deleteOnExit == d.deleteOnExit)
            && (outcome.Failed? && name !in refused ==> name !in r.files)
            && d.deleteOnExit <= r.deleteOnExit <= d.deleteOnExit + {name}
            && (!marks ==> r.deleteOnExit == d.deleteOnExit)
            && (forall g :: g != name ==> (g in r.files <==> g in d.files))
            && (forall g :: g != name && g in r.files ==> r.files[g] == d.files[g])
  {
    if outcome.Failed? {
      DeleteFileOutcome(Created(d, name, outcome.partial), name, refused, marks);
    }
  }

  /** The directory after `enqueueContentForDelivery` opens and fills `name`: there every
      exception, FileNotFoundException among them, is followed by the delete attempt. */
  function AfterCopy(d: Disk, name: Path, outcome: WriteOutcome, refused: set<Path>, marks: bool): Disk
  {
    if outcome.FileNotFound? then DeleteFile(Created(d, name, outcome.partial), name, refused, marks)
    else AfterWrite(d, name, outcome, refused, marks)
  }

  /** After a copy, a completed file is kept and every failure leaves the file gone unless
      the OS refuses; no other entry changes, and only the named file may be registered for
      deletion on exit (and not even that when the delete helper has no fallback). */
  lemma AfterCopyOutcome(d: Disk, name: Path, outcome: WriteOutcome, refused: set<Path>, marks: bool)
    ensures var r := AfterCopy(d, name, outcome, refused, marks);
            && (outcome.Completed? ==> name in r.files && r.files[name] == FileInfo(outcome.length, true))
            && (!outcome.Completed? && name !in refused ==> name !in r.files)
            && d.deleteOnExit <= r.deleteOnExit <= d.deleteOnExit + {name}
            && (!marks ==> r.deleteOnExit == d.deleteOnExit)
            && (forall g :: g != name ==> (g in r.files <==> g in d.files))
            && (forall g :: g != name && g in r.files ==> r.files[g] == d.files[g])
  {
    if outcome.FileNotFound? {
      DeleteFileOutcome(Created(d, name, outcome.partial), name, refused, marks);
    } else {
      AfterWriteOutcome(d, name, outcome, refused, marks);
    }
  }

  /** Eviction runs only when the store path is a directory. */
  function EvictedIf(kind: DirKind, d: Disk, queued: set<Path>, maxStoreCount: int, refused: set<Path>): Disk
  {
    if kind == Folder then Evicted(d, queued, maxStoreCount, refused) else d
  }

  /** The delegate's log entry for a failure, if there is a delegate. */
  function Reported(hasDelegate: bool, name: Path, context: string): seq<Report>
  {
    if hasDelegate then [Report(name, context)] else []
  }

  /** A report `write` completed with a non-empty body, and nobody has claimed, is handed
      out by the next discovery; one completed empty is deleted (or marked) by it instead. */
  lemma WrittenReportIsDiscovered(d: Disk, name: Path, n: nat, refused: set<Path>, marks: bool,
                                  queued: set<Path>, listing: seq<Path>, refused2: set<Path>)
    requires name !in queued
    requires IsListing(listing, AfterWrite(d, name, Completed(n), refused, marks).files)
    ensures var w := AfterWrite(d, name, Completed(n), refused, marks);
            var s := ScanListing(w, listing, queued, refused2);
            && (n > 0 ==> name in s.found)
            && (n == 0 ==> name !in s.found && (name !in s.disk.files || name in s.disk.deleteOnExit))
  {
    var w := AfterWrite(d, name, Completed(n), refused, marks);
    ScanListingOutcome(w, listing, queued, refused2);
    assert name in Elems(listing);
    if n > 0 {
      assert Claimable(w, queued, name);
      ClaimableIsFound(w, listing, queued, refused2, name);
    }
  }

  /** A FileNotFoundException thrown after the file was opened (by the payload's own
      serialization code) leaves the partial file on disk unreported; when it is non-empty
      and unclaimed, the next discovery hands it out as a deliverable report. */
  lemma PartialFromFileNotFoundIsDiscovered(d: Disk, name: Path, n: nat, refused: set<Path>, marks: bool,
                                            queued: set<Path>, listing: seq<Path>, refused2: set<Path>)
    requires n > 0 && name !in queued
    requires IsListing(listing, AfterWrite(d, name, FileNotFound(Some(n)), refused, marks).files)
    ensures var w := AfterWrite(d, name, FileNotFound(Some(n)), refused, marks);
            name in ScanListing(w, listing, queued, refused2).found
  {
    var w := AfterWrite(d, name, FileNotFound(Some(n)), refused, marks);
    assert name in Elems(listing);
    assert Claimable(w, queued, name);
    ClaimableIsFound(w, listing, queued, refused2, name);
  }

  class FileStore {
    /** The directory path, or None when the store is disabled. */
    const storeDirectory: Option<Path>
    const maxStoreCount: int
    /** The subclass's `getFilename`, injected. */
    const getFilename: Payload -> Path
    const hasDelegate: bool
    /** The comparator the listing is sorted with: `older(a, b)` when it orders `a` strictly
        before `b`. */
    const older: (Path, Path) -> bool
    /** Whether the delete helper of the write paths falls back to deletion on exit. */
    const deleteFileMarks: bool

    /** The claim set: files handed to a consumer and not yet released or committed. */
    var queuedFiles: set<Path>

    // What the file system shows of the store directory, and the failures reported.
    var dirKind: DirKind
    var files: map<Path, FileInfo>
    var deleteOnExit: set<Path>
    var reports: seq<Report>

    function OnDisk(): Disk
      reads this
    {
      Disk(files, deleteOnExit)
    }

    /** `cacheDir` is None when preparing the directory throws, whether in obtaining the
        cache directory, in `mkdirs()` or in `exists()`; `existing` is what the path is
        before `mkdirs()`, which creates it when `mkdirsCreates`. */
    constructor (cacheDir: Option<Path>, folder: Path, maxStoreCount: int, getFilename: Payload -> Path,
                 older: (Path, Path) -> bool, hasDelegate: bool, deleteFileMarks: bool,
                 existing: DirKind, entries: map<Path, FileInfo>, mkdirsCreates: bool)
      ensures dirKind == (if cacheDir.Some? && existing == Missing && mkdirsCreates then Folder else existing)
      ensures storeDirectory == (if cacheDir.Some? && dirKind != Missing then Some(cacheDir.value + folder) else None)
      ensures queuedFiles == {} && reports == []
      ensures OnDisk() == Disk(if existing == Folder then entries else map[], {})
      ensures this.maxStoreCount == maxStoreCount && this.getFilename == getFilename
      ensures this.older == older && this.hasDelegate == hasDelegate && this.deleteFileMarks == deleteFileMarks
    {
      this.maxStoreCount := maxStoreCount;
      this.getFilename := getFilename;
      this.older := older;
      this.hasDelegate := hasDelegate;
      this.deleteFileMarks := deleteFileMarks;
      var kind := existing;
      var path: Option<Path>;
      if cacheDir.Some? {
        path := Some(cacheDir.value + folder);
        if kind == Missing && mkdirsCreates {
          kind := Folder;
        }
        if kind == Missing {
          path := None;
        }
      } else {
        path := None;
      }
      storeDirectory := path;
      dirKind := kind;
      files := if existing == Folder then entries else map[];
      deleteOnExit := {};
      queuedFiles := {};
      reports := [];
    }

    /** `listFiles()`: every entry of the directory once, in an order the model leaves open. */
    method ListFiles() returns (listing: seq<Path>)
      ensures IsListing(listing, files)
    {
      listing := [];
      var rest := files.Keys;
      while rest != {}
        invariant Distinct(listing)
        invariant Elems(listing) !! rest
        invariant Elems(listing) + rest == files.Keys
        decreases |rest|
      {
        var f :| f in rest;
        assert Elems(listing + [f]) == Elems(listing) + {f};
        listing := listing + [f];
        rest := rest - {f};
      }
    }

    /** One `File.delete()` call, reporting whether it succeeded. */
    method Delete(f: Path, refused: set<Path>) returns (deleted: bool)
      modifies this`files
      ensures deleted == DeleteSucceeds(old(OnDisk()), f, refused)
      ensures OnDisk() == TryDelete(old(OnDisk()), f, refused)
    {
      deleted := f in files && f !in refused;
      if deleted {
        files := files - {f};
      }
    }

    /** Delete the file and, when the delete reports failure, register it for deletion on exit. */
    method DeleteOrMarkOnExit(f: Path, refused: set<Path>)
      modifies this`files, this`deleteOnExit
      ensures OnDisk() == DeleteOrMark(old(OnDisk()), f, refused)
    {
      var deleted := Delete(f, refused);
      if !deleted {
        deleteOnExit := deleteOnExit + {f};
      }
    }

    /** The delete helper the write paths call on a failed file. */
    method DeleteFailedFile(f: Path, refused: set<Path>)
      modifies this`files, this`deleteOnExit
      ensures OnDisk() == DeleteFile(old(OnDisk()), f, refused, deleteFileMarks)
    {
      if deleteFileMarks {
        DeleteOrMarkOnExit(f, refused);
      } else {
        var deleted := Delete(f, refused);
      }
    }

    /** Commit: unclaim the files and delete each one, registering it for deletion on
        exit when the delete fails. A null collection changes nothing. */
    method DeleteStoredFiles(storedFiles: Option<seq<Path>>, refused: set<Path>)
      modifies this`files, this`deleteOnExit, this`queuedFiles
      ensures storedFiles.None? ==> queuedFiles == old(queuedFiles) && OnDisk() == old(OnDisk())
      ensures storedFiles.Some? ==>
                && queuedFiles == old(queuedFiles) - Elems(storedFiles.value)
                && OnDisk() == DeleteEach(old(OnDisk()), storedFiles.value, refused)
    {
      if storedFiles.Some? {
        var fs := storedFiles.value;
        queuedFiles := queuedFiles - Elems(fs);
        var i := 0;
        while i < |fs|
          invariant 0 <= i <= |fs|
          invariant OnDisk() == DeleteEach(old(OnDisk()), fs[..i], refused)
          invariant queuedFiles == old(queuedFiles) - Elems(fs)
        {
          DeleteOrMarkOnExit(fs[i], refused);
          assert fs[..i + 1] == fs[..i] + [fs[i]];
          DeleteEachSnoc(old(OnDisk()), fs[..i], fs[i], refused);
          i := i + 1;
        }
        assert fs[..|fs|] == fs;
      }
    }

    /** Release: unclaim the files without touching the directory. A null collection
        changes nothing. */
    method CancelQueuedFiles(fs: Option<seq<Path>>)
      modifies this`queuedFiles
      ensures queuedFiles == if fs.Some? then old(queuedFiles) - Elems(fs.value) else old(queuedFiles)
    {
      if fs.Some? {
        queuedFiles := queuedFiles - Elems(fs.value);
      }
    }

    /** Capacity eviction as written: the loop guard compares the listing's fixed length
        with the cap, so once the listing reaches the cap every unclaimed file goes. */
    method DiscardOldestFileIfNeeded(refused: set<Path>)
      requires storeDirectory.Some?
      modifies this`files, this`deleteOnExit, this`queuedFiles
      ensures queuedFiles == old(queuedFiles)
      ensures OnDisk() == if dirKind == Folder then Evicted(old(OnDisk()), queuedFiles, maxStoreCount, refused)
                          else old(OnDisk())
    {
      if dirKind == Folder {
        ghost var d0, q := OnDisk(), queuedFiles;
        var listing := ListFiles();
        assert |listing| == |d0.files| by { ListingLength(listing, files); }
        if |listing| >= maxStoreCount {
          var k := 0;
          while k < |listing| && |listing| >= maxStoreCount
            invariant 0 <= k <= |listing|
            invariant queuedFiles == q
            invariant OnDisk() == DeleteEach(d0, Unclaimed(listing[..k], q), refused)
          {
            var oldest := listing[k];
            EvictionStep(d0, listing, k, q, refused, OnDisk());
            if oldest !in queuedFiles {
              DeleteStoredFiles(Some([oldest]), refused);
              assert queuedFiles == q by { assert Elems([oldest]) == {oldest}; }
            }
            k := k + 1;
          }
          assert OnDisk() == Evicted(d0, q, maxStoreCount, refused) by {
            assert listing[..k] == listing;
            EvictionLoopOutcome(d0, listing, q, maxStoreCount, refused);
          }
        }
      }
    }

    /** Capacity eviction as its comment describes it: walking the listing sorted oldest
        first, discard unclaimed files only while the files not yet discarded are at least
        the cap. `sorted` is `listFiles()` after `Arrays.sort` with the store's comparator;
        no unclaimed file it keeps is older than one it discards. */
    method DiscardOldestFilesCorrected(sorted: seq<Path>, refused: set<Path>)
      requires dirKind == Folder && IsListing(sorted, files) && OldestFirst(sorted, older)
      modifies this`files, this`deleteOnExit, this`queuedFiles
      ensures queuedFiles == old(queuedFiles)
      ensures OnDisk() == DeleteEach(old(OnDisk()), IntendedTargets(sorted, queuedFiles, maxStoreCount), refused)
      ensures var t := IntendedTargets(sorted, queuedFiles, maxStoreCount);
              forall c, k :: c in t && k in sorted && k !in queuedFiles && k !in t ==> !older(k, c)
    {
      CorrectedEvictsOldestFirst(sorted, queuedFiles, maxStoreCount, older);
      ghost var d0, q := OnDisk(), queuedFiles;
      ghost var chosen: seq<Path> := [];
      var discarded := 0;
      var k := 0;
      while k < |sorted| && |sorted| - discarded >= maxStoreCount
        invariant 0 <= k <= |sorted|
        invariant queuedFiles == q
        invariant chosen == Chosen(sorted[..k], q, |sorted|, maxStoreCount)
        invariant discarded == |chosen|
        invariant OnDisk() == DeleteEach(d0, chosen, refused)
      {
        var oldest := sorted[k];
        IntendedStep(d0, sorted, k, q, |sorted|, maxStoreCount, refused, OnDisk());
        if oldest !in queuedFiles {
          DeleteStoredFiles(Some([oldest]), refused);
          assert queuedFiles == q by { assert Elems([oldest]) == {oldest}; }
          chosen := chosen + [oldest];
          discarded := discarded + 1;
        }
        k := k + 1;
      }
      if k < |sorted| {
        ChosenSaturated(sorted, k, q, |sorted|, maxStoreCount);
      } else {
        assert sorted[..k] == sorted;
      }
    }

    /** Discovery: claim every unclaimed, non-empty regular file and delete the
        zero-length ones, claimed or not. */
    method FindStoredFiles(refused: set<Path>) returns (found: seq<Path>)
      modifies this`files, this`deleteOnExit, this`queuedFiles
      ensures queuedFiles == old(queuedFiles) + Elems(found)
      ensures storeDirectory.Some? && dirKind == Folder ==>
                && Distinct(found)
                && Elems(found) == ClaimableSet(old(OnDisk()), old(queuedFiles))
                && OnDisk() == DeleteAll(old(OnDisk()), Tombstones(old(OnDisk())), refused)
      ensures !(storeDirectory.Some? && dirKind == Folder) ==> found == [] && OnDisk() == old(OnDisk())
    {
      found := [];
      if storeDirectory.Some? && dirKind == Folder {
        var values := ListFiles();
        ghost var d0 := OnDisk();
        var i := 0;
        while i < |values|
          invariant 0 <= i <= |values|
          invariant queuedFiles == old(queuedFiles)
          invariant Scan(OnDisk(), found) == ScanListing(d0, values[..i], queuedFiles, refused)
        {
          var value := values[i];
          ScanTurn(d0, values, i, queuedFiles, refused, Scan(OnDisk(), found));
          var length := if value in files then files[value].length else 0;
          if length == 0 {
            DeleteOrMarkOnExit(value, refused);
          } else if files[value].isFile && value !in queuedFiles {
            found := found + [value];
          }
          i := i + 1;
        }
        assert values[..i] == values;
        ScanFoundOutcome(d0, values, queuedFiles, refused);
        ScanDiskOutcome(d0, values, queuedFiles, refused);
      }
      queuedFiles := queuedFiles + Elems(found);
    }

    /** `write`: evict, then serialize a payload into a new file named by `getFilename`. */
    method Write(streamable: string, outcome: WriteOutcome, refused: set<Path>) returns (r: Option<Path>)
      modifies this`files, this`deleteOnExit, this`queuedFiles, this`reports
      ensures queuedFiles == old(queuedFiles)
      ensures storeDirectory.None? ==> r == None && OnDisk() == old(OnDisk()) && reports == old(reports)
      ensures storeDirectory.Some? ==>
                var name := getFilename(Streamable(streamable));
                var evicted := EvictedIf(dirKind, old(OnDisk()), queuedFiles, maxStoreCount, refused);
                var attempt := Opened(dirKind, outcome);
                && OnDisk() == AfterWrite(evicted, name, attempt, refused, deleteFileMarks)
                && r == (if attempt.Completed? then Some(name) else None)
                && reports == old(reports) + (if attempt.Failed? then Reported(hasDelegate, name, SerializationContext) else [])
    {
      if storeDirectory.None? {
        return None;
      }
      DiscardOldestFileIfNeeded(refused);
      var filename := getFilename(Streamable(streamable));
      match Opened(dirKind, outcome)
      case Completed(n) =>
        files := files[filename := FileInfo(n, true)];
        r := Some(filename);
      case FileNotFound(partial) =>
        if partial.Some? {
          files := files[filename := FileInfo(partial.value, true)];
        }
        r := None;
      case Failed(partial) =>
        if partial.Some? {
          files := files[filename := FileInfo(partial.value, true)];
        }
        if hasDelegate {
          reports := reports + [Report(filename, SerializationContext)];
        }
        DeleteFailedFile(filename, refused);
        r := None;
    }

    /** `enqueueContentForDelivery`: name the file, evict, then copy a pre-serialized
        report into it; every failure is reported and followed by a delete attempt. */
    method EnqueueContentForDelivery(content: string, outcome: WriteOutcome, refused: set<Path>)
      modifies this`files, this`deleteOnExit, this`queuedFiles, this`reports
      ensures queuedFiles == old(queuedFiles)
      ensures storeDirectory.None? ==> OnDisk() == old(OnDisk()) && reports == old(reports)
      ensures storeDirectory.Some? ==>
                var name := getFilename(Content(content));
                var evicted := EvictedIf(dirKind, old(OnDisk()), queuedFiles, maxStoreCount, refused);
                var attempt := Opened(dirKind, outcome);
                && OnDisk() == AfterCopy(evicted, name, attempt, refused, deleteFileMarks)
                && reports == old(reports) + (if attempt.Completed? then [] else Reported(hasDelegate, name, CopyContext))
    {
      if storeDirectory.None? {
        return;
      }
      var filename := getFilename(Content(content));
      DiscardOldestFileIfNeeded(refused);
      var attempt := Opened(dirKind, outcome);
      if attempt.Completed? {
        files := files[filename := FileInfo(attempt.length, true)];
      } else {
        if attempt.partial.Some? {
          files := files[filename := FileInfo(attempt.partial.value, true)];
        }
        if hasDelegate {
          reports := reports + [Report(filename, CopyContext)];
        }
        DeleteFailedFile(filename, refused);
      }
    }
  }
}
