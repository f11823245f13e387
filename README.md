# FileStore: a bounded on-disk spool of error reports

This project models `FileStore`, the Bugsnag Android notifier's persistent spool of
payload files. Payloads are written into one directory. The directory is kept under a
file-count cap by evicting files before each write. Delivery consumers check files out
of an in-memory claim set (`queuedFiles`), then release them for a retry or commit them
by deleting them.

The model has four modules:

- `FileSystem` holds the part of `java.io.File` the store relies on, as values. A `Disk`
  is the directory's entries (length, whether each is a regular file) plus the JVM's
  delete-on-exit registry. `File.delete()` succeeds exactly when the entry exists and the
  OS does not refuse. Which deletes the OS refuses is an input (`refused`), so every
  failure path can be stated.
- `Eviction` gives the reference outcome of `discardOldestFileIfNeeded` as written. It
  also has the oldest-first eviction the method's comment describes, with its properties
  proved (see Findings).
- `Discovery` gives the reference outcome of `findStoredFiles`. It also holds what the
  claim set guarantees across discovery, release and commit.
- `Store` holds the class `FileStore`. Its fields are the claim set and what the store
  sees of its directory. Its methods are the source's loops and updates, each proved
  against the functions above.

Inputs the source obtains from its environment become parameters:

- the cache directory, or its absence when preparing the directory throws (in `getCacheDir()`, `mkdirs()` or `exists()`);
- whether `mkdirs()` creates the directory;
- the directory's initial entries;
- the order `listFiles()` returns (left open: any order is a valid listing);
- how opening and writing a new file ends (`WriteOutcome`);
- the set of paths whose delete the OS refuses;
- whether the delete helper the write paths call on a failed file falls back to deletion on exit;
- the constructor's comparator, as a strict "older than" relation;
- the subclass's `getFilename` (an injected function `Payload -> Path`);
- whether a delegate is installed.

Delegate calls are recorded in the `reports` field as (file, context) pairs.

The model follows the code, including these behaviours a reader may not expect:

- Apart from a throw while preparing the directory, the constructor disables the store only
  when the path does not exist after `mkdirs()` (FileStore.java:61). An existing path that is not a directory keeps the store enabled.
  Writes into it then fail with `FileNotFoundException`, and eviction and discovery skip it.
- Once the listing reaches the cap, eviction does not stop when the count drops below the
  cap: its loop guard never changes (FileStore.java:150; see Findings).
- The delegate's context labels are `"Crash report serialization"` for a failed write
  (FileStore.java:129) and `"NDK Crash report copy"` for a failed copy (FileStore.java:88).
- A committed file whose delete the OS refuses stays on disk, only registered for
  deletion on exit (FileStore.java:216-218). It has left the claim set, so the next
  discovery hands it out again.
- Discovery deletes zero-length files even when they are claimed, and it leaves them in
  the claim set (FileStore.java:180-183).
- Discovery hands out only regular files (`isFile()`, FileStore.java:184).
- In `write`, a `FileNotFoundException` is caught the same way whether opening the file threw
  it or the payload's own serialization did after the file was opened (FileStore.java:116-124).
  In the second case the partial file stays on disk, unreported, and the next discovery hands
  it out.

## Model

| member | source | states |
|---|---|---|
| Store.FileStore.constructor | bugsnag-android-core/src/main/java/com/bugsnag/android/FileStore.java:48-70 | The store path is the cache directory plus the folder name. It is None when preparing the directory throws or the path still does not exist after `mkdirs()`. An existing non-directory keeps the store enabled. The comparator, the delegate and the delete helper's fallback are kept as given. The claim set starts empty. |
| Store.FileStore.ListFiles | bugsnag-android-core/src/main/java/com/bugsnag/android/FileStore.java:144 | The returned listing names every directory entry exactly once. |
| Store.FileStore.Delete | bugsnag-android-core/src/main/java/com/bugsnag/android/FileStore.java:181 | `delete()` returns true exactly when the file exists and the OS does not refuse. Only then is the entry gone. |
| Store.FileStore.DeleteOrMarkOnExit | bugsnag-android-core/src/main/java/com/bugsnag/android/FileStore.java:216-218 | A failed delete registers the file for deletion on exit. Nothing else changes. |
| Store.FileStore.DeleteStoredFiles | bugsnag-android-core/src/main/java/com/bugsnag/android/FileStore.java:209-224 | A null collection changes nothing. Otherwise the files leave the claim set. Each one is deleted or registered for deletion on exit, in order. Other entries are untouched. |
| Store.FileStore.CancelQueuedFiles | bugsnag-android-core/src/main/java/com/bugsnag/android/FileStore.java:198-207 | The claim set loses exactly the given files. A null collection changes nothing. The directory is never touched. |
| Store.FileStore.DiscardOldestFileIfNeeded | bugsnag-android-core/src/main/java/com/bugsnag/android/FileStore.java:140-161 | When the path is not a directory nothing changes. Otherwise the directory ends as `Evicted` says: unchanged below the cap, and at or above it every unclaimed file deleted or registered. The claim set is unchanged and claimed files are never touched. |
| Store.FileStore.DiscardOldestFilesCorrected | bugsnag-android-core/src/main/java/com/bugsnag/android/FileStore.java:147-158 | Over the listing sorted by the store's comparator, the corrected loop deletes exactly `IntendedTargets`: unclaimed files in order, only while the files not yet discarded are at least the cap. No unclaimed file it keeps is ordered strictly before one it discards. |
| Store.FileStore.FindStoredFiles | bugsnag-android-core/src/main/java/com/bugsnag/android/FileStore.java:166-196 | The result has no repetitions. It is exactly the non-empty, regular, unclaimed files, and they join the claim set. Exactly the zero-length entries are deleted or registered, claimed or not. A disabled store or non-directory path returns nothing and changes nothing. |
| Store.FileStore.DeleteFailedFile | bugsnag-android-core/src/main/java/com/bugsnag/android/FileStore.java:91 | The delete helper ends in `DeleteFile`: one delete, with the registration fallback exactly when the store is configured with it. |
| Store.FileStore.Write | bugsnag-android-core/src/main/java/com/bugsnag/android/FileStore.java:105-138 | A disabled store returns null and changes nothing. Otherwise eviction runs first. A completed write leaves the named file and returns its name. `FileNotFoundException` reports nothing and leaves the evicted directory, plus the partial file when the file was already opened. Any other failure reports "Crash report serialization" to the delegate and attempts to delete the partial file. |
| Store.FileStore.EnqueueContentForDelivery | bugsnag-android-core/src/main/java/com/bugsnag/android/FileStore.java:72-103 | A disabled store changes nothing. Otherwise eviction runs and the content is copied into the named file. Every failure, `FileNotFoundException` among them, reports "NDK Crash report copy" and attempts a delete. |
| Store.AfterWriteOutcome | bugsnag-android-core/src/main/java/com/bugsnag/android/FileStore.java:116-132 | After a write: a completed file exists with its length. `FileNotFoundException` from opening changes nothing; one thrown after opening leaves the partial file with its length and registers nothing. After any other failure the file is gone unless the OS refuses. No other entry changes. Only the named file may be registered for deletion on exit, and not even that when the delete helper has no fallback. |
| Store.AfterCopyOutcome | bugsnag-android-core/src/main/java/com/bugsnag/android/FileStore.java:80-91 | After a copy, a completed file exists with its length, and every failure leaves the file gone unless the OS refuses. No other entry changes. Only the named file may be registered for deletion on exit, and not even that when the delete helper has no fallback. |
| Store.WrittenReportIsDiscovered | bugsnag-android-core/src/main/java/com/bugsnag/android/FileStore.java:116-122 | The next discovery hands out an unclaimed non-empty file that `write` completed. If the completed file is empty, discovery deletes or registers it and does not hand it out. |
| Store.PartialFromFileNotFoundIsDiscovered | bugsnag-android-core/src/main/java/com/bugsnag/android/FileStore.java:116-124 | A non-empty, unclaimed partial file left by a `FileNotFoundException` after opening is handed out by the next discovery. |
| FileSystem.TryDeleteOutcome | bugsnag-android-core/src/main/java/com/bugsnag/android/FileStore.java:181 | One `delete()` call removes the file exactly when it succeeds, removes nothing else and registers nothing for deletion on exit. |
| FileSystem.DeleteFileOutcome | bugsnag-android-core/src/main/java/com/bugsnag/android/FileStore.java:91 | The delete helper removes the file when the delete succeeds and touches nothing else. At most that file is registered for deletion on exit, and only with the fallback. Without the fallback a failed delete changes nothing. |
| FileSystem.DeleteOrMarkOutcome | bugsnag-android-core/src/main/java/com/bugsnag/android/FileStore.java:216-218 | Afterwards the file is gone or registered for deletion on exit. It is gone unless the OS refused. Nothing else changes. |
| FileSystem.DeleteEachOutcome | bugsnag-android-core/src/main/java/com/bugsnag/android/FileStore.java:215-219 | Every listed file is gone or registered. Every listed file the OS does not refuse is gone. Files outside the list are untouched. |
| FileSystem.DeleteEachDistinct | bugsnag-android-core/src/main/java/com/bugsnag/android/FileStore.java:215-219 | Deleting a repetition-free list one by one is the closed-form `DeleteAll` of its elements. |
| FileSystem.ListingLength | bugsnag-android-core/src/main/java/com/bugsnag/android/FileStore.java:144-146 | `files.length` equals the number of directory entries. |
| Eviction.UnclaimedElems | bugsnag-android-core/src/main/java/com/bugsnag/android/FileStore.java:150-157 | The files the loop hands to `deleteStoredFiles` are exactly the listed files outside the claim set, without repetitions. |
| Eviction.EvictionStep | bugsnag-android-core/src/main/java/com/bugsnag/android/FileStore.java:150-157 | One loop turn deletes the k-th listed file when it is unclaimed. Otherwise the turn leaves the directory as it was. |
| Eviction.EvictedOutcome | bugsnag-android-core/src/main/java/com/bugsnag/android/FileStore.java:143-160 | Below the cap nothing changes. Claimed files are kept unchanged. At or above the cap every unclaimed entry is gone or registered for deletion on exit. |
| Eviction.EvictionLoopOutcome | bugsnag-android-core/src/main/java/com/bugsnag/android/FileStore.java:146-159 | The loop over any order of a listing at or above the cap ends in the `Evicted` state. |
| Eviction.AsWrittenEvictsEveryUnclaimedFile | bugsnag-android-core/src/main/java/com/bugsnag/android/FileStore.java:150 | At or above the cap, with no refused delete, only the claimed files survive. |
| Eviction.CapacityFiveScenario | bugsnag-android-core/src/main/java/com/bugsnag/android/FileStore.java:146-158 | Cap 5 and five unclaimed files: as written, all five are deleted. The corrected eviction deletes only the oldest one. |
| Eviction.ChosenIsOldestUnclaimed | bugsnag-android-core/src/main/java/com/bugsnag/android/FileStore.java:147 | The corrected eviction deletes a prefix of the unclaimed files in sorted order. The prefix has `total - cap + 1` files, the number that must go to drop below the cap, or all unclaimed files if there are fewer. |
| Eviction.UnclaimedOldestFirst | bugsnag-android-core/src/main/java/com/bugsnag/android/FileStore.java:148-153 | Skipping the claimed files keeps a listing sorted by the comparator sorted. |
| Eviction.CorrectedEvictsOldestFirst | bugsnag-android-core/src/main/java/com/bugsnag/android/FileStore.java:147-148 | Over a sorted listing, no unclaimed file the corrected eviction keeps is ordered strictly before a file it discards. |
| Eviction.IntendedStep | bugsnag-android-core/src/main/java/com/bugsnag/android/FileStore.java:150-157 | One turn of the corrected loop adds the k-th file to the targets and deletes it when it is unclaimed. |
| Eviction.ChosenSaturated | bugsnag-android-core/src/main/java/com/bugsnag/android/FileStore.java:150 | Once the files left are below the cap, the corrected loop discards nothing more. |
| Eviction.IntendedTargetsOfListing | bugsnag-android-core/src/main/java/com/bugsnag/android/FileStore.java:147-150 | With enough unclaimed files, the corrected targets are exactly the excess in number, distinct, and all listed. |
| Eviction.IntendedEvictionLeavesRoomForOne | bugsnag-android-core/src/main/java/com/bugsnag/android/FileStore.java:141-150 | With enough unclaimed files and no refused delete, the corrected eviction leaves exactly cap − 1 files, so the following write brings the store to the cap. |
| Discovery.ScanListingOutcome | bugsnag-android-core/src/main/java/com/bugsnag/android/FileStore.java:178-187 | The scan hands out only listed, non-empty, regular, unclaimed files. Every listed zero-length file is gone or registered. Only listed zero-length files may disappear, and nothing is rewritten. |
| Discovery.ScanTurn | bugsnag-android-core/src/main/java/com/bugsnag/android/FileStore.java:178-187 | One loop turn over the i-th listed entry. |
| Discovery.ScanFoundOutcome | bugsnag-android-core/src/main/java/com/bugsnag/android/FileStore.java:178-187 | Over a complete listing the scan hands out each claimable file exactly once and nothing else. |
| Discovery.ScanDiskOutcome | bugsnag-android-core/src/main/java/com/bugsnag/android/FileStore.java:180-183 | Over a complete listing the scan deletes or registers exactly the zero-length entries. |
| Discovery.ClaimableIsFound | bugsnag-android-core/src/main/java/com/bugsnag/android/FileStore.java:184-186 | Every claimable file is handed out. |
| Discovery.NoDoubleClaim | bugsnag-android-core/src/main/java/com/bugsnag/android/FileStore.java:184-191 | With no release or commit in between, a second discovery hands out nothing the first did. |
| Discovery.ReleasedFileIsRediscovered | bugsnag-android-core/src/main/java/com/bugsnag/android/FileStore.java:198-207 | A file handed out and then released is handed out by the next discovery. |
| Discovery.CommittedFileIsNotRediscovered | bugsnag-android-core/src/main/java/com/bugsnag/android/FileStore.java:209-219 | A committed file whose delete succeeded is not handed out by the next discovery over the directory the commit leaves. |
| Discovery.RefusedCommitIsRediscovered | bugsnag-android-core/src/main/java/com/bugsnag/android/FileStore.java:213-218 | A committed non-empty file whose delete the OS refuses stays and is registered for deletion on exit. The next discovery hands it out again. |
| Discovery.DeleteEachKeepsRefused | bugsnag-android-core/src/main/java/com/bugsnag/android/FileStore.java:216-218 | A file whose delete the OS refuses is never removed. |

## Left out

- Locks and concurrency (`lock`, `ConcurrentSkipListSet`): each operation runs as one step. Races between eviction and the locked operations are not modelled.
- Sorting (`Arrays.sort` with the comparator): the as-written eviction's outcome does not depend on order, so any listing order is allowed. The corrected eviction takes the sorted listing as a parameter and requires it to be sorted by the comparator. The sort itself is not modelled.
- `listFiles()` returning null (an I/O error while listing) is not modelled: a directory's listing is always its entries.
- Store.FileStore.DiscardOldestFileIfNeeded: requires an enabled store. Java would throw a `NullPointerException` on a null path, and both callers check for one first.
- Serialization and character encoding (`JsonStream`, `OutputStreamWriter`, UTF-8): a written file is an abstract length. How the write ends is an input.
- Stream closing (`IOUtils.closeQuietly`, `out.close()`) and its failures: they are only logged.
- Logging (`Logger`): it has no effect on state.
- `IOUtils.deleteFile`: its body is not in FileStore.java. The model takes it as one `File.delete()`. When `deleteFileMarks` is set, a failed delete is followed by registration for deletion on exit. Its logging is left out.
- Store.FileStore.Write: the file `getFilename` names is taken to be an entry of the store directory.
- Store.FileStore.EnqueueContentForDelivery: the same assumption about `getFilename` holds.
- Process teardown: delete-on-exit is only the set of registered paths and is never flushed.
- The delegate's declared type (`EventStore.Delegate` field vs `FileStore.Delegate` constructor parameter) is not modelled: a delegate is present or absent.
- Exceptions passed to the delegate are not modelled: a report records only the file and the context.

## Findings

| source | as written | input that shows it | evidently intended | confidence | as-written member | corrected member |
|---|---|---|---|---|---|---|
| bugsnag-android-core/src/main/java/com/bugsnag/android/FileStore.java:150 | The loop guard `files.length >= maxStoreCount` tests the listing's fixed length. Once the directory reaches the cap, every unclaimed file is deleted. | cap 5, five unclaimed files t1..t5 (oldest first): all five are deleted before the sixth report is written | Delete the oldest unclaimed files only until the files left drop below the cap. In the example only t1 is deleted. | high, not executed | Eviction.AsWrittenEvictsEveryUnclaimedFile, Eviction.CapacityFiveScenario | Store.FileStore.DiscardOldestFilesCorrected, Eviction.IntendedEvictionLeavesRoomForOne |

The class's `write` and `enqueueContentForDelivery` keep the as-written eviction, because they model the code.
