# AnimeOrganizer, modelled in Dafny

AnimeOrganizer watches a download directory. Each new entry gets a *mover* thread. The
mover waits until the download is finished (lftp leaves marker files while it works). It
then copies the entry into a library folder, optionally into a subfolder named after the
anime title. A *library watcher* keeps a second copy of the library in line with the first.
At start-up it deletes destination files the source lacks and copies source files the
destination lacks. It then follows create and delete events under the source tree.

This project models the four event loops and the mover:

- `Watcher` (older) and `NormalWatcher` (newer) decide which events start a mover.
- `Mover` computes the target path, tests for an unfinished download and retries the copy.
- The two `LibraryWatcher`s reconcile and then follow events. One is the older version in
  `src/`; the other is the later one in the `dev.bratton` package.

Properties are proved about the resulting behaviour:

- no name gets two movers;
- why each loop ends;
- that a moved entry arrives with its bytes;
- the exact effect of the recursive delete and of the copies;
- that the start-up reconciliation converges and is idempotent.

## Layout

| file | module | contents |
|---|---|---|
| wrappers.dfy | Wrappers | `Option` |
| strings.dfy | Strings | `contains` and `String.replace` |
| paths.dfy | Paths | paths as component sequences; rendering and parsing of path strings |
| filesystem.dfy | FileSystem | the disk as a tree of `File`/`Dir` nodes; `listFiles`, `isDirectory` |
| fileops.dfy | FileOps | `Files.delete`, `mkdirs`, `Files.copy` with `REPLACE_EXISTING`, writing a file |
| events.dfy | Events | watch events and keys, and why a loop stops |
| registry.dfy | Shared | the shared disk; `Main.detected` and `Main.MOVED` |
| screening.dfy | Screening | which events start movers (both movers' watchers) |
| watcher.dfy | Watchers | class `Watcher` |
| normal_watcher.dfy | NormalWatchers | class `NormalWatcher` |
| mover.dfy | Movers | destination paths, `isDownloading`, `copyDirectory`, the retry loop, class `Mover` |
| inventory.dfy | Inventory | `FileCompare` and `recursiveScan` |
| deletion.dfy | Deletion | `recursiveDelete` |
| reconcile.dfy | Reconcile | the constructors' reconciliation and its convergence |
| sync.dfy | Syncing | the library watchers' event handling as functions |
| streams.dfy | Streams | the older `copyFile`'s stream transfer |
| legacy_library.dfy | LegacyLibrary | class `LibraryWatcher` of `src/LibraryWatcher.java` |
| library.dfy | Library | class `LibraryWatcher` of `src/main/java/dev/bratton/LibraryWatcher.java` |

## Environment as input

Threads, the watch service and the passing of time are not modelled. What they deliver
becomes input:

- An event loop receives the sequence of keys that `take()` returns. The loop ends when the
  sequence runs out, which stands for `take()` being interrupted. Each key carries:
  - its polled events;
  - a function saying what other threads and processes do to the disk while the loop
    waits in `take()`; the loop then handles the events on the disk it left itself, moved
    on by that function;
  - the value that `reset()` returns.
- A mover receives one `Pass` per pass of its loop. Its function says what other
  processes, such as the download, do to the disk while the mover sleeps. Its `inUse`
  flag says whether another process holds the entry open when the copy is tried; the
  copy then throws an IOException, which the loop retries.
- An event of the library watchers carries one `Pass` per attempt of the copy it starts.
  Its `inUse` flag says whether another process, such as the one writing the file, still
  holds the file open at that attempt. Its function says what other processes do to the
  disk during the older copy's sleep after a failed attempt. Past the listed attempts
  nobody holds the file and the disk no longer changes. The newer copy makes only the
  first attempt.
- The anime title, which AnitomyJ parses out of the name, is an input to the `Mover`
  constructor.
- Printed messages are left out. Ghost counters record how often a "waiting" notice is
  printed.

## Behaviour of the code as written

The model follows the code. Where the code does something a reader might not expect, the
model does it too:

- **Null event contexts in the library watchers.** Both `LibraryWatcher`s call
  `event.context().toString()` before testing for OVERFLOW. An event without a context
  therefore throws, and the thread ends (`Crashed`).
- **Null event contexts in the mover watchers.** `Watcher` also throws on a context-less
  event that is not OVERFLOW. `NormalWatcher` ignores such an event (`SkippingNeverCrashes`).
- **`isDownloading` is not recursive in effect.** It maps its recursive call over the
  subdirectories and then uses `anyMatch(f -> true)`. So a directory with any subdirectory
  at all counts as downloading, however complete it is.
- **`recursiveDelete` has no stop at the library root.** It re-applies `replace(source,
  destination)` to each parent's absolute path, and it deletes every directory it leaves
  empty, up to and past the destination root (`PruneRemovesEmptied`). When the source string
  occurs in a destination path, the re-mapping sends the walk elsewhere. Only when it is
  absent is the walk a plain delete-and-prune (`ChainIsPrune`).
- **The older `copyFile` can wait forever.** Its retry loop waits, and the disk moves on,
  while the file is held open elsewhere or the streams cannot be opened. It then copies the
  bytes the file holds when the streams open (`HeldCreateWaits`). The loop never ends when
  the streams still do not open once the file is free and the disk has settled, for
  instance because the source has vanished or the target's parent cannot be created
  (`Blocked`).
- **The newer `copyFile` gives up at once.** Its one `Files.copy` throws on a file that is
  held open elsewhere. Only a message is printed, and nothing is copied (`HeldCopyFails`).
- **The older `copyFile` of a file onto itself empties it.** Opening the output stream
  creates or truncates the target before any byte is read. When the mapped target is the
  source itself, the reads then find it empty and it stays empty. The newer `Files.copy`
  leaves such a file alone (`CopyOntoItself`).
- **The older constructor can hang.** Its copies run inside `parallelStream().forEach`,
  which returns only when every copy does. When one copy's streams never open, the
  constructor never returns (`returned`, `ReconcileReturns`).
- **A directory mover never gives up.** `FileUtils.copyDirectory` reports a missing source
  as a plain `IOException`, which the mover retries. Only the single-file branch can stop on
  `NoSuchFileException` (`DirectoryMoverNeverAbandons`).
- **A failed `createFolder` does not stop the move.** It only interrupts the thread. With
  the interrupt flag set, each later `sleep()` returns at once and the loop goes on.
- **An empty title adds no folder level.** When AnitomyJ finds no title, the subfolder
  target collapses to `destination/filename` (`DestinationShape`).

## Model

| member | source | states |
|---|---|---|
| Screening.AdmitSound | src/Watcher.java:79-89 | every mover started for a key's events is for a name not detected before and without the download-status or TeraCopy marker; it records whether the name resolved to a directory on the disk |
| Screening.AdmitNames | src/Watcher.java:79-89 | a name gets a mover exactly when it was not detected before and some handled event before the first fatal one names it |
| Screening.AdmitDistinct | src/Watcher.java:79-89 | the names detected so far stay free of duplicates after one key's events |
| Screening.WatchDistinct | src/Watcher.java:60-99 | over any run of keys no name gets two movers, and none is started for a name detected before |
| Screening.WatchInterrupted | src/Watcher.java:64-69 | the loop runs until `take()` is interrupted exactly when every key survives its events and `reset()` keeps it valid |
| Screening.CrashIndexFirst | src/Watcher.java:77-79 | handling stops at the first event without a context that is not OVERFLOW, and no such event precedes it |
| Screening.NamesAppend | src/Watcher.java:88 | the detected list grows by the names of the movers started, in order |
| Watchers.Watcher.ProcessEvents | src/Watcher.java:59-100 | the movers started and the growth of `Main.detected` are those of `Watch` over the keys; the result is why the loop ended; each `take()` moves the disk on by the key's activity, and the disk at the end is the one `Watch` reaches; `Main.MOVED` is untouched |
| Watchers.Watcher.PollEvents | src/Watcher.java:71-90 | one key's events start the movers `Admit` gives on the disk after `take()`, and the result says whether a context-less event threw |
| Watchers.Watcher.CreateMover | src/Watcher.java:102-110 | starts exactly one mover, for the entry and its directory flag |
| Watchers.Watcher.Run | src/Watcher.java:50-57 | sets `watching`, then behaves as `processEvents` |
| Watchers.Watcher.constructor | src/Watcher.java:32-38 | stores the settings; no mover started, not yet watching |
| Screening.SkippingNeverCrashes | src/NormalWatcher.java:63-73 | a loop that passes null names to `handleFile` never ends by an exception |
| NormalWatchers.NormalWatcher.ProcessEvents | src/NormalWatcher.java:51-83 | the movers started and `Main.DETECTED` are those of `Watch` with null names skipped, each key on the disk as its activity leaves it; the result is why that loop ended (never a crash, by `SkippingNeverCrashes`) |
| NormalWatchers.NormalWatcher.PollEvents | src/NormalWatcher.java:63-73 | one key's events start the movers `Admit` gives |
| NormalWatchers.NormalWatcher.HandleFile | src/NormalWatcher.java:85-101 | a named event that is not OVERFLOW, not detected before and not marked adds the name to the detected list and starts one mover with the name's directory flag; anything else changes nothing |
| Movers.DestinationShape | src/Mover.java:58-72 | the target is `destination/title/filename` with a subfolder and `destination/filename` without; it lies in the folder that is created |
| Movers.StatusFileRule | src/Mover.java:117-118 | anything but a directory is downloading exactly when `name.lftp-pget-status` exists beside it |
| Movers.EntryMakesDownloading | src/Mover.java:110-116 | a directory with an entry whose path contains ".lftp", or with any subdirectory, is downloading |
| Movers.DownloadingEntry | src/Mover.java:110-116 | conversely, a downloading directory has such an entry |
| Movers.CopyDirectoryMirrors | src/Mover.java:82-83 | after `copyDirectory` every file below the source has its twin below the target, and nothing outside the target changes |
| Movers.Settle | src/Mover.java:74-103 | the loop takes at most one pass per input element, and it is still waiting exactly when it has used every one |
| Movers.SettleExplained | src/Mover.java:74-103 | the loop ends at the first pass that does not retry: every earlier pass retried; a pass that ends it found the entry no longer downloading and not held by another process; it abandons on `NoSuchFileException` and otherwise has copied; a loop that never ends has seen every pass |
| Movers.HeldEntryWaits | src/Mover.java:82-100 | an entry another process holds open at every pass is never copied and never given up: the mover is still waiting after all the passes |
| Movers.DirectoryMoverNeverAbandons | src/Mover.java:82-99 | a directory mover never stops on a missing entry |
| Movers.MovedFileKeepsBytes | src/Mover.java:84-86 | a moved file arrives with the bytes it had when copied |
| Movers.MovedDirectoryMirrors | src/Mover.java:82-83 | a moved directory arrives whole: each file below it has its twin below the target |
| Movers.Mover.PerformMove | src/Mover.java:74-107 | the outcome is `Settle` over the passes, a pass on a held entry failing with an IOException and being retried; `fileMoved` is set exactly on success, and only then is the name added to `Main.MOVED`; the "being used" notice is printed at most once |
| Movers.Mover.SetupDestinationFolder | src/Mover.java:58-72 | creates the destination folder (or the subfolder) and returns `DestinationPath` |
| Movers.Mover.CreateFolderAt | src/Mover.java:122-135 | runs `mkdirs` only when nothing exists at the path; the disk afterwards is `CreateFolder` of it |
| Movers.Mover.Run | src/Mover.java:52-56 | sets up the folder, then moves `source/filename` to the target |
| Movers.Mover.constructor | src/Mover.java:34-42 | stores the settings; nothing moved or tried yet |
| Inventory.ContainsIsMembership | src/LibraryWatcher.java:204-211 | `List.contains` under `FileCompare.equals` (same name and size) is membership |
| Inventory.RecursiveScan | src/LibraryWatcher.java:173-187 | appends the inventory `Scan` of the tree to the list; nothing when `listFiles()` is null |
| Inventory.ScanListing | src/main/java/dev/bratton/LibraryWatcher.java:138-152 | the loop over a listing appends the entries of each file and recursively of each subdirectory, in listing order |
| Inventory.ScanEntry | src/main/java/dev/bratton/LibraryWatcher.java:144-148 | one listed entry appends its own entry when it is a regular file (its path with the prefix removed, and its length), or the whole inventory below it when it is a directory |
| Inventory.ScanComplete | src/LibraryWatcher.java:173-187 | every regular file below the root has its entry: its path with the prefix removed, and its length |
| Inventory.ScanSound | src/LibraryWatcher.java:173-187 | every entry comes from a regular file strictly below a root that lists |
| Inventory.ScanKidsCount | src/LibraryWatcher.java:173-187 | the inventory has one entry per regular file |
| Deletion.ChainIsPrune | src/LibraryWatcher.java:150-171 | when every path on the way up maps to itself, `recursiveDelete` as written is delete-then-prune-empty-parents |
| Deletion.CleanMapsUpward | src/LibraryWatcher.java:151 | a path free of the source string, and each of its ancestors, maps to itself |
| Deletion.PruneFiles | src/LibraryWatcher.java:157-168 | the delete removes the file at the path and changes no other file |
| Deletion.PruneShrinks | src/LibraryWatcher.java:157-168 | the delete creates nothing |
| Deletion.PruneRemovesEmptied | src/LibraryWatcher.java:166-168 | deleting the only thing below a directory removes that directory too, whatever its depth |
| Reconcile.Missing | src/LibraryWatcher.java:41-46 | the filter keeps exactly the entries of one list that the other lacks |
| Reconcile.ResizedIsReplaced | src/LibraryWatcher.java:38-55 | a destination file whose length differs from the source file at the same relative path has its entry in the deletion list and the source entry in the copy list, and afterwards holds the source bytes |
| Reconcile.SameEntriesNoAction | src/LibraryWatcher.java:41-46 | lists with the same entries cause no deletion and no copy |
| Reconcile.CopyOneEffect | src/LibraryWatcher.java:121-148 | a copy of a ready file puts the source bytes at the mapped target and changes no other file; the older copy's streams open |
| Reconcile.CopyOntoItself | src/LibraryWatcher.java:121-148 | when the mapped target is the source file itself, the older copy's streams open and leave it empty, while the newer copy leaves its bytes as they were |
| Reconcile.CopyAllEffect | src/LibraryWatcher.java:45-55 | independent ready copies put each source's bytes at its target and touch no other file |
| Reconcile.DeleteOneEffect | src/LibraryWatcher.java:150-171 | deleting a clean target removes exactly that file and creates no directory |
| Reconcile.DeleteAllEffect | src/LibraryWatcher.java:41-43 | the deletions remove exactly the files at the listed targets and create no directory |
| Reconcile.DeletedIff | src/LibraryWatcher.java:41-43 | a destination file is deleted exactly when the source has no file with the same relative path and size |
| Reconcile.CopiedIff | src/LibraryWatcher.java:45-49 | a target is written exactly when the source has a file there whose entry the destination lacks, and it is written from that file |
| Reconcile.MirroredAt | src/LibraryWatcher.java:38-55 | afterwards a destination file exists at a relative path exactly when a source file does, with the same length |
| Reconcile.ReconcileConverges | src/LibraryWatcher.java:38-55 | afterwards the destination inventory equals the source inventory and the source is unchanged; the older constructor returns, since none of its copies waits |
| Reconcile.ReconcileIdempotent | src/main/java/dev/bratton/LibraryWatcher.java:29-38 | reconciling the converged trees again finds nothing to delete or copy and changes nothing |
| Streams.Transfer | src/LibraryWatcher.java:130-136 | the read/write loop writes exactly the rest of the input, in order |
| Streams.InputStream.Read | src/LibraryWatcher.java:132-135 | 0 into an empty buffer, -1 at end of file, otherwise a non-empty chunk of the next bytes |
| Streams.OutputStream.Write | src/LibraryWatcher.java:134 | appends the first `length` bytes of the buffer |
| LegacyLibrary.LibraryWatcher.constructor | src/LibraryWatcher.java:32-55 | the disk afterwards is `Reconciled` with the older copy, and `returned` says whether every copy's streams open, which is whether the constructor returns at all |
| LegacyLibrary.LibraryWatcher.DeleteEach | src/LibraryWatcher.java:41-43 | deletes each listed entry in turn (`DeleteAll`) |
| LegacyLibrary.LibraryWatcher.CopyEach | src/LibraryWatcher.java:45-55 | copies each listed entry in turn (`CopyAll`) and reports whether every copy's streams open (`CopiesOpen`) |
| LegacyLibrary.LibraryWatcher.RecursiveDelete | src/LibraryWatcher.java:150-171 | the disk afterwards is `DeleteChain` of the path |
| LegacyLibrary.LibraryWatcher.TryDeleteFile | src/LibraryWatcher.java:160-164 | a delete that succeeds gives the disk without the entry; one that fails leaves the disk as it was (`TryDelete`) |
| LegacyLibrary.LibraryWatcher.CopyFile | src/LibraryWatcher.java:121-148 | creates the parents, then retries while the file is held or the streams do not open, the disk moving on by each pass's activity during the sleep; the disk is `WaitingCopy`: once both streams open, the target is created or emptied and then gets what the source holds at that attempt; the result says whether the streams ever open; the waiting notice is printed once, exactly when some attempt failed |
| LegacyLibrary.LibraryWatcher.ProcessEvents | src/LibraryWatcher.java:82-101 | the stop reason and the disk are those of `Follow` over the keys: each key's events are handled on the disk the previous pass left, moved on by the key's activity |
| LegacyLibrary.LibraryWatcher.PollEvents | src/LibraryWatcher.java:86-95 | one key's events act as `Syncing.PollEvents` |
| LegacyLibrary.LibraryWatcher.HandleFile | src/LibraryWatcher.java:103-119 | a delete event runs `recursiveDelete`, a create event `copyFile` with the event's passes (which empties a target that is its own source), on the resolved path; the loop stops when that copy never returns, decided on the disk the copy's wait leaves |
| Syncing.PollEventsStops | src/LibraryWatcher.java:86-95 | a pass over events ends early only by a context-less event or an older copy that waits forever; in the newer watcher exactly when some event has no context |
| Syncing.SkippedEventsChangeNothing | src/LibraryWatcher.java:90-92 | named OVERFLOW events and events naming TeraCopy leave the disk and the loop unchanged |
| Syncing.FollowEnds | src/LibraryWatcher.java:82-101 | the loop runs until interrupted exactly when every key is valid and its pass, from the disk the earlier passes left, goes through; a crash means some event had no context |
| Syncing.FollowAppend | src/LibraryWatcher.java:82-101 | two runs of keys in a row compose: the second starts from the disk the first left when the first went through, and otherwise the loop ended in the first |
| Syncing.CreateThenDelete | src/LibraryWatcher.java:103-119 | a key with a create event whose copy finds the file free at its first attempt puts the source bytes at the mirrored target, and a later key with a delete event of the same entry removes it again, whatever other processes did in between |
| Syncing.DeleteChainMirrors | src/LibraryWatcher.java:150-171 | a delete event on a clean path deletes the mirrored destination path and prunes what it empties |
| Syncing.DeleteEventMirrors | src/LibraryWatcher.java:106-108 | a delete event removes the mirrored destination file and changes no other file |
| Syncing.CreateEventMirrors | src/LibraryWatcher.java:110-118 | a create event whose copy finds the file free at its first attempt puts the source file's bytes at the mirrored destination path, changes no other file and, in the older watcher, does not block |
| Syncing.WaitExplained | src/LibraryWatcher.java:129-145 | the older copy's wait stops at the first attempt that finds the file free and the streams open, on the disk as the sleeps before it left it; every earlier attempt found the file held or the streams closed |
| Syncing.HeldCreateWaits | src/LibraryWatcher.java:110-145 | an older create event blocks exactly when the streams do not open where the wait stops; otherwise the twin gets the bytes the source holds at that attempt and no other file changes |
| Syncing.HeldCopyFails | src/main/java/dev/bratton/LibraryWatcher.java:99-111 | a newer create event on a file held open elsewhere copies nothing: the loop goes on and no regular file changes |
| Library.LibraryWatcher.constructor | src/main/java/dev/bratton/LibraryWatcher.java:25-38 | the disk afterwards is `Reconciled` with the newer copy |
| Library.LibraryWatcher.DeleteEach | src/main/java/dev/bratton/LibraryWatcher.java:32-34 | deletes each listed entry in turn (`DeleteAll`) |
| Library.LibraryWatcher.CopyEach | src/main/java/dev/bratton/LibraryWatcher.java:36-38 | copies each listed entry in turn (`CopyAll`) |
| Library.LibraryWatcher.RecursiveDelete | src/main/java/dev/bratton/LibraryWatcher.java:113-136 | the disk afterwards is `DeleteChain` of the path |
| Library.LibraryWatcher.TryDeleteFile | src/main/java/dev/bratton/LibraryWatcher.java:123-127 | a delete that succeeds gives the disk without the entry; one that fails leaves the disk as it was (`TryDelete`) |
| Library.LibraryWatcher.CopyFile | src/main/java/dev/bratton/LibraryWatcher.java:99-111 | creates the parents, then one `Files.copy`, which fails when the file is held open elsewhere; a failure leaves the disk after `mkdirs` (`OneShotCopy`) |
| Library.LibraryWatcher.ProcessEvents | src/main/java/dev/bratton/LibraryWatcher.java:66-85 | the stop reason and the disk are those of `Follow` over the keys: each key's events are handled on the disk the previous pass left, moved on by the key's activity |
| Library.LibraryWatcher.PollEvents | src/main/java/dev/bratton/LibraryWatcher.java:70-79 | one key's events act as `Syncing.PollEvents` |
| Library.LibraryWatcher.HandleFile | src/main/java/dev/bratton/LibraryWatcher.java:87-97 | a delete event runs `recursiveDelete`, a create event `copyFile` with the event's passes; it never stops the loop |

## Left out

- Threads and `parallelStream`: every mover runs to its end in turn, and the constructors' parallel deletions and copies run in list order. Interleavings between threads are not modelled, and neither is the unsynchronised sharing of `Main.detected` and `Main.MOVED`.
- `Thread.sleep`, interrupts and wait times: each pass of a mover's loop is one element of its input. The `waitTime` and `time` settings are stored but play no part.
- AnitomyJ: `getAnimeTitle` is a foreign parser; the title is a constructor input.
- Printing, including the "Dest:" line and the status messages: only the count of "waiting" notices is kept.
- The watch service, `register` and `walkFileTree`: the keys are an input. New subdirectories are not registered by the library watchers anyway.
- `Main` (configuration, starting the threads) and `NormalWatcher.run`, which only calls `processEvents`.
- Deletion.DeleteChain: the recursion is bounded by a depth parameter (the length of the first mapped path, as the constructors and event handlers use it). A chain that the re-applied `replace` would send further, or round in circles, stops there. At the file-system root `getParentFile()` is null and Java throws; the model stops.
- Reconcile.ReconcileConverges: proved only for disjoint source and destination roots whose strings occur in no file's relative path. The source root string must also occur in no destination file's full path. This excludes sibling roots such as `/lib` and `/lib-backup`, where the code indeed does not converge: `recursiveDelete` maps `/lib-backup/x` to `/lib-backup-backup/x`, and the stale file stays. The layout must also have no regular file in the way of the destination root and no destination directory where a source file is to go. The root strings must be the canonical renderings of the root paths, with no trailing or doubled separator. Outside that layout convergence is not claimed; there `Reconciled` follows the code, which may, for instance, empty a source file that maps onto itself (`CopyOntoItself`). The same layout (`Layout`) is assumed by the lemmas built towards convergence: Reconcile.DeletedIff, Reconcile.CopiedIff, Reconcile.ResizedIsReplaced, Reconcile.MirroredAt and Reconcile.ReconcileIdempotent.
- Reconcile.Reconciled: the constructors' copies are modelled with every source file free at the first attempt and no other process acting on the disk meanwhile. A file held open there would make the newer copy fail and the older one wait, as it does for events.
- Syncing.CreateEventMirrors and Syncing.CreateThenDelete: state the create event for a file that is free at the copy's first attempt. A file held then is covered by Syncing.HeldCreateWaits (older watcher) and Syncing.HeldCopyFails (newer watcher).
- Syncing.CreateThenDelete: assumes that the activity before the delete key leaves the disk a well-formed tree, since a function from the input may build any tree.
- Movers.CopyDirectory: the target is replaced by the copy rather than merged with what was there, and a target nested with the source fails in either direction: a target below the source, and also a source below the target. Apache Commons IO merges, rejects only the same canonical path, filters a target nested in the source, and copies a source that lies below the target.
- Streams.InputStream.Read: the chunk size is chosen freely within the buffer, as the JDK allows.
- `FileCompare.hashCode` and the `long` width of sizes: sizes are unbounded naturals.
- `split("\\\\")` on the path: it only names the file in printed messages.
