/** The later `LibraryWatcher` (package `dev.bratton`): the same reconciliation and event
    loop as the older one, with a `copyFile` that makes one `Files.copy` attempt. */
module Library {
  import opened Wrappers
  import opened Strings
  import opened Paths
  import opened FileSystem
  import opened FileOps
  import opened Inventory
  import opened Deletion
  import opened Reconcile
  import opened Events
  import opened Shared
  import Screening
  import Syncing

  class LibraryWatcher {
    const source: string
    const destination: string
    const disk: Disk

    /** The constructor's reconciliation; the two filters run on parallel streams, here in
        list order. The name is only printed. */
    constructor(source: string, destination: string, name: string, disk: Disk)
      modifies disk
      ensures this.source == source && this.destination == destination && this.disk == disk
      ensures disk.root == Reconciled(old(disk.root), source, destination, false)
    {
      this.source := source;
      this.destination := destination;
      this.disk := disk;
      new;
      ghost var fs0 := disk.root;
      var sourceList := RecursiveScan(disk.root, Parse(source), source, []);
      var destinationList := RecursiveScan(disk.root, Parse(destination), destination, []);
      assert sourceList == Scan(fs0, Parse(source), source);
      assert destinationList == Scan(fs0, Parse(destination), destination);
      DeleteEach(Missing(destinationList, sourceList));
      CopyEach(Missing(sourceList, destinationList));
    }

    /** `recursiveDelete(destination + f.getName())` for each entry. */
    method DeleteEach(es: seq<FileCompare>)
      modifies disk
      ensures disk.root == DeleteAll(old(disk.root), es, source, destination)
    {
      for k := 0 to |es|
        invariant DeleteAll(old(disk.root), es, source, destination)
               == DeleteAll(disk.root, es[k..], source, destination)
      {
        assert es[k..][0] == es[k] && es[k..][1..] == es[k + 1..];
        var path := destination + es[k].name;
        RecursiveDelete(path, ChainDepth(path, source, destination));
      }
      assert es[|es|..] == [];
    }

    /** `copyFile(source + f.getName())` for each entry. */
    method CopyEach(es: seq<FileCompare>)
      modifies disk
      ensures disk.root == CopyAll(old(disk.root), es, source, destination, false)
    {
      for k := 0 to |es|
        invariant CopyAll(old(disk.root), es, source, destination, false)
               == CopyAll(disk.root, es[k..], source, destination, false)
      {
        assert es[k..][0] == es[k] && es[k..][1..] == es[k + 1..];
        CopyFile(source + es[k].name, []);
      }
      assert es[|es|..] == [];
    }

    /** `recursiveDelete(path)`: delete the mapped path (a failure is only printed), then go
        on with the parent when its listing is empty. `depth` bounds the recursion, and the
        file-system root, which has no parent, ends it. */
    method RecursiveDelete(path: string, depth: nat)
      modifies disk
      ensures disk.root == DeleteChain(old(disk.root), path, source, destination, depth)
      decreases depth
    {
      var destPath := MapToDestination(path, source, destination);
      TryDeleteFile(destPath);
      if depth == 0 || destPath == [] {
        return;
      }
      var parent := Parent(destPath);
      if ListFiles(disk.root, parent) == Some([]) {
        var below: nat := depth - 1;
        ChainRecurses(old(disk.root), path, source, destination, depth, destPath, below);
        RecursiveDelete(PathString(parent), below);
      }
    }

    /** The `try { Files.delete(...) } catch` step: a delete that fails is only printed, and
        the disk is left as it was. */
    method TryDeleteFile(destPath: Path)
      modifies disk
      ensures disk.root == TryDelete(old(disk.root), destPath)
    {
      var outcome := FileOps.Delete(disk.root, destPath);
      if outcome.Done? {
        disk.root := outcome.fs;
      }
    }

    /** `copyFile(sourceName)`: create the target's parents, then one `Files.copy` with
        REPLACE_EXISTING; a failure is only printed. Of `attempts` only the first is made. */
    method CopyFile(sourceName: string, attempts: seq<Pass>)
      modifies disk
      ensures disk.root == Syncing.OneShotCopy(old(disk.root), attempts, sourceName, source, destination)
    {
      var dst := MapToDestination(sourceName, source, destination);
      if |dst| > 0 {
        disk.root := MakeDirs(disk.root, Parent(dst));
      }
      if attempts != [] && attempts[0].inUse {
        // `Files.copy` cannot open a file another process holds: it throws.
        return;
      }
      var copy := FilesCopy(disk.root, Parse(sourceName), dst);
      if copy.Done? {
        disk.root := copy.fs;
      }
    }

    /** `processEvents`: take a key, handle its events, stop when `reset()` fails. */
    method ProcessEvents(keys: seq<Key>) returns (stop: Stop)
      modifies disk
      ensures Syncing.Sync(stop, disk.root) == Syncing.Follow(old(disk.root), keys, source, destination, false)
    {
      ghost var fs0 := disk.root;
      var i := 0;
      while i < |keys|
        invariant 0 <= i <= |keys|
        invariant Syncing.Follow(fs0, keys, source, destination, false)
               == Syncing.Follow(disk.root, keys[i..], source, destination, false)
      {
        var key := keys[i];
        assert keys[i..][0] == key && keys[i..][1..] == keys[i + 1..];
        // take(): other threads and processes change the disk while this one waits.
        disk.root := key.activity(disk.root);
        var halt := PollEvents(key);
        if halt.Some? {
          return halt.value;
        }
        if !key.valid {
          return KeyInvalid;
        }
        i := i + 1;
      }
      assert keys[i..] == [];
      stop := Interrupted;
    }

    /** `key.pollEvents().forEach(...)`. An event without a name throws at
        `context().toString()`, before the OVERFLOW test, and ends the thread. */
    method PollEvents(key: Key) returns (halt: Option<Stop>)
      modifies disk
      ensures Syncing.Step(disk.root, halt)
           == Syncing.PollEvents(old(disk.root), key.watchable, key.events, source, destination, false)
    {
      ghost var fs0 := disk.root;
      var events := key.events;
      var j := 0;
      while j < |events|
        invariant 0 <= j <= |events|
        invariant Syncing.PollEvents(fs0, key.watchable, events, source, destination, false)
               == Syncing.PollEvents(disk.root, key.watchable, events[j..], source, destination, false)
      {
        var event := events[j];
        assert events[j..][0] == event && events[j..][1..] == events[j + 1..];
        if event.context.None? {
          return Some(Crashed);
        }
        var filename := event.context.value;
        if event.kind == Overflow || Contains(filename, Screening.TeraCopyMarker) {
          j := j + 1;
          continue;
        }
        HandleFile(key, event.kind, filename, event.attempts);
        j := j + 1;
      }
      assert events[j..] == [];
      halt := None;
    }

    /** `handleFile(key, kind, filename)`; `attempts` are the copy's passes. */
    method HandleFile(key: Key, kind: Kind, filename: string, attempts: seq<Pass>)
      modifies disk
      ensures Syncing.Step(disk.root, None)
           == Syncing.HandleFile(old(disk.root), key.watchable, kind, filename, attempts, source, destination, false)
    {
      var path := Syncing.EventPath(key.watchable, filename);
      if kind == Delete {
        RecursiveDelete(path, ChainDepth(path, source, destination));
      }
      if kind == Create {
        CopyFile(path, attempts);
      }
    }
  }
}
