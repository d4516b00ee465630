/** The older `LibraryWatcher`: it brings the library copy in line with the source when it
    is built, then mirrors each CREATE and DELETE under the source into the library. Its
    `copyFile` retries for as long as the streams do not open. */
module LegacyLibrary {
  import opened Wrappers
  import opened Strings
  import opened Paths
  import opened FileSystem
  import opened FileOps
  import opened Inventory
  import opened Deletion
  import opened Reconcile
  import opened Events
  import opened Streams
  import opened Shared
  import Screening
  import Syncing

  class LibraryWatcher {
    const source: string
    const destination: string
    const name: string
    const time: int
    const disk: Disk
    /** How many "File is being used, waiting" notices have been printed. */
    ghost var waitNotices: nat
    /** Whether the constructor returns. When it is false a copy of the reconciliation waits
        forever: `forEach` never returns, so no watcher is built, while the other copies
        still complete. */
    var returned: bool

    /** The constructor's reconciliation. The two filters run on parallel streams; here
        they run in list order. A copy whose streams never open holds its worker forever
        while the others go on; here the next copy follows, and `returned` records that
        the constructor itself would never return. */
    constructor(source: string, destination: string, name: string, time: int, disk: Disk)
      modifies disk
      ensures this.source == source && this.destination == destination
      ensures this.name == name && this.time == time && this.disk == disk
      ensures disk.root == Reconciled(old(disk.root), source, destination, true)
      ensures returned == ReconcileReturns(old(disk.root), source, destination)
    {
      this.source := source;
      this.destination := destination;
      this.name := name;
      this.time := time;
      this.disk := disk;
      waitNotices := 0;
      new;
      ghost var fs0 := disk.root;
      var sourceList := RecursiveScan(disk.root, Parse(source), source, []);
      var destinationList := RecursiveScan(disk.root, Parse(destination), destination, []);
      assert sourceList == Scan(fs0, Parse(source), source);
      assert destinationList == Scan(fs0, Parse(destination), destination);
      DeleteEach(Missing(destinationList, sourceList));
      returned := CopyEach(Missing(sourceList, destinationList));
    }

    /** `recursiveDelete(destination + f.getName())` for each entry. */
    method DeleteEach(es: seq<FileCompare>)
      modifies disk
      ensures disk.root == DeleteAll(old(disk.root), es, source, destination)
    {
      for k := 0 to |es|
        invariant DeleteAll(old(disk.root), es, source, destination)
               == DeleteAll(disk.root, es[k..], source, destination)
      {
        assert es[k..][0] == es[k] && es[k..][1..] == es[k + 1..];
        var path := destination + es[k].name;
        RecursiveDelete(path, ChainDepth(path, source, destination));
      }
      assert es[|es|..] == [];
    }

    /** `copyFile(source + f.getName())` for each entry; `allOpen` is false when some copy
        waits forever, so that `forEach` never returns. */
    method CopyEach(es: seq<FileCompare>) returns (allOpen: bool)
      modifies this, disk
      ensures disk.root == CopyAll(old(disk.root), es, source, destination, true)
      ensures allOpen == CopiesOpen(old(disk.root), es, source, destination)
    {
      allOpen := true;
      for k := 0 to |es|
        invariant CopyAll(old(disk.root), es, source, destination, true)
               == CopyAll(disk.root, es[k..], source, destination, true)
        invariant CopiesOpen(old(disk.root), es, source, destination)
               == (allOpen && CopiesOpen(disk.root, es[k..], source, destination))
      {
        assert es[k..][0] == es[k] && es[k..][1..] == es[k + 1..];
        var streamsOpen := CopyFile(source + es[k].name, []);
        allOpen := allOpen && streamsOpen;
      }
      assert es[|es|..] == [];
    }

    /** `recursiveDelete(path)`: delete the mapped path (a failure is only printed), then go
        on with the parent when its listing is empty. `depth` bounds the recursion, and the
        file-system root, which has no parent, ends it. */
    method RecursiveDelete(path: string, depth: nat)
      modifies disk
      ensures disk.root == DeleteChain(old(disk.root), path, source, destination, depth)
      decreases depth
    {
      var destPath := MapToDestination(path, source, destination);
      TryDeleteFile(destPath);
      if depth == 0 || destPath == [] {
        return;
      }
      var parent := Parent(destPath);
      if ListFiles(disk.root, parent) == Some([]) {
        var below: nat := depth - 1;
        ChainRecurses(old(disk.root), path, source, destination, depth, destPath, below);
        RecursiveDelete(PathString(parent), below);
      }
    }

    /** The `try { Files.delete(...) } catch` step: a delete that fails is only printed, and
        the disk is left as it was. */
    method TryDeleteFile(destPath: Path)
      modifies disk
      ensures disk.root == TryDelete(old(disk.root), destPath)
    {
      var outcome := FileOps.Delete(disk.root, destPath);
      if outcome.Done? {
        disk.root := outcome.fs;
      }
    }

    /** `copyFile(sourceName)`: create the target's parents, then try to open both streams
        until they open. Attempt `k` fails while `attempts[k]` finds the file in use or the
        streams cannot open; the thread then sleeps while other processes act on the disk.
        Past the listed attempts nobody holds the file and the disk no longer changes, so
        when the attempt after them fails too the method never returns (`streamsOpen` is
        false). The notice is printed once, at the first failure. */
    method CopyFile(sourceName: string, attempts: seq<Pass>) returns (streamsOpen: bool)
      modifies this, disk
      ensures disk.root == Syncing.WaitingCopy(old(disk.root), attempts, sourceName, source, destination)
      ensures streamsOpen == !Syncing.CopyBlocks(old(disk.root), attempts, sourceName, source, destination)
      ensures var dst := MapToDestination(sourceName, source, destination);
        var w := Syncing.Wait(PrepareTarget(old(disk.root), dst), attempts, Parse(sourceName), dst);
        waitNotices == old(waitNotices) + (if w.tries > 0 || !streamsOpen then 1 else 0)
    {
      var src := Parse(sourceName);
      var dst := MapToDestination(sourceName, source, destination);
      if |dst| > 0 {
        disk.root := MakeDirs(disk.root, Parent(dst));
      }
      ghost var w := Syncing.Wait(disk.root, attempts, src, dst);
      assert attempts[0..] == attempts;
      var tried := false;
      var k := 0;
      while true
        invariant 0 <= k <= |attempts|
        invariant tried == (k > 0)
        invariant waitNotices == old(waitNotices) + (if tried then 1 else 0)
        invariant var r := Syncing.Wait(disk.root, attempts[k..], src, dst); w == Syncing.Opening(r.disk, r.tries + k)
        decreases |attempts| - k
      {
        var free := k == |attempts| || !attempts[k].inUse;
        if free && CanOpen(disk.root, src, dst) {
          break;
        }
        // FileNotFoundException
        if !tried {
          waitNotices := waitNotices + 1;
          tried := true;
        }
        if k == |attempts| {
          return false;
        }
        assert attempts[k..][0] == attempts[k] && attempts[k..][1..] == attempts[k + 1..];
        // Thread.sleep(time): other processes act on the disk meanwhile.
        disk.root := attempts[k].act(disk.root);
        k := k + 1;
      }
      // `new FileOutputStream(destinationName)` creates or empties the target before the
      // first read, so a target that is the source itself is read back empty.
      disk.root := WriteFile(disk.root, dst, []).fs;
      match FileData(disk.root, src) {
        case None =>
        case Some(data) =>
          var input := new InputStream(data);
          var output := new OutputStream();
          Transfer(input, output);
          assert output.written == data;
          var written := WriteFile(disk.root, dst, output.written);
          if written.Done? {
            disk.root := written.fs;
          }
      }
      streamsOpen := true;
    }

    /** `processEvents`: take a key, handle its events, stop when `reset()` fails. */
    method ProcessEvents(keys: seq<Key>) returns (stop: Stop)
      modifies this, disk
      ensures Syncing.Sync(stop, disk.root) == Syncing.Follow(old(disk.root), keys, source, destination, true)
    {
      ghost var fs0 := disk.root;
      var i := 0;
      while i < |keys|
        invariant 0 <= i <= |keys|
        invariant Syncing.Follow(fs0, keys, source, destination, true)
               == Syncing.Follow(disk.root, keys[i..], source, destination, true)
      {
        var key := keys[i];
        assert keys[i..][0] == key && keys[i..][1..] == keys[i + 1..];
        // take(): other threads and processes change the disk while this one waits.
        disk.root := key.activity(disk.root);
        var halt := PollEvents(key);
        if halt.Some? {
          return halt.value;
        }
        if !key.valid {
          return KeyInvalid;
        }
        i := i + 1;
      }
      assert keys[i..] == [];
      stop := Interrupted;
    }

    /** `key.pollEvents().forEach(...)`. An event without a name throws at
        `context().toString()`, before the OVERFLOW test, and ends the thread. */
    method PollEvents(key: Key) returns (halt: Option<Stop>)
      modifies this, disk
      ensures Syncing.Step(disk.root, halt)
           == Syncing.PollEvents(old(disk.root), key.watchable, key.events, source, destination, true)
    {
      ghost var fs0 := disk.root;
      var events := key.events;
      var j := 0;
      while j < |events|
        invariant 0 <= j <= |events|
        invariant Syncing.PollEvents(fs0, key.watchable, events, source, destination, true)
               == Syncing.PollEvents(disk.root, key.watchable, events[j..], source, destination, true)
      {
        var event := events[j];
        assert events[j..][0] == event && events[j..][1..] == events[j + 1..];
        if event.context.None? {
          return Some(Crashed);
        }
        var filename := event.context.value;
        if event.kind == Overflow || Contains(filename, Screening.TeraCopyMarker) {
          j := j + 1;
          continue;
        }
        halt := HandleFile(key, event.kind, filename, event.attempts);
        if halt.Some? {
          return;
        }
        j := j + 1;
      }
      assert events[j..] == [];
      halt := None;
    }

    /** `handleFile(key, kind, filename)`; `attempts` are the copy's passes. */
    method HandleFile(key: Key, kind: Kind, filename: string, attempts: seq<Pass>) returns (halt: Option<Stop>)
      modifies this, disk
      ensures Syncing.Step(disk.root, halt)
           == Syncing.HandleFile(old(disk.root), key.watchable, kind, filename, attempts, source, destination, true)
    {
      var path := Syncing.EventPath(key.watchable, filename);
      halt := None;
      if kind == Delete {
        RecursiveDelete(path, ChainDepth(path, source, destination));
      }
      if kind == Create {
        var streamsOpen := CopyFile(path, attempts);
        if !streamsOpen {
          halt := Some(Blocked);
        }
      }
    }
  }
}
