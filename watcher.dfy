/** `Watcher`: watches a download directory and starts one mover per newly created entry. */
module Watchers {
  import opened Wrappers
  import opened Paths
  import opened FileSystem
  import opened Events
  import opened Screening
  import opened Shared

  class Watcher {
    const source: Path
    const destination: Path
    const name: string
    const placeInSubFolder: bool
    const waitTime: int
    const registry: Registry
    var watching: bool
    /** The movers started so far (`createMover`), in order. */
    var spawned: seq<MoverRequest>

    constructor(source: Path, destination: Path, name: string, placeInSubFolder: bool, waitTime: int,
                registry: Registry)
      ensures this.source == source && this.destination == destination && this.name == name
      ensures this.placeInSubFolder == placeInSubFolder && this.waitTime == waitTime
      ensures this.registry == registry && !watching && spawned == []
    {
      this.source := source;
      this.destination := destination;
      this.name := name;
      this.placeInSubFolder := placeInSubFolder;
      this.waitTime := waitTime;
      this.registry := registry;
      watching := false;
      spawned := [];
    }

    /** `run` / `startWatching`: set the flag, then process events. */
    method Run(disk: Disk, keys: seq<Key>) returns (stop: Stop)
      modifies this, registry, disk
      ensures watching
      ensures var w := Watch(keys, old(registry.detected), source, old(disk.root), true);
        && spawned == old(spawned) + w.spawned
        && registry.detected == old(registry.detected) + Names(w.spawned)
        && stop == w.stop && disk.root == w.disk
      ensures registry.moved == old(registry.moved)
    {
      watching := true;
      stop := ProcessEvents(disk, keys);
    }

    /** `processEvents`: an event without a name that is not OVERFLOW throws on `toString()`. */
    method ProcessEvents(disk: Disk, keys: seq<Key>) returns (stop: Stop)
      requires watching
      modifies this, registry, disk
      ensures watching
      ensures var w := Watch(keys, old(registry.detected), source, old(disk.root), true);
        && spawned == old(spawned) + w.spawned
        && registry.detected == old(registry.detected) + Names(w.spawned)
        && stop == w.stop && disk.root == w.disk
      ensures registry.moved == old(registry.moved)
    {
      ghost var d0 := registry.detected;
      ghost var s0 := spawned;
      ghost var run: seq<MoverRequest> := [];
      var i := 0;
      stop := Interrupted;
      // `while (this.watching)`: the flag is set before the loop and never cleared, so the
      // loop runs until `take()` has no key left (it is interrupted) or a key ends it.
      while i < |keys|
        invariant 0 <= i <= |keys| && watching
        invariant spawned == s0 + run && registry.detected == d0 + Names(run)
        invariant registry.moved == old(registry.moved)
        invariant var w := Watch(keys[i..], d0 + Names(run), source, disk.root, true);
          Watch(keys, d0, source, old(disk.root), true) == Screening.Run(run + w.spawned, w.stop, w.disk)
        decreases |keys| - i
      {
        var key := keys[i];
        WatchStep(keys, i, d0, run, source, old(disk.root), disk.root, true);
        // `take()`: the disk has moved on while the thread waited for the key.
        disk.root := key.activity(disk.root);
        ghost var adm := Admit(key.events, d0 + Names(run), source, disk.root, true);
        var crashed := PollEvents(key, disk.root);
        AppendAssoc(s0, run, adm);
        run := run + adm;
        if crashed {
          return Crashed;
        }
        if !key.valid {
          return KeyInvalid;
        }
        i := i + 1;
      }
      assert keys[i..] == [];
      AppendEmpty(run);
    }

    /** The loop over one key's polled events, on the disk `fs` as it stands after `take()`;
        true when an exception ended it. */
    method PollEvents(key: Key, fs: Node) returns (crashed: bool)
      modifies this, registry
      ensures watching == old(watching)
      ensures var adm := Admit(key.events, old(registry.detected), source, fs, true);
        && spawned == old(spawned) + adm
        && registry.detected == old(registry.detected) + Names(adm)
      ensures crashed == !Survives(key, true)
      ensures registry.moved == old(registry.moved)
    {
      ghost var dk := registry.detected;
      ghost var sk := spawned;
      ghost var adm: seq<MoverRequest> := [];
      var events := key.events;
      var j := 0;
      while j < |events|
        invariant 0 <= j <= |events|
        invariant spawned == sk + adm && registry.detected == dk + Names(adm)
        invariant registry.moved == old(registry.moved) && watching == old(watching)
        invariant forall i :: 0 <= i < j ==> !Fatal(events[i], true)
        invariant Admit(events, dk, source, fs, true)
          == adm + Admit(events[j..], dk + Names(adm), source, fs, true)
      {
        var event := events[j];
        if event.kind != Overflow && event.context.None? {
          // `filename.toString()` on a null context: the exception ends the thread.
          CrashAt(events, j, true);
          assert events[j..][0] == event;
          AppendEmpty(adm);
          return true;
        }
        AdmitStep(events, j, dk, adm, source, fs, true);
        if event.kind == Overflow || event.context.value in registry.detected || Marked(event.context.value) {
        } else {
          var filename := event.context.value;
          var isDirectory := IsDir(fs, Resolve(source, filename));
          AppendAssoc(sk, adm, [MoverRequest(filename, isDirectory)]);
          registry.detected := registry.detected + [filename];
          CreateMover(filename, isDirectory);
          adm := adm + [MoverRequest(filename, isDirectory)];
        }
        j := j + 1;
      }
      assert events[j..] == [];
      AppendEmpty(adm);
      NoCrash(events, true);
      crashed := false;
    }

    /** `createMover`: starts one mover thread for the entry. */
    method CreateMover(filename: string, isDirectory: bool)
      modifies this
      ensures spawned == old(spawned) + [MoverRequest(filename, isDirectory)]
      ensures watching == old(watching)
    {
      spawned := spawned + [MoverRequest(filename, isDirectory)];
    }
  }
}
