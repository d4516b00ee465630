/** `NormalWatcher`: the later watcher, which hands each event to `handleFile` and skips
    events without a name. */
module NormalWatchers {
  import opened Wrappers
  import opened Paths
  import opened FileSystem
  import opened Events
  import opened Screening
  import opened Shared

  class NormalWatcher {
    const source: Path
    const destination: Path
    const name: string
    const placeInSubFolder: bool
    const waitTime: int
    const registry: Registry
    /** The movers started so far (`createMover`), in order. */
    var spawned: seq<MoverRequest>

    constructor(source: Path, destination: Path, name: string, placeInSubFolder: bool, waitTime: int,
                registry: Registry)
      ensures this.source == source && this.destination == destination && this.name == name
      ensures this.placeInSubFolder == placeInSubFolder && this.waitTime == waitTime
      ensures this.registry == registry && spawned == []
    {
      this.source := source;
      this.destination := destination;
      this.name := name;
      this.placeInSubFolder := placeInSubFolder;
      this.waitTime := waitTime;
      this.registry := registry;
      spawned := [];
    }

    /** `run` / `processEvents`. */
    method ProcessEvents(disk: Disk, keys: seq<Key>) returns (stop: Stop)
      modifies this, registry, disk
      ensures var w := Watch(keys, old(registry.detected), source, old(disk.root), false);
        && spawned == old(spawned) + w.spawned
        && registry.detected == old(registry.detected) + Names(w.spawned)
        && stop == w.stop && disk.root == w.disk
      ensures registry.moved == old(registry.moved)
    {
      ghost var d0 := registry.detected;
      ghost var s0 := spawned;
      ghost var run: seq<MoverRequest> := [];
      var i := 0;
      // `while (true)`: the loop runs until `take()` has no key left (it is interrupted)
      // or a key is no longer valid.
      while i < |keys|
        invariant 0 <= i <= |keys|
        invariant spawned == s0 + run && registry.detected == d0 + Names(run)
        invariant registry.moved == old(registry.moved)
        invariant var w := Watch(keys[i..], d0 + Names(run), source, disk.root, false);
          Watch(keys, d0, source, old(disk.root), false) == Screening.Run(run + w.spawned, w.stop, w.disk)
        decreases |keys| - i
      {
        var key := keys[i];
        WatchStep(keys, i, d0, run, source, old(disk.root), disk.root, false);
        NoCrash(key.events, false);
        // `take()`: the disk has moved on while the thread waited for the key.
        disk.root := key.activity(disk.root);
        ghost var adm := Admit(key.events, d0 + Names(run), source, disk.root, false);
        PollEvents(key, disk.root);
        AppendAssoc(s0, run, adm);
        run := run + adm;
        if !key.valid {
          return KeyInvalid;
        }
        i := i + 1;
      }
      assert keys[i..] == [];
      AppendEmpty(run);
      stop := Interrupted;
    }

    /** `key.pollEvents().forEach(...)`: each event's name (null when it has none) goes to
        `handleFile`, on the disk `fs` as it stands after `take()`. */
    method PollEvents(key: Key, fs: Node)
      modifies this, registry
      ensures var adm := Admit(key.events, old(registry.detected), source, fs, false);
        && spawned == old(spawned) + adm
        && registry.detected == old(registry.detected) + Names(adm)
      ensures registry.moved == old(registry.moved)
    {
      ghost var dk := registry.detected;
      ghost var sk := spawned;
      ghost var adm: seq<MoverRequest> := [];
      var events := key.events;
      var j := 0;
      while j < |events|
        invariant 0 <= j <= |events|
        invariant spawned == sk + adm && registry.detected == dk + Names(adm)
        invariant registry.moved == old(registry.moved)
        invariant Admit(events, dk, source, fs, false)
          == adm + Admit(events[j..], dk + Names(adm), source, fs, false)
      {
        var event := events[j];
        AdmitStep(events, j, dk, adm, source, fs, false);
        HandleFile(event.kind, event.context, fs);
        if Candidate(event) && event.context.value !in dk + Names(adm) {
          ghost var request := MoverRequest(event.context.value, IsDir(fs, Resolve(source, event.context.value)));
          AppendAssoc(sk, adm, [request]);
          adm := adm + [request];
        }
        j := j + 1;
      }
      assert events[j..] == [];
      AppendEmpty(adm);
    }

    /** `handleFile(kind, filename)`: a named event that is not OVERFLOW, not detected before
        and not marked starts a mover; `disk` is the file system `Files.isDirectory` consults. */
    method HandleFile(kind: Kind, filename: Option<string>, disk: Node)
      modifies this, registry
      ensures if filename.Some? && kind != Overflow && filename.value !in old(registry.detected)
                 && !Marked(filename.value)
        then var request := MoverRequest(filename.value, IsDir(disk, Resolve(source, filename.value)));
          registry.detected == old(registry.detected) + [filename.value]
          && spawned == old(spawned) + [request]
        else registry.detected == old(registry.detected) && spawned == old(spawned)
      ensures registry.moved == old(registry.moved)
    {
      if filename.Some? {
        if kind == Overflow || filename.value in registry.detected || Marked(filename.value) {
          return;
        }
        var isDirectory := IsDir(disk, Resolve(source, filename.value));
        registry.detected := registry.detected + [filename.value];
        spawned := spawned + [MoverRequest(filename.value, isDirectory)];
      }
    }
  }
}
