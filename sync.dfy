/** The event loop of both library watchers, as functions: each event that names an entry,
    is not OVERFLOW and does not mention TeraCopy goes to `handleFile`, which mirrors a
    DELETE by `recursiveDelete` and a CREATE by `copyFile`. There is no dedup here. */
module Syncing {
  import opened Wrappers
  import opened Strings
  import opened Paths
  import opened FileSystem
  import opened FileOps
  import opened Deletion
  import opened Reconcile
  import opened Events
  import Screening

  /** The event reaches `handleFile`. */
  predicate Handled(kind: Kind, filename: string) {
    kind != Overflow && !Contains(filename, Screening.TeraCopyMarker)
  }

  /** `Paths.get(key.watchable().toString()).resolve(filename).toString()`. */
  function EventPath(watchable: Path, filename: string): string {
    PathString(Resolve(watchable, filename))
  }

  /** The disk after a step, and why the loop stops there, if it does. */
  datatype Step = Step(disk: Node, stop: Option<Stop>)

  /** Where the older copy stops waiting: the disk at the attempt that ends the wait, and
      how many attempts failed before it. */
  datatype Opening = Opening(disk: Node, tries: nat)

  /** The older copy's `while (true)` from the disk `fs` that `mkdirs` left. Attempt `k`
      fails while `attempts[k]` finds the file in use or the streams cannot open, and the
      disk then moves on by `attempts[k].act` during the sleep. Past the listed attempts
      nobody holds the file and the disk no longer changes, so the attempt after them
      decides: the streams open there or never. */
  function Wait(fs: Node, attempts: seq<Pass>, src: Path, dst: Path): (w: Opening)
    ensures w.tries <= |attempts|
    decreases |attempts|
  {
    if attempts != [] && (attempts[0].inUse || !CanOpen(fs, src, dst)) then
      var w := Wait(attempts[0].act(fs), attempts[1..], src, dst);
      Opening(w.disk, w.tries + 1)
    else Opening(fs, 0)
  }

  /** The older `copyFile(sourceName)` on an event: it writes the source as the disk stands
      when the streams open, or waits forever on the disk the wait leaves. */
  function WaitingCopy(fs: Node, attempts: seq<Pass>, sourceName: string, source: string, destination: string): Node {
    var src := Parse(sourceName);
    var dst := MapToDestination(sourceName, source, destination);
    var w := Wait(PrepareTarget(fs, dst), attempts, src, dst);
    if CanOpen(w.disk, src, dst) then StreamWrite(w.disk, src, dst) else w.disk
  }

  /** The newer `copyFile(sourceName)` on an event: its one `Files.copy` throws, and copies
      nothing, when another process holds the file; only the message is printed. */
  function OneShotCopy(fs: Node, attempts: seq<Pass>, sourceName: string, source: string, destination: string): Node {
    if attempts != [] && attempts[0].inUse then PrepareTarget(fs, MapToDestination(sourceName, source, destination))
    else SingleCopy(fs, sourceName, source, destination)
  }

  /** The older `copyFile` never returns when its streams never open. */
  predicate CopyBlocks(fs: Node, attempts: seq<Pass>, sourceName: string, source: string, destination: string) {
    var src := Parse(sourceName);
    var dst := MapToDestination(sourceName, source, destination);
    !CanOpen(Wait(PrepareTarget(fs, dst), attempts, src, dst).disk, src, dst)
  }

  /** `handleFile(key, kind, filename)`; `attempts` are the copy's passes. */
  function HandleFile(fs: Node, watchable: Path, kind: Kind, filename: string, attempts: seq<Pass>,
                      source: string, destination: string, legacy: bool): Step
  {
    var path := EventPath(watchable, filename);
    if kind == Delete then Step(DeleteChain(fs, path, source, destination, ChainDepth(path, source, destination)), None)
    else if kind == Create then
      if legacy then
        Step(WaitingCopy(fs, attempts, path, source, destination),
             if CopyBlocks(fs, attempts, path, source, destination) then Some(Blocked) else None)
      else Step(OneShotCopy(fs, attempts, path, source, destination), None)
    else Step(fs, None)
  }

  /** `key.pollEvents().forEach(...)`: `event.context().toString()` throws on an event
      without a name, OVERFLOW included, and ends the thread. */
  function PollEvents(fs: Node, watchable: Path, events: seq<Event>,
                      source: string, destination: string, legacy: bool): Step
    decreases |events|
  {
    if events == [] then Step(fs, None)
    else
      var e := events[0];
      if e.context.None? then Step(fs, Some(Crashed))
      else if !Handled(e.kind, e.context.value) then PollEvents(fs, watchable, events[1..], source, destination, legacy)
      else
        var s := HandleFile(fs, watchable, e.kind, e.context.value, e.attempts, source, destination, legacy);
        if s.stop.Some? then s else PollEvents(s.disk, watchable, events[1..], source, destination, legacy)
  }

  /** One key's events, from the disk `fs` this thread left: while it waits in `take()` the
      disk moves on by the key's activity, and the events are handled on what that leaves. */
  function KeyPass(key: Key, fs: Node, source: string, destination: string, legacy: bool): Step {
    PollEvents(key.activity(fs), key.watchable, key.events, source, destination, legacy)
  }

  /** How the loop ends and the disk it leaves. */
  datatype Sync = Sync(stop: Stop, disk: Node)

  /** `processEvents` from the disk `fs`: each key's events are handled on the disk the
      previous pass left, moved on by the key's activity. */
  function Follow(fs: Node, keys: seq<Key>, source: string, destination: string, legacy: bool): Sync
    decreases |keys|
  {
    if keys == [] then Sync(Interrupted, fs)
    else
      var key := keys[0];
      var s := KeyPass(key, fs, source, destination, legacy);
      if s.stop.Some? then Sync(s.stop.value, s.disk)
      else if !key.valid then Sync(KeyInvalid, s.disk)
      else Follow(s.disk, keys[1..], source, destination, legacy)
  }

  /** The disk this thread stands at before key `i`, when every earlier pass went through. */
  function Before(fs: Node, keys: seq<Key>, i: nat, source: string, destination: string, legacy: bool): Node
    requires i <= |keys|
    decreases i
  {
    if i == 0 then fs
    else KeyPass(keys[i - 1], Before(fs, keys, i - 1, source, destination, legacy), source, destination, legacy).disk
  }

  lemma {:induction false} BeforeShift(fs: Node, keys: seq<Key>, i: nat, source: string, destination: string, legacy: bool)
    requires i < |keys|
    ensures Before(KeyPass(keys[0], fs, source, destination, legacy).disk, keys[1..], i, source, destination, legacy)
      == Before(fs, keys, i + 1, source, destination, legacy)
    decreases i
  {
    if i > 0 {
      BeforeShift(fs, keys, i - 1, source, destination, legacy);
      assert keys[1..][i - 1] == keys[i];
    }
  }

  /** Two runs of keys in a row: the second starts from the disk the first left, when the
      first went through; otherwise the loop ended inside the first. */
  lemma {:induction false} FollowAppend(fs: Node, a: seq<Key>, b: seq<Key>, source: string, destination: string,
                                        legacy: bool)
    ensures var r := Follow(fs, a, source, destination, legacy);
      Follow(fs, a + b, source, destination, legacy)
        == if r.stop == Interrupted then Follow(r.disk, b, source, destination, legacy) else r
    decreases |a|
  {
    if a == [] {
      assert a + b == b;
    } else {
      assert (a + b)[0] == a[0] && (a + b)[1..] == a[1..] + b;
      var s := KeyPass(a[0], fs, source, destination, legacy);
      PollEventsStops(a[0].activity(fs), a[0].watchable, a[0].events, source, destination, legacy);
      FollowAppend(s.disk, a[1..], b, source, destination, legacy);
    }
  }

  /** Events that all carry a name and are all skipped leave the disk alone. */
  lemma {:induction false} SkippedEventsChangeNothing(fs: Node, watchable: Path, events: seq<Event>,
                                                      source: string, destination: string, legacy: bool)
    requires forall j :: 0 <= j < |events| ==>
      events[j].context.Some? && !Handled(events[j].kind, events[j].context.value)
    ensures PollEvents(fs, watchable, events, source, destination, legacy) == Step(fs, None)
    decreases |events|
  {
    if events != [] {
      SkippedEventsChangeNothing(fs, watchable, events[1..], source, destination, legacy);
    }
  }

  /** A pass over the events stops early only on an event without a name (the thread dies)
      or, in the older watcher, on a copy that waits forever; in the newer watcher it stops
      exactly when some event has no name. */
  lemma {:induction false} PollEventsStops(fs: Node, watchable: Path, events: seq<Event>,
                                           source: string, destination: string, legacy: bool)
    ensures var s := PollEvents(fs, watchable, events, source, destination, legacy);
      && (s.stop == Some(Crashed) ==> exists j :: 0 <= j < |events| && events[j].context.None?)
      && (s.stop.Some? ==> s.stop == Some(Crashed) || (legacy && s.stop == Some(Blocked)))
      && (!legacy ==> (s.stop.Some? <==> exists j :: 0 <= j < |events| && events[j].context.None?))
    decreases |events|
  {
    if events != [] {
      var e := events[0];
      var rest := events[1..];
      PollEventsStops(fs, watchable, rest, source, destination, legacy);
      if e.context.Some? && Handled(e.kind, e.context.value) {
        var s := HandleFile(fs, watchable, e.kind, e.context.value, e.attempts, source, destination, legacy);
        PollEventsStops(s.disk, watchable, rest, source, destination, legacy);
      }
      forall j | 0 <= j < |rest| ensures rest[j] == events[j + 1] { }
      if !legacy && exists j :: 0 <= j < |events| && events[j].context.None? {
        var j :| 0 <= j < |events| && events[j].context.None?;
        if j > 0 {
          assert rest[j - 1].context.None?;
        }
      }
    }
  }

  /** The event for entry `n` of the watched directory `ps + dir` names the path `ps + rel`. */
  lemma EventPathOf(ps: Path, dir: Path, n: string)
    requires ValidName(n)
    ensures EventPath(ps + dir, n) == PathString(ps + (dir + [n]))
  {
    ParseSingle(n);
    assert ps + dir + [n] == ps + (dir + [n]);
  }

  /** A path below the source root, whose relative part does not contain the root string,
      maps onto the same relative path below the destination root. */
  lemma SourcePathMaps(ps: Path, pd: Path, rel: Path)
    requires ValidPath(ps) && ValidPath(pd) && ValidPath(rel) && |ps| > 0
    requires !Contains(Render(rel), Render(ps))
    ensures MapToDestination(PathString(ps + rel), Render(ps), Render(pd)) == pd + rel
  {
    RootedString(ps, rel, Render(pd));
    RenderAppend(pd, rel);
    ValidPathAppend(pd, rel);
    ParseRender(pd + rel);
  }

  /** A DELETE in the source tree removes the twin below the destination root and prunes
      the directories that leaves empty, when the source string occurs nowhere on the way. */
  lemma DeleteChainMirrors(fs: Node, ps: Path, pd: Path, rel: Path)
    requires ValidPath(ps) && ValidPath(pd) && ValidPath(rel) && |ps| > 0
    requires !Contains(Render(rel), Render(ps)) && !Contains(PathString(pd + rel), Render(ps))
    ensures var path := PathString(ps + rel);
      DeleteChain(fs, path, Render(ps), Render(pd), ChainDepth(path, Render(ps), Render(pd)))
        == DeletePrune(fs, pd + rel)
  {
    var path := PathString(ps + rel);
    var p := pd + rel;
    SourcePathMaps(ps, pd, rel);
    RenderValidHasSep(ps);
    ValidPathAppend(pd, rel);
    CleanMapsUpward(p, Render(ps), Render(pd));
    ChainUnfold(fs, path, Render(ps), Render(pd), |p|, p);
    if p != [] {
      var fs1 := TryDelete(fs, p);
      if ListFiles(fs1, Parent(p)) == Some([]) {
        ChainIsPrune(fs1, Parent(p), Render(ps), Render(pd), |p| - 1);
      }
    }
  }

  /** `handleFile` on a DELETE of entry `n` in `ps + dir`: the regular file at
      `pd + dir + [n]`, if any, is gone and no other regular file changes. */
  lemma DeleteEventMirrors(fs: Node, ps: Path, pd: Path, dir: Path, n: string, attempts: seq<Pass>, legacy: bool,
                           q: Path)
    requires WF(fs) && fs.Dir? && ValidPath(ps) && ValidPath(pd) && ValidPath(dir) && ValidName(n) && |ps| > 0
    requires !Contains(Render(dir + [n]), Render(ps)) && !Contains(PathString(pd + (dir + [n])), Render(ps))
    ensures var s := HandleFile(fs, ps + dir, Delete, n, attempts, Render(ps), Render(pd), legacy);
      && s.stop.None?
      && FileData(s.disk, q) == if q == pd + (dir + [n]) then None else FileData(fs, q)
  {
    var rel := dir + [n];
    EventPathOf(ps, dir, n);
    ValidPathAppend(dir, [n]);
    DeleteChainMirrors(fs, ps, pd, rel);
    ValidPathAppend(pd, rel);
    PruneFiles(fs, pd + rel, q);
  }

  /** `handleFile` on a CREATE of entry `n` in `ps + dir`, when the copy can go ahead and
      nobody holds the file at its first attempt: the twin at `pd + dir + [n]` gets the
      source bytes, no other regular file changes, and the older watcher's copy does not
      block. */
  lemma CreateEventMirrors(fs: Node, ps: Path, pd: Path, dir: Path, n: string, attempts: seq<Pass>, legacy: bool,
                           q: Path)
    requires WF(fs) && fs.Dir? && ValidPath(ps) && ValidPath(pd) && ValidPath(dir) && ValidName(n) && |ps| > 0
    requires !Contains(Render(dir + [n]), Render(ps))
    requires CopyReady(fs, ps + (dir + [n]), pd + (dir + [n]))
    requires attempts == [] || !attempts[0].inUse
    ensures var s := HandleFile(fs, ps + dir, Create, n, attempts, Render(ps), Render(pd), legacy);
      && s.stop.None? && WF(s.disk) && s.disk.Dir?
      && FileData(s.disk, q) == if q == pd + (dir + [n]) then FileData(fs, ps + (dir + [n])) else FileData(fs, q)
  {
    var rel := dir + [n];
    var path := PathString(ps + rel);
    EventPathOf(ps, dir, n);
    ValidPathAppend(dir, [n]);
    ValidPathAppend(ps, rel);
    ParsePathString(ps + rel);
    SourcePathMaps(ps, pd, rel);
    CopyOneEffect(fs, path, Render(ps), Render(pd), legacy, q);
    FreeCopyIsCopyOne(fs, attempts, path, Render(ps), Render(pd), legacy);
  }

  /** A copy whose first attempt finds the file free and, in the older watcher, the
      streams open is the copy of the reconciliation. */
  lemma FreeCopyIsCopyOne(fs: Node, attempts: seq<Pass>, sourceName: string, source: string, destination: string,
                          legacy: bool)
    requires attempts == [] || !attempts[0].inUse
    requires var dst := MapToDestination(sourceName, source, destination);
      legacy ==> CanOpen(PrepareTarget(fs, dst), Parse(sourceName), dst)
    ensures legacy ==> WaitingCopy(fs, attempts, sourceName, source, destination) == CopyOne(fs, sourceName, source, destination, true)
                       && !CopyBlocks(fs, attempts, sourceName, source, destination)
    ensures !legacy ==> OneShotCopy(fs, attempts, sourceName, source, destination) == CopyOne(fs, sourceName, source, destination, false)
  {
  }

  /** The older copy's wait, attempt by attempt: every attempt before the one that ends it
      found the file in use or could not open the streams on the disk as it stood then; a
      listed attempt that ends it found the file free and the streams open. */
  lemma {:induction false} WaitExplained(fs: Node, attempts: seq<Pass>, src: Path, dst: Path)
    ensures var w := Wait(fs, attempts, src, dst);
      && w.disk == DiskBefore(fs, attempts, w.tries)
      && (forall k :: 0 <= k < w.tries ==> attempts[k].inUse || !CanOpen(DiskBefore(fs, attempts, k), src, dst))
      && (w.tries < |attempts| ==> !attempts[w.tries].inUse && CanOpen(w.disk, src, dst))
    decreases |attempts|
  {
    if attempts != [] && (attempts[0].inUse || !CanOpen(fs, src, dst)) {
      var rest := attempts[1..];
      var fs' := attempts[0].act(fs);
      WaitExplained(fs', rest, src, dst);
      var w' := Wait(fs', rest, src, dst);
      DiskBeforeShift(fs, attempts, w'.tries);
      forall k | 0 < k < w'.tries + 1
        ensures attempts[k].inUse || !CanOpen(DiskBefore(fs, attempts, k), src, dst)
      {
        DiskBeforeShift(fs, attempts, k - 1);
        assert rest[k - 1] == attempts[k];
      }
      if w'.tries < |rest| {
        assert rest[w'.tries] == attempts[w'.tries + 1];
      }
    }
  }

  /** An entry below `ps` and its twin below `pd` are one path only when the roots are one. */
  lemma TwinDiffers(ps: Path, pd: Path, rel: Path)
    ensures ps + rel == pd + rel ==> ps == pd
  {
    if ps + rel == pd + rel {
      assert |ps| == |pd|;
      assert ps == (ps + rel)[..|ps|] && pd == (pd + rel)[..|pd|];
    }
  }

  /** The older watcher's CREATE whatever the file's state: the copy waits for the attempt
      `Wait` stops at, blocks for good exactly when the streams do not open there, and
      otherwise gives the twin the bytes the source holds at that attempt, on the disk as
      other processes left it, with no other regular file changed. */
  lemma HeldCreateWaits(fs: Node, ps: Path, pd: Path, dir: Path, n: string, attempts: seq<Pass>, q: Path)
    requires ValidPath(ps) && ValidPath(pd) && ValidPath(dir) && ValidName(n) && |ps| > 0 && ps != pd
    requires !Contains(Render(dir + [n]), Render(ps))
    ensures var src := ps + (dir + [n]);
      var dst := pd + (dir + [n]);
      var w := Wait(PrepareTarget(fs, dst), attempts, src, dst);
      var s := HandleFile(fs, ps + dir, Create, n, attempts, Render(ps), Render(pd), true);
      && (s.stop == Some(Blocked) <==> !CanOpen(w.disk, src, dst))
      && (s.stop.Some? ==> s.stop == Some(Blocked) && s.disk == w.disk)
      && (s.stop.None? && WF(w.disk) && w.disk.Dir? ==>
            FileData(s.disk, q) == if q == dst then FileData(w.disk, src) else FileData(w.disk, q))
  {
    var rel := dir + [n];
    var src := ps + rel;
    var dst := pd + rel;
    EventPathOf(ps, dir, n);
    ValidPathAppend(dir, [n]);
    ValidPathAppend(ps, rel);
    ValidPathAppend(pd, rel);
    ParsePathString(src);
    SourcePathMaps(ps, pd, rel);
    TwinDiffers(ps, pd, rel);
    var w := Wait(PrepareTarget(fs, dst), attempts, src, dst);
    if CanOpen(w.disk, src, dst) && WF(w.disk) && w.disk.Dir? {
      StreamWriteEffect(w.disk, src, dst, q);
    }
  }

  /** The newer watcher's CREATE of a file another process holds: `Files.copy` throws, the
      loop goes on and no regular file changes. */
  lemma HeldCopyFails(fs: Node, ps: Path, pd: Path, dir: Path, n: string, attempts: seq<Pass>, q: Path)
    requires WF(fs) && ValidPath(ps) && ValidPath(pd) && ValidPath(dir) && ValidName(n) && |ps| > 0
    requires !Contains(Render(dir + [n]), Render(ps))
    requires attempts != [] && attempts[0].inUse
    ensures var s := HandleFile(fs, ps + dir, Create, n, attempts, Render(ps), Render(pd), false);
      && s.stop.None? && WF(s.disk) && FileData(s.disk, q) == FileData(fs, q)
  {
    var rel := dir + [n];
    var dst := pd + rel;
    EventPathOf(ps, dir, n);
    ValidPathAppend(dir, [n]);
    ValidPathAppend(pd, rel);
    SourcePathMaps(ps, pd, rel);
    assert ValidPath(Parent(dst));
    MakeDirsFiles(fs, Parent(dst), q);
  }

  /** The loop runs until `take()` has nothing more exactly when every key's pass goes
      through and every `reset()` succeeds; the thread dies only on an event without a name. */
  lemma {:induction false} FollowEnds(fs: Node, keys: seq<Key>, source: string, destination: string, legacy: bool)
    ensures var r := Follow(fs, keys, source, destination, legacy);
      && (r.stop == Interrupted <==>
            forall i :: 0 <= i < |keys| ==>
              keys[i].valid
              && KeyPass(keys[i], Before(fs, keys, i, source, destination, legacy), source, destination, legacy).stop.None?)
      && (r.stop == Crashed ==>
            exists i, j :: 0 <= i < |keys| && 0 <= j < |keys[i].events| && keys[i].events[j].context.None?)
    decreases |keys|
  {
    if keys != [] {
      var key := keys[0];
      var s := KeyPass(key, fs, source, destination, legacy);
      PollEventsStops(key.activity(fs), key.watchable, key.events, source, destination, legacy);
      FollowEnds(s.disk, keys[1..], source, destination, legacy);
      forall i | 0 <= i < |keys[1..]|
        ensures keys[1..][i] == keys[i + 1]
        ensures Before(s.disk, keys[1..], i, source, destination, legacy) == Before(fs, keys, i + 1, source, destination, legacy)
      {
        BeforeShift(fs, keys, i, source, destination, legacy);
      }
      var r := Follow(fs, keys, source, destination, legacy);
      if r.stop == Crashed && s.stop.None? && key.valid {
        var i, j :| 0 <= i < |keys[1..]| && 0 <= j < |keys[1..][i].events| && keys[1..][i].events[j].context.None?;
        assert keys[i + 1].events[j].context.None?;
      }
    }
  }

  /** A key with one named event that reaches `handleFile`: its pass is that one call. */
  lemma OneEventPass(key: Key, fs: Node, source: string, destination: string, legacy: bool)
    requires |key.events| == 1 && key.events[0].context.Some?
    requires Handled(key.events[0].kind, key.events[0].context.value)
    ensures var s := HandleFile(key.activity(fs), key.watchable, key.events[0].kind, key.events[0].context.value,
                                key.events[0].attempts, source, destination, legacy);
      KeyPass(key, fs, source, destination, legacy) == if s.stop.Some? then s else Step(s.disk, None)
  {
    var e := key.events[0];
    var s := HandleFile(key.activity(fs), key.watchable, e.kind, e.context.value, e.attempts, source, destination, legacy);
    assert key.events[1..] == [];
    assert PollEvents(s.disk, key.watchable, [], source, destination, legacy) == Step(s.disk, None);
  }

  /** Two keys, the first of which goes through: the second pass starts where it ended. */
  lemma FollowTwo(fs: Node, a: Key, b: Key, source: string, destination: string, legacy: bool)
    requires a.valid && KeyPass(a, fs, source, destination, legacy).stop.None?
    ensures var last := KeyPass(b, KeyPass(a, fs, source, destination, legacy).disk, source, destination, legacy);
      Follow(fs, [a, b], source, destination, legacy)
        == if last.stop.Some? then Sync(last.stop.value, last.disk)
           else if b.valid then Sync(Interrupted, last.disk) else Sync(KeyInvalid, last.disk)
  {
    var mid := KeyPass(a, fs, source, destination, legacy);
    var last := KeyPass(b, mid.disk, source, destination, legacy);
    assert [a, b][1..] == [b] && [b][1..] == [];
    assert Follow(fs, [a, b], source, destination, legacy) == Follow(mid.disk, [b], source, destination, legacy);
    assert Follow(last.disk, [], source, destination, legacy) == Sync(Interrupted, last.disk);
  }

  /** A key with a CREATE of entry `n` of `ps + dir`, then a key with a DELETE of it: the
      first pass, whose copy finds the file free at its first attempt, puts the source bytes
      at the twin `pd + dir + [n]`, and the second removes it again, whatever other
      processes did to the disk in between. */
  lemma CreateThenDelete(fs: Node, ps: Path, pd: Path, dir: Path, n: string, legacy: bool, create: Key, delete: Key)
    requires ValidPath(ps) && ValidPath(pd) && ValidPath(dir) && ValidName(n) && |ps| > 0
    requires !Contains(n, Screening.TeraCopyMarker)
    requires !Contains(Render(dir + [n]), Render(ps)) && !Contains(PathString(pd + (dir + [n])), Render(ps))
    requires create.watchable == ps + dir && create.valid && |create.events| == 1
    requires create.events[0].kind == Create && create.events[0].context == Some(n)
    requires delete.watchable == ps + dir && |delete.events| == 1
    requires delete.events[0].kind == Delete && delete.events[0].context == Some(n)
    requires var fs1 := create.activity(fs);
      WF(fs1) && fs1.Dir? && CopyReady(fs1, ps + (dir + [n]), pd + (dir + [n]))
    requires create.events[0].attempts == [] || !create.events[0].attempts[0].inUse
    requires forall x: Node :: WF(x) && x.Dir? ==> WF(delete.activity(x)) && delete.activity(x).Dir?
    ensures var mid := KeyPass(create, fs, Render(ps), Render(pd), legacy);
      var r := Follow(fs, [create, delete], Render(ps), Render(pd), legacy);
      && mid.stop.None?
      && FileData(mid.disk, pd + (dir + [n])) == FileData(create.activity(fs), ps + (dir + [n]))
      && r.stop == (if delete.valid then Interrupted else KeyInvalid)
      && FileData(r.disk, pd + (dir + [n])) == None
  {
    var source, destination := Render(ps), Render(pd);
    var rel := dir + [n];
    var fs1 := create.activity(fs);
    CreateEventMirrors(fs1, ps, pd, dir, n, create.events[0].attempts, legacy, pd + rel);
    OneEventPass(create, fs, source, destination, legacy);
    var mid := KeyPass(create, fs, source, destination, legacy);
    var fs2 := delete.activity(mid.disk);
    DeleteEventMirrors(fs2, ps, pd, dir, n, delete.events[0].attempts, legacy, pd + rel);
    OneEventPass(delete, mid.disk, source, destination, legacy);
    FollowTwo(fs, create, delete, source, destination, legacy);
  }
}
