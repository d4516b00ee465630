/** Which events start a mover (`processEvents` / `handleFile` of `Watcher` and
    `NormalWatcher`): every event except OVERFLOW whose file name has not been detected
    before and mentions neither an lftp status file nor TeraCopy. The two watchers differ
    only on an event without a name: `Watcher` calls `toString()` on it and the thread dies,
    `NormalWatcher` skips it. */
module Screening {
  import opened Wrappers
  import opened Strings
  import opened Paths
  import opened FileSystem
  import opened Events

  /** A mover to start: the detected name and whether it named a directory. */
  datatype MoverRequest = MoverRequest(filename: string, isDirectory: bool)

  const StatusMarker: string := ".lftp-pget-status"
  const TeraCopyMarker: string := "TeraCopy"

  /** The names of the requests, in order. */
  function Names(r: seq<MoverRequest>): seq<string> {
    if r == [] then [] else [r[0].filename] + Names(r[1..])
  }

  lemma {:induction false} NamesAppend(a: seq<MoverRequest>, b: seq<MoverRequest>)
    ensures Names(a + b) == Names(a) + Names(b)
  {
    if a == [] {
      assert a + b == b;
    } else {
      assert (a + b)[1..] == a[1..] + b;
      NamesAppend(a[1..], b);
    }
  }

  lemma AppendAssoc<T>(a: seq<T>, b: seq<T>, c: seq<T>)
    ensures (a + b) + c == a + (b + c)
  {
  }

  lemma AppendEmpty<T>(a: seq<T>)
    ensures a + [] == a
  {
  }

  predicate NoDup(s: seq<string>) {
    forall i, j :: 0 <= i < j < |s| ==> s[i] != s[j]
  }

  /** The name is a download's status file or a TeraCopy temporary. */
  predicate Marked(name: string) {
    Contains(name, StatusMarker) || Contains(name, TeraCopyMarker)
  }

  /** An event that throws before any check (`Watcher` only). */
  predicate Fatal(e: Event, nullFatal: bool) {
    nullFatal && e.context.None? && e.kind != Overflow
  }

  /** An event that names a candidate for moving, whatever has been detected so far. */
  predicate Candidate(e: Event) {
    e.kind != Overflow && e.context.Some? && !Marked(e.context.value)
  }

  /** The number of events handled before the first fatal one (all of them if none is). */
  function CrashIndex(events: seq<Event>, nullFatal: bool): (k: nat)
    ensures k <= |events|
  {
    if events == [] then 0
    else if Fatal(events[0], nullFatal) then 0
    else 1 + CrashIndex(events[1..], nullFatal)
  }

  /** `CrashIndex` is the index of the first fatal event: none comes before it, and the
      event there, if any, is fatal. */
  lemma {:induction false} CrashIndexFirst(events: seq<Event>, nullFatal: bool)
    ensures var k := CrashIndex(events, nullFatal);
      && (forall i :: 0 <= i < k ==> !Fatal(events[i], nullFatal))
      && (k < |events| ==> Fatal(events[k], nullFatal))
  {
    if events != [] && !Fatal(events[0], nullFatal) {
      CrashIndexFirst(events[1..], nullFatal);
      forall i | 0 < i < CrashIndex(events, nullFatal)
        ensures !Fatal(events[i], nullFatal)
      {
        assert events[i] == events[1..][i - 1];
      }
    }
  }

  /** The first fatal event is where the handling stops. */
  lemma CrashAt(events: seq<Event>, j: nat, nullFatal: bool)
    requires j < |events| && Fatal(events[j], nullFatal)
    requires forall i :: 0 <= i < j ==> !Fatal(events[i], nullFatal)
    ensures CrashIndex(events, nullFatal) == j
  {
    CrashIndexFirst(events, nullFatal);
  }

  lemma NoCrash(events: seq<Event>, nullFatal: bool)
    requires forall i :: 0 <= i < |events| ==> !Fatal(events[i], nullFatal)
    ensures CrashIndex(events, nullFatal) == |events|
  {
    CrashIndexFirst(events, nullFatal);
  }

  /** The movers one key's events start, in order, given the names detected so far. */
  function Admit(events: seq<Event>, detected: seq<string>, source: Path, disk: Node, nullFatal: bool)
    : seq<MoverRequest>
  {
    if events == [] || Fatal(events[0], nullFatal) then []
    else
      var e := events[0];
      if Candidate(e) && e.context.value !in detected then
        var name := e.context.value;
        [MoverRequest(name, IsDir(disk, Resolve(source, name)))]
          + Admit(events[1..], detected + [name], source, disk, nullFatal)
      else Admit(events[1..], detected, source, disk, nullFatal)
  }

  /** One event of `Admit`, seen from a loop that has started the movers `adm` for the
      events before index `j`. */
  lemma AdmitStep(events: seq<Event>, j: nat, detected: seq<string>, adm: seq<MoverRequest>, source: Path,
                  disk: Node, nullFatal: bool)
    requires j < |events| && !Fatal(events[j], nullFatal)
    requires Admit(events, detected, source, disk, nullFatal)
      == adm + Admit(events[j..], detected + Names(adm), source, disk, nullFatal)
    ensures var e := events[j];
      var whole := Admit(events, detected, source, disk, nullFatal);
      if Candidate(e) && e.context.value !in detected + Names(adm) then
        var req := MoverRequest(e.context.value, IsDir(disk, Resolve(source, e.context.value)));
        && detected + Names(adm) + [e.context.value] == detected + Names(adm + [req])
        && whole == (adm + [req]) + Admit(events[j + 1..], detected + Names(adm + [req]), source, disk, nullFatal)
      else whole == adm + Admit(events[j + 1..], detected + Names(adm), source, disk, nullFatal)
  {
    var e := events[j];
    var d := detected + Names(adm);
    var tail := events[j..];
    assert tail[0] == e && tail[1..] == events[j + 1..];
    AdmitHead(tail, d, source, disk, nullFatal);
    if Candidate(e) && e.context.value !in d {
      var name := e.context.value;
      var req := MoverRequest(name, IsDir(disk, Resolve(source, name)));
      NamesAppend(adm, [req]);
      assert Names([req]) == [name];
      assert d + [name] == detected + Names(adm + [req]);
      var rest := Admit(events[j + 1..], d + [name], source, disk, nullFatal);
      assert Admit(tail, d, source, disk, nullFatal) == [req] + rest;
      assert adm + ([req] + rest) == (adm + [req]) + rest;
    } else {
      assert Admit(tail, d, source, disk, nullFatal) == Admit(events[j + 1..], d, source, disk, nullFatal);
    }
  }

  /** `Admit` on its first event. */
  lemma AdmitHead(events: seq<Event>, detected: seq<string>, source: Path, disk: Node, nullFatal: bool)
    requires events != [] && !Fatal(events[0], nullFatal)
    ensures var e := events[0];
      Admit(events, detected, source, disk, nullFatal)
        == if Candidate(e) && e.context.value !in detected then
             [MoverRequest(e.context.value, IsDir(disk, Resolve(source, e.context.value)))]
               + Admit(events[1..], detected + [e.context.value], source, disk, nullFatal)
           else Admit(events[1..], detected, source, disk, nullFatal)
  {
  }

  /** Some event among the first `k` names `n` as a candidate. */
  predicate NamedBefore(events: seq<Event>, k: nat, n: string)
    requires k <= |events|
  {
    exists i :: 0 <= i < k && Candidate(events[i]) && events[i].context.value == n
  }

  lemma NamedBeforeShift(events: seq<Event>, k: nat, n: string)
    requires 0 < k <= |events|
    ensures NamedBefore(events, k, n)
      <==> (Candidate(events[0]) && events[0].context.value == n) || NamedBefore(events[1..], k - 1, n)
  {
    if NamedBefore(events, k, n) {
      var i :| 0 <= i < k && Candidate(events[i]) && events[i].context.value == n;
      if i > 0 {
        assert events[1..][i - 1] == events[i];
      }
    }
    if NamedBefore(events[1..], k - 1, n) {
      var i :| 0 <= i < k - 1 && Candidate(events[1..][i]) && events[1..][i].context.value == n;
      assert events[i + 1] == events[1..][i];
    }
  }

  /** Every mover a key starts is for a name not detected before and not marked, with the
      directory flag the file system gives that name. */
  lemma {:induction false} AdmitSound(events: seq<Event>, detected: seq<string>, source: Path, disk: Node,
                                      nullFatal: bool, i: nat)
    requires i < |Admit(events, detected, source, disk, nullFatal)|
    ensures var r := Admit(events, detected, source, disk, nullFatal);
      && r[i].filename !in detected && !Marked(r[i].filename)
      && r[i].isDirectory == IsDir(disk, Resolve(source, r[i].filename))
  {
    var e := events[0];
    if Candidate(e) && e.context.value !in detected {
      if i > 0 {
        AdmitSound(events[1..], detected + [e.context.value], source, disk, nullFatal, i - 1);
      }
    } else {
      AdmitSound(events[1..], detected, source, disk, nullFatal, i);
    }
  }

  lemma NoDupSnoc(s: seq<string>, x: string)
    requires NoDup(s) && x !in s
    ensures NoDup(s + [x])
  {
  }

  lemma NoDupRegroup(s: seq<string>, t: seq<string>, u: seq<string>)
    requires NoDup((s + t) + u)
    ensures NoDup(s + (t + u))
  {
    assert (s + t) + u == s + (t + u);
  }

  /** No name gets two movers: a list of detected names without duplicates stays without
      them once the key's names are added. */
  lemma {:induction false} AdmitDistinct(events: seq<Event>, detected: seq<string>, source: Path, disk: Node,
                                         nullFatal: bool)
    requires NoDup(detected)
    ensures NoDup(detected + Names(Admit(events, detected, source, disk, nullFatal)))
  {
    if events == [] || Fatal(events[0], nullFatal) {
      assert detected + Names([]) == detected;
    } else {
      var e := events[0];
      if Candidate(e) && e.context.value !in detected {
        var name := e.context.value;
        var req := MoverRequest(name, IsDir(disk, Resolve(source, name)));
        var rest := Admit(events[1..], detected + [name], source, disk, nullFatal);
        NoDupSnoc(detected, name);
        AdmitDistinct(events[1..], detected + [name], source, disk, nullFatal);
        assert Admit(events, detected, source, disk, nullFatal) == [req] + rest;
        assert Names([req] + rest) == [name] + Names(rest);
        NoDupRegroup(detected, [name], Names(rest));
      } else {
        assert Admit(events, detected, source, disk, nullFatal) == Admit(events[1..], detected, source, disk, nullFatal);
        AdmitDistinct(events[1..], detected, source, disk, nullFatal);
      }
    }
  }

  /** A name gets a mover exactly when it was not detected before and some event handled
      before the first fatal one names it as a candidate. */
  lemma {:induction false} AdmitNames(events: seq<Event>, detected: seq<string>, source: Path, disk: Node,
                                      nullFatal: bool, n: string)
    ensures n in Names(Admit(events, detected, source, disk, nullFatal))
      <==> n !in detected && NamedBefore(events, CrashIndex(events, nullFatal), n)
  {
    if events == [] || Fatal(events[0], nullFatal) {
    } else {
      var e := events[0];
      var k := CrashIndex(events, nullFatal);
      NamedBeforeShift(events, k, n);
      assert CrashIndex(events[1..], nullFatal) == k - 1;
      if Candidate(e) && e.context.value !in detected {
        var name := e.context.value;
        var req := MoverRequest(name, IsDir(disk, Resolve(source, name)));
        var rest := Admit(events[1..], detected + [name], source, disk, nullFatal);
        AdmitNames(events[1..], detected + [name], source, disk, nullFatal, n);
        NamesAppend([req], rest);
        assert Names(Admit(events, detected, source, disk, nullFatal)) == [name] + Names(rest);
      } else {
        AdmitNames(events[1..], detected, source, disk, nullFatal, n);
      }
    }
  }

  /** What an event loop does over a run of keys: the movers it starts, in order, why it
      ends, and the disk as it stands then. */
  datatype Run = Run(spawned: seq<MoverRequest>, stop: Stop, disk: Node)

  /** A key whose events are all handled without an exception. */
  predicate Survives(k: Key, nullFatal: bool) {
    CrashIndex(k.events, nullFatal) == |k.events|
  }

  /** `processEvents` over `keys`, from the disk `fs`: at each `take()` the disk moves on by
      the key's activity, then the key's events are handled on it, the detected names
      growing as movers start; the loop ends at an exception, at a key that `reset()`
      reports invalid, or when no key is left (`take()` interrupted). */
  function Watch(keys: seq<Key>, detected: seq<string>, source: Path, fs: Node, nullFatal: bool): Run
    decreases |keys|
  {
    if keys == [] then Run([], Interrupted, fs)
    else
      var k := keys[0];
      var disk := k.activity(fs);
      var adm := Admit(k.events, detected, source, disk, nullFatal);
      if !Survives(k, nullFatal) then Run(adm, Crashed, disk)
      else if !k.valid then Run(adm, KeyInvalid, disk)
      else
        var rest := Watch(keys[1..], detected + Names(adm), source, disk, nullFatal);
        Run(adm + rest.spawned, rest.stop, rest.disk)
  }

  /** One key of `Watch`, seen from a loop that has started the movers `run` for the keys
      before index `i` and stands at the disk `fs`: the key's movers extend `run`, and the
      run either ends at this key or continues from the next one. */
  lemma WatchStep(keys: seq<Key>, i: nat, detected: seq<string>, run: seq<MoverRequest>, source: Path,
                  fs0: Node, fs: Node, nullFatal: bool)
    requires i < |keys|
    requires var w := Watch(keys[i..], detected + Names(run), source, fs, nullFatal);
      Watch(keys, detected, source, fs0, nullFatal) == Run(run + w.spawned, w.stop, w.disk)
    ensures var k := keys[i];
      var disk := k.activity(fs);
      var adm := Admit(k.events, detected + Names(run), source, disk, nullFatal);
      var whole := Watch(keys, detected, source, fs0, nullFatal);
      && detected + Names(run) + Names(adm) == detected + Names(run + adm)
      && (!Survives(k, nullFatal) ==> whole == Run(run + adm, Crashed, disk))
      && (Survives(k, nullFatal) && !k.valid ==> whole == Run(run + adm, KeyInvalid, disk))
      && (Survives(k, nullFatal) && k.valid ==>
            var w := Watch(keys[i + 1..], detected + Names(run + adm), source, disk, nullFatal);
            whole == Run((run + adm) + w.spawned, w.stop, w.disk))
  {
    assert keys[i..][0] == keys[i] && keys[i..][1..] == keys[i + 1..];
    var k := keys[i];
    var adm := Admit(k.events, detected + Names(run), source, k.activity(fs), nullFatal);
    NamesAppend(run, adm);
    if Survives(k, nullFatal) && k.valid {
      var w := Watch(keys[i + 1..], detected + Names(run + adm), source, k.activity(fs), nullFatal);
      assert run + (adm + w.spawned) == (run + adm) + w.spawned;
    }
  }

  /** Over any run of keys no name gets two movers, and none is started for a name detected before. */
  lemma {:induction false} WatchDistinct(keys: seq<Key>, detected: seq<string>, source: Path, fs: Node,
                                         nullFatal: bool)
    requires NoDup(detected)
    ensures NoDup(detected + Names(Watch(keys, detected, source, fs, nullFatal).spawned))
    decreases |keys|
  {
    if keys == [] {
      assert detected + Names([]) == detected;
    } else {
      var k := keys[0];
      var disk := k.activity(fs);
      var adm := Admit(k.events, detected, source, disk, nullFatal);
      AdmitDistinct(k.events, detected, source, disk, nullFatal);
      if Survives(k, nullFatal) && k.valid {
        var d1 := detected + Names(adm);
        var rest := Watch(keys[1..], d1, source, disk, nullFatal);
        WatchDistinct(keys[1..], d1, source, disk, nullFatal);
        NamesAppend(adm, rest.spawned);
        NoDupRegroup(detected, Names(adm), Names(rest.spawned));
      }
    }
  }

  /** The loop runs until the input is exhausted exactly when every key survives its events
      and stays valid. */
  lemma {:induction false} WatchInterrupted(keys: seq<Key>, detected: seq<string>, source: Path, fs: Node,
                                            nullFatal: bool)
    ensures Watch(keys, detected, source, fs, nullFatal).stop == Interrupted
      <==> forall i :: 0 <= i < |keys| ==> Survives(keys[i], nullFatal) && keys[i].valid
    decreases |keys|
  {
    if keys != [] {
      var k := keys[0];
      var disk := k.activity(fs);
      var adm := Admit(k.events, detected, source, disk, nullFatal);
      WatchInterrupted(keys[1..], detected + Names(adm), source, disk, nullFatal);
      if forall i :: 0 <= i < |keys| ==> Survives(keys[i], nullFatal) && keys[i].valid {
        forall i | 0 <= i < |keys[1..]|
          ensures Survives(keys[1..][i], nullFatal) && keys[1..][i].valid
        {
          assert keys[1..][i] == keys[i + 1];
        }
      } else if Survives(k, nullFatal) && k.valid {
        var i :| 0 <= i < |keys| && !(Survives(keys[i], nullFatal) && keys[i].valid);
        assert i > 0 && keys[1..][i - 1] == keys[i];
      }
    }
  }

  /** An event without a name only ends the thread where it is fatal: a loop that skips such
      events (`NormalWatcher`) never crashes. */
  lemma {:induction false} SkippingNeverCrashes(keys: seq<Key>, detected: seq<string>, source: Path, fs: Node)
    ensures Watch(keys, detected, source, fs, false).stop != Crashed
    decreases |keys|
  {
    if keys != [] {
      var k := keys[0];
      NoCrash(k.events, false);
      var disk := k.activity(fs);
      var adm := Admit(k.events, detected, source, disk, false);
      SkippingNeverCrashes(keys[1..], detected + Names(adm), source, disk);
    }
  }
}
