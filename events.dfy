/** What the watch service delivers, as input: each `take()` yields a key with its polled
    events, what happens to the file system while the thread waits for it, and the result
    `reset()` will give. */
module Events {
  import opened Wrappers
  import opened Paths
  import opened FileSystem

  /** ENTRY_CREATE, ENTRY_DELETE, ENTRY_MODIFY and OVERFLOW. */
  datatype Kind = Create | Delete | Modify | Overflow

  /** What the environment does around one attempt on an entry: `act` is what other
      processes (the download, the user) do to the disk while the thread sleeps next to that
      attempt, and `inUse` says whether another process holds the entry open when it is
      tried. */
  datatype Pass = Pass(act: Node -> Node, inUse: bool)

  /** The disk after the sleeps of the first `n` passes, from `fs`. */
  function DiskBefore(fs: Node, activity: seq<Pass>, n: nat): Node
    requires n <= |activity|
  {
    if n == 0 then fs else activity[n - 1].act(DiskBefore(fs, activity, n - 1))
  }

  /** Starting one pass later. */
  lemma {:induction false} DiskBeforeShift(fs: Node, activity: seq<Pass>, n: nat)
    requires n < |activity|
    ensures DiskBefore(activity[0].act(fs), activity[1..], n) == DiskBefore(fs, activity, n + 1)
    decreases n
  {
    if n > 0 {
      DiskBeforeShift(fs, activity, n - 1);
    }
  }

  /** An event: its kind, its context (the file name relative to the watched directory, or
      null), and the passes of the library watchers' copy of the entry it names, one per
      attempt to open the file. */
  datatype Event = Event(kind: Kind, context: Option<string>, attempts: seq<Pass>)

  /** A signalled key: the directory it watches, its events, what other threads and
      processes do to the file system between the previous `take()` and this one, and
      whether `reset()` reports it still valid. */
  datatype Key = Key(watchable: Path, events: seq<Event>, activity: Node -> Node, valid: bool)

  /** Why an event loop ends: `take()` was interrupted (the input is exhausted), `reset()`
      returned false, an exception escaped and ended the thread, or a copy waits forever
      for a file it cannot open. */
  datatype Stop = Interrupted | KeyInvalid | Crashed | Blocked
}
