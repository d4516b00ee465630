/** `Mover`: one thread per detected name, which waits until the entry is no longer being
    downloaded and then copies it into the library. */
module Movers {
  import opened Wrappers
  import opened Strings
  import opened Paths
  import opened FileSystem
  import opened FileOps
  import opened Shared
  import opened Events
  import Screening

  /** A child path containing this marks a directory as still downloading. */
  const DownloadMarker: string := ".lftp"
  /** The status file lftp keeps beside a file it is still fetching. */
  const StatusSuffix: string := Screening.StatusMarker

  /** The folder `setupDestinationFolder` creates: `destination + separator + title` with a
      subfolder, else the destination itself. */
  function DestinationFolder(destination: Path, title: string, placeInSubFolder: bool): Path {
    if placeInSubFolder then Parse(PathString(destination) + [Sep] + title)
    else Parse(PathString(destination))
  }

  /** The target path `setupDestinationFolder` returns. */
  function DestinationPath(destination: Path, title: string, filename: string, placeInSubFolder: bool): Path {
    if placeInSubFolder then Parse(PathString(destination) + [Sep] + title + [Sep] + filename)
    else Parse(PathString(destination) + [Sep] + filename)
  }

  /** The target is `destination/title/filename` with a subfolder and `destination/filename`
      without; an empty title (no title found) adds no level, and the target always lies in
      the folder that is created. */
  lemma DestinationShape(destination: Path, title: string, filename: string, placeInSubFolder: bool)
    requires ValidPath(destination)
    ensures DestinationFolder(destination, title, placeInSubFolder)
         == if placeInSubFolder then destination + Parse(title) else destination
    ensures DestinationPath(destination, title, filename, placeInSubFolder)
         == DestinationFolder(destination, title, placeInSubFolder) + Parse(filename)
  {
    if placeInSubFolder {
      SubFolderShape(destination, title, filename);
    } else {
      ParsePathString(destination);
      ParseJoin(destination, filename);
    }
  }

  /** The subfolder case of `DestinationShape`. */
  lemma SubFolderShape(destination: Path, title: string, filename: string)
    requires ValidPath(destination)
    ensures Parse(PathString(destination) + [Sep] + title) == destination + Parse(title)
    ensures Parse(PathString(destination) + [Sep] + title + [Sep] + filename)
         == destination + Parse(title) + Parse(filename)
  {
    var d := PathString(destination);
    ParseJoin(destination, title);
    calc {
      Parse(d + [Sep] + title + [Sep] + filename);
      { assert d + [Sep] + title + [Sep] + filename == d + [Sep] + (title + [Sep] + filename); }
      Parse(d + [Sep] + (title + [Sep] + filename));
      { ParseJoin(destination, title + [Sep] + filename); }
      destination + Parse(title + [Sep] + filename);
      { ParseSplit(title, filename, []); }
      destination + (Parse(title) + Parse(filename));
    }
  }

  /** `isDownloading` as written. A directory counts when one of its entries' paths contains
      ".lftp", or when it has any subdirectory at all: the recursive call's result is mapped
      and then ignored by `anyMatch(f -> true)`. Anything else counts when the status file
      `path + ".lftp-pget-status"` exists. */
  predicate IsDownloading(fs: Node, p: Path) {
    match ListFiles(fs, p)
    case Some(kids) =>
      exists k :: 0 <= k < |kids| && (Contains(PathString(p + [kids[k].name]), DownloadMarker) || kids[k].Dir?)
    case None => Lookup(fs, Parse(PathString(p) + StatusSuffix)).Some?
  }

  /** For anything but a directory, the status file is looked up beside it. */
  lemma StatusFileRule(fs: Node, p: Path)
    requires ValidPath(p) && |p| > 0 && !IsDir(fs, p)
    ensures IsDownloading(fs, p) <==> Lookup(fs, Parent(p) + [Last(p) + StatusSuffix]).Some?
  {
    var name := Last(p) + StatusSuffix;
    assert p == Parent(p) + [Last(p)];
    RenderAppend(Parent(p), [Last(p)]);
    assert Render([Last(p)]) == [Sep] + Last(p);
    assert PathString(p) + StatusSuffix == Render(Parent(p)) + [Sep] + name;
    ParseSplit(Render(Parent(p)), name, []);
    assert ValidPath(Parent(p));
    ParseRender(Parent(p));
    ParseSingle(name);
  }

  /** One entry of a directory seen through its path. */
  lemma ChildAt(fs: Node, p: Path, k: nat)
    requires WF(fs) && ListFiles(fs, p).Some? && k < |ListFiles(fs, p).value|
    ensures Lookup(fs, p + [ListFiles(fs, p).value[k].name]) == Some(ListFiles(fs, p).value[k])
  {
    var kids := ListFiles(fs, p).value;
    LookupWF(fs, p);
    FindUnique(kids, kids[k].name, k);
    LookupAppend(fs, p, [kids[k].name]);
  }

  /** A directory counts as downloading when some entry's path contains ".lftp" or some
      entry is itself a directory, however deep that directory's own contents lie. */
  lemma EntryMakesDownloading(fs: Node, p: Path, c: string)
    requires IsDir(fs, p) && Lookup(fs, p + [c]).Some?
    requires Contains(PathString(p + [c]), DownloadMarker) || IsDir(fs, p + [c])
    ensures IsDownloading(fs, p)
  {
    var kids := ListFiles(fs, p).value;
    LookupAppend(fs, p, [c]);
    var k := Find(kids, c);
    assert k < |kids| && kids[k].name == c;
  }

  /** ... and only then: a downloading directory has such an entry. */
  lemma DownloadingEntry(fs: Node, p: Path) returns (c: string)
    requires WF(fs) && IsDir(fs, p) && IsDownloading(fs, p)
    ensures Lookup(fs, p + [c]).Some?
    ensures Contains(PathString(p + [c]), DownloadMarker) || IsDir(fs, p + [c])
  {
    var kids := ListFiles(fs, p).value;
    var k :| 0 <= k < |kids| && (Contains(PathString(p + [kids[k].name]), DownloadMarker) || kids[k].Dir?);
    ChildAt(fs, p, k);
    c := kids[k].name;
  }

  /** `FileUtils.copyDirectory(src, dst)`. A missing source (FileNotFoundException), a source
      that is not a directory, a target nested with the source, a regular file at the target
      or in the way of creating its parents all fail with a plain IOException; otherwise the
      parents are created and the target becomes a copy of the source directory. */
  function CopyDirectory(fs: Node, src: Path, dst: Path): (r: Outcome)
    ensures r.Failed? ==> r.error == OtherIOError
  {
    match Lookup(fs, src)
    case Some(Dir(_, kids)) =>
      if |dst| == 0 || IsPrefix(src, dst) || IsPrefix(dst, src) || !NoFileOnPath(fs, dst) then Failed(OtherIOError)
      else Done(ReplaceIn(MakeDirs(fs, Parent(dst)), dst, Some(Dir(Last(dst), kids))))
    case _ => Failed(OtherIOError)
  }

  /** The same entries below two directories that differ only in name. */
  lemma {:induction false} RenamedLookup(kids: seq<Node>, a: string, b: string, r: Path)
    requires r != []
    ensures Lookup(Dir(a, kids), r) == Lookup(Dir(b, kids), r)
  {
  }

  /** After a directory copy every regular file below the source has its twin below the
      target, nothing else below the target is a regular file, and outside the target no
      regular file changes. */
  lemma CopyDirectoryMirrors(fs: Node, src: Path, dst: Path, r: Path, q: Path)
    requires WF(fs) && ValidPath(dst) && CopyDirectory(fs, src, dst).Done?
    ensures FileData(CopyDirectory(fs, src, dst).fs, dst + r) == FileData(fs, src + r)
    ensures !IsPrefix(dst, q) ==> FileData(CopyDirectory(fs, src, dst).fs, q) == FileData(fs, q)
  {
    var n := Lookup(fs, src).value;
    var v := Dir(Last(dst), n.children);
    var fs1 := MakeDirs(fs, Parent(dst));
    assert NoFileOnPath(fs, Parent(dst)) by {
      forall k | 0 <= k <= |Parent(dst)| ensures FileData(fs, Parent(dst)[..k]).None? {
        assert Parent(dst)[..k] == dst[..k];
      }
    }
    assert ValidPath(Parent(dst)) && ValidName(Last(dst));
    MakeDirsMakesDir(fs, Parent(dst));
    MakeDirsFiles(fs, Parent(dst), q);
    LookupWF(fs, src);
    ReplaceInFiles(fs1, dst, Some(v), q);
    ReplaceInFiles(fs1, dst, Some(v), dst + r);
    assert (dst + r)[..|dst|] == dst && (dst + r)[|dst|..] == r;
    LookupAppend(fs, src, r);
    if r != [] {
      RenamedLookup(n.children, n.name, Last(dst), r);
    }
  }

  /** How one pass of the loop ends: retry (still downloading, or an IOException), give up
      (NoSuchFileException), or the copy is done, leaving this tree. */
  datatype Try = Retry | Abandon | Copied(fs: Node)

  /** One attempt on the tree as it stands after the wait. When another process holds the
      entry open (`inUse`), the copy throws an IOException before it writes anything. */
  function Attempt(fs: Node, src: Path, dst: Path, isDirectory: bool, inUse: bool): Try {
    if IsDownloading(fs, src) then Retry
    else if inUse then Retry
    else
      var copy := if isDirectory then CopyDirectory(fs, src, dst) else FilesCopy(fs, src, dst);
      match copy
      case Done(fs') => Copied(fs')
      case Failed(error) => if error == NoSuchFile then Abandon else Retry
  }

  datatype Status = Moved | Abandoned | Waiting

  /** How the loop ends, after how many retries, and the tree it leaves. */
  datatype MoveEnd = MoveEnd(status: Status, retries: nat, disk: Node)

  /** The loop `while (!fileMoved)`, pass `i` being `activity[i]`; once the input is used up
      the mover is still waiting, and only then. */
  function Settle(fs: Node, activity: seq<Pass>, src: Path, dst: Path, isDirectory: bool): (r: MoveEnd)
    ensures r.retries <= |activity|
    ensures r.status == Waiting <==> r.retries == |activity|
    decreases |activity|
  {
    if activity == [] then MoveEnd(Waiting, 0, fs)
    else
      var seen := activity[0].act(fs);
      match Attempt(seen, src, dst, isDirectory, activity[0].inUse)
      case Retry => Shift(Settle(seen, activity[1..], src, dst, isDirectory), 1)
      case Abandon => MoveEnd(Abandoned, 0, seen)
      case Copied(fs') => MoveEnd(Moved, 0, fs')
  }

  function Shift(e: MoveEnd, n: nat): MoveEnd {
    e.(retries := e.retries + n)
  }

  /** The disk attempt `n` works on. */
  function Seen(fs: Node, activity: seq<Pass>, n: nat): Node
    requires n < |activity|
  {
    activity[n].act(DiskBefore(fs, activity, n))
  }

  /** Every attempt before `n` retried. */
  predicate RetriedBefore(fs: Node, activity: seq<Pass>, src: Path, dst: Path, isDirectory: bool, n: nat)
    requires n <= |activity|
  {
    forall j :: 0 <= j < n ==> Attempt(Seen(fs, activity, j), src, dst, isDirectory, activity[j].inUse).Retry?
  }

  /** Attempt `j + 1` is attempt `j` of the loop that starts one pass later. */
  lemma SeenShift(fs: Node, activity: seq<Pass>, j: nat)
    requires j + 1 < |activity|
    ensures Seen(activity[0].act(fs), activity[1..], j) == Seen(fs, activity, j + 1)
    ensures activity[1..][j] == activity[j + 1]
  {
    DiskBeforeShift(fs, activity, j);
  }

  /** What the loop's end says about its passes: every pass before the one that ends it
      retried; the pass that ends it found the entry no longer downloading and not held by
      another process, and the copy is then done or abandoned there; if every pass retries,
      the mover is still waiting on the disk the other processes left. */
  ghost predicate Explained(fs: Node, activity: seq<Pass>, src: Path, dst: Path, isDirectory: bool) {
    var e := Settle(fs, activity, src, dst, isDirectory);
    && e.retries <= |activity|
    && RetriedBefore(fs, activity, src, dst, isDirectory, e.retries)
    && (e.status == Waiting <==> e.retries == |activity|)
    && (e.status == Waiting ==> e.disk == DiskBefore(fs, activity, |activity|))
    && (e.status != Waiting ==> !IsDownloading(Seen(fs, activity, e.retries), src) && !activity[e.retries].inUse)
    && (e.status == Abandoned ==>
          Attempt(Seen(fs, activity, e.retries), src, dst, isDirectory, false) == Abandon)
    && (e.status == Moved ==>
          Attempt(Seen(fs, activity, e.retries), src, dst, isDirectory, false) == Copied(e.disk))
  }

  /** The loop ends at the first attempt that does not retry, as `Explained` says. */
  lemma {:induction false} SettleExplained(fs: Node, activity: seq<Pass>, src: Path, dst: Path, isDirectory: bool)
    ensures Explained(fs, activity, src, dst, isDirectory)
    decreases |activity|
  {
    if activity != [] {
      var seen := activity[0].act(fs);
      assert Seen(fs, activity, 0) == seen;
      if Attempt(seen, src, dst, isDirectory, activity[0].inUse).Retry? {
        SettleExplained(seen, activity[1..], src, dst, isDirectory);
        RetryExplained(fs, activity, src, dst, isDirectory);
      }
    }
  }

  /** A first pass that retries adds one to every index of the rest of the loop. */
  lemma RetryExplained(fs: Node, activity: seq<Pass>, src: Path, dst: Path, isDirectory: bool)
    requires activity != []
    requires Attempt(activity[0].act(fs), src, dst, isDirectory, activity[0].inUse).Retry?
    requires Explained(activity[0].act(fs), activity[1..], src, dst, isDirectory)
    ensures Explained(fs, activity, src, dst, isDirectory)
  {
    var seen := activity[0].act(fs);
    var rest := activity[1..];
    assert Seen(fs, activity, 0) == seen;
    var e := Settle(seen, rest, src, dst, isDirectory);
    if e.retries < |rest| {
      SeenShift(fs, activity, e.retries);
    } else {
      DiskBeforeShift(fs, activity, |rest|);
    }
    forall j | 0 <= j < e.retries + 1
      ensures Attempt(Seen(fs, activity, j), src, dst, isDirectory, activity[j].inUse).Retry?
    {
      if j > 0 {
        SeenShift(fs, activity, j - 1);
      }
    }
  }

  /** While another process holds the entry open the mover neither copies nor gives up: when
      it is held at every pass, the mover is still waiting after all of them, on the disk the
      other processes left. */
  lemma HeldEntryWaits(fs: Node, activity: seq<Pass>, src: Path, dst: Path, isDirectory: bool)
    requires forall j :: 0 <= j < |activity| ==> activity[j].inUse
    ensures Settle(fs, activity, src, dst, isDirectory)
         == MoveEnd(Waiting, |activity|, DiskBefore(fs, activity, |activity|))
  {
    SettleExplained(fs, activity, src, dst, isDirectory);
  }

  /** A directory mover never gives up: `copyDirectory` reports a missing source as a plain
      FileNotFoundException, which is retried like any other IOException. */
  lemma DirectoryMoverNeverAbandons(fs: Node, activity: seq<Pass>, src: Path, dst: Path)
    ensures Settle(fs, activity, src, dst, true).status != Abandoned
  {
    SettleExplained(fs, activity, src, dst, true);
  }

  /** A regular file that is moved arrives with the bytes it had when it was copied. */
  lemma MovedFileKeepsBytes(fs: Node, activity: seq<Pass>, src: Path, dst: Path)
    requires ValidPath(dst)
    requires var e := Settle(fs, activity, src, dst, false);
      e.status == Moved && WF(Seen(fs, activity, e.retries)) && FileData(Seen(fs, activity, e.retries), src).Some?
    ensures var e := Settle(fs, activity, src, dst, false);
      FileData(e.disk, dst) == FileData(Seen(fs, activity, e.retries), src)
  {
    SettleExplained(fs, activity, src, dst, false);
    var e := Settle(fs, activity, src, dst, false);
    FilesCopyFiles(Seen(fs, activity, e.retries), src, dst, dst);
  }

  /** A directory that is moved arrives whole: each regular file below it has its twin. */
  lemma MovedDirectoryMirrors(fs: Node, activity: seq<Pass>, src: Path, dst: Path, r: Path)
    requires ValidPath(dst)
    requires var e := Settle(fs, activity, src, dst, true);
      e.status == Moved && WF(Seen(fs, activity, e.retries))
    ensures var e := Settle(fs, activity, src, dst, true);
      FileData(e.disk, dst + r) == FileData(Seen(fs, activity, e.retries), src + r)
  {
    SettleExplained(fs, activity, src, dst, true);
    var e := Settle(fs, activity, src, dst, true);
    CopyDirectoryMirrors(Seen(fs, activity, e.retries), src, dst, r, dst);
  }

  /** `createFolder`: `mkdirs` when the folder does not exist; a failure only interrupts the
      thread, whose next sleep then returns at once, so the loop goes on. */
  function CreateFolder(fs: Node, folder: Path): Node {
    if Lookup(fs, folder).Some? then fs else MakeDirs(fs, folder)
  }

  /** One pass of the loop, from attempt `i` on. */
  lemma SettleStep(fs: Node, activity: seq<Pass>, i: nat, src: Path, dst: Path, isDirectory: bool)
    requires i < |activity|
    ensures var seen := activity[i].act(fs);
      Settle(fs, activity[i..], src, dst, isDirectory)
        == match Attempt(seen, src, dst, isDirectory, activity[i].inUse)
           case Retry => Shift(Settle(seen, activity[i + 1..], src, dst, isDirectory), 1)
           case Abandon => MoveEnd(Abandoned, 0, seen)
           case Copied(fs') => MoveEnd(Moved, 0, fs')
  {
    assert activity[i..][0] == activity[i];
    assert activity[i..][1..] == activity[i + 1..];
  }

  class Mover {
    /** The watched directory, the library root and the detected name. */
    const source: Path
    const destination: Path
    const filename: string
    const placeInSubFolder: bool
    const waitTime: int
    const isDirectory: bool
    /** `getAnimeTitle(filename)`: the title AnitomyJ parses out of the name, or "". */
    const title: string
    const registry: Registry
    var fileMoved: bool
    var alreadyTried: bool
    /** How many times the "being used by another process" notice has been printed. */
    ghost var waitNotices: nat

    constructor(source: Path, destination: Path, filename: string, placeInSubFolder: bool, waitTime: int,
                isDirectory: bool, title: string, registry: Registry)
      ensures this.source == source && this.destination == destination && this.filename == filename
      ensures this.placeInSubFolder == placeInSubFolder && this.waitTime == waitTime
      ensures this.isDirectory == isDirectory && this.title == title && this.registry == registry
      ensures !fileMoved && !alreadyTried && waitNotices == 0
    {
      this.source := source;
      this.destination := destination;
      this.filename := filename;
      this.placeInSubFolder := placeInSubFolder;
      this.waitTime := waitTime;
      this.isDirectory := isDirectory;
      this.title := title;
      this.registry := registry;
      fileMoved := false;
      alreadyTried := false;
      waitNotices := 0;
    }

    /** `run`: set up the destination folder, then move. */
    method Run(disk: Disk, activity: seq<Pass>) returns (end: MoveEnd)
      requires !fileMoved
      modifies this, registry, disk
      ensures var folder := DestinationFolder(destination, title, placeInSubFolder);
        var dst := DestinationPath(destination, title, filename, placeInSubFolder);
        end == Settle(CreateFolder(old(disk.root), folder), activity, Resolve(source, filename), dst, isDirectory)
      ensures disk.root == end.disk && fileMoved == (end.status == Moved)
      ensures registry.moved == old(registry.moved) + (if end.status == Moved then [filename] else [])
      ensures registry.detected == old(registry.detected)
      ensures alreadyTried == (old(alreadyTried) || end.retries > 0)
      ensures waitNotices == old(waitNotices) + (if !old(alreadyTried) && end.retries > 0 then 1 else 0)
    {
      var absoluteSrc := Resolve(source, filename);
      var absoluteDest := SetupDestinationFolder(disk);
      end := PerformMove(disk, absoluteSrc, absoluteDest, activity);
    }

    /** `setupDestinationFolder`: create the folder, return the target path. */
    method SetupDestinationFolder(disk: Disk) returns (dst: Path)
      modifies disk
      ensures dst == DestinationPath(destination, title, filename, placeInSubFolder)
      ensures disk.root == CreateFolder(old(disk.root), DestinationFolder(destination, title, placeInSubFolder))
    {
      if placeInSubFolder {
        var folder := PathString(destination) + [Sep] + title;
        CreateFolderAt(disk, folder);
        dst := Parse(folder + [Sep] + filename);
      } else {
        CreateFolderAt(disk, PathString(destination));
        dst := Parse(PathString(destination) + [Sep] + filename);
      }
    }

    /** `createFolder(path)`. */
    method CreateFolderAt(disk: Disk, path: string)
      modifies disk
      ensures disk.root == CreateFolder(old(disk.root), Parse(path))
    {
      var folder := Parse(path);
      if Lookup(disk.root, folder).None? {
        disk.root := MakeDirs(disk.root, folder);
      }
    }

    /** `performMove`: sleep, then try; retry while downloading or on an IOException, give
        up on NoSuchFileException, record the name in MOVED once the copy is done. */
    method PerformMove(disk: Disk, src: Path, dst: Path, activity: seq<Pass>) returns (end: MoveEnd)
      requires !fileMoved
      modifies this, registry, disk
      ensures end == Settle(old(disk.root), activity, src, dst, isDirectory)
      ensures disk.root == end.disk && fileMoved == (end.status == Moved)
      ensures registry.moved == old(registry.moved) + (if end.status == Moved then [filename] else [])
      ensures registry.detected == old(registry.detected)
      ensures alreadyTried == (old(alreadyTried) || end.retries > 0)
      ensures waitNotices == old(waitNotices) + (if !old(alreadyTried) && end.retries > 0 then 1 else 0)
    {
      ghost var fs0 := disk.root;
      var i := 0;
      while !fileMoved
        invariant 0 <= i <= |activity|
        invariant !fileMoved ==> Settle(fs0, activity, src, dst, isDirectory)
                                 == Shift(Settle(disk.root, activity[i..], src, dst, isDirectory), i)
        invariant fileMoved ==> Settle(fs0, activity, src, dst, isDirectory) == MoveEnd(Moved, i, disk.root)
        invariant registry.moved == old(registry.moved) && registry.detected == old(registry.detected)
        invariant alreadyTried == (old(alreadyTried) || i > 0)
        invariant waitNotices == old(waitNotices) + (if !old(alreadyTried) && i > 0 then 1 else 0)
        decreases |activity| - i, !fileMoved
      {
        if i == |activity| {
          // The input ends here; the thread would go on waiting.
          return MoveEnd(Waiting, i, disk.root);
        }
        // sleep(): other processes act on the disk meanwhile.
        SettleStep(disk.root, activity, i, src, dst, isDirectory);
        disk.root := activity[i].act(disk.root);
        var copy: Outcome;
        if IsDownloading(disk.root, src) {
          copy := Failed(OtherIOError);
        } else if activity[i].inUse {
          // Another process holds the entry open: the copy throws an IOException.
          copy := Failed(OtherIOError);
        } else if isDirectory {
          copy := CopyDirectory(disk.root, src, dst);
        } else {
          copy := FilesCopy(disk.root, src, dst);
        }
        if copy.Failed? {
          if copy.error == NoSuchFile {
            return MoveEnd(Abandoned, i, disk.root);
          }
          if !alreadyTried {
            waitNotices := waitNotices + 1;
            alreadyTried := true;
          }
          i := i + 1;
          continue;
        }
        disk.root := copy.fs;
        fileMoved := true;
      }
      registry.moved := registry.moved + [filename];
      end := MoveEnd(Moved, i, disk.root);
    }
  }
}
