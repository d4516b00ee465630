/** The start-up reconciliation of both library watchers: scan the source and destination
    trees, delete from the destination every entry the source lacks, then copy every source
    entry the destination lacks. */
module Reconcile {
  import opened Wrappers
  import opened Strings
  import opened Paths
  import opened FileSystem
  import opened FileOps
  import opened Inventory
  import opened Deletion

  /** `a.stream().filter(f -> !b.contains(f))`: the entries of `a` that `b` lacks, in order. */
  function Missing(a: seq<FileCompare>, b: seq<FileCompare>): (r: seq<FileCompare>)
    ensures forall e :: e in r <==> e in a && e !in b
    ensures |r| <= |a|
  {
    if a == [] then []
    else
      ContainsIsMembership(b, a[0]);
      (if !ListContains(b, a[0]) then [a[0]] else []) + Missing(a[1..], b)
  }

  /** Lists with the same entries have nothing to delete and nothing to copy. */
  lemma SameEntriesNoAction(src: seq<FileCompare>, dst: seq<FileCompare>)
    requires forall e :: e in src <==> e in dst
    ensures Missing(dst, src) == [] && Missing(src, dst) == []
  {
    if Missing(dst, src) != [] {
      assert Missing(dst, src)[0] in Missing(dst, src);
    }
    if Missing(src, dst) != [] {
      assert Missing(src, dst)[0] in Missing(src, dst);
    }
  }

  /** `recursiveDelete(destination + f.getName())` for each entry, in list order. */
  function DeleteAll(fs: Node, es: seq<FileCompare>, source: string, destination: string): Node
    decreases |es|
  {
    if es == [] then fs
    else
      var path := destination + es[0].name;
      DeleteAll(DeleteChain(fs, path, source, destination, ChainDepth(path, source, destination)),
                es[1..], source, destination)
  }

  /** `new File(destinationName).getParentFile().mkdirs()`; a path with no parent is left alone. */
  function PrepareTarget(fs: Node, dst: Path): Node {
    if |dst| > 0 then MakeDirs(fs, Parent(dst)) else fs
  }

  /** Both streams of the older `copyFile` open: the source is a regular file, and the
      target's parent is a directory and the target is not one. */
  predicate CanOpen(fs: Node, src: Path, dst: Path) {
    FileData(fs, src).Some? && WriteFile(fs, dst, []).Done?
  }

  /** The older `copyFile` once its streams open on `fs`: opening the output creates or
      empties the target, and then the source is read to its end and written there. When
      the target is the source itself, the reads find it empty and it stays empty. */
  function StreamWrite(fs: Node, src: Path, dst: Path): Node
    requires CanOpen(fs, src, dst)
  {
    var emptied := WriteFile(fs, dst, []).fs;
    match FileData(emptied, src)
    case None => emptied
    case Some(data) =>
      match WriteFile(emptied, dst, data)
      case Done(fs2) => fs2
      case Failed(_) => emptied
  }

  /** The older `copyFile(sourceName)` when the first attempt to open the streams decides:
      nobody holds the file and nothing else changes the disk. When the streams do not open
      the method waits forever; the tree is then the one after `mkdirs`. */
  function StreamCopy(fs: Node, sourceName: string, source: string, destination: string): Node {
    var src := Parse(sourceName);
    var dst := MapToDestination(sourceName, source, destination);
    var fs1 := PrepareTarget(fs, dst);
    if !CanOpen(fs1, src, dst) then fs1 else StreamWrite(fs1, src, dst)
  }

  /** The newer `copyFile(sourceName)`: one `Files.copy` attempt; a failure is only printed. */
  function SingleCopy(fs: Node, sourceName: string, source: string, destination: string): Node {
    var src := Parse(sourceName);
    var dst := MapToDestination(sourceName, source, destination);
    var fs1 := PrepareTarget(fs, dst);
    match FilesCopy(fs1, src, dst)
    case Done(fs2) => fs2
    case Failed(_) => fs1
  }

  /** One `copyFile`: the older watcher's (`legacy`) or the newer one's. */
  function CopyOne(fs: Node, sourceName: string, source: string, destination: string, legacy: bool): Node {
    if legacy then StreamCopy(fs, sourceName, source, destination)
    else SingleCopy(fs, sourceName, source, destination)
  }

  /** `copyFile(source + f.getName())` for each entry, in list order. */
  function CopyAll(fs: Node, es: seq<FileCompare>, source: string, destination: string, legacy: bool): Node
    decreases |es|
  {
    if es == [] then fs
    else CopyAll(CopyOne(fs, source + es[0].name, source, destination, legacy), es[1..], source, destination, legacy)
  }

  /** The tree after the constructor's reconciliation; both lists are scanned first. */
  function Reconciled(fs: Node, source: string, destination: string, legacy: bool): Node {
    var sourceList := Scan(fs, Parse(source), source);
    var destinationList := Scan(fs, Parse(destination), destination);
    var fs1 := DeleteAll(fs, Missing(destinationList, sourceList), source, destination);
    CopyAll(fs1, Missing(sourceList, destinationList), source, destination, legacy)
  }

  /** Whether the older constructor returns: `forEach` waits for every copy, so it returns
      only when each copy of the list opens its streams at its turn. */
  ghost predicate ReconcileReturns(fs: Node, source: string, destination: string) {
    var sourceList := Scan(fs, Parse(source), source);
    var destinationList := Scan(fs, Parse(destination), destination);
    CopiesOpen(DeleteAll(fs, Missing(destinationList, sourceList), source, destination),
               Missing(sourceList, destinationList), source, destination)
  }

  /** What a copy needs to succeed: the source is a regular file; the target is a valid,
      non-root path with no regular file above it and no directory in its place; the target
      is not the source nor above it. */
  ghost predicate CopyReady(fs: Node, src: Path, dst: Path) {
    FileData(fs, src).Some? && ValidPath(dst) && |dst| > 0
    && NoFileOnPath(fs, Parent(dst)) && !IsDir(fs, dst) && !IsPrefix(dst, src)
  }

  /** Under those conditions both versions of `copyFile` put the source bytes at the target
      and change no other regular file; they create directories only above the target. */
  lemma CopyOneEffect(fs: Node, sourceName: string, source: string, destination: string, legacy: bool, q: Path)
    requires WF(fs) && fs.Dir?
    requires CopyReady(fs, Parse(sourceName), MapToDestination(sourceName, source, destination))
    ensures var after := CopyOne(fs, sourceName, source, destination, legacy);
      var src := Parse(sourceName);
      var dst := MapToDestination(sourceName, source, destination);
      && WF(after) && after.Dir?
      && (legacy ==> CanOpen(PrepareTarget(fs, dst), src, dst))
      && FileData(after, q) == (if q == dst then FileData(fs, src) else FileData(fs, q))
      && (IsDir(after, q) ==> IsDir(fs, q) || IsPrefix(q, Parent(dst)))
  {
    var src := Parse(sourceName);
    var dst := MapToDestination(sourceName, source, destination);
    var fs1 := PrepareTarget(fs, dst);
    assert ValidPath(Parent(dst));
    MakeDirsFiles(fs, Parent(dst), q);
    MakeDirsFiles(fs, Parent(dst), src);
    MakeDirsDirs(fs, Parent(dst), q);
    MakeDirsDirs(fs, Parent(dst), dst);
    MakeDirsMakesDir(fs, Parent(dst));
    assert !IsPrefix(dst, Parent(dst));
    if legacy {
      assert src != dst;
      StreamWriteEffect(fs1, src, dst, q);
    } else {
      assert FilesCopy(fs1, src, dst).Done?;
      FilesCopyFiles(fs1, src, dst, q);
      FilesCopyDirs(fs1, src, dst, q);
    }
  }

  /** Once the streams open on a target other than the source, the target gets the source
      bytes, no other regular file changes and no directory appears. */
  lemma StreamWriteEffect(fs: Node, src: Path, dst: Path, q: Path)
    requires WF(fs) && fs.Dir? && ValidPath(dst) && CanOpen(fs, src, dst) && src != dst
    ensures var after := StreamWrite(fs, src, dst);
      && WF(after) && after.Dir?
      && FileData(after, q) == (if q == dst then FileData(fs, src) else FileData(fs, q))
      && (IsDir(after, q) ==> IsDir(fs, q))
  {
    var emptied := WriteFile(fs, dst, []).fs;
    var data := FileData(fs, src).value;
    WriteFileFiles(fs, dst, [], q);
    WriteFileFiles(fs, dst, [], src);
    WriteFileDirs(fs, dst, [], q);
    WriteAfterOpen(fs, dst, data);
    WriteFileFiles(emptied, dst, data, q);
    WriteFileDirs(emptied, dst, data, q);
  }

  /** A copy whose mapped target is the source file itself (the source string is absent
      from the path, say) opens both streams on that file; the older `copyFile` then leaves
      it empty, while the newer one leaves its bytes alone. */
  lemma CopyOntoItself(fs: Node, sourceName: string, source: string, destination: string)
    requires WF(fs) && fs.Dir? && ValidPath(Parse(sourceName))
    requires MapToDestination(sourceName, source, destination) == Parse(sourceName)
    requires FileData(fs, Parse(sourceName)).Some?
    ensures var p := Parse(sourceName);
      && CanOpen(PrepareTarget(fs, p), p, p)
      && FileData(StreamCopy(fs, sourceName, source, destination), p) == Some([])
      && FileData(SingleCopy(fs, sourceName, source, destination), p) == FileData(fs, p)
  {
    var p := Parse(sourceName);
    assert |p| > 0;
    var fs1 := PrepareTarget(fs, p);
    assert ValidPath(Parent(p));
    MakeDirsFiles(fs, Parent(p), p);
    LookupSomeParent(fs1, p);
    assert CanOpen(fs1, p, p);
    var emptied := WriteFile(fs1, p, []).fs;
    WriteFileFiles(fs1, p, [], p);
    WriteAfterOpen(fs1, p, []);
    WriteFileFiles(emptied, p, [], p);
    assert FilesCopy(fs1, p, p).Done?;
    FilesCopyFiles(fs1, p, p, p);
  }

  /** The path `copyFile(source + e.name)` reads from. */
  function SrcOf(e: FileCompare, source: string): Path {
    Parse(source + e.name)
  }

  /** The path `copyFile(source + e.name)` writes to. */
  function DstOf(e: FileCompare, source: string, destination: string): Path {
    MapToDestination(source + e.name, source, destination)
  }

  /** Copies that do not get in each other's way: no target lies strictly above another
      target or at or above a source, and entries with the same target have the same source. */
  ghost predicate Independent(es: seq<FileCompare>, source: string, destination: string) {
    forall e, e' :: e in es && e' in es ==> Apart(e, e', source, destination)
  }

  ghost predicate Apart(e: FileCompare, e': FileCompare, source: string, destination: string) {
    var d := DstOf(e, source, destination);
    var d' := DstOf(e', source, destination);
    && !(IsPrefix(d, d') && d != d')
    && !IsPrefix(d, SrcOf(e', source))
    && (d == d' ==> SrcOf(e, source) == SrcOf(e', source))
  }

  ghost predicate AllReady(fs: Node, es: seq<FileCompare>, source: string, destination: string) {
    forall e :: e in es ==> CopyReady(fs, SrcOf(e, source), DstOf(e, source, destination))
  }

  /** Every older-style copy of the list opens its streams at its turn, so none waits forever. */
  ghost predicate CopiesOpen(fs: Node, es: seq<FileCompare>, source: string, destination: string)
    decreases |es|
  {
    es == [] ||
    (var e := es[0];
     && CanOpen(PrepareTarget(fs, DstOf(e, source, destination)), SrcOf(e, source), DstOf(e, source, destination))
     && CopiesOpen(CopyOne(fs, source + e.name, source, destination, true), es[1..], source, destination))
  }

  /** After the first copy, the remaining copies are still ready. */
  lemma ReadyAfterFirst(fs: Node, es: seq<FileCompare>, source: string, destination: string, legacy: bool)
    requires WF(fs) && fs.Dir? && es != []
    requires AllReady(fs, es, source, destination) && Independent(es, source, destination)
    ensures AllReady(CopyOne(fs, source + es[0].name, source, destination, legacy), es[1..], source, destination)
  {
    var e0 := es[0];
    assert e0 in es;
    forall e | e in es[1..]
      ensures CopyReady(CopyOne(fs, source + e0.name, source, destination, legacy),
                        SrcOf(e, source), DstOf(e, source, destination))
    {
      assert Apart(e0, e, source, destination) && Apart(e, e0, source, destination);
      ReadyAfterOne(fs, source + e0.name, source, destination, legacy, SrcOf(e, source), DstOf(e, source, destination));
    }
  }

  /** A ready copy stays ready after another copy whose target is neither strictly above
      its target, nor at or above its source, nor strictly below its target. */
  lemma ReadyAfterOne(fs: Node, sourceName: string, source: string, destination: string, legacy: bool,
                      src: Path, dst: Path)
    requires WF(fs) && fs.Dir?
    requires CopyReady(fs, Parse(sourceName), MapToDestination(sourceName, source, destination))
    requires CopyReady(fs, src, dst)
    requires var d0 := MapToDestination(sourceName, source, destination);
      !(IsPrefix(d0, dst) && d0 != dst) && !IsPrefix(d0, src) && !(IsPrefix(dst, d0) && dst != d0)
    ensures CopyReady(CopyOne(fs, sourceName, source, destination, legacy), src, dst)
  {
    var d0 := MapToDestination(sourceName, source, destination);
    var fs1 := CopyOne(fs, sourceName, source, destination, legacy);
    forall k | 0 <= k <= |Parent(dst)| ensures FileData(fs1, Parent(dst)[..k]).None? {
      var x := Parent(dst)[..k];
      assert x == dst[..k];
      assert IsPrefix(x, dst) && |x| < |dst|;
      CopyOneEffect(fs, sourceName, source, destination, legacy, x);
    }
    CopyOneEffect(fs, sourceName, source, destination, legacy, src);
    CopyOneEffect(fs, sourceName, source, destination, legacy, dst);
  }

  /** Copying a list of independent, ready entries puts each source's bytes at its target
      and leaves every other regular file as it was; the older copies never wait. */
  lemma {:induction false} CopyAllEffect(fs: Node, es: seq<FileCompare>, source: string, destination: string, legacy: bool)
    requires WF(fs) && fs.Dir?
    requires AllReady(fs, es, source, destination) && Independent(es, source, destination)
    ensures var after := CopyAll(fs, es, source, destination, legacy);
      && WF(after) && after.Dir?
      && (forall e :: e in es ==> FileData(after, DstOf(e, source, destination)) == FileData(fs, SrcOf(e, source)))
      && (forall q :: (forall e :: e in es ==> DstOf(e, source, destination) != q) ==> FileData(after, q) == FileData(fs, q))
    ensures legacy ==> CopiesOpen(fs, es, source, destination)
    decreases |es|
  {
    if es != [] {
      var e0 := es[0];
      var fs1 := CopyOne(fs, source + e0.name, source, destination, legacy);
      var after := CopyAll(fs, es, source, destination, legacy);
      assert e0 in es;
      assert CopyReady(fs, SrcOf(e0, source), DstOf(e0, source, destination));
      CopyOneEffect(fs, source + e0.name, source, destination, legacy, []);
      ReadyAfterFirst(fs, es, source, destination, legacy);
      assert Independent(es[1..], source, destination) by {
        forall e, e' | e in es[1..] && e' in es[1..] ensures Apart(e, e', source, destination) {
          assert e in es && e' in es;
        }
      }
      CopyAllEffect(fs1, es[1..], source, destination, legacy);
      forall e | e in es
        ensures FileData(after, DstOf(e, source, destination)) == FileData(fs, SrcOf(e, source))
      {
        var d := DstOf(e, source, destination);
        assert Apart(e0, e, source, destination);
        CopyOneEffect(fs, source + e0.name, source, destination, legacy, SrcOf(e, source));
        if e in es[1..] {
        } else {
          assert e == e0;
          CopyOneEffect(fs, source + e0.name, source, destination, legacy, d);
          if exists e' :: e' in es[1..] && DstOf(e', source, destination) == d {
            var e' :| e' in es[1..] && DstOf(e', source, destination) == d;
            assert Apart(e0, e', source, destination);
            CopyOneEffect(fs, source + e0.name, source, destination, legacy, SrcOf(e', source));
          }
        }
      }
      forall q | forall e :: e in es ==> DstOf(e, source, destination) != q
        ensures FileData(after, q) == FileData(fs, q)
      {
        CopyOneEffect(fs, source + e0.name, source, destination, legacy, q);
      }
    }
  }

  /** The path `recursiveDelete(destination + e.name)` deletes first. */
  function DelOf(e: FileCompare, destination: string): Path {
    Parse(destination + e.name)
  }

  /** A delete target that is a normalised absolute path free of the source string, so
      that re-applying the replacement is harmless. */
  ghost predicate DeleteReady(path: string, source: string) {
    ValidPath(Parse(path)) && PathString(Parse(path)) == path && |source| > 0 && !Contains(path, source)
  }

  lemma DeleteOneEffect(fs: Node, path: string, source: string, destination: string, q: Path)
    requires WF(fs) && fs.Dir? && DeleteReady(path, source)
    ensures var after := DeleteChain(fs, path, source, destination, ChainDepth(path, source, destination));
      && WF(after) && after.Dir?
      && FileData(after, q) == (if q == Parse(path) then None else FileData(fs, q))
      && (IsDir(after, q) ==> IsDir(fs, q))
  {
    var p := Parse(path);
    ReplaceAllAbsent(path, source, destination);
    CleanMapsUpward(p, source, destination);
    ChainIsPrune(fs, p, source, destination, ChainDepth(path, source, destination));
    PruneFiles(fs, p, q);
    PruneShrinks(fs, p, q);
  }

  /** Deleting a list of clean targets removes exactly the regular files at those targets
      (and whatever directories that empties); it creates no directory. */
  lemma {:induction false} DeleteAllEffect(fs: Node, es: seq<FileCompare>, source: string, destination: string)
    requires WF(fs) && fs.Dir?
    requires forall e :: e in es ==> DeleteReady(destination + e.name, source)
    ensures var after := DeleteAll(fs, es, source, destination);
      && WF(after) && after.Dir?
      && (forall q :: FileData(after, q)
            == if exists e :: e in es && DelOf(e, destination) == q then None else FileData(fs, q))
      && (forall q :: IsDir(after, q) ==> IsDir(fs, q))
    decreases |es|
  {
    if es != [] {
      var e0 := es[0];
      var path := destination + e0.name;
      var fs1 := DeleteChain(fs, path, source, destination, ChainDepth(path, source, destination));
      var after := DeleteAll(fs, es, source, destination);
      assert e0 in es;
      DeleteOneEffect(fs, path, source, destination, []);
      DeleteAllEffect(fs1, es[1..], source, destination);
      forall q
        ensures FileData(after, q)
             == if exists e :: e in es && DelOf(e, destination) == q then None else FileData(fs, q)
        ensures IsDir(after, q) ==> IsDir(fs, q)
      {
        DeleteOneEffect(fs, path, source, destination, q);
        if exists e :: e in es && DelOf(e, destination) == q {
          var e :| e in es && DelOf(e, destination) == q;
          if e != e0 {
            assert e in es[1..];
          }
        } else {
          assert DelOf(e0, destination) != q;
        }
      }
    }
  }

  /** Paths that reach an entry of a well-formed tree are made of valid names. */
  lemma {:induction false} LookupValid(fs: Node, p: Path)
    requires WF(fs) && Lookup(fs, p).Some?
    ensures ValidPath(p)
    decreases |p|
  {
    if p != [] {
      var i := Find(fs.children, p[0]);
      WFChild(fs, i);
      LookupValid(fs.children[i], p[1..]);
      assert p == [p[0]] + p[1..];
      forall k | 0 <= k < |p| ensures ValidName(p[k]) {
        if k > 0 { assert p[k] == p[1..][k - 1]; }
      }
    }
  }

  lemma RenderInjective(a: Path, b: Path)
    requires ValidPath(a) && ValidPath(b) && Render(a) == Render(b)
    ensures a == b
  {
    ParseRender(a);
    ParseRender(b);
  }

  /** Below a root `r` whose string does not occur in the relative part, the root string is
      a leading piece of the absolute path that replacement strips or swaps cleanly. */
  lemma RootedString(r: Path, rel: Path, repl: string)
    requires ValidPath(r) && |r| > 0 && !Contains(Render(rel), Render(r))
    ensures PathString(r + rel) == Render(r) + Render(rel)
    ensures ReplaceAll(Render(r) + Render(rel), Render(r), repl) == repl + Render(rel)
  {
    RenderAppend(r, rel);
    RenderValidHasSep(r);
    ReplaceLeadingOnly(Render(r), Render(rel), repl);
  }

  /** The entry name of a file `rel` below a root with a clean relative part is `Render(rel)`. */
  lemma EntryNameRel(r: Path, rel: Path)
    requires ValidPath(r) && |r| > 0 && !Contains(Render(rel), Render(r))
    ensures EntryName(r + rel, Render(r)) == Render(rel)
  {
    RootedString(r, rel, "");
    assert "" + Render(rel) == Render(rel);
  }

  /** Files below `r` whose relative part does not contain the string `t`. */
  ghost predicate CleanBelow(fs: Node, r: Path, t: string) {
    forall rel :: |rel| > 0 && FileData(fs, r + rel).Some? ==> !Contains(Render(rel), t)
  }

  /** An inventory entry of a root with clean names is `(Render(rel), size)` for the file at `rel`. */
  lemma EntryOf(fs: Node, r: Path, e: FileCompare) returns (rel: Path)
    requires WF(fs) && ValidPath(r) && |r| > 0 && CleanBelow(fs, r, Render(r))
    requires e in Scan(fs, r, Render(r))
    ensures |rel| > 0 && ValidPath(rel) && FileData(fs, r + rel).Some?
    ensures e == FileCompare(Render(rel), |FileData(fs, r + rel).value|)
  {
    rel := ScanSound(fs, r, Render(r), e);
    EntryNameRel(r, rel);
    LookupValid(fs, r + rel);
    assert forall k :: 0 <= k < |rel| ==> rel[k] == (r + rel)[|r| + k];
  }

  /** Conversely every file below such a root has its entry. */
  lemma EntryFor(fs: Node, r: Path, rel: Path)
    requires WF(fs) && ValidPath(r) && |r| > 0 && CleanBelow(fs, r, Render(r))
    requires |rel| > 0 && FileData(fs, r + rel).Some?
    ensures FileCompare(Render(rel), |FileData(fs, r + rel).value|) in Scan(fs, r, Render(r))
  {
    ScanComplete(fs, r, Render(r), rel);
    EntryNameRel(r, rel);
  }

  /** Two roots with the same files (by relative path and size) and clean names have the
      same inventory. */
  lemma ScanMirror(fa: Node, ra: Path, fb: Node, rb: Path)
    requires WF(fa) && ValidPath(ra) && |ra| > 0 && CleanBelow(fa, ra, Render(ra))
    requires WF(fb) && ValidPath(rb) && |rb| > 0 && CleanBelow(fb, rb, Render(rb))
    requires forall rel :: |rel| > 0 ==>
      (FileData(fa, ra + rel).Some? <==> FileData(fb, rb + rel).Some?)
      && (FileData(fa, ra + rel).Some? ==> |FileData(fa, ra + rel).value| == |FileData(fb, rb + rel).value|)
    ensures forall e :: e in Scan(fa, ra, Render(ra)) <==> e in Scan(fb, rb, Render(rb))
  {
    forall e ensures e in Scan(fa, ra, Render(ra)) ==> e in Scan(fb, rb, Render(rb)) {
      if e in Scan(fa, ra, Render(ra)) {
        var rel := EntryOf(fa, ra, e);
        EntryFor(fb, rb, rel);
      }
    }
    forall e ensures e in Scan(fb, rb, Render(rb)) ==> e in Scan(fa, ra, Render(ra)) {
      if e in Scan(fb, rb, Render(rb)) {
        var rel := EntryOf(fb, rb, e);
        EntryFor(fa, ra, rel);
      }
    }
  }

  /** The situation in which reconciliation is meant to converge: two disjoint roots, the
      destination reachable by `mkdirs`, neither root string inside the relative names, the
      source string absent from destination file paths, and no destination directory where
      a source file is to go. */
  ghost predicate Layout(fs: Node, ps: Path, pd: Path) {
    && WF(fs) && fs.Dir? && ValidPath(ps) && ValidPath(pd) && |ps| > 0 && |pd| > 0
    && !IsPrefix(ps, pd) && !IsPrefix(pd, ps) && NoFileOnPath(fs, pd)
    && CleanBelow(fs, ps, Render(ps)) && CleanBelow(fs, ps, Render(pd)) && CleanBelow(fs, pd, Render(pd))
    && (forall rel :: |rel| > 0 && FileData(fs, pd + rel).Some? ==> !Contains(Render(pd + rel), Render(ps)))
    && (forall rel :: |rel| > 0 && FileData(fs, ps + rel).Some? ==> !IsDir(fs, pd + rel))
  }

  /** Two prefixes of one path are prefixes of each other. */
  lemma PrefixesComparable(x: Path, y: Path, z: Path)
    requires IsPrefix(x, z) && IsPrefix(y, z)
    ensures IsPrefix(x, y) || IsPrefix(y, x)
  {
    if |x| <= |y| {
      assert y[..|x|] == z[..|y|][..|x|];
    } else {
      assert x[..|y|] == z[..|x|][..|y|];
    }
  }

  /** Nothing below one of two disjoint roots is at or above anything below the other. */
  lemma Disjoint(ps: Path, pd: Path, a: Path, b: Path)
    requires !IsPrefix(ps, pd) && !IsPrefix(pd, ps)
    ensures !IsPrefix(pd + a, ps + b) && !IsPrefix(ps + a, pd + b)
  {
    PrefixOfJoin(pd, a, ps, b);
    PrefixOfJoin(ps, a, pd, b);
  }

  /** A path below `x` that is at or above a path below `y` makes `x` and `y` comparable. */
  lemma PrefixOfJoin(x: Path, a: Path, y: Path, b: Path)
    ensures IsPrefix(x + a, y + b) ==> IsPrefix(x, y) || IsPrefix(y, x)
  {
    if IsPrefix(x + a, y + b) {
      assert (y + b)[..|x|] == (y + b)[..|x + a|][..|x|];
      PrefixesComparable(x, y, y + b);
    }
  }

  function SourceList(fs: Node, ps: Path): seq<FileCompare> {
    Scan(fs, ps, Render(ps))
  }

  function DestinationList(fs: Node, pd: Path): seq<FileCompare> {
    Scan(fs, pd, Render(pd))
  }

  /** The tree once the constructor's deletions are done. */
  function AfterDeletes(fs: Node, ps: Path, pd: Path): Node {
    DeleteAll(fs, Missing(DestinationList(fs, pd), SourceList(fs, ps)), Render(ps), Render(pd))
  }

  /** A destination entry names the file `pd + rel`, a clean delete target. */
  lemma DeleteTarget(fs: Node, ps: Path, pd: Path, e: FileCompare) returns (rel: Path)
    requires Layout(fs, ps, pd) && e in DestinationList(fs, pd)
    ensures |rel| > 0 && ValidPath(rel) && FileData(fs, pd + rel).Some?
    ensures e == FileCompare(Render(rel), |FileData(fs, pd + rel).value|)
    ensures DeleteReady(Render(pd) + e.name, Render(ps)) && DelOf(e, Render(pd)) == pd + rel
  {
    rel := EntryOf(fs, pd, e);
    ValidPathAppend(pd, rel);
    RenderAppend(pd, rel);
    ParseRender(pd + rel);
    RenderValidHasSep(ps);
  }

  /** A source entry names the file `ps + rel`, copied to `pd + rel`. */
  lemma CopyTarget(fs: Node, ps: Path, pd: Path, e: FileCompare) returns (rel: Path)
    requires Layout(fs, ps, pd) && e in SourceList(fs, ps)
    ensures |rel| > 0 && ValidPath(rel) && FileData(fs, ps + rel).Some?
    ensures e == FileCompare(Render(rel), |FileData(fs, ps + rel).value|)
    ensures SrcOf(e, Render(ps)) == ps + rel && DstOf(e, Render(ps), Render(pd)) == pd + rel
  {
    rel := EntryOf(fs, ps, e);
    ValidPathAppend(ps, rel);
    ValidPathAppend(pd, rel);
    RenderAppend(ps, rel);
    RenderAppend(pd, rel);
    ParseRender(ps + rel);
    ParseRender(pd + rel);
    RootedString(ps, rel, Render(pd));
  }

  lemma FileRelValid(fs: Node, r: Path, rel: Path)
    requires WF(fs) && FileData(fs, r + rel).Some?
    ensures ValidPath(rel)
  {
    LookupValid(fs, r + rel);
    assert forall k :: 0 <= k < |rel| ==> rel[k] == (r + rel)[|r| + k];
  }

  /** No regular file lies below a regular file. */
  lemma NoFileBelowFile(fs: Node, r: Path, a: Path, b: Path)
    requires IsPrefix(a, b) && a != b && FileData(fs, r + a).Some?
    ensures FileData(fs, r + b).None?
  {
    assert (r + b)[..|r + a|] == r + a;
    BelowNothing(fs, r + a, r + b);
  }

  lemma AppendCancel(r: Path, a: Path, b: Path)
    requires r + a == r + b
    ensures a == b
  {
    assert a == (r + a)[|r|..];
  }

  lemma DeletesReady(fs: Node, ps: Path, pd: Path)
    requires Layout(fs, ps, pd)
    ensures forall e :: e in Missing(DestinationList(fs, pd), SourceList(fs, ps)) ==>
      DeleteReady(Render(pd) + e.name, Render(ps))
  {
    forall e | e in Missing(DestinationList(fs, pd), SourceList(fs, ps))
      ensures DeleteReady(Render(pd) + e.name, Render(ps))
    {
      var _ := DeleteTarget(fs, ps, pd, e);
    }
  }

  /** The deletions remove exactly the destination files named in the deletion list. */
  lemma DeletesDone(fs: Node, ps: Path, pd: Path, q: Path)
    requires WF(fs) && fs.Dir?
    requires forall e :: e in Missing(DestinationList(fs, pd), SourceList(fs, ps)) ==>
      DeleteReady(Render(pd) + e.name, Render(ps))
    ensures WF(AfterDeletes(fs, ps, pd)) && AfterDeletes(fs, ps, pd).Dir?
    ensures FileData(AfterDeletes(fs, ps, pd), q)
         == if exists e :: e in Missing(DestinationList(fs, pd), SourceList(fs, ps)) && DelOf(e, Render(pd)) == q
            then None else FileData(fs, q)
    ensures IsDir(AfterDeletes(fs, ps, pd), q) ==> IsDir(fs, q)
  {
    var dels := Missing(DestinationList(fs, pd), SourceList(fs, ps));
    DeleteAllEffect(fs, dels, Render(ps), Render(pd));
    assert AfterDeletes(fs, ps, pd) == DeleteAll(fs, dels, Render(ps), Render(pd));
  }

  /** A destination file is deleted exactly when the source has no file of the same
      relative path and size. */
  lemma DeletedIff(fs: Node, ps: Path, pd: Path, rel: Path)
    requires Layout(fs, ps, pd) && |rel| > 0
    ensures var dels := Missing(DestinationList(fs, pd), SourceList(fs, ps));
      (exists e :: e in dels && DelOf(e, Render(pd)) == pd + rel)
      <==> FileData(fs, pd + rel).Some?
           && FileCompare(Render(rel), |FileData(fs, pd + rel).value|) !in SourceList(fs, ps)
  {
    var dels := Missing(DestinationList(fs, pd), SourceList(fs, ps));
    if exists e :: e in dels && DelOf(e, Render(pd)) == pd + rel {
      var e :| e in dels && DelOf(e, Render(pd)) == pd + rel;
      var r := DeleteTarget(fs, ps, pd, e);
      AppendCancel(pd, r, rel);
    }
    if FileData(fs, pd + rel).Some? {
      var f := FileCompare(Render(rel), |FileData(fs, pd + rel).value|);
      if f !in SourceList(fs, ps) {
        EntryFor(fs, pd, rel);
        var r := DeleteTarget(fs, ps, pd, f);
        FileRelValid(fs, pd, rel);
        RenderInjective(r, rel);
        assert f in dels && DelOf(f, Render(pd)) == pd + rel;
      }
    }
  }

  /** A target `pd + rel` is written exactly when the source has a file at `rel` whose
      entry the destination list lacks; it is then written from that file. */
  lemma CopiedIff(fs: Node, ps: Path, pd: Path, rel: Path)
    requires Layout(fs, ps, pd) && |rel| > 0
    ensures var cps := Missing(SourceList(fs, ps), DestinationList(fs, pd));
      && ((exists e :: e in cps && DstOf(e, Render(ps), Render(pd)) == pd + rel)
          <==> FileData(fs, ps + rel).Some?
               && FileCompare(Render(rel), |FileData(fs, ps + rel).value|) !in DestinationList(fs, pd))
      && (forall e :: e in cps && DstOf(e, Render(ps), Render(pd)) == pd + rel ==> SrcOf(e, Render(ps)) == ps + rel)
  {
    var cps := Missing(SourceList(fs, ps), DestinationList(fs, pd));
    forall e | e in cps && DstOf(e, Render(ps), Render(pd)) == pd + rel
      ensures SrcOf(e, Render(ps)) == ps + rel
      ensures FileData(fs, ps + rel).Some?
      ensures FileCompare(Render(rel), |FileData(fs, ps + rel).value|) !in DestinationList(fs, pd)
    {
      var r := CopyTarget(fs, ps, pd, e);
      AppendCancel(pd, r, rel);
    }
    if FileData(fs, ps + rel).Some? {
      var f := FileCompare(Render(rel), |FileData(fs, ps + rel).value|);
      if f !in DestinationList(fs, pd) {
        EntryFor(fs, ps, rel);
        var r := CopyTarget(fs, ps, pd, f);
        FileRelValid(fs, ps, rel);
        RenderInjective(r, rel);
        assert f in cps && DstOf(f, Render(ps), Render(pd)) == pd + rel;
      }
    }
  }

  /** After the deletions no regular file stands on the way to a copy target `pd + rel`:
      one at `pd + rel[..j]` would have an entry that is in the source list only if the
      source had a file above its file `ps + rel`, and otherwise it was deleted. */
  lemma NoFileAbove(fs: Node, ps: Path, pd: Path, rel: Path, k: nat)
    requires Layout(fs, ps, pd) && |rel| > 0 && ValidPath(rel) && FileData(fs, ps + rel).Some?
    requires k <= |pd + rel| - 1
    ensures FileData(AfterDeletes(fs, ps, pd), (pd + rel)[..k]).None?
  {
    var x := (pd + rel)[..k];
    DeletesReady(fs, ps, pd);
    DeletesDone(fs, ps, pd, x);
    if k <= |pd| {
      assert x == pd[..k];
    } else {
      var j := k - |pd|;
      assert x == pd + rel[..j];
      if FileData(AfterDeletes(fs, ps, pd), x).Some? {
        DeletedIff(fs, ps, pd, rel[..j]);
        var f := FileCompare(Render(rel[..j]), |FileData(fs, x).value|);
        var r2 := EntryOf(fs, ps, f);
        RenderInjective(r2, rel[..j]);
        assert IsPrefix(rel[..j], rel);
        NoFileBelowFile(fs, ps, rel[..j], rel);
      }
    }
  }

  /** After the deletions no regular file lies on the way to a copy target. */
  lemma NoFileOnTarget(fs: Node, ps: Path, pd: Path, rel: Path)
    requires Layout(fs, ps, pd) && |rel| > 0 && ValidPath(rel) && FileData(fs, ps + rel).Some?
    ensures NoFileOnPath(AfterDeletes(fs, ps, pd), Parent(pd + rel))
  {
    forall k | 0 <= k < |pd + rel|
      ensures FileData(AfterDeletes(fs, ps, pd), (pd + rel)[..k]).None?
    {
      NoFileAbove(fs, ps, pd, rel, k);
    }
    ParentClear(AfterDeletes(fs, ps, pd), pd + rel);
  }

  /** A path with no regular file strictly above it has none on the way to its parent. */
  lemma ParentClear(fs: Node, p: Path)
    requires |p| > 0 && forall k :: 0 <= k < |p| ==> FileData(fs, p[..k]).None?
    ensures NoFileOnPath(fs, Parent(p))
  {
    forall k | 0 <= k <= |Parent(p)| ensures FileData(fs, Parent(p)[..k]).None? {
      assert Parent(p)[..k] == p[..k];
    }
  }

  /** After the deletions every entry of the copy list is ready to be copied. */
  lemma CopyReadyOne(fs: Node, ps: Path, pd: Path, e: FileCompare)
    requires Layout(fs, ps, pd) && e in Missing(SourceList(fs, ps), DestinationList(fs, pd))
    ensures CopyReady(AfterDeletes(fs, ps, pd), SrcOf(e, Render(ps)), DstOf(e, Render(ps), Render(pd)))
  {
    var rel := CopyTarget(fs, ps, pd, e);
    DeletesReady(fs, ps, pd);
    DeletesDone(fs, ps, pd, pd + rel);
    DeletesKeepSource(fs, ps, pd, rel);
    ValidPathAppend(pd, rel);
    NoFileOnTarget(fs, ps, pd, rel);
    Disjoint(ps, pd, rel, rel);
  }

  lemma IndependentPair(fs: Node, ps: Path, pd: Path, e: FileCompare, e': FileCompare)
    requires Layout(fs, ps, pd)
    requires e in SourceList(fs, ps) && e' in SourceList(fs, ps)
    ensures Apart(e, e', Render(ps), Render(pd))
  {
    var r := CopyTarget(fs, ps, pd, e);
    var r' := CopyTarget(fs, ps, pd, e');
    Disjoint(ps, pd, r, r');
    if IsPrefix(pd + r, pd + r') && r != r' {
      assert r'[..|r|] == (pd + r')[..|pd + r|][|pd|..];
      NoFileBelowFile(fs, ps, r, r');
    }
    if pd + r == pd + r' {
      AppendCancel(pd, r, r');
    }
  }

  /** The copy list is independent: targets are `pd + rel` for distinct source files. */
  lemma CopiesIndependent(fs: Node, ps: Path, pd: Path)
    requires Layout(fs, ps, pd)
    ensures Independent(Missing(SourceList(fs, ps), DestinationList(fs, pd)), Render(ps), Render(pd))
  {
    var cps := Missing(SourceList(fs, ps), DestinationList(fs, pd));
    forall e, e' | e in cps && e' in cps ensures Apart(e, e', Render(ps), Render(pd)) {
      IndependentPair(fs, ps, pd, e, e');
    }
  }

  /** The copies, run on the tree left by the deletions, put each listed source file's
      bytes at its target and touch no other regular file. */
  lemma CopiesDone(fs: Node, ps: Path, pd: Path, legacy: bool, q: Path)
    requires Layout(fs, ps, pd)
    ensures var cps := Missing(SourceList(fs, ps), DestinationList(fs, pd));
      var fs1 := AfterDeletes(fs, ps, pd);
      var after := Reconciled(fs, Render(ps), Render(pd), legacy);
      && WF(after) && after.Dir?
      && (forall e :: e in cps && DstOf(e, Render(ps), Render(pd)) == q ==>
            FileData(after, q) == FileData(fs1, SrcOf(e, Render(ps))))
      && ((forall e :: e in cps ==> DstOf(e, Render(ps), Render(pd)) != q) ==> FileData(after, q) == FileData(fs1, q))
      && (legacy ==> CopiesOpen(fs1, cps, Render(ps), Render(pd)))
  {
    var cps := Missing(SourceList(fs, ps), DestinationList(fs, pd));
    var fs1 := AfterDeletes(fs, ps, pd);
    ParseRender(ps);
    ParseRender(pd);
    DeletesReady(fs, ps, pd);
    DeletesDone(fs, ps, pd, q);
    forall e | e in cps ensures CopyReady(fs1, SrcOf(e, Render(ps)), DstOf(e, Render(ps), Render(pd))) {
      CopyReadyOne(fs, ps, pd, e);
    }
    CopiesIndependent(fs, ps, pd);
    CopyAllEffect(fs1, cps, Render(ps), Render(pd), legacy);
    assert Reconciled(fs, Render(ps), Render(pd), legacy) == CopyAll(fs1, cps, Render(ps), Render(pd), legacy);
  }

  /** The deletions touch nothing below the source root. */
  lemma DeletesKeepSource(fs: Node, ps: Path, pd: Path, rel: Path)
    requires Layout(fs, ps, pd)
    ensures FileData(AfterDeletes(fs, ps, pd), ps + rel) == FileData(fs, ps + rel)
  {
    DeletesReady(fs, ps, pd);
    DeletesDone(fs, ps, pd, ps + rel);
    if exists e :: e in Missing(DestinationList(fs, pd), SourceList(fs, ps)) && DelOf(e, Render(pd)) == ps + rel {
      var e :| e in Missing(DestinationList(fs, pd), SourceList(fs, ps)) && DelOf(e, Render(pd)) == ps + rel;
      var r := DeleteTarget(fs, ps, pd, e);
      Disjoint(ps, pd, rel, r);
    }
  }

  /** The source tree keeps every regular file. */
  lemma SourceKeptAt(fs: Node, ps: Path, pd: Path, legacy: bool, rel: Path)
    requires Layout(fs, ps, pd) && |rel| > 0
    ensures FileData(Reconciled(fs, Render(ps), Render(pd), legacy), ps + rel) == FileData(fs, ps + rel)
  {
    var cps := Missing(SourceList(fs, ps), DestinationList(fs, pd));
    forall e | e in cps ensures DstOf(e, Render(ps), Render(pd)) != ps + rel {
      var r := CopyTarget(fs, ps, pd, e);
      Disjoint(ps, pd, r, rel);
    }
    CopiesDone(fs, ps, pd, legacy, ps + rel);
    DeletesKeepSource(fs, ps, pd, rel);
  }

  /** A source file whose entry the destination list lacks is copied to `pd + rel`. */
  lemma MirroredCopied(fs: Node, ps: Path, pd: Path, legacy: bool, rel: Path)
    requires Layout(fs, ps, pd) && |rel| > 0 && FileData(fs, ps + rel).Some?
    requires FileCompare(Render(rel), |FileData(fs, ps + rel).value|) !in DestinationList(fs, pd)
    ensures FileData(Reconciled(fs, Render(ps), Render(pd), legacy), pd + rel) == FileData(fs, ps + rel)
  {
    var cps := Missing(SourceList(fs, ps), DestinationList(fs, pd));
    CopiedIff(fs, ps, pd, rel);
    var e :| e in cps && DstOf(e, Render(ps), Render(pd)) == pd + rel;
    assert SrcOf(e, Render(ps)) == ps + rel;
    CopiesDone(fs, ps, pd, legacy, pd + rel);
    DeletesKeepSource(fs, ps, pd, rel);
  }

  /** A destination file whose length differs from the source file at the same relative
      path is replaced: its entry is in the deletion list, the source entry is in the copy
      list, and afterwards it holds the source bytes. */
  lemma ResizedIsReplaced(fs: Node, ps: Path, pd: Path, legacy: bool, rel: Path)
    requires Layout(fs, ps, pd) && |rel| > 0
    requires FileData(fs, ps + rel).Some? && FileData(fs, pd + rel).Some?
    requires |FileData(fs, ps + rel).value| != |FileData(fs, pd + rel).value|
    ensures FileCompare(Render(rel), |FileData(fs, pd + rel).value|)
              in Missing(DestinationList(fs, pd), SourceList(fs, ps))
    ensures FileCompare(Render(rel), |FileData(fs, ps + rel).value|)
              in Missing(SourceList(fs, ps), DestinationList(fs, pd))
    ensures FileData(Reconciled(fs, Render(ps), Render(pd), legacy), pd + rel) == FileData(fs, ps + rel)
  {
    var d := FileCompare(Render(rel), |FileData(fs, pd + rel).value|);
    var c := FileCompare(Render(rel), |FileData(fs, ps + rel).value|);
    FileRelValid(fs, ps, rel);
    EntryFor(fs, pd, rel);
    EntryFor(fs, ps, rel);
    if d in SourceList(fs, ps) {
      var r := EntryOf(fs, ps, d);
      RenderInjective(r, rel);
    }
    if c in DestinationList(fs, pd) {
      var r := EntryOf(fs, pd, c);
      RenderInjective(r, rel);
    }
    MirroredCopied(fs, ps, pd, legacy, rel);
  }

  /** A source file whose entry the destination list has is matched by an untouched
      destination file of the same length. */
  lemma MirroredKept(fs: Node, ps: Path, pd: Path, legacy: bool, rel: Path)
    requires Layout(fs, ps, pd) && |rel| > 0 && FileData(fs, ps + rel).Some?
    requires FileCompare(Render(rel), |FileData(fs, ps + rel).value|) in DestinationList(fs, pd)
    ensures var after := Reconciled(fs, Render(ps), Render(pd), legacy);
      FileData(after, pd + rel).Some? && |FileData(after, pd + rel).value| == |FileData(fs, ps + rel).value|
  {
    var f := FileCompare(Render(rel), |FileData(fs, ps + rel).value|);
    var r := EntryOf(fs, pd, f);
    FileRelValid(fs, ps, rel);
    RenderInjective(r, rel);
    EntryFor(fs, ps, rel);
    CopiedIff(fs, ps, pd, rel);
    CopiesDone(fs, ps, pd, legacy, pd + rel);
    DeletesReady(fs, ps, pd);
    DeletesDone(fs, ps, pd, pd + rel);
    DeletedIff(fs, ps, pd, rel);
  }

  /** Where the source has no file, the destination has none afterwards. */
  lemma MirroredAbsent(fs: Node, ps: Path, pd: Path, legacy: bool, rel: Path)
    requires Layout(fs, ps, pd) && |rel| > 0 && FileData(fs, ps + rel).None?
    ensures FileData(Reconciled(fs, Render(ps), Render(pd), legacy), pd + rel).None?
  {
    CopiedIff(fs, ps, pd, rel);
    CopiesDone(fs, ps, pd, legacy, pd + rel);
    DeletesReady(fs, ps, pd);
    DeletesDone(fs, ps, pd, pd + rel);
    DeletedIff(fs, ps, pd, rel);
    if FileData(fs, pd + rel).Some? {
      var f := FileCompare(Render(rel), |FileData(fs, pd + rel).value|);
      if f in SourceList(fs, ps) {
        var r := EntryOf(fs, ps, f);
        FileRelValid(fs, pd, rel);
        RenderInjective(r, rel);
      }
    }
  }

  /** Below the destination root, a regular file exists at `rel` afterwards exactly when
      the source has one at `rel`, and it has the same length. */
  lemma MirroredAt(fs: Node, ps: Path, pd: Path, legacy: bool, rel: Path)
    requires Layout(fs, ps, pd) && |rel| > 0
    ensures var after := Reconciled(fs, Render(ps), Render(pd), legacy);
      && (FileData(after, pd + rel).Some? <==> FileData(fs, ps + rel).Some?)
      && (FileData(after, pd + rel).Some? ==> |FileData(after, pd + rel).value| == |FileData(fs, ps + rel).value|)
  {
    if FileData(fs, ps + rel).None? {
      MirroredAbsent(fs, ps, pd, legacy, rel);
    } else if FileCompare(Render(rel), |FileData(fs, ps + rel).value|) in DestinationList(fs, pd) {
      MirroredKept(fs, ps, pd, legacy, rel);
    } else {
      MirroredCopied(fs, ps, pd, legacy, rel);
    }
  }

  /** Convergence: when every deletion and copy succeeds, the destination inventory equals
      the source inventory afterwards, the source inventory is unchanged, and with the older
      `copyFile` no copy waits. */
  lemma ReconcileConverges(fs: Node, ps: Path, pd: Path, legacy: bool)
    requires Layout(fs, ps, pd)
    ensures var after := Reconciled(fs, Render(ps), Render(pd), legacy);
      && WF(after) && after.Dir?
      && (forall e :: e in DestinationList(after, pd) <==> e in SourceList(fs, ps))
      && (forall e :: e in SourceList(after, ps) <==> e in SourceList(fs, ps))
    ensures legacy ==> ReconcileReturns(fs, Render(ps), Render(pd))
  {
    var after := Reconciled(fs, Render(ps), Render(pd), legacy);
    CopiesDone(fs, ps, pd, legacy, []);
    ParseRender(ps);
    ParseRender(pd);
    forall rel | |rel| > 0
      ensures FileData(after, ps + rel) == FileData(fs, ps + rel)
      ensures FileData(after, pd + rel).Some? <==> FileData(fs, ps + rel).Some?
      ensures FileData(after, pd + rel).Some? ==> |FileData(after, pd + rel).value| == |FileData(fs, ps + rel).value|
    {
      SourceKeptAt(fs, ps, pd, legacy, rel);
      MirroredAt(fs, ps, pd, legacy, rel);
    }
    ScanMirror(after, ps, fs, ps);
    ScanMirror(after, pd, fs, ps);
  }

  /** Idempotence: reconciling the converged trees again finds both diffs empty and
      changes nothing. */
  lemma ReconcileIdempotent(fs: Node, ps: Path, pd: Path, legacy: bool)
    requires Layout(fs, ps, pd)
    ensures var after := Reconciled(fs, Render(ps), Render(pd), legacy);
      && Missing(DestinationList(after, pd), SourceList(after, ps)) == []
      && Missing(SourceList(after, ps), DestinationList(after, pd)) == []
      && Reconciled(after, Render(ps), Render(pd), legacy) == after
  {
    var after := Reconciled(fs, Render(ps), Render(pd), legacy);
    ReconcileConverges(fs, ps, pd, legacy);
    SameEntriesNoAction(SourceList(after, ps), DestinationList(after, pd));
    ParseRender(ps);
    ParseRender(pd);
  }
}
