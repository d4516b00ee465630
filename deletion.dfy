/** `recursiveDelete` (both library watchers): map a path from the source tree into the
    destination tree, delete it, then walk up deleting every parent whose listing has
    become empty. There is no stop at the destination root. */
module Deletion {
  import opened Wrappers
  import opened Strings
  import opened Paths
  import opened FileSystem
  import opened FileOps

  /** `path.replace(source, destination)` read as a path. */
  function MapToDestination(path: string, source: string, destination: string): Path {
    Parse(ReplaceAll(path, source, destination))
  }

  /** The tree after `Files.delete`, or the same tree when the delete throws (it is only printed). */
  function TryDelete(fs: Node, p: Path): Node {
    match Delete(fs, p)
    case Done(fs') => fs'
    case Failed(_) => fs
  }

  /** `recursiveDelete(path)` as written: the recursive call on the parent's absolute path
      maps that path again. `depth` bounds the recursion (one level per component of the
      first mapped path); the file-system root has no parent and ends it. */
  function DeleteChain(fs: Node, path: string, source: string, destination: string, depth: nat): Node
    decreases depth
  {
    var destPath := MapToDestination(path, source, destination);
    var fs1 := TryDelete(fs, destPath);
    if depth == 0 || destPath == [] then fs1
    else if ListFiles(fs1, Parent(destPath)) == Some([]) then
      DeleteChain(fs1, PathString(Parent(destPath)), source, destination, depth - 1)
    else fs1
  }

  /** The recursion bound for a call on `path`. */
  function ChainDepth(path: string, source: string, destination: string): nat {
    |MapToDestination(path, source, destination)|
  }

  /** Deleting `p` and pruning its emptied ancestors, on paths that need no mapping. */
  function DeletePrune(fs: Node, p: Path): Node
    decreases |p|
  {
    var fs1 := TryDelete(fs, p);
    if p == [] then fs1
    else if ListFiles(fs1, Parent(p)) == Some([]) then DeletePrune(fs1, Parent(p))
    else fs1
  }

  lemma PathStringParentInfix(p: Path, t: string)
    requires |p| > 0 && ValidPath(p) && Contains(PathString(Parent(p)), t)
    ensures Contains(PathString(p), t)
  {
    var last := [Last(p)];
    assert p == Parent(p) + last;
    RenderAppend(Parent(p), last);
    if |p| == 1 {
      assert Render(p) == [Sep] + p[0] + Render([]);
      ContainsInfix([], PathString(Parent(p)), p[0], t);
      assert [] + PathString(Parent(p)) + p[0] == PathString(p);
    } else {
      ContainsInfix([], Render(Parent(p)), Render(last), t);
      assert [] + Render(Parent(p)) + Render(last) == PathString(p);
    }
  }

  /** Every path from `p` up to the root maps to itself, so re-applying the replacement
      on each parent changes nothing. */
  predicate MapsUpward(p: Path, source: string, destination: string)
    decreases |p|
  {
    MapToDestination(PathString(p), source, destination) == p
    && (p == [] || MapsUpward(Parent(p), source, destination))
  }

  /** A path free of the source string, and so each of its ancestors, maps to itself. */
  lemma {:induction false} CleanMapsUpward(p: Path, source: string, destination: string)
    requires ValidPath(p) && |source| > 0 && !Contains(PathString(p), source)
    ensures MapsUpward(p, source, destination)
    decreases |p|
  {
    MapsToItself(p, source, destination);
    if p != [] {
      ParentClean(p, source);
      CleanMapsUpward(Parent(p), source, destination);
    }
  }

  /** When every path on the way up maps to itself (in particular when the source string
      does not occur in the path), the chain as written is the plain delete-and-prune. */
  lemma {:induction false} ChainIsPrune(fs: Node, p: Path, source: string, destination: string, depth: nat)
    requires MapsUpward(p, source, destination) && depth >= |p|
    ensures DeleteChain(fs, PathString(p), source, destination, depth) == DeletePrune(fs, p)
    decreases |p|
  {
    assert MapToDestination(PathString(p), source, destination) == p;
    ChainUnfold(fs, PathString(p), source, destination, depth, p);
    PruneUnfold(fs, p);
    if p != [] {
      var fs1 := TryDelete(fs, p);
      var parent := Parent(p);
      if ListFiles(fs1, parent) == Some([]) {
        var below: nat := depth - 1;
        assert MapsUpward(parent, source, destination);
        ChainIsPrune(fs1, parent, source, destination, below);
        ChainRecurses(fs, PathString(p), source, destination, depth, p, below);
        assert DeletePrune(fs, p) == DeletePrune(fs1, parent);
      } else {
        assert DeleteChain(fs, PathString(p), source, destination, depth) == fs1;
        assert DeletePrune(fs, p) == fs1;
      }
    } else {
      assert DeleteChain(fs, PathString(p), source, destination, depth) == TryDelete(fs, p);
      assert DeletePrune(fs, p) == TryDelete(fs, p);
    }
  }

  /** One level of the prune. */
  lemma PruneUnfold(fs: Node, p: Path)
    ensures var fs1 := TryDelete(fs, p);
      DeletePrune(fs, p)
        == if p == [] then fs1
           else if ListFiles(fs1, Parent(p)) == Some([]) then DeletePrune(fs1, Parent(p))
           else fs1
  {
  }

  /** A path free of the source string maps to itself. */
  lemma MapsToItself(p: Path, source: string, destination: string)
    requires ValidPath(p) && |source| > 0 && !Contains(PathString(p), source)
    ensures MapToDestination(PathString(p), source, destination) == p
  {
    ReplaceAllAbsent(PathString(p), source, destination);
    ParsePathString(p);
  }

  /** The parent of a path free of the source string is free of it too. */
  lemma ParentClean(p: Path, t: string)
    requires |p| > 0 && ValidPath(p) && !Contains(PathString(p), t)
    ensures !Contains(PathString(Parent(p)), t)
  {
    if Contains(PathString(Parent(p)), t) {
      PathStringParentInfix(p, t);
    }
  }

  /** One level of the chain, once the mapped path is known. */
  /** The chain going on to the parent, with the remaining depth named. */
  lemma ChainRecurses(fs: Node, path: string, source: string, destination: string, depth: nat, destPath: Path,
                      below: nat)
    requires MapToDestination(path, source, destination) == destPath && destPath != [] && depth == below + 1
    requires ListFiles(TryDelete(fs, destPath), Parent(destPath)) == Some([])
    ensures DeleteChain(fs, path, source, destination, depth)
      == DeleteChain(TryDelete(fs, destPath), PathString(Parent(destPath)), source, destination, below)
  {
  }

  lemma ChainUnfold(fs: Node, path: string, source: string, destination: string, depth: nat, destPath: Path)
    requires MapToDestination(path, source, destination) == destPath
    ensures var fs1 := TryDelete(fs, destPath);
      DeleteChain(fs, path, source, destination, depth)
        == if depth == 0 || destPath == [] then fs1
           else if ListFiles(fs1, Parent(destPath)) == Some([]) then
             DeleteChain(fs1, PathString(Parent(destPath)), source, destination, depth - 1)
           else fs1
  {
  }

  /** The root stays a directory and the tree stays well formed after one delete attempt;
      the regular file at `p`, if any, is gone and no other regular file changes. */
  lemma TryDeleteFiles(fs: Node, p: Path, q: Path)
    requires WF(fs) && fs.Dir? && ValidPath(p)
    ensures WF(TryDelete(fs, p)) && TryDelete(fs, p).Dir?
    ensures FileData(TryDelete(fs, p), q) == if q == p then None else FileData(fs, q)
  {
    if Delete(fs, p).Done? {
      DeleteFiles(fs, p, q);
      DeleteFiles(fs, p, p);
    }
  }

  /** Pruning removes only directories that are empty: the one regular file at `p`, if
      any, is deleted and every other regular file keeps its contents. */
  lemma {:induction false} PruneFiles(fs: Node, p: Path, q: Path)
    requires WF(fs) && fs.Dir? && ValidPath(p)
    ensures WF(DeletePrune(fs, p)) && DeletePrune(fs, p).Dir?
    ensures FileData(DeletePrune(fs, p), q) == if q == p then None else FileData(fs, q)
    decreases |p|
  {
    var fs1 := TryDelete(fs, p);
    TryDeleteFiles(fs, p, q);
    if p != [] && ListFiles(fs1, Parent(p)) == Some([]) {
      TryDeleteFiles(fs, p, Parent(p));
      PruneFiles(fs1, Parent(p), q);
    }
  }

  /** A delete creates nothing: whatever exists afterwards existed before, with the same kind. */
  lemma TryDeleteShrinks(fs: Node, p: Path, q: Path)
    requires WF(fs) && ValidPath(p)
    ensures Lookup(TryDelete(fs, p), q).Some? ==> Lookup(fs, q).Some?
    ensures IsDir(TryDelete(fs, p), q) ==> IsDir(fs, q)
  {
    if Delete(fs, p).Done? {
      LookupSomeParent(fs, p);
      if IsPrefix(q, p) && q != p {
        assert IsPrefix(q, Parent(p));
        PrefixOfDir(fs, Parent(p), q);
      } else {
        ReplaceInLookup(fs, p, None, q);
      }
    }
  }

  /** Pruning creates nothing either. */
  lemma {:induction false} PruneShrinks(fs: Node, p: Path, q: Path)
    requires WF(fs) && fs.Dir? && ValidPath(p)
    ensures Lookup(DeletePrune(fs, p), q).Some? ==> Lookup(fs, q).Some?
    ensures IsDir(DeletePrune(fs, p), q) ==> IsDir(fs, q)
    decreases |p|
  {
    var fs1 := TryDelete(fs, p);
    TryDeleteShrinks(fs, p, q);
    TryDeleteFiles(fs, p, q);
    if p != [] && ListFiles(fs1, Parent(p)) == Some([]) {
      PruneShrinks(fs1, Parent(p), q);
    }
  }

  /** Everything that exists at or below `p[..j]` lies on the way to `p`: the entry at `p`
      and each directory from `p[..j]` down to it holds nothing else. */
  ghost predicate OnlyPathBelow(fs: Node, p: Path, j: nat)
    requires j <= |p|
  {
    forall q :: IsPrefix(p[..j], q) && Lookup(fs, q).Some? ==> IsPrefix(q, p)
  }

  /** A directory with an entry has a child path that exists. */
  lemma FirstChild(fs: Node, d: Path)
    requires ListFiles(fs, d).Some? && ListFiles(fs, d).value != []
    ensures Lookup(fs, d + [ListFiles(fs, d).value[0].name]).Some?
  {
    var kids := ListFiles(fs, d).value;
    LookupAppend(fs, d, [kids[0].name]);
    assert Find(kids, kids[0].name) == 0;
  }

  /** Deleting the only thing below `p[..j]` removes `p[..j]` itself: every directory that the
      delete leaves empty is removed in turn, up to and past the destination root, since the
      walk up has no stop there. */
  lemma {:induction false} PruneRemovesEmptied(fs: Node, p: Path, j: nat)
    requires WF(fs) && fs.Dir? && ValidPath(p) && 1 <= j <= |p|
    requires Lookup(fs, p).Some? && OnlyPathBelow(fs, p, j)
    ensures Lookup(DeletePrune(fs, p), p[..j]).None?
    decreases |p|
  {
    OnlyPathDeletes(fs, p, j);
    var fs1 := TryDelete(fs, p);
    DeleteFiles(fs, p, p);
    TryDeleteFiles(fs, p, p);
    PruneUnfold(fs, p);
    if j == |p| {
      assert p[..j] == p;
      PruneShrinks(fs1, Parent(p), p);
    } else {
      EmptiedParent(fs, p, j);
      assert Parent(p)[..j] == p[..j];
      PruneRemovesEmptied(fs1, Parent(p), j);
    }
  }

  /** The entry at the end of the only path below `p[..j]` has no entries, so deleting it succeeds. */
  lemma OnlyPathDeletes(fs: Node, p: Path, j: nat)
    requires WF(fs) && fs.Dir? && ValidPath(p) && 1 <= j <= |p|
    requires Lookup(fs, p).Some? && OnlyPathBelow(fs, p, j)
    ensures Delete(fs, p).Done?
  {
    assert p[..j] == p[..j];
    var n := Lookup(fs, p).value;
    if n.Dir? && n.children != [] {
      assert ListFiles(fs, p) == Some(n.children);
      FirstChild(fs, p);
      assert IsPrefix(p[..j], p + [n.children[0].name]);
      assert false;
    }
  }

  /** Once the entry is deleted, its parent is an empty directory and the only path
      below `p[..j]` ends at the parent. */
  lemma EmptiedParent(fs: Node, p: Path, j: nat)
    requires WF(fs) && fs.Dir? && ValidPath(p) && 1 <= j < |p|
    requires Lookup(fs, p).Some? && OnlyPathBelow(fs, p, j) && Delete(fs, p).Done?
    ensures ListFiles(TryDelete(fs, p), Parent(p)) == Some([])
    ensures OnlyPathBelow(TryDelete(fs, p), Parent(p), j)
  {
    var fs1 := TryDelete(fs, p);
    DeleteFiles(fs, p, p);
    TryDeleteFiles(fs, p, p);
    LookupSomeParent(fs, p);
    ReplaceInAncestor(fs, p, None, Parent(p));
    if ListFiles(fs1, Parent(p)).value != [] {
      FirstChild(fs1, Parent(p));
      var c := Parent(p) + [ListFiles(fs1, Parent(p)).value[0].name];
      TryDeleteShrinks(fs, p, c);
      assert IsPrefix(p[..j], c);
      assert false;
    }
    assert Parent(p)[..j] == p[..j];
    forall q | IsPrefix(Parent(p)[..j], q) && Lookup(fs1, q).Some?
      ensures IsPrefix(q, Parent(p))
    {
      TryDeleteShrinks(fs, p, q);
      assert IsPrefix(q, p);
      assert q != p;
    }
  }
}
