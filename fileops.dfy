/** The file-system calls the synchroniser makes, as operations on the tree:
    `Files.delete`, `File.mkdirs`, opening a `FileOutputStream` and writing it,
    and `Files.copy` with REPLACE_EXISTING. */
module FileOps {
  import opened Wrappers
  import opened Paths
  import opened FileSystem

  /** NoSuchFileException, DirectoryNotEmptyException, or any other IOException. */
  datatype IOError = NoSuchFile | DirectoryNotEmpty | OtherIOError

  datatype Outcome = Done(fs: Node) | Failed(error: IOError)

  /** `Files.delete(p)`: removes a regular file or an empty directory. */
  function Delete(fs: Node, p: Path): (r: Outcome)
    ensures r.Done? <==> p != [] && Lookup(fs, p).Some?
                         && !(Lookup(fs, p).value.Dir? && Lookup(fs, p).value.children != [])
    ensures r.Failed? && p != [] ==>
              r.error == if Lookup(fs, p).None? then NoSuchFile else DirectoryNotEmpty
  {
    if p == [] then Failed(OtherIOError)
    else match Lookup(fs, p)
      case None => Failed(NoSuchFile)
      case Some(Dir(_, kids)) => if kids != [] then Failed(DirectoryNotEmpty) else Done(ReplaceIn(fs, p, None))
      case Some(File(_, _)) => Done(ReplaceIn(fs, p, None))
  }

  /** A successful delete removes exactly the one entry: every other regular file keeps its contents. */
  lemma DeleteFiles(fs: Node, p: Path, q: Path)
    requires WF(fs) && ValidPath(p) && Delete(fs, p).Done?
    ensures WF(Delete(fs, p).fs)
    ensures Lookup(Delete(fs, p).fs, p).None?
    ensures FileData(Delete(fs, p).fs, q) == if q == p then None else FileData(fs, q)
  {
    LookupSomeParent(fs, p);
    ReplaceInWF(fs, p, None);
    ReplaceInLookup(fs, p, None, p);
    ReplaceInFiles(fs, p, None, q);
    if IsPrefix(p, q) && q != p {
      var n := Lookup(fs, p).value;
      if n.Dir? {
        assert q[..|p|] == p;
        LookupAppend(fs, p, q[|p|..]);
        assert p + q[|p|..] == q;
      } else {
        BelowNothing(fs, p, q);
      }
    }
  }

  /** No regular file sits on `p` or any of its ancestors, so `mkdirs` can succeed. */
  predicate NoFileOnPath(fs: Node, p: Path) {
    forall k :: 0 <= k <= |p| ==> FileData(fs, p[..k]).None?
  }

  /** `File.mkdirs()`: creates every missing directory on `p`; stops, creating nothing
      more, at the first plain file in the way. */
  function MakeDirs(fs: Node, p: Path): Node
    decreases |p|
  {
    if p == [] then fs
    else
      var fs1 := MakeDirs(fs, Parent(p));
      if Lookup(fs1, p).None? && IsDir(fs1, Parent(p)) then ReplaceIn(fs1, p, Some(Dir(Last(p), [])))
      else fs1
  }

  /** `mkdirs` changes no regular file and keeps the tree well formed. */
  lemma {:induction false} MakeDirsFiles(fs: Node, p: Path, q: Path)
    requires WF(fs) && ValidPath(p)
    ensures WF(MakeDirs(fs, p))
    ensures FileData(MakeDirs(fs, p), q) == FileData(fs, q)
    decreases |p|
  {
    if p != [] {
      var fs1 := MakeDirs(fs, Parent(p));
      assert ValidPath(Parent(p));
      MakeDirsFiles(fs, Parent(p), q);
      if Lookup(fs1, p).None? && IsDir(fs1, Parent(p)) {
        assert ValidName(Last(p));
        ReplaceInWF(fs1, p, Some(Dir(Last(p), [])));
        ReplaceInFiles(fs1, p, Some(Dir(Last(p), [])), q);
        if IsPrefix(p, q) && q != p {
          BelowNothing(fs1, p, q);
        }
      }
    }
  }

  /** With no file in the way, `mkdirs` leaves a directory at `p`. */
  lemma {:induction false} MakeDirsMakesDir(fs: Node, p: Path)
    requires WF(fs) && fs.Dir? && ValidPath(p) && NoFileOnPath(fs, p)
    ensures IsDir(MakeDirs(fs, p), p)
    decreases |p|
  {
    if p != [] {
      var fs1 := MakeDirs(fs, Parent(p));
      assert ValidPath(Parent(p));
      assert NoFileOnPath(fs, Parent(p)) by {
        forall k | 0 <= k <= |Parent(p)| ensures FileData(fs, Parent(p)[..k]).None? {
          assert Parent(p)[..k] == p[..k];
        }
      }
      MakeDirsMakesDir(fs, Parent(p));
      MakeDirsFiles(fs, Parent(p), p);
      assert p[..|p|] == p;
      if Lookup(fs1, p).None? {
        assert ValidName(Last(p));
        ReplaceInLookup(fs1, p, Some(Dir(Last(p), [])), p);
        assert p[|p|..] == [];
      }
    }
  }

  /** `new FileOutputStream(p)` followed by writing `data`: creates or truncates a regular
      file; fails (FileNotFoundException) when the parent is not a directory or `p` is one. */
  function WriteFile(fs: Node, p: Path, data: seq<byte>): (r: Outcome)
    ensures r.Done? <==> |p| > 0 && IsDir(fs, Parent(p)) && !IsDir(fs, p)
  {
    if |p| > 0 && IsDir(fs, Parent(p)) && !IsDir(fs, p) then Done(ReplaceIn(fs, p, Some(File(Last(p), data))))
    else Failed(OtherIOError)
  }

  /** A successful write puts `data` at `p` and changes no other regular file. */
  lemma WriteFileFiles(fs: Node, p: Path, data: seq<byte>, q: Path)
    requires WF(fs) && ValidPath(p) && WriteFile(fs, p, data).Done?
    ensures WF(WriteFile(fs, p, data).fs)
    ensures FileData(WriteFile(fs, p, data).fs, q) == if q == p then Some(data) else FileData(fs, q)
  {
    assert ValidName(Last(p));
    ReplaceInWF(fs, p, Some(File(Last(p), data)));
    ReplaceInFiles(fs, p, Some(File(Last(p), data)), q);
    if IsPrefix(p, q) {
      if q == p {
        assert q[|p|..] == [];
      } else {
        assert q[|p|..] != [];
        BelowNothing(fs, p, q);
      }
    }
  }

  /** Once `p` has been opened for writing (created or emptied), writing to it succeeds. */
  lemma WriteAfterOpen(fs: Node, p: Path, data: seq<byte>)
    requires WF(fs) && ValidPath(p) && WriteFile(fs, p, []).Done?
    ensures WriteFile(WriteFile(fs, p, []).fs, p, data).Done?
  {
    assert ValidName(Last(p));
    ReplaceInAncestor(fs, p, Some(File(Last(p), [])), Parent(p));
    WriteFileFiles(fs, p, [], p);
  }

  /** `Files.copy(src, dst, REPLACE_EXISTING)` of one entry: a regular file is copied with
      its bytes, a directory as an empty directory. A missing source or a missing target
      parent is NoSuchFileException; a non-empty directory in the target's place is
      DirectoryNotEmptyException. */
  function FilesCopy(fs: Node, src: Path, dst: Path): (r: Outcome)
    ensures Lookup(fs, src).None? ==> r == Failed(NoSuchFile)
    ensures r.Done? ==> |dst| > 0 && IsDir(fs, Parent(dst))
  {
    match Lookup(fs, src)
    case None => Failed(NoSuchFile)
    case Some(n) =>
      if |dst| == 0 then Failed(OtherIOError)
      else if !IsDir(fs, Parent(dst)) then Failed(NoSuchFile)
      else if Lookup(fs, dst).Some? && Lookup(fs, dst).value.Dir? && Lookup(fs, dst).value.children != [] then
        Failed(DirectoryNotEmpty)
      else
        var copy := if n.File? then File(Last(dst), n.data) else Dir(Last(dst), []);
        Done(ReplaceIn(fs, dst, Some(copy)))
  }

  /** Copying a regular file puts its bytes at `dst` and changes no other regular file. */
  lemma FilesCopyFiles(fs: Node, src: Path, dst: Path, q: Path)
    requires WF(fs) && ValidPath(dst) && FilesCopy(fs, src, dst).Done?
    requires FileData(fs, src).Some?
    ensures WF(FilesCopy(fs, src, dst).fs)
    ensures FileData(FilesCopy(fs, src, dst).fs, q)
         == if q == dst then FileData(fs, src) else FileData(fs, q)
  {
    var n := Lookup(fs, src).value;
    assert ValidName(Last(dst));
    ReplaceInWF(fs, dst, Some(File(Last(dst), n.data)));
    ReplaceInFiles(fs, dst, Some(File(Last(dst), n.data)), q);
    if IsPrefix(dst, q) {
      if q == dst {
        assert q[|dst|..] == [];
      } else {
        assert q[|dst|..] != [];
        if Lookup(fs, dst).Some? && Lookup(fs, dst).value.Dir? {
          LookupAppend(fs, dst, q[|dst|..]);
          assert dst + q[|dst|..] == q;
        } else {
          BelowNothing(fs, dst, q);
        }
      }
    }
  }

  /** Setting the entry at `p` to a regular file or an empty directory leaves the root a
      directory and creates no directory other than, possibly, `p` itself. */
  lemma ReplaceInDirs(fs: Node, p: Path, v: Node, q: Path)
    requires WF(fs) && fs.Dir? && |p| > 0 && ValidPath(p) && IsDir(fs, Parent(p))
    requires WF(v) && v.name == Last(p) && (v.Dir? ==> v.children == [])
    ensures ReplaceIn(fs, p, Some(v)).Dir?
    ensures IsDir(ReplaceIn(fs, p, Some(v)), q) ==> IsDir(fs, q) || (v.Dir? && q == p)
  {
    if IsPrefix(q, p) && q != p {
      assert IsPrefix(q, Parent(p));
      PrefixOfDir(fs, Parent(p), q);
    } else {
      ReplaceInLookup(fs, p, Some(v), q);
      if IsPrefix(p, q) && q != p {
        assert q[|p|..] != [];
      }
    }
  }

  /** `mkdirs` keeps the root a directory and creates directories only on `p`. */
  lemma {:induction false} MakeDirsDirs(fs: Node, p: Path, q: Path)
    requires WF(fs) && fs.Dir? && ValidPath(p)
    ensures MakeDirs(fs, p).Dir?
    ensures IsDir(MakeDirs(fs, p), q) ==> IsDir(fs, q) || IsPrefix(q, p)
    decreases |p|
  {
    if p != [] {
      var fs1 := MakeDirs(fs, Parent(p));
      assert ValidPath(Parent(p));
      MakeDirsDirs(fs, Parent(p), q);
      MakeDirsFiles(fs, Parent(p), q);
      if Lookup(fs1, p).None? && IsDir(fs1, Parent(p)) {
        assert ValidName(Last(p));
        ReplaceInDirs(fs1, p, Dir(Last(p), []), q);
      }
    }
  }

  /** A write keeps the root a directory and creates no directory. */
  lemma WriteFileDirs(fs: Node, p: Path, data: seq<byte>, q: Path)
    requires WF(fs) && fs.Dir? && ValidPath(p) && WriteFile(fs, p, data).Done?
    ensures WriteFile(fs, p, data).fs.Dir?
    ensures IsDir(WriteFile(fs, p, data).fs, q) ==> IsDir(fs, q)
  {
    assert ValidName(Last(p));
    ReplaceInDirs(fs, p, File(Last(p), data), q);
  }

  /** Copying a regular file keeps the root a directory and creates no directory. */
  lemma FilesCopyDirs(fs: Node, src: Path, dst: Path, q: Path)
    requires WF(fs) && fs.Dir? && ValidPath(dst) && FilesCopy(fs, src, dst).Done?
    requires FileData(fs, src).Some?
    ensures FilesCopy(fs, src, dst).fs.Dir?
    ensures IsDir(FilesCopy(fs, src, dst).fs, q) ==> IsDir(fs, q)
  {
    assert ValidName(Last(dst));
    ReplaceInDirs(fs, dst, File(Last(dst), Lookup(fs, src).value.data), q);
  }
}
