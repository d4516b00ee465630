/** The inventory of a tree (`recursiveScan` and `FileCompare` in both library watchers):
    one (name, size) entry per regular file, where the name is the file's absolute path
    with every occurrence of the prefix string removed. */
module Inventory {
  import opened Wrappers
  import opened Strings
  import opened Paths
  import opened FileSystem

  /** `FileCompare`: an entry of the inventory; `size` is `File.length()`. */
  datatype FileCompare = FileCompare(name: string, size: nat)

  /** `FileCompare.equals`: same size and same name. */
  predicate Equals(a: FileCompare, b: FileCompare) {
    a.size == b.size && a.name == b.name
  }

  /** `List.contains`: some element equals `e`. */
  predicate ListContains(list: seq<FileCompare>, e: FileCompare) {
    exists i :: 0 <= i < |list| && Equals(e, list[i])
  }

  /** `FileCompare.equals` is structural equality, so `List.contains` is membership. */
  lemma ContainsIsMembership(list: seq<FileCompare>, e: FileCompare)
    ensures ListContains(list, e) <==> e in list
  {
    if e in list {
      var i :| 0 <= i < |list| && list[i] == e;
      assert Equals(e, list[i]);
    }
  }

  /** `f.getAbsolutePath().replace(prefix, "")`. */
  function EntryName(path: Path, prefix: string): string {
    ReplaceAll(PathString(path), prefix, "")
  }

  /** Entries for the listing `kids` of the directory at `dir`, in listing order. */
  function ScanKids(kids: seq<Node>, dir: Path, prefix: string): seq<FileCompare>
    decreases kids
  {
    if kids == [] then [] else ScanNode(kids[0], dir, prefix) + ScanKids(kids[1..], dir, prefix)
  }

  /** Entries for one listed entry `c` of the directory at `dir`. */
  function ScanNode(c: Node, dir: Path, prefix: string): seq<FileCompare>
    decreases c
  {
    match c
    case File(name, data) => [FileCompare(EntryName(dir + [name], prefix), |data|)]
    case Dir(name, kids) => ScanKids(kids, dir + [name], prefix)
  }

  /** The inventory of the tree at `root`: empty when `listFiles()` is null there. */
  function Scan(fs: Node, root: Path, prefix: string): seq<FileCompare> {
    match ListFiles(fs, root)
    case None => []
    case Some(kids) => ScanKids(kids, root, prefix)
  }

  /** Number of regular files below a listing. */
  function CountKids(kids: seq<Node>): nat
    decreases kids
  {
    if kids == [] then 0 else CountNode(kids[0]) + CountKids(kids[1..])
  }

  function CountNode(c: Node): nat
    decreases c
  {
    match c
    case File(_, _) => 1
    case Dir(_, kids) => CountKids(kids)
  }

  lemma {:induction false} ScanKidsAppend(a: seq<Node>, b: seq<Node>, dir: Path, prefix: string)
    ensures ScanKids(a + b, dir, prefix) == ScanKids(a, dir, prefix) + ScanKids(b, dir, prefix)
    decreases a
  {
    if a == [] {
      assert a + b == b;
    } else {
      assert (a + b)[0] == a[0] && (a + b)[1..] == a[1..] + b;
      ScanKidsAppend(a[1..], b, dir, prefix);
    }
  }

  lemma ScanKidsStep(kids: seq<Node>, i: nat, dir: Path, prefix: string)
    requires i < |kids|
    ensures ScanKids(kids[..i + 1], dir, prefix) == ScanKids(kids[..i], dir, prefix) + ScanNode(kids[i], dir, prefix)
  {
    ScanKidsAppend(kids[..i], [kids[i]], dir, prefix);
    assert kids[..i + 1] == kids[..i] + [kids[i]];
    assert [kids[i]][1..] == [];
  }

  /** `recursiveScan(new File(root), prefix, list)`: appends the inventory of `root` to `list`. */
  method RecursiveScan(fs: Node, root: Path, prefix: string, list: seq<FileCompare>)
    returns (r: seq<FileCompare>)
    ensures r == list + Scan(fs, root, prefix)
  {
    var arr := ListFiles(fs, root);
    if arr.None? {
      return list;
    }
    r := ScanListing(arr.value, root, prefix, list);
  }

  /** The loop over one directory listing; a subdirectory is scanned recursively into the same list. */
  method ScanListing(kids: seq<Node>, dir: Path, prefix: string, list: seq<FileCompare>)
    returns (r: seq<FileCompare>)
    ensures r == list + ScanKids(kids, dir, prefix)
    decreases kids
  {
    r := list;
    for i := 0 to |kids|
      invariant r == list + ScanKids(kids[..i], dir, prefix)
    {
      ScanKidsStep(kids, i, dir, prefix);
      r := ScanEntry(kids[i], dir, prefix, r);
    }
    assert kids[..|kids|] == kids;
  }

  /** One pass of that loop: a regular file adds its entry, a subdirectory is scanned. */
  method ScanEntry(c: Node, dir: Path, prefix: string, list: seq<FileCompare>)
    returns (r: seq<FileCompare>)
    ensures r == list + ScanNode(c, dir, prefix)
    decreases c
  {
    match c {
      case File(name, data) =>
        r := list + [FileCompare(EntryName(dir + [name], prefix), |data|)];
      case Dir(name, sub) =>
        r := ScanListing(sub, dir + [name], prefix, list);
    }
  }

  lemma {:induction false} ScanKidsHasNode(kids: seq<Node>, dir: Path, prefix: string, k: nat, e: FileCompare)
    requires k < |kids| && e in ScanNode(kids[k], dir, prefix)
    ensures e in ScanKids(kids, dir, prefix)
    decreases kids
  {
    if k > 0 {
      assert kids[1..][k - 1] == kids[k];
      ScanKidsHasNode(kids[1..], dir, prefix, k - 1, e);
    }
  }

  lemma {:induction false} ScanKidsMember(kids: seq<Node>, dir: Path, prefix: string, e: FileCompare)
    returns (k: nat)
    requires e in ScanKids(kids, dir, prefix)
    ensures k < |kids| && e in ScanNode(kids[k], dir, prefix)
    decreases kids
  {
    if e in ScanNode(kids[0], dir, prefix) {
      k := 0;
    } else {
      var k' := ScanKidsMember(kids[1..], dir, prefix, e);
      k := k' + 1;
    }
  }

  lemma WFChild(d: Node, k: nat)
    requires WF(d) && d.Dir? && k < |d.children|
    ensures WF(d.children[k]) && ValidName(d.children[k].name)
  {
  }

  /** Every regular file below the directory `d` (whose path is `dir`) has its entry. */
  lemma {:induction false} NodeComplete(d: Node, dir: Path, prefix: string, rel: Path)
    requires WF(d) && d.Dir? && |rel| > 0 && FileData(d, rel).Some?
    ensures FileCompare(EntryName(dir + rel, prefix), |FileData(d, rel).value|) in ScanKids(d.children, dir, prefix)
    decreases d
  {
    var kids := d.children;
    var k := Find(kids, rel[0]);
    var c := kids[k];
    WFChild(d, k);
    assert Lookup(d, rel) == Lookup(c, rel[1..]);
    match c
    case File(name, data) =>
      assert rel[1..] == [] && rel == [name];
      ScanKidsHasNode(kids, dir, prefix, k, FileCompare(EntryName(dir + rel, prefix), |data|));
    case Dir(name, sub) =>
      assert rel[1..] != [];
      NodeComplete(c, dir + [name], prefix, rel[1..]);
      assert dir + [name] + rel[1..] == dir + rel;
      ScanKidsHasNode(kids, dir, prefix, k, FileCompare(EntryName(dir + rel, prefix), |FileData(d, rel).value|));
  }

  /** Every entry below the directory `d` comes from a regular file below it. */
  lemma {:induction false} NodeSound(d: Node, dir: Path, prefix: string, e: FileCompare) returns (rel: Path)
    requires WF(d) && d.Dir? && e in ScanKids(d.children, dir, prefix)
    ensures |rel| > 0 && FileData(d, rel).Some?
    ensures e == FileCompare(EntryName(dir + rel, prefix), |FileData(d, rel).value|)
    decreases d
  {
    var k := ScanKidsMember(d.children, dir, prefix, e);
    var c := d.children[k];
    WFChild(d, k);
    if c.File? {
      rel := [c.name];
      LookupThroughChild(d, k, []);
      assert [c.name] + [] == rel;
    } else {
      var r' := NodeSound(c, dir + [c.name], prefix, e);
      rel := [c.name] + r';
      ThroughChildFile(d, k, r', dir);
    }
  }

  /** A file at `r` below child `k` is the file at `[name] + r` below the directory. */
  lemma ThroughChildFile(d: Node, k: nat, r: Path, dir: Path)
    requires WF(d) && d.Dir? && k < |d.children|
    ensures FileData(d, [d.children[k].name] + r) == FileData(d.children[k], r)
    ensures dir + [d.children[k].name] + r == dir + ([d.children[k].name] + r)
  {
    LookupThroughChild(d, k, r);
  }

  /** A path through child `k` of a well-formed directory leads into that child. */
  lemma LookupThroughChild(d: Node, k: nat, r: Path)
    requires WF(d) && d.Dir? && k < |d.children|
    ensures Lookup(d, [d.children[k].name] + r) == Lookup(d.children[k], r)
  {
    var p := [d.children[k].name] + r;
    FindUnique(d.children, d.children[k].name, k);
    assert p[0] == d.children[k].name && p[1..] == r;
  }

  /** The root of a non-empty relative path holding a file is a directory, and the file is found from it. */
  lemma RootOfFile(fs: Node, root: Path, rel: Path)
    requires |rel| > 0 && FileData(fs, root + rel).Some?
    ensures ListFiles(fs, root).Some?
    ensures FileData(fs, root + rel) == FileData(Lookup(fs, root).value, rel)
  {
    LookupPrefix(fs, root, rel);
    LookupAppend(fs, root, rel);
  }

  /** Scan emits an entry for every regular file below `root`: its absolute path with the
      prefix removed, and its length. */
  lemma ScanComplete(fs: Node, root: Path, prefix: string, rel: Path)
    requires WF(fs) && |rel| > 0 && FileData(fs, root + rel).Some?
    ensures FileCompare(EntryName(root + rel, prefix), |FileData(fs, root + rel).value|) in Scan(fs, root, prefix)
  {
    RootOfFile(fs, root, rel);
    LookupWF(fs, root);
    NodeComplete(Lookup(fs, root).value, root, prefix, rel);
  }

  /** Every entry of Scan is a regular file strictly below `root`; in particular a root
      that is missing or a plain file (null listing) yields nothing. */
  lemma ScanSound(fs: Node, root: Path, prefix: string, e: FileCompare) returns (rel: Path)
    requires WF(fs) && e in Scan(fs, root, prefix)
    ensures |rel| > 0 && ListFiles(fs, root).Some? && FileData(fs, root + rel).Some?
    ensures e == FileCompare(EntryName(root + rel, prefix), |FileData(fs, root + rel).value|)
  {
    LookupWF(fs, root);
    rel := NodeSound(Lookup(fs, root).value, root, prefix, e);
    LookupAppend(fs, root, rel);
  }

  /** Scan emits one entry per regular file: its length is the number of files below `root`. */
  lemma {:induction false} ScanKidsCount(kids: seq<Node>, dir: Path, prefix: string)
    ensures |ScanKids(kids, dir, prefix)| == CountKids(kids)
    decreases kids
  {
    if kids != [] {
      ScanKidsCount(kids[1..], dir, prefix);
      match kids[0]
      case File(_, _) =>
      case Dir(name, sub) => ScanKidsCount(sub, dir + [name], prefix);
    }
  }
}
