/** The file system as a finite tree. A directory lists its entries in the order
    `File.listFiles()` returns them; every entry carries its own name. Paths are
    absolute and name entries from the root directory down. */
module FileSystem {
  import opened Wrappers
  import opened Paths

  newtype byte = b: int | 0 <= b < 256

  datatype Node = File(name: string, data: seq<byte>) | Dir(name: string, children: seq<Node>)

  /** Index of the first entry called `name`, or `|kids|` when there is none. */
  function Find(kids: seq<Node>, name: string): (i: nat)
    ensures i <= |kids|
    ensures i < |kids| ==> kids[i].name == name
    ensures forall j :: 0 <= j < i ==> kids[j].name != name
  {
    if kids == [] then 0
    else if kids[0].name == name then 0
    else 1 + Find(kids[1..], name)
  }

  /** Entry names in one listing are distinct. */
  predicate UniqueNames(kids: seq<Node>) {
    forall i, j :: 0 <= i < j < |kids| ==> kids[i].name != kids[j].name
  }

  /** A well-formed tree: in every directory, entry names are valid and distinct. */
  predicate WF(n: Node)
    decreases n
  {
    match n
    case File(_, _) => true
    case Dir(_, kids) =>
      UniqueNames(kids) && forall i :: 0 <= i < |kids| ==> ValidName(kids[i].name) && WF(kids[i])
  }

  /** The entry at path `p` below `n`, or None (`File.exists()` is false). */
  function Lookup(n: Node, p: Path): Option<Node>
    decreases |p|
  {
    if p == [] then Some(n)
    else match n
      case File(_, _) => None
      case Dir(_, kids) =>
        var i := Find(kids, p[0]);
        if i == |kids| then None else Lookup(kids[i], p[1..])
  }

  /** `File.listFiles()`: the listing of a directory, None (null) for a plain file or a missing path. */
  function ListFiles(fs: Node, p: Path): Option<seq<Node>> {
    match Lookup(fs, p)
    case Some(Dir(_, kids)) => Some(kids)
    case _ => None
  }

  predicate IsDir(fs: Node, p: Path) {
    Lookup(fs, p).Some? && Lookup(fs, p).value.Dir?
  }

  /** The contents of the regular file at `p`, if there is one. */
  function FileData(fs: Node, p: Path): Option<seq<byte>> {
    match Lookup(fs, p)
    case Some(File(_, d)) => Some(d)
    case _ => None
  }

  /** Sets the entry at `p` (|p| > 0) to `v`: None removes it, Some replaces or adds it.
      A missing parent directory leaves the tree unchanged. */
  function ReplaceIn(n: Node, p: Path, v: Option<Node>): Node
    requires |p| > 0
    decreases |p|
  {
    match n
    case File(_, _) => n
    case Dir(name, kids) =>
      var i := Find(kids, p[0]);
      if |p| == 1 then
        (if i == |kids| then
           (if v.None? then n else Dir(name, kids + [v.value]))
         else if v.None? then Dir(name, kids[..i] + kids[i + 1..])
         else Dir(name, kids[i := v.value]))
      else if i == |kids| then n
      else Dir(name, kids[i := ReplaceIn(kids[i], p[1..], v)])
  }

  function Last(p: Path): string
    requires |p| > 0
  {
    p[|p| - 1]
  }

  lemma FindUnique(kids: seq<Node>, name: string, k: nat)
    requires UniqueNames(kids) && k < |kids| && kids[k].name == name
    ensures Find(kids, name) == k
  {
  }

  lemma ReplaceInName(n: Node, p: Path, v: Option<Node>)
    requires |p| > 0
    ensures ReplaceIn(n, p, v).name == n.name
  {
  }

  lemma ValidPathTail(p: Path)
    requires |p| > 0 && ValidPath(p)
    ensures ValidName(p[0]) && ValidPath(p[1..])
  {
    forall i | 0 <= i < |p[1..]| ensures ValidName(p[1..][i]) { assert p[1..][i] == p[i + 1]; }
  }

  /** Adding an entry with a valid fresh name keeps a directory well formed. */
  lemma WFAppend(name: string, kids: seq<Node>, c: Node)
    requires WF(Dir(name, kids)) && WF(c) && ValidName(c.name) && Find(kids, c.name) == |kids|
    ensures WF(Dir(name, kids + [c]))
  {
    var kids' := kids + [c];
    assert forall j :: 0 <= j < |kids| ==> kids'[j] == kids[j];
    assert kids'[|kids|] == c;
  }

  /** Removing an entry keeps a directory well formed. */
  lemma WFRemove(name: string, kids: seq<Node>, i: nat)
    requires WF(Dir(name, kids)) && i < |kids|
    ensures WF(Dir(name, kids[..i] + kids[i + 1..]))
  {
    var kids' := kids[..i] + kids[i + 1..];
    assert forall j :: 0 <= j < |kids'| ==> kids'[j] == kids[if j < i then j else j + 1];
  }

  /** Replacing an entry by a well-formed one of the same name keeps a directory well formed. */
  lemma WFUpdate(name: string, kids: seq<Node>, i: nat, c: Node)
    requires WF(Dir(name, kids)) && i < |kids| && WF(c) && c.name == kids[i].name
    ensures WF(Dir(name, kids[i := c]))
  {
  }

  /** Setting an entry keeps the tree well formed. */
  lemma {:induction false} ReplaceInWF(n: Node, p: Path, v: Option<Node>)
    requires WF(n) && |p| > 0 && ValidPath(p)
    requires v.Some? ==> WF(v.value) && v.value.name == Last(p)
    ensures WF(ReplaceIn(n, p, v))
    decreases |p|
  {
    ValidPathTail(p);
    if n.Dir? {
      var i := Find(n.children, p[0]);
      if |p| == 1 {
        if i == |n.children| {
          if v.Some? {
            WFAppend(n.name, n.children, v.value);
          }
        } else if v.None? {
          WFRemove(n.name, n.children, i);
        } else {
          WFUpdate(n.name, n.children, i, v.value);
        }
      } else if i < |n.children| {
        ReplaceInWF(n.children[i], p[1..], v);
        ReplaceInName(n.children[i], p[1..], v);
        assert Last(p[1..]) == Last(p);
        WFUpdate(n.name, n.children, i, ReplaceIn(n.children[i], p[1..], v));
      }
    }
  }

  lemma ParentDirIsDir(n: Node, p: Path)
    requires |p| > 0 && IsDir(n, Parent(p))
    ensures n.Dir?
    ensures |p| > 1 ==> Find(n.children, p[0]) < |n.children|
    ensures |p| > 1 ==> IsDir(n.children[Find(n.children, p[0])], Parent(p[1..]))
  {
    if |p| > 1 {
      assert Parent(p)[0] == p[0];
      assert Parent(p)[1..] == Parent(p[1..]);
    }
  }

  /** Entries whose first component differs from `p`'s are untouched. */
  lemma ReplaceInOther(n: Node, p: Path, v: Option<Node>, q: Path)
    requires WF(n) && |p| > 0 && ValidPath(p) && n.Dir?
    requires v.Some? ==> WF(v.value) && v.value.name == Last(p)
    requires q != [] && q[0] != p[0]
    ensures Lookup(ReplaceIn(n, p, v), q) == Lookup(n, q)
  {
    ValidPathTail(p);
    ReplaceInWF(n, p, v);
    if Find(n.children, q[0]) < |n.children| {
      OtherKept(n, p, v, q[0]);
    } else {
      OtherAbsent(n, p, v, q[0]);
    }
  }

  /** An entry with another name keeps its place among the entries. */
  lemma OtherKept(n: Node, p: Path, v: Option<Node>, c: string)
    requires |p| > 0 && WF(n) && WF(ReplaceIn(n, p, v)) && n.Dir? && c != p[0]
    requires Find(n.children, c) < |n.children|
    ensures var kids' := ReplaceIn(n, p, v).children;
      Find(kids', c) < |kids'| && kids'[Find(kids', c)] == n.children[Find(n.children, c)]
  {
    var kids := n.children;
    var kids' := ReplaceIn(n, p, v).children;
    var i := Find(kids, p[0]);
    var k := Find(kids, c);
    if |p| == 1 && i < |kids| && v.None? {
      assert kids' == kids[..i] + kids[i + 1..];
      var k' := if k < i then k else k - 1;
      assert kids'[k'] == kids[k];
      FindUnique(kids', c, k');
    } else {
      assert kids'[k] == kids[k];
      FindUnique(kids', c, k);
    }
  }

  /** A name that is missing, and is not the one set, stays missing. */
  lemma OtherAbsent(n: Node, p: Path, v: Option<Node>, c: string)
    requires |p| > 0 && n.Dir? && c != p[0] && Find(n.children, c) == |n.children|
    requires v.Some? ==> v.value.name == Last(p)
    ensures var kids' := ReplaceIn(n, p, v).children; Find(kids', c) == |kids'|
  {
    var kids := n.children;
    var kids' := ReplaceIn(n, p, v).children;
    var i := Find(kids, p[0]);
    forall j | 0 <= j < |kids'| ensures kids'[j].name != c {
      if |p| == 1 && i < |kids| && v.None? {
        assert kids' == kids[..i] + kids[i + 1..];
        assert kids'[j] == kids[if j < i then j else j + 1];
      } else if |p| == 1 && i == |kids| && v.Some? {
        if j < |kids| { assert kids'[j] == kids[j]; }
      } else if |p| > 1 && i < |kids| && j == i {
        ReplaceInName(kids[i], p[1..], v);
      }
    }
  }


  /** Replacing a direct child: below it the tree shows `v`. */
  lemma ReplaceInLeaf(n: Node, p: Path, v: Option<Node>, q: Path)
    requires WF(n) && |p| == 1 && ValidPath(p) && n.Dir?
    requires v.Some? ==> WF(v.value) && v.value.name == Last(p)
    requires q != [] && q[0] == p[0]
    ensures Lookup(ReplaceIn(n, p, v), q) == if v.None? then None else Lookup(v.value, q[1..])
  {
    ValidPathTail(p);
    ReplaceInWF(n, p, v);
    var kids := n.children;
    var kids' := ReplaceIn(n, p, v).children;
    var i := Find(kids, p[0]);
    if i == |kids| {
      if v.Some? {
        FindUnique(kids', q[0], |kids|);
      }
    } else if v.None? {
      assert kids' == kids[..i] + kids[i + 1..];
      forall j | 0 <= j < |kids'| ensures kids'[j].name != q[0] {
        assert kids'[j] == kids[if j < i then j else j + 1];
      }
    } else {
      FindUnique(kids', q[0], i);
    }
  }

  /** Outside `p` nothing changes; at and below `p` the tree shows `v`. Ancestors of `p`,
      whose listings change, are excluded. */
  lemma {:induction false} ReplaceInLookup(n: Node, p: Path, v: Option<Node>, q: Path)
    requires WF(n) && |p| > 0 && ValidPath(p) && IsDir(n, Parent(p))
    requires v.Some? ==> WF(v.value) && v.value.name == Last(p)
    requires !IsPrefix(q, p) || q == p
    ensures Lookup(ReplaceIn(n, p, v), q)
         == if IsPrefix(p, q) then (if v.None? then None else Lookup(v.value, q[|p|..]))
            else Lookup(n, q)
    decreases |p|
  {
    ParentDirIsDir(n, p);
    ValidPathTail(p);
    assert q != [];
    if q[0] != p[0] {
      ReplaceInOther(n, p, v, q);
    } else if |p| == 1 {
      assert IsPrefix(p, q) && q[|p|..] == q[1..];
      ReplaceInLeaf(n, p, v, q);
    } else {
      var kids := n.children;
      var i := Find(kids, p[0]);
      ReplaceInWF(n, p, v);
      var kids' := ReplaceIn(n, p, v).children;
      var c' := ReplaceIn(kids[i], p[1..], v);
      ReplaceInName(kids[i], p[1..], v);
      FindUnique(kids', q[0], i);
      assert kids'[i] == c';
      assert Lookup(ReplaceIn(n, p, v), q) == Lookup(c', q[1..]);
      assert Lookup(n, q) == Lookup(kids[i], q[1..]);
      assert IsPrefix(p[1..], q[1..]) <==> IsPrefix(p, q);
      assert IsPrefix(q[1..], p[1..]) && q[1..] != p[1..] ==> IsPrefix(q, p) && q != p;
      assert Last(p[1..]) == Last(p);
      ReplaceInLookup(kids[i], p[1..], v, q[1..]);
      if IsPrefix(p, q) {
        assert q[1..][|p[1..]|..] == q[|p|..];
      }
    }
  }

  /** Every ancestor of a directory is a directory. */
  lemma {:induction false} PrefixOfDir(n: Node, r: Path, q: Path)
    requires IsDir(n, r) && IsPrefix(q, r)
    ensures IsDir(n, q)
    decreases |q|
  {
    if q != [] {
      var i := Find(n.children, r[0]);
      assert q[0] == r[0];
      assert IsPrefix(q[1..], r[1..]);
      PrefixOfDir(n.children[i], r[1..], q[1..]);
    }
  }

  /** Nothing lies below a missing entry or a plain file. */
  lemma {:induction false} BelowNothing(n: Node, p: Path, q: Path)
    requires IsPrefix(p, q) && q != p
    requires Lookup(n, p).None? || Lookup(n, p).value.File?
    ensures Lookup(n, q).None?
    decreases |p|
  {
    if p == [] {
      assert q != [];
    } else {
      match n
      case File(_, _) =>
      case Dir(_, kids) =>
        var i := Find(kids, p[0]);
        assert q[0] == p[0];
        if i < |kids| {
          assert IsPrefix(p[1..], q[1..]) && q[1..] != p[1..];
          BelowNothing(kids[i], p[1..], q[1..]);
        }
    }
  }

  /** Ancestors of the replaced entry stay directories. */
  lemma {:induction false} ReplaceInAncestor(n: Node, p: Path, v: Option<Node>, q: Path)
    requires WF(n) && |p| > 0 && ValidPath(p) && IsDir(n, Parent(p))
    requires IsPrefix(q, Parent(p))
    ensures IsDir(ReplaceIn(n, p, v), q)
    decreases |p|
  {
    ParentDirIsDir(n, p);
    if q != [] {
      var kids := n.children;
      var i := Find(kids, p[0]);
      assert q[0] == p[0] && Parent(p)[0] == p[0];
      assert |p| > 1;
      ValidPathTail(p);
      var kids' := ReplaceIn(n, p, v).children;
      ReplaceInName(kids[i], p[1..], v);
      FindUnique(kids', q[0], i);
      assert Parent(p)[1..] == Parent(p[1..]);
      assert IsPrefix(q[1..], Parent(p[1..]));
      ReplaceInAncestor(kids[i], p[1..], v, q[1..]);
    }
  }

  /** The regular files after setting the entry at `p` to `v`. */
  lemma ReplaceInFiles(n: Node, p: Path, v: Option<Node>, q: Path)
    requires WF(n) && |p| > 0 && ValidPath(p) && IsDir(n, Parent(p))
    requires v.Some? ==> WF(v.value) && v.value.name == Last(p)
    ensures FileData(ReplaceIn(n, p, v), q)
         == if IsPrefix(p, q) then (if v.None? then None else FileData(v.value, q[|p|..]))
            else FileData(n, q)
  {
    if IsPrefix(q, p) && q != p {
      assert IsPrefix(q, Parent(p));
      ReplaceInAncestor(n, p, v, q);
      PrefixOfDir(n, Parent(p), q);
    } else {
      ReplaceInLookup(n, p, v, q);
    }
  }

  /** Looking up a path in two steps. */
  lemma {:induction false} LookupAppend(fs: Node, p: Path, rest: Path)
    requires Lookup(fs, p).Some?
    ensures Lookup(fs, p + rest) == Lookup(Lookup(fs, p).value, rest)
    decreases |p|
  {
    if p == [] {
      assert p + rest == rest;
    } else {
      var i := Find(fs.children, p[0]);
      assert (p + rest)[0] == p[0] && (p + rest)[1..] == p[1..] + rest;
      LookupAppend(fs.children[i], p[1..], rest);
    }
  }

  lemma LookupSomeParent(fs: Node, p: Path)
    requires |p| > 0 && Lookup(fs, p).Some?
    ensures IsDir(fs, Parent(p))
    decreases |p|
  {
    if |p| > 1 {
      var i := Find(fs.children, p[0]);
      assert Parent(p)[0] == p[0] && Parent(p)[1..] == Parent(p[1..]);
      LookupSomeParent(fs.children[i], p[1..]);
    }
  }

  /** An entry exists on the way to any existing entry. */
  lemma {:induction false} LookupPrefix(fs: Node, p: Path, rest: Path)
    requires Lookup(fs, p + rest).Some?
    ensures Lookup(fs, p).Some?
    decreases |p|
  {
    if p != [] {
      var i := Find(fs.children, p[0]);
      assert (p + rest)[0] == p[0] && (p + rest)[1..] == p[1..] + rest;
      LookupPrefix(fs.children[i], p[1..], rest);
    }
  }

  lemma {:induction false} LookupWF(fs: Node, p: Path)
    requires WF(fs) && Lookup(fs, p).Some?
    ensures WF(Lookup(fs, p).value)
    decreases |p|
  {
    if p != [] {
      var i := Find(fs.children, p[0]);
      LookupWF(fs.children[i], p[1..]);
    }
  }

}
