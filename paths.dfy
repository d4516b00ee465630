/** Absolute paths as `java.io.File` and `java.nio.file.Path` handle them: a path is
    the sequence of its component names; its string form puts the separator before
    every component, and parsing a string drops empty components, so duplicate and
    trailing separators vanish as they do in a normalised `File`. */
module Paths {
  import opened Strings

  /** The file separator (the configuration's '/' is turned into the platform separator). */
  const Sep: char := '/'

  type Path = seq<string>

  /** A component name: not empty and free of separators. */
  predicate ValidName(c: string) {
    |c| > 0 && Sep !in c
  }

  predicate ValidPath(p: Path) {
    forall i :: 0 <= i < |p| ==> ValidName(p[i])
  }

  /** `/c1/c2/.../cn`; the empty path renders as the empty string. */
  function Render(p: Path): string {
    if p == [] then "" else [Sep] + p[0] + Render(p[1..])
  }

  /** `toString()` / `getAbsolutePath()` of a path: the file-system root is "/". */
  function PathString(p: Path): string {
    if p == [] then [Sep] else Render(p)
  }

  /** `getParentFile()`: the path without its last component. */
  function Parent(p: Path): Path
    requires |p| > 0
  {
    p[..|p| - 1]
  }

  /** `Path.resolve(name)` for a relative name. */
  function Resolve(dir: Path, name: string): Path {
    dir + Parse(name)
  }

  /** `a` is an ancestor of `b` or `b` itself. */
  predicate IsPrefix(a: Path, b: Path) {
    |a| <= |b| && b[..|a|] == a
  }

  /** `new File(s)` seen as components: split at separators, dropping empty pieces. */
  function Parse(s: string): Path {
    ParseFrom(s, "")
  }

  /** Splits `s`, where `acc` is the component read so far. */
  function ParseFrom(s: string, acc: string): Path
    decreases |s|
  {
    if s == [] then (if acc == [] then [] else [acc])
    else if s[0] == Sep then
      (if acc == [] then ParseFrom(s[1..], []) else [acc] + ParseFrom(s[1..], []))
    else ParseFrom(s[1..], acc + [s[0]])
  }

  lemma {:induction false} RenderAppend(p: Path, q: Path)
    ensures Render(p + q) == Render(p) + Render(q)
  {
    if p == [] {
      assert p + q == q;
    } else {
      assert (p + q)[0] == p[0];
      assert (p + q)[1..] == p[1..] + q;
      RenderAppend(p[1..], q);
    }
  }

  lemma {:induction false} RenderValidHasSep(p: Path)
    requires p != []
    ensures Render(p) != [] && Render(p)[0] == Sep
  {
  }

  /** Reading a separator-free name extends the pending component. */
  lemma {:induction false} ParseName(c: string, rest: string, acc: string)
    requires Sep !in c
    ensures ParseFrom(c + rest, acc) == ParseFrom(rest, acc + c)
    decreases |c|
  {
    if c == [] {
      assert c + rest == rest && acc + c == acc;
    } else {
      assert (c + rest)[0] == c[0];
      assert (c + rest)[1..] == c[1..] + rest;
      assert acc + [c[0]] + c[1..] == acc + c;
      ParseName(c[1..], rest, acc + [c[0]]);
    }
  }

  /** Parsing after a separator: the pending component is closed. */
  lemma ParseAfterSep(rest: string, acc: string)
    ensures ParseFrom([Sep] + rest, acc)
         == (if acc == [] then ParseFrom(rest, []) else [acc] + ParseFrom(rest, []))
  {
    assert ([Sep] + rest)[1..] == rest;
  }

  /** Rendering then parsing a path of valid names gives the path back. */
  lemma {:induction false} ParseRender(p: Path)
    requires ValidPath(p)
    ensures Parse(Render(p)) == p
  {
    if p != [] {
      var tail := Render(p[1..]);
      assert Render(p) == [Sep] + (p[0] + tail);
      ParseAfterSep(p[0] + tail, []);
      ParseName(p[0], tail, []);
      assert [] + p[0] == p[0];
      assert ValidPath(p[1..]) by {
        forall i | 0 <= i < |p[1..]| ensures ValidName(p[1..][i]) { assert p[1..][i] == p[i + 1]; }
      }
      ParseRender(p[1..]);
      if p[1..] == [] {
      } else {
        RenderValidHasSep(p[1..]);
        assert tail == [Sep] + tail[1..];
        ParseAfterSep(tail[1..], p[0]);
        ParseAfterSep(tail[1..], []);
      }
    }
  }

  lemma ParsePathString(p: Path)
    requires ValidPath(p)
    ensures Parse(PathString(p)) == p
  {
    if p == [] {
      assert ParseFrom([Sep], "") == ParseFrom([], "");
    } else {
      ParseRender(p);
    }
  }

  lemma ValidPathAppend(p: Path, q: Path)
    requires ValidPath(p) && ValidPath(q)
    ensures ValidPath(p + q)
  {
    forall i | 0 <= i < |p + q| ensures ValidName((p + q)[i]) {
      if i < |p| { assert (p + q)[i] == p[i]; } else { assert (p + q)[i] == q[i - |p|]; }
    }
  }

  /** A name with no separator, read on its own, is one component (or none if empty). */
  lemma ParseSingle(c: string)
    requires Sep !in c
    ensures Parse(c) == (if c == [] then [] else [c])
  {
    ParseName(c, [], []);
    assert c + [] == c;
    assert [] + c == c;
  }

  /** Parsing across a separator parses the two sides on their own. */
  lemma {:induction false} ParseSplit(a: string, b: string, acc: string)
    ensures ParseFrom(a + [Sep] + b, acc) == ParseFrom(a, acc) + ParseFrom(b, [])
    decreases |a|
  {
    if a == [] {
      assert a + [Sep] + b == [Sep] + b;
      ParseAfterSep(b, acc);
    } else {
      assert (a + [Sep] + b)[0] == a[0];
      assert (a + [Sep] + b)[1..] == a[1..] + [Sep] + b;
      ParseSplit(a[1..], b, if a[0] == Sep then [] else acc + [a[0]]);
    }
  }

  /** `new File(dir + separator + rest)` for a directory of valid names. */
  lemma ParseJoin(dir: Path, rest: string)
    requires ValidPath(dir)
    ensures Parse(PathString(dir) + [Sep] + rest) == dir + Parse(rest)
  {
    ParseSplit(PathString(dir), rest, []);
    ParsePathString(dir);
  }
}
