/**
 * Relative POSIX paths as both site scripts see them: the path of a file below the
 * repository root, as `path.relative` gives it, with `/` as separator.
 */
module Paths {
  import opened Strings

  /** `relPosix.split("/")`. */
  function Segments(p: string): seq<string> {
    Split(p, '/')
  }

  /** A path without a slash is a single segment. */
  lemma SingleSegment(p: string)
    requires '/' !in p
    ensures Segments(p) == [p]
  {
  }

  /** `relPosix.split("/").some((segment) => dirs.has(segment))`. */
  predicate HasSegmentIn(p: string, dirs: set<string>) {
    exists k | 0 <= k < |Segments(p)| :: Segments(p)[k] in dirs
  }

  /** Some part is one of the given segments. */
  predicate AnyIn(parts: seq<string>, dirs: set<string>) {
    exists k | 0 <= k < |parts| :: parts[k] in dirs
  }

  lemma AnyInAppend(a: seq<string>, b: seq<string>, dirs: set<string>)
    ensures AnyIn(a + b, dirs) <==> AnyIn(a, dirs) || AnyIn(b, dirs)
  {
    if AnyIn(a + b, dirs) {
      var k :| 0 <= k < |a + b| && (a + b)[k] in dirs;
      if k < |a| {
        assert a[k] in dirs;
      } else {
        assert b[k - |a|] in dirs;
      }
    }
    if AnyIn(a, dirs) {
      var k :| 0 <= k < |a| && a[k] in dirs;
      assert (a + b)[k] in dirs;
    }
    if AnyIn(b, dirs) {
      var k :| 0 <= k < |b| && b[k] in dirs;
      assert (a + b)[|a| + k] in dirs;
    }
  }

  /**
   * A path below a directory has one of the given segments exactly when the
   * directory or the rest of the path has one; so skipping an ignored directory
   * during the walk and skipping each file below it select the same files.
   */
  lemma SegmentInChild(dir: string, rest: string, dirs: set<string>)
    ensures HasSegmentIn(dir + "/" + rest, dirs) <==> HasSegmentIn(dir, dirs) || HasSegmentIn(rest, dirs)
  {
    SplitAppend(dir, rest, '/');
    assert Segments(dir + "/" + rest) == Segments(dir) + Segments(rest);
    AnyInAppend(Segments(dir), Segments(rest), dirs);
    assert HasSegmentIn(dir + "/" + rest, dirs) == AnyIn(Segments(dir + "/" + rest), dirs);
    assert HasSegmentIn(dir, dirs) == AnyIn(Segments(dir), dirs);
    assert HasSegmentIn(rest, dirs) == AnyIn(Segments(rest), dirs);
  }

  /** The entry name: the text after the last `/`. */
  function BaseName(p: string): string {
    if '/' in p then p[LastIndexOf(p, '/') + 1..] else p
  }

  /** `path.posix.dirname` of a path that does not end in `/`. */
  function DirName(p: string): string {
    if '/' !in p then "."
    else if LastIndexOf(p, '/') == 0 then "/"
    else p[..LastIndexOf(p, '/')]
  }

  /** A name placed in a directory has that directory and that name. */
  lemma DirNameOfChild(dir: string, name: string)
    requires dir != [] && '/' !in name
    ensures DirName(dir + "/" + name) == dir
    ensures BaseName(dir + "/" + name) == name
  {
    var p := dir + "/" + name;
    assert p[|dir|] == '/';
    assert p[|dir| + 1..] == name;
  }

  /** A name with no directory has the directory `.`. */
  lemma DirNameOfName(name: string)
    requires '/' !in name
    ensures DirName(name) == "." && BaseName(name) == name
  {
  }

  /**
   * What `path.relative` yields for an entry below the root: no empty segment and no
   * `.` segment.
   */
  predicate NormalPath(p: string) {
    NormalParts(Segments(p))
  }

  /** No part is empty or `.`. */
  predicate NormalParts(parts: seq<string>) {
    forall k :: 0 <= k < |parts| ==> parts[k] != "" && parts[k] != "."
  }

  lemma NormalPartsPrefix(a: seq<string>, b: seq<string>)
    requires NormalParts(a + b)
    ensures NormalParts(a)
  {
    assert forall k :: 0 <= k < |a| ==> a[k] == (a + b)[k];
  }

  lemma NormalPartsAppend(a: seq<string>, b: seq<string>)
    requires NormalParts(a) && NormalParts(b)
    ensures NormalParts(a + b)
  {
    forall k | 0 <= k < |a + b|
      ensures (a + b)[k] != "" && (a + b)[k] != "."
    {
      if k >= |a| {
        assert (a + b)[k] == b[k - |a|];
      }
    }
  }

  /** The entry name is the last segment of the path. */
  lemma BaseNameIsLastSegment(p: string)
    ensures BaseName(p) == Segments(p)[|Segments(p)| - 1]
  {
    if '/' in p {
      var i := LastIndexOf(p, '/');
      assert p == p[..i] + "/" + p[i + 1..];
      SplitAppend(p[..i], p[i + 1..], '/');
    }
  }

  /** A normal path is not empty and does not end with `/`. */
  lemma NormalPathEnds(p: string)
    requires NormalPath(p)
    ensures p != [] && p[|p| - 1] != '/'
  {
    var parts := Segments(p);
    assert parts[0] != "";
    BaseNameIsLastSegment(p);
    assert BaseName(p) != "";
    if '/' in p {
      assert LastIndexOf(p, '/') < |p| - 1;
    } else {
      assert parts == [p];
    }
  }

  /** A normal path neither starts with `/`, nor is `.`, nor starts with `./`. */
  lemma NormalPathStarts(p: string)
    requires NormalPath(p)
    ensures p != [] && p[0] != '/' && p != "." && !StartsWith(p, "./")
  {
    var parts := Segments(p);
    assert parts[0] != "" && parts[0] != ".";
    if StartsWith(p, "./") {
      DotSlashSegment(p);
    } else if '/' !in p {
      assert parts == [p];
      assert p[0] in p;
    }
  }

  /** A normal path with a slash is a normal directory path, a slash and its entry name. */
  lemma ParentOfNormalPath(p: string)
    requires NormalPath(p) && '/' in p
    ensures var d := p[..LastIndexOf(p, '/')];
      NormalPath(d) && p == d + "/" + BaseName(p)
  {
    var i := LastIndexOf(p, '/');
    var d := p[..i];
    SliceAround(p, i);
    SplitAppend(d, p[i + 1..], '/');
    NormalPartsPrefix(Segments(d), Segments(p[i + 1..]));
  }

  /** A normal path below a normal directory is normal. */
  lemma NormalChild(d: string, rest: string)
    requires NormalPath(d) && NormalPath(rest)
    ensures NormalPath(d + "/" + rest)
  {
    SplitAppend(d, rest, '/');
    NormalPartsAppend(Segments(d), Segments(rest));
  }

  /** A path starting with `./` has `.` as its first segment. */
  lemma DotSlashSegment(p: string)
    requires StartsWith(p, "./")
    ensures Segments(p)[0] == "."
  {
    assert p == "." + "/" + p[2..];
    SplitAppend(".", p[2..], '/');
  }

  /** `replace(/\/+$/, "")`. */
  function StripTrailingSlashes(d: string): string {
    if d != [] && d[|d| - 1] == '/' then StripTrailingSlashes(d[..|d| - 1]) else d
  }

  /** The whole trailing run of slashes goes, and nothing else. */
  lemma {:induction false} StripTrailingSlashesFacts(d: string)
    ensures var r := StripTrailingSlashes(d);
      r <= d && (r == [] || r[|r| - 1] != '/') && forall k :: |r| <= k < |d| ==> d[k] == '/'
    decreases |d|
  {
    if d != [] && d[|d| - 1] == '/' {
      StripTrailingSlashesFacts(d[..|d| - 1]);
    }
  }

  /** `replace(/^\/+/, "")`. */
  function StripLeadingSlashes(d: string): string {
    if d != [] && d[0] == '/' then StripLeadingSlashes(d[1..]) else d
  }

  /** The whole leading run of slashes goes, and nothing else. */
  lemma {:induction false} StripLeadingSlashesFacts(d: string)
    ensures var r := StripLeadingSlashes(d);
      |r| <= |d| && r == d[|d| - |r|..] && (r == [] || r[0] != '/') &&
      forall k :: 0 <= k < |d| - |r| ==> d[k] == '/'
    decreases |d|
  {
    if d != [] && d[0] == '/' {
      StripLeadingSlashesFacts(d[1..]);
    }
  }
}
