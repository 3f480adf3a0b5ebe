/**
 The parts of Python's `pathlib.PurePosixPath` that the converter uses:
 `Path(p).name`, `Path(p).stem` and `Path(p).suffix`.

 pathlib splits a path at every `/` and drops the empty and `.` components;
 the name is the last component left (or "" when none is left). `Name` below
 computes this from the end of the string, and `NameIsLastComponent` proves
 it equal to the component-list reading.
 */
module Paths {
  import opened Text

  /** `Path(path).name`. */
  function Name(path: string): (r: string)
    ensures '/' !in r && r != "."
    ensures |r| <= |path|
    ensures forall c :: c in r ==> c in path
    decreases |path|
  {
    var i := LastIndex(path, '/');
    var segment := path[i + 1..];
    if segment != "" && segment != "." then segment
    else if i < 0 then ""
    else Name(path[..i])
  }

  /** `path.split("/")`. */
  function Segments(path: string): (segments: seq<string>)
    ensures segments != []
  {
    if path == "" then [""] else Prepend(path[0], Segments(path[1..]))
  }

  /** The segments of `[c] + path` from those of `path`: a `/` opens a new segment, any other character joins the first. */
  function Prepend(c: char, segments: seq<string>): (r: seq<string>)
    requires segments != []
    ensures r != []
  {
    if c == '/' then [""] + segments else [[c] + segments[0]] + segments[1..]
  }

  lemma SegmentsCons(c: char, path: string)
    ensures Segments([c] + path) == Prepend(c, Segments(path))
  {
    assert ([c] + path)[1..] == path;
  }

  lemma PrependAppend(c: char, x: seq<string>, y: seq<string>)
    requires x != []
    ensures Prepend(c, x + y) == Prepend(c, x) + y
  {
    assert (x + y)[0] == x[0] && (x + y)[1..] == x[1..] + y;
  }

  /** The segments pathlib keeps as components: all but the empty ones and `.`. */
  function Components(segments: seq<string>): (parts: seq<string>)
    ensures forall k :: 0 <= k < |parts| ==> parts[k] != "" && parts[k] != "."
  {
    if segments == [] then []
    else if segments[0] == "" || segments[0] == "." then Components(segments[1..])
    else [segments[0]] + Components(segments[1..])
  }

  lemma {:induction false} SegmentsOfJoin(a: string, b: string)
    ensures Segments(a + "/" + b) == Segments(a) + Segments(b)
  {
    if a == "" {
      assert a + "/" + b == ['/'] + b;
      SegmentsCons('/', b);
    } else {
      var c, t := a[0], a[1..];
      assert a + "/" + b == [c] + (t + "/" + b);
      assert a == [c] + t;
      SegmentsCons(c, t + "/" + b);
      SegmentsCons(c, t);
      SegmentsOfJoin(t, b);
      PrependAppend(c, Segments(t), Segments(b));
    }
  }

  lemma {:induction false} ComponentsOfConcat(x: seq<string>, y: seq<string>)
    ensures Components(x + y) == Components(x) + Components(y)
    decreases |x|
  {
    if x == [] {
      assert x + y == y;
    } else {
      assert (x + y)[0] == x[0];
      assert (x + y)[1..] == x[1..] + y;
      ComponentsOfConcat(x[1..], y);
    }
  }

  /** A path without `/` is one segment. */
  lemma {:induction false} SegmentsOfSlashFree(segment: string)
    requires '/' !in segment
    ensures Segments(segment) == [segment]
  {
    if segment != "" {
      var c, t := segment[0], segment[1..];
      assert segment == [c] + t;
      assert '/' !in t;
      SegmentsCons(c, t);
      SegmentsOfSlashFree(t);
    }
  }

  lemma ComponentsOfOne(segment: string)
    ensures Components([segment]) == if segment != "" && segment != "." then [segment] else []
  {
    assert [segment][1..] == [];
  }

  /** Cutting a path at its last `/` splits off its last segment. */
  lemma SegmentsOfLastCut(path: string, i: nat)
    requires i < |path| && path[i] == '/' && '/' !in path[i + 1..]
    ensures Segments(path) == Segments(path[..i]) + [path[i + 1..]]
  {
    var dir, segment := path[..i], path[i + 1..];
    CutAtSlash(path, i);
    SegmentsOfJoin(dir, segment);
    SegmentsOfSlashFree(segment);
  }

  lemma CutAtSlash(path: string, i: nat)
    requires i < |path| && path[i] == '/'
    ensures path == path[..i] + "/" + path[i + 1..]
  {
  }

  /** `Name` is the last component of the path in pathlib's component-list reading. */
  lemma {:induction false} NameIsLastComponent(path: string)
    ensures var parts := Components(Segments(path));
      Name(path) == if parts == [] then "" else parts[|parts| - 1]
    decreases |path|
  {
    var i := LastIndex(path, '/');
    var segment := path[i + 1..];
    assert '/' !in segment by {
      assert forall j :: 0 <= j < |segment| ==> segment[j] == path[i + 1 + j];
    }
    ComponentsOfOne(segment);
    if i >= 0 {
      var dir := path[..i];
      SegmentsOfLastCut(path, i);
      ComponentsOfConcat(Segments(dir), [segment]);
      if segment == "" || segment == "." {
        NameIsLastComponent(dir);
      }
    } else {
      assert segment == path;
      SegmentsOfSlashFree(segment);
    }
  }

  /** A path that is already a bare name is its own name. */
  lemma NameOfBareName(name: string)
    requires '/' !in name && name != "."
    ensures Name(name) == name
  {
  }

  /** Whatever directory is in front of it, a bare non-empty name is what `Name` returns. */
  lemma NameUnderDirectory(dir: string, name: string)
    requires '/' !in name && name != "" && name != "."
    ensures Name(dir + "/" + name) == name
  {
    var p := dir + "/" + name;
    assert p[|dir|] == '/';
    assert p[|dir| + 1..] == name;
  }

  /** Taking the name twice changes nothing. */
  lemma NameIdempotent(path: string)
    ensures Name(Name(path)) == Name(path)
  {
    NameOfBareName(Name(path));
  }

  /**
   Where the suffix of a file name starts: at its last `.` when that is
   neither its first nor its last character, and at its end otherwise.
   */
  function SuffixStart(name: string): (k: nat)
    ensures k <= |name|
    ensures k == 0 <==> name == ""
    ensures k < |name| ==> 0 < k < |name| - 1 && name[k] == '.'
    ensures forall j :: k < j < |name| ==> name[j] != '.'
    ensures k == |name| ==> name == "" || name[|name| - 1] == '.' || '.' !in name[1..]
  {
    var i := LastIndex(name, '.');
    if 0 < i < |name| - 1 then i else |name|
  }

  /**
   `Path(path).suffix` (Python 3.13 and earlier): "" when the name is empty,
   ends in `.` or has no `.` after its first character; otherwise the name
   from its last `.` on.
   */
  function Suffix(path: string): (r: string)
    ensures var name := Name(path);
      r == "" <==> name == "" || name[|name| - 1] == '.' || '.' !in name[1..]
    ensures r == "" || (|r| >= 2 && r[0] == '.' && forall j :: 1 <= j < |r| ==> r[j] != '.')
  {
    var name := Name(path);
    name[SuffixStart(name)..]
  }

  /**
   `Path(path).stem`: the name without its suffix. Stem and suffix together
   are the name, and the stem is empty only when the name is.
   */
  function Stem(path: string): (r: string)
    ensures r + Suffix(path) == Name(path)
    ensures r == "" <==> Name(path) == ""
  {
    var name := Name(path);
    var k := SuffixStart(name);
    SliceJoin(name, k);
    name[..k]
  }
}
