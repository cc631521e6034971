/**
 * The final component of a POSIX path, as `pathlib.PurePosixPath(p).name` computes it:
 * the path is split at every '/', empty and "." components are dropped, and the name
 * is the last remaining component ("" when none remains).
 */
module Paths {
  import opened Strings

  /** `p.split('/')`: the text between consecutive slashes, in order. */
  function Segments(p: string): (r: seq<string>)
    ensures |r| >= 1
    ensures forall i :: 0 <= i < |r| ==> '/' !in r[i]
    decreases |p|
  {
    var k := FindLast(p, '/');
    if k < 0 then [p] else Segments(p[..k]) + [p[k + 1..]]
  }

  /** `'/'.join(parts)`, the inverse of `Segments`. */
  function Join(parts: seq<string>): string
    requires |parts| >= 1
  {
    if |parts| == 1 then parts[0] else Join(parts[..|parts| - 1]) + "/" + parts[|parts| - 1]
  }

  /** A component pathlib keeps: neither empty (a doubled or trailing slash) nor ".". */
  predicate IsName(segment: string)
  {
    segment != "" && segment != "."
  }

  /** No component of `segments` after position `j` is kept by pathlib. */
  predicate NoNameAfter(segments: seq<string>, j: int)
  {
    forall k :: j < k < |segments| && 0 <= k ==> !IsName(segments[k])
  }

  /** The last component of `segments` that pathlib keeps, or "" when it keeps none. */
  function LastName(segments: seq<string>): (r: string)
    ensures r == "" ==> NoNameAfter(segments, -1)
    ensures r != "" ==> IsName(r)
    ensures r != "" ==> exists j :: 0 <= j < |segments| && segments[j] == r && NoNameAfter(segments, j)
  {
    if segments == [] then ""
    else if IsName(segments[|segments| - 1]) then segments[|segments| - 1]
    else LastName(segments[..|segments| - 1])
  }

  /** `Path(p).name`. */
  function Basename(p: string): (r: string)
    ensures '/' !in r
    ensures r != "."
  {
    var segments := Segments(p);
    var r := LastName(segments);
    assert r != "" ==> exists j :: 0 <= j < |segments| && segments[j] == r;
    r
  }

  /** Splitting and joining again gives the path back. */
  lemma {:induction false} JoinSegments(p: string)
    ensures Join(Segments(p)) == p
    decreases |p|
  {
    var k := FindLast(p, '/');
    if k >= 0 {
      JoinSegments(p[..k]);
      var s := Segments(p[..k]) + [p[k + 1..]];
      assert s[..|s| - 1] == Segments(p[..k]);
      assert p == p[..k] + "/" + p[k + 1..];
    }
  }

  /** Splitting a path ending in `"/" + name` ends with the segment `name`. */
  lemma SegmentsOfJoin(dir: string, name: string)
    requires '/' !in name
    ensures Segments(dir + "/" + name) == Segments(dir) + [name]
  {
    var p := dir + "/" + name;
    FindLastBeforeSuffix(dir, '/', name);
    assert p[..|dir|] == dir;
    assert p[|dir| + 1..] == name;
  }

  /** Joining slash-free parts and splitting again gives the parts back. */
  lemma {:induction false} SegmentsJoin(parts: seq<string>)
    requires |parts| >= 1
    requires forall i :: 0 <= i < |parts| ==> '/' !in parts[i]
    ensures Segments(Join(parts)) == parts
    decreases |parts|
  {
    if |parts| == 1 {
      assert FindLast(parts[0], '/') == -1;
    } else {
      var init, last := parts[..|parts| - 1], parts[|parts| - 1];
      assert forall i :: 0 <= i < |init| ==> init[i] == parts[i];
      SegmentsJoin(init);
      assert Join(parts) == Join(init) + "/" + last;
      SegmentsOfJoin(Join(init), last);
      assert parts == init + [last];
    }
  }

  /** Whatever the directory part, the name of `dir + "/" + name` is `name`. */
  lemma BasenameOfJoin(dir: string, name: string)
    requires IsName(name) && '/' !in name
    ensures Basename(dir + "/" + name) == name
  {
    SegmentsOfJoin(dir, name);
  }

  /** A path that is a single component names itself. */
  lemma BasenameOfName(name: string)
    requires IsName(name) && '/' !in name
    ensures Basename(name) == name
  {
    assert Segments(name) == [name];
  }

  /** When the path does not end in '/' or "/.", its name is the text after the last '/'. */
  lemma BasenameAfterLastSlash(p: string)
    requires IsName(p[FindLast(p, '/') + 1..])
    ensures Basename(p) == p[FindLast(p, '/') + 1..]
  {
  }

  /** A trailing slash does not change the name. */
  lemma BasenameIgnoresTrailingSlash(p: string)
    ensures Basename(p + "/") == Basename(p)
  {
    SegmentsOfJoin(p, "");
    assert p + "/" == p + "/" + "";
    var s := Segments(p) + [""];
    assert s[..|s| - 1] == Segments(p);
  }
}
