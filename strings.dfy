/** Python's `str.find` and `str.rfind` for a single character. */
module Strings {

  /** Index of the first occurrence of `c` in `s`, or -1 when there is none (`s.find(c)`). */
  function Find(s: string, c: char): (r: int)
    ensures -1 <= r < |s|
    ensures r == -1 <==> c !in s
    ensures r >= 0 ==> s[r] == c && c !in s[..r]
    decreases |s|
  {
    if |s| == 0 then -1
    else if s[0] == c then 0
    else
      var k := Find(s[1..], c);
      assert k >= 0 ==> s[..k + 1] == [s[0]] + s[1..][..k];
      if k < 0 then -1 else k + 1
  }

  /** Index of the last occurrence of `c` in `s`, or -1 when there is none (`s.rfind(c)`). */
  function FindLast(s: string, c: char): (r: int)
    ensures -1 <= r < |s|
    ensures r == -1 <==> c !in s
    ensures r >= 0 ==> s[r] == c && c !in s[r + 1..]
    decreases |s|
  {
    if |s| == 0 then -1
    else if s[|s| - 1] == c then |s| - 1
    else
      var p := s[..|s| - 1];
      var k := FindLast(p, c);
      assert s == p + [s[|s| - 1]];
      assert k >= 0 ==> s[k + 1..] == p[k + 1..] + [s[|s| - 1]];
      k
  }

  /** The first occurrence is determined by the prefix before it: `(u + [c] + rest).find(c) == |u|`. */
  lemma {:induction false} FindAfterPrefix(u: string, c: char, rest: string)
    requires c !in u
    ensures Find(u + [c] + rest, c) == |u|
    decreases |u|
  {
    var s := u + [c] + rest;
    if u != [] {
      assert s[1..] == u[1..] + [c] + rest;
      FindAfterPrefix(u[1..], c, rest);
    }
  }

  /** The last occurrence is determined by the suffix after it: `(dir + [c] + name).rfind(c) == |dir|`. */
  lemma {:induction false} FindLastBeforeSuffix(dir: string, c: char, name: string)
    requires c !in name
    ensures FindLast(dir + [c] + name, c) == |dir|
    decreases |name|
  {
    var s := dir + [c] + name;
    if name != [] {
      var shorter := name[..|name| - 1];
      assert s[..|s| - 1] == dir + [c] + shorter;
      FindLastBeforeSuffix(dir, c, shorter);
    }
  }
}
