/**
 * Relative paths for display: paths are split on `/` into segments, the
 * longest common leading run of segments is dropped, and the rest of the
 * target is joined back with `/`.
 */
module Paths {
  /** The segments of s between `/` separators; n separators give n + 1 segments. */
  function Split(s: string): (r: seq<string>)
    ensures |r| >= 1
    ensures forall i :: 0 <= i < |r| ==> '/' !in r[i]
  {
    if |s| == 0 then [""]
    else
      var rest := Split(s[1..]);
      if s[0] == '/' then [""] + rest
      else [[s[0]] + rest[0]] + rest[1..]
  }

  /** The segments joined with `/` between consecutive ones; no segments give "". */
  function Join(segs: seq<string>): (r: string) {
    if |segs| == 0 then ""
    else if |segs| == 1 then segs[0]
    else segs[0] + "/" + Join(segs[1..])
  }

  /** Joining the segments of a path gives the path back. */
  lemma {:induction false} JoinSplit(s: string)
    ensures Join(Split(s)) == s
    decreases |s|
  {
    if |s| > 0 {
      var rest := Split(s[1..]);
      JoinSplit(s[1..]);
      if s[0] == '/' {
        assert Split(s)[1..] == rest;
        assert s == [s[0]] + s[1..];
      } else {
        var r := Split(s);
        assert r[0] == [s[0]] + rest[0] && r[1..] == rest[1..];
        if |rest| == 1 {
          assert Join(rest) == rest[0];
        } else {
          assert Join(rest) == rest[0] + "/" + Join(rest[1..]);
        }
        assert s == [s[0]] + s[1..];
      }
    }
  }

  /** Splitting a path built from separator-free segments gives those segments back. */
  lemma {:induction false} SplitJoin(segs: seq<string>)
    requires |segs| >= 1
    requires forall i :: 0 <= i < |segs| ==> '/' !in segs[i]
    ensures Split(Join(segs)) == segs
    decreases |segs|
  {
    if |segs| == 1 {
      SplitSegment(segs[0]);
    } else {
      SplitJoin(segs[1..]);
      SplitAround(segs[0], Join(segs[1..]));
      SplitSegment(segs[0]);
      assert segs == [segs[0]] + segs[1..];
    }
  }

  /** A string without separators is a single segment. */
  lemma {:induction false} SplitSegment(a: string)
    requires '/' !in a
    ensures Split(a) == [a]
    decreases |a|
  {
    if |a| > 0 {
      assert '/' !in a[1..] by {
        forall k | 0 <= k < |a[1..]| ensures a[1..][k] != '/' {
          assert a[1..][k] == a[k + 1];
        }
      }
      SplitSegment(a[1..]);
      assert a == [a[0]] + a[1..];
    }
  }

  /** A separator splits a path into the segments of its two sides. */
  lemma {:induction false} SplitAround(a: string, b: string)
    ensures Split(a + "/" + b) == Split(a) + Split(b)
    decreases |a|
  {
    if |a| == 0 {
      assert a + "/" + b == ['/'] + b;
      assert (['/'] + b)[1..] == b;
    } else {
      var s := a + "/" + b;
      assert s[0] == a[0] && s[1..] == a[1..] + "/" + b;
      SplitAround(a[1..], b);
    }
  }

  /** The length of the longest common leading run of f and t. */
  function CommonPrefix(f: seq<string>, t: seq<string>): (k: nat)
    ensures k <= |f| && k <= |t|
    ensures f[..k] == t[..k]
    ensures k == |f| || k == |t| || f[k] != t[k]
  {
    if |f| > 0 && |t| > 0 && f[0] == t[0] then
      var k := CommonPrefix(f[1..], t[1..]);
      assert f[..k + 1] == [f[0]] + f[1..][..k];
      assert t[..k + 1] == [t[0]] + t[1..][..k];
      1 + k
    else 0
  }

  /** The path of `to` seen from `from`: the segments of `to` past the shared leading ones. */
  function RelativePath(from: string, to: string): (r: string) {
    Join(Split(to)[CommonPrefix(Split(from), Split(to))..])
  }

  /**
   * Drops segments from the front of both paths while they agree and joins
   * what is left of the target.
   */
  method Relative(from: string, to: string) returns (r: string)
    ensures r == RelativePath(from, to)
  {
    var f := Split(from);
    var t := Split(to);
    ghost var k := 0;
    while |f| > 0 && |t| > 0 && f[0] == t[0]
      invariant 0 <= k <= |Split(from)| && k <= |Split(to)|
      invariant f == Split(from)[k..] && t == Split(to)[k..]
      invariant CommonPrefix(Split(from), Split(to)) == k + CommonPrefix(f, t)
      decreases |t|
    {
      assert f[1..] == Split(from)[k + 1..] && t[1..] == Split(to)[k + 1..];
      f := f[1..];
      t := t[1..];
      k := k + 1;
    }
    r := Join(t);
  }

  /** A path seen from itself is the empty path. */
  lemma RelativeSelf(p: string)
    ensures RelativePath(p, p) == ""
  {
    var s := Split(p);
    assert CommonPrefix(s, s) == |s|;
    assert s[|s|..] == [];
  }

  /** A path below `from` is seen from `from` as the part below it. */
  lemma RelativeBelow(from: string, rest: string)
    ensures RelativePath(from, from + "/" + rest) == rest
  {
    var f := Split(from);
    SplitAround(from, rest);
    var t := Split(from + "/" + rest);
    assert t[..|f|] == f;
    assert CommonPrefix(f, t) == |f|;
    assert t[|f|..] == Split(rest);
    JoinSplit(rest);
  }
}
