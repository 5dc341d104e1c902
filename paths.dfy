/** Small wrapper types shared by the other modules. */
module Wrappers {
  datatype Option<+T> = None | Some(value: T)
}

/**
 * Path strings as keywordfs handles them: `/`-separated, split into segments
 * with empty segments dropped, made relative to the reference root, and cut
 * into a directory part and a base name.
 */
module Paths {

  /** A keyword segment: non-empty and free of the separator. */
  predicate Segment(x: string) {
    x != "" && '/' !in x
  }

  /** Length of the leading run of non-separator characters of `s`. */
  function SegLen(s: string): (k: nat)
    ensures k <= |s|
    ensures forall i :: 0 <= i < k ==> s[i] != '/'
    ensures k < |s| ==> s[k] == '/'
  {
    if s == [] || s[0] == '/' then 0 else 1 + SegLen(s[1..])
  }

  /**
   * The non-empty `/`-separated segments of `s`, in order: what
   * `s.split('/').filter((x) => x !== '')` returns.
   */
  function Split(s: string): (r: seq<string>)
    ensures forall x :: x in r ==> Segment(x)
    decreases |s|
  {
    if s == [] then []
    else if s[0] == '/' then Split(s[1..])
    else
      var k := SegLen(s);
      assert k > 0;
      [s[..k]] + Split(s[k..])
  }

  /** Joins segments into an absolute path `/x1/x2/...` (the root for no segments). */
  function Join(segs: seq<string>): string {
    if segs == [] then "" else "/" + segs[0] + Join(segs[1..])
  }

  lemma {:induction false} SegLenStops(a: string, b: string)
    ensures SegLen(a + "/" + b) == SegLen(a)
    decreases |a|
  {
    if a == [] {
      assert (a + "/" + b)[0] == '/';
    } else if a[0] == '/' {
      assert (a + "/" + b)[0] == '/';
    } else {
      assert (a + "/" + b)[1..] == a[1..] + "/" + b;
      SegLenStops(a[1..], b);
    }
  }

  lemma {:induction false} SegLenWhole(a: string)
    requires forall i :: 0 <= i < |a| ==> a[i] != '/'
    ensures SegLen(a) == |a|
    decreases |a|
  {
    if a != [] {
      SegLenWhole(a[1..]);
    }
  }

  /** Splitting `a + "/" + b` splits `a` and `b` independently. */
  lemma {:induction false} SplitConcat(a: string, b: string)
    ensures Split(a + "/" + b) == Split(a) + Split(b)
    decreases |a|
  {
    var s := a + "/" + b;
    if a == [] {
      assert s[0] == '/' && s[1..] == b;
    } else if a[0] == '/' {
      assert s[0] == '/' && s[1..] == a[1..] + "/" + b;
      SplitConcat(a[1..], b);
    } else {
      var k := SegLen(a);
      SegLenStops(a, b);
      assert s[..k] == a[..k];
      assert s[k..] == a[k..] + "/" + b;
      SplitConcat(a[k..], b);
    }
  }

  /** Splitting a single segment gives that segment back. */
  lemma SplitSegment(x: string)
    requires Segment(x)
    ensures Split(x) == [x]
  {
    forall i | 0 <= i < |x| ensures x[i] != '/' {
      assert x[i] in x;
    }
    SegLenWhole(x);
    assert x[..|x|] == x && x[|x|..] == "";
  }

  /** A separator, a segment and a rest that starts a new segment split into that segment first. */
  lemma SplitCons(x: string, rest: string)
    requires Segment(x) && (rest == "" || rest[0] == '/')
    ensures Split("/" + x + rest) == [x] + Split(rest)
  {
    var s := "/" + x + rest;
    assert s[1..] == x + rest;
    forall i | 0 <= i < |x| ensures x[i] != '/' {
      assert x[i] in x;
    }
    SegLenWhole(x);
    if rest != "" {
      assert x + rest == x + "/" + rest[1..];
      SegLenStops(x, rest[1..]);
    }
    assert (x + rest)[..|x|] == x && (x + rest)[|x|..] == rest;
  }

  /** Split inverts Join on a sequence of segments. */
  lemma {:induction false} SplitJoin(segs: seq<string>)
    requires forall x :: x in segs ==> Segment(x)
    ensures Split(Join(segs)) == segs
  {
    if segs != [] {
      assert segs[0] in segs;
      SplitCons(segs[0], Join(segs[1..]));
      SplitJoin(segs[1..]);
    }
  }

  /**
   * `pathLib.relative(ref, p)` for `p` equal to or below `ref`: the part of
   * `p` after `ref + "/"`. A path outside `ref` is returned unchanged.
   */
  function Relative(ref: string, p: string): string {
    if p == ref then ""
    else if Under(ref, p) then p[|ref| + 1..]
    else p
  }

  /** `p` names something strictly below `ref`. */
  predicate Under(ref: string, p: string) {
    |ref| < |p| && p[..|ref|] == ref && p[|ref|] == '/'
  }

  /**
   * The segments of a child path `c + "/" + b` relative to the root are those
   * of its parent `c` followed by those of `b`.
   */
  lemma RelativeChild(ref: string, c: string, b: string)
    requires c == ref || Under(ref, c)
    ensures Under(ref, c + "/" + b)
    ensures Split(Relative(ref, c + "/" + b)) == Split(Relative(ref, c)) + Split(b)
  {
    var p := c + "/" + b;
    assert p[..|c|] == c;
    assert p[..|ref|] == c[..|ref|] by {
      assert |ref| <= |c|;
    }
    if c == ref {
      assert p[|ref| + 1..] == b;
      assert Split("") == [];
    } else {
      assert p[|ref| + 1..] == c[|ref| + 1..] + "/" + b;
      SplitConcat(c[|ref| + 1..], b);
    }
  }

  /** Index of the last separator in `p`, or -1 when there is none. */
  function LastSep(p: string): (i: int)
    ensures -1 <= i < |p|
    ensures 0 <= i ==> p[i] == '/'
    ensures forall j :: i < j < |p| ==> p[j] != '/'
  {
    if p == [] then -1
    else if p[|p| - 1] == '/' then |p| - 1
    else LastSep(p[..|p| - 1])
  }

  /** `pathLib.dirname(p)` for a path without a trailing separator. */
  function Dirname(p: string): string {
    var i := LastSep(p);
    if i < 0 then "." else if i == 0 then "/" else p[..i]
  }

  /** `pathLib.basename(p)` for a path without a trailing separator. */
  function Basename(p: string): string {
    p[LastSep(p) + 1..]
  }

  /**
   * A path containing a separator splits into the segments of its
   * directory part followed by those of its base name, and its base name
   * holds no separator.
   */
  lemma DirnameBasename(p: string)
    requires '/' in p
    ensures '/' !in Basename(p)
    ensures Split(p) == Split(Dirname(p)) + Split(Basename(p))
  {
    var i := LastSep(p);
    var j :| 0 <= j < |p| && p[j] == '/';
    assert j <= i;
    var b := Basename(p);
    assert forall k :: 0 <= k < |b| ==> b[k] == p[i + 1 + k];
    if i == 0 {
      assert p == "" + "/" + b;
      SplitConcat("", b);
      assert Split("/") == [] by {
        assert "/" == "" + "/" + "";
        SplitConcat("", "");
      }
    } else {
      assert p == p[..i] + "/" + b;
      SplitConcat(p[..i], b);
    }
  }

  /** A path with a separator after its first character is its directory part, a separator and its base name. */
  lemma DirnameJoin(p: string)
    requires LastSep(p) > 0
    ensures p == Dirname(p) + "/" + Basename(p)
  {
    var i := LastSep(p);
    assert p == p[..i] + [p[i]] + p[i + 1..];
  }
}
