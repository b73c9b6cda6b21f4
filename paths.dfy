/** `filepath.Join` for plain path segments, and its inverse. */
module Paths {
  import opened Strings

  /** A path element `filepath.Join` keeps as it is: non-empty, without `/`,
      and neither `.` nor `..`. */
  predicate IsSegment(c: string) {
    c != "" && '/' !in c && c != "." && c != ".."
  }

  predicate AllSegments(elems: seq<string>) {
    forall i :: 0 <= i < |elems| ==> IsSegment(elems[i])
  }

  /** `filepath.Join(elems...)` when every element is a plain segment: the
      elements with one `/` between neighbours. */
  function Join(elems: seq<string>): (p: string)
    requires |elems| > 0 && AllSegments(elems)
    ensures |p| > 0
  {
    if |elems| == 1 then elems[0] else elems[0] + ("/" + Join(elems[1..]))
  }

  /** The `/`-separated parts of a path. */
  function SplitPath(p: string): (parts: seq<string>)
    ensures |parts| > 0
    decreases |p|
  {
    var i := FirstIndex(p, '/');
    if i == |p| then [p] else [p[..i]] + SplitPath(p[i + 1..])
  }

  /** Splitting a joined path at its slashes gives back the segments. */
  lemma {:induction false} SplitJoin(elems: seq<string>)
    requires |elems| > 0 && AllSegments(elems)
    ensures SplitPath(Join(elems)) == elems
    decreases |elems|
  {
    if |elems| > 1 {
      var rest := Join(elems[1..]);
      FirstIndexAfter(elems[0], '/', rest);
      var p := elems[0] + ("/" + rest);
      assert p[..|elems[0]|] == elems[0];
      assert p[|elems[0]| + 1..] == rest;
      SplitJoin(elems[1..]);
    }
  }

  /** Joining a directory built by `Join` with further segments is one `Join`. */
  lemma {:induction false} JoinAppend(a: seq<string>, b: seq<string>)
    requires |a| > 0 && |b| > 0 && AllSegments(a) && AllSegments(b)
    ensures AllSegments(a + b) && Join(a + b) == Join(a) + ("/" + Join(b))
    decreases |a|
  {
    assert AllSegments(a + b) by {
      forall i | 0 <= i < |a + b| ensures IsSegment((a + b)[i]) {
        if i >= |a| { assert (a + b)[i] == b[i - |a|]; }
      }
    }
    if |a| > 1 {
      assert (a + b)[1..] == a[1..] + b;
      JoinAppend(a[1..], b);
    }
  }
}
