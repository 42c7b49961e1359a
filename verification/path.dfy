/**
 * The chart's `Path` class: a recording drawing context that the line
 * generator drives with `moveTo`, `lineTo` and `bezierCurveTo`, and whose
 * `split(k)` cuts the recorded segment list into 2^k pieces by recursive
 * bisection so that each piece can be stroked in its own colour.
 */
module Paths {
  import opened Wrappers
  import opened Curves

  function Last<T>(s: seq<T>): T
    requires s != []
  {
    s[|s| - 1]
  }

  /** Consecutive segments share an endpoint. */
  predicate Continuous(segs: seq<Segment>)
  {
    forall i :: 0 <= i < |segs| - 1 ==> End(segs[i]) == Start(segs[i + 1])
  }

  /**
   * One bisection step of `split`: the first floor(n/2) segments and the
   * last floor(n/2); when n is odd the middle segment is cut in two, its left
   * half closing the first piece and its right half opening the second.
   */
  function Bisect(segs: seq<Segment>): (pieces: (seq<Segment>, seq<Segment>))
  {
    var n := |segs|;
    var i := n / 2;
    var j := (n + 1) / 2;
    if i != j then
      var halves := Split(segs[i]);
      (segs[..i] + [halves.0], [halves.1] + segs[j..])
    else
      (segs[..i], segs[j..])
  }

  /** The segment list with its middle segment (odd length only) replaced by its two halves. */
  function Refined(segs: seq<Segment>): seq<Segment>
  {
    var i := |segs| / 2;
    if |segs| % 2 == 1 then segs[..i] + [Split(segs[i]).0, Split(segs[i]).1] + segs[i + 1..]
    else segs
  }

  /** The fragments `split(k)` yields, in order, as the segment lists of the fresh paths. */
  function SplitSegments(segs: seq<Segment>, k: nat): (frags: seq<seq<Segment>>)
    ensures |frags| >= 2
    decreases k
  {
    var pieces := Bisect(segs);
    if k > 1 then SplitSegments(pieces.0, k - 1) + SplitSegments(pieces.1, k - 1)
    else [pieces.0, pieces.1]
  }

  function Pow2(k: nat): (r: nat)
    ensures r >= 1
  {
    if k == 0 then 1 else 2 * Pow2(k - 1)
  }

  /** A sequence of fragments that is a continuous run: no fragment is empty, each is continuous, and each ends where the next starts. */
  predicate Chained(frags: seq<seq<Segment>>)
  {
    && (forall f :: 0 <= f < |frags| ==> frags[f] != [] && Continuous(frags[f]))
    && (forall f :: 0 <= f < |frags| - 1 ==> End(Last(frags[f])) == Start(frags[f + 1][0]))
  }

  /** The first piece followed by the second is the list with its middle segment cut in two. */
  lemma BisectCovers(segs: seq<Segment>)
    ensures Bisect(segs).0 + Bisect(segs).1 == Refined(segs)
    ensures |Bisect(segs).0| == |Bisect(segs).1| == (|segs| + 1) / 2
  {
    var i := |segs| / 2;
    if |segs| % 2 == 1 {
      assert segs[(|segs| + 1) / 2..] == segs[i + 1..];
    } else {
      assert segs[..i] + segs[i..] == segs;
    }
  }

  lemma AppendEnds<T>(a: seq<T>, b: seq<T>)
    requires a != [] && b != []
    ensures (a + b)[0] == a[0] && Last(a + b) == Last(b)
  {
  }

  /** `split(k)` for k <= 1: the two pieces of one bisection. */
  lemma SplitSegmentsOnce(segs: seq<Segment>, k: nat)
    requires k <= 1
    ensures SplitSegments(segs, k) == [Bisect(segs).0, Bisect(segs).1]
  {
  }

  /** `split(k)` for k > 1: the fragments of the first piece followed by those of the second. */
  lemma SplitSegmentsTwice(segs: seq<Segment>, k: nat)
    requires k > 1
    ensures SplitSegments(segs, k) == SplitSegments(Bisect(segs).0, k - 1) + SplitSegments(Bisect(segs).1, k - 1)
  {
  }

  /** `split(k)` yields 2^k fragments for k >= 1, and two (not one) for k = 0. */
  lemma {:induction false} SplitCount(segs: seq<Segment>, k: nat)
    ensures |SplitSegments(segs, k)| == if k == 0 then 2 else Pow2(k)
    decreases k
  {
    if k > 1 {
      SplitCount(Bisect(segs).0, k - 1);
      SplitCount(Bisect(segs).1, k - 1);
    }
  }

  /** An empty path gives only empty fragments; a non-empty one only non-empty fragments. */
  lemma {:induction false} SplitEmptiness(segs: seq<Segment>, k: nat)
    ensures forall f :: 0 <= f < |SplitSegments(segs, k)| ==> (SplitSegments(segs, k)[f] == [] <==> segs == [])
    decreases k
  {
    BisectCovers(segs);
    var pieces := Bisect(segs);
    assert pieces.0 == [] <==> segs == [];
    assert pieces.1 == [] <==> segs == [];
    if k > 1 {
      SplitEmptiness(pieces.0, k - 1);
      SplitEmptiness(pieces.1, k - 1);
      var left := SplitSegments(pieces.0, k - 1);
      var right := SplitSegments(pieces.1, k - 1);
      assert SplitSegments(segs, k) == left + right;
      forall f | 0 <= f < |left + right|
        ensures (left + right)[f] == [] <==> segs == []
      {
        if f < |left| { assert (left + right)[f] == left[f]; }
        else { assert (left + right)[f] == right[f - |left|]; }
      }
    }
  }

  /** Bisecting a non-empty list gives two non-empty pieces that keep the list's two ends. */
  lemma BisectEnds(segs: seq<Segment>)
    requires segs != []
    ensures Bisect(segs).0 != [] && Bisect(segs).1 != []
    ensures Start(Bisect(segs).0[0]) == Start(segs[0])
    ensures End(Last(Bisect(segs).1)) == End(Last(segs))
  {
    var n := |segs|;
    var i := n / 2;
    var pieces := Bisect(segs);
    if n % 2 == 1 {
      var h := Split(segs[i]);
      assert pieces.0 == segs[..i] + [h.0];
      assert pieces.1 == [h.1] + segs[i + 1..];
      if i == 0 {
        assert pieces.0[0] == h.0;
      } else {
        assert pieces.0[0] == segs[0];
      }
      assert Last(pieces.1) == if i + 1 < n then segs[n - 1] else h.1;
    } else {
      assert pieces.0[0] == segs[0];
      assert Last(pieces.1) == segs[n - 1];
    }
  }

  /** Bisecting a continuous, non-empty list gives two continuous pieces that meet. */
  lemma BisectContinuous(segs: seq<Segment>)
    requires segs != [] && Continuous(segs)
    ensures Bisect(segs).0 != [] && Bisect(segs).1 != []
    ensures Continuous(Bisect(segs).0) && Continuous(Bisect(segs).1)
    ensures End(Last(Bisect(segs).0)) == Start(Bisect(segs).1[0])
  {
    var n := |segs|;
    var i := n / 2;
    var pieces := Bisect(segs);
    if n % 2 == 1 {
      var h := Split(segs[i]);
      assert pieces.0 == segs[..i] + [h.0];
      assert pieces.1 == [h.1] + segs[i + 1..];
      forall p | 0 <= p < |pieces.0| - 1
        ensures End(pieces.0[p]) == Start(pieces.0[p + 1])
      {
        if p + 1 < i {
          assert pieces.0[p] == segs[p] && pieces.0[p + 1] == segs[p + 1];
        } else {
          assert pieces.0[p] == segs[p] && pieces.0[p + 1] == h.0;
        }
      }
      forall p | 0 <= p < |pieces.1| - 1
        ensures End(pieces.1[p]) == Start(pieces.1[p + 1])
      {
        if p == 0 {
          assert pieces.1[0] == h.1 && pieces.1[1] == segs[i + 1];
        } else {
          assert pieces.1[p] == segs[i + p] && pieces.1[p + 1] == segs[i + p + 1];
        }
      }
    } else {
      assert pieces.0 == segs[..i] && pieces.1 == segs[i..];
      assert forall p :: 0 <= p < |pieces.1| ==> pieces.1[p] == segs[i + p];
    }
  }

  /** Two chains join into one when the first ends where the second starts. */
  lemma ChainedAppend(a: seq<seq<Segment>>, b: seq<seq<Segment>>)
    requires Chained(a) && Chained(b) && a != [] && b != []
    requires End(Last(Last(a))) == Start(b[0][0])
    ensures Chained(a + b)
  {
    var c := a + b;
    forall f | 0 <= f < |c| - 1
      ensures End(Last(c[f])) == Start(c[f + 1][0])
    {
      if f < |a| - 1 {
        assert c[f] == a[f] && c[f + 1] == a[f + 1];
      } else if f == |a| - 1 {
        assert c[f] == a[f] && c[f + 1] == b[0];
      } else {
        assert c[f] == b[f - |a|] && c[f + 1] == b[f - |a| + 1];
      }
    }
  }

  /** The first fragment starts where the path starts and the last ends where it ends. */
  lemma {:induction false} SplitKeepsEnds(segs: seq<Segment>, k: nat)
    requires segs != []
    ensures var frags := SplitSegments(segs, k);
      && frags[0] != [] && Last(frags) != []
      && Start(frags[0][0]) == Start(segs[0])
      && End(Last(Last(frags))) == End(Last(segs))
    decreases k
  {
    BisectEnds(segs);
    var pieces := Bisect(segs);
    var frags := SplitSegments(segs, k);
    if k > 1 {
      var left := SplitSegments(pieces.0, k - 1);
      var right := SplitSegments(pieces.1, k - 1);
      SplitSegmentsTwice(segs, k);
      SplitKeepsEnds(pieces.0, k - 1);
      SplitKeepsEnds(pieces.1, k - 1);
      AppendEnds(left, right);
    } else {
      SplitSegmentsOnce(segs, k);
    }
  }

  /**
   * Coverage: the fragments of a continuous, non-empty path form one
   * continuous run from the path's start to its end; each fragment ends
   * exactly where the next one starts.
   */
  lemma {:induction false} SplitCoversPath(segs: seq<Segment>, k: nat)
    requires segs != [] && Continuous(segs)
    ensures var frags := SplitSegments(segs, k);
      && Chained(frags)
      && Start(frags[0][0]) == Start(segs[0])
      && End(Last(Last(frags))) == End(Last(segs))
    decreases k
  {
    BisectContinuous(segs);
    var pieces := Bisect(segs);
    var frags := SplitSegments(segs, k);
    if k > 1 {
      var left := SplitSegments(pieces.0, k - 1);
      var right := SplitSegments(pieces.1, k - 1);
      SplitSegmentsTwice(segs, k);
      SplitCoversPath(pieces.0, k - 1);
      SplitCoversPath(pieces.1, k - 1);
      ChainedAppend(left, right);
    } else {
      SplitSegmentsOnce(segs, k);
    }
    SplitKeepsEnds(segs, k);
  }

  /** A recording drawing context: the segment list `_` and the current point `_m`. */
  class Path {
    var segments: seq<Segment>
    var current: Option<Point>

    /** `new Path(_)`: starts from the given segment list (the empty list by default) with no current point. */
    constructor (init: seq<Segment>)
      ensures segments == init && current == None
    {
      segments := init;
      current := None;
    }

    /** The segments form a continuous run that ends at the current point, when there is one. */
    ghost predicate Valid()
      reads this
    {
      && Continuous(segments)
      && (segments != [] && current.Some? ==> End(Last(segments)) == current.value)
    }

    /** `moveTo(x, y)`: drops the recorded segments and sets the current point. */
    method MoveTo(x: real, y: real)
      modifies this
      ensures segments == [] && current == Some(Point(x, y))
      ensures Valid()
    {
      segments := [];
      current := Some(Point(x, y));
    }

    /** `lineTo(x, y)`: appends a line from the current point and moves the current point to its end. */
    method LineTo(x: real, y: real)
      requires current.Some?
      modifies this
      ensures segments == old(segments) + [Line(old(current.value), Point(x, y))]
      ensures current == Some(Point(x, y))
      ensures old(Valid()) ==> Valid()
    {
      segments := segments + [Line(current.value, Point(x, y))];
      current := Some(Point(x, y));
    }

    /** `bezierCurveTo(ax, ay, bx, by, x, y)` (here x1, y1, x2, y2, x, y): appends a cubic from the current point and moves the current point to its end. */
    method BezierCurveTo(x1: real, y1: real, x2: real, y2: real, x: real, y: real)
      requires current.Some?
      modifies this
      ensures segments == old(segments) + [BezierCurve(old(current.value), Point(x1, y1), Point(x2, y2), Point(x, y))]
      ensures current == Some(Point(x, y))
      ensures old(Valid()) ==> Valid()
    {
      segments := segments + [BezierCurve(current.value, Point(x1, y1), Point(x2, y2), Point(x, y))];
      current := Some(Point(x, y));
    }

    /**
     * `split(k)`: the generator's output, in order, as fresh paths with no
     * current point, as `new Path(segments)` makes them. This path is left as
     * it was (nothing here may be modified).
     */
    method Split(k: nat) returns (fragments: seq<Path>)
      ensures |fragments| == |SplitSegments(segments, k)|
      ensures forall f :: 0 <= f < |fragments| ==> fresh(fragments[f])
      ensures forall f :: 0 <= f < |fragments| ==> fragments[f].segments == SplitSegments(segments, k)[f]
      ensures forall f :: 0 <= f < |fragments| ==> fragments[f].current == None
      decreases k
    {
      ghost var pieces := Bisect(segments);
      ghost var expected := SplitSegments(segments, k);
      var n := |segments|;
      var i := n / 2;
      var j := (n + 1) / 2;
      var a := new Path(segments[..i]);
      var b := new Path(segments[j..]);
      if i != j {
        var halves := Curves.Split(segments[i]);
        a.segments := a.segments + [halves.0];
        b.segments := [halves.1] + b.segments;
      }
      assert a.segments == pieces.0 && b.segments == pieces.1;
      if k > 1 {
        var left := a.Split(k - 1);
        var right := b.Split(k - 1);
        ghost var leftSegments := SplitSegments(pieces.0, k - 1);
        ghost var rightSegments := SplitSegments(pieces.1, k - 1);
        SplitSegmentsTwice(segments, k);
        fragments := left + right;
        assert forall f :: 0 <= f < |fragments| ==> fragments[f] in left || fragments[f] in right;
        forall f | 0 <= f < |fragments|
          ensures fragments[f].segments == expected[f]
        {
          if f < |left| {
            assert fragments[f] == left[f] && expected[f] == leftSegments[f];
          } else {
            assert fragments[f] == right[f - |left|] && expected[f] == rightSegments[f - |left|];
          }
        }
      } else {
        SplitSegmentsOnce(segments, k);
        fragments := [a, b];
      }
    }
  }
}
