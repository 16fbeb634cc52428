/**
 * The polygon node editing helpers of the polygon tool
 * (src/tiled/editpolygontool.cpp): grouping the selected handles by object,
 * joining and splitting selected nodes, deleting nodes and deleting one
 * segment.
 *
 * Points are an opaque type P; averaging a run of points and taking the
 * midpoint of two are parameters, since only the structure of the result is
 * at stake here.  A polygon is the sequence of its points.
 */
module PolygonEditing {
  import opened RangeSets

  // ---------------------------------------------------------------------
  // The common shape of the edits: every selected range of points is
  // replaced by a piece, the points between ranges are kept.  The loops of
  // the tool walk a range list by index, back to front, so the edits are
  // stated on the ranges rs[i..j] of a list.

  /** What replaces one selected range. */
  datatype Edit<!P> =
    | Removed                                      // deleteNodes: nothing
    | Averaged(average: seq<P> -> P, shift: int)   // joinPolygonNodes: one point, read `shift` places lower
    | Split(midpoint: (P, P) -> P)                  // splitPolygonSegments: a midpoint between neighbours

  /** The ranges rs[i..j] in increasing order, all within [start, n). */
  ghost predicate Ordered(rs: seq<Range>, i: int, j: int, start: int, n: int)
    decreases j - i
  {
    i >= j || (0 <= i < |rs| && start <= rs[i].first <= rs[i].last < n && Ordered(rs, i + 1, j, rs[i].last + 1, n))
  }

  ghost predicate Rewritable<P>(base: seq<P>, rs: seq<Range>, i: int, j: int, start: int, edit: Edit<P>)
  {
    0 <= i <= j <= |rs| && 0 <= start <= |base| && Ordered(rs, i, j, start, |base|) &&
    (edit.Averaged? ==> 0 <= edit.shift <= start)
  }

  /** A start bound can always be lowered. */
  lemma OrderedLower(rs: seq<Range>, i: int, j: int, start: int, lower: int, n: int)
    requires Ordered(rs, i, j, start, n) && lower <= start
    ensures Ordered(rs, i, j, lower, n)
  {
  }

  /** The points of s with the midpoint of each neighbouring pair inserted between them. */
  function Interleave<P>(s: seq<P>, midpoint: (P, P) -> P): (r: seq<P>)
    ensures |r| == if s == [] then 0 else 2 * |s| - 1
  {
    if |s| <= 1 then s else [s[0], midpoint(s[1], s[0])] + Interleave(s[1..], midpoint)
  }

  /** Even positions hold the original points, odd positions the midpoints of their neighbours. */
  lemma {:induction false} InterleavePositions<P>(s: seq<P>, midpoint: (P, P) -> P, j: int)
    requires 0 <= j < |s|
    ensures Interleave(s, midpoint)[2 * j] == s[j]
    ensures j + 1 < |s| ==> Interleave(s, midpoint)[2 * j + 1] == midpoint(s[j + 1], s[j])
  {
    if j > 0 {
      InterleavePositions(s[1..], midpoint, j - 1);
    }
  }

  function Piece<P>(base: seq<P>, r: Range, edit: Edit<P>): (piece: seq<P>)
    requires 0 <= r.first <= r.last < |base|
    requires edit.Averaged? ==> 0 <= edit.shift <= r.first
    ensures |piece| == PieceSize(r, edit)
  {
    match edit
    case Removed => []
    case Averaged(average, shift) => [average(base[r.first - shift..r.last + 1 - shift])]
    case Split(midpoint) => Interleave(base[r.first..r.last + 1], midpoint)
  }

  function PieceSize<P>(r: Range, edit: Edit<P>): int
  {
    match edit
    case Removed => 0
    case Averaged(_, _) => 1
    case Split(_) => 2 * r.Length() - 1
  }

  /** The points of base from `start` on, with each of the ranges rs[i..j] replaced by its piece. */
  function Rewrite<P>(base: seq<P>, rs: seq<Range>, i: int, j: int, start: int, edit: Edit<P>): seq<P>
    requires Rewritable(base, rs, i, j, start, edit)
    decreases j - i
  {
    if i == j then base[start..]
    else
      base[start..rs[i].first] + Piece(base, rs[i], edit) + Rewrite(base, rs, i + 1, j, rs[i].last + 1, edit)
  }

  /** The number of selected points beyond the first of each range. */
  function Surplus(rs: seq<Range>): int
  {
    if rs == [] then 0 else (rs[0].last - rs[0].first) + Surplus(rs[1..])
  }

  /** How many points an edit adds (or, negative, removes). */
  function Growth<P>(rs: seq<Range>, edit: Edit<P>): int
  {
    match edit
    case Removed => -(Surplus(rs) + |rs|)
    case Averaged(_, _) => -Surplus(rs)
    case Split(_) => Surplus(rs)
  }

  lemma {:induction false} SurplusZero(rs: seq<Range>)
    requires forall i :: 0 <= i < |rs| ==> rs[i].first <= rs[i].last
    ensures Surplus(rs) >= 0
    ensures Surplus(rs) == 0 <==> forall i :: 0 <= i < |rs| ==> rs[i].first == rs[i].last
  {
    if rs != [] {
      assert forall i :: 0 <= i < |rs| - 1 ==> rs[1..][i] == rs[i + 1];
      SurplusZero(rs[1..]);
      if Surplus(rs) == 0 {
        forall i | 0 <= i < |rs| ensures rs[i].first == rs[i].last {
          if i > 0 {
            assert rs[1..][i - 1] == rs[i];
          }
        }
      }
    }
  }

  lemma {:induction false} RewriteSize<P>(base: seq<P>, rs: seq<Range>, i: int, j: int, start: int, edit: Edit<P>)
    decreases j - i
    requires Rewritable(base, rs, i, j, start, edit)
    ensures |Rewrite(base, rs, i, j, start, edit)| == |base| - start + Growth(rs[i..j], edit)
  {
    if i < j {
      RewriteSize(base, rs, i + 1, j, rs[i].last + 1, edit);
      assert rs[i..j][0] == rs[i] && rs[i..j][1..] == rs[i + 1..j];
    }
  }

  /** Rewriting a whole range set adds its growth to the polygon's size. */
  lemma RewriteAllSize<P>(base: seq<P>, rs: seq<Range>, edit: Edit<P>)
    requires Valid(rs) && Within(rs, |base|) && (edit.Averaged? ==> edit.shift == 0)
    ensures Rewritable(base, rs, 0, |rs|, 0, edit)
    ensures |Rewrite(base, rs, 0, |rs|, 0, edit)| == |base| + Growth(rs, edit)
  {
    OrderedSlice(rs, 0, |rs|, 0, |base|);
    RewriteSize(base, rs, 0, |rs|, 0, edit);
    assert rs[0..|rs|] == rs;
  }

  lemma ConcatAssoc<P>(a: seq<P>, b: seq<P>, c: seq<P>)
    ensures (a + b) + c == a + (b + c)
  {
  }

  lemma SliceSplit<P>(s: seq<P>, a: int, b: int, c: int)
    requires 0 <= a <= b <= c <= |s|
    ensures s[a..c] == s[a..b] + s[b..c]
  {
  }

  /** Unselected points before the first range can be split off the front. */
  lemma RewritePrefix<P>(base: seq<P>, rs: seq<Range>, i: int, j: int, start: int, mid: int, edit: Edit<P>)
    requires Rewritable(base, rs, i, j, start, edit) && start <= mid && Rewritable(base, rs, i, j, mid, edit)
    ensures Rewrite(base, rs, i, j, start, edit) == base[start..mid] + Rewrite(base, rs, i, j, mid, edit)
  {
    if i == j {
      SliceSplit(base, start, mid, |base|);
    } else {
      RewritePrefixCons(base, rs, i, j, start, mid, edit);
    }
  }

  lemma RewritePrefixCons<P>(base: seq<P>, rs: seq<Range>, i: int, j: int, start: int, mid: int, edit: Edit<P>)
    requires Rewritable(base, rs, i, j, start, edit) && start <= mid && Rewritable(base, rs, i, j, mid, edit) && i < j
    ensures Rewrite(base, rs, i, j, start, edit) == base[start..mid] + Rewrite(base, rs, i, j, mid, edit)
  {
    var r := rs[i];
    var piece, rest := Piece(base, r, edit), Rewrite(base, rs, i + 1, j, r.last + 1, edit);
    var a, b, c := base[start..r.first], base[start..mid], base[mid..r.first];
    assert Rewrite(base, rs, i, j, start, edit) == a + (piece + rest) by { ConcatAssoc(a, piece, rest); }
    assert Rewrite(base, rs, i, j, mid, edit) == c + (piece + rest) by { ConcatAssoc(c, piece, rest); }
    assert a == b + c by { SliceSplit(base, start, mid, r.first); }
    ConcatAssoc(b, c, piece + rest);
  }

  /**
   * One pass of the back-to-front loops, on the range before `next`: before
   * it is handled the points up to its end are untouched; afterwards the
   * range is its piece.
   */
  lemma RewriteStep<P>(base: seq<P>, rs: seq<Range>, next: int, j: int, start: int, edit: Edit<P>)
    requires Rewritable(base, rs, next - 1, j, start, edit) && next <= j
    ensures Rewritable(base, rs, next, j, start, edit) && Rewritable(base, rs, next, j, rs[next - 1].last + 1, edit)
    ensures 0 <= start <= rs[next - 1].first <= rs[next - 1].last < |base|
    ensures Rewrite(base, rs, next, j, start, edit) ==
      base[start..rs[next - 1].last + 1] + Rewrite(base, rs, next, j, rs[next - 1].last + 1, edit)
    ensures Rewrite(base, rs, next - 1, j, start, edit) ==
      base[start..rs[next - 1].first] + Piece(base, rs[next - 1], edit) + Rewrite(base, rs, next, j, rs[next - 1].last + 1, edit)
  {
    OrderedLower(rs, next, j, rs[next - 1].last + 1, start, |base|);
    RewritePrefix(base, rs, next, j, start, rs[next - 1].last + 1, edit);
  }

  /** The ranges a..b of a range set are ordered from any start at or below the first of them. */
  lemma {:induction false} OrderedSlice(rs: seq<Range>, a: int, b: int, start: int, n: int)
    decreases b - a
    requires Valid(rs) && 0 <= a <= b <= |rs|
    requires a < b ==> start <= rs[a].first && rs[b - 1].last < n
    ensures Ordered(rs, a, b, start, n)
  {
    if a + 1 < b {
      assert rs[a].last + 1 < rs[a + 1].first;
      assert rs[a].last + 1 < rs[b - 1].first;
      OrderedSlice(rs, a + 1, b, rs[a].last + 1, n);
    }
  }

  /** Ordered ranges stay ordered, from the same start, when the first few are dropped. */
  lemma {:induction false} OrderedSuffix(rs: seq<Range>, a: int, k: int, j: int, start: int, n: int)
    decreases k - a
    requires Ordered(rs, a, j, start, n) && a <= k <= j
    ensures Ordered(rs, k, j, start, n)
  {
    if a < k {
      OrderedSuffix(rs, a + 1, k, j, rs[a].last + 1, n);
      OrderedLower(rs, k, j, rs[a].last + 1, start, n);
    }
  }

  // ---------------------------------------------------------------------
  // groupIndexesByObject

  /** A selected node: the map object it belongs to and its point index. */
  datatype Handle = Handle(mapObject: int, pointIndex: int)

  /** groupIndexesByObject: the selected point indexes of every object, as range sets. */
  method GroupIndexesByObject(handles: seq<Handle>) returns (result: map<int, seq<Range>>)
    ensures forall o :: o in result <==> exists x :: Handle(o, x) in handles
    ensures forall o :: o in result ==> Valid(result[o])
    ensures forall o, x :: o in result ==> (Contains(result[o], x) <==> Handle(o, x) in handles)
  {
    result := map[];
    for i := 0 to |handles|
      invariant forall o :: o in result <==> exists x :: Handle(o, x) in handles[..i]
      invariant forall o :: o in result ==> Valid(result[o])
      invariant forall o, x :: o in result ==> (Contains(result[o], x) <==> Handle(o, x) in handles[..i])
    {
      assert handles[..i + 1] == handles[..i] + [handles[i]];
      var handle := handles[i];
      var pointIndexes := if handle.mapObject in result then result[handle.mapObject] else [];
      result := result[handle.mapObject := Insert(pointIndexes, handle.pointIndex)];
      assert handle == Handle(handle.mapObject, handle.pointIndex);
    }
    assert handles[..|handles|] == handles;
  }

  // ---------------------------------------------------------------------
  // deleteNodes

  /** The points not selected, in their original order: a reference for node removal. */
  function Unselected<P>(base: seq<P>, rs: seq<Range>, from: int): seq<P>
    requires 0 <= from <= |base|
    decreases |base| - from
  {
    if from == |base| then []
    else (if Contains(rs, from) then [] else [base[from]]) + Unselected(base, rs, from + 1)
  }

  lemma {:induction false} UnselectedRun<P>(base: seq<P>, rs: seq<Range>, from: int, to: int)
    decreases to - from
    requires 0 <= from <= to <= |base| && forall i :: from <= i < to ==> !Contains(rs, i)
    ensures Unselected(base, rs, from) == base[from..to] + Unselected(base, rs, to)
  {
    if from < to {
      var rest := Unselected(base, rs, to);
      assert Unselected(base, rs, from) == [base[from]] + (base[from + 1..to] + rest) by {
        UnselectedRun(base, rs, from + 1, to);
      }
      assert base[from..to] == [base[from]] + base[from + 1..to];
      ConcatAssoc([base[from]], base[from + 1..to], rest);
    }
  }

  lemma {:induction false} UnselectedSkip<P>(base: seq<P>, rs: seq<Range>, from: int, to: int)
    decreases to - from
    requires 0 <= from <= to <= |base| && forall i :: from <= i < to ==> Contains(rs, i)
    ensures Unselected(base, rs, from) == Unselected(base, rs, to)
  {
    if from < to {
      UnselectedSkip(base, rs, from + 1, to);
    }
  }

  lemma {:induction false} UnselectedSame<P>(base: seq<P>, a: seq<Range>, b: seq<Range>, from: int)
    decreases |base| - from
    requires 0 <= from <= |base| && forall i :: from <= i < |base| ==> (Contains(a, i) <==> Contains(b, i))
    ensures Unselected(base, a, from) == Unselected(base, b, from)
  {
    if from < |base| {
      UnselectedSame(base, a, b, from + 1);
    }
  }

  /** No index below the start bound of ordered ranges is contained in them. */
  lemma {:induction false} OrderedExcludes(rs: seq<Range>, i: int, start: int, n: int, x: int)
    decreases |rs| - i
    requires 0 <= i <= |rs| && Ordered(rs, i, |rs|, start, n) && x < start
    ensures !Contains(rs[i..], x)
  {
    if i < |rs| {
      OrderedExcludes(rs, i + 1, rs[i].last + 1, n, x);
      assert rs[i..][0] == rs[i] && rs[i..][1..] == rs[i + 1..];
    }
  }

  /** Removing the ranges keeps exactly the points whose index is not selected, in order. */
  lemma {:induction false} RemovedIsUnselected<P>(base: seq<P>, rs: seq<Range>, i: int, start: int)
    decreases |rs| - i
    requires Rewritable(base, rs, i, |rs|, start, Removed)
    ensures Rewrite(base, rs, i, |rs|, start, Removed) == Unselected(base, rs[i..], start)
  {
    if i == |rs| {
      UnselectedRun(base, rs[i..], start, |base|);
      assert base[start..|base|] == base[start..];
    } else {
      RemovedIsUnselected(base, rs, i + 1, rs[i].last + 1);
      RemovedIsUnselectedCons(base, rs, i, start);
    }
  }

  /** The step of RemovedIsUnselected: the first range is cut out in front of the rest. */
  lemma RemovedIsUnselectedCons<P>(base: seq<P>, rs: seq<Range>, i: int, start: int)
    requires Rewritable(base, rs, i, |rs|, start, Removed) && i < |rs|
    requires Rewritable(base, rs, i + 1, |rs|, rs[i].last + 1, Removed)
    requires Rewrite(base, rs, i + 1, |rs|, rs[i].last + 1, Removed) == Unselected(base, rs[i + 1..], rs[i].last + 1)
    ensures Rewrite(base, rs, i, |rs|, start, Removed) == Unselected(base, rs[i..], start)
  {
    var r := rs[i];
    var tail := Unselected(base, rs[i + 1..], r.last + 1);
    assert rs[i..][0] == r && rs[i..][1..] == rs[i + 1..];
    assert Rewrite(base, rs, i, |rs|, start, Removed) == base[start..r.first] + tail;
    assert Unselected(base, rs[i..], start) == base[start..r.first] + Unselected(base, rs[i..], r.first) by {
      forall x | start <= x < r.first ensures !Contains(rs[i..], x) {
        OrderedExcludes(rs, i + 1, r.last + 1, |base|, x);
      }
      UnselectedRun(base, rs[i..], start, r.first);
    }
    assert Unselected(base, rs[i..], r.first) == tail by {
      UnselectedSkip(base, rs[i..], r.first, r.last + 1);
      UnselectedSame(base, rs[i..], rs[i + 1..], r.last + 1);
    }
  }

  /** What deleteNodes pushes for one object. */
  datatype NodeDeletion<P> = RemoveObject | ChangePolygon(newPolygon: seq<P>)

  /**
   * The node removal of deleteNodes: the selected ranges are removed back to
   * front; with fewer than two points left the object is removed instead.
   */
  method DeleteNodes<P>(polygon: seq<P>, indexRanges: seq<Range>) returns (outcome: NodeDeletion<P>)
    requires indexRanges != [] && Valid(indexRanges) && Within(indexRanges, |polygon|)
    ensures var remaining := Unselected(polygon, indexRanges, 0);
      outcome == if |remaining| < 2 then RemoveObject else ChangePolygon(remaining)
  {
    OrderedSlice(indexRanges, 0, |indexRanges|, 0, |polygon|);
    assert polygon[0..] == polygon;
    var newPolygon := polygon;
    var it := |indexRanges|;
    while it != 0
      invariant 0 <= it <= |indexRanges|
      invariant Rewritable(polygon, indexRanges, it, |indexRanges|, 0, Removed)
      invariant newPolygon == Rewrite(polygon, indexRanges, it, |indexRanges|, 0, Removed)
    {
      newPolygon := RemoveRange(polygon, indexRanges, it, newPolygon);
      it := it - 1;
    }
    RemovedIsUnselected(polygon, indexRanges, 0, 0);
    assert indexRanges[0..] == indexRanges;
    if |newPolygon| < 2 {
      outcome := RemoveObject;
    } else {
      outcome := ChangePolygon(newPolygon);
    }
  }

  /** One pass of the loop of deleteNodes: the points of the range before `next` are removed. */
  method RemoveRange<P>(polygon: seq<P>, indexRanges: seq<Range>, next: int, points: seq<P>) returns (result: seq<P>)
    requires Rewritable(polygon, indexRanges, 0, |indexRanges|, 0, Removed) && 0 < next
    requires Rewritable(polygon, indexRanges, next, |indexRanges|, 0, Removed)
    requires points == Rewrite(polygon, indexRanges, next, |indexRanges|, 0, Removed)
    ensures Rewritable(polygon, indexRanges, next - 1, |indexRanges|, 0, Removed)
    ensures result == Rewrite(polygon, indexRanges, next - 1, |indexRanges|, 0, Removed)
  {
    RemovePass(polygon, indexRanges, next, points);
    var r := indexRanges[next - 1];
    result := points[..r.first] + points[r.first + r.Length()..];
  }

  /** The proof of RemoveRange: the range before `next` is cut out. */
  lemma RemovePass<P>(polygon: seq<P>, ranges: seq<Range>, next: int, points: seq<P>)
    requires Rewritable(polygon, ranges, 0, |ranges|, 0, Removed) && 0 < next
    requires Rewritable(polygon, ranges, next, |ranges|, 0, Removed)
    requires points == Rewrite(polygon, ranges, next, |ranges|, 0, Removed)
    ensures Rewritable(polygon, ranges, next - 1, |ranges|, 0, Removed)
    ensures var r := ranges[next - 1];
      0 <= r.first <= r.first + r.Length() <= |points| &&
      points[..r.first] + points[r.first + r.Length()..] == Rewrite(polygon, ranges, next - 1, |ranges|, 0, Removed)
  {
    var r := ranges[next - 1];
    OrderedSuffix(ranges, 0, next - 1, |ranges|, 0, |polygon|);
    RewriteStep(polygon, ranges, next, |ranges|, 0, Removed);
    var tail := Rewrite(polygon, ranges, next, |ranges|, r.last + 1, Removed);
    assert points == polygon[..r.first] + polygon[r.first..r.last + 1] + tail by {
      assert polygon[0..r.last + 1] == polygon[..r.first] + polygon[r.first..r.last + 1];
    }
    assert points[..r.first] == polygon[..r.first];
    assert points[r.first + r.Length()..] == tail;
    assert Rewrite(polygon, ranges, next - 1, |ranges|, 0, Removed) == polygon[..r.first] + tail by {
      assert polygon[0..r.first] == polygon[..r.first];
    }
  }

  /** Every selected point is gone: the remaining polygon has n minus the selection size points. */
  lemma DeletedNodesSize<P>(polygon: seq<P>, indexRanges: seq<Range>)
    requires Valid(indexRanges) && Within(indexRanges, |polygon|)
    ensures |Unselected(polygon, indexRanges, 0)| == |polygon| - Surplus(indexRanges) - |indexRanges|
  {
    RewriteAllSize(polygon, indexRanges, Removed);
    RemovedIsUnselected(polygon, indexRanges, 0, 0);
    assert indexRanges[0..] == indexRanges;
  }

  // ---------------------------------------------------------------------
  // joinPolygonNodes

  /** The first range starts at index 0 and the last one ends at the last index. */
  predicate SpansEnds(rs: seq<Range>, n: int)
  {
    rs != [] && rs[0].first == 0 && rs[|rs| - 1].last == n - 1
  }

  /**
   * A closed polygon whose first and last ranges meet across the closing
   * segment: both become one point at index 0, the average of their points,
   * and every other range is averaged in place, with its points read `shift`
   * places lower.
   */
  function WrapJoined<P>(polygon: seq<P>, ranges: seq<Range>, average: seq<P> -> P, shift: int): seq<P>
    requires Valid(ranges) && Within(ranges, |polygon|) && |ranges| >= 2
    requires 0 <= shift <= ranges[0].last + 1
  {
    var f, l := ranges[0], ranges[|ranges| - 1];
    OrderedSlice(ranges, 1, |ranges| - 1, f.last + 1, l.first);
    [average(polygon[f.first..f.last + 1] + polygon[l.first..l.last + 1])] +
      Rewrite(polygon[..l.first], ranges, 1, |ranges| - 1, f.last + 1, Averaged(average, shift))
  }

  /**
   * joinPolygonNodes: every range of consecutive selected nodes becomes one
   * point at their average; nothing changes without ranges, with fewer than
   * three points, or when one range spans the whole polygon.
   */
  function Joined<P>(polygon: seq<P>, ranges: seq<Range>, closed: bool, average: seq<P> -> P): seq<P>
    requires Valid(ranges) && Within(ranges, |polygon|)
  {
    var n := |polygon|;
    if ranges == [] || n < 3 then polygon
    else if SpansEnds(ranges, n) && |ranges| == 1 then polygon
    else if SpansEnds(ranges, n) && closed then WrapJoined(polygon, ranges, average, 0)
    else
      OrderedSlice(ranges, 0, |ranges|, 0, n);
      Rewrite(polygon, ranges, 0, |ranges|, 0, Averaged(average, 0))
  }

  /**
   * joinPolygonNodes as written: in the wrap-around case the later ranges
   * average `polygon.at(i - indexOffset)`, points of the original polygon at
   * an index shifted by the first range's length minus one.
   */
  function JoinedAsWritten<P>(polygon: seq<P>, ranges: seq<Range>, closed: bool, average: seq<P> -> P): seq<P>
    requires Valid(ranges) && Within(ranges, |polygon|)
  {
    var n := |polygon|;
    if ranges == [] || n < 3 then polygon
    else if SpansEnds(ranges, n) && |ranges| == 1 then polygon
    else if SpansEnds(ranges, n) && closed then WrapJoined(polygon, ranges, average, ranges[0].Length() - 1)
    else
      OrderedSlice(ranges, 0, |ranges|, 0, n);
      Rewrite(polygon, ranges, 0, |ranges|, 0, Averaged(average, 0))
  }

  /** joinPolygonNodes, with the later ranges averaging the points they select. */
  method JoinPolygonNodes<P>(polygon: seq<P>, indexRanges: seq<Range>, closed: bool, average: seq<P> -> P) returns (result: seq<P>)
    requires Valid(indexRanges) && Within(indexRanges, |polygon|)
    ensures result == Joined(polygon, indexRanges, closed, average)
  {
    if indexRanges == [] {
      return polygon;
    }
    var n := |polygon|;
    if n < 3 {
      return polygon;
    }
    var firstRange := 0;
    var it := |indexRanges|;
    var lastRange := it - 1;
    result := polygon;
    var indexOffset := 0;

    if indexRanges[firstRange].first == 0 && indexRanges[lastRange].last == n - 1 {
      if firstRange == lastRange {
        return polygon;
      }
      if closed {
        var f, l := indexRanges[firstRange], indexRanges[lastRange];
        var averagePoint := average(polygon[f.first..f.last + 1] + polygon[l.first..l.last + 1]);
        JoinedWrapCase(polygon, indexRanges, closed, average, f, l, firstRange + 1, it - 1);
        result := result[..l.first] + result[l.first + l.Length()..];
        result := result[..1] + result[1 + (f.Length() - 1)..];
        result := result[0 := averagePoint];
        indexOffset := f.Length() - 1;
        firstRange := firstRange + 1;
        it := it - 1;
        result := JoinRanges(polygon, indexRanges, firstRange, it, indexOffset, average, result, [averagePoint], l.first, f.last + 1);
        return;
      }
    }
    JoinedPlainCase(polygon, indexRanges, closed, average);
    result := JoinRanges(polygon, indexRanges, firstRange, it, indexOffset, average, result, [], n, 0);
  }

  /** Where the loop of joinPolygonNodes starts, and what it must produce, without the wrap-around join. */
  lemma JoinedPlainCase<P>(polygon: seq<P>, ranges: seq<Range>, closed: bool, average: seq<P> -> P)
    requires Valid(ranges) && Within(ranges, |polygon|) && ranges != [] && |polygon| >= 3
    requires !(SpansEnds(ranges, |polygon|) && (|ranges| == 1 || closed))
    ensures Rewritable(polygon[..|polygon|], ranges, 0, |ranges|, 0, Averaged(average, 0))
    ensures polygon == [] + polygon[..|polygon|][0..]
    ensures Joined(polygon, ranges, closed, average) == [] + Rewrite(polygon[..|polygon|], ranges, 0, |ranges|, 0, Averaged(average, 0))
  {
    OrderedSlice(ranges, 0, |ranges|, 0, |polygon|);
    assert polygon[..|polygon|] == polygon;
  }

  /**
   * Where the loop of joinPolygonNodes starts after the wrap-around join, and
   * what it must produce: the three edits of the first and last range leave
   * their average followed by the points between them.
   */
  lemma JoinedWrapCase<P>(polygon: seq<P>, ranges: seq<Range>, closed: bool, average: seq<P> -> P, f: Range, l: Range, first: int, end: int)
    requires Valid(ranges) && Within(ranges, |polygon|) && |ranges| >= 2 && |polygon| >= 3
    requires SpansEnds(ranges, |polygon|) && closed
    requires f == ranges[0] && l == ranges[|ranges| - 1] && first == 1 && end == |ranges| - 1
    ensures var p := average(polygon[f.first..f.last + 1] + polygon[l.first..l.last + 1]);
      var r1 := polygon[..l.first] + polygon[l.first + l.Length()..];
      var r2 := r1[..1] + r1[1 + (f.Length() - 1)..];
      0 <= l.first <= |polygon| && l.first + l.Length() <= |polygon| && 1 <= 1 + (f.Length() - 1) <= |r1| &&
      r2[0 := p] == [p] + polygon[..l.first][f.last + 1..] &&
      0 <= f.Length() - 1 <= f.last + 1 && |[p]| == f.last + 1 - (f.Length() - 1) &&
      Rewritable(polygon[..l.first], ranges, first, end, f.last + 1, Averaged(average, 0)) &&
      Joined(polygon, ranges, closed, average) == [p] + Rewrite(polygon[..l.first], ranges, first, end, f.last + 1, Averaged(average, 0))
  {
    var f, l := ranges[0], ranges[|ranges| - 1];
    assert f.last + 1 < l.first;
    OrderedSlice(ranges, 1, |ranges| - 1, f.last + 1, l.first);
    var r1 := polygon[..l.first] + polygon[l.first + l.Length()..];
    assert r1 == polygon[..l.first];
    var r2 := r1[..1] + r1[1 + (f.Length() - 1)..];
    assert r2 == polygon[..1] + polygon[..l.first][f.last + 1..];
  }

  /**
   * The loop of joinPolygonNodes over the ranges firstRange..end, back to
   * front: each one collapses to the average of its points, at indexOffset
   * places lower in `result`.
   */
  method JoinRanges<P>(polygon: seq<P>, indexRanges: seq<Range>, firstRange: int, end: int, indexOffset: int,
                       average: seq<P> -> P, points: seq<P>, ghost head: seq<P>, ghost bound: int, ghost start: int)
    returns (result: seq<P>)
    requires 0 <= bound <= |polygon|
    requires Rewritable(polygon[..bound], indexRanges, firstRange, end, start, Averaged(average, 0))
    requires |head| == start - indexOffset && 0 <= indexOffset <= start
    requires points == head + polygon[..bound][start..]
    ensures result == head + Rewrite(polygon[..bound], indexRanges, firstRange, end, start, Averaged(average, 0))
  {
    result := points;
    var it := end;
    while it != firstRange
      invariant firstRange <= it <= end
      invariant Rewritable(polygon[..bound], indexRanges, it, end, start, Averaged(average, 0))
      invariant result == head + Rewrite(polygon[..bound], indexRanges, it, end, start, Averaged(average, 0))
    {
      OrderedSuffix(indexRanges, firstRange, it - 1, end, start, |polygon[..bound]|);
      result := JoinRange(polygon, bound, indexRanges, it, end, start, average, head, result, indexOffset);
      it := it - 1;
    }
  }

  /**
   * One pass of the joining loop: the points of the range before `next` are
   * replaced by their average, `indexOffset` places lower.
   */
  method JoinRange<P>(polygon: seq<P>, ghost bound: int, indexRanges: seq<Range>, next: int, end: int, ghost start: int,
                      average: seq<P> -> P, ghost head: seq<P>, points: seq<P>, indexOffset: int)
    returns (result: seq<P>)
    requires 0 <= bound <= |polygon| && 0 < next <= |indexRanges|
    requires Rewritable(polygon[..bound], indexRanges, next - 1, end, start, Averaged(average, 0))
    requires Rewritable(polygon[..bound], indexRanges, next, end, start, Averaged(average, 0))
    requires points == head + Rewrite(polygon[..bound], indexRanges, next, end, start, Averaged(average, 0))
    requires |head| == start - indexOffset && 0 <= indexOffset <= start
    ensures result == head + Rewrite(polygon[..bound], indexRanges, next - 1, end, start, Averaged(average, 0))
  {
    var r := indexRanges[next - 1];
    JoinPass(polygon, bound, indexRanges, next, end, start, average, head, points, indexOffset, r);
    var averagePoint := average(polygon[r.first..r.last + 1]);
    result := points[..r.first + 1 - indexOffset] + points[r.first + 1 - indexOffset + (r.Length() - 1)..];
    result := result[r.first - indexOffset := averagePoint];
  }

  /**
   * One pass of the joining loop: the range before `next`, still unchanged
   * in `result` at `indexOffset` places lower, collapses to its average.
   */
  lemma JoinPass<P>(polygon: seq<P>, bound: int, indexRanges: seq<Range>, next: int, end: int, start: int,
                    average: seq<P> -> P, head: seq<P>, result: seq<P>, indexOffset: int, r: Range)
    requires 0 <= bound <= |polygon| && 0 < next <= |indexRanges| && r == indexRanges[next - 1]
    requires Rewritable(polygon[..bound], indexRanges, next - 1, end, start, Averaged(average, 0))
    requires Rewritable(polygon[..bound], indexRanges, next, end, start, Averaged(average, 0))
    requires result == head + Rewrite(polygon[..bound], indexRanges, next, end, start, Averaged(average, 0))
    requires |head| == start - indexOffset && 0 <= indexOffset <= start
    ensures 0 <= r.first - indexOffset && 0 <= r.first <= r.last < |polygon|
    ensures r.first + 1 - indexOffset + (r.Length() - 1) <= |result|
    ensures (result[..r.first + 1 - indexOffset] + result[r.first + 1 - indexOffset + (r.Length() - 1)..])[r.first - indexOffset := average(polygon[r.first..r.last + 1])] ==
      head + Rewrite(polygon[..bound], indexRanges, next - 1, end, start, Averaged(average, 0))
  {
    var base := polygon[..bound];
    var edit := Averaged(average, 0);
    RewriteStep(base, indexRanges, next, end, start, edit);
    var p := average(polygon[r.first..r.last + 1]);
    var tail := Rewrite(base, indexRanges, next, end, r.last + 1, edit);
    assert Rewrite(base, indexRanges, next - 1, end, start, edit) == base[start..r.first] + [p] + tail by {
      assert base[r.first..r.last + 1] == polygon[r.first..r.last + 1];
      assert Piece(base, r, edit) == [p];
    }
    ReplaceRunIn(base, start, r, head, tail, result, p, indexOffset);
  }

  /** ReplaceRun on a result that holds the points of base from start to the end of r between head and tail. */
  lemma ReplaceRunIn<P>(base: seq<P>, start: int, r: Range, head: seq<P>, tail: seq<P>, result: seq<P>, p: P, indexOffset: int)
    requires 0 <= start <= r.first <= r.last < |base|
    requires |head| == start - indexOffset && 0 <= indexOffset
    requires result == head + (base[start..r.last + 1] + tail)
    ensures var k := r.first - indexOffset;
      0 <= k && k + r.Length() <= |result| &&
      (result[..k + 1] + result[k + 1 + (r.Length() - 1)..])[k := p] == head + (base[start..r.first] + [p] + tail)
  {
    var kept, run := base[start..r.first], base[r.first..r.last + 1];
    assert result == head + (kept + run) + tail by {
      SliceSplit(base, start, r.first, r.last + 1);
      ConcatAssoc(head, kept + run, tail);
    }
    ReplaceRun(head, kept, run, tail, p);
    ConcatAssoc(head, kept + [p], tail);
  }

  /** Removing all but the first point of a run and replacing that one: the run becomes one point. */
  lemma ReplaceRun<P>(head: seq<P>, kept: seq<P>, run: seq<P>, tail: seq<P>, p: P)
    requires run != []
    ensures var before := head + (kept + run) + tail;
      var k := |head| + |kept|;
      (before[..k + 1] + before[k + |run|..])[k := p] == head + (kept + [p]) + tail
  {
    var before := head + (kept + run) + tail;
    var k := |head| + |kept|;
    assert before[..k + 1] == head + kept + [run[0]];
    assert before[k + |run|..] == tail;
  }

  /** Joining collapses every range to one point, and the two wrap-around ranges together to one. */
  lemma JoinedSize<P>(polygon: seq<P>, ranges: seq<Range>, closed: bool, average: seq<P> -> P)
    requires Valid(ranges) && Within(ranges, |polygon|)
    ensures var n := |polygon|;
      |Joined(polygon, ranges, closed, average)| ==
        if ranges == [] || n < 3 || (SpansEnds(ranges, n) && |ranges| == 1) then n
        else if SpansEnds(ranges, n) && closed then n - Surplus(ranges) - 1
        else n - Surplus(ranges)
  {
    var n := |polygon|;
    if ranges == [] || n < 3 || (SpansEnds(ranges, n) && |ranges| == 1) {
    } else if SpansEnds(ranges, n) && closed {
      WrapJoinedSize(polygon, ranges, average, 0);
    } else {
      RewriteAllSize(polygon, ranges, Averaged(average, 0));
    }
  }

  /** The wrap-around join loses the surplus of every range and one more point. */
  lemma WrapJoinedSize<P>(polygon: seq<P>, ranges: seq<Range>, average: seq<P> -> P, shift: int)
    requires Valid(ranges) && Within(ranges, |polygon|) && |ranges| >= 2
    requires 0 <= shift <= ranges[0].last + 1 && SpansEnds(ranges, |polygon|)
    ensures |WrapJoined(polygon, ranges, average, shift)| == |polygon| - Surplus(ranges) - 1
  {
    var m := |ranges|;
    var f, l := ranges[0], ranges[m - 1];
    OrderedSlice(ranges, 1, m - 1, f.last + 1, l.first);
    RewriteSize(polygon[..l.first], ranges, 1, m - 1, f.last + 1, Averaged(average, shift));
    SurplusSplit(ranges);
  }

  /** The surplus of a range list is that of its first, its middle and its last range. */
  lemma SurplusSplit(rs: seq<Range>)
    requires |rs| >= 2
    ensures Surplus(rs) == (rs[0].last - rs[0].first) + Surplus(rs[1..|rs| - 1]) + (rs[|rs| - 1].last - rs[|rs| - 1].first)
  {
    var mid, l := rs[1..|rs| - 1], rs[|rs| - 1];
    assert rs[1..] == mid + [l];
    assert Surplus(rs) == (rs[0].last - rs[0].first) + Surplus(mid + [l]);
    SurplusAppend(mid, l);
  }

  lemma {:induction false} SurplusAppend(rs: seq<Range>, r: Range)
    ensures Surplus(rs + [r]) == Surplus(rs) + (r.last - r.first)
  {
    if rs != [] {
      assert (rs + [r])[1..] == rs[1..] + [r];
      SurplusAppend(rs[1..], r);
    }
  }

  /**
   * joinNodes records a change exactly when the join removes a point: when
   * some range holds two or more nodes or the wrap-around ranges are merged.
   */
  lemma JoinRecordsChange<P>(polygon: seq<P>, ranges: seq<Range>, closed: bool, average: seq<P> -> P)
    requires Valid(ranges) && Within(ranges, |polygon|)
    ensures var n := |polygon|;
      |Joined(polygon, ranges, closed, average)| < n <==>
        ranges != [] && n >= 3 && !(SpansEnds(ranges, n) && |ranges| == 1) &&
        ((SpansEnds(ranges, n) && closed) || exists i :: 0 <= i < |ranges| && ranges[i].first < ranges[i].last)
  {
    JoinedSize(polygon, ranges, closed, average);
    SurplusZero(ranges);
  }

  /**
   * The discrepancy of line 749: on the closed polygon 0, 10, ..., 60 with
   * nodes {0, 1}, {3, 4} and {6} selected, the middle range should become the
   * average 35 of points 30 and 40, but as written it averages 20 and 30.
   */
  lemma JoinAsWrittenReadsShiftedPoints()
    ensures var polygon := [0, 10, 20, 30, 40, 50, 60];
      var ranges := [Range(0, 1), Range(3, 4), Range(6, 6)];
      Valid(ranges) && Within(ranges, |polygon|) &&
      JoinedAsWritten(polygon, ranges, true, IntAverage) == [23, 20, 25, 50] &&
      Joined(polygon, ranges, true, IntAverage) == [23, 20, 35, 50]
  {
    var polygon := [0, 10, 20, 30, 40, 50, 60];
    var ranges := [Range(0, 1), Range(3, 4), Range(6, 6)];
    assert Valid(ranges) && Within(ranges, |polygon|);
    var base := polygon[..6];
    assert base == [0, 10, 20, 30, 40, 50];
    OrderedSlice(ranges, 1, 2, 2, 6);
    var joined := IntAverage(polygon[0..2] + polygon[6..7]);
    assert joined == 23 by {
      assert polygon[0..2] + polygon[6..7] == [0, 10, 60];
      assert IntAverage([0, 10, 60]) == 23;
    }
    assert WrapJoined(polygon, ranges, IntAverage, 1) == [23, 20, 25, 50] by {
      assert Rewrite(base, ranges, 1, 2, 2, Averaged(IntAverage, 1)) == [20, 25, 50] by {
        RewriteSingle(base, ranges, 1, 2, Averaged(IntAverage, 1));
        assert base[2..3] == [20] && base[5..] == [50];
        assert base[2..4] == [20, 30] && IntAverage([20, 30]) == 25;
      }
    }
    assert WrapJoined(polygon, ranges, IntAverage, 0) == [23, 20, 35, 50] by {
      assert Rewrite(base, ranges, 1, 2, 2, Averaged(IntAverage, 0)) == [20, 35, 50] by {
        RewriteSingle(base, ranges, 1, 2, Averaged(IntAverage, 0));
        assert base[2..3] == [20] && base[5..] == [50];
        assert base[3..5] == [30, 40] && IntAverage([30, 40]) == 35;
      }
    }
    assert SpansEnds(ranges, |polygon|);
  }

  /** Rewriting with the single range rs[i]. */
  lemma RewriteSingle<P>(base: seq<P>, rs: seq<Range>, i: int, start: int, edit: Edit<P>)
    requires Rewritable(base, rs, i, i + 1, start, edit)
    ensures Rewrite(base, rs, i, i + 1, start, edit) == base[start..rs[i].first] + Piece(base, rs[i], edit) + base[rs[i].last + 1..]
  {
  }

  function Sum(s: seq<int>): int
  {
    if s == [] then 0 else s[0] + Sum(s[1..])
  }

  /** An average on integer points, rounding down. */
  function IntAverage(s: seq<int>): int
  {
    if s == [] then 0 else Sum(s) / |s|
  }

  // ---------------------------------------------------------------------
  // splitPolygonSegments

  /**
   * splitPolygonSegments: a midpoint is inserted between every two
   * consecutive selected nodes, and on a closed polygon whose first and last
   * nodes are both selected one more is appended for the closing segment.
   */
  function Splitted<P>(polygon: seq<P>, ranges: seq<Range>, closed: bool, midpoint: (P, P) -> P): seq<P>
    requires Valid(ranges) && Within(ranges, |polygon|)
  {
    if ranges == [] then polygon
    else
      var n := |polygon|;
      OrderedSlice(ranges, 0, |ranges|, 0, n);
      Rewrite(polygon, ranges, 0, |ranges|, 0, Split(midpoint)) +
        (if closed && SpansEnds(ranges, n) then [midpoint(polygon[0], polygon[n - 1])] else [])
  }

  method SplitPolygonSegments<P>(polygon: seq<P>, indexRanges: seq<Range>, closed: bool, midpoint: (P, P) -> P) returns (result: seq<P>)
    requires Valid(indexRanges) && Within(indexRanges, |polygon|)
    ensures result == Splitted(polygon, indexRanges, closed, midpoint)
  {
    if indexRanges == [] {
      return polygon;
    }
    var n := |polygon|;
    result := polygon;
    if closed {
      var lastRange := |indexRanges| - 1;
      if indexRanges[0].first == 0 && indexRanges[lastRange].last == n - 1 {
        var splitPoint := midpoint(result[0], result[|result| - 1]);
        result := result + [splitPoint];
      }
    }
    ghost var extra := result[n..];
    SplitStart(polygon, indexRanges, closed, midpoint, result, extra);
    result := SplitRanges(polygon, indexRanges, midpoint, result, extra);
  }

  /** Where the loop of splitPolygonSegments starts, and what it must produce. */
  lemma SplitStart<P>(polygon: seq<P>, ranges: seq<Range>, closed: bool, midpoint: (P, P) -> P, result: seq<P>, extra: seq<P>)
    requires Valid(ranges) && Within(ranges, |polygon|) && ranges != []
    requires result == polygon + (if closed && SpansEnds(ranges, |polygon|) then [midpoint(polygon[0], polygon[|polygon| - 1])] else [])
    requires |polygon| <= |result| && extra == result[|polygon|..]
    ensures Rewritable(polygon, ranges, 0, |ranges|, 0, Split(midpoint))
    ensures result == Rewrite(polygon, ranges, |ranges|, |ranges|, 0, Split(midpoint)) + extra
    ensures Splitted(polygon, ranges, closed, midpoint) == Rewrite(polygon, ranges, 0, |ranges|, 0, Split(midpoint)) + extra
  {
    OrderedSlice(ranges, 0, |ranges|, 0, |polygon|);
    assert polygon[0..] == polygon;
  }

  /** The outer loop of splitPolygonSegments, from the last range down to the first. */
  method SplitRanges<P>(polygon: seq<P>, indexRanges: seq<Range>, midpoint: (P, P) -> P, points: seq<P>, ghost extra: seq<P>)
    returns (result: seq<P>)
    requires Rewritable(polygon, indexRanges, 0, |indexRanges|, 0, Split(midpoint))
    requires points == Rewrite(polygon, indexRanges, |indexRanges|, |indexRanges|, 0, Split(midpoint)) + extra
    ensures result == Rewrite(polygon, indexRanges, 0, |indexRanges|, 0, Split(midpoint)) + extra
  {
    result := points;
    var it := |indexRanges|;
    while it != 0
      invariant 0 <= it <= |indexRanges|
      invariant Rewritable(polygon, indexRanges, it, |indexRanges|, 0, Split(midpoint))
      invariant result == Rewrite(polygon, indexRanges, it, |indexRanges|, 0, Split(midpoint)) + extra
    {
      OrderedSuffix(indexRanges, 0, it - 1, |indexRanges|, 0, |polygon|);
      result := SplitRange(polygon, indexRanges, it, midpoint, result, extra);
      it := it - 1;
    }
  }

  /** One pass of the outer loop of splitPolygonSegments: the range before `next` is split. */
  method SplitRange<P>(polygon: seq<P>, indexRanges: seq<Range>, next: int, midpoint: (P, P) -> P, points: seq<P>, ghost extra: seq<P>)
    returns (result: seq<P>)
    requires 0 < next <= |indexRanges|
    requires Rewritable(polygon, indexRanges, next - 1, |indexRanges|, 0, Split(midpoint))
    requires Rewritable(polygon, indexRanges, next, |indexRanges|, 0, Split(midpoint))
    requires points == Rewrite(polygon, indexRanges, next, |indexRanges|, 0, Split(midpoint)) + extra
    ensures result == Rewrite(polygon, indexRanges, next - 1, |indexRanges|, 0, Split(midpoint)) + extra
  {
    var r := indexRanges[next - 1];
    ghost var rest, split := SplitStep(polygon, indexRanges, next, midpoint, points, extra, r);
    result := InsertMidpoints(points, polygon, r, midpoint, rest);
    assert result == split;
  }

  /**
   * One pass of the outer loop of splitPolygonSegments, on the range before
   * `next`: the points up to its end are still those of the polygon, and
   * interleaving its points with midpoints gives the next state.
   */
  lemma SplitStep<P>(polygon: seq<P>, ranges: seq<Range>, next: int, midpoint: (P, P) -> P, result: seq<P>, extra: seq<P>, r: Range)
    returns (rest: seq<P>, split: seq<P>)
    requires 0 < next <= |ranges| && r == ranges[next - 1]
    requires Rewritable(polygon, ranges, next - 1, |ranges|, 0, Split(midpoint))
    requires Rewritable(polygon, ranges, next, |ranges|, 0, Split(midpoint))
    requires result == Rewrite(polygon, ranges, next, |ranges|, 0, Split(midpoint)) + extra
    ensures 0 <= r.first <= r.last < |polygon|
    ensures result == polygon[..r.last + 1] + rest
    ensures split == polygon[..r.first] + Interleave(polygon[r.first..r.last + 1], midpoint) + rest
    ensures split == Rewrite(polygon, ranges, next - 1, |ranges|, 0, Split(midpoint)) + extra
  {
    SplitPass(polygon, ranges, next, midpoint, result, extra, r);
    rest := Rewrite(polygon, ranges, next, |ranges|, r.last + 1, Split(midpoint)) + extra;
    split := Rewrite(polygon, ranges, next - 1, |ranges|, 0, Split(midpoint)) + extra;
  }

  lemma SplitPass<P>(polygon: seq<P>, ranges: seq<Range>, next: int, midpoint: (P, P) -> P, result: seq<P>, extra: seq<P>, r: Range)
    requires 0 < next <= |ranges| && r == ranges[next - 1]
    requires Rewritable(polygon, ranges, next - 1, |ranges|, 0, Split(midpoint))
    requires Rewritable(polygon, ranges, next, |ranges|, 0, Split(midpoint))
    requires result == Rewrite(polygon, ranges, next, |ranges|, 0, Split(midpoint)) + extra
    ensures 0 <= r.first <= r.last < |polygon|
    ensures Rewritable(polygon, ranges, next, |ranges|, r.last + 1, Split(midpoint))
    ensures result == polygon[..r.last + 1] + (Rewrite(polygon, ranges, next, |ranges|, r.last + 1, Split(midpoint)) + extra)
    ensures Rewrite(polygon, ranges, next - 1, |ranges|, 0, Split(midpoint)) + extra ==
      polygon[..r.first] + Interleave(polygon[r.first..r.last + 1], midpoint) + (Rewrite(polygon, ranges, next, |ranges|, r.last + 1, Split(midpoint)) + extra)
  {
    RewritePass(polygon, ranges, next, Split(midpoint), result, extra, r);
  }

  /** SplitPass for any edit: the range before `next` is still unchanged and becomes its piece. */
  lemma RewritePass<P>(polygon: seq<P>, ranges: seq<Range>, next: int, edit: Edit<P>, result: seq<P>, extra: seq<P>, r: Range)
    requires 0 < next <= |ranges| && r == ranges[next - 1]
    requires Rewritable(polygon, ranges, next - 1, |ranges|, 0, edit)
    requires Rewritable(polygon, ranges, next, |ranges|, 0, edit)
    requires result == Rewrite(polygon, ranges, next, |ranges|, 0, edit) + extra
    ensures 0 <= r.first <= r.last < |polygon|
    ensures Rewritable(polygon, ranges, next, |ranges|, r.last + 1, edit)
    ensures result == polygon[..r.last + 1] + (Rewrite(polygon, ranges, next, |ranges|, r.last + 1, edit) + extra)
    ensures Rewrite(polygon, ranges, next - 1, |ranges|, 0, edit) + extra ==
      polygon[..r.first] + Piece(polygon, r, edit) + (Rewrite(polygon, ranges, next, |ranges|, r.last + 1, edit) + extra)
  {
    RewriteStep(polygon, ranges, next, |ranges|, 0, edit);
    Regroup(polygon, r.first, r.last + 1, Piece(polygon, r, edit), Rewrite(polygon, ranges, next, |ranges|, r.last + 1, edit), extra,
      Rewrite(polygon, ranges, next, |ranges|, 0, edit), Rewrite(polygon, ranges, next - 1, |ranges|, 0, edit), result);
  }

  /** The sequence steps of SplitPass, on the values involved. */
  lemma Regroup<P>(polygon: seq<P>, first: int, end: int, piece: seq<P>, tail: seq<P>, extra: seq<P>, before: seq<P>, after: seq<P>, result: seq<P>)
    requires 0 <= first <= end <= |polygon|
    requires before == polygon[0..end] + tail && result == before + extra
    requires after == polygon[0..first] + piece + tail
    ensures result == polygon[..end] + (tail + extra)
    ensures after + extra == polygon[..first] + piece + (tail + extra)
  {
    assert polygon[0..end] == polygon[..end] && polygon[0..first] == polygon[..first];
    ConcatAssoc(polygon[..end], tail, extra);
    ConcatAssoc(polygon[..first] + piece, tail, extra);
  }

  /**
   * The inner loop of splitPolygonSegments: from the end of range r down to
   * its start, a midpoint is inserted before every selected node but the first.
   */
  method InsertMidpoints<P>(points: seq<P>, polygon: seq<P>, r: Range, midpoint: (P, P) -> P, ghost rest: seq<P>) returns (result: seq<P>)
    requires 0 <= r.first <= r.last < |polygon|
    requires points == polygon[..r.last + 1] + rest
    ensures result == polygon[..r.first] + Interleave(polygon[r.first..r.last + 1], midpoint) + rest
  {
    result := points;
    assert polygon[r.last..r.last + 1] == [polygon[r.last]];
    assert polygon[..r.last + 1] == polygon[..r.last] + [polygon[r.last]];
    var i := r.last;
    while i > r.first
      invariant r.first <= i <= r.last
      invariant result == polygon[..i] + Interleave(polygon[i..r.last + 1], midpoint) + rest
    {
      MidpointStep(polygon, i, r.last, midpoint, rest, result);
      var splitPoint := midpoint(result[i], result[i - 1]);
      result := result[..i] + [splitPoint] + result[i..];
      i := i - 1;
    }
  }

  /** One pass of the inner loop: the node before i gets its midpoint with node i. */
  lemma MidpointStep<P>(polygon: seq<P>, i: int, last: int, midpoint: (P, P) -> P, rest: seq<P>, result: seq<P>)
    requires 0 < i <= last < |polygon|
    requires result == polygon[..i] + Interleave(polygon[i..last + 1], midpoint) + rest
    ensures i < |result| && result[i] == polygon[i] && result[i - 1] == polygon[i - 1]
    ensures result[..i] + [midpoint(polygon[i], polygon[i - 1])] + result[i..] ==
      polygon[..i - 1] + Interleave(polygon[i - 1..last + 1], midpoint) + rest
  {
    var run := polygon[i..last + 1];
    var m := midpoint(polygon[i], polygon[i - 1]);
    InterleavePositions(run, midpoint, 0);
    assert result[..i] == polygon[..i];
    assert result[i..] == Interleave(run, midpoint) + rest;
    assert polygon[i - 1..last + 1][1..] == run;
    assert Interleave(polygon[i - 1..last + 1], midpoint) == [polygon[i - 1], m] + Interleave(run, midpoint);
    assert polygon[..i] == polygon[..i - 1] + [polygon[i - 1]];
  }

  /** Splitting adds one point per selected segment, plus the closing one. */
  lemma SplittedSize<P>(polygon: seq<P>, ranges: seq<Range>, closed: bool, midpoint: (P, P) -> P)
    requires Valid(ranges) && Within(ranges, |polygon|)
    ensures |Splitted(polygon, ranges, closed, midpoint)| ==
      |polygon| + Surplus(ranges) + (if ranges != [] && closed && SpansEnds(ranges, |polygon|) then 1 else 0)
  {
    if ranges != [] {
      RewriteAllSize(polygon, ranges, Split(midpoint));
    }
  }

  /** splitSegments records a change exactly when a segment is selected. */
  lemma SplitRecordsChange<P>(polygon: seq<P>, ranges: seq<Range>, closed: bool, midpoint: (P, P) -> P)
    requires Valid(ranges) && Within(ranges, |polygon|)
    ensures |Splitted(polygon, ranges, closed, midpoint)| > |polygon| <==>
      ranges != [] && ((closed && SpansEnds(ranges, |polygon|)) || exists i :: 0 <= i < |ranges| && ranges[i].first < ranges[i].last)
  {
    SplittedSize(polygon, ranges, closed, midpoint);
    SurplusZero(ranges);
  }

  // ---------------------------------------------------------------------
  // Deleting one segment.

  function Abs(x: int): int
  {
    if x < 0 then -x else x
  }

  /** Two point indexes joined by a segment of the outline. */
  predicate Neighbours(a: int, b: int, n: int, closed: bool)
  {
    a == b + 1 || b == a + 1 || (closed && ((a == 0 && b == n - 1) || (b == 0 && a == n - 1)))
  }

  /**
   * The canDeleteSegment condition of the context menu: exactly two selected
   * handles, on the same object, at the two ends of one of its segments.
   * polygonSize is the size of the first handle's polygon; the indexes are
   * points of it only when both handles are on that object.
   */
  function CanDeleteSegment(selected: seq<Handle>, polygonSize: int, closed: bool): (r: bool)
    requires |selected| == 2 && selected[0].mapObject == selected[1].mapObject ==>
      0 <= selected[0].pointIndex < polygonSize && 0 <= selected[1].pointIndex < polygonSize
    ensures r <==> (|selected| == 2 && selected[0].mapObject == selected[1].mapObject &&
      Neighbours(selected[0].pointIndex, selected[1].pointIndex, polygonSize, closed))
  {
    if |selected| == 2 then
      var indexDifference := Abs(selected[0].pointIndex - selected[1].pointIndex);
      selected[0].mapObject == selected[1].mapObject &&
        (indexDifference == 1 || (indexDifference == polygonSize - 1 && closed))
    else false
  }

  function Max(a: int, b: int): int
  {
    if a >= b then a else b
  }

  /** The polygon read from index k on, wrapping around. */
  function Rotated<P>(polygon: seq<P>, k: int): (r: seq<P>)
    requires 0 <= k <= |polygon|
    ensures |r| == |polygon|
    ensures forall j :: 0 <= j < |polygon| - k ==> r[j] == polygon[j + k]
    ensures forall j :: |polygon| - k <= j < |polygon| ==> r[j] == polygon[j + k - |polygon|]
  {
    polygon[k..] + polygon[..k]
  }

  /**
   * The polygon branch of deleteSegment: unless the two indexes are the
   * first and the last, the points are rotated so that the polygon starts at
   * the larger index; the polygon is then turned into a polyline.
   */
  method DeleteSegment<P>(polygon: seq<P>, first: int, second: int) returns (newPolygon: seq<P>)
    requires 0 <= first < |polygon| && 0 <= second < |polygon|
    ensures newPolygon == if Abs(first - second) != |polygon| - 1 then Rotated(polygon, Max(first, second)) else polygon
  {
    var n := |polygon|;
    var points := new P[n](i requires 0 <= i < n => polygon[i]);
    var indexDifference := Abs(first - second);
    if indexDifference != n - 1 {
      var maxIndex := Max(first, second);
      RotateInto(points, polygon, maxIndex);
    }
    newPolygon := points[..];
  }

  /** The two copying loops: `points` receives the polygon read from k on. */
  method RotateInto<P>(points: array<P>, polygon: seq<P>, k: int)
    requires points.Length == |polygon| && 0 <= k <= |polygon|
    modifies points
    ensures points[..] == Rotated(polygon, k)
  {
    var n := |polygon|;
    ghost var rotated := Rotated(polygon, k);
    for i := k to n
      invariant forall j :: 0 <= j < i - k ==> points[j] == rotated[j]
    {
      points[i - k] := polygon[i];
    }
    for i := 0 to k
      invariant forall j :: 0 <= j < n - k + i ==> points[j] == rotated[j]
    {
      points[n - k + i] := polygon[i];
    }
    assert forall j :: 0 <= j < n ==> points[..][j] == rotated[j];
  }

  /**
   * When canDeleteSegment holds on a closed polygon, the new polygon keeps
   * every point and ends on the two selected points: the deleted segment is
   * the closing one that turning it into a polyline drops.
   */
  lemma DeletedSegmentIsClosing<P>(polygon: seq<P>, a: int, b: int)
    requires 0 <= a < |polygon| && 0 <= b < |polygon| && Neighbours(a, b, |polygon|, true) && a != b
    ensures var n := |polygon|;
      var newPolygon := if Abs(a - b) != n - 1 then Rotated(polygon, Max(a, b)) else polygon;
      |newPolygon| == n &&
      ((newPolygon[0] == polygon[a] && newPolygon[n - 1] == polygon[b]) ||
       (newPolygon[0] == polygon[b] && newPolygon[n - 1] == polygon[a]))
  {
    var n := |polygon|;
    if Abs(a - b) != n - 1 {
      var k := Max(a, b);
      var r := Rotated(polygon, k);
      assert r[0] == polygon[k];
      assert r[n - 1] == polygon[k - 1];
    }
  }
}
