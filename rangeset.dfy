/**
 * RangeSet<int>, the set of point indexes the polygon tool works on: a
 * sequence of closed intervals in increasing order, none touching the next.
 * Its header (rangeset.h) is not part of this model; `Insert` is written from
 * how src/tiled/editpolygontool.cpp uses it: inserting an index either
 * extends a neighbouring range, joins two ranges, or starts a new one.
 */
module RangeSets {

  datatype Range = Range(first: int, last: int)
  {
    function Length(): int
    {
      last - first + 1
    }
  }

  /** Non-empty intervals, in increasing order, separated by at least one index. */
  ghost predicate Valid(rs: seq<Range>)
  {
    (forall i :: 0 <= i < |rs| ==> rs[i].first <= rs[i].last) &&
    (forall i, j :: 0 <= i < j < |rs| ==> rs[i].last + 1 < rs[j].first)
  }

  /** Every index within [0, n). */
  ghost predicate Within(rs: seq<Range>, n: int)
  {
    forall i :: 0 <= i < |rs| ==> 0 <= rs[i].first && rs[i].last < n
  }

  predicate Contains(rs: seq<Range>, x: int)
  {
    rs != [] && ((rs[0].first <= x <= rs[0].last) || Contains(rs[1..], x))
  }

  function Min(a: int, b: int): int
  {
    if a <= b then a else b
  }

  lemma ValidTail(rs: seq<Range>)
    requires Valid(rs) && rs != []
    ensures Valid(rs[1..])
  {
    assert forall i :: 0 <= i < |rs| - 1 ==> rs[1..][i] == rs[i + 1];
  }

  /** Nothing below the first range of a valid set is contained. */
  lemma {:induction false} BelowFirst(rs: seq<Range>, x: int)
    requires Valid(rs) && rs != [] && x < rs[0].first
    ensures !Contains(rs, x)
  {
    if |rs| > 1 {
      ValidTail(rs);
      BelowFirst(rs[1..], x);
    }
  }

  /**
   * RangeSet::insert: the result is again a range set and holds exactly the
   * old indexes and x.
   */
  function Insert(rs: seq<Range>, x: int): (r: seq<Range>)
    requires Valid(rs)
    ensures Valid(r)
    ensures forall y :: Contains(r, y) <==> Contains(rs, y) || y == x
    ensures r != [] && r[0].first == if rs == [] then x else Min(rs[0].first, x)
  {
    if rs == [] then [Range(x, x)]
    else
      var head := rs[0];
      ValidTail(rs);
      if x < head.first - 1 then
        InsertFront(rs, Range(x, x));
        [Range(x, x)] + rs
      else if x == head.first - 1 then
        ReplaceHead(rs, Range(x, head.last));
        [Range(x, head.last)] + rs[1..]
      else if x <= head.last then
        rs
      else if x == head.last + 1 then
        if |rs| > 1 && rs[1].first == x + 1 then
          JoinHeads(rs);
          [Range(head.first, rs[1].last)] + rs[2..]
        else
          ReplaceHead(rs, Range(head.first, x));
          [Range(head.first, x)] + rs[1..]
      else
        var rest := Insert(rs[1..], x);
        assert rest[0].first > head.last + 1 by {
          if |rs| > 1 {
            assert rs[1..][0] == rs[1];
          }
        }
        PrependHead(head, rest);
        [head] + rest
  }

  lemma InsertFront(rs: seq<Range>, r: Range)
    requires Valid(rs) && rs != [] && r.first <= r.last && r.last + 1 < rs[0].first
    ensures Valid([r] + rs)
    ensures forall y :: Contains([r] + rs, y) <==> Contains(rs, y) || r.first <= y <= r.last
  {
    assert ([r] + rs)[1..] == rs;
  }

  /** Widening the first range keeps the set valid when it does not reach the second. */
  lemma ReplaceHead(rs: seq<Range>, r: Range)
    requires Valid(rs) && rs != [] && r.first <= r.last
    requires |rs| > 1 ==> r.last + 1 < rs[1].first
    ensures Valid([r] + rs[1..])
    ensures forall y :: Contains([r] + rs[1..], y) <==> Contains(rs[1..], y) || r.first <= y <= r.last
  {
    var t := [r] + rs[1..];
    assert t[1..] == rs[1..];
    forall i, j | 0 <= i < j < |t| ensures t[i].last + 1 < t[j].first {
      if i == 0 && j > 1 {
        assert rs[1].last + 1 < rs[j].first;
      }
    }
  }

  /** Filling the single gap between the first two ranges joins them. */
  lemma JoinHeads(rs: seq<Range>)
    requires Valid(rs) && |rs| > 1 && rs[1].first == rs[0].last + 2
    ensures Valid([Range(rs[0].first, rs[1].last)] + rs[2..])
    ensures forall y :: Contains([Range(rs[0].first, rs[1].last)] + rs[2..], y) <==>
      Contains(rs, y) || y == rs[0].last + 1
  {
    var t := [Range(rs[0].first, rs[1].last)] + rs[2..];
    assert t[1..] == rs[2..];
    assert rs[1..][1..] == rs[2..];
    assert rs[1..][0] == rs[1];
    forall i, j | 0 <= i < j < |t| ensures t[i].last + 1 < t[j].first {
      assert t[j] == rs[j + 1];
      if i > 0 {
        assert t[i] == rs[i + 1];
      }
    }
  }

  lemma PrependHead(head: Range, rest: seq<Range>)
    requires Valid(rest) && rest != [] && head.first <= head.last && head.last + 1 < rest[0].first
    ensures Valid([head] + rest)
  {
    InsertFront(rest, head);
  }

  /** Each range's endpoints are contained: the set's contents pin down its bounds. */
  lemma {:induction false} ContainsEndpoints(rs: seq<Range>, i: int)
    requires Valid(rs) && 0 <= i < |rs|
    ensures Contains(rs, rs[i].first) && Contains(rs, rs[i].last)
  {
    if i > 0 {
      ValidTail(rs);
      assert rs[1..][i - 1] == rs[i];
      ContainsEndpoints(rs[1..], i - 1);
    }
  }

  /** A range set whose indexes all lie in [0, n) has all its ranges within [0, n). */
  lemma WithinFromContents(rs: seq<Range>, n: int)
    requires Valid(rs) && forall y :: Contains(rs, y) ==> 0 <= y < n
    ensures Within(rs, n)
  {
    forall i | 0 <= i < |rs| ensures 0 <= rs[i].first && rs[i].last < n {
      ContainsEndpoints(rs, i);
    }
  }
}
