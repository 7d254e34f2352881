/**
 The canonical reading order of detected bubbles: split at the region's
 horizontal midpoint into a left and a right column, order each column from
 top to bottom with a stable sort on the y-coordinate, and read the left
 column before the right one.
 */
module ColumnOrder {
  import opened Sheet

  /**
   The column test `cx < width * 0.5`. For an integer `cx` and an integer
   width the half-width comparison is exactly `2 * cx < width`.
   */
  predicate InLeftColumn(b: Bubble, width: int) {
    2 * b.cx < width
  }

  /**
   The bubbles on one side of the midpoint, in their given order: the left
   column when `left` holds, the right column otherwise.
   */
  function Column(s: seq<Bubble>, width: int, left: bool): (l: seq<Bubble>)
    ensures forall i | 0 <= i < |l| :: InLeftColumn(l[i], width) == left
  {
    if s == [] then []
    else (if InLeftColumn(s[0], width) == left then [s[0]] else []) + Column(s[1..], width, left)
  }

  function LeftColumn(s: seq<Bubble>, width: int): seq<Bubble> {
    Column(s, width, true)
  }

  function RightColumn(s: seq<Bubble>, width: int): seq<Bubble> {
    Column(s, width, false)
  }

  /** Splitting a concatenation column by column gives the concatenation of the columns. */
  lemma {:induction false} ColumnOfConcat(a: seq<Bubble>, b: seq<Bubble>, width: int, left: bool)
    ensures Column(a + b, width, left) == Column(a, width, left) + Column(b, width, left)
    decreases |a|
  {
    if a == [] {
      assert a + b == b;
    } else {
      assert (a + b)[0] == a[0];
      assert (a + b)[1..] == a[1..] + b;
      ColumnOfConcat(a[1..], b, width, left);
    }
  }

  /** The positions of the bubbles that lie on the requested side, in increasing order. */
  function ColumnIndices(s: seq<Bubble>, width: int, left: bool): (idx: seq<nat>)
    decreases |s|
  {
    if s == [] then []
    else ColumnIndices(s[..|s| - 1], width, left) + (if InLeftColumn(s[|s| - 1], width) == left then [|s| - 1] else [])
  }

  /**
   `l` holds exactly the bubbles of `s` on the requested side, taken at the
   strictly increasing positions `idx`: the column keeps the input order.
   */
  ghost predicate TakenInOrder(s: seq<Bubble>, width: int, left: bool, idx: seq<nat>, l: seq<Bubble>) {
    && |idx| == |l|
    && (forall j :: 0 <= j < |idx| ==> idx[j] < |s| && s[idx[j]] == l[j])
    && (forall j, k :: 0 <= j < k < |idx| ==> idx[j] < idx[k])
    && (forall i :: 0 <= i < |s| && InLeftColumn(s[i], width) == left ==> i in idx)
  }

  /** Each column is the in-order subsequence of exactly the bubbles on its side. */
  lemma {:induction false} ColumnKeepsOrder(s: seq<Bubble>, width: int, left: bool)
    ensures TakenInOrder(s, width, left, ColumnIndices(s, width, left), Column(s, width, left))
    decreases |s|
  {
    if s != [] {
      var pre, last := s[..|s| - 1], s[|s| - 1];
      ColumnKeepsOrder(pre, width, left);
      assert s == pre + [last];
      ColumnOfConcat(pre, [last], width, left);
      assert Column([last], width, left) == if InLeftColumn(last, width) == left then [last] else [];
      assert forall i :: 0 <= i < |pre| ==> pre[i] == s[i];
    }
  }

  /** The two columns together hold every bubble exactly as often as the input does. */
  lemma {:induction false} ColumnsSplitInput(s: seq<Bubble>, width: int)
    ensures multiset(LeftColumn(s, width)) + multiset(RightColumn(s, width)) == multiset(s)
  {
    if s != [] {
      ColumnsSplitInput(s[1..], width);
      assert s == [s[0]] + s[1..];
    }
  }

  lemma {:induction false} ColumnSizes(s: seq<Bubble>, width: int)
    ensures |LeftColumn(s, width)| + |RightColumn(s, width)| == |s|
  {
    if s != [] {
      ColumnSizes(s[1..], width);
    }
  }

  /** The bubbles at height `y`, in their given order. */
  function AtHeight(s: seq<Bubble>, y: int): (l: seq<Bubble>)
    ensures forall i | 0 <= i < |l| :: l[i].cy == y
  {
    if s == [] then []
    else (if s[0].cy == y then [s[0]] else []) + AtHeight(s[1..], y)
  }

  lemma {:induction false} AtHeightMembers(s: seq<Bubble>, y: int, b: Bubble)
    requires b in AtHeight(s, y)
    ensures b in s
  {
    if s != [] && b != s[0] {
      AtHeightMembers(s[1..], y, b);
    }
  }

  /** Ascending y-coordinate from front to back. */
  predicate SortedByY(s: seq<Bubble>) {
    forall i, j :: 0 <= i < j < |s| ==> s[i].cy <= s[j].cy
  }

  /**
   `r` is `s` stably sorted on the y-coordinate: ascending in y, and for
   every height the bubbles at that height appear in the same order as in `s`.
   */
  ghost predicate StablySortedFrom(s: seq<Bubble>, r: seq<Bubble>) {
    SortedByY(r) && forall y :: AtHeight(r, y) == AtHeight(s, y)
  }

  /** Places `b` in front of the first bubble that is not above it. */
  function Insert(b: Bubble, s: seq<Bubble>): (r: seq<Bubble>)
    ensures multiset(r) == multiset(s) + multiset{b}
    ensures |r| == |s| + 1
  {
    if s == [] || b.cy <= s[0].cy then [b] + s
    else
      assert s == [s[0]] + s[1..];
      [s[0]] + Insert(b, s[1..])
  }

  /** Insertion sort on the y-coordinate; inserting each bubble before its equals keeps the sort stable. */
  function SortByY(s: seq<Bubble>): (r: seq<Bubble>)
    ensures multiset(r) == multiset(s)
    ensures |r| == |s|
  {
    if s == [] then []
    else
      assert s == [s[0]] + s[1..];
      Insert(s[0], SortByY(s[1..]))
  }

  /** No bubble of `t` lies above height `y`. */
  predicate NoneAbove(y: int, t: seq<Bubble>) {
    forall i | 0 <= i < |t| :: y <= t[i].cy
  }

  lemma {:induction false} InsertKeepsBound(y: int, b: Bubble, s: seq<Bubble>)
    requires y <= b.cy && NoneAbove(y, s)
    ensures NoneAbove(y, Insert(b, s))
  {
    if s != [] && s[0].cy < b.cy {
      InsertKeepsBound(y, b, s[1..]);
    }
  }

  lemma {:induction false} ConsSorted(x: Bubble, t: seq<Bubble>)
    requires SortedByY(t) && NoneAbove(x.cy, t)
    ensures SortedByY([x] + t)
  {
    forall i, j | 0 <= i < j < |t| + 1
      ensures ([x] + t)[i].cy <= ([x] + t)[j].cy
    {
      assert ([x] + t)[j] == t[j - 1];
    }
  }

  lemma {:induction false} InsertKeepsSorted(b: Bubble, s: seq<Bubble>)
    requires SortedByY(s)
    ensures SortedByY(Insert(b, s))
  {
    if s == [] || b.cy <= s[0].cy {
      ConsSorted(b, s);
    } else {
      SortedTail(s);
      InsertKeepsSorted(b, s[1..]);
      assert NoneAbove(s[0].cy, s[1..]) by {
        forall i | 0 <= i < |s| - 1 ensures s[0].cy <= s[1..][i].cy {
          assert s[1..][i] == s[i + 1];
        }
      }
      InsertKeepsBound(s[0].cy, b, s[1..]);
      ConsSorted(s[0], Insert(b, s[1..]));
    }
  }

  /** All bubbles of `t` lie on the side of the midpoint that `left` names. */
  predicate OnSide(t: seq<Bubble>, width: int, left: bool) {
    forall i | 0 <= i < |t| :: InLeftColumn(t[i], width) == left
  }

  lemma {:induction false} InsertKeepsSide(b: Bubble, s: seq<Bubble>, width: int, left: bool)
    requires InLeftColumn(b, width) == left && OnSide(s, width, left)
    ensures OnSide(Insert(b, s), width, left)
  {
    if s != [] && s[0].cy < b.cy {
      InsertKeepsSide(b, s[1..], width, left);
    }
  }

  lemma {:induction false} SortByYKeepsSide(s: seq<Bubble>, width: int, left: bool)
    requires OnSide(s, width, left)
    ensures OnSide(SortByY(s), width, left)
  {
    if s != [] {
      SortByYKeepsSide(s[1..], width, left);
      InsertKeepsSide(s[0], SortByY(s[1..]), width, left);
    }
  }

  lemma {:induction false} InsertAtHeight(b: Bubble, s: seq<Bubble>, y: int)
    ensures AtHeight(Insert(b, s), y) == if b.cy == y then [b] + AtHeight(s, y) else AtHeight(s, y)
  {
    if s != [] && s[0].cy < b.cy {
      InsertAtHeight(b, s[1..], y);
      assert Insert(b, s) == [s[0]] + Insert(b, s[1..]);
      assert ([s[0]] + Insert(b, s[1..]))[1..] == Insert(b, s[1..]);
    } else {
      assert ([b] + s)[1..] == s;
    }
  }

  /** The insertion sort is ascending in y. */
  lemma {:induction false} SortByYSorted(s: seq<Bubble>)
    ensures SortedByY(SortByY(s))
  {
    if s != [] {
      SortByYSorted(s[1..]);
      InsertKeepsSorted(s[0], SortByY(s[1..]));
    }
  }

  /** The insertion sort keeps the order of the bubbles at each height. */
  lemma {:induction false} SortByYKeepsTies(s: seq<Bubble>, y: int)
    ensures AtHeight(SortByY(s), y) == AtHeight(s, y)
  {
    if s != [] {
      SortByYKeepsTies(s[1..], y);
      InsertAtHeight(s[0], SortByY(s[1..]), y);
    }
  }

  lemma {:induction false} HeadAtItsHeight(s: seq<Bubble>)
    ensures s != [] ==> AtHeight(s, s[0].cy) == [s[0]] + AtHeight(s[1..], s[0].cy)
  {
  }

  lemma {:induction false} SortedHeadIsLowest(s: seq<Bubble>, b: Bubble)
    requires SortedByY(s) && s != [] && b in s
    ensures s[0].cy <= b.cy
  {
    var i :| 0 <= i < |s| && s[i] == b;
    if i > 0 {
      assert s[0].cy <= s[i].cy;
    }
  }

  /** Sorted sequences with the same bubbles at every height start with the same bubble. */
  lemma {:induction false} SameHead(a: seq<Bubble>, b: seq<Bubble>)
    requires SortedByY(a) && SortedByY(b) && a != [] && b != []
    requires AtHeight(a, a[0].cy) == AtHeight(b, a[0].cy)
    requires AtHeight(a, b[0].cy) == AtHeight(b, b[0].cy)
    ensures a[0] == b[0]
  {
    HeadAtItsHeight(a);
    HeadAtItsHeight(b);
    assert AtHeight(b, a[0].cy)[0] == a[0];
    assert AtHeight(a, b[0].cy)[0] == b[0];
    AtHeightMembers(b, a[0].cy, a[0]);
    AtHeightMembers(a, b[0].cy, b[0]);
    SortedHeadIsLowest(a, b[0]);
    SortedHeadIsLowest(b, a[0]);
    assert a[0].cy == b[0].cy;
  }

  lemma {:induction false} AtHeightOfTail(a: seq<Bubble>, y: int)
    requires a != []
    ensures AtHeight(a[1..], y) == if a[0].cy == y then AtHeight(a, y)[1..] else AtHeight(a, y)
  {
  }

  lemma {:induction false} SortedTail(a: seq<Bubble>)
    requires SortedByY(a) && a != []
    ensures SortedByY(a[1..])
  {
    forall i, j | 0 <= i < j < |a| - 1
      ensures a[1..][i].cy <= a[1..][j].cy
    {
      assert a[1..][i] == a[i + 1] && a[1..][j] == a[j + 1];
    }
  }

  lemma {:induction false} TailsAgree(a: seq<Bubble>, b: seq<Bubble>)
    requires a != [] && b != [] && a[0] == b[0]
    requires forall y :: AtHeight(a, y) == AtHeight(b, y)
    ensures forall y :: AtHeight(a[1..], y) == AtHeight(b[1..], y)
  {
    forall y
      ensures AtHeight(a[1..], y) == AtHeight(b[1..], y)
    {
      AtHeightOfTail(a, y);
      AtHeightOfTail(b, y);
    }
  }

  lemma {:induction false} EmptyTogether(a: seq<Bubble>, b: seq<Bubble>)
    requires forall y :: AtHeight(a, y) == AtHeight(b, y)
    ensures a == [] <==> b == []
  {
    HeadAtItsHeight(a);
    HeadAtItsHeight(b);
    if a != [] {
      assert AtHeight(b, a[0].cy) != [];
    }
    if b != [] {
      assert AtHeight(a, b[0].cy) != [];
    }
  }

  /** Two sequences stably sorted from the same bubbles are equal: a stable sort on y has one possible result. */
  lemma {:induction false} StableSortUnique(a: seq<Bubble>, b: seq<Bubble>)
    requires SortedByY(a) && SortedByY(b)
    requires forall y :: AtHeight(a, y) == AtHeight(b, y)
    ensures a == b
    decreases |a|
  {
    EmptyTogether(a, b);
    if a != [] {
      SameHead(a, b);
      TailsAgree(a, b);
      SortedTail(a);
      SortedTail(b);
      StableSortUnique(a[1..], b[1..]);
      assert a == [a[0]] + a[1..];
      assert b == [b[0]] + b[1..];
    }
  }

  /** The insertion sort is a stable sort on y. */
  lemma {:induction false} SortByYSortsStably(s: seq<Bubble>)
    ensures StablySortedFrom(s, SortByY(s))
  {
    SortByYSorted(s);
    forall y
      ensures AtHeight(SortByY(s), y) == AtHeight(s, y)
    {
      SortByYKeepsTies(s, y);
    }
  }

  /** `r` is the insertion sort of `s` exactly when it is ascending in y and keeps the order of ties. */
  lemma {:induction false} SortByYIsTheStableSort(s: seq<Bubble>, r: seq<Bubble>)
    ensures r == SortByY(s) <==> StablySortedFrom(s, r)
  {
    if StablySortedFrom(s, r) {
      OnlyStableSort(s, r);
    } else {
      SortByYSortsStably(s);
    }
  }

  lemma {:induction false} OnlyStableSort(s: seq<Bubble>, r: seq<Bubble>)
    requires StablySortedFrom(s, r)
    ensures r == SortByY(s)
  {
    SortByYSortsStably(s);
    StableSortUnique(r, SortByY(s));
  }

  /** The bubbles in reading order: the left column top to bottom, then the right column top to bottom. */
  function OrderColumns(s: seq<Bubble>, width: int): (r: seq<Bubble>)
    ensures multiset(r) == multiset(s)
    ensures |r| == |s|
  {
    ColumnsSplitInput(s, width);
    ColumnSizes(s, width);
    SortByY(LeftColumn(s, width)) + SortByY(RightColumn(s, width))
  }

  /**
   The reading-order contract, stated without reference to any sorting
   algorithm: `r` opens with as many bubbles as the left column holds, and
   that block is the left column stably sorted on y; the rest is the right
   column stably sorted on y.
   */
  ghost predicate CanonicalOrder(s: seq<Bubble>, width: int, r: seq<Bubble>) {
    var n := |LeftColumn(s, width)|;
    && n <= |r|
    && StablySortedFrom(LeftColumn(s, width), r[..n])
    && StablySortedFrom(RightColumn(s, width), r[n..])
  }

  lemma {:induction false} OrderColumnsMeetsCanonical(s: seq<Bubble>, width: int)
    ensures CanonicalOrder(s, width, OrderColumns(s, width))
  {
    var l, rt := LeftColumn(s, width), RightColumn(s, width);
    var o := OrderColumns(s, width);
    assert o[..|l|] == SortByY(l);
    assert o[|l|..] == SortByY(rt);
    SortByYSortsStably(l);
    SortByYSortsStably(rt);
  }

  lemma {:induction false} CanonicalIsOrderColumns(s: seq<Bubble>, width: int, r: seq<Bubble>)
    requires CanonicalOrder(s, width, r)
    ensures r == OrderColumns(s, width)
  {
    var l, rt := LeftColumn(s, width), RightColumn(s, width);
    var n := |l|;
    assert StablySortedFrom(l, r[..n]) && StablySortedFrom(rt, r[n..]);
    OnlyStableSort(l, r[..n]);
    OnlyStableSort(rt, r[n..]);
    calc {
      r;
      r[..n] + r[n..];
      SortByY(l) + SortByY(rt);
      OrderColumns(s, width);
    }
  }

  /** The reading order computed by the detector is the one and only sequence meeting the reading-order contract. */
  lemma {:induction false} OrderColumnsIsCanonical(s: seq<Bubble>, width: int, r: seq<Bubble>)
    ensures r == OrderColumns(s, width) <==> CanonicalOrder(s, width, r)
  {
    OrderColumnsMeetsCanonical(s, width);
    if CanonicalOrder(s, width, r) {
      CanonicalIsOrderColumns(s, width, r);
    }
  }

  lemma {:induction false} OrderColumnsMembers(s: seq<Bubble>, width: int, b: Bubble)
    requires b in OrderColumns(s, width)
    ensures b in s
  {
    assert b in multiset(OrderColumns(s, width));
  }

  /**
   All left-column bubbles come first: every bubble before position `n`
   (the size of the left column) lies left of the midpoint and every
   bubble from `n` on does not.
   */
  lemma {:induction false} OrderColumnsGroupsColumns(s: seq<Bubble>, width: int)
    ensures var r, n := OrderColumns(s, width), |LeftColumn(s, width)|;
      && |r| == |s|
      && (forall i :: 0 <= i < n ==> InLeftColumn(r[i], width))
      && (forall i :: n <= i < |r| ==> !InLeftColumn(r[i], width))
  {
    var l, rt := LeftColumn(s, width), RightColumn(s, width);
    ColumnSizes(s, width);
    SortByYKeepsSide(l, width, true);
    SortByYKeepsSide(rt, width, false);
    var sl, sr := SortByY(l), SortByY(rt);
    var r := sl + sr;
    forall i | |sl| <= i < |r|
      ensures !InLeftColumn(r[i], width)
    {
      assert r[i] == sr[i - |sl|];
    }
  }
}
