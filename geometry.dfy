/** Rectangles of the bin-packing engine, the cells they cover, and the
    invariant of a guillotine free-space partition: free and used rectangles
    lie in the bin, never share a cell, cover every cell of the bin, and
    their areas add up to the bin's area. */
module Geometry {

  /** A placed or free rectangle (BinRect in the C# code).  A result with zero
      width or height from a placement search means "nothing found". */
  datatype BinRect = BinRect(x: int, y: int, width: int, height: int)

  /** A pending size request (RectSize in the C# code). */
  datatype RectSize = RectSize(width: int, height: int)

  /** The default BinRect, returned when no placement exists. */
  const ZeroRect := BinRect(0, 0, 0, 0)

  function Area(r: BinRect): int { r.width * r.height }

  predicate NonNeg(r: BinRect) { r.width >= 0 && r.height >= 0 }

  /** The rectangle spanning a whole bin. */
  function Bin(w: int, h: int): BinRect { BinRect(0, 0, w, h) }

  /** Cell (px, py) lies in r. */
  predicate Contains(r: BinRect, px: int, py: int)
  {
    r.x <= px < r.x + r.width && r.y <= py < r.y + r.height
  }

  /** a and b share a cell (see OverlapIsSharedCell). */
  predicate Overlap(a: BinRect, b: BinRect)
  {
    a.width > 0 && a.height > 0 && b.width > 0 && b.height > 0 &&
    a.x < b.x + b.width && b.x < a.x + a.width &&
    a.y < b.y + b.height && b.y < a.y + a.height
  }

  lemma OverlapIsSharedCell(a: BinRect, b: BinRect)
    ensures Overlap(a, b) <==> exists px, py :: Contains(a, px, py) && Contains(b, px, py)
  {
    if Overlap(a, b) {
      var px := if a.x < b.x then b.x else a.x;
      var py := if a.y < b.y then b.y else a.y;
      assert Contains(a, px, py) && Contains(b, px, py);
    }
  }

  /** IsContainedIn (GuillotineBinPack.IsContainedIn): a lies inside b. */
  predicate IsContainedIn(a: BinRect, b: BinRect)
  {
    a.x >= b.x && a.y >= b.y &&
    a.x + a.width <= b.x + b.width &&
    a.y + a.height <= b.y + b.height
  }

  /** For a rectangle with at least one cell, IsContainedIn means exactly
      that every cell of a is a cell of b. */
  lemma ContainedInIsCellInclusion(a: BinRect, b: BinRect)
    requires a.width > 0 && a.height > 0
    ensures IsContainedIn(a, b) <==> forall px, py :: Contains(a, px, py) ==> Contains(b, px, py)
  {
    if forall px, py :: Contains(a, px, py) ==> Contains(b, px, py) {
      assert Contains(a, a.x, a.y);
      assert Contains(a, a.x + a.width - 1, a.y + a.height - 1);
    }
  }

  /** A rectangle inside f shares no cell with anything f shares none with. */
  lemma InsideKeepsApart(a: BinRect, f: BinRect, b: BinRect)
    requires IsContainedIn(a, f) && !Overlap(f, b)
    ensures !Overlap(a, b) && !Overlap(b, a)
  {
  }

  /** s with its j-th element removed (List.RemoveAt). */
  function RemoveAt<T>(s: seq<T>, j: int): (r: seq<T>)
    requires 0 <= j < |s|
    ensures |r| == |s| - 1
    ensures forall k :: 0 <= k < j ==> r[k] == s[k]
    ensures forall k :: j <= k < |r| ==> r[k] == s[k + 1]
  {
    s[..j] + s[j + 1..]
  }

  function SumArea(s: seq<BinRect>): int
  {
    if s == [] then 0 else Area(s[0]) + SumArea(s[1..])
  }

  lemma {:induction false} SumAreaAppend(a: seq<BinRect>, b: seq<BinRect>)
    ensures SumArea(a + b) == SumArea(a) + SumArea(b)
  {
    if a == [] {
      assert a + b == b;
    } else {
      assert (a + b)[1..] == a[1..] + b;
      SumAreaAppend(a[1..], b);
    }
  }

  lemma {:induction false} SumAreaRemoveAt(s: seq<BinRect>, j: int)
    requires 0 <= j < |s|
    ensures SumArea(RemoveAt(s, j)) == SumArea(s) - Area(s[j])
  {
    var pre, post := s[..j], s[j + 1..];
    assert s == (pre + [s[j]]) + post;
    SumAreaAppend(pre + [s[j]], post);
    SumAreaAppend(pre, [s[j]]);
    SumAreaAppend(pre, post);
    assert SumArea([s[j]]) == Area(s[j]) + SumArea([]);
  }

  lemma {:induction false} SumAreaUpdate(s: seq<BinRect>, i: int, r: BinRect)
    requires 0 <= i < |s|
    ensures SumArea(s[i := r]) == SumArea(s) - Area(s[i]) + Area(r)
  {
    var pre, post := s[..i], s[i + 1..];
    assert s[i := r] == (pre + [r]) + post;
    assert s == (pre + [s[i]]) + post;
    SumAreaAppend(pre + [r], post);
    SumAreaAppend(pre, [r]);
    SumAreaAppend(pre + [s[i]], post);
    SumAreaAppend(pre, [s[i]]);
    assert SumArea([r]) == Area(r) + SumArea([]);
    assert SumArea([s[i]]) == Area(s[i]) + SumArea([]);
  }

  /** Some rectangle of s holds cell (px, py). */
  predicate Covered(s: seq<BinRect>, px: int, py: int)
  {
    exists k :: 0 <= k < |s| && Contains(s[k], px, py)
  }

  /** No two entries of s share a cell. */
  predicate Disjoint(s: seq<BinRect>)
  {
    forall p, q :: 0 <= p < |s| && 0 <= q < |s| && p != q ==> !Overlap(s[p], s[q])
  }

  /** No entry of s shares a cell with an entry of t. */
  predicate Apart(s: seq<BinRect>, t: seq<BinRect>)
  {
    forall p, q :: 0 <= p < |s| && 0 <= q < |t| ==> !Overlap(s[p], t[q])
  }

  /** Every entry of s has non-negative size and lies in the w x h bin. */
  predicate AllWithin(s: seq<BinRect>, w: int, h: int)
  {
    forall k :: 0 <= k < |s| ==> NonNeg(s[k]) && IsContainedIn(s[k], Bin(w, h))
  }

  /** Every cell of the w x h bin is free or used. */
  predicate Tiles(free: seq<BinRect>, used: seq<BinRect>, w: int, h: int)
  {
    forall px, py :: 0 <= px < w && 0 <= py < h ==> Covered(free, px, py) || Covered(used, px, py)
  }

  /** The invariant of the guillotine free list ("the rectangles in this list
      are disjoint"), together with the used list: the two lists partition
      the bin exactly. */
  predicate Partition(free: seq<BinRect>, used: seq<BinRect>, w: int, h: int)
  {
    && 0 <= w && 0 <= h
    && AllWithin(free, w, h) && AllWithin(used, w, h)
    && Disjoint(free) && Disjoint(used) && Apart(free, used)
    && Tiles(free, used, w, h)
    && SumArea(free) + SumArea(used) == w * h
  }

  lemma RemoveAtKeepsDisjoint(s: seq<BinRect>, j: int)
    requires 0 <= j < |s| && Disjoint(s)
    ensures Disjoint(RemoveAt(s, j))
  {
    var r := RemoveAt(s, j);
    forall p, q | 0 <= p < |r| && 0 <= q < |r| && p != q
      ensures !Overlap(r[p], r[q])
    {
      var p' := if p < j then p else p + 1;
      var q' := if q < j then q else q + 1;
      assert r[p] == s[p'] && r[q] == s[q'];
    }
  }

  lemma RemoveAtKeepsApart(s: seq<BinRect>, j: int, t: seq<BinRect>)
    requires 0 <= j < |s| && Apart(s, t)
    ensures Apart(RemoveAt(s, j), t)
  {
    var r := RemoveAt(s, j);
    forall p, q | 0 <= p < |r| && 0 <= q < |t|
      ensures !Overlap(r[p], t[q])
    {
      var p' := if p < j then p else p + 1;
      assert r[p] == s[p'];
    }
  }

  lemma ConcatDisjoint(a: seq<BinRect>, b: seq<BinRect>)
    requires Disjoint(a) && Disjoint(b) && Apart(a, b)
    ensures Disjoint(a + b)
  {
    var s := a + b;
    forall p, q | 0 <= p < |s| && 0 <= q < |s| && p != q
      ensures !Overlap(s[p], s[q])
    {
      if p < |a| && q >= |a| {
        assert s[p] == a[p] && s[q] == b[q - |a|];
        assert !Overlap(a[p], b[q - |a|]);
        OverlapSymmetric(s[p], s[q]);
      } else if p >= |a| && q < |a| {
        assert s[q] == a[q] && s[p] == b[p - |a|];
        assert !Overlap(a[q], b[p - |a|]);
        OverlapSymmetric(s[p], s[q]);
      }
    }
  }

  lemma OverlapSymmetric(a: BinRect, b: BinRect)
    ensures Overlap(a, b) == Overlap(b, a)
  {
  }
}
