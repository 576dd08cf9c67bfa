/** The two ways GuillotineBinPack changes its free list besides Init:
    consuming a free rectangle for a placement (split, then remove), and the
    Rectangle Merge pass of MergeFreeList.  Both are stated here on values,
    with the proofs that they keep the free and used lists a partition of the
    bin. */
module FreeSpace {
  import opened Util
  import opened Geometry
  import opened Heuristics

  /** Same x and width, touching along a horizontal edge. */
  predicate VerticallyAdjacent(a: BinRect, b: BinRect)
  {
    a.x == b.x && a.width == b.width && (a.y == b.y + b.height || a.y + a.height == b.y)
  }

  /** Same y and height, touching along a vertical edge. */
  predicate HorizontallyAdjacent(a: BinRect, b: BinRect)
  {
    a.y == b.y && a.height == b.height && (a.x == b.x + b.width || a.x + a.width == b.x)
  }

  /** The pairwise test of MergeFreeList for freeRectangles[i] = a and
      freeRectangles[j] = b: the rectangle a becomes when it absorbs b, or
      None when they are not merged.  The horizontal test is reached only
      when a and b do not already have the same x and width. */
  function TryMerge(a: BinRect, b: BinRect): (m: Option<BinRect>)
    ensures m.Some? <==>
      VerticallyAdjacent(a, b) || (!(a.width == b.width && a.x == b.x) && HorizontallyAdjacent(a, b))
  {
    if a.width == b.width && a.x == b.x then
      if a.y == b.y + b.height then Some(BinRect(a.x, a.y - b.height, a.width, a.height + b.height))
      else if a.y + a.height == b.y then Some(BinRect(a.x, a.y, a.width, a.height + b.height))
      else None
    else if a.height == b.height && a.y == b.y then
      if a.x == b.x + b.width then Some(BinRect(a.x - b.width, a.y, a.width + b.width, a.height))
      else if a.x + a.width == b.x then Some(BinRect(a.x, a.y, a.width + b.width, a.height))
      else None
    else None
  }

  /** A merged rectangle covers exactly the cells of the two it replaces, and
      its area is their sum. */
  lemma MergeIsUnion(a: BinRect, b: BinRect)
    requires NonNeg(a) && NonNeg(b) && TryMerge(a, b).Some?
    ensures var m := TryMerge(a, b).value;
      && NonNeg(m)
      && Area(m) == Area(a) + Area(b)
      && (forall px, py :: Contains(m, px, py) <==> Contains(a, px, py) || Contains(b, px, py))
  {
    var m := TryMerge(a, b).value;
    if a.width == b.width && a.x == b.x {
      assert a.width * (a.height + b.height) == a.width * a.height + b.width * b.height;
    } else {
      assert (a.width + b.width) * a.height == a.width * a.height + b.width * b.height;
    }
  }

  /** Anything sharing no cell with a nor with b shares none with their merge. */
  lemma MergeKeepsApart(a: BinRect, b: BinRect, c: BinRect)
    requires NonNeg(a) && NonNeg(b) && TryMerge(a, b).Some?
    requires !Overlap(a, c) && !Overlap(b, c)
    ensures !Overlap(TryMerge(a, b).value, c) && !Overlap(c, TryMerge(a, b).value)
  {
    var m := TryMerge(a, b).value;
    MergeIsUnion(a, b);
    OverlapIsSharedCell(m, c);
    OverlapIsSharedCell(a, c);
    OverlapIsSharedCell(b, c);
  }

  /** A merged rectangle stays inside the bin. */
  lemma MergeWithin(a: BinRect, b: BinRect, w: int, h: int)
    requires NonNeg(a) && NonNeg(b) && TryMerge(a, b).Some?
    requires IsContainedIn(a, Bin(w, h)) && IsContainedIn(b, Bin(w, h))
    ensures IsContainedIn(TryMerge(a, b).value, Bin(w, h))
  {
  }

  /** The free list after one merge at (i, j): entry i replaced by the merged
      rectangle, entry j removed. */
  function MergeAt(s: seq<BinRect>, i: int, j: int): (r: seq<BinRect>)
    requires 0 <= i < j < |s| && TryMerge(s[i], s[j]).Some?
    ensures |r| == |s| - 1
  {
    RemoveAt(s[i := TryMerge(s[i], s[j]).value], j)
  }

  /** MergeFreeList's two nested loops as a function: i is the outer index,
      j the inner one; a merge removes entry j and tests the same j again. */
  function MergeFrom(s: seq<BinRect>, i: nat, j: nat): seq<BinRect>
    decreases |s| - i, |s| - j
  {
    if i >= |s| then s
    else if j >= |s| then MergeFrom(s, i + 1, i + 2)
    else if i < j && TryMerge(s[i], s[j]).Some? then MergeFrom(MergeAt(s, i, j), i, j)
    else MergeFrom(s, i, j + 1)
  }

  /** One step of the inner loop: a merge at (i, j) keeps j, anything else
      moves on to j + 1. */
  lemma MergeFromStep(s: seq<BinRect>, i: nat, j: nat)
    requires i < j < |s|
    ensures TryMerge(s[i], s[j]).Some? ==> MergeFrom(s, i, j) == MergeFrom(MergeAt(s, i, j), i, j)
    ensures TryMerge(s[i], s[j]).None? ==> MergeFrom(s, i, j) == MergeFrom(s, i, j + 1)
  {
  }

  /** The free list MergeFreeList leaves behind. */
  function MergeFreeRects(s: seq<BinRect>): seq<BinRect>
  {
    MergeFrom(s, 0, 1)
  }

  /** Entry k of the list after a merge at (i, j): the merged rectangle at
      i, otherwise the entry of s it came from. */
  lemma MergeAtIndex(s: seq<BinRect>, i: int, j: int)
    requires 0 <= i < j < |s| && TryMerge(s[i], s[j]).Some?
    ensures forall k :: 0 <= k < |MergeAt(s, i, j)| ==>
              MergeAt(s, i, j)[k] == (if k == i then TryMerge(s[i], s[j]).value else s[if k < j then k else k + 1])
  {
    assert MergeAt(s, i, j) == RemoveAt(s[i := TryMerge(s[i], s[j]).value], j);
  }

  /** After one merge the free rectangles stay inside the bin. */
  lemma MergeAtWithin(s: seq<BinRect>, used: seq<BinRect>, w: int, h: int, i: int, j: int)
    requires Partition(s, used, w, h)
    requires 0 <= i < j < |s| && TryMerge(s[i], s[j]).Some?
    ensures AllWithin(MergeAt(s, i, j), w, h)
  {
    MergeIsUnion(s[i], s[j]);
    MergeWithin(s[i], s[j], w, h);
    MergeAtIndex(s, i, j);
  }

  /** After one merge the free rectangles stay pairwise disjoint. */
  lemma MergeAtDisjoint(s: seq<BinRect>, used: seq<BinRect>, w: int, h: int, i: int, j: int)
    requires Partition(s, used, w, h)
    requires 0 <= i < j < |s| && TryMerge(s[i], s[j]).Some?
    ensures Disjoint(MergeAt(s, i, j))
  {
    var a, b := s[i], s[j];
    var r := MergeAt(s, i, j);
    MergeAtIndex(s, i, j);
    forall p, q | 0 <= p < |r| && 0 <= q < |r| && p != q
      ensures !Overlap(r[p], r[q])
    {
      var p' := if p < j then p else p + 1;
      var q' := if q < j then q else q + 1;
      if p == i {
        assert q' != i && q' != j;
        MergeKeepsApart(a, b, s[q']);
      } else if q == i {
        assert p' != i && p' != j;
        MergeKeepsApart(a, b, s[p']);
      } else {
        assert r[p] == s[p'] && r[q] == s[q'];
      }
    }
  }

  /** After one merge the free rectangles stay apart from the used ones. */
  lemma MergeAtApart(s: seq<BinRect>, used: seq<BinRect>, w: int, h: int, i: int, j: int)
    requires Partition(s, used, w, h)
    requires 0 <= i < j < |s| && TryMerge(s[i], s[j]).Some?
    ensures Apart(MergeAt(s, i, j), used)
  {
    var r := MergeAt(s, i, j);
    MergeAtIndex(s, i, j);
    forall p, q | 0 <= p < |r| && 0 <= q < |used|
      ensures !Overlap(r[p], used[q])
    {
      if p == i {
        MergeKeepsApart(s[i], s[j], used[q]);
      } else {
        var p' := if p < j then p else p + 1;
        assert r[p] == s[p'];
      }
    }
  }

  /** One merge covers the same cells. */
  lemma MergeAtCovers(s: seq<BinRect>, used: seq<BinRect>, w: int, h: int, i: int, j: int)
    requires Partition(s, used, w, h)
    requires 0 <= i < j < |s| && TryMerge(s[i], s[j]).Some?
    ensures forall px, py :: Covered(MergeAt(s, i, j), px, py) <==> Covered(s, px, py)
  {
    var a, b := s[i], s[j];
    var r := MergeAt(s, i, j);
    MergeIsUnion(a, b);
    MergeAtIndex(s, i, j);
    forall px, py
      ensures Covered(r, px, py) <==> Covered(s, px, py)
    {
      if Covered(s, px, py) {
        var k :| 0 <= k < |s| && Contains(s[k], px, py);
        if k == i || k == j {
          assert Contains(r[i], px, py);
        } else if k < j {
          assert Contains(r[k], px, py);
        } else {
          assert Contains(r[k - 1], px, py);
        }
      }
      if Covered(r, px, py) {
        var k :| 0 <= k < |r| && Contains(r[k], px, py);
        if k == i {
          assert Contains(a, px, py) || Contains(b, px, py);
        } else {
          var k' := if k < j then k else k + 1;
          assert Contains(s[k'], px, py);
        }
      }
    }
  }

  /** One merge keeps the free area. */
  lemma MergeAtArea(s: seq<BinRect>, used: seq<BinRect>, w: int, h: int, i: int, j: int)
    requires Partition(s, used, w, h)
    requires 0 <= i < j < |s| && TryMerge(s[i], s[j]).Some?
    ensures SumArea(MergeAt(s, i, j)) == SumArea(s)
  {
    var m := TryMerge(s[i], s[j]).value;
    var t := s[i := m];
    MergeIsUnion(s[i], s[j]);
    SumAreaUpdate(s, i, m);
    SumAreaRemoveAt(t, j);
    assert t[j] == s[j];
  }

  /** One merge keeps the partition, the covered cells and the total area,
      and removes exactly one entry. */
  lemma MergeAtKeepsPartition(s: seq<BinRect>, used: seq<BinRect>, w: int, h: int, i: int, j: int)
    requires Partition(s, used, w, h)
    requires 0 <= i < j < |s| && TryMerge(s[i], s[j]).Some?
    ensures var r := MergeAt(s, i, j);
      && Partition(r, used, w, h)
      && SumArea(r) == SumArea(s)
      && (forall px, py :: Covered(r, px, py) <==> Covered(s, px, py))
  {
    MergeAtWithin(s, used, w, h, i, j);
    MergeAtDisjoint(s, used, w, h, i, j);
    MergeAtApart(s, used, w, h, i, j);
    MergeAtCovers(s, used, w, h, i, j);
    MergeAtArea(s, used, w, h, i, j);
  }

  /** MergeFreeList keeps the partition, the covered cells and the total
      free area, and never lengthens the free list. */
  lemma {:induction false} MergeFromKeepsPartition(s: seq<BinRect>, used: seq<BinRect>, w: int, h: int, i: nat, j: nat)
    requires Partition(s, used, w, h)
    ensures var r := MergeFrom(s, i, j);
      && Partition(r, used, w, h)
      && |r| <= |s|
      && SumArea(r) == SumArea(s)
      && (forall px, py :: Covered(r, px, py) <==> Covered(s, px, py))
    decreases |s| - i, |s| - j
  {
    if i >= |s| {
    } else if j >= |s| {
      MergeFromKeepsPartition(s, used, w, h, i + 1, i + 2);
    } else if i < j && TryMerge(s[i], s[j]).Some? {
      MergeAtKeepsPartition(s, used, w, h, i, j);
      MergeFromKeepsPartition(MergeAt(s, i, j), used, w, h, i, j);
    } else {
      MergeFromKeepsPartition(s, used, w, h, i, j + 1);
    }
  }

  /** Three rectangles stacked in one column: a single MergeFreeList pass
      joins only two of them, because a later entry is never re-tested against
      an earlier merged one; a second pass is needed to join the third. */
  lemma ThreeWayMergeNeedsTwoPasses()
    ensures MergeFreeRects([BinRect(0, 0, 1, 1), BinRect(0, 2, 1, 1), BinRect(0, 1, 1, 1)])
            == [BinRect(0, 0, 1, 2), BinRect(0, 2, 1, 1)]
  {
    var s := [BinRect(0, 0, 1, 1), BinRect(0, 2, 1, 1), BinRect(0, 1, 1, 1)];
    assert TryMerge(s[0], s[1]).None?;
    assert MergeAt(s, 0, 2) == [BinRect(0, 0, 1, 2), BinRect(0, 2, 1, 1)];
  }

  /** Placing node at the origin of free[i]: free[i] is split and removed,
      the pieces are appended to the free list and node to the used list.
      The result is again a partition of the bin. */
  lemma PlaceKeepsPartition(free: seq<BinRect>, used: seq<BinRect>, w: int, h: int,
                            i: int, node: BinRect, splitHorizontal: bool)
    requires Partition(free, used, w, h)
    requires 0 <= i < |free| && PlacedAtOrigin(free[i], node)
    ensures Partition(RemoveAt(free, i) + SplitPieces(free[i], node, splitHorizontal), used + [node], w, h)
  {
    SplitTiles(free[i], node, splitHorizontal);
    PlaceWithin(free, used, w, h, i, node, splitHorizontal);
    PlaceDisjoint(free, used, w, h, i, node, splitHorizontal);
    PlaceApart(free, used, w, h, i, node, splitHorizontal);
    PlaceCovers(free, used, w, h, i, node, splitHorizontal);
    PlaceArea(free, used, w, h, i, node, splitHorizontal);
  }

  /** The entries after placing all lie in the bin. */
  lemma PlaceWithin(free: seq<BinRect>, used: seq<BinRect>, w: int, h: int,
                    i: int, node: BinRect, splitHorizontal: bool)
    requires AllWithin(free, w, h) && AllWithin(used, w, h)
    requires 0 <= i < |free| && PlacedAtOrigin(free[i], node)
    ensures AllWithin(RemoveAt(free, i) + SplitPieces(free[i], node, splitHorizontal), w, h)
    ensures AllWithin(used + [node], w, h)
  {
    PlaceFreeWithin(free, w, h, i, node, splitHorizontal);
    PlaceUsedWithin(free, used, w, h, i, node, splitHorizontal);
  }

  /** The free entries after placing lie in the bin. */
  lemma PlaceFreeWithin(free: seq<BinRect>, w: int, h: int,
                        i: int, node: BinRect, splitHorizontal: bool)
    requires AllWithin(free, w, h)
    requires 0 <= i < |free| && PlacedAtOrigin(free[i], node)
    ensures AllWithin(RemoveAt(free, i) + SplitPieces(free[i], node, splitHorizontal), w, h)
  {
    var f := free[i];
    var pieces := SplitPieces(f, node, splitHorizontal);
    var rest := RemoveAt(free, i);
    var free' := rest + pieces;
    SplitPiecesInside(f, node, splitHorizontal);
    forall k | 0 <= k < |free'| ensures NonNeg(free'[k]) && IsContainedIn(free'[k], Bin(w, h)) {
      if k >= |rest| {
        assert free'[k] == pieces[k - |rest|];
      } else {
        assert free'[k] == free[if k < i then k else k + 1];
      }
    }
  }

  /** The used entries after placing lie in the bin. */
  lemma PlaceUsedWithin(free: seq<BinRect>, used: seq<BinRect>, w: int, h: int,
                        i: int, node: BinRect, splitHorizontal: bool)
    requires AllWithin(free, w, h) && AllWithin(used, w, h)
    requires 0 <= i < |free| && PlacedAtOrigin(free[i], node)
    ensures AllWithin(used + [node], w, h)
  {
    SplitPiecesInside(free[i], node, splitHorizontal);
    var used' := used + [node];
    forall k | 0 <= k < |used'| ensures NonNeg(used'[k]) && IsContainedIn(used'[k], Bin(w, h)) {
      if k == |used| { assert used'[k] == node; }
    }
  }

  /** The free entries after placing share no cell among themselves. */
  lemma PlaceFreeDisjoint(free: seq<BinRect>, used: seq<BinRect>, w: int, h: int,
                          i: int, node: BinRect, splitHorizontal: bool)
    requires Partition(free, used, w, h)
    requires 0 <= i < |free| && PlacedAtOrigin(free[i], node)
    ensures Disjoint(RemoveAt(free, i) + SplitPieces(free[i], node, splitHorizontal))
  {
    var f := free[i];
    var pieces := SplitPieces(f, node, splitHorizontal);
    var rest := RemoveAt(free, i);
    SplitPiecesInside(f, node, splitHorizontal);
    RemoveAtKeepsDisjoint(free, i);
    forall p, q | 0 <= p < |rest| && 0 <= q < |pieces| ensures !Overlap(rest[p], pieces[q]) {
      var p' := if p < i then p else p + 1;
      assert rest[p] == free[p'] && p' != i;
      assert !Overlap(f, free[p']);
      InsideKeepsApart(pieces[q], f, free[p']);
    }
    ConcatDisjoint(rest, pieces);
  }

  /** The used entries after placing share no cell among themselves. */
  lemma PlaceUsedDisjoint(free: seq<BinRect>, used: seq<BinRect>, w: int, h: int,
                          i: int, node: BinRect, splitHorizontal: bool)
    requires Partition(free, used, w, h)
    requires 0 <= i < |free| && PlacedAtOrigin(free[i], node)
    ensures Disjoint(used + [node])
  {
    var f := free[i];
    SplitPiecesInside(f, node, splitHorizontal);
    forall q | 0 <= q < |used| ensures !Overlap(used[q], node) {
      assert !Overlap(f, used[q]);
      InsideKeepsApart(node, f, used[q]);
    }
    ConcatDisjoint(used, [node]);
  }

  /** The free and the used entries after placing share no cell among
      themselves. */
  lemma PlaceDisjoint(free: seq<BinRect>, used: seq<BinRect>, w: int, h: int,
                      i: int, node: BinRect, splitHorizontal: bool)
    requires Partition(free, used, w, h)
    requires 0 <= i < |free| && PlacedAtOrigin(free[i], node)
    ensures Disjoint(RemoveAt(free, i) + SplitPieces(free[i], node, splitHorizontal))
    ensures Disjoint(used + [node])
  {
    PlaceFreeDisjoint(free, used, w, h, i, node, splitHorizontal);
    PlaceUsedDisjoint(free, used, w, h, i, node, splitHorizontal);
  }

  /** No free entry after placing shares a cell with a used one. */
  lemma PlaceApart(free: seq<BinRect>, used: seq<BinRect>, w: int, h: int,
                   i: int, node: BinRect, splitHorizontal: bool)
    requires Partition(free, used, w, h)
    requires 0 <= i < |free| && PlacedAtOrigin(free[i], node)
    ensures Apart(RemoveAt(free, i) + SplitPieces(free[i], node, splitHorizontal), used + [node])
  {
    var f := free[i];
    var pieces := SplitPieces(f, node, splitHorizontal);
    var rest := RemoveAt(free, i);
    var free' := rest + pieces;
    var used' := used + [node];
    SplitTiles(f, node, splitHorizontal);
    forall p, q | 0 <= p < |free'| && 0 <= q < |used'| ensures !Overlap(free'[p], used'[q]) {
      if p < |rest| {
        var p' := if p < i then p else p + 1;
        assert free'[p] == free[p'] && p' != i;
        if q < |used| {
          assert used'[q] == used[q];
        } else {
          assert used'[q] == node;
          assert !Overlap(f, free[p']);
          InsideKeepsApart(node, f, free[p']);
        }
      } else {
        var piece := pieces[p - |rest|];
        assert free'[p] == piece;
        if q < |used| {
          assert used'[q] == used[q];
          assert !Overlap(f, used[q]);
          InsideKeepsApart(piece, f, used[q]);
        } else {
          assert used'[q] == node;
        }
      }
    }
  }

  /** Every cell of the bin stays free or used. */
  lemma PlaceCovers(free: seq<BinRect>, used: seq<BinRect>, w: int, h: int,
                    i: int, node: BinRect, splitHorizontal: bool)
    requires Partition(free, used, w, h)
    requires 0 <= i < |free| && PlacedAtOrigin(free[i], node)
    ensures Tiles(RemoveAt(free, i) + SplitPieces(free[i], node, splitHorizontal), used + [node], w, h)
  {
    var f := free[i];
    var pieces := SplitPieces(f, node, splitHorizontal);
    var rest := RemoveAt(free, i);
    var free' := rest + pieces;
    var used' := used + [node];
    SplitTiles(f, node, splitHorizontal);
    forall px, py | 0 <= px < w && 0 <= py < h
      ensures Covered(free', px, py) || Covered(used', px, py)
    {
      if Covered(free, px, py) {
        var k :| 0 <= k < |free| && Contains(free[k], px, py);
        if k == i {
          if Contains(node, px, py) {
            assert used'[|used|] == node;
          } else {
            var q :| 0 <= q < |pieces| && Contains(pieces[q], px, py);
            assert free'[|rest| + q] == pieces[q];
          }
        } else {
          var k' := if k < i then k else k - 1;
          assert free'[k'] == free[k];
        }
      } else {
        var k :| 0 <= k < |used| && Contains(used[k], px, py);
        assert used'[k] == used[k];
      }
    }
  }

  /** The free and used areas still add up to the bin. */
  lemma PlaceArea(free: seq<BinRect>, used: seq<BinRect>, w: int, h: int,
                  i: int, node: BinRect, splitHorizontal: bool)
    requires Partition(free, used, w, h)
    requires 0 <= i < |free| && PlacedAtOrigin(free[i], node)
    ensures SumArea(RemoveAt(free, i) + SplitPieces(free[i], node, splitHorizontal)) + SumArea(used + [node]) == w * h
  {
    var pieces := SplitPieces(free[i], node, splitHorizontal);
    SplitTiles(free[i], node, splitHorizontal);
    SumAreaAppend(RemoveAt(free, i), pieces);
    SumAreaRemoveAt(free, i);
    SumAreaAppend(used, [node]);
    assert SumArea([node]) == Area(node) + SumArea([]);
  }
}
