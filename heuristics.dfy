/** The placement-choice heuristics (which free rectangle receives a request)
    and the split heuristics (how the L-shaped leftover of a free rectangle is
    cut in two) of GuillotineBinPack.  All of them are pure functions of the
    sizes involved. */
module Heuristics {
  import opened Geometry

  /** int.MaxValue and int.MinValue, the sentinels of the score searches. */
  const INT_MAX: int := 0x7fff_ffff
  const INT_MIN: int := -0x8000_0000

  /** FreeRectChoiceHeuristic.  UndefinedChoice stands for any integer outside
      the six named members, which a C# enum variable can hold. */
  datatype FreeRectChoiceHeuristic =
    | RectBestAreaFit
    | RectBestShortSideFit
    | RectBestLongSideFit
    | RectWorstAreaFit
    | RectWorstShortSideFit
    | RectWorstLongSideFit
    | UndefinedChoice

  /** GuillotineSplitHeuristic, with UndefinedSplit for out-of-range values. */
  datatype GuillotineSplitHeuristic =
    | SplitShorterLeftoverAxis
    | SplitLongerLeftoverAxis
    | SplitMinimizeArea
    | SplitMaximizeArea
    | SplitShorterAxis
    | SplitLongerAxis
    | UndefinedSplit

  function Abs(v: int): int { if v < 0 then -v else v }

  lemma MulLeq(a: int, b: int, c: int, d: int)
    requires 0 <= a <= c && 0 <= b <= d
    ensures a * b <= c * d
  {
    assert a * b <= c * b;
    assert c * b <= c * d;
  }

  lemma MulLess(a: int, b: int, c: int, d: int)
    requires 0 < a <= c && 0 < b <= d && (a < c || b < d)
    ensures a * b < c * d
  {
    if a < c {
      assert a * b < c * b;
      assert c * b <= c * d;
    } else {
      assert a * b < a * d;
    }
  }

  /** A request that fits upright covers at most the free area, and less
      when it is smaller along a side. */
  lemma AreaLeftOver(width: int, height: int, freeRect: BinRect)
    ensures 0 <= width <= freeRect.width && 0 <= height <= freeRect.height ==>
              width * height <= freeRect.width * freeRect.height
    ensures 0 < width <= freeRect.width && 0 < height <= freeRect.height &&
            (width < freeRect.width || height < freeRect.height) ==>
              width * height < freeRect.width * freeRect.height
  {
    if 0 <= width <= freeRect.width && 0 <= height <= freeRect.height {
      MulLeq(width, height, freeRect.width, freeRect.height);
      if 0 < width && 0 < height && (width < freeRect.width || height < freeRect.height) {
        MulLess(width, height, freeRect.width, freeRect.height);
      }
    }
  }

  /** Best Area Fit: the free area left over.  For a request that fits
      upright it lies between 0 and the free area, and it is 0 exactly when
      the request fills the free rectangle. */
  function ScoreBestAreaFit(width: int, height: int, freeRect: BinRect): (score: int)
    ensures 0 <= width <= freeRect.width && 0 <= height <= freeRect.height ==>
              0 <= score <= Area(freeRect)
    ensures 0 < width <= freeRect.width && 0 < height <= freeRect.height ==>
              (score == 0 <==> width == freeRect.width && height == freeRect.height)
  {
    AreaLeftOver(width, height, freeRect);
    freeRect.width * freeRect.height - width * height
  }

  /** Best Short Side Fit: the smaller of the two leftover side lengths. */
  function ScoreBestShortSideFit(width: int, height: int, freeRect: BinRect): (score: int)
    ensures 0 <= score
    ensures score <= Abs(freeRect.width - width) && score <= Abs(freeRect.height - height)
    ensures score == Abs(freeRect.width - width) || score == Abs(freeRect.height - height)
  {
    var leftoverHoriz := Abs(freeRect.width - width);
    var leftoverVert := Abs(freeRect.height - height);
    if leftoverHoriz < leftoverVert then leftoverHoriz else leftoverVert
  }

  /** Best Long Side Fit: the larger of the two leftover side lengths. */
  function ScoreBestLongSideFit(width: int, height: int, freeRect: BinRect): (score: int)
    ensures score >= Abs(freeRect.width - width) && score >= Abs(freeRect.height - height)
    ensures score == Abs(freeRect.width - width) || score == Abs(freeRect.height - height)
  {
    var leftoverHoriz := Abs(freeRect.width - width);
    var leftoverVert := Abs(freeRect.height - height);
    if leftoverHoriz > leftoverVert then leftoverHoriz else leftoverVert
  }

  function ScoreWorstAreaFit(width: int, height: int, freeRect: BinRect): int
  {
    -ScoreBestAreaFit(width, height, freeRect)
  }

  function ScoreWorstShortSideFit(width: int, height: int, freeRect: BinRect): int
  {
    -ScoreBestShortSideFit(width, height, freeRect)
  }

  function ScoreWorstLongSideFit(width: int, height: int, freeRect: BinRect): int
  {
    -ScoreBestLongSideFit(width, height, freeRect)
  }

  /** ScoreByHeuristic: dispatch on the choice; an undefined choice scores
      int.MaxValue, so it never beats the initial best score. */
  function ScoreByHeuristic(width: int, height: int, freeRect: BinRect,
                            rectChoice: FreeRectChoiceHeuristic): (score: int)
    ensures rectChoice == UndefinedChoice ==> score == INT_MAX
  {
    match rectChoice
    case RectBestAreaFit => ScoreBestAreaFit(width, height, freeRect)
    case RectBestShortSideFit => ScoreBestShortSideFit(width, height, freeRect)
    case RectBestLongSideFit => ScoreBestLongSideFit(width, height, freeRect)
    case RectWorstAreaFit => ScoreWorstAreaFit(width, height, freeRect)
    case RectWorstShortSideFit => ScoreWorstShortSideFit(width, height, freeRect)
    case RectWorstLongSideFit => ScoreWorstLongSideFit(width, height, freeRect)
    case UndefinedChoice => INT_MAX
  }

  /** Each Worst heuristic ranks candidates in the reverse order of its Best
      counterpart, and the short-side score never exceeds the long-side one. */
  lemma WorstReversesBest(width: int, height: int, f: BinRect)
    ensures ScoreByHeuristic(width, height, f, RectWorstAreaFit) == -ScoreByHeuristic(width, height, f, RectBestAreaFit)
    ensures ScoreByHeuristic(width, height, f, RectWorstShortSideFit) == -ScoreByHeuristic(width, height, f, RectBestShortSideFit)
    ensures ScoreByHeuristic(width, height, f, RectWorstLongSideFit) == -ScoreByHeuristic(width, height, f, RectBestLongSideFit)
    ensures ScoreByHeuristic(width, height, f, RectBestShortSideFit) <= ScoreByHeuristic(width, height, f, RectBestLongSideFit)
  {
  }

  /** A 40 x 90 request in a free 100 x 100 rectangle. */
  lemma ScoreExample()
    ensures ScoreByHeuristic(40, 90, BinRect(0, 0, 100, 100), RectBestShortSideFit) == 10
    ensures ScoreByHeuristic(40, 90, BinRect(0, 0, 100, 100), RectBestAreaFit) == 6400
  {
  }

  /** A free rectangle whose sides and area are below int.MaxValue. */
  predicate Bounded(f: BinRect)
  {
    0 <= f.width < INT_MAX && 0 <= f.height < INT_MAX && Area(f) < INT_MAX
  }

  predicate FitsUpright(f: BinRect, width: int, height: int)
  {
    width <= f.width && height <= f.height
  }

  predicate FitsSideways(f: BinRect, width: int, height: int)
  {
    height <= f.width && width <= f.height
  }

  /** Any of the six heuristics scores a fitting request in a bounded free
      rectangle strictly below int.MaxValue, whichever orientation fits and
      in whichever order width and height are passed. */
  lemma ScoreBelowMax(width: int, height: int, f: BinRect, rectChoice: FreeRectChoiceHeuristic)
    requires rectChoice != UndefinedChoice && Bounded(f)
    requires 0 <= width && 0 <= height
    requires FitsUpright(f, width, height) || FitsSideways(f, width, height)
    ensures ScoreByHeuristic(width, height, f, rectChoice) < INT_MAX
  {
    if FitsUpright(f, width, height) {
      MulLeq(width, height, f.width, f.height);
    } else {
      MulLeq(height, width, f.width, f.height);
    }
    assert 0 <= ScoreBestAreaFit(width, height, f) <= Area(f);
  }

  /** The split decision of SplitFreeRectByHeuristic, on the leftover lengths
      w = free width - placed width and h = free height - placed height. */
  function SplitHorizontal(splitMethod: GuillotineSplitHeuristic, freeRect: BinRect, placedRect: BinRect): bool
  {
    var w := freeRect.width - placedRect.width;
    var h := freeRect.height - placedRect.height;
    match splitMethod
    case SplitShorterLeftoverAxis => w <= h
    case SplitLongerLeftoverAxis => w > h
    case SplitMinimizeArea => placedRect.width * h > w * placedRect.height
    case SplitMaximizeArea => placedRect.width * h <= w * placedRect.height
    case SplitShorterAxis => freeRect.width <= freeRect.height
    case SplitLongerAxis => freeRect.width > freeRect.height
    case UndefinedSplit => true
  }

  /** The split policies come in complementary pairs that always choose
      opposite cuts, and an undefined policy cuts horizontally. */
  lemma SplitPoliciesComplementary(f: BinRect, p: BinRect)
    ensures SplitHorizontal(SplitShorterLeftoverAxis, f, p) == !SplitHorizontal(SplitLongerLeftoverAxis, f, p)
    ensures SplitHorizontal(SplitMinimizeArea, f, p) == !SplitHorizontal(SplitMaximizeArea, f, p)
    ensures SplitHorizontal(SplitShorterAxis, f, p) == !SplitHorizontal(SplitLongerAxis, f, p)
    ensures SplitHorizontal(UndefinedSplit, f, p)
  {
  }

  /** The part of freeRect below placedRect (full width when cutting
      horizontally). */
  function BottomPiece(freeRect: BinRect, placedRect: BinRect, splitHorizontal: bool): BinRect
  {
    BinRect(freeRect.x, freeRect.y + placedRect.height,
            if splitHorizontal then freeRect.width else placedRect.width,
            freeRect.height - placedRect.height)
  }

  /** The part of freeRect right of placedRect (full height when cutting
      vertically). */
  function RightPiece(freeRect: BinRect, placedRect: BinRect, splitHorizontal: bool): BinRect
  {
    BinRect(freeRect.x + placedRect.width, freeRect.y,
            freeRect.width - placedRect.width,
            if splitHorizontal then placedRect.height else freeRect.height)
  }

  /** The rectangles SplitFreeRectAlongAxis appends to the free list: the
      bottom part, then the right part, each only when both its sides are
      positive. */
  function SplitPieces(freeRect: BinRect, placedRect: BinRect, splitHorizontal: bool): (pieces: seq<BinRect>)
    ensures |pieces| <= 2
    ensures forall k :: 0 <= k < |pieces| ==> pieces[k].width > 0 && pieces[k].height > 0
  {
    var bottom := BottomPiece(freeRect, placedRect, splitHorizontal);
    var right := RightPiece(freeRect, placedRect, splitHorizontal);
    (if bottom.width > 0 && bottom.height > 0 then [bottom] else [])
    + (if right.width > 0 && right.height > 0 then [right] else [])
  }

  /** A placed rectangle at the free rectangle's origin that fits in it. */
  predicate PlacedAtOrigin(f: BinRect, p: BinRect)
  {
    p.x == f.x && p.y == f.y && 0 <= p.width <= f.width && 0 <= p.height <= f.height
  }

  lemma SplitPiecesShape(f: BinRect, p: BinRect, splitHorizontal: bool)
    ensures var pieces := SplitPieces(f, p, splitHorizontal);
      var bottom := BottomPiece(f, p, splitHorizontal);
      var right := RightPiece(f, p, splitHorizontal);
      forall k :: 0 <= k < |pieces| ==> pieces[k] == bottom || pieces[k] == right
  {
  }

  /** Each piece lies in the free rectangle beside the placed one, and the two
      pieces share no cell. */
  lemma SplitPiecesInside(f: BinRect, p: BinRect, splitHorizontal: bool)
    requires PlacedAtOrigin(f, p)
    ensures var pieces := SplitPieces(f, p, splitHorizontal);
      && IsContainedIn(p, f)
      && (forall k :: 0 <= k < |pieces| ==>
            IsContainedIn(pieces[k], f) && !Overlap(pieces[k], p) && !Overlap(p, pieces[k]))
      && Disjoint(pieces)
  {
    var bottom := BottomPiece(f, p, splitHorizontal);
    var right := RightPiece(f, p, splitHorizontal);
    SplitPiecesShape(f, p, splitHorizontal);
    assert !Overlap(bottom, right) && !Overlap(right, bottom);
  }

  lemma ZeroSideZeroArea(r: BinRect)
    requires NonNeg(r) && !(r.width > 0 && r.height > 0)
    ensures Area(r) == 0
  {
    if r.width == 0 { assert r.width * r.height == 0; }
    else { assert r.height == 0; assert r.width * r.height == 0; }
  }

  /** The two ways of cutting an a x b rectangle around a c x d corner. */
  lemma CutAreas(a: int, b: int, c: int, d: int)
    ensures a * (b - d) + (a - c) * d + c * d == a * b
    ensures c * (b - d) + (a - c) * b + c * d == a * b
  {
    assert a * (b - d) == a * b - a * d;
    assert (a - c) * d == a * d - c * d;
    assert c * (b - d) == c * b - c * d;
    assert (a - c) * b == a * b - c * b;
  }

  lemma SplitPiecesArea(f: BinRect, p: BinRect, splitHorizontal: bool)
    requires PlacedAtOrigin(f, p)
    ensures SumArea(SplitPieces(f, p, splitHorizontal)) + Area(p) == Area(f)
  {
    var bottom := BottomPiece(f, p, splitHorizontal);
    var right := RightPiece(f, p, splitHorizontal);
    var keepB := bottom.width > 0 && bottom.height > 0;
    var keepR := right.width > 0 && right.height > 0;
    var partB: seq<BinRect> := if keepB then [bottom] else [];
    var partR: seq<BinRect> := if keepR then [right] else [];
    assert SplitPieces(f, p, splitHorizontal) == partB + partR;
    SumAreaAppend(partB, partR);
    assert SumArea(partB) == Area(bottom) by {
      if !keepB { ZeroSideZeroArea(bottom); }
    }
    assert SumArea(partR) == Area(right) by {
      if !keepR { ZeroSideZeroArea(right); }
    }
    assert Area(bottom) + Area(right) + Area(p) == Area(f) by {
      CutAreas(f.width, f.height, p.width, p.height);
      if splitHorizontal {
        assert Area(bottom) == f.width * (f.height - p.height);
        assert Area(right) == (f.width - p.width) * p.height;
      } else {
        assert Area(bottom) == p.width * (f.height - p.height);
        assert Area(right) == (f.width - p.width) * f.height;
      }
    }
  }

  lemma SplitPiecesCells(f: BinRect, p: BinRect, splitHorizontal: bool)
    requires PlacedAtOrigin(f, p)
    ensures var pieces := SplitPieces(f, p, splitHorizontal);
      forall px, py :: Contains(f, px, py) <==> Contains(p, px, py) || Covered(pieces, px, py)
  {
    var pieces := SplitPieces(f, p, splitHorizontal);
    var bottom := BottomPiece(f, p, splitHorizontal);
    var right := RightPiece(f, p, splitHorizontal);
    SplitPiecesShape(f, p, splitHorizontal);
    forall px, py
      ensures Contains(f, px, py) <==> Contains(p, px, py) || Covered(pieces, px, py)
    {
      if Contains(f, px, py) && !Contains(p, px, py) {
        if Contains(bottom, px, py) {
          assert pieces[0] == bottom;
        } else {
          assert Contains(right, px, py);
          assert pieces[|pieces| - 1] == right;
        }
      }
      if Covered(pieces, px, py) {
        var k :| 0 <= k < |pieces| && Contains(pieces[k], px, py);
        assert pieces[k] == bottom || pieces[k] == right;
      }
    }
  }

  /** A request placed at the origin of a free rectangle it fits in: the
      placed rectangle and the pieces partition the free rectangle exactly,
      cell for cell and in area, whichever axis is cut. */
  lemma SplitTiles(f: BinRect, p: BinRect, splitHorizontal: bool)
    requires PlacedAtOrigin(f, p)
    ensures var pieces := SplitPieces(f, p, splitHorizontal);
      && IsContainedIn(p, f)
      && (forall k :: 0 <= k < |pieces| ==>
            IsContainedIn(pieces[k], f) && !Overlap(pieces[k], p) && !Overlap(p, pieces[k]))
      && Disjoint(pieces)
      && SumArea(pieces) + Area(p) == Area(f)
      && (forall px, py :: Contains(f, px, py) <==> Contains(p, px, py) || Covered(pieces, px, py))
  {
    SplitPiecesInside(f, p, splitHorizontal);
    SplitPiecesArea(f, p, splitHorizontal);
    SplitPiecesCells(f, p, splitHorizontal);
  }
}
