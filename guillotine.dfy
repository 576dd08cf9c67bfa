/** GuillotineBinPack: a bin whose free space is kept as a list of disjoint
    rectangles.  Each placement goes to the origin of a free rectangle, whose
    L-shaped leftover is cut in two by a guillotine split. */
module Guillotine {
  import opened Util
  import opened Geometry
  import opened Heuristics
  import opened FreeSpace

  /** How one free rectangle answers one request during a placement search:
      not at all, as an exact fit (which ends the search), or with a score.
      flipped tells whether the request is placed turned sideways. */
  datatype Fit = NoFit | ExactFit(flipped: bool) | ScoredFit(flipped: bool, score: int)

  /** The node placed at the origin of f for a width x height request. */
  function NodeFor(f: BinRect, width: int, height: int, flipped: bool): BinRect
  {
    BinRect(f.x, f.y, if flipped then height else width, if flipped then width else height)
  }

  /** The branches of the loop body of FindPositionForNewNode for free
      rectangle f.  The sideways branch scores the request with width and
      height in their given order, not turned. */
  function SingleFit(f: BinRect, width: int, height: int, rectChoice: FreeRectChoiceHeuristic): (fit: Fit)
    ensures fit.NoFit? <==> !FitsUpright(f, width, height) && !FitsSideways(f, width, height)
    ensures !fit.NoFit? && 0 <= width && 0 <= height ==>
              PlacedAtOrigin(f, NodeFor(f, width, height, fit.flipped))
    ensures fit.ExactFit? ==>
              NodeFor(f, width, height, fit.flipped).width == f.width &&
              NodeFor(f, width, height, fit.flipped).height == f.height
  {
    if width == f.width && height == f.height then ExactFit(false)
    else if height == f.width && width == f.height then ExactFit(true)
    else if width <= f.width && height <= f.height then ScoredFit(false, ScoreByHeuristic(width, height, f, rectChoice))
    else if height <= f.width && width <= f.height then ScoredFit(true, ScoreByHeuristic(width, height, f, rectChoice))
    else NoFit
  }

  /** The branches of the inner loop of the batch Insert for free rectangle f
      and request r.  The sideways branch scores the request turned. */
  function BatchFit(f: BinRect, r: RectSize, rectChoice: FreeRectChoiceHeuristic): (fit: Fit)
    ensures fit.NoFit? <==> !FitsUpright(f, r.width, r.height) && !FitsSideways(f, r.width, r.height)
    ensures !fit.NoFit? && 0 <= r.width && 0 <= r.height ==>
              PlacedAtOrigin(f, NodeFor(f, r.width, r.height, fit.flipped))
    ensures fit.ExactFit? ==>
              NodeFor(f, r.width, r.height, fit.flipped).width == f.width &&
              NodeFor(f, r.width, r.height, fit.flipped).height == f.height
  {
    if r.width == f.width && r.height == f.height then ExactFit(false)
    else if r.height == f.width && r.width == f.height then ExactFit(true)
    else if r.width <= f.width && r.height <= f.height then ScoredFit(false, ScoreByHeuristic(r.width, r.height, f, rectChoice))
    else if r.height <= f.width && r.width <= f.height then ScoredFit(true, ScoreByHeuristic(r.height, r.width, f, rectChoice))
    else NoFit
  }

  /** The batch path scores every candidate by the node it would place. */
  lemma BatchScoresPlacedNode(f: BinRect, r: RectSize, rectChoice: FreeRectChoiceHeuristic)
    requires BatchFit(f, r, rectChoice).ScoredFit?
    ensures var fit := BatchFit(f, r, rectChoice);
      var node := NodeFor(f, r.width, r.height, fit.flipped);
      fit.score == ScoreByHeuristic(node.width, node.height, f, rectChoice)
  {
  }

  /** The single-request path does not: a 4 x 8 request that only fits a
      10 x 5 free rectangle sideways is scored as if placed 4 wide, 8 high
      (short-side leftover 3), while the node it places is 8 x 4 (short-side
      leftover 1), which is what the batch path scores. */
  lemma SingleSidewaysScoreIsUnturned()
    ensures var f := BinRect(0, 0, 10, 5);
      var fit := SingleFit(f, 4, 8, RectBestShortSideFit);
      var node := NodeFor(f, 4, 8, fit.flipped);
      && fit == ScoredFit(true, 3)
      && ScoreByHeuristic(node.width, node.height, f, RectBestShortSideFit) == 1
      && BatchFit(f, RectSize(4, 8), RectBestShortSideFit) == ScoredFit(true, 1)
  {
  }

  /** The answers of every free rectangle, in list order. */
  function SingleFits(free: seq<BinRect>, width: int, height: int, rectChoice: FreeRectChoiceHeuristic): (fits: seq<Fit>)
    ensures |fits| == |free|
    ensures forall k :: 0 <= k < |free| ==> fits[k] == SingleFit(free[k], width, height, rectChoice)
  {
    seq(|free|, k requires 0 <= k < |free| => SingleFit(free[k], width, height, rectChoice))
  }

  /** k is the first exact fit. */
  predicate FirstExact(fits: seq<Fit>, k: int)
  {
    0 <= k < |fits| && fits[k].ExactFit? &&
    forall j :: 0 <= j < k ==> !fits[j].ExactFit?
  }

  /** There is no exact fit and k holds the lowest score below int.MaxValue,
      the first one among equal lowest scores. */
  predicate LowestScore(fits: seq<Fit>, k: int)
  {
    && 0 <= k < |fits|
    && (forall j :: 0 <= j < |fits| ==> !fits[j].ExactFit?)
    && fits[k].ScoredFit? && fits[k].score < INT_MAX
    && (forall j :: 0 <= j < |fits| && fits[j].ScoredFit? ==> fits[k].score <= fits[j].score)
    && (forall j :: 0 <= j < k && fits[j].ScoredFit? ==> fits[k].score < fits[j].score)
  }

  /** Nothing is exact and nothing scores below int.MaxValue. */
  predicate NoneChosen(fits: seq<Fit>)
  {
    forall j :: 0 <= j < |fits| ==> !fits[j].ExactFit? && (fits[j].ScoredFit? ==> fits[j].score >= INT_MAX)
  }

  /** The index a placement search settles on; -1 when there is none. */
  predicate Chosen(fits: seq<Fit>, k: int)
  {
    if k < 0 then k == -1 && NoneChosen(fits) else FirstExact(fits, k) || LowestScore(fits, k)
  }

  /** The search result is determined: at most one index is chosen. */
  lemma {:induction false} ChosenUnique(fits: seq<Fit>, k1: int, k2: int)
    requires Chosen(fits, k1) && Chosen(fits, k2)
    ensures k1 == k2
  {
  }

  /** Where the node goes for chosen index k: the default zero rectangle when
      k is -1, otherwise at the origin of free[k], turned when it fits only
      sideways. */
  function Placement(free: seq<BinRect>, width: int, height: int, rectChoice: FreeRectChoiceHeuristic, k: int): (node: BinRect)
    requires -1 <= k < |free|
    requires k == -1 || !SingleFit(free[k], width, height, rectChoice).NoFit?
    ensures k == -1 ==> node == ZeroRect
    ensures 0 <= k && 0 <= width && 0 <= height ==>
              PlacedAtOrigin(free[k], node)
  {
    if k == -1 then ZeroRect else NodeFor(free[k], width, height, SingleFit(free[k], width, height, rectChoice).flipped)
  }

  /** With a defined heuristic, free rectangles of bounded size and a request
      of non-negative size, the search finds nothing exactly when no free
      rectangle takes the request either way round. */
  lemma NoneChosenIffNothingFits(free: seq<BinRect>, width: int, height: int, rectChoice: FreeRectChoiceHeuristic)
    requires rectChoice != UndefinedChoice && 0 <= width && 0 <= height
    requires forall k :: 0 <= k < |free| ==> Bounded(free[k])
    ensures NoneChosen(SingleFits(free, width, height, rectChoice)) <==>
            forall k :: 0 <= k < |free| ==> !FitsUpright(free[k], width, height) && !FitsSideways(free[k], width, height)
  {
    var fits := SingleFits(free, width, height, rectChoice);
    forall k | 0 <= k < |free| && (FitsUpright(free[k], width, height) || FitsSideways(free[k], width, height))
      ensures fits[k].ExactFit? || (fits[k].ScoredFit? && fits[k].score < INT_MAX)
    {
      ScoreBelowMax(width, height, free[k], rectChoice);
    }
  }

  /** Pair (i1, j1) is scanned before pair (i2, j2): free rectangles in the
      outer loop, requests in the inner one. */
  predicate Before(i1: int, j1: int, i2: int, j2: int)
  {
    i1 < i2 || (i1 == i2 && j1 < j2)
  }

  /** (bi, bj) is the first exact fit in scan order. */
  predicate FirstExactPair(free: seq<BinRect>, rects: seq<RectSize>, rectChoice: FreeRectChoiceHeuristic, bi: int, bj: int)
  {
    && 0 <= bi < |free| && 0 <= bj < |rects|
    && BatchFit(free[bi], rects[bj], rectChoice).ExactFit?
    && forall i, j :: 0 <= i < |free| && 0 <= j < |rects| && Before(i, j, bi, bj) ==>
         !BatchFit(free[i], rects[j], rectChoice).ExactFit?
  }

  /** There is no exact fit and (bi, bj) holds the lowest score below
      int.MaxValue, the first in scan order among equal lowest scores. */
  predicate LowestScorePair(free: seq<BinRect>, rects: seq<RectSize>, rectChoice: FreeRectChoiceHeuristic, bi: int, bj: int)
  {
    && 0 <= bi < |free| && 0 <= bj < |rects|
    && (forall i, j :: 0 <= i < |free| && 0 <= j < |rects| ==> !BatchFit(free[i], rects[j], rectChoice).ExactFit?)
    && BatchFit(free[bi], rects[bj], rectChoice).ScoredFit?
    && BatchFit(free[bi], rects[bj], rectChoice).score < INT_MAX
    && (forall i, j :: 0 <= i < |free| && 0 <= j < |rects| && BatchFit(free[i], rects[j], rectChoice).ScoredFit? ==>
          BatchFit(free[bi], rects[bj], rectChoice).score <= BatchFit(free[i], rects[j], rectChoice).score)
    && (forall i, j ::
          (0 <= i < |free| && 0 <= j < |rects| && Before(i, j, bi, bj) && BatchFit(free[i], rects[j], rectChoice).ScoredFit?) ==>
          BatchFit(free[bi], rects[bj], rectChoice).score < BatchFit(free[i], rects[j], rectChoice).score)
  }

  /** No pair is exact and no pair scores below int.MaxValue. */
  predicate NoPairChosen(free: seq<BinRect>, rects: seq<RectSize>, rectChoice: FreeRectChoiceHeuristic)
  {
    forall i, j :: 0 <= i < |free| && 0 <= j < |rects| ==>
      !BatchFit(free[i], rects[j], rectChoice).ExactFit? &&
      (BatchFit(free[i], rects[j], rectChoice).ScoredFit? ==> BatchFit(free[i], rects[j], rectChoice).score >= INT_MAX)
  }

  /** With a defined heuristic and bounded free rectangles, the batch search
      gives up exactly when no request fits any free rectangle either way. */
  lemma NoPairChosenIffNothingFits(free: seq<BinRect>, rects: seq<RectSize>, rectChoice: FreeRectChoiceHeuristic)
    requires rectChoice != UndefinedChoice
    requires forall i :: 0 <= i < |free| ==> Bounded(free[i])
    requires forall j :: 0 <= j < |rects| ==> 0 <= rects[j].width && 0 <= rects[j].height
    ensures NoPairChosen(free, rects, rectChoice) <==>
            forall i, j :: 0 <= i < |free| && 0 <= j < |rects| ==>
              !FitsUpright(free[i], rects[j].width, rects[j].height) && !FitsSideways(free[i], rects[j].width, rects[j].height)
  {
    forall i, j | 0 <= i < |free| && 0 <= j < |rects| &&
                  (FitsUpright(free[i], rects[j].width, rects[j].height) || FitsSideways(free[i], rects[j].width, rects[j].height))
      ensures BatchFit(free[i], rects[j], rectChoice).ExactFit? ||
              BatchFit(free[i], rects[j], rectChoice).score < INT_MAX
    {
      ScoreBelowMax(rects[j].width, rects[j].height, free[i], rectChoice);
      ScoreBelowMax(rects[j].height, rects[j].width, free[i], rectChoice);
    }
  }

  /** The free list after node is placed in free[index]: the pieces of the
      split are appended, free[index] is removed, and the list is merged when
      asked to. */
  function AfterPlacing(free: seq<BinRect>, index: int, node: BinRect, merge: bool,
                        splitMethod: GuillotineSplitHeuristic): seq<BinRect>
    requires 0 <= index < |free|
  {
    var s := RemoveAt(free, index) + SplitPieces(free[index], node, SplitHorizontal(splitMethod, free[index], node));
    if merge then MergeFreeRects(s) else s
  }

  /** Placing a node that fits at the origin of free[index], then merging or
      not, keeps the free and used lists a partition of the bin. */
  lemma PlacingKeepsPartition(free: seq<BinRect>, used: seq<BinRect>, w: int, h: int, index: int, node: BinRect,
                              merge: bool, splitMethod: GuillotineSplitHeuristic)
    requires Partition(free, used, w, h)
    requires 0 <= index < |free| && PlacedAtOrigin(free[index], node)
    ensures Partition(AfterPlacing(free, index, node, merge, splitMethod), used + [node], w, h)
  {
    var horiz := SplitHorizontal(splitMethod, free[index], node);
    PlaceKeepsPartition(free, used, w, h, index, node, horiz);
    if merge {
      MergeFromKeepsPartition(RemoveAt(free, index) + SplitPieces(free[index], node, horiz), used + [node], w, h, 0, 1);
    }
  }

  /** The first step of the trace below: Insert(1, 1) into an empty 3 x 2
      bin leaves two free rectangles that, with the placed node, still
      partition the bin. */
  lemma FirstInsertOfTrace()
    ensures var first := BinRect(0, 0, 1, 1);
      AfterPlacing([Bin(3, 2)], 0, first, false, SplitShorterLeftoverAxis) ==
        [BinRect(0, 1, 1, 1), BinRect(1, 0, 2, 2)]
    ensures Partition([BinRect(0, 1, 1, 1), BinRect(1, 0, 2, 2)], [BinRect(0, 0, 1, 1)], 3, 2)
  {
    var first := BinRect(0, 0, 1, 1);
    InitIsPartition(3, 2);
    FirstSplitOfTrace();
    PlacingKeepsPartition([Bin(3, 2)], [], 3, 2, 0, first, false, SplitShorterLeftoverAxis);
    assert [] + [first] == [first];
  }

  /** The split of the first step of the trace below. */
  lemma FirstSplitOfTrace()
    ensures AfterPlacing([Bin(3, 2)], 0, BinRect(0, 0, 1, 1), false, SplitShorterLeftoverAxis) ==
      [BinRect(0, 1, 1, 1), BinRect(1, 0, 2, 2)]
  {
    var f, node := Bin(3, 2), BinRect(0, 0, 1, 1);
    assert !SplitHorizontal(SplitShorterLeftoverAxis, f, node);
    FirstPiecesOfTrace();
    assert RemoveAt([f], 0) == [] by {
      assert |RemoveAt([f], 0)| == 0;
    }
  }

  /** The pieces that first split cuts off, cutting vertically. */
  lemma FirstPiecesOfTrace()
    ensures SplitPieces(Bin(3, 2), BinRect(0, 0, 1, 1), false) == [BinRect(0, 1, 1, 1), BinRect(1, 0, 2, 2)]
  {
    var f, node := Bin(3, 2), BinRect(0, 0, 1, 1);
    assert BottomPiece(f, node, false) == BinRect(0, 1, 1, 1);
    assert RightPiece(f, node, false) == BinRect(1, 0, 2, 2);
  }

  /** The second step of the trace below: splitting free rectangle 0 for
      the node placed in free rectangle 1 leaves that node listed as free. */
  lemma SecondInsertOfTraceOverlaps()
    ensures var free := [BinRect(0, 1, 1, 1), BinRect(1, 0, 2, 2)];
      var node := BinRect(1, 0, 2, 2);
      !Partition(AfterPlacing(free, 0, node, false, SplitShorterLeftoverAxis), [BinRect(0, 0, 1, 1)] + [node], 3, 2)
  {
    var free := [BinRect(0, 1, 1, 1), BinRect(1, 0, 2, 2)];
    var node := BinRect(1, 0, 2, 2);
    assert SplitPieces(free[0], node, SplitHorizontal(SplitShorterLeftoverAxis, free[0], node)) == [];
    var after := AfterPlacing(free, 0, node, false, SplitShorterLeftoverAxis);
    assert after == [node];
    var used' := [BinRect(0, 0, 1, 1)] + [node];
    assert used'[1] == node;
    assert Overlap(after[0], used'[1]);
  }

  /** A state the as-written single Insert reaches from Init(3, 2) and
      Insert(1, 1), and the next Insert(2, 2) from it: the search settles on
      free rectangle 1, an exact fit, but free rectangle 0 is split and
      removed.  The placed node stays listed as free and cell (0, 1) is lost. */
  lemma InsertAtIndexZeroBreaksPartition()
    ensures var first := BinRect(0, 0, 1, 1);
      AfterPlacing([Bin(3, 2)], 0, first, false, SplitShorterLeftoverAxis) ==
        [BinRect(0, 1, 1, 1), BinRect(1, 0, 2, 2)]
    ensures var free := [BinRect(0, 1, 1, 1), BinRect(1, 0, 2, 2)];
      var used := [BinRect(0, 0, 1, 1)];
      var fits := SingleFits(free, 2, 2, RectBestAreaFit);
      var node := Placement(free, 2, 2, RectBestAreaFit, 1);
      && Partition(free, used, 3, 2)
      && Chosen(fits, 1)
      && node == BinRect(1, 0, 2, 2)
      && !Partition(AfterPlacing(free, 0, node, false, SplitShorterLeftoverAxis), used + [node], 3, 2)
  {
    FirstInsertOfTrace();
    SecondInsertOfTraceOverlaps();
    var free := [BinRect(0, 1, 1, 1), BinRect(1, 0, 2, 2)];
    var fits := SingleFits(free, 2, 2, RectBestAreaFit);
    assert fits[0] == NoFit && fits[1] == ExactFit(false);
  }

  /** A sum of areas of rectangles of non-negative size is non-negative. */
  lemma {:induction false} SumAreaNonNeg(s: seq<BinRect>)
    requires forall k :: 0 <= k < |s| ==> NonNeg(s[k])
    ensures SumArea(s) >= 0
  {
    if s != [] {
      assert Area(s[0]) >= 0 by { MulLeq(0, 0, s[0].width, s[0].height); }
      SumAreaNonNeg(s[1..]);
    }
  }

  /** Every pair scanned before (i, j) is not exact and scores no lower
      than bestScore. */
  predicate ScannedBefore(free: seq<BinRect>, rects: seq<RectSize>, rectChoice: FreeRectChoiceHeuristic,
                          i: int, j: int, bestScore: int)
  {
    forall p, q :: 0 <= p < |free| && 0 <= q < |rects| && Before(p, q, i, j) ==>
      !BatchFit(free[p], rects[q], rectChoice).ExactFit? &&
      (BatchFit(free[p], rects[q], rectChoice).ScoredFit? ==> bestScore <= BatchFit(free[p], rects[q], rectChoice).score)
  }

  /** (bi, bj) scores bestScore, strictly lower than any pair before it. */
  predicate BestSoFar(free: seq<BinRect>, rects: seq<RectSize>, rectChoice: FreeRectChoiceHeuristic,
                      bi: int, bj: int, flipped: bool, bestScore: int)
  {
    && 0 <= bi < |free| && 0 <= bj < |rects|
    && BatchFit(free[bi], rects[bj], rectChoice) == ScoredFit(flipped, bestScore)
    && forall p, q ::
         (0 <= p < |free| && 0 <= q < |rects| && Before(p, q, bi, bj) && BatchFit(free[p], rects[q], rectChoice).ScoredFit?) ==>
         bestScore < BatchFit(free[p], rects[q], rectChoice).score
  }

  lemma ScanStep(free: seq<BinRect>, rects: seq<RectSize>, rectChoice: FreeRectChoiceHeuristic,
                 i: int, j: int, bestScore: int)
    requires 0 <= i < |free| && 0 <= j < |rects| && ScannedBefore(free, rects, rectChoice, i, j, bestScore)
    ensures BatchFit(free[i], rects[j], rectChoice).ExactFit? ==> FirstExactPair(free, rects, rectChoice, i, j)
    ensures !BatchFit(free[i], rects[j], rectChoice).ExactFit? &&
            !(BatchFit(free[i], rects[j], rectChoice).ScoredFit? && BatchFit(free[i], rects[j], rectChoice).score < bestScore) ==>
            ScannedBefore(free, rects, rectChoice, i, j + 1, bestScore)
  {
  }

  lemma ScanLowers(free: seq<BinRect>, rects: seq<RectSize>, rectChoice: FreeRectChoiceHeuristic,
                   i: int, j: int, bestScore: int, score: int)
    requires 0 <= i < |free| && 0 <= j < |rects| && ScannedBefore(free, rects, rectChoice, i, j, bestScore)
    requires BatchFit(free[i], rects[j], rectChoice).ScoredFit? && BatchFit(free[i], rects[j], rectChoice).score == score
    requires score < bestScore
    ensures ScannedBefore(free, rects, rectChoice, i, j + 1, score)
    ensures BestSoFar(free, rects, rectChoice, i, j, BatchFit(free[i], rects[j], rectChoice).flipped, score)
  {
  }

  lemma ScanRowDone(free: seq<BinRect>, rects: seq<RectSize>, rectChoice: FreeRectChoiceHeuristic,
                    i: int, bestScore: int)
    requires ScannedBefore(free, rects, rectChoice, i, |rects|, bestScore)
    ensures ScannedBefore(free, rects, rectChoice, i + 1, 0, bestScore)
  {
  }

  lemma ScanDone(free: seq<BinRect>, rects: seq<RectSize>, rectChoice: FreeRectChoiceHeuristic,
                 bi: int, bj: int, flipped: bool, bestScore: int)
    requires ScannedBefore(free, rects, rectChoice, |free|, 0, bestScore) && bestScore <= INT_MAX
    requires bestScore < INT_MAX ==> BestSoFar(free, rects, rectChoice, bi, bj, flipped, bestScore)
    ensures bestScore < INT_MAX ==> LowestScorePair(free, rects, rectChoice, bi, bj)
    ensures bestScore == INT_MAX ==> NoPairChosen(free, rects, rectChoice)
  {
    ScannedAll(free, rects, rectChoice, bestScore);
  }

  /** After the last free rectangle every pair has been scanned. */
  lemma ScannedAll(free: seq<BinRect>, rects: seq<RectSize>, rectChoice: FreeRectChoiceHeuristic, bestScore: int)
    requires ScannedBefore(free, rects, rectChoice, |free|, 0, bestScore)
    ensures forall p, q :: 0 <= p < |free| && 0 <= q < |rects| ==>
              !BatchFit(free[p], rects[q], rectChoice).ExactFit? &&
              (BatchFit(free[p], rects[q], rectChoice).ScoredFit? ==> bestScore <= BatchFit(free[p], rects[q], rectChoice).score)
  {
    forall p, q | 0 <= p < |free| && 0 <= q < |rects|
      ensures !BatchFit(free[p], rects[q], rectChoice).ExactFit? &&
              (BatchFit(free[p], rects[q], rectChoice).ScoredFit? ==> bestScore <= BatchFit(free[p], rects[q], rectChoice).score)
    {
      assert Before(p, q, |free|, 0);
    }
  }

  class GuillotineBinPack {
    var binWidth: int
    var binHeight: int
    /** The rectangles packed so far. */
    var usedRectangles: seq<BinRect>
    /** The free area of the bin, as disjoint rectangles. */
    var freeRectangles: seq<BinRect>

    /** The free and used rectangles partition the bin. */
    ghost predicate Valid()
      reads this
    {
      Partition(freeRectangles, usedRectangles, binWidth, binHeight)
    }

    /** A bin of size 0 x 0. */
    constructor ()
      ensures binWidth == 0 && binHeight == 0
      ensures usedRectangles == [] && freeRectangles == [BinRect(0, 0, 0, 0)]
      ensures Valid()
    {
      new;
      Init(0, 0);
    }

    /** A bin of the given size. */
    constructor WithSize(width: int, height: int)
      ensures binWidth == width && binHeight == height
      ensures usedRectangles == [] && freeRectangles == [BinRect(0, 0, width, height)]
      ensures 0 <= width && 0 <= height ==> Valid()
    {
      new;
      Init(width, height);
    }

    /** Restart with an empty width x height bin: one free rectangle spanning
        it and nothing used. */
    method Init(width: int, height: int)
      modifies this
      ensures binWidth == width && binHeight == height
      ensures usedRectangles == [] && freeRectangles == [BinRect(0, 0, width, height)]
      ensures 0 <= width && 0 <= height ==> Valid()
    {
      binWidth := width;
      binHeight := height;
      usedRectangles := [];
      freeRectangles := [];
      var n := BinRect(0, 0, width, height);
      freeRectangles := [];
      freeRectangles := freeRectangles + [n];
      if 0 <= width && 0 <= height {
        InitIsPartition(width, height);
      }
    }

    /** Scan the free list for the best place of a width x height request.
        bestIndex is the free rectangle the scan settles on (-1 for none); the
        C# code keeps it in no variable the caller sees. */
    method FindPositionForNewNode(width: int, height: int, rectChoice: FreeRectChoiceHeuristic)
      returns (bestNode: BinRect, bestIndex: int)
      ensures -1 <= bestIndex < |freeRectangles|
      ensures Chosen(SingleFits(freeRectangles, width, height, rectChoice), bestIndex)
      ensures bestNode == Placement(freeRectangles, width, height, rectChoice, bestIndex)
    {
      ghost var fits := SingleFits(freeRectangles, width, height, rectChoice);
      bestNode := BinRect(0, 0, 0, 0);
      bestIndex := -1;
      var bestScore := INT_MAX;
      var i := 0;
      while i < |freeRectangles|
        invariant 0 <= i <= |freeRectangles|
        invariant forall k :: 0 <= k < i ==>
                    !fits[k].ExactFit? && (fits[k].ScoredFit? ==> bestScore <= fits[k].score)
        invariant bestIndex == -1 ==> bestScore == INT_MAX && bestNode == ZeroRect
        invariant bestIndex != -1 ==>
                    && 0 <= bestIndex < i
                    && fits[bestIndex].ScoredFit? && fits[bestIndex].score == bestScore
                    && bestScore < INT_MAX
                    && bestNode == Placement(freeRectangles, width, height, rectChoice, bestIndex)
                    && forall k :: 0 <= k < bestIndex && fits[k].ScoredFit? ==> bestScore < fits[k].score
      {
        var f := freeRectangles[i];
        if width == f.width && height == f.height {
          bestNode := BinRect(f.x, f.y, width, height);
          bestIndex := i;
          bestScore := INT_MIN;
          break;
        } else if height == f.width && width == f.height {
          bestNode := BinRect(f.x, f.y, height, width);
          bestIndex := i;
          bestScore := INT_MIN;
          break;
        } else if width <= f.width && height <= f.height {
          var score := ScoreByHeuristic(width, height, f, rectChoice);
          if score < bestScore {
            bestNode := BinRect(f.x, f.y, width, height);
            bestIndex := i;
            bestScore := score;
          }
        } else if height <= f.width && width <= f.height {
          var score := ScoreByHeuristic(width, height, f, rectChoice);
          if score < bestScore {
            bestNode := BinRect(f.x, f.y, height, width);
            bestIndex := i;
            bestScore := score;
          }
        }
        i := i + 1;
      }
    }

    /** Single Insert as written: the index of the chosen free rectangle never
        reaches freeNodeIndex, so free rectangle 0 is the one split and
        removed.  A found node of height 0 changes nothing. */
    method Insert(width: int, height: int, merge: bool, rectChoice: FreeRectChoiceHeuristic,
                  splitMethod: GuillotineSplitHeuristic) returns (newRect: BinRect)
      modifies this
      ensures binWidth == old(binWidth) && binHeight == old(binHeight)
      ensures exists k :: -1 <= k < |old(freeRectangles)| &&
                Chosen(SingleFits(old(freeRectangles), width, height, rectChoice), k) &&
                newRect == Placement(old(freeRectangles), width, height, rectChoice, k)
      ensures newRect.height == 0 ==>
                freeRectangles == old(freeRectangles) && usedRectangles == old(usedRectangles)
      ensures newRect.height != 0 ==>
                && |old(freeRectangles)| > 0
                && freeRectangles == AfterPlacing(old(freeRectangles), 0, newRect, merge, splitMethod)
                && usedRectangles == old(usedRectangles) + [newRect]
    {
      var freeNodeIndex := 0;
      var bestIndex;
      newRect, bestIndex := FindPositionForNewNode(width, height, rectChoice);
      if newRect.height == 0 {
        return;
      }
      PlaceAndRecord(freeNodeIndex, newRect, merge, splitMethod);
    }

    /** Single Insert splitting the free rectangle the search chose: it keeps
        the partition for any request of non-negative size. */
    method InsertFixed(width: int, height: int, merge: bool, rectChoice: FreeRectChoiceHeuristic,
                       splitMethod: GuillotineSplitHeuristic) returns (newRect: BinRect)
      modifies this
      ensures binWidth == old(binWidth) && binHeight == old(binHeight)
      ensures exists k :: -1 <= k < |old(freeRectangles)| &&
                Chosen(SingleFits(old(freeRectangles), width, height, rectChoice), k) &&
                newRect == Placement(old(freeRectangles), width, height, rectChoice, k) &&
                (newRect.height != 0 ==>
                   0 <= k &&
                   freeRectangles == AfterPlacing(old(freeRectangles), k, newRect, merge, splitMethod))
      ensures newRect.height == 0 ==>
                freeRectangles == old(freeRectangles) && usedRectangles == old(usedRectangles)
      ensures newRect.height != 0 ==> usedRectangles == old(usedRectangles) + [newRect]
      ensures old(Valid()) && 0 <= width && 0 <= height ==> Valid()
    {
      var freeNodeIndex;
      newRect, freeNodeIndex := FindPositionForNewNode(width, height, rectChoice);
      if newRect.height == 0 {
        return;
      }
      ghost var free0, used0 := freeRectangles, usedRectangles;
      PlaceAndRecord(freeNodeIndex, newRect, merge, splitMethod);
      if Partition(free0, used0, binWidth, binHeight) && 0 <= width && 0 <= height {
        PlacingKeepsPartition(free0, used0, binWidth, binHeight, freeNodeIndex, newRect, merge, splitMethod);
      }
    }

    /** The common tail of both Inserts: split free rectangle index around
        node, remove it, merge if asked, and record node as used. */
    method PlaceAndRecord(index: int, node: BinRect, merge: bool, splitMethod: GuillotineSplitHeuristic)
      modifies this
      requires 0 <= index < |freeRectangles|
      ensures binWidth == old(binWidth) && binHeight == old(binHeight)
      ensures freeRectangles == AfterPlacing(old(freeRectangles), index, node, merge, splitMethod)
      ensures usedRectangles == old(usedRectangles) + [node]
    {
      var item := freeRectangles[index];
      SplitFreeRectByHeuristic(item, node, splitMethod);
      assert freeRectangles == old(freeRectangles) + SplitPieces(item, node, SplitHorizontal(splitMethod, item, node));
      RemoveAtAppend(old(freeRectangles), SplitPieces(item, node, SplitHorizontal(splitMethod, item, node)), index);
      freeRectangles := RemoveAt(freeRectangles, index);
      if merge {
        MergeFreeList();
      }
      usedRectangles := usedRectangles + [node];
    }

    /** One step of the inner loop of the batch search: free rectangle i
        against request j.  An exact fit, upright or turned, ends the
        search (exact is then true); otherwise a fit that scores lower
        than the best so far replaces it. */
    method ScanPair(rects: seq<RectSize>, rectChoice: FreeRectChoiceHeuristic, i: int, j: int,
                    bestFreeRect0: int, bestRect0: int, bestFlipped0: bool, bestScore0: int)
      returns (exact: bool, bestFreeRect: int, bestRect: int, bestFlipped: bool, bestScore: int)
      requires 0 <= i < |freeRectangles| && 0 <= j < |rects|
      requires ScannedBefore(freeRectangles, rects, rectChoice, i, j, bestScore0) && bestScore0 <= INT_MAX
      requires bestScore0 < INT_MAX ==>
                 Before(bestFreeRect0, bestRect0, i, j) &&
                 BestSoFar(freeRectangles, rects, rectChoice, bestFreeRect0, bestRect0, bestFlipped0, bestScore0)
      ensures exact ==>
                FirstExactPair(freeRectangles, rects, rectChoice, bestFreeRect, bestRect) &&
                bestFlipped == BatchFit(freeRectangles[bestFreeRect], rects[bestRect], rectChoice).flipped
      ensures !exact ==>
                ScannedBefore(freeRectangles, rects, rectChoice, i, j + 1, bestScore) && bestScore <= INT_MAX &&
                (bestScore < INT_MAX ==>
                   Before(bestFreeRect, bestRect, i, j + 1) &&
                   BestSoFar(freeRectangles, rects, rectChoice, bestFreeRect, bestRect, bestFlipped, bestScore))
    {
      bestFreeRect, bestRect, bestFlipped, bestScore := bestFreeRect0, bestRect0, bestFlipped0, bestScore0;
      exact := false;
      var f := freeRectangles[i];
      var r := rects[j];
      ScanStep(freeRectangles, rects, rectChoice, i, j, bestScore);
      if r.width == f.width && r.height == f.height {
        bestFreeRect, bestRect, bestFlipped, bestScore := i, j, false, INT_MIN;
        exact := true;
      } else if r.height == f.width && r.width == f.height {
        bestFreeRect, bestRect, bestFlipped, bestScore := i, j, true, INT_MIN;
        exact := true;
      } else if r.width <= f.width && r.height <= f.height {
        var score := ScoreByHeuristic(r.width, r.height, f, rectChoice);
        if score < bestScore {
          ScanLowers(freeRectangles, rects, rectChoice, i, j, bestScore, score);
          bestFreeRect, bestRect, bestFlipped, bestScore := i, j, false, score;
        }
      } else if r.height <= f.width && r.width <= f.height {
        var score := ScoreByHeuristic(r.height, r.width, f, rectChoice);
        if score < bestScore {
          ScanLowers(freeRectangles, rects, rectChoice, i, j, bestScore, score);
          bestFreeRect, bestRect, bestFlipped, bestScore := i, j, true, score;
        }
      }
    }

    /** One pass of the outer loop of the batch search: free rectangle i
        against every request, stopping at an exact fit (exact is then
        true) and otherwise keeping the lowest score. */
    method ScanFreeRect(rects: seq<RectSize>, rectChoice: FreeRectChoiceHeuristic, i: int,
                        bestFreeRect0: int, bestRect0: int, bestFlipped0: bool, bestScore0: int)
      returns (exact: bool, bestFreeRect: int, bestRect: int, bestFlipped: bool, bestScore: int)
      requires 0 <= i < |freeRectangles|
      requires ScannedBefore(freeRectangles, rects, rectChoice, i, 0, bestScore0) && bestScore0 <= INT_MAX
      requires bestScore0 < INT_MAX ==>
                 Before(bestFreeRect0, bestRect0, i, 0) &&
                 BestSoFar(freeRectangles, rects, rectChoice, bestFreeRect0, bestRect0, bestFlipped0, bestScore0)
      ensures exact ==>
                FirstExactPair(freeRectangles, rects, rectChoice, bestFreeRect, bestRect) &&
                bestFlipped == BatchFit(freeRectangles[bestFreeRect], rects[bestRect], rectChoice).flipped
      ensures !exact ==>
                ScannedBefore(freeRectangles, rects, rectChoice, i + 1, 0, bestScore) && bestScore <= INT_MAX &&
                (bestScore < INT_MAX ==>
                   Before(bestFreeRect, bestRect, i + 1, 0) &&
                   BestSoFar(freeRectangles, rects, rectChoice, bestFreeRect, bestRect, bestFlipped, bestScore))
    {
      bestFreeRect, bestRect, bestFlipped, bestScore := bestFreeRect0, bestRect0, bestFlipped0, bestScore0;
      exact := false;
      var j := 0;
      while j < |rects|
        invariant 0 <= j <= |rects|
        invariant ScannedBefore(freeRectangles, rects, rectChoice, i, j, bestScore)
        invariant bestScore <= INT_MAX
        invariant bestScore < INT_MAX ==>
                    Before(bestFreeRect, bestRect, i, j) &&
                    BestSoFar(freeRectangles, rects, rectChoice, bestFreeRect, bestRect, bestFlipped, bestScore)
      {
        exact, bestFreeRect, bestRect, bestFlipped, bestScore :=
          ScanPair(rects, rectChoice, i, j, bestFreeRect, bestRect, bestFlipped, bestScore);
        if exact {
          return;
        }
        j := j + 1;
      }
      ScanRowDone(freeRectangles, rects, rectChoice, i, bestScore);
    }

    /** Scan every free rectangle against every request (the search of one
        round of the batch Insert).  found is false when no pair qualifies,
        the case in which GuillotineBinPack.cs finds bestScore still at int.MaxValue. */
    method FindBestPair(rects: seq<RectSize>, rectChoice: FreeRectChoiceHeuristic)
      returns (found: bool, bestFreeRect: int, bestRect: int, bestFlipped: bool)
      ensures found ==>
                (FirstExactPair(freeRectangles, rects, rectChoice, bestFreeRect, bestRect) ||
                 LowestScorePair(freeRectangles, rects, rectChoice, bestFreeRect, bestRect)) &&
                bestFlipped == BatchFit(freeRectangles[bestFreeRect], rects[bestRect], rectChoice).flipped
      ensures !found ==> NoPairChosen(freeRectangles, rects, rectChoice)
    {
      bestFreeRect, bestRect, bestFlipped := 0, 0, false;
      var bestScore := INT_MAX;
      var exact := false;
      var i := 0;
      while i < |freeRectangles|
        invariant 0 <= i <= |freeRectangles| && !exact
        invariant ScannedBefore(freeRectangles, rects, rectChoice, i, 0, bestScore)
        invariant bestScore <= INT_MAX
        invariant bestScore < INT_MAX ==>
                    Before(bestFreeRect, bestRect, i, 0) &&
                    BestSoFar(freeRectangles, rects, rectChoice, bestFreeRect, bestRect, bestFlipped, bestScore)
      {
        exact, bestFreeRect, bestRect, bestFlipped, bestScore :=
          ScanFreeRect(rects, rectChoice, i, bestFreeRect, bestRect, bestFlipped, bestScore);
        if exact {
          break;
        }
        i := i + 1;
      }
      found := exact || bestScore != INT_MAX;
      if !exact {
        ScanDone(freeRectangles, rects, rectChoice, bestFreeRect, bestRect, bestFlipped, bestScore);
      }
    }

    /** One round of the batch Insert once the search has chosen free
        rectangle bestFreeRect and request bestRect: the request is placed at
        the free rectangle's origin, turned when bestFlipped, the free list is
        split around it, and the request leaves the list of requests. */
    method InsertRound(remaining: seq<RectSize>, bestFreeRect: int, bestRect: int, bestFlipped: bool,
                       merge: bool, rectChoice: FreeRectChoiceHeuristic, splitMethod: GuillotineSplitHeuristic,
                       ghost ok: bool)
      returns (remaining': seq<RectSize>)
      requires 0 <= bestFreeRect < |freeRectangles| && 0 <= bestRect < |remaining|
      requires !BatchFit(freeRectangles[bestFreeRect], remaining[bestRect], rectChoice).NoFit?
      requires bestFlipped == BatchFit(freeRectangles[bestFreeRect], remaining[bestRect], rectChoice).flipped
      requires ok ==> Valid() && AllNonNegSizes(remaining)
      modifies this
      ensures binWidth == old(binWidth) && binHeight == old(binHeight)
      ensures usedRectangles == old(usedRectangles) +
                [NodeFor(old(freeRectangles)[bestFreeRect], remaining[bestRect].width, remaining[bestRect].height, bestFlipped)]
      ensures freeRectangles ==
                AfterPlacing(old(freeRectangles), bestFreeRect,
                             NodeFor(old(freeRectangles)[bestFreeRect], remaining[bestRect].width, remaining[bestRect].height, bestFlipped),
                             merge, splitMethod)
      ensures remaining' == RemoveAt(remaining, bestRect)
      ensures ok ==> Valid() && AllNonNegSizes(remaining')
    {
      var f := freeRectangles[bestFreeRect];
      var r := remaining[bestRect];
      var newNode := BinRect(f.x, f.y, r.width, r.height);
      if bestFlipped {
        newNode := BinRect(newNode.x, newNode.y, newNode.height, newNode.width);
      }
      assert newNode == NodeFor(f, r.width, r.height, bestFlipped);
      ghost var free0, used0 := freeRectangles, usedRectangles;
      PlaceAndRecord(bestFreeRect, newNode, merge, splitMethod);
      remaining' := RemoveAt(remaining, bestRect);
      if ok {
        PlacingKeepsPartition(free0, used0, binWidth, binHeight, bestFreeRect, newNode, merge, splitMethod);
      }
    }

    /** The rounds of the batch Insert traced so far, from free list free0,
        used list used0 and requests rects: the used list is used0 followed
        by the nodes the rounds placed (BatchTrace), the trace starts from
        free0 and rects and ends at the current free list and remaining, and
        the requests placed and those remaining make up rects. */
    ghost predicate Traced(rects: seq<RectSize>, used0: seq<BinRect>, free0: seq<BinRect>, remaining: seq<RectSize>,
                           placed: seq<RectSize>, frees: seq<seq<BinRect>>, rests: seq<seq<RectSize>>, picks: seq<(int, int)>,
                           rectChoice: FreeRectChoiceHeuristic, merge: bool, splitMethod: GuillotineSplitHeuristic)
      reads this
    {
      && |usedRectangles| == |used0| + |placed| && usedRectangles[..|used0|] == used0
      && BatchTrace(frees, rests, picks, placed, usedRectangles[|used0|..], rectChoice, merge, splitMethod)
      && frees[0] == free0 && rests[0] == rects
      && frees[|frees| - 1] == freeRectangles && rests[|rests| - 1] == remaining
      && multiset(rects) == multiset(remaining) + multiset(placed)
    }

    /** A round of the batch Insert once the search has chosen its pair:
        InsertRound, with the round added to the trace. */
    method TracedRound(rects: seq<RectSize>, remaining: seq<RectSize>, bestFreeRect: int, bestRect: int, bestFlipped: bool,
                       merge: bool, rectChoice: FreeRectChoiceHeuristic, splitMethod: GuillotineSplitHeuristic,
                       ghost used0: seq<BinRect>, ghost free0: seq<BinRect>, ghost placed: seq<RectSize>,
                       ghost frees: seq<seq<BinRect>>, ghost rests: seq<seq<RectSize>>, ghost picks: seq<(int, int)>,
                       ghost ok: bool)
      returns (remaining': seq<RectSize>, ghost placed': seq<RectSize>, ghost frees': seq<seq<BinRect>>,
               ghost rests': seq<seq<RectSize>>, ghost picks': seq<(int, int)>)
      requires FirstExactPair(freeRectangles, remaining, rectChoice, bestFreeRect, bestRect) ||
               LowestScorePair(freeRectangles, remaining, rectChoice, bestFreeRect, bestRect)
      requires bestFlipped == BatchFit(freeRectangles[bestFreeRect], remaining[bestRect], rectChoice).flipped
      requires Traced(rects, used0, free0, remaining, placed, frees, rests, picks, rectChoice, merge, splitMethod)
      requires ok ==> Valid() && AllNonNegSizes(remaining)
      modifies this
      ensures binWidth == old(binWidth) && binHeight == old(binHeight)
      ensures Traced(rects, used0, free0, remaining', placed', frees', rests', picks', rectChoice, merge, splitMethod)
      ensures |remaining'| < |remaining|
      ensures ok ==> Valid() && AllNonNegSizes(remaining')
    {
      ghost var n := |used0|;
      ghost var usedBefore := usedRectangles;
      ghost var r := remaining[bestRect];
      ghost var rest0 := remaining;
      remaining' := InsertRound(remaining, bestFreeRect, bestRect, bestFlipped, merge, rectChoice, splitMethod, ok);
      ghost var node := usedRectangles[|usedRectangles| - 1];
      assert usedRectangles[n..] == usedBefore[n..] + [node];
      assert usedRectangles[..n] == usedBefore[..n];
      RoundAccounts(rest0, bestRect, placed);
      BatchTraceAppend(frees, rests, picks, placed, usedBefore[n..], rectChoice, merge, splitMethod,
                       bestFreeRect, bestRect, r, node, freeRectangles, remaining');
      placed', frees', rests', picks' := placed + [r], frees + [freeRectangles], rests + [remaining'], picks + [(bestFreeRect, bestRect)];
    }

    /** One pass of the loop of the batch Insert: the search, then the
        round when it found a pair (found); otherwise nothing changes and
        no pair qualifies. */
    method BatchStep(rects: seq<RectSize>, remaining: seq<RectSize>,
                     merge: bool, rectChoice: FreeRectChoiceHeuristic, splitMethod: GuillotineSplitHeuristic,
                     ghost used0: seq<BinRect>, ghost free0: seq<BinRect>, ghost placed: seq<RectSize>,
                     ghost frees: seq<seq<BinRect>>, ghost rests: seq<seq<RectSize>>, ghost picks: seq<(int, int)>,
                     ghost ok: bool)
      returns (found: bool, remaining': seq<RectSize>, ghost placed': seq<RectSize>, ghost frees': seq<seq<BinRect>>,
               ghost rests': seq<seq<RectSize>>, ghost picks': seq<(int, int)>)
      requires Traced(rects, used0, free0, remaining, placed, frees, rests, picks, rectChoice, merge, splitMethod)
      requires ok ==> Valid() && AllNonNegSizes(remaining)
      modifies this
      ensures binWidth == old(binWidth) && binHeight == old(binHeight)
      ensures Traced(rects, used0, free0, remaining', placed', frees', rests', picks', rectChoice, merge, splitMethod)
      ensures found ==> |remaining'| < |remaining|
      ensures !found ==> remaining' == remaining && NoPairChosen(freeRectangles, remaining, rectChoice)
      ensures ok ==> Valid() && AllNonNegSizes(remaining')
    {
      var bestFreeRect, bestRect, bestFlipped;
      found, bestFreeRect, bestRect, bestFlipped := FindBestPair(remaining, rectChoice);
      if !found {
        remaining', placed', frees', rests', picks' := remaining, placed, frees, rests, picks;
        return;
      }
      remaining', placed', frees', rests', picks' :=
        TracedRound(rects, remaining, bestFreeRect, bestRect, bestFlipped, merge, rectChoice, splitMethod,
                    used0, free0, placed, frees, rests, picks, ok);
    }

    /** Batch Insert: pack the requests one round at a time until none is
        left or none fits, and return the requests left over.  The rounds
        are traced (Traced): round k starts from free list frees[k] and
        requests rests[k], chooses the pair picks[k] as the search does,
        places request placed[k] at the origin of that free rectangle, turned
        as the fit says, as the k-th new used rectangle, and leaves
        frees[k + 1] and rests[k + 1]. */
    method InsertAll(rects: seq<RectSize>, merge: bool, rectChoice: FreeRectChoiceHeuristic,
                     splitMethod: GuillotineSplitHeuristic)
      returns (remaining: seq<RectSize>, ghost placed: seq<RectSize>, ghost frees: seq<seq<BinRect>>,
               ghost rests: seq<seq<RectSize>>, ghost picks: seq<(int, int)>)
      modifies this
      ensures binWidth == old(binWidth) && binHeight == old(binHeight)
      ensures Traced(rects, old(usedRectangles), old(freeRectangles), remaining, placed, frees, rests, picks,
                     rectChoice, merge, splitMethod)
      ensures remaining != [] ==> NoPairChosen(freeRectangles, remaining, rectChoice)
      ensures old(Valid()) && AllNonNegSizes(rects) ==> Valid()
    {
      ghost var ok := Valid() && AllNonNegSizes(rects);
      ghost var used0, free0 := usedRectangles, freeRectangles;
      remaining := rects;
      placed, frees, rests, picks := [], [freeRectangles], [rects], [];
      assert usedRectangles[|used0|..] == [] && usedRectangles[..|used0|] == used0;
      while |remaining| > 0
        invariant binWidth == old(binWidth) && binHeight == old(binHeight)
        invariant Traced(rects, used0, free0, remaining, placed, frees, rests, picks, rectChoice, merge, splitMethod)
        invariant ok ==> Valid() && AllNonNegSizes(remaining)
        decreases |remaining|
      {
        var found;
        found, remaining, placed, frees, rests, picks :=
          BatchStep(rects, remaining, merge, rectChoice, splitMethod, used0, free0, placed, frees, rests, picks, ok);
        if !found {
          break;
        }
      }
    }

    /** Used surface area and bin area, the numerator and denominator of the
        occupancy ratio. */
    method Occupancy() returns (usedSurfaceArea: int, binArea: int)
      ensures usedSurfaceArea == SumArea(usedRectangles)
      ensures binArea == binWidth * binHeight
      ensures Valid() ==> 0 <= usedSurfaceArea <= binArea
    {
      usedSurfaceArea := 0;
      var i := 0;
      while i < |usedRectangles|
        invariant 0 <= i <= |usedRectangles|
        invariant usedSurfaceArea == SumArea(usedRectangles[..i])
      {
        assert usedRectangles[..i + 1] == usedRectangles[..i] + [usedRectangles[i]];
        SumAreaAppend(usedRectangles[..i], [usedRectangles[i]]);
        assert SumArea([usedRectangles[i]]) == Area(usedRectangles[i]);
        usedSurfaceArea := usedSurfaceArea + usedRectangles[i].width * usedRectangles[i].height;
        i := i + 1;
      }
      assert usedRectangles[..i] == usedRectangles;
      binArea := binWidth * binHeight;
      if Valid() {
        SumAreaNonNeg(usedRectangles);
        SumAreaNonNeg(freeRectangles);
      }
    }

    /** One pass of the outer loop of MergeFreeList: free rectangle i is
        tested against every later one, absorbing each it merges with. */
    method MergePass(i: int)
      requires 0 <= i < |freeRectangles|
      modifies this
      ensures i < |freeRectangles| <= |old(freeRectangles)|
      ensures MergeFrom(freeRectangles, i + 1, i + 2) == MergeFrom(old(freeRectangles), i, i + 1)
      ensures usedRectangles == old(usedRectangles)
      ensures binWidth == old(binWidth) && binHeight == old(binHeight)
    {
      var j := i + 1;
      while j < |freeRectangles|
        invariant i < j && i < |freeRectangles| <= |old(freeRectangles)|
        invariant MergeFrom(freeRectangles, i, j) == MergeFrom(old(freeRectangles), i, i + 1)
        invariant usedRectangles == old(usedRectangles)
        invariant binWidth == old(binWidth) && binHeight == old(binHeight)
        decreases |freeRectangles| - j
      {
        MergeFromStep(freeRectangles, i, j);
        var merged := MergePair(i, j);
        if merged {
          j := j - 1;
        }
        j := j + 1;
      }
    }

    /** The pairwise test of MergeFreeList for entries i and j: when they
        touch along a whole edge, entry i grows to cover both and entry j is
        removed. */
    method MergePair(i: int, j: int) returns (merged: bool)
      requires 0 <= i < j < |freeRectangles|
      modifies this
      ensures merged == TryMerge(old(freeRectangles)[i], old(freeRectangles)[j]).Some?
      ensures merged ==> freeRectangles == MergeAt(old(freeRectangles), i, j)
      ensures !merged ==> freeRectangles == old(freeRectangles)
      ensures usedRectangles == old(usedRectangles)
      ensures binWidth == old(binWidth) && binHeight == old(binHeight)
    {
      var a := freeRectangles[i];
      var b := freeRectangles[j];
      merged := false;
      if a.width == b.width && a.x == b.x {
        if a.y == b.y + b.height {
          var item := BinRect(a.x, a.y - b.height, a.width, a.height + b.height);
          freeRectangles := RemoveAt(freeRectangles[i := item], j);
          merged := true;
        } else if a.y + a.height == b.y {
          var item := BinRect(a.x, a.y, a.width, a.height + b.height);
          freeRectangles := RemoveAt(freeRectangles[i := item], j);
          merged := true;
        }
      } else if a.height == b.height && a.y == b.y {
        if a.x == b.x + b.width {
          var item := BinRect(a.x - b.width, a.y, a.width + b.width, a.height);
          freeRectangles := RemoveAt(freeRectangles[i := item], j);
          merged := true;
        } else if a.x + a.width == b.x {
          var item := BinRect(a.x, a.y, a.width + b.width, a.height);
          freeRectangles := RemoveAt(freeRectangles[i := item], j);
          merged := true;
        }
      }
    }

    /** Rectangle Merge: join adjacent free rectangles pairwise in one
        quadratic pass. */
    method MergeFreeList()
      modifies this
      ensures freeRectangles == MergeFreeRects(old(freeRectangles))
      ensures usedRectangles == old(usedRectangles)
      ensures binWidth == old(binWidth) && binHeight == old(binHeight)
    {
      ghost var merged := MergeFreeRects(freeRectangles);
      var i := 0;
      while i < |freeRectangles|
        invariant 0 <= i
        invariant MergeFrom(freeRectangles, i, i + 1) == merged
        invariant usedRectangles == old(usedRectangles)
        invariant binWidth == old(binWidth) && binHeight == old(binHeight)
        decreases |freeRectangles| - i
      {
        MergePass(i);
        i := i + 1;
      }
    }

    /** Cut the leftover of freeRect around placedRect, choosing the axis by
        splitMethod, and append the pieces to the free list. */
    method SplitFreeRectByHeuristic(freeRect: BinRect, placedRect: BinRect, splitMethod: GuillotineSplitHeuristic)
      modifies this
      ensures freeRectangles == old(freeRectangles) +
                SplitPieces(freeRect, placedRect, SplitHorizontal(splitMethod, freeRect, placedRect))
      ensures usedRectangles == old(usedRectangles)
      ensures binWidth == old(binWidth) && binHeight == old(binHeight)
    {
      SplitFreeRectAlongAxis(freeRect, placedRect, SplitHorizontal(splitMethod, freeRect, placedRect));
    }

    /** Cut the leftover of freeRect around placedRect along the given axis
        and append the non-degenerate pieces, bottom first, to the free list. */
    method SplitFreeRectAlongAxis(freeRect: BinRect, placedRect: BinRect, splitHorizontal: bool)
      modifies this
      ensures freeRectangles == old(freeRectangles) + SplitPieces(freeRect, placedRect, splitHorizontal)
      ensures usedRectangles == old(usedRectangles)
      ensures binWidth == old(binWidth) && binHeight == old(binHeight)
    {
      var bottom := BinRect(freeRect.x, freeRect.y + placedRect.height, 0, freeRect.height - placedRect.height);
      var right := BinRect(freeRect.x + placedRect.width, freeRect.y, freeRect.width - placedRect.width, 0);
      if splitHorizontal {
        bottom := bottom.(width := freeRect.width);
        right := right.(height := placedRect.height);
      } else {
        bottom := bottom.(width := placedRect.width);
        right := right.(height := freeRect.height);
      }
      if bottom.width > 0 && bottom.height > 0 {
        freeRectangles := freeRectangles + [bottom];
      }
      if right.width > 0 && right.height > 0 {
        freeRectangles := freeRectangles + [right];
      }
    }
  }

  /** A fresh bin is partitioned by its single free rectangle. */
  lemma InitIsPartition(width: int, height: int)
    requires 0 <= width && 0 <= height
    ensures Partition([BinRect(0, 0, width, height)], [], width, height)
  {
    var free := [BinRect(0, 0, width, height)];
    assert SumArea(free) == width * height by {
      assert free[1..] == [];
    }
    forall px, py | 0 <= px < width && 0 <= py < height
      ensures Covered(free, px, py)
    {
      assert Contains(free[0], px, py);
    }
  }

  /** Every request has non-negative width and height. */
  predicate AllNonNegSizes(rects: seq<RectSize>)
  {
    forall k :: 0 <= k < |rects| ==> 0 <= rects[k].width && 0 <= rects[k].height
  }

  /** node has the size of request r, upright or turned. */
  predicate Matches(r: RectSize, node: BinRect)
  {
    (node.width == r.width && node.height == r.height) || (node.width == r.height && node.height == r.width)
  }

  /** One round of the batch Insert from free list free and requests rest:
      the search chose free rectangle i and request j = r (the first exact
      fit, or else the lowest score); node is r placed at the origin of
      free[i], turned as that fit says; the free list becomes free' and the
      requests rest'. */
  ghost predicate BatchRound(free: seq<BinRect>, rest: seq<RectSize>, rectChoice: FreeRectChoiceHeuristic, merge: bool,
                             splitMethod: GuillotineSplitHeuristic, i: int, j: int, r: RectSize, node: BinRect,
                             free': seq<BinRect>, rest': seq<RectSize>)
  {
    && (FirstExactPair(free, rest, rectChoice, i, j) || LowestScorePair(free, rest, rectChoice, i, j))
    && r == rest[j]
    && node == NodeFor(free[i], r.width, r.height, BatchFit(free[i], r, rectChoice).flipped)
    && free' == AfterPlacing(free, i, node, merge, splitMethod)
    && rest' == RemoveAt(rest, j)
  }

  /** Rounds k = 0 .. |picks| - 1 of the batch Insert, each a BatchRound from
      frees[k], rests[k] to frees[k + 1], rests[k + 1], placing placed[k] as
      nodes[k]. */
  ghost predicate BatchTrace(frees: seq<seq<BinRect>>, rests: seq<seq<RectSize>>, picks: seq<(int, int)>,
                             placed: seq<RectSize>, nodes: seq<BinRect>, rectChoice: FreeRectChoiceHeuristic,
                             merge: bool, splitMethod: GuillotineSplitHeuristic)
  {
    && |frees| == |rests| == |picks| + 1
    && |placed| == |nodes| == |picks|
    && forall k :: 0 <= k < |picks| ==>
         BatchRound(frees[k], rests[k], rectChoice, merge, splitMethod, picks[k].0, picks[k].1, placed[k], nodes[k],
                    frees[k + 1], rests[k + 1])
  }

  /** A further round extends the trace. */
  lemma BatchTraceAppend(frees: seq<seq<BinRect>>, rests: seq<seq<RectSize>>, picks: seq<(int, int)>,
                         placed: seq<RectSize>, nodes: seq<BinRect>, rectChoice: FreeRectChoiceHeuristic,
                         merge: bool, splitMethod: GuillotineSplitHeuristic,
                         i: int, j: int, r: RectSize, node: BinRect, free': seq<BinRect>, rest': seq<RectSize>)
    requires BatchTrace(frees, rests, picks, placed, nodes, rectChoice, merge, splitMethod)
    requires BatchRound(frees[|frees| - 1], rests[|rests| - 1], rectChoice, merge, splitMethod, i, j, r, node, free', rest')
    ensures BatchTrace(frees + [free'], rests + [rest'], picks + [(i, j)], placed + [r], nodes + [node],
                       rectChoice, merge, splitMethod)
  {
    var frees', rests', picks' := frees + [free'], rests + [rest'], picks + [(i, j)];
    var placed', nodes' := placed + [r], nodes + [node];
    forall k | 0 <= k < |picks'|
      ensures BatchRound(frees'[k], rests'[k], rectChoice, merge, splitMethod, picks'[k].0, picks'[k].1, placed'[k], nodes'[k],
                         frees'[k + 1], rests'[k + 1])
    {
      if k < |picks| {
        assert frees'[k] == frees[k] && frees'[k + 1] == frees[k + 1];
        assert rests'[k] == rests[k] && rests'[k + 1] == rests[k + 1];
        assert picks'[k] == picks[k] && placed'[k] == placed[k] && nodes'[k] == nodes[k];
      }
    }
  }

  /** Every node of a trace has the size of its request, upright or
      turned. */
  lemma TraceMatches(frees: seq<seq<BinRect>>, rests: seq<seq<RectSize>>, picks: seq<(int, int)>,
                     placed: seq<RectSize>, nodes: seq<BinRect>, rectChoice: FreeRectChoiceHeuristic,
                     merge: bool, splitMethod: GuillotineSplitHeuristic)
    requires BatchTrace(frees, rests, picks, placed, nodes, rectChoice, merge, splitMethod)
    ensures forall k :: 0 <= k < |placed| ==> Matches(placed[k], nodes[k])
  {
    forall k | 0 <= k < |placed|
      ensures Matches(placed[k], nodes[k])
    {
      var (i, j) := picks[k];
      assert BatchRound(frees[k], rests[k], rectChoice, merge, splitMethod, i, j, placed[k], nodes[k], frees[k + 1], rests[k + 1]);
    }
  }

  /** The search of a round chooses one pair: the first exact fit and the
      first lowest-scoring fit are each unique, and they never both exist. */
  lemma BatchChoiceUnique(free: seq<BinRect>, rest: seq<RectSize>, rectChoice: FreeRectChoiceHeuristic,
                          i1: int, j1: int, i2: int, j2: int)
    requires FirstExactPair(free, rest, rectChoice, i1, j1) || LowestScorePair(free, rest, rectChoice, i1, j1)
    requires FirstExactPair(free, rest, rectChoice, i2, j2) || LowestScorePair(free, rest, rectChoice, i2, j2)
    ensures i1 == i2 && j1 == j2
  {
  }

  /** The request bookkeeping of one round: the request taken moves from
      the remaining list to the placed list. */
  lemma RoundAccounts(rest: seq<RectSize>, j: int, placed: seq<RectSize>)
    requires 0 <= j < |rest|
    ensures multiset(rest) + multiset(placed) == multiset(RemoveAt(rest, j)) + multiset(placed + [rest[j]])
  {
    RemoveAtMultiset(rest, j);
  }

  lemma RemoveAtAppend<T>(a: seq<T>, b: seq<T>, j: int)
    requires 0 <= j < |a|
    ensures RemoveAt(a + b, j) == RemoveAt(a, j) + b
  {
    assert (a + b)[..j] == a[..j];
    assert (a + b)[j + 1..] == a[j + 1..] + b;
  }

  lemma RemoveAtMultiset<T>(s: seq<T>, j: int)
    requires 0 <= j < |s|
    ensures multiset(RemoveAt(s, j)) + multiset{s[j]} == multiset(s)
  {
    assert s == s[..j] + [s[j]] + s[j + 1..];
  }
}
