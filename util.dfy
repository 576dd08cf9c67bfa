/** Small helpers shared by the modules of the packer model. */
module Util {

  datatype Option<T> = None | Some(value: T)

  /** s read back to front. */
  function Reversed<T>(s: seq<T>): (r: seq<T>)
    ensures |r| == |s|
    ensures forall k :: 0 <= k < |s| ==> r[k] == s[|s| - 1 - k]
  {
    if s == [] then [] else Reversed(s[1..]) + [s[0]]
  }

  lemma {:induction false} ReversedAppend<T>(s: seq<T>, x: T)
    ensures Reversed(s + [x]) == [x] + Reversed(s)
  {
    var r := Reversed(s + [x]);
    assert |r| == |s| + 1;
    forall k | 0 <= k < |r|
      ensures r[k] == ([x] + Reversed(s))[k]
    {
      if k > 0 {
        assert r[k] == (s + [x])[|s| - k];
      }
    }
  }

  /** Row-major position of cell (x, y) in a grid w cells wide. */
  function GridIndex(x: int, y: int, w: int): int
  {
    y * w + x
  }

  /** Every cell of a w x h grid has its row-major position inside the
      buffer of w * h cells. */
  lemma IndexInGrid(x: int, y: int, w: int, h: int)
    requires 0 <= x < w && 0 <= y < h
    ensures 0 <= GridIndex(x, y, w) < w * h
  {
    assert 0 <= y * w <= (h - 1) * w by {
      MulMono(0, y, w);
      MulMono(y, h - 1, w);
    }
    assert (h - 1) * w == h * w - w;
  }

  /** Distinct cells of a grid w cells wide have distinct positions. */
  lemma GridIndexInjective(x1: int, y1: int, x2: int, y2: int, w: int)
    requires 0 <= x1 < w && 0 <= x2 < w && (x1 != x2 || y1 != y2)
    ensures GridIndex(x1, y1, w) != GridIndex(x2, y2, w)
  {
    if y1 < y2 {
      MulMono(y1 + 1, y2, w);
      assert (y1 + 1) * w == y1 * w + w;
    } else if y2 < y1 {
      MulMono(y2 + 1, y1, w);
      assert (y2 + 1) * w == y2 * w + w;
    }
  }

  lemma MulMono(a: int, b: int, c: int)
    requires a <= b && 0 <= c
    ensures a * c <= b * c
  {
    assert b * c - a * c == (b - a) * c;
  }
}
