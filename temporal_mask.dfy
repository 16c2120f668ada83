/**
 * The per-sample N x N temporal mask that `TemporalAutomatedGraphDynamicEdgeConv`
 * builds once in its constructor: for every frame f, the rows of the frames within
 * t//2 of f (clamped at 0) and the columns of frame f are set to 1.
 */
module TemporalMask {
  import opened IndexArith

  /** Python's reading of a slice bound i on an axis of length n: negative counts from the end. */
  function SliceBound(i: int, n: nat): (r: nat)
    ensures r <= n
  {
    if i < 0 then (if i + n < 0 then 0 else i + n) else if i > n then n else i
  }

  /** `start_row_index` for frame f, after the clamp at 0. */
  function RowStart(f: int, h: int, ppf: int): int
  {
    var s := (f - h) * ppf;
    if s < 0 then 0 else s
  }

  /** Position (r, c) lies in the block `mask[rows of f, cols of f]` written for frame f. */
  predicate InBlock(N: nat, ppf: nat, h: int, f: int, r: int, c: int)
  {
    && SliceBound(RowStart(f, h, ppf), N) <= r < SliceBound((f + h) * ppf, N)
    && SliceBound(f * ppf, N) <= c < SliceBound((f + 1) * ppf, N)
  }

  /** Some frame among the first `frames` has written (r, c). */
  predicate Covered(N: nat, ppf: nat, h: int, frames: int, r: int, c: int)
  {
    exists f :: 0 <= f < frames && InBlock(N, ppf, h, f, r, c)
  }

  /** The finished mask entry: with ppf = N // F and h = t // 2, some frame covers (r, c). */
  predicate MaskCovers(N: nat, F: nat, t: int, r: int, c: int)
    requires F > 0
  {
    Covered(N, N / F, t / 2, F, r, c)
  }

  /** `mask[r0:r1, c0:c1] = 1` on bounds already normalised; empty when r0 >= r1 or c0 >= c1. */
  method FillBlock(mask: array2<int>, r0: nat, r1: nat, c0: nat, c1: nat)
    requires r1 <= mask.Length0 && c1 <= mask.Length1
    modifies mask
    ensures forall r, c :: 0 <= r < mask.Length0 && 0 <= c < mask.Length1 ==>
              mask[r, c] == if r0 <= r < r1 && c0 <= c < c1 then 1 else old(mask[r, c])
  {
    var r := r0;
    while r < r1
      invariant r0 <= r
      invariant forall r', c :: 0 <= r' < mask.Length0 && 0 <= c < mask.Length1 ==>
                  mask[r', c] == if r0 <= r' < r && r' < r1 && c0 <= c < c1 then 1 else old(mask[r', c])
    {
      var c := c0;
      while c < c1
        invariant c0 <= c && (c <= c1 || c == c0)
        invariant forall r', c' :: 0 <= r' < mask.Length0 && 0 <= c' < mask.Length1 ==>
                    mask[r', c'] == if (r0 <= r' < r && c0 <= c' < c1) || (r' == r && c0 <= c' < c) then 1
                                    else old(mask[r', c'])
      {
        mask[r, c] := 1;
        c := c + 1;
      }
      r := r + 1;
    }
  }

  lemma CoveredStep(N: nat, ppf: nat, h: int, frames: nat, r: int, c: int)
    ensures Covered(N, ppf, h, frames + 1, r, c) <==> Covered(N, ppf, h, frames, r, c) || InBlock(N, ppf, h, frames, r, c)
  {
    if InBlock(N, ppf, h, frames, r, c) {
      assert Covered(N, ppf, h, frames + 1, r, c);
    }
  }

  /** One iteration of the constructor's loop: the row and column slices of frame f set to 1. */
  method FillFrame(mask: array2<int>, N: nat, ppf: nat, h: int, f: int)
    requires mask.Length0 == N && mask.Length1 == N
    modifies mask
    ensures forall r, c :: 0 <= r < N && 0 <= c < N ==>
              mask[r, c] == if InBlock(N, ppf, h, f, r, c) then 1 else old(mask[r, c])
  {
    var startRow := (f - h) * ppf;
    if startRow < 0 {
      startRow := 0;
    }
    var endRow := (f + h) * ppf;
    var startCol := f * ppf;
    var endCol := (f + 1) * ppf;
    FillBlock(mask, SliceBound(startRow, N), SliceBound(endRow, N), SliceBound(startCol, N), SliceBound(endCol, N));
  }

  /**
   * The constructor's loop: an N x N zero matrix, then one block of ones per frame.
   * The source divides by F, so F must be positive.
   */
  method BuildTemporalMask(N: nat, F: nat, t: int) returns (mask: array2<int>)
    requires F > 0
    ensures fresh(mask) && mask.Length0 == N && mask.Length1 == N
    ensures forall r, c :: 0 <= r < N && 0 <= c < N ==> mask[r, c] == if MaskCovers(N, F, t, r, c) then 1 else 0
  {
    var ppf := N / F;
    var h := t / 2;
    mask := new int[N, N]((r, c) => 0);
    for f := 0 to F
      invariant forall r, c :: 0 <= r < N && 0 <= c < N ==> mask[r, c] == if Covered(N, ppf, h, f, r, c) then 1 else 0
    {
      FillFrame(mask, N, ppf, h, f);
      forall r, c | 0 <= r < N && 0 <= c < N
        ensures mask[r, c] == if Covered(N, ppf, h, f + 1, r, c) then 1 else 0
      {
        CoveredStep(N, ppf, h, f, r, c);
      }
    }
  }

  /** For d > 0 and r >= 0, comparing r with a multiple of d is comparing r / d with the factor. */
  lemma DivCompare(a: int, r: int, d: int)
    requires d > 0 && r >= 0
    ensures a * d <= r <==> a <= r / d
    ensures r < a * d <==> r / d < a
  {
    DivBound(r, r / d + 1, d);
    if a <= r / d {
      MulMono(a, r / d, d);
    } else {
      MulStep(r / d, a, d);
    }
  }

  /** The frame of r is within [f - h, f + h) of frame f = c / ppf, which is one of the F frames. */
  predicate InWindow(F: nat, ppf: nat, h: int, r: int, c: int)
  {
    ppf > 0 && c < F * ppf && c / ppf - h <= r / ppf < c / ppf + h
  }

  /**
   * For t > 0 (window h = t // 2 >= 0) and ppf = N // F: entry (r, c) is 1 exactly
   * when c lies in one of the F full frames and the frame of r is within [c - h, c + h)
   * of the frame of c. The window is half-open: h frames before, h - 1 after.
   */
  lemma MaskWindow(N: nat, F: nat, t: int, r: int, c: int)
    requires F > 0 && t > 0 && 0 <= r < N && 0 <= c < N
    ensures MaskCovers(N, F, t, r, c) <==> InWindow(F, N / F, t / 2, r, c)
  {
    var ppf, h := N / F, t / 2;
    if ppf == 0 {
      NoFullFrame(N, h, F, r, c);
    } else {
      FramesFit(N, F);
      FullFrames(N, F, ppf, h, r, c);
    }
  }

  lemma FramesFit(N: nat, F: nat)
    requires F > 0
    ensures F * (N / F) <= N
  {
    DivBound(N, N / F + 1, F);
  }

  lemma FullFrames(N: nat, F: nat, ppf: nat, h: int, r: int, c: int)
    requires ppf > 0 && h >= 0 && F * ppf <= N && 0 <= r < N && 0 <= c < N
    ensures Covered(N, ppf, h, F, r, c) <==> InWindow(F, ppf, h, r, c)
  {
    if Covered(N, ppf, h, F, r, c) {
      var f :| 0 <= f < F && InBlock(N, ppf, h, f, r, c);
      WindowSound(N, F, ppf, h, f, r, c);
    } else if InWindow(F, ppf, h, r, c) {
      WindowComplete(N, F, ppf, h, r, c);
    }
  }

  /** With fewer points than frames every frame's columns are empty. */
  lemma NoFullFrame(N: nat, h: int, F: nat, r: int, c: int)
    ensures !Covered(N, 0, h, F, r, c)
  {
    forall f | 0 <= f < F ensures !InBlock(N, 0, h, f, r, c) {
      assert f * 0 == 0 && (f + 1) * 0 == 0;
    }
  }

  lemma WindowSound(N: nat, F: nat, ppf: nat, h: int, f: int, r: int, c: int)
    requires ppf > 0 && h >= 0 && F * ppf <= N && 0 <= f < F && 0 <= r < N && 0 <= c < N
    requires InBlock(N, ppf, h, f, r, c)
    ensures InWindow(F, ppf, h, r, c)
  {
    FrameBlock(N, F, ppf, h, f, r, c);
    DivCompare(F, c, ppf);
  }

  lemma WindowComplete(N: nat, F: nat, ppf: nat, h: int, r: int, c: int)
    requires ppf > 0 && h >= 0 && F * ppf <= N && 0 <= r < N && 0 <= c < N
    requires InWindow(F, ppf, h, r, c)
    ensures Covered(N, ppf, h, F, r, c)
  {
    var f := c / ppf;
    DivCompare(F, c, ppf);
    FrameBlock(N, F, ppf, h, f, r, c);
    assert InBlock(N, ppf, h, f, r, c);
  }

  /** Inside the F full frames, the block of frame f is the frame-window condition on r and c. */
  lemma FrameBlock(N: nat, F: nat, ppf: nat, h: int, f: int, r: int, c: int)
    requires ppf > 0 && h >= 0 && F * ppf <= N && 0 <= f < F && 0 <= r < N && 0 <= c < N
    ensures InBlock(N, ppf, h, f, r, c) <==> c / ppf == f && f - h <= r / ppf < f + h
  {
    MulMono(f + 1, F, ppf);
    MulMono(f - h, f, ppf);
    DivCompare(f, c, ppf);
    DivCompare(f + 1, c, ppf);
    DivCompare(f - h, r, ppf);
    DivCompare(f + h, r, ppf);
    MulMono(0, f + h, ppf);
  }

  /** With t = 1 the window is empty: no entry of the mask is ever set. */
  lemma UnitWindowIsEmpty(N: nat, F: nat, r: int, c: int)
    requires F > 0
    ensures !MaskCovers(N, F, 1, r, c)
  {
    forall f | 0 <= f < F ensures !InBlock(N, N / F, 0, f, r, c) {
      assert RowStart(f, 0, N / F) == (f + 0) * (N / F);
    }
  }

  /**
   * A negative odd t passes the oddness check, and its row-slice end is negative, so
   * it counts from the end of the axis: with N = 30, F = 3 and t = -1, frame 0 writes
   * rows [10, 20) of its columns, and entry (15, 5) is set.
   */
  lemma NegativeWindowWraps()
    ensures -1 % 2 == 1
    ensures MaskCovers(30, 3, -1, 15, 5)
  {
    assert 30 / 3 == 10 && -1 / 2 == -1;
    assert InBlock(30, 10, -1, 0, 15, 5);
  }
}
