/**
 * Flat models of the tensor operations the core uses. A tensor is a row-major
 * `seq` whose shape is passed alongside it; a feature row (the last dimension)
 * is one element of type `A`, so no operation here looks at feature values.
 */
module TensorOps {
  import opened IndexArith
  import opened Wrappers

  /** Position (o, i, x) of a row-major (_, n, w) view. */
  function Flat3(o: int, i: int, x: int, n: int, w: int): int { Flat(Flat(o, i, n), x, w) }

  lemma Flat3Bound(o: int, i: int, x: int, m: int, n: int, w: int)
    requires 0 <= o < m && 0 <= i < n && 0 <= x < w
    ensures 0 <= Flat3(o, i, x, n, w) < m * n * w
  {
    FlatBound(o, i, m, n);
    FlatBound(Flat(o, i, n), x, m * n, w);
  }

  lemma Flat3Decode(o: int, i: int, x: int, n: int, w: int)
    requires 0 <= i < n && 0 <= x < w
    ensures Flat3(o, i, x, n, w) / w / n == o
    ensures (Flat3(o, i, x, n, w) / w) % n == i
    ensures Flat3(o, i, x, n, w) % w == x
  {
    FlatDecode(Flat(o, i, n), x, w);
    FlatDecode(o, i, n);
  }

  // ---------------------------------------------------------------------------
  // repeat along a dimension of size one

  /** Where element m of an (outer, times, inner) repeat comes from in the (outer, 1, inner) input. */
  function RepeatSource(m: int, outer: nat, times: nat, inner: nat): (k: int)
    requires 0 <= m < outer * times * inner
    ensures 0 <= k < outer * inner
  {
    DivBound(m, outer * times, inner);
    DivBound(m / inner, outer, times);
    FlatBound(m / inner / times, m % inner, outer, inner);
    Flat(m / inner / times, m % inner, inner)
  }

  /**
   * `t.reshape(outer, 1, inner).repeat(1, times, 1)`: every (outer) block of the
   * input appears `times` times in a row.
   */
  function RepeatMiddle<A>(s: seq<A>, outer: nat, times: nat, inner: nat): (r: seq<A>)
    requires |s| == outer * inner
    ensures |r| == outer * times * inner
  {
    seq(outer * times * inner, m requires 0 <= m < outer * times * inner =>
      s[RepeatSource(m, outer, times, inner)])
  }

  /** Copy t of block o of a repeat holds block o of the input. */
  lemma RepeatMiddleAt<A>(s: seq<A>, outer: nat, times: nat, inner: nat, o: int, t: int, x: int)
    requires |s| == outer * inner
    requires 0 <= o < outer && 0 <= t < times && 0 <= x < inner
    ensures 0 <= Flat3(o, t, x, times, inner) < outer * times * inner
    ensures 0 <= Flat(o, x, inner) < |s|
    ensures RepeatMiddle(s, outer, times, inner)[Flat3(o, t, x, times, inner)] == s[Flat(o, x, inner)]
  {
    Flat3Bound(o, t, x, outer, times, inner);
    Flat3Decode(o, t, x, times, inner);
    FlatBound(o, x, outer, inner);
  }

  // ---------------------------------------------------------------------------
  // boolean-mask indexing along dimension 1

  /** The positions of `keep` that hold true, in ascending order (`(keep).nonzero()`). */
  function TrueIndices(keep: seq<bool>): (pos: seq<nat>)
    ensures forall c :: 0 <= c < |pos| ==> pos[c] < |keep| && keep[pos[c]]
    ensures forall c, c' :: 0 <= c < c' < |pos| ==> pos[c] < pos[c']
    ensures forall q :: 0 <= q < |keep| && keep[q] ==> q in pos
  {
    if keep == [] then []
    else
      var n := |keep| - 1;
      var front := TrueIndices(keep[..n]);
      if keep[n] then front + [n] else front
  }

  /** Where element m of a mask selection comes from in the (outer, mid, inner) input. */
  function SelectSource(m: int, outer: nat, mid: nat, inner: nat, pos: seq<nat>): (k: int)
    requires forall c :: 0 <= c < |pos| ==> pos[c] < mid
    requires 0 <= m < outer * |pos| * inner
    ensures 0 <= k < outer * mid * inner
  {
    DivBound(m, outer * |pos|, inner);
    DivBound(m / inner, outer, |pos|);
    Flat3Bound(m / inner / |pos|, pos[(m / inner) % |pos|], m % inner, outer, mid, inner);
    Flat3(m / inner / |pos|, pos[(m / inner) % |pos|], m % inner, mid, inner)
  }

  /**
   * `t[:, keep]` on an (outer, mid, inner) tensor with `pos == TrueIndices(keep)`:
   * keeps, in every outer block, the middle slices listed in `pos`, in that order.
   */
  function SelectMiddle<A>(s: seq<A>, outer: nat, mid: nat, inner: nat, pos: seq<nat>): (r: seq<A>)
    requires |s| == outer * mid * inner
    requires forall c :: 0 <= c < |pos| ==> pos[c] < mid
    ensures |r| == outer * |pos| * inner
  {
    seq(outer * |pos| * inner, m requires 0 <= m < outer * |pos| * inner =>
      s[SelectSource(m, outer, mid, inner, pos)])
  }

  /** Selected slice c of block o is the input's slice pos[c] of block o. */
  lemma SelectMiddleAt<A>(s: seq<A>, outer: nat, mid: nat, inner: nat, pos: seq<nat>, o: int, c: int, x: int)
    requires |s| == outer * mid * inner
    requires forall c :: 0 <= c < |pos| ==> pos[c] < mid
    requires 0 <= o < outer && 0 <= c < |pos| && 0 <= x < inner
    ensures 0 <= Flat3(o, c, x, |pos|, inner) < outer * |pos| * inner
    ensures 0 <= Flat3(o, pos[c], x, mid, inner) < |s|
    ensures SelectMiddle(s, outer, mid, inner, pos)[Flat3(o, c, x, |pos|, inner)] == s[Flat3(o, pos[c], x, mid, inner)]
  {
    Flat3Bound(o, c, x, outer, |pos|, inner);
    Flat3Decode(o, c, x, |pos|, inner);
    Flat3Bound(o, pos[c], x, outer, mid, inner);
  }

  // ---------------------------------------------------------------------------
  // permute of two adjacent dimensions

  /** Position (o, i, j, x) of a row-major (_, n1, n2, w) view. */
  function Flat4(o: int, i: int, j: int, x: int, n1: int, n2: int, w: int): int
  {
    Flat(Flat(Flat(o, i, n1), j, n2), x, w)
  }

  lemma Flat4Bound(o: int, i: int, j: int, x: int, m: int, n1: int, n2: int, w: int)
    requires 0 <= o < m && 0 <= i < n1 && 0 <= j < n2 && 0 <= x < w
    ensures 0 <= Flat4(o, i, j, x, n1, n2, w) < m * n1 * n2 * w
  {
    FlatBound(o, i, m, n1);
    FlatBound(Flat(o, i, n1), j, m * n1, n2);
    FlatBound(Flat(Flat(o, i, n1), j, n2), x, m * n1 * n2, w);
  }

  /** Where element m of the swapped (outer, d2, d1, inner) tensor comes from. */
  function SwapSource(m: int, outer: nat, d1: nat, d2: nat, inner: nat): (k: int)
    requires 0 <= m < outer * d2 * d1 * inner
    ensures 0 <= k < outer * d1 * d2 * inner
  {
    DivBound(m, outer * d2 * d1, inner);
    DivBound(m / inner, outer * d2, d1);
    DivBound(m / inner / d1, outer, d2);
    Flat4Bound(m / inner / d1 / d2, (m / inner) % d1, (m / inner / d1) % d2, m % inner, outer, d1, d2, inner);
    Flat4(m / inner / d1 / d2, (m / inner) % d1, (m / inner / d1) % d2, m % inner, d1, d2, inner)
  }

  /** `t.permute(...)` exchanging the two middle dimensions of an (outer, d1, d2, inner) tensor. */
  function SwapAxes<A>(s: seq<A>, outer: nat, d1: nat, d2: nat, inner: nat): (r: seq<A>)
    requires |s| == outer * d1 * d2 * inner
    ensures |r| == outer * d2 * d1 * inner
  {
    seq(outer * d2 * d1 * inner, m requires 0 <= m < outer * d2 * d1 * inner =>
      s[SwapSource(m, outer, d1, d2, inner)])
  }

  /** Element (o, j, i, x) of the swapped tensor is element (o, i, j, x) of the input. */
  lemma SwapAxesAt<A>(s: seq<A>, outer: nat, d1: nat, d2: nat, inner: nat, o: int, i: int, j: int, x: int)
    requires |s| == outer * d1 * d2 * inner
    requires 0 <= o < outer && 0 <= i < d1 && 0 <= j < d2 && 0 <= x < inner
    ensures 0 <= Flat4(o, j, i, x, d2, d1, inner) < outer * d2 * d1 * inner
    ensures 0 <= Flat4(o, i, j, x, d1, d2, inner) < |s|
    ensures SwapAxes(s, outer, d1, d2, inner)[Flat4(o, j, i, x, d2, d1, inner)] == s[Flat4(o, i, j, x, d1, d2, inner)]
  {
    Flat4Bound(o, j, i, x, outer, d2, d1, inner);
    Flat4Bound(o, i, j, x, outer, d1, d2, inner);
    var m := Flat4(o, j, i, x, d2, d1, inner);
    FlatDecode(Flat(Flat(o, j, d2), i, d1), x, inner);
    FlatDecode(Flat(o, j, d2), i, d1);
    FlatDecode(o, j, d2);
  }

  // ---------------------------------------------------------------------------
  // elementwise addition with broadcasting along dimension 0

  /**
   * `a + b` for integer tensors of shapes (ra, w) and (rb, w): equal row counts add
   * row by row, a single row is broadcast over the other operand, anything else is
   * a shape error.
   */
  function AddRows(a: seq<int>, ra: nat, b: seq<int>, rb: nat, w: nat): (r: Result<seq<int>>)
    requires |a| == ra * w && |b| == rb * w
    ensures r.Success? <==> (ra == rb || ra == 1 || rb == 1)
    ensures r.Success? ==> |r.value| == (if ra == rb || rb == 1 then ra else rb) * w
  {
    if ra == rb then
      Success(seq(ra * w, n requires 0 <= n < ra * w => a[n] + b[n]))
    else if rb == 1 then
      Success(seq(ra * w, n requires 0 <= n < ra * w =>
        DivBound(n, ra, w); a[n] + b[n % w]))
    else if ra == 1 then
      Success(seq(rb * w, n requires 0 <= n < rb * w =>
        DivBound(n, rb, w); a[n % w] + b[n]))
    else
      Failure(ShapeMismatch)
  }

  /** Where the rows of a successful broadcast addition come from. */
  lemma AddRowsAt(a: seq<int>, ra: nat, b: seq<int>, rb: nat, w: nat, o: int, x: int)
    requires |a| == ra * w && |b| == rb * w
    requires AddRows(a, ra, b, rb, w).Success?
    requires 0 <= x < w
    requires 0 <= o < (if ra == rb || rb == 1 then ra else rb)
    ensures 0 <= Flat(o, x, w) < |AddRows(a, ra, b, rb, w).value|
    ensures var oa := if ra == 1 then 0 else o;
            var ob := if rb == 1 then 0 else o;
            0 <= Flat(oa, x, w) < |a| && 0 <= Flat(ob, x, w) < |b| &&
            AddRows(a, ra, b, rb, w).value[Flat(o, x, w)] == a[Flat(oa, x, w)] + b[Flat(ob, x, w)]
  {
    var rows := if ra == rb || rb == 1 then ra else rb;
    FlatBound(o, x, rows, w);
    FlatDecode(o, x, w);
    FlatBound(0, x, 1, w);
    if ra == rb {
    } else if rb == 1 {
      FlatBound(o, x, ra, w);
    } else {
      FlatBound(o, x, rb, w);
    }
  }
}
