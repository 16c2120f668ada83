/**
 * `TemporalAutomatedGraphDynamicEdgeConv`: the layer built once with a fixed batch
 * size, point count and frame count. Its constructor fills the temporal mask and the
 * table of per-sample point offsets; `forward` shifts the graph creator's per-sample
 * edge indices by those offsets and flattens them sample-major; `aggregate` refines
 * the messages block by block and max-reduces them onto their targets.
 */
module TemporalConv {
  import opened IndexArith
  import opened TensorOps
  import opened Wrappers
  import opened TemporalMask
  import opened Aggregation

  // ---------------------------------------------------------------------------
  // the offset table

  /**
   * `[i * N for i in range(B)]` reshaped to (B, 1) and repeated N*k times, reshaped to
   * (B, N*k, 1) and repeated twice, then permuted to (B, 2, N*k).
   */
  function OffsetTable(B: nat, N: nat, k: nat): (r: seq<int>)
    ensures |r| == B * (2 * (N * k))
  {
    var base := seq(B, i => i * N);
    var rows := RepeatMiddle(base, B, N * k, 1);
    var pairs := RepeatMiddle(rows, B * (N * k), 2, 1);
    OffsetShape(B, N * k);
    SwapAxes(pairs, B, N * k, 2, 1)
  }

  lemma OffsetShape(B: nat, w: nat)
    ensures B * w * 2 * 1 == B * (2 * w) && B * 2 * w * 1 == B * (2 * w)
  {
  }

  lemma FlatOne(a: int)
    ensures Flat(a, 0, 1) == a
  {
  }

  /** Every entry of the table row of sample b is b * N, whatever the edge row and position. */
  lemma OffsetTableAt(B: nat, N: nat, k: nat, b: int, row: int, e: int)
    requires 0 <= b < B && 0 <= row < 2 && 0 <= e < N * k
    ensures 0 <= Flat3(b, row, e, 2, N * k) < |OffsetTable(B, N, k)|
    ensures OffsetTable(B, N, k)[Flat3(b, row, e, 2, N * k)] == b * N
  {
    var w := N * k;
    var base := seq(B, i => i * N);
    var rows := RepeatMiddle(base, B, w, 1);
    var pairs := RepeatMiddle(rows, B * w, 2, 1);
    OffsetShape(B, w);
    Flat3Bound(b, row, e, B, 2, w);
    FlatBound(b, e, B, w);
    assert OffsetTable(B, N, k)[Flat3(b, row, e, 2, w)] == pairs[Flat3(Flat(b, e, w), row, 0, 2, 1)] by {
      SwapAxesAt(pairs, B, w, 2, 1, b, e, row, 0);
      FlatOne(Flat3(b, row, e, 2, w));
      FlatOne(Flat3(Flat(b, e, w), row, 0, 2, 1));
    }
    assert pairs[Flat3(Flat(b, e, w), row, 0, 2, 1)] == rows[Flat(b, e, w)] by {
      RepeatMiddleAt(rows, B * w, 2, 1, Flat(b, e, w), row, 0);
      FlatOne(Flat(b, e, w));
    }
    assert rows[Flat(b, e, w)] == base[b] by {
      RepeatMiddleAt(base, B, w, 1, b, e, 0);
      FlatOne(Flat3(b, e, 0, w, 1));
      FlatOne(b);
    }
  }

  // ---------------------------------------------------------------------------
  // shifting and flattening the edge indices

  /**
   * `(edge_index + table).permute(1, 0, 2).reshape(2, -1)` for an edge tensor of
   * shape (current, 2, Nk) and a table of shape (tableRows, 2, Nk).
   */
  function ShiftAndFlatten(local: seq<int>, current: nat, table: seq<int>, tableRows: nat, Nk: nat): (r: Result<seq<int>>)
    requires |local| == current * (2 * Nk) && |table| == tableRows * (2 * Nk)
    ensures r.Success? <==> (current == tableRows || current == 1 || tableRows == 1)
    ensures r.Success? ==> |r.value| == (if current == tableRows || tableRows == 1 then current else tableRows) * (2 * Nk)
  {
    match AddRows(local, current, table, tableRows, 2 * Nk)
    case Failure(err) => Failure(err)
    case Success(sum) =>
      var rows := if current == tableRows || tableRows == 1 then current else tableRows;
      SwapShape(rows, Nk);
      Success(SwapAxes(sum, 1, rows, 2, Nk))
  }

  lemma SwapShape(rows: nat, Nk: nat)
    ensures rows * (2 * Nk) == 1 * rows * 2 * Nk && 1 * 2 * rows * Nk == rows * (2 * Nk)
  {
  }

  /** The layer's fixed configuration and the two tables its constructor builds. */
  class TemporalAutomatedGraphDynamicEdgeConv {
    const k: nat
    const t: int
    const batchSize: nat
    const numPoints: nat
    const numFrames: nat
    const mask: array2<int>
    const pointIndexCorrector: seq<int>

    /** What the constructor establishes about the configuration and the offset table. */
    predicate Valid()
    {
      t % 2 == 1 && numFrames > 0 && pointIndexCorrector == OffsetTable(batchSize, numPoints, k)
    }

    /**
     * `__init__`: t must be odd (the assertion) and the frame count positive (it
     * divides the point count). Builds the N x N mask with the per-frame loop and the
     * offset table.
     */
    constructor (k: nat, batchSize: nat, numPoints: nat, numFrames: nat, t: int)
      requires t % 2 == 1
      requires numFrames > 0
      ensures this.k == k && this.t == t && this.batchSize == batchSize
      ensures this.numPoints == numPoints && this.numFrames == numFrames
      ensures Valid()
      ensures fresh(mask) && mask.Length0 == numPoints && mask.Length1 == numPoints
      ensures forall r, c :: 0 <= r < numPoints && 0 <= c < numPoints ==>
                mask[r, c] == if MaskCovers(numPoints, numFrames, t, r, c) then 1 else 0
    {
      this.k := k;
      this.t := t;
      this.batchSize := batchSize;
      this.numPoints := numPoints;
      this.numFrames := numFrames;
      var m := BuildTemporalMask(numPoints, numFrames, t);
      this.mask := m;
      this.pointIndexCorrector := OffsetTable(batchSize, numPoints, k);
    }

    /**
     * The offset correction in `forward` for a batch of `current` samples whose
     * local edges have shape (current, 2, N*k): a batch smaller than the configured one
     * (the last of an epoch) uses the first rows of the table, `table[:current]`;
     * otherwise the whole table is added. Broadcasting fails unless the row counts
     * agree or one of them is 1.
     */
    function CorrectEdges(current: nat, local: seq<int>): (r: Result<seq<int>>)
      requires Valid()
      requires |local| == current * (2 * (numPoints * k))
      ensures r.Success? <==> (current <= batchSize || batchSize == 1 || current == 1)
      ensures r.Success? && current <= batchSize ==> |r.value| == current * (2 * (numPoints * k))
    {
      var w := 2 * (numPoints * k);
      if batchSize != current then
        var rows := if current < batchSize then current else batchSize;
        MulMono(rows, batchSize, w);
        ShiftAndFlatten(local, current, pointIndexCorrector[..rows * w], rows, numPoints * k)
      else
        ShiftAndFlatten(local, current, pointIndexCorrector, batchSize, numPoints * k)
    }

    /**
     * `aggregate`: `int(E / k)` fails for k = 0; the reshape to (E // k, k, D) fails
     * when k does not divide E, unless the rows are empty (D = 0). Otherwise the
     * attention refines every block of k consecutive messages and the refined
     * messages are max-reduced onto their index.
     */
    function Aggregate(inputs: seq<seq<int>>, width: nat, index: seq<nat>, dimSize: nat,
                       attend: seq<seq<int>> -> seq<seq<int>>): (r: Result<seq<seq<int>>>)
      requires Rows(inputs, width) && |index| == |inputs|
      requires forall e :: 0 <= e < |index| ==> index[e] < dimSize
      requires KeepsRows(attend) && KeepsWidths(attend)
      ensures r.Success? <==> k > 0 && (|inputs| % k == 0 || width == 0)
      ensures r.Success? ==> |r.value| == dimSize && Rows(r.value, width)
    {
      if k == 0 then Failure(DivisionByZero)
      else if |inputs| % k != 0 then
        if width == 0 then Success(seq(dimSize, n => [])) else Failure(ShapeMismatch)
      else
        RefineWidths(inputs, k, attend, width);
        Success(ScatterMax(RefineBlocks(inputs, k, attend), index, dimSize, width))
    }
  }

  // ---------------------------------------------------------------------------
  // what the correction computes

  lemma EdgeIndexShape(b: int, row: int, e: int, current: nat, Nk: nat)
    ensures Flat4(0, row, b, e, 2, current, Nk) == Flat3(row, b, e, current, Nk)
    ensures Flat4(0, b, row, e, current, 2, Nk) == Flat3(b, row, e, 2, Nk)
    ensures Flat3(b, row, e, 2, Nk) == Flat(b, Flat(row, e, Nk), 2 * Nk)
  {
  }

  /**
   * For a batch no larger than the configured one, entry e of edge row `row` of
   * sample b lands at position b*N*k + e of that row, shifted by b*N.
   */
  lemma CorrectedEdgeAt(conv: TemporalAutomatedGraphDynamicEdgeConv, current: nat, local: seq<int>,
                        b: int, row: int, e: int)
    requires conv.Valid() && current <= conv.batchSize
    requires |local| == current * (2 * (conv.numPoints * conv.k))
    requires 0 <= b < current && 0 <= row < 2 && 0 <= e < conv.numPoints * conv.k
    ensures var r := conv.CorrectEdges(current, local);
            var Nk := conv.numPoints * conv.k;
            && r.Success?
            && 0 <= Flat3(row, b, e, current, Nk) < |r.value|
            && 0 <= Flat3(b, row, e, 2, Nk) < |local|
            && r.value[Flat3(row, b, e, current, Nk)] == local[Flat3(b, row, e, 2, Nk)] + b * conv.numPoints
  {
    var N, Nk := conv.numPoints, conv.numPoints * conv.k;
    var w := 2 * Nk;
    var full := conv.pointIndexCorrector;
    var table := if conv.batchSize != current then full[..current * w] else full;
    MulMono(current, conv.batchSize, w);
    assert conv.CorrectEdges(current, local) == ShiftAndFlatten(local, current, table, current, Nk);
    var sum := AddRows(local, current, table, current, w).value;
    var x := Flat(row, e, Nk);
    FlatBound(row, e, 2, Nk);
    EdgeIndexShape(b, row, e, current, Nk);
    assert sum[Flat(b, x, w)] == local[Flat(b, x, w)] + table[Flat(b, x, w)] by {
      AddRowsAt(local, current, table, current, w, b, x);
    }
    assert table[Flat(b, x, w)] == b * N by {
      OffsetTableAt(conv.batchSize, N, conv.k, b, row, e);
      Flat3Bound(b, row, e, current, 2, Nk);
    }
    SwapShape(current, Nk);
    SwapAxesAt(sum, 1, current, 2, Nk, 0, b, row, e);
  }

  /**
   * Local indices in [0, N) become global indices in [b*N, (b+1)*N), inside the
   * [0, current*N) range of the flattened batch.
   */
  lemma CorrectedEdgeBounds(conv: TemporalAutomatedGraphDynamicEdgeConv, current: nat, local: seq<int>,
                            b: int, row: int, e: int)
    requires conv.Valid() && current <= conv.batchSize
    requires |local| == current * (2 * (conv.numPoints * conv.k))
    requires 0 <= b < current && 0 <= row < 2 && 0 <= e < conv.numPoints * conv.k
    requires 0 <= Flat3(b, row, e, 2, conv.numPoints * conv.k) < |local|
    requires 0 <= local[Flat3(b, row, e, 2, conv.numPoints * conv.k)] < conv.numPoints
    ensures var r := conv.CorrectEdges(current, local);
            var v := r.value[Flat3(row, b, e, current, conv.numPoints * conv.k)];
            && r.Success?
            && b * conv.numPoints <= v < (b + 1) * conv.numPoints
            && (b + 1) * conv.numPoints <= current * conv.numPoints
  {
    CorrectedEdgeAt(conv, current, local, b, row, e);
    MulMono(b + 1, current, conv.numPoints);
  }

  /**
   * With the configured batch size, taking the first `batchSize` rows of the table
   * (the short-batch branch) gives the same edges as adding the whole table.
   */
  lemma ShortBatchBranchAgrees(conv: TemporalAutomatedGraphDynamicEdgeConv, local: seq<int>)
    requires conv.Valid()
    requires |local| == conv.batchSize * (2 * (conv.numPoints * conv.k))
    ensures var w := 2 * (conv.numPoints * conv.k);
            var table := conv.pointIndexCorrector;
            conv.batchSize * w <= |table| &&
            ShiftAndFlatten(local, conv.batchSize, table[..conv.batchSize * w], conv.batchSize, conv.numPoints * conv.k) ==
              conv.CorrectEdges(conv.batchSize, local)
  {
    var w := 2 * (conv.numPoints * conv.k);
    assert conv.pointIndexCorrector[..conv.batchSize * w] == conv.pointIndexCorrector;
  }

  // ---------------------------------------------------------------------------
  // what the aggregation computes

  /**
   * When k divides the message count, output (n, d) is the maximum of column d over
   * the refined messages sent to n (message e refined as `RefineAt` states: row e % k
   * of the attention on block e / k), attained by one of them, and 0 when nothing is
   * sent to n.
   */
  lemma AggregateMax(conv: TemporalAutomatedGraphDynamicEdgeConv, inputs: seq<seq<int>>, width: nat, index: seq<nat>,
                     dimSize: nat, attend: seq<seq<int>> -> seq<seq<int>>, n: int, d: int)
    requires Rows(inputs, width) && |index| == |inputs|
    requires forall e :: 0 <= e < |index| ==> index[e] < dimSize
    requires KeepsRows(attend) && KeepsWidths(attend)
    requires conv.k > 0 && |inputs| % conv.k == 0
    requires 0 <= n < dimSize && 0 <= d < width
    ensures conv.Aggregate(inputs, width, index, dimSize, attend).Success?
    ensures var out := conv.Aggregate(inputs, width, index, dimSize, attend).value;
            var refined := RefineBlocks(inputs, conv.k, attend);
            && |refined| == |inputs| && Rows(refined, width)
            && (forall e :: 0 <= e < |inputs| && index[e] == n ==> refined[e][d] <= out[n][d])
            && ((exists e :: 0 <= e < |inputs| && index[e] == n) ==>
                  exists e :: 0 <= e < |inputs| && index[e] == n && refined[e][d] == out[n][d])
            && ((forall e :: 0 <= e < |inputs| ==> index[e] != n) ==> out[n][d] == 0)
  {
    var refined := RefineBlocks(inputs, conv.k, attend);
    RefineWidths(inputs, conv.k, attend, width);
    ScatterMaxSpec(refined, index, dimSize, width, n, d);
  }
}
