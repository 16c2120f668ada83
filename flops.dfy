/**
 * The operation counters registered for the profiler: each reads the shapes of a
 * module's inputs and adds an integer estimate to the module's `total_ops`.
 */
module Flops {
  import opened IndexArith
  import opened Wrappers
  import opened BatchIndex
  import opened Candidates
  import opened PairCount

  /**
   * `count_GeneralizedTemporalSelfAttentionDynamicEdgeConv`'s estimate for N points
   * of width D, B samples and F frames: P = N // (B*F) points per frame,
   * `size_source = B*P*(1 + F(F-1)//2)`, `size_target = B*F*P`, and
   * `2*(D+1) * size_source * size_target` operations.
   */
  function GeneralizedOps(N: nat, D: nat, B: nat, F: nat): int
    requires B * F > 0
  {
    var P := N / (B * F);
    var sizeSource := B * P * (1 + F * (F - 1) / 2);
    var sizeTarget := B * F * P;
    2 * (D + 1) * sizeSource * sizeTarget
  }

  lemma ProductNonnegative(a: int, b: int)
    requires a >= 0 && b >= 0
    ensures a * b >= 0
  {
  }

  /** The generalized estimate is never negative, so that counter never lowers `total_ops`. */
  lemma GeneralizedOpsNonnegative(N: nat, D: nat, B: nat, F: nat)
    requires B * F > 0
    ensures GeneralizedOps(N, D, B, F) >= 0
  {
    var P := N / (B * F);
    ProductNonnegative(F, F - 1);
    var sizeSource := B * P * (1 + F * (F - 1) / 2);
    ProductNonnegative(B * P, 1 + F * (F - 1) / 2);
    var sizeTarget := B * F * P;
    ProductNonnegative(2 * (D + 1), sizeSource);
    ProductNonnegative(2 * (D + 1) * sizeSource, sizeTarget);
  }

  /** The number of elements of a tensor of the given shape. */
  function Numel(shape: seq<nat>): (n: nat)
    ensures shape == [] ==> n == 1
  {
    if shape == [] then 1 else Numel(shape[..|shape| - 1]) * shape[|shape| - 1]
  }

  /**
   * `count_Multi_head_self_attention`'s estimate for query, key and value shapes:
   * `(q_dim + 1) * numel(k)` for the scores, `q[1] * numel(v)` for the weighted sum and
   * `q[0] * heads * q[1] * (3*nf - 1)` for the softmax, with q_dim = q[-1] // heads and
   * nf = k[1].
   */
  function MultiHeadOps(q: seq<nat>, k: seq<nat>, v: seq<nat>, heads: nat): (ops: int)
    requires |q| >= 2 && |k| >= 2 && heads > 0
  {
    var qDim := q[|q| - 1] / heads;
    var attentionOps := (qDim + 1) * Numel(k);
    var queryOps := q[1] * Numel(v);
    var nf: int := k[1];
    var rows := q[0] * heads * q[1];
    var softmaxOps := rows * (nf + (nf - 1) + nf);
    attentionOps + softmaxOps + queryOps
  }

  /** A profiled module's accumulated operation count. */
  class OpCounter {
    var totalOps: int
    const headNum: nat

    constructor (headNum: nat)
      ensures totalOps == 0 && this.headNum == headNum
    {
      totalOps := 0;
      this.headNum := headNum;
    }

    /**
     * The generalized-conv counter: fails on B*F = 0 (integer division by zero) and
     * leaves the count alone; otherwise adds `GeneralizedOps`, so the count never
     * decreases.
     */
    method CountGeneralized(N: nat, D: nat, seqNo: seq<int>, batch: seq<int>) returns (r: Result<()>)
      modifies this
      ensures var B, F := DistinctCount(batch), DistinctCount(seqNo);
              if B * F == 0 then r == Failure(DivisionByZero) && totalOps == old(totalOps)
              else r.Success? && totalOps == old(totalOps) + GeneralizedOps(N, D, B, F)
      ensures totalOps >= old(totalOps)
    {
      var frameNumber := DistinctCount(seqNo);
      var batchSize := DistinctCount(batch);
      if batchSize * frameNumber == 0 {
        return Failure(DivisionByZero);
      }
      var pointNumber := N / (batchSize * frameNumber);
      var dim := D + 1;
      var sizeSource := batchSize * pointNumber * (1 + frameNumber * (frameNumber - 1) / 2);
      var sizeTarget := batchSize * frameNumber * pointNumber;
      var ops := (2 * dim) * sizeSource * sizeTarget;
      GeneralizedOpsNonnegative(N, D, batchSize, frameNumber);
      totalOps := totalOps + ops;
      return Success(());
    }

    /**
     * The attention counter: `q.shape[-1]` needs a dimension, `// head_num` a non-zero
     * head count, `q.shape[1]` and `k.shape[1]` two dimensions. On success it adds
     * `MultiHeadOps`, which can be negative when the keys have no features.
     */
    method CountMultiHead(q: seq<nat>, k: seq<nat>, v: seq<nat>) returns (r: Result<()>)
      modifies this
      ensures |q| == 0 ==> r == Failure(IndexOutOfRange)
      ensures |q| > 0 && headNum == 0 ==> r == Failure(DivisionByZero)
      ensures |q| > 0 && headNum > 0 && (|q| < 2 || |k| < 2) ==> r == Failure(IndexOutOfRange)
      ensures r.Failure? ==> totalOps == old(totalOps)
      ensures |q| >= 2 && |k| >= 2 && headNum > 0 ==>
                r.Success? && totalOps == old(totalOps) + MultiHeadOps(q, k, v, headNum)
      ensures |k| >= 2 && k[1] >= 1 ==> totalOps >= old(totalOps)
    {
      if |q| == 0 {
        return Failure(IndexOutOfRange);
      }
      if headNum == 0 {
        return Failure(DivisionByZero);
      }
      var qDim := q[|q| - 1] / headNum;
      var attentionOps := (qDim + 1) * Numel(k);
      if |q| < 2 {
        return Failure(IndexOutOfRange);
      }
      var queryOps := q[1] * Numel(v);
      if |k| < 2 {
        return Failure(IndexOutOfRange);
      }
      var nfeatures: int := k[1];
      var rows := q[0] * headNum * q[1];
      var softmaxOps := rows * (nfeatures + (nfeatures - 1) + nfeatures);
      if nfeatures >= 1 {
        MultiHeadOpsNonnegative(q, k, v, headNum);
      }
      totalOps := totalOps + (attentionOps + softmaxOps + queryOps);
      return Success(());
    }
  }

  /** With at least one key feature the attention estimate is never negative. */
  lemma MultiHeadOpsNonnegative(q: seq<nat>, k: seq<nat>, v: seq<nat>, heads: nat)
    requires |q| >= 2 && |k| >= 2 && heads > 0 && k[1] >= 1
    ensures MultiHeadOps(q, k, v, heads) >= 0
  {
    var nf: int := k[1];
    var rows := q[0] * heads * q[1];
    ProductNonnegative(q[|q| - 1] / heads + 1, Numel(k));
    ProductNonnegative(q[1], Numel(v));
    ProductNonnegative(q[0] * heads, q[1]);
    assert rows >= 0;
    ProductNonnegative(rows, nf + (nf - 1) + nf);
  }

  /**
   * Keys with no features make the softmax term -q[0]*heads*q[1], so one call lowers
   * `total_ops`: q of shape (1, 1, 1) against k and v of shape (1, 0) subtracts 1.
   */
  lemma MultiHeadOpsEmptyKeys()
    ensures MultiHeadOps([1, 1, 1], [1, 0], [1, 0], 1) == -1
  {
    assert Numel([1, 0]) == 0 by {
      assert Numel([1]) == 1 by {
        assert [1][..0] == [];
      }
      assert [1, 0][..1] == [1];
    }
  }

  /** With N = B*F*P points the estimate is 2(D+1) * (B*K*P) * N for K = 1 + F(F-1)/2. */
  lemma GeneralizedOpsOnShape(D: nat, B: nat, F: nat, P: nat)
    requires B * F > 0
    ensures GeneralizedOps(B * F * P, D, B, F) == 2 * (D + 1) * (B * (1 + F * (F - 1) / 2) * P) * (B * F * P)
  {
    var K := 1 + F * (F - 1) / 2;
    assert (B * F * P) / (B * F) == P by {
      DivModUnique(B * F * P, B * F, P, 0);
    }
    assert B * P * K == B * K * P;
  }

  /**
   * On the batch layout in strict mode with a window covering all earlier frames,
   * the generalized estimate is 2*(D+1) times the number of candidates the builder
   * produces times the number of query points: `size_source` counts the candidates.
   */
  lemma GeneralizedCountsCandidates<A>(data: seq<A>, D: nat, seqNo: seq<int>, batch: seq<int>, T: int,
                                       B: nat, F: nat, P: nat)
    requires |data| == |seqNo| && IsLayout(batch, seqNo, B, F, P) && B > 0 && F > 0 && P > 0
    requires T >= F - 1
    ensures DistinctCount(batch) * DistinctCount(seqNo) > 0
    ensures MakeProperData(data, seqNo, batch, false, T).Success?
    ensures GeneralizedOps(|data|, D, DistinctCount(batch), DistinctCount(seqNo)) ==
              2 * (D + 1) * |MakeProperData(data, seqNo, batch, false, T).value.target| * |data|
  {
    LayoutBuild(data, seqNo, batch, false, T, B, F, P);
    LayoutCounts(batch, seqNo, B, F, P);
    StrictFullWindowCount(F, T);
    var K := 1 + F * (F - 1) / 2;
    var n := |MakeProperData(data, seqNo, batch, false, T).value.target|;
    assert n == B * K * P;
    assert B * F > 0 by {
      ProductPositive(B, F);
    }
    GeneralizedOpsOnShape(D, B, F, P);
  }

  lemma ProductPositive(a: int, b: int)
    requires a > 0 && b > 0
    ensures a * b > 0
  {
  }
}
