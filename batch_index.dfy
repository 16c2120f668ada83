/**
 * The batch indexer: how points are laid out in the flattened index space and
 * how each point's (sample, frame) group id is derived from its sample id and
 * 1-based sequence number.
 */
module BatchIndex {
  import opened IndexArith
  import opened TensorOps

  /** `len(torch.unique(t))`: the number of distinct values. */
  function DistinctCount(s: seq<int>): nat
  {
    |set x | x in s|
  }

  /**
   * The layout the core assumes: B samples of F frames of P points, sample-major,
   * then frame-major, then point; sample ids are 0..B-1 and sequence numbers 1..F.
   */
  ghost predicate IsLayout(batch: seq<int>, seqNo: seq<int>, B: nat, F: nat, P: nat)
  {
    && |batch| == B * F * P && |seqNo| == B * F * P
    && (forall n :: 0 <= n < |batch| ==> batch[n] == n / P / F)
    && (forall n :: 0 <= n < |seqNo| ==> seqNo[n] == (n / P) % F + 1)
  }

  /** Every flat position of a B x F x P layout is the position of exactly one (b, f, p). */
  lemma Decompose3(n: int, B: nat, F: nat, P: nat)
    requires 0 <= n < B * F * P && F > 0 && P > 0
    ensures 0 <= n / P / F < B && 0 <= (n / P) % F < F && 0 <= n % P < P
    ensures n == Flat3(n / P / F, (n / P) % F, n % P, F, P)
  {
    DivBound(n, B * F, P);
    DivBound(n / P, B, F);
  }

  /** `batch * num_frames + sequence_number - 1`: the (sample, frame) group of a point. */
  function GroupId(b: int, s: int, F: int): int
  {
    b * F + s - 1
  }

  /**
   * The "previous frame" group `batch * num_frames + sequence_number - 2`, falling
   * back to the point's own group on the first frame, and also on the last frame
   * when `lastFallsBack` (the variant of TemporalDynamicEdgeConv).
   */
  function PrevGroupId(b: int, s: int, F: int, lastFallsBack: bool): int
  {
    if s == 1 || (lastFallsBack && s == F) then GroupId(b, s, F) else b * F + s - 2
  }

  /** The per-point group ids (`b_list[0]`). */
  function GroupIds(batch: seq<int>, seqNo: seq<int>, F: int): (g: seq<int>)
    requires |batch| == |seqNo|
    ensures |g| == |batch|
    ensures forall n :: 0 <= n < |g| ==> g[n] == GroupId(batch[n], seqNo[n], F)
  {
    seq(|batch|, n requires 0 <= n < |batch| => GroupId(batch[n], seqNo[n], F))
  }

  /** The per-point "previous frame" group ids (`b_list[1]` after `torch.where`). */
  function PrevGroupIds(batch: seq<int>, seqNo: seq<int>, F: int, lastFallsBack: bool): (g: seq<int>)
    requires |batch| == |seqNo|
    ensures |g| == |batch|
    ensures forall n :: 0 <= n < |g| ==> g[n] == PrevGroupId(batch[n], seqNo[n], F, lastFallsBack)
  {
    seq(|batch|, n requires 0 <= n < |batch| => PrevGroupId(batch[n], seqNo[n], F, lastFallsBack))
  }

  /** The pair `(b_list[0], b_list[1])` a temporal forward hands to knn, with F the number of distinct sequence numbers. */
  function ForwardGroups(batch: seq<int>, seqNo: seq<int>, lastFallsBack: bool): (r: (seq<int>, seq<int>))
    requires |batch| == |seqNo|
  {
    var F := DistinctCount(seqNo);
    (GroupIds(batch, seqNo, F), PrevGroupIds(batch, seqNo, F, lastFallsBack))
  }

  /**
   * A group id names its sample and frame: for a sequence number in [1, F] the id
   * lies in the sample's range [b*F, b*F + F) and decodes back to (b, s).
   * Hence distinct (sample, frame) pairs get distinct ids.
   */
  lemma GroupIdDecodes(b: int, s: int, F: int)
    requires 1 <= s <= F
    ensures b * F <= GroupId(b, s, F) < b * F + F
    ensures GroupId(b, s, F) / F == b && GroupId(b, s, F) % F == s - 1
  {
    FlatDecode(b, s - 1, F);
  }

  lemma GroupIdInjective(b: int, s: int, b': int, s': int, F: int)
    requires 1 <= s <= F && 1 <= s' <= F
    ensures GroupId(b, s, F) == GroupId(b', s', F) <==> b == b' && s == s'
  {
    GroupIdDecodes(b, s, F);
    GroupIdDecodes(b', s', F);
  }

  /**
   * The previous-frame id never leaves the sample's range, and it names frame s-1
   * except where it falls back to the point's own frame.
   */
  lemma PrevGroupIdInSample(b: int, s: int, F: int, lastFallsBack: bool)
    requires 1 <= s <= F
    ensures b * F <= PrevGroupId(b, s, F, lastFallsBack) < b * F + F
    ensures PrevGroupId(b, s, F, lastFallsBack) / F == b
    ensures PrevGroupId(b, s, F, lastFallsBack) ==
              if s == 1 || (lastFallsBack && s == F) then GroupId(b, s, F) else GroupId(b, s - 1, F)
  {
    if s == 1 || (lastFallsBack && s == F) {
      GroupIdDecodes(b, s, F);
    } else {
      GroupIdDecodes(b, s - 1, F);
    }
  }

  /**
   * What knn pairs under the forward variants: a query point (sample bq, frame sq;
   * group `PrevGroupId`) and a candidate (bc, sc; group `GroupId`) are paired
   * exactly when they are in the same sample and the candidate is in the query's
   * previous frame, or in its own frame where the previous-frame id falls back.
   */
  lemma ForwardPairing(bc: int, sc: int, bq: int, sq: int, F: int, lastFallsBack: bool)
    requires 1 <= sc <= F && 1 <= sq <= F
    ensures GroupId(bc, sc, F) == PrevGroupId(bq, sq, F, lastFallsBack) <==>
              bc == bq &&
              sc == (if sq == 1 || (lastFallsBack && sq == F) then sq else sq - 1)
  {
    var sTarget := if sq == 1 || (lastFallsBack && sq == F) then sq else sq - 1;
    GroupIdInjective(bc, sc, bq, sTarget, F);
  }

  /** The integers lo, ..., hi-1. */
  function IntRange(lo: int, hi: int): (r: set<int>)
    ensures forall x :: x in r <==> lo <= x < hi
    ensures |r| == if lo <= hi then hi - lo else 0
    decreases hi - lo
  {
    if lo >= hi then {} else {lo} + IntRange(lo + 1, hi)
  }

  /**
   * On the assumed layout, `len(unique(batch))` is B and `len(unique(sequence_number))`
   * is F: the counts the core derives agree with the layout's shape.
   */
  lemma LayoutCounts(batch: seq<int>, seqNo: seq<int>, B: nat, F: nat, P: nat)
    requires IsLayout(batch, seqNo, B, F, P) && B > 0 && F > 0 && P > 0
    ensures DistinctCount(batch) == B && DistinctCount(seqNo) == F
  {
    assert (set x | x in batch) == IntRange(0, B) by {
      forall x | x in batch ensures 0 <= x < B {
        var n :| 0 <= n < |batch| && batch[n] == x;
        Decompose3(n, B, F, P);
      }
      forall x | 0 <= x < B ensures x in batch {
        Flat3Bound(x, 0, 0, B, F, P);
        Flat3Decode(x, 0, 0, F, P);
        assert batch[Flat3(x, 0, 0, F, P)] == x;
      }
    }
    assert (set x | x in seqNo) == IntRange(1, F + 1) by {
      forall x | x in seqNo ensures 1 <= x < F + 1 {
        var n :| 0 <= n < |seqNo| && seqNo[n] == x;
        Decompose3(n, B, F, P);
      }
      forall x | 1 <= x < F + 1 ensures x in seqNo {
        Flat3Bound(0, x - 1, 0, B, F, P);
        Flat3Decode(0, x - 1, 0, F, P);
        assert seqNo[Flat3(0, x - 1, 0, F, P)] == x;
      }
    }
  }

  /** On the layout, every point's group id is its (sample, frame) block number b*F + f. */
  lemma LayoutGroupIds(batch: seq<int>, seqNo: seq<int>, B: nat, F: nat, P: nat, b: int, f: int, p: int)
    requires IsLayout(batch, seqNo, B, F, P)
    requires 0 <= b < B && 0 <= f < F && 0 <= p < P
    ensures 0 <= Flat3(b, f, p, F, P) < |batch|
    ensures GroupIds(batch, seqNo, F)[Flat3(b, f, p, F, P)] == Flat(b, f, F)
  {
    Flat3Bound(b, f, p, B, F, P);
    Flat3Decode(b, f, p, F, P);
  }

  /**
   * On the layout, the pair a temporal forward hands to knn, computed with F as the
   * number of distinct sequence numbers, gives point p of frame f of sample b the
   * group id b*F + f and the previous-frame id of sequence number f + 1.
   */
  lemma ForwardGroupsOnLayout(batch: seq<int>, seqNo: seq<int>, B: nat, F: nat, P: nat, lastFallsBack: bool,
                              b: int, f: int, p: int)
    requires IsLayout(batch, seqNo, B, F, P) && B > 0 && F > 0 && P > 0
    requires 0 <= b < B && 0 <= f < F && 0 <= p < P
    ensures 0 <= Flat3(b, f, p, F, P) < |batch|
    ensures ForwardGroups(batch, seqNo, lastFallsBack).0[Flat3(b, f, p, F, P)] == b * F + f
    ensures ForwardGroups(batch, seqNo, lastFallsBack).1[Flat3(b, f, p, F, P)] == PrevGroupId(b, f + 1, F, lastFallsBack)
  {
    LayoutCounts(batch, seqNo, B, F, P);
    LayoutGroupIds(batch, seqNo, B, F, P, b, f, p);
    Flat3Decode(b, f, p, F, P);
  }
}
