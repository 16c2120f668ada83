/**
 * The candidate pair builder (`make_proper_data`): for every sample it
 * replicates the sample's frames once per source frame, keeps the (source frame,
 * target frame) pairs a temporal window allows, and records for each candidate
 * where it came from in the flattened point array.
 */
module Candidates {
  import opened IndexArith
  import opened TensorOps
  import opened Wrappers
  import opened BatchIndex

  // ---------------------------------------------------------------------------
  // the frame-pair mask

  /** `torch.tril(torch.ones(F, F), diagonal=d)[i][j]`. */
  function Tril(i: int, j: int, d: int): int
  {
    if j <= i + d then 1 else 0
  }

  /**
   * The mask entry for source frame i (row) and target frame j (column), 0-based,
   * after the window subtraction: a lower-triangular matrix (diagonal included with
   * a self loop, excluded otherwise but with (0, 0) forced to 1) minus
   * `tril(ones, diagonal=-T-1)`. Only entries equal to 1 are kept.
   */
  function FrameMaskValue(selfLoop: bool, T: int, i: int, j: int): int
  {
    var base := if selfLoop then Tril(i, j, 0) else if i == 0 && j == 0 then 1 else Tril(i, j, -1);
    base - Tril(i, j, -T - 1)
  }

  /** Fills an F x F matrix with `tril(ones, diagonal=d)`. */
  method FillTril(mask: array2<int>, d: int)
    modifies mask
    ensures forall i, j :: 0 <= i < mask.Length0 && 0 <= j < mask.Length1 ==> mask[i, j] == Tril(i, j, d)
  {
    for i := 0 to mask.Length0
      invariant forall i', j :: 0 <= i' < i && 0 <= j < mask.Length1 ==> mask[i', j] == Tril(i', j, d)
    {
      for j := 0 to mask.Length1
        invariant forall i', j' :: 0 <= i' < i && 0 <= j' < mask.Length1 ==> mask[i', j'] == Tril(i', j', d)
        invariant forall j' :: 0 <= j' < j ==> mask[i, j'] == Tril(i, j', d)
      {
        mask[i, j] := Tril(i, j, d);
      }
    }
  }

  /** `mask -= tril(ones, diagonal=d)`, in place. */
  method SubtractTril(mask: array2<int>, d: int)
    modifies mask
    ensures forall i, j :: 0 <= i < mask.Length0 && 0 <= j < mask.Length1 ==>
              mask[i, j] == old(mask[i, j]) - Tril(i, j, d)
  {
    for i := 0 to mask.Length0
      invariant forall i', j :: 0 <= i' < mask.Length0 && 0 <= j < mask.Length1 ==>
                  mask[i', j] == old(mask[i', j]) - (if i' < i then Tril(i', j, d) else 0)
    {
      for j := 0 to mask.Length1
        invariant forall i', j' :: 0 <= i' < mask.Length0 && 0 <= j' < mask.Length1 ==>
                    mask[i', j'] == old(mask[i', j']) - (if i' < i || (i' == i && j' < j) then Tril(i', j', d) else 0)
      {
        mask[i, j] := mask[i, j] - Tril(i, j, d);
      }
    }
  }

  /**
   * Builds the F x F frame-pair mask the way the source does, in place: the
   * triangular matrix, the (0, 0) correction in strict mode, then the subtraction
   * of the entries more than T frames back. Indexing (0, 0) of an empty matrix
   * fails, hence F > 0 in strict mode.
   */
  method BuildFrameMask(F: nat, selfLoop: bool, T: int) returns (mask: array2<int>)
    requires selfLoop || F > 0
    ensures fresh(mask) && mask.Length0 == F && mask.Length1 == F
    ensures forall i, j :: 0 <= i < F && 0 <= j < F ==> mask[i, j] == FrameMaskValue(selfLoop, T, i, j)
  {
    mask := new int[F, F];
    FillTril(mask, if selfLoop then 0 else -1);
    if !selfLoop {
      mask[0, 0] := 1;
    }
    SubtractTril(mask, -T - 1);
  }

  /** `mask.reshape(-1) == 1`: the kept flags of all F*F pairs, row (source frame) major. */
  function FramePairKeep(F: nat, selfLoop: bool, T: int): (keep: seq<bool>)
    ensures |keep| == F * F
  {
    seq(F * F, q requires 0 <= q < F * F => FrameMaskValue(selfLoop, T, q / F, q % F) == 1)
  }

  /** The kept pairs q = i*F + j, ascending. */
  function KeptPairs(F: nat, selfLoop: bool, T: int): (pos: seq<nat>)
    ensures forall c :: 0 <= c < |pos| ==> pos[c] < F * F
  {
    TrueIndices(FramePairKeep(F, selfLoop, T))
  }

  /**
   * For a window T >= 0 the mask is 0/1 and keeps exactly the pairs with target
   * frame in [i-T, i-1] in strict mode (plus (0, 0)), and in [i-T, i] with a self loop.
   */
  lemma FrameMaskWindow(selfLoop: bool, T: int, i: nat, j: nat)
    requires T >= 0
    ensures FrameMaskValue(selfLoop, T, i, j) in {0, 1}
    ensures FrameMaskValue(selfLoop, T, i, j) == 1 <==>
              if selfLoop then i - T <= j <= i else (i - T <= j <= i - 1 || (i == 0 && j == 0))
  {
  }

  /**
   * With T >= 0, a source frame has some allowed target frame exactly when it is
   * frame 0, or there is a self loop, or the window reaches back at least one frame.
   * In particular frame 0 is never without candidates.
   */
  lemma FrameHasCandidate(F: nat, selfLoop: bool, T: int, i: nat)
    requires T >= 0 && i < F
    ensures (exists j :: 0 <= j < F && FrameMaskValue(selfLoop, T, i, j) == 1) <==>
              (i == 0 || selfLoop || T >= 1)
  {
    if i == 0 {
      assert FrameMaskValue(selfLoop, T, i, 0) == 1;
    } else if selfLoop {
      assert FrameMaskValue(selfLoop, T, i, i) == 1;
    } else if T >= 1 {
      assert FrameMaskValue(selfLoop, T, i, i - 1) == 1;
    } else {
      forall j | 0 <= j < F ensures FrameMaskValue(selfLoop, T, i, j) != 1 {
        FrameMaskWindow(selfLoop, T, i, j);
      }
    }
  }

  /** A kept pair decodes to a source frame i and target frame j that the mask allows. */
  lemma KeptPairDecodes(F: nat, selfLoop: bool, T: int, c: int)
    requires 0 <= c < |KeptPairs(F, selfLoop, T)|
    ensures F > 0
    ensures var q := KeptPairs(F, selfLoop, T)[c];
            0 <= q / F < F && 0 <= q % F < F && q == Flat(q / F, q % F, F) &&
            FrameMaskValue(selfLoop, T, q / F, q % F) == 1
  {
    var q := KeptPairs(F, selfLoop, T)[c];
    assert FramePairKeep(F, selfLoop, T)[q];
    DivBound(q, F, F);
  }

  /** Every allowed (i, j) pair is among the kept pairs. */
  lemma AllowedPairIsKept(F: nat, selfLoop: bool, T: int, i: int, j: int)
    requires 0 <= i < F && 0 <= j < F && FrameMaskValue(selfLoop, T, i, j) == 1
    ensures Flat(i, j, F) in KeptPairs(F, selfLoop, T)
  {
    FlatBound(i, j, F, F);
    FlatDecode(i, j, F);
    assert FramePairKeep(F, selfLoop, T)[Flat(i, j, F)];
  }

  // ---------------------------------------------------------------------------
  // the candidate builder

  /** `torch.arange(0, n)`. */
  function Arange(n: nat): (r: seq<int>)
    ensures |r| == n && forall i :: 0 <= i < n ==> r[i] == i
  {
    seq(n, i => i)
  }

  /** The five outputs of the builder. */
  datatype Candidates<A> = Candidates(
    source: seq<A>,
    sourceBatch: seq<int>,
    target: seq<A>,
    targetBatch: seq<int>,
    indexMapper: seq<int>)

  lemma Reassoc(B: nat, F: nat, P: nat)
    ensures B * (F * P) == B * F * P
    ensures B * F * (F * P) == B * (F * F) * P
    ensures B * F * P * F * 1 == B * (F * F) * P
  {
  }

  /** Exact division: N % d == 0 gives N == d * (N / d). */
  lemma ExactDiv(N: nat, d: nat)
    requires d > 0 && N % d == 0
    ensures N == d * (N / d)
  {
  }

  /**
   * The pipeline once the shape is known: |data| == B*F*P and `pos` the kept
   * frame pairs.
   */
  function Replicate<A>(data: seq<A>, sourceBatch: seq<int>, B: nat, F: nat, P: nat, pos: seq<nat>)
    : (r: Candidates<A>)
    requires |data| == B * F * P && |sourceBatch| == |data|
    requires forall c :: 0 <= c < |pos| ==> pos[c] < F * F
    ensures r.source == data && r.sourceBatch == sourceBatch
    ensures |r.target| == B * |pos| * P && |r.targetBatch| == B * |pos| * P && |r.indexMapper| == B * |pos| * P
  {
    Reassoc(B, F, P);
    var target := SelectMiddle(RepeatMiddle(data, B, F, F * P), B, F * F, P, pos);
    var mapper := SelectMiddle(RepeatMiddle(Arange(|data|), B, F, F * P), B, F * F, P, pos);
    var targetBatch := SelectMiddle(RepeatMiddle(sourceBatch, |data|, F, 1), B, F * F, P, pos);
    Candidates(data, sourceBatch, target, targetBatch, mapper)
  }

  /**
   * `make_proper_data`: B and F are the numbers of distinct sample ids and sequence
   * numbers, P the points per frame. Fails when B*F is zero (integer division) or
   * does not divide the number of points (reshape). Otherwise `target` and
   * `indexMapper` are the data and the positions 0..N-1 reshaped to
   * (B, 1, F, P), repeated F times along dimension 1, viewed as (B, F*F, P) and
   * filtered by the kept frame pairs; `targetBatch` is the source group ids
   * repeated F times per point, viewed as (B, F*F, P) and filtered the same way.
   */
  function MakeProperData<A>(data: seq<A>, seqNo: seq<int>, batch: seq<int>, selfLoop: bool, T: int)
    : (r: Result<Candidates<A>>)
    requires |seqNo| == |data| && |batch| == |data|
    ensures r.Success? <==>
              DistinctCount(batch) * DistinctCount(seqNo) > 0 &&
              |data| % (DistinctCount(batch) * DistinctCount(seqNo)) == 0
    ensures r.Success? ==>
              var B, F := DistinctCount(batch), DistinctCount(seqNo);
              var n := B * |KeptPairs(F, selfLoop, T)| * (|data| / (B * F));
              && r.value.source == data
              && r.value.sourceBatch == GroupIds(batch, seqNo, F)
              && |r.value.target| == n && |r.value.targetBatch| == n && |r.value.indexMapper| == n
  {
    var B := DistinctCount(batch);
    var F := DistinctCount(seqNo);
    if B * F == 0 then Failure(DivisionByZero)
    else if |data| % (B * F) != 0 then Failure(ShapeMismatch)
    else
      var P := |data| / (B * F);
      ExactDiv(|data|, B * F);
      Success(Replicate(data, GroupIds(batch, seqNo, F), B, F, P, KeptPairs(F, selfLoop, T)))
  }

  // ---------------------------------------------------------------------------
  // where every candidate comes from

  lemma IdxRepeat(b: int, i: int, j: int, p: int, F: int, P: int)
    ensures Flat3(b, Flat(i, j, F), p, F * F, P) == Flat3(b, i, Flat(j, p, P), F, F * P)
    ensures Flat(b, Flat(j, p, P), F * P) == Flat3(b, j, p, F, P)
  {
  }

  lemma TagPoly(b: int, i: int, j: int, p: int, F: int, P: int, u: int, v: int)
    requires Flat(j, p, P) == u * F + v
    ensures Flat3(b, Flat(i, j, F), p, F * F, P) == Flat3(b, i, u, F, P) * F + v
  {
    calc {
      Flat3(b, Flat(i, j, F), p, F * F, P);
      (b * (F * F) + (i * F + j)) * P + p;
      b * F * F * P + i * F * P + (j * P + p);
      b * F * F * P + i * F * P + (u * F + v);
      ((b * F + i) * P + u) * F + v;
    }
  }

  lemma IdxTargetBatch(b: int, i: int, j: int, p: int, F: int, P: int)
    requires F > 0 && P > 0 && 0 <= j < F && 0 <= p < P
    ensures 0 <= Flat(j, p, P) / F < P
    ensures Flat3(b, Flat(i, j, F), p, F * F, P) / F == Flat3(b, i, Flat(j, p, P) / F, F, P)
  {
    var a := Flat(j, p, P);
    FlatBound(j, p, F, P);
    assert a < P * F;
    DivBound(a, P, F);
    var u, v := a / F, a % F;
    TagPoly(b, i, j, p, F, P, u, v);
    DivModUnique(Flat3(b, Flat(i, j, F), p, F * F, P), F, Flat3(b, i, u, F, P), v);
  }

  /**
   * Candidate (b, c, p) -- sample b, c-th kept pair (i, j), point p -- holds the
   * data row of point p of frame j of sample b, and its mapper entry is that row's
   * flattened position.
   */
  lemma ReplicateTargetAt<A>(data: seq<A>, sourceBatch: seq<int>, B: nat, F: nat, P: nat, pos: seq<nat>,
                             b: int, c: int, p: int)
    requires |data| == B * F * P && |sourceBatch| == |data|
    requires forall c :: 0 <= c < |pos| ==> pos[c] < F * F
    requires 0 <= b < B && 0 <= c < |pos| && 0 <= p < P
    ensures F > 0
    ensures var r := Replicate(data, sourceBatch, B, F, P, pos);
            var k := Flat3(b, c, p, |pos|, P);
            var j := pos[c] % F;
            && 0 <= j < F
            && 0 <= k < |r.target|
            && 0 <= Flat3(b, j, p, F, P) < |data|
            && r.indexMapper[k] == Flat3(b, j, p, F, P)
            && r.target[k] == data[Flat3(b, j, p, F, P)]
  {
    var q := pos[c];
    DivBound(q, F, F);
    var i, j := q / F, q % F;
    Reassoc(B, F, P);
    FlatBound(j, p, F, P);
    IdxRepeat(b, i, j, p, F, P);
    Flat3Bound(b, j, p, B, F, P);
    var rd := RepeatMiddle(data, B, F, F * P);
    SelectMiddleAt(rd, B, F * F, P, pos, b, c, p);
    RepeatMiddleAt(data, B, F, F * P, b, i, Flat(j, p, P));
    var ra := RepeatMiddle(Arange(|data|), B, F, F * P);
    SelectMiddleAt(ra, B, F * F, P, pos, b, c, p);
    RepeatMiddleAt(Arange(|data|), B, F, F * P, b, i, Flat(j, p, P));
  }

  /**
   * The tag of candidate (b, c, p) with kept pair (i, j) is the source group id of a
   * point of frame i of sample b: the point (j*P + p) / F of that frame.
   */
  lemma ReplicateTagAt<A>(data: seq<A>, sourceBatch: seq<int>, B: nat, F: nat, P: nat, pos: seq<nat>,
                          b: int, c: int, p: int)
    requires |data| == B * F * P && |sourceBatch| == |data|
    requires forall c :: 0 <= c < |pos| ==> pos[c] < F * F
    requires 0 <= b < B && 0 <= c < |pos| && 0 <= p < P
    ensures F > 0
    ensures var r := Replicate(data, sourceBatch, B, F, P, pos);
            var k := Flat3(b, c, p, |pos|, P);
            var i, j := pos[c] / F, pos[c] % F;
            && 0 <= i < F && 0 <= j < F && 0 <= Flat(j, p, P) / F < P
            && 0 <= k < |r.targetBatch|
            && 0 <= Flat3(b, i, Flat(j, p, P) / F, F, P) < |sourceBatch|
            && r.targetBatch[k] == sourceBatch[Flat3(b, i, Flat(j, p, P) / F, F, P)]
  {
    var q := pos[c];
    DivBound(q, F, F);
    var i, j := q / F, q % F;
    var N := |data|;
    var r := Replicate(data, sourceBatch, B, F, P, pos);
    var k := Flat3(b, c, p, |pos|, P);
    var rb := RepeatMiddle(sourceBatch, N, F, 1);
    var m := Flat3(b, q, p, F * F, P);
    assert |rb| == B * (F * F) * P && r.targetBatch == SelectMiddle(rb, B, F * F, P, pos) by {
      Reassoc(B, F, P);
    }
    assert 0 <= k < |r.targetBatch| && 0 <= m < |rb| && r.targetBatch[k] == rb[m] by {
      SelectMiddleAt(rb, B, F * F, P, pos, b, c, p);
    }
    var u := Flat(j, p, P) / F;
    assert 0 <= u < P && m / F == Flat3(b, i, u, F, P) by {
      IdxTargetBatch(b, i, j, p, F, P);
    }
    assert 0 <= Flat3(b, i, u, F, P) < |sourceBatch| by {
      Flat3Bound(b, i, u, B, F, P);
    }
    assert rb[m] == sourceBatch[m / F] by {
      assert m < N * F;
      DivBound(m, N, F);
      FlatDecode(m / F, m % F, F);
      RepeatMiddleAt(sourceBatch, N, F, 1, m / F, m % F, 0);
      assert Flat3(m / F, m % F, 0, F, 1) == m;
    }
  }

  lemma PositiveProduct(x: int, y: int)
    requires x >= 0 && y >= 0 && x * y > 0
    ensures x > 0 && y > 0
  {
  }

  /** Every candidate position is the position of some (b, c, p). */
  lemma CandidateDecompose(B: nat, K: nat, P: nat, k: int)
    requires 0 <= k < B * K * P
    ensures 0 <= k / P / K < B && 0 <= (k / P) % K < K && 0 <= k % P < P
    ensures k == Flat3(k / P / K, (k / P) % K, k % P, K, P)
  {
    PositiveProduct(B * K, P);
    DivBound(k, B * K, P);
    DivBound(k / P, B, K);
  }

  /**
   * Index-mapper correctness: every candidate is the data row at the position the
   * mapper records, and that position is a valid point index. This is what lets
   * line 376 translate knn results back to point indices.
   */
  lemma IndexMapperCorrect<A>(data: seq<A>, seqNo: seq<int>, batch: seq<int>, selfLoop: bool, T: int)
    requires |seqNo| == |data| && |batch| == |data|
    requires MakeProperData(data, seqNo, batch, selfLoop, T).Success?
    ensures var r := MakeProperData(data, seqNo, batch, selfLoop, T).value;
            forall k :: 0 <= k < |r.target| ==>
              0 <= r.indexMapper[k] < |data| && r.target[k] == data[r.indexMapper[k]]
  {
    var B, F := DistinctCount(batch), DistinctCount(seqNo);
    var P := |data| / (B * F);
    ExactDiv(|data|, B * F);
    var pos := KeptPairs(F, selfLoop, T);
    var r := MakeProperData(data, seqNo, batch, selfLoop, T).value;
    assert r == Replicate(data, GroupIds(batch, seqNo, F), B, F, P, pos);
    forall k | 0 <= k < |r.target|
      ensures 0 <= r.indexMapper[k] < |data| && r.target[k] == data[r.indexMapper[k]]
    {
      CandidateDecompose(B, |pos|, P, k);
      ReplicateTargetAt(data, GroupIds(batch, seqNo, F), B, F, P, pos, k / P / |pos|, (k / P) % |pos|, k % P);
    }
  }

  /**
   * Nothing but `target` depends on the feature values: two inputs with the same
   * number of rows and the same ids give the same success, group ids, tags and mapper.
   */
  lemma FeatureIndependent<A>(data: seq<A>, data': seq<A>, seqNo: seq<int>, batch: seq<int>, selfLoop: bool, T: int)
    requires |seqNo| == |data| && |batch| == |data| && |data'| == |data|
    ensures var r, r' := MakeProperData(data, seqNo, batch, selfLoop, T), MakeProperData(data', seqNo, batch, selfLoop, T);
            r.Success? == r'.Success? &&
            (r.Success? ==>
               && r.value.sourceBatch == r'.value.sourceBatch
               && r.value.targetBatch == r'.value.targetBatch
               && r.value.indexMapper == r'.value.indexMapper)
  {
  }

  // ---------------------------------------------------------------------------
  // the builder on the assumed layout

  /** On the layout, the builder succeeds and runs the pipeline with the layout's B, F and P. */
  lemma LayoutBuild<A>(data: seq<A>, seqNo: seq<int>, batch: seq<int>, selfLoop: bool, T: int, B: nat, F: nat, P: nat)
    requires |data| == |seqNo| && IsLayout(batch, seqNo, B, F, P) && B > 0 && F > 0 && P > 0
    ensures MakeProperData(data, seqNo, batch, selfLoop, T) ==
              Success(Replicate(data, GroupIds(batch, seqNo, F), B, F, P, KeptPairs(F, selfLoop, T)))
  {
    LayoutCounts(batch, seqNo, B, F, P);
    assert |data| == (B * F) * P;
    DivModUnique(|data|, B * F, P, 0);
  }

  /**
   * On the layout, candidate (b, c, p) with kept pair (i, j) is point p of frame j
   * of sample b, and its tag is the group id b*F + i of its source frame.
   */
  lemma CandidateOnLayout<A>(data: seq<A>, seqNo: seq<int>, batch: seq<int>, selfLoop: bool, T: int,
                             B: nat, F: nat, P: nat, b: int, c: int, p: int)
    requires |data| == |seqNo| && IsLayout(batch, seqNo, B, F, P) && B > 0 && F > 0 && P > 0
    requires 0 <= b < B && 0 <= c < |KeptPairs(F, selfLoop, T)| && 0 <= p < P
    ensures MakeProperData(data, seqNo, batch, selfLoop, T).Success?
    ensures var r := MakeProperData(data, seqNo, batch, selfLoop, T).value;
            var K := |KeptPairs(F, selfLoop, T)|;
            var i, j := KeptPairs(F, selfLoop, T)[c] / F, KeptPairs(F, selfLoop, T)[c] % F;
            var k := Flat3(b, c, p, K, P);
            && 0 <= k < |r.target| && k < |r.targetBatch| && k < |r.indexMapper|
            && FrameMaskValue(selfLoop, T, i, j) == 1
            && r.targetBatch[k] == Flat(b, i, F)
            && r.indexMapper[k] == Flat3(b, j, p, F, P)
            && 0 <= r.indexMapper[k] < |batch|
            && batch[r.indexMapper[k]] == b && seqNo[r.indexMapper[k]] == j + 1
  {
    LayoutBuild(data, seqNo, batch, selfLoop, T, B, F, P);
    var pos := KeptPairs(F, selfLoop, T);
    KeptPairDecodes(F, selfLoop, T, c);
    var i, j := pos[c] / F, pos[c] % F;
    ReplicateTargetAt(data, GroupIds(batch, seqNo, F), B, F, P, pos, b, c, p);
    ReplicateTagAt(data, GroupIds(batch, seqNo, F), B, F, P, pos, b, c, p);
    LayoutGroupIds(batch, seqNo, B, F, P, b, i, Flat(j, p, P) / F);
    Flat3Decode(b, j, p, F, P);
  }

  /** Group ids of a layout are ordered like (sample, frame). */
  lemma FlatMonotone(b: int, i: int, b': int, i': int, F: int)
    requires 0 <= i < F && 0 <= i' < F
    requires b < b' || (b == b' && i <= i')
    ensures Flat(b, i, F) <= Flat(b', i', F)
  {
    if b < b' {
      MulStep(b, b', F);
    }
  }

  /** Positions ordered like (o, c): a later position never has an earlier block. */
  lemma DecodeMonotone(k: int, k': int, K: nat, P: nat)
    requires 0 <= k <= k' && K > 0 && P > 0
    ensures k / P / K < k' / P / K || (k / P / K == k' / P / K && (k / P) % K <= (k' / P) % K)
  {
    DivMonotone(k, k', P);
    DivMonotone(k / P, k' / P, K);
    if k / P / K == k' / P / K {
      assert k / P == Flat(k / P / K, (k / P) % K, K);
      assert k' / P == Flat(k' / P / K, (k' / P) % K, K);
    }
  }

  lemma DivMonotone(a: int, a': int, d: int)
    requires 0 <= a <= a' && d > 0
    ensures a / d <= a' / d
  {
    if a / d > a' / d {
      MulStep(a' / d, a / d, d);
      assert false;
    }
  }

  /**
   * On the layout the tags are sorted: `targetBatch` never decreases, which is the
   * order knn's grouped search expects.
   */
  lemma TargetBatchSorted<A>(data: seq<A>, seqNo: seq<int>, batch: seq<int>, selfLoop: bool, T: int,
                             B: nat, F: nat, P: nat)
    requires |data| == |seqNo| && IsLayout(batch, seqNo, B, F, P) && B > 0 && F > 0 && P > 0
    ensures MakeProperData(data, seqNo, batch, selfLoop, T).Success?
    ensures var r := MakeProperData(data, seqNo, batch, selfLoop, T).value;
            forall k, k' :: 0 <= k <= k' < |r.targetBatch| ==> r.targetBatch[k] <= r.targetBatch[k']
  {
    LayoutBuild(data, seqNo, batch, selfLoop, T, B, F, P);
    var r := MakeProperData(data, seqNo, batch, selfLoop, T).value;
    var pos := KeptPairs(F, selfLoop, T);
    var K := |pos|;
    forall k, k' | 0 <= k <= k' < |r.targetBatch| ensures r.targetBatch[k] <= r.targetBatch[k'] {
      CandidateDecompose(B, K, P, k);
      CandidateDecompose(B, K, P, k');
      var b, c, p := k / P / K, (k / P) % K, k % P;
      var b', c', p' := k' / P / K, (k' / P) % K, k' % P;
      CandidateOnLayout(data, seqNo, batch, selfLoop, T, B, F, P, b, c, p);
      CandidateOnLayout(data, seqNo, batch, selfLoop, T, B, F, P, b', c', p');
      KeptPairDecodes(F, selfLoop, T, c);
      KeptPairDecodes(F, selfLoop, T, c');
      var i, i' := pos[c] / F, pos[c'] / F;
      assert b < b' || (b == b' && i <= i') by {
        DecodeMonotone(k, k', K, P);
        if b == b' && c < c' {
          DivMonotone(pos[c], pos[c'], F);
        }
      }
      FlatMonotone(b, i, b', i', F);
    }
  }

  // ---------------------------------------------------------------------------
  // translating knn results (line 376)

  /** `edge_index[1] = index_mapper[edge_index[1]]`. */
  function RemapTargets(edgeTargets: seq<int>, indexMapper: seq<int>): (r: seq<int>)
    requires forall e :: 0 <= e < |edgeTargets| ==> 0 <= edgeTargets[e] < |indexMapper|
    ensures |r| == |edgeTargets|
  {
    seq(|edgeTargets|, e requires 0 <= e < |edgeTargets| => indexMapper[edgeTargets[e]])
  }

  /**
   * knn's contract, taken as given: every edge joins a query (a source point) and a
   * candidate whose tags are equal.
   */
  ghost predicate KnnWithinGroups(sources: seq<int>, cands: seq<int>, sourceBatch: seq<int>, targetBatch: seq<int>)
  {
    && |sources| == |cands|
    && (forall e :: 0 <= e < |sources| ==> 0 <= sources[e] < |sourceBatch|)
    && (forall e :: 0 <= e < |cands| ==> 0 <= cands[e] < |targetBatch|)
    && (forall e :: 0 <= e < |sources| ==> sourceBatch[sources[e]] == targetBatch[cands[e]])
  }

  /**
   * Soundness of the temporal graph: on the layout, given knn's contract, every
   * remapped edge joins two points of the same sample whose (source frame, target
   * frame) pair the mask keeps.
   */
  lemma RemappedEdgesInWindow<A>(data: seq<A>, seqNo: seq<int>, batch: seq<int>, selfLoop: bool, T: int,
                                 B: nat, F: nat, P: nat, sources: seq<int>, cands: seq<int>)
    requires |data| == |seqNo| && IsLayout(batch, seqNo, B, F, P) && B > 0 && F > 0 && P > 0
    requires var r := MakeProperData(data, seqNo, batch, selfLoop, T);
             r.Success? && KnnWithinGroups(sources, cands, r.value.sourceBatch, r.value.targetBatch)
    ensures var r := MakeProperData(data, seqNo, batch, selfLoop, T).value;
            var targets := RemapTargets(cands, r.indexMapper);
            forall e :: 0 <= e < |targets| ==>
              && 0 <= targets[e] < |data| && 0 <= sources[e] < |data|
              && batch[targets[e]] == batch[sources[e]]
              && FrameMaskValue(selfLoop, T, seqNo[sources[e]] - 1, seqNo[targets[e]] - 1) == 1
  {
    LayoutBuild(data, seqNo, batch, selfLoop, T, B, F, P);
    var r := MakeProperData(data, seqNo, batch, selfLoop, T).value;
    var pos := KeptPairs(F, selfLoop, T);
    var K := |pos|;
    var targets := RemapTargets(cands, r.indexMapper);
    forall e | 0 <= e < |targets|
      ensures && 0 <= targets[e] < |data| && 0 <= sources[e] < |data|
              && batch[targets[e]] == batch[sources[e]]
              && FrameMaskValue(selfLoop, T, seqNo[sources[e]] - 1, seqNo[targets[e]] - 1) == 1
    {
      var k := cands[e];
      CandidateDecompose(B, K, P, k);
      var b, c, p := k / P / K, (k / P) % K, k % P;
      CandidateOnLayout(data, seqNo, batch, selfLoop, T, B, F, P, b, c, p);
      KeptPairDecodes(F, selfLoop, T, c);
      var n := sources[e];
      Decompose3(n, B, F, P);
      var bn, fn, pn := n / P / F, (n / P) % F, n % P;
      LayoutGroupIds(batch, seqNo, B, F, P, bn, fn, pn);
      FlatDecode(bn, fn, F);
      FlatDecode(b, pos[c] / F, F);
    }
  }

  /**
   * Completeness: on the layout, for every source point and every point of an
   * allowed target frame of the same sample, some candidate is that point and
   * carries the source point's tag, so knn can choose it.
   */
  lemma AllowedTargetIsCandidate<A>(data: seq<A>, seqNo: seq<int>, batch: seq<int>, selfLoop: bool, T: int,
                                    B: nat, F: nat, P: nat, n: int, m: int)
    requires |data| == |seqNo| && IsLayout(batch, seqNo, B, F, P) && B > 0 && F > 0 && P > 0
    requires 0 <= n < |data| && 0 <= m < |data| && batch[m] == batch[n]
    requires FrameMaskValue(selfLoop, T, seqNo[n] - 1, seqNo[m] - 1) == 1
    ensures MakeProperData(data, seqNo, batch, selfLoop, T).Success?
    ensures var r := MakeProperData(data, seqNo, batch, selfLoop, T).value;
            exists k :: 0 <= k < |r.target| && r.indexMapper[k] == m && r.targetBatch[k] == r.sourceBatch[n]
  {
    LayoutBuild(data, seqNo, batch, selfLoop, T, B, F, P);
    var r := MakeProperData(data, seqNo, batch, selfLoop, T).value;
    var pos := KeptPairs(F, selfLoop, T);
    Decompose3(n, B, F, P);
    Decompose3(m, B, F, P);
    var b, i := n / P / F, (n / P) % F;
    var j, p := (m / P) % F, m % P;
    AllowedPairIsKept(F, selfLoop, T, i, j);
    var c :| 0 <= c < |pos| && pos[c] == Flat(i, j, F);
    FlatDecode(i, j, F);
    CandidateOnLayout(data, seqNo, batch, selfLoop, T, B, F, P, b, c, p);
    LayoutGroupIds(batch, seqNo, B, F, P, b, i, n % P);
    var k := Flat3(b, c, p, |pos|, P);
    assert r.indexMapper[k] == m && r.targetBatch[k] == r.sourceBatch[n];
  }
}
