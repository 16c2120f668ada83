/**
 * How many frame pairs the strict mask keeps when the window reaches back over all
 * earlier frames: frame 0 keeps itself, frame i >= 1 keeps frames 0..i-1, which is
 * 1 + F(F-1)/2 pairs -- the `size_source` factor of the FLOP counter.
 */
module PairCount {
  import opened IndexArith
  import opened TensorOps
  import opened Candidates

  /** The number of true entries. */
  function CountTrue(s: seq<bool>): (n: nat)
    ensures n <= |s|
  {
    if s == [] then 0 else CountTrue(s[..|s| - 1]) + (if s[|s| - 1] then 1 else 0)
  }

  /** The positions of the true entries are as many as the true entries. */
  lemma {:induction false} TrueIndicesCount(s: seq<bool>)
    ensures |TrueIndices(s)| == CountTrue(s)
  {
    if s != [] {
      TrueIndicesCount(s[..|s| - 1]);
    }
  }

  lemma {:induction false} CountAppend(a: seq<bool>, b: seq<bool>)
    ensures CountTrue(a + b) == CountTrue(a) + CountTrue(b)
    decreases |b|
  {
    if b != [] {
      var b' := b[..|b| - 1];
      assert (a + b)[..|a + b| - 1] == a + b';
      CountAppend(a, b');
    } else {
      assert a + b == a;
    }
  }

  /** `j < m` holds for exactly min(n, m) of the first n values of j. */
  lemma {:induction false} CountBelow(n: nat, m: nat)
    ensures CountTrue(seq(n, j => j < m)) == if n < m then n else m
  {
    if n > 0 {
      assert seq(n, j => j < m)[..n - 1] == seq(n - 1, j => j < m);
      CountBelow(n - 1, m);
    }
  }

  /** Row i of the strict mask with T >= F - 1: target frames below max(i, 1). */
  lemma StrictFullRow(F: nat, T: int, i: nat)
    requires 0 <= i < F && T >= F - 1
    ensures seq(F, j => FrameMaskValue(false, T, i, j) == 1) == seq(F, j => j < (if i == 0 then 1 else i))
  {
    forall j | 0 <= j < F
      ensures (FrameMaskValue(false, T, i, j) == 1) == (j < (if i == 0 then 1 else i))
    {
      FrameMaskWindow(false, T, i, j);
    }
  }

  /** The first i rows of the flattened keep flags, followed by row i, are the first i + 1 rows. */
  lemma RowSplit(F: nat, T: int, i: nat)
    requires i < F
    ensures (i + 1) * F <= F * F
    ensures FramePairKeep(F, false, T)[..(i + 1) * F] ==
              FramePairKeep(F, false, T)[..i * F] + seq(F, j => FrameMaskValue(false, T, i, j) == 1)
  {
    MulMono(i + 1, F, F);
    var keep := FramePairKeep(F, false, T);
    forall j | 0 <= j < F
      ensures keep[i * F + j] == (FrameMaskValue(false, T, i, j) == 1)
    {
      FlatDecode(i, j, F);
      FlatBound(i, j, F, F);
    }
  }

  /** 1, 1, 2, ..., i - 1: the kept pairs of the first i rows. */
  function RowsKept(i: nat): nat
  {
    if i == 0 then 0 else RowsKept(i - 1) + (if i - 1 == 0 then 1 else i - 1)
  }

  lemma {:induction false} RowsKeptPrefix(F: nat, T: int, i: nat)
    requires i <= F && T >= F - 1
    ensures i * F <= F * F
    ensures CountTrue(FramePairKeep(F, false, T)[..i * F]) == RowsKept(i)
  {
    MulMono(i, F, F);
    if i > 0 {
      RowsKeptPrefix(F, T, i - 1);
      RowSplit(F, T, i - 1);
      StrictFullRow(F, T, i - 1);
      CountAppend(FramePairKeep(F, false, T)[..(i - 1) * F], seq(F, j => FrameMaskValue(false, T, i - 1, j) == 1));
      CountBelow(F, if i - 1 == 0 then 1 else i - 1);
    }
  }

  lemma {:induction false} RowsKeptClosed(i: nat)
    requires i >= 1
    ensures 2 * (RowsKept(i) - 1) == i * (i - 1)
  {
    if i > 1 {
      RowsKeptClosed(i - 1);
    }
  }

  /**
   * In strict mode with a window of at least F - 1 frames the mask keeps
   * 1 + F(F-1)/2 frame pairs.
   */
  lemma StrictFullWindowCount(F: nat, T: int)
    requires F >= 1 && T >= F - 1
    ensures |KeptPairs(F, false, T)| == 1 + F * (F - 1) / 2
  {
    RowsKeptPrefix(F, T, F);
    assert FramePairKeep(F, false, T)[..F * F] == FramePairKeep(F, false, T);
    TrueIndicesCount(FramePairKeep(F, false, T));
    RowsKeptClosed(F);
    DivModUnique(F * (F - 1), 2, RowsKept(F) - 1, 0);
  }
}
