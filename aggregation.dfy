/**
 * The index side of `aggregate`: messages are cut into consecutive blocks of k,
 * every block goes through the attention (an opaque map that keeps shapes), and the
 * refined messages are reduced by `scatter(..., reduce='max')` onto their target rows.
 * Feature values are integers here; only their order matters to the reduction.
 */
module Aggregation {
  import opened IndexArith
  import opened Wrappers

  /** The attention keeps the number of rows of a block. */
  ghost predicate KeepsRows(attend: seq<seq<int>> -> seq<seq<int>>)
  {
    forall blk :: |attend(blk)| == |blk|
  }

  /** The attention keeps the width of every row of a block. */
  ghost predicate KeepsWidths(attend: seq<seq<int>> -> seq<seq<int>>)
  {
    forall blk, i :: 0 <= i < |blk| && i < |attend(blk)| ==> |attend(blk)[i]| == |blk[i]|
  }

  /** All rows have the given width. */
  predicate Rows(s: seq<seq<int>>, width: nat)
  {
    forall e :: 0 <= e < |s| ==> |s[e]| == width
  }

  /**
   * `self_attention_input.reshape(E // k, k, D)`, the attention applied to every
   * block, and the result reshaped back to (E, D): block after block, in order.
   */
  function RefineBlocks(inputs: seq<seq<int>>, k: nat, attend: seq<seq<int>> -> seq<seq<int>>): (r: seq<seq<int>>)
    requires k > 0 && |inputs| % k == 0 && KeepsRows(attend)
    ensures |r| == |inputs|
    decreases |inputs|
  {
    if |inputs| == 0 then []
    else
      MultipleStep(|inputs|, k);
      attend(inputs[..k]) + RefineBlocks(inputs[k..], k, attend)
  }

  /** Block b of the messages: rows b*k .. b*k + k - 1. */
  function Block(inputs: seq<seq<int>>, k: nat, b: nat): (blk: seq<seq<int>>)
    requires b * k + k <= |inputs|
    ensures |blk| == k
  {
    inputs[b * k .. b * k + k]
  }

  /**
   * Refined message e is row e % k of the attention applied to block e / k: no
   * message is mixed with another block, and none moves out of its place.
   */
  lemma {:induction false} RefineAt(inputs: seq<seq<int>>, k: nat, attend: seq<seq<int>> -> seq<seq<int>>, e: int)
    requires k > 0 && |inputs| % k == 0 && KeepsRows(attend)
    requires 0 <= e < |inputs|
    ensures (e / k) * k + k <= |inputs|
    ensures e % k < |attend(Block(inputs, k, e / k))|
    ensures RefineBlocks(inputs, k, attend)[e] == attend(Block(inputs, k, e / k))[e % k]
    decreases |inputs|
  {
    BlockFits(|inputs|, k, e);
    MultipleStep(|inputs|, k);
    var blk := inputs[..k];
    assert |attend(blk)| == k;
    if e < k {
      assert e / k == 0 && e % k == e by {
        DivModUnique(e, k, 0, e);
      }
      assert Block(inputs, k, 0) == blk;
    } else {
      var e' := e - k;
      RefineAt(inputs[k..], k, attend, e');
      assert Block(inputs[k..], k, e' / k) == Block(inputs, k, e / k) && e' % k == e % k by {
        ShiftBlock(e, k);
      }
    }
  }

  /** With the widths kept by the attention, every refined message keeps its input's width. */
  lemma RefineWidths(inputs: seq<seq<int>>, k: nat, attend: seq<seq<int>> -> seq<seq<int>>, width: nat)
    requires k > 0 && |inputs| % k == 0 && KeepsRows(attend) && KeepsWidths(attend) && Rows(inputs, width)
    ensures Rows(RefineBlocks(inputs, k, attend), width)
  {
    forall e | 0 <= e < |inputs| ensures |RefineBlocks(inputs, k, attend)[e]| == width {
      RefineAt(inputs, k, attend, e);
      BlockRow(inputs, k, e);
    }
  }

  /** Row e % k of block e / k is message e. */
  lemma BlockRow(inputs: seq<seq<int>>, k: nat, e: int)
    requires k > 0 && 0 <= e && (e / k) * k + k <= |inputs|
    ensures e % k < k && Block(inputs, k, e / k)[e % k] == inputs[e]
  {
    DivModSplit(e, k);
  }

  /** Dropping the first block moves every later position one block down. */
  lemma ShiftBlock(e: int, k: int)
    requires k > 0 && e >= k
    ensures (e - k) / k == e / k - 1 && (e - k) % k == e % k
    ensures (e / k) * k == ((e - k) / k) * k + k
  {
    DivModSplit(e - k, k);
    DivModUnique(e, k, (e - k) / k + 1, (e - k) % k);
  }

  lemma DivModSplit(a: int, d: int)
    requires d > 0
    ensures a == (a / d) * d + a % d && 0 <= a % d < d
  {
  }

  /** A message position lies in a whole block when the count is a multiple of k. */
  lemma BlockFits(n: nat, k: nat, e: int)
    requires k > 0 && n % k == 0 && 0 <= e < n
    ensures (e / k) * k + k <= n && 0 <= e % k < k
  {
    DivBound(e, e / k + 1, k);
    DivModUnique(n, k, n / k, 0);
    if e / k >= n / k {
      MulMono(n / k, e / k, k);
      assert false;
    }
    MulMono(e / k + 1, n / k, k);
  }

  /** A positive multiple of k is at least k, and dropping k rows leaves a multiple of k. */
  lemma MultipleStep(n: nat, k: nat)
    requires k > 0 && n % k == 0 && n > 0
    ensures n >= k && (n - k) % k == 0
  {
    DivModUnique(n, k, n / k, 0);
    MulMono(1, n / k, k);
    DivModUnique(n - k, k, n / k - 1, 0);
  }

  /** The largest `src[e][d]` over the messages e with `index[e] == n`, if there is one. */
  function MaxFor(src: seq<seq<int>>, index: seq<nat>, n: nat, d: nat): (m: Option<int>)
    requires |index| == |src|
    requires forall e :: 0 <= e < |src| ==> d < |src[e]|
    ensures m.None? <==> forall e :: 0 <= e < |src| ==> index[e] != n
    ensures m.Some? ==> forall e :: 0 <= e < |src| && index[e] == n ==> src[e][d] <= m.value
    ensures m.Some? ==> exists e :: 0 <= e < |src| && index[e] == n && src[e][d] == m.value
  {
    if |src| == 0 then None
    else
      var last := |src| - 1;
      var front := MaxFor(src[..last], index[..last], n, d);
      if index[last] != n then front
      else if front.None? || front.value < src[last][d] then Some(src[last][d])
      else front
  }

  /**
   * `scatter(src, index, dim_size=dimSize, reduce='max')` for rows of the given width:
   * output row n holds, per column, the maximum of the messages sent to n, and 0 where
   * no message is sent to n.
   */
  function ScatterMax(src: seq<seq<int>>, index: seq<nat>, dimSize: nat, width: nat): (out: seq<seq<int>>)
    requires |index| == |src| && Rows(src, width)
    ensures |out| == dimSize && Rows(out, width)
  {
    seq(dimSize, n requires 0 <= n < dimSize =>
      seq(width, d requires 0 <= d < width =>
        match MaxFor(src, index, n, d)
        case None => 0
        case Some(v) => v))
  }

  /**
   * Output (n, d) of the max reduction is an upper bound of every message sent to n
   * and is attained by one of them; with no message it is 0.
   */
  lemma ScatterMaxSpec(src: seq<seq<int>>, index: seq<nat>, dimSize: nat, width: nat, n: int, d: int)
    requires |index| == |src| && Rows(src, width)
    requires 0 <= n < dimSize && 0 <= d < width
    ensures var out := ScatterMax(src, index, dimSize, width);
            && (forall e :: 0 <= e < |src| && index[e] == n ==> src[e][d] <= out[n][d])
            && ((exists e :: 0 <= e < |src| && index[e] == n) ==>
                  exists e :: 0 <= e < |src| && index[e] == n && src[e][d] == out[n][d])
            && ((forall e :: 0 <= e < |src| ==> index[e] != n) ==> out[n][d] == 0)
  {
    var m := MaxFor(src, index, n, d);
  }
}
