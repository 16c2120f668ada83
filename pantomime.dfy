/**
 * `PantomimeDataset.process_set` after the file has been read: every gesture (a
 * sequence of frames, each a sequence of points) becomes a record whose `x` lists one
 * row `[frame + 1, x, y, z]` per point, frame after frame, whose `y` is the gesture's
 * label and whose `pos` is the coordinate part of `x`. The optional `pre_filter` and
 * `pre_transform` are then applied to the list of records.
 */
module Pantomime {
  import opened Wrappers
  import opened IndexArith
  import opened BatchIndex

  /** A row of `x`: the 1-based frame number and the point's first three coordinates. */
  datatype Row<C> = Row(seqNo: int, x: C, y: C, z: C)

  /** A row of `pos`. */
  datatype Coords<C> = Coords(x: C, y: C, z: C)

  /** One `Data` object: `x`, `y` and `pos`. */
  datatype Record<C, L> = Record(x: seq<Row<C>>, y: L, pos: seq<Coords<C>>)

  /** Every point of the frames has the three coordinates the rows read. */
  predicate HasXYZ<C>(g: seq<seq<seq<C>>>)
  {
    forall f, p :: 0 <= f < |g| && 0 <= p < |g[f]| ==> |g[f][p]| >= 3
  }

  /** The number of points of a gesture. */
  function PointCount<C>(g: seq<seq<seq<C>>>): nat
  {
    if g == [] then 0 else PointCount(g[..|g| - 1]) + |g[|g| - 1]|
  }

  /** A gesture the loop turns into a record: three coordinates per point and at least one point. */
  predicate Usable<C>(g: seq<seq<seq<C>>>)
  {
    HasXYZ(g) && PointCount(g) > 0
  }

  /** The rows of frame f (0-based), in point order. */
  function FrameRows<C>(f: int, frame: seq<seq<C>>): (rows: seq<Row<C>>)
    requires forall p :: 0 <= p < |frame| ==> |frame[p]| >= 3
    ensures |rows| == |frame|
  {
    seq(|frame|, p requires 0 <= p < |frame| => Row(f + 1, frame[p][0], frame[p][1], frame[p][2]))
  }

  /** The rows of a whole gesture, frame-major. */
  function GestureRows<C>(g: seq<seq<seq<C>>>): (rows: seq<Row<C>>)
    requires HasXYZ(g)
  {
    if g == [] then [] else GestureRows(g[..|g| - 1]) + FrameRows(|g| - 1, g[|g| - 1])
  }

  /** `x[:, 1:4]`: the coordinate columns of every row. */
  function Columns<C>(rows: seq<Row<C>>): (pos: seq<Coords<C>>)
    ensures |pos| == |rows|
  {
    seq(|rows|, n requires 0 <= n < |rows| => Coords(rows[n].x, rows[n].y, rows[n].z))
  }

  function MakeRecord<C, L>(g: seq<seq<seq<C>>>, gestureLabel: L): Record<C, L>
    requires HasXYZ(g)
  {
    Record(GestureRows(g), gestureLabel, Columns(GestureRows(g)))
  }

  /** `[d for d in records if keep(d)]`. */
  function Filter<C, L>(records: seq<Record<C, L>>, keep: Record<C, L> -> bool): (r: seq<Record<C, L>>)
    ensures |r| <= |records|
  {
    if records == [] then []
    else
      var front := Filter(records[..|records| - 1], keep);
      if keep(records[|records| - 1]) then front + [records[|records| - 1]] else front
  }

  /** `[transform(d) for d in records]`. */
  function Map<C, L>(records: seq<Record<C, L>>, transform: Record<C, L> -> Record<C, L>): (r: seq<Record<C, L>>)
    ensures |r| == |records|
  {
    seq(|records|, i requires 0 <= i < |records| => transform(records[i]))
  }

  /** Only as many records as there are both gestures and labels (`zip`). */
  function Paired(nData: nat, nLabels: nat): nat
  {
    if nData < nLabels then nData else nLabels
  }

  /**
   * What `process_set` returns for the data and labels read from the file: an
   * indexing error when a paired gesture has no point (`x` is then one-dimensional)
   * or a point with fewer than three coordinates; otherwise one record per paired
   * gesture, filtered and transformed when those hooks are given.
   */
  function ProcessSetSpec<C, L>(data: seq<seq<seq<seq<C>>>>, labels: seq<L>,
                                preFilter: Option<Record<C, L> -> bool>,
                                preTransform: Option<Record<C, L> -> Record<C, L>>): Result<seq<Record<C, L>>>
  {
    var n := Paired(|data|, |labels|);
    if exists i :: 0 <= i < n && !Usable(data[i]) then Failure(IndexOutOfRange)
    else
      var records := seq(n, i requires 0 <= i < n => MakeRecord(data[i], labels[i]));
      var kept := if preFilter.Some? then Filter(records, preFilter.value) else records;
      Success(if preTransform.Some? then Map(kept, preTransform.value) else kept)
  }

  lemma {:induction false} GestureRowsCount<C>(g: seq<seq<seq<C>>>)
    requires HasXYZ(g)
    ensures |GestureRows(g)| == PointCount(g)
  {
    if g != [] {
      GestureRowsCount(g[..|g| - 1]);
    }
  }

  /**
   * The nested loops of `process_set`: rows are appended point by point and frame by
   * frame, and a record is appended per gesture; the hooks run over the finished list.
   */
  method ProcessSet<C, L>(data: seq<seq<seq<seq<C>>>>, labels: seq<L>,
                          preFilter: Option<Record<C, L> -> bool>,
                          preTransform: Option<Record<C, L> -> Record<C, L>>) returns (r: Result<seq<Record<C, L>>>)
    ensures r == ProcessSetSpec(data, labels, preFilter, preTransform)
  {
    var n := Paired(|data|, |labels|);
    var dataList: seq<Record<C, L>> := [];
    for i := 0 to n
      invariant forall j :: 0 <= j < i ==> Usable(data[j])
      invariant dataList == seq(i, j requires 0 <= j < i => MakeRecord(data[j], labels[j]))
    {
      var gesture := data[i];
      var rows: seq<Row<C>> := [];
      for f := 0 to |gesture|
        invariant HasXYZ(gesture[..f])
        invariant rows == GestureRows(gesture[..f])
      {
        var frame := gesture[f];
        for p := 0 to |frame|
          invariant forall p' :: 0 <= p' < p ==> |frame[p']| >= 3
          invariant rows == GestureRows(gesture[..f]) + FrameRows(f, frame[..p])
        {
          var point := frame[p];
          if |point| < 3 {
            assert !HasXYZ(data[i]) by {
              assert |data[i][f][p]| < 3;
            }
            return Failure(IndexOutOfRange);
          }
          rows := rows + [Row(f + 1, point[0], point[1], point[2])];
          assert FrameRows(f, frame[..p + 1]) == FrameRows(f, frame[..p]) + [Row(f + 1, point[0], point[1], point[2])];
        }
        assert frame[..|frame|] == frame;
        assert gesture[..f + 1][..f] == gesture[..f];
      }
      assert gesture[..|gesture|] == gesture;
      GestureRowsCount(gesture);
      if |rows| == 0 {
        return Failure(IndexOutOfRange);
      }
      var x := rows;
      var pos := Columns(x);
      dataList := dataList + [Record(x, labels[i], pos)];
    }
    if preFilter.Some? {
      dataList := Filter(dataList, preFilter.value);
    }
    if preTransform.Some? {
      dataList := Map(dataList, preTransform.value);
    }
    return Success(dataList);
  }

  // ---------------------------------------------------------------------------
  // the rows of a gesture

  /**
   * The point p of 0-based frame f is row PointCount(frames before f) + p of `x`, and
   * that row is `[f + 1, point[0], point[1], point[2]]`.
   */
  lemma {:induction false} GestureRowAt<C>(g: seq<seq<seq<C>>>, f: int, p: int)
    requires HasXYZ(g) && 0 <= f < |g| && 0 <= p < |g[f]|
    ensures 0 <= PointCount(g[..f]) + p < |GestureRows(g)|
    ensures GestureRows(g)[PointCount(g[..f]) + p] == Row(f + 1, g[f][p][0], g[f][p][1], g[f][p][2])
  {
    var last := |g| - 1;
    var front := g[..last];
    assert HasXYZ(front);
    GestureRowsCount(front);
    GestureRowsCount(g);
    if f == last {
      assert g[..f] == front;
    } else {
      assert front[..f] == g[..f];
      GestureRowAt(front, f, p);
    }
  }

  /** Sequence numbers are 1-based, at most the number of frames, and never decrease along `x`. */
  lemma {:induction false} SeqNoOrdered<C>(g: seq<seq<seq<C>>>)
    requires HasXYZ(g)
    ensures forall n :: 0 <= n < |GestureRows(g)| ==> 1 <= GestureRows(g)[n].seqNo <= |g|
    ensures forall n, m :: 0 <= n <= m < |GestureRows(g)| ==> GestureRows(g)[n].seqNo <= GestureRows(g)[m].seqNo
  {
    if g != [] {
      var front := g[..|g| - 1];
      assert HasXYZ(front);
      SeqNoOrdered(front);
    }
  }

  /** Row n of `pos` is the coordinate part of row n of `x`: point p of frame f gives its own coordinates. */
  lemma PosAt<C, L>(g: seq<seq<seq<C>>>, gestureLabel: L, f: int, p: int)
    requires HasXYZ(g) && 0 <= f < |g| && 0 <= p < |g[f]|
    ensures 0 <= PointCount(g[..f]) + p < |MakeRecord(g, gestureLabel).pos|
    ensures MakeRecord(g, gestureLabel).pos[PointCount(g[..f]) + p] == Coords(g[f][p][0], g[f][p][1], g[f][p][2])
  {
    GestureRowAt(g, f, p);
  }

  lemma {:induction false} UniformCount<C>(g: seq<seq<seq<C>>>, P: nat)
    requires forall f :: 0 <= f < |g| ==> |g[f]| == P
    ensures PointCount(g) == |g| * P
  {
    if g != [] {
      UniformCount(g[..|g| - 1], P);
    }
  }

  /**
   * A gesture of F frames of P points each yields the layout the temporal layers
   * assume for a single sample: sample id 0 everywhere and sequence number n / P + 1.
   */
  lemma UniformGestureLayout<C>(g: seq<seq<seq<C>>>, P: nat)
    requires HasXYZ(g) && |g| > 0 && P > 0
    requires forall f :: 0 <= f < |g| ==> |g[f]| == P
    ensures |GestureRows(g)| == 1 * |g| * P
    ensures IsLayout(seq(|GestureRows(g)|, n => 0),
                     seq(|GestureRows(g)|, n requires 0 <= n < |GestureRows(g)| => GestureRows(g)[n].seqNo), 1, |g|, P)
  {
    var F := |g|;
    var rows := GestureRows(g);
    GestureRowsCount(g);
    UniformCount(g, P);
    forall n | 0 <= n < |rows|
      ensures n / P / F == 0 && rows[n].seqNo == (n / P) % F + 1
    {
      DivBound(n, F, P);
      var f, p := n / P, n % P;
      UniformCount(g[..f], P);
      GestureRowAt(g, f, p);
      DivModUnique(f, F, 0, f);
    }
  }

  // ---------------------------------------------------------------------------
  // the hooks

  /** `pre_filter` keeps a record exactly when it satisfies the filter. */
  lemma {:induction false} FilterMembers<C, L>(records: seq<Record<C, L>>, keep: Record<C, L> -> bool)
    ensures forall d :: d in Filter(records, keep) <==> d in records && keep(d)
  {
    if records != [] {
      var front := records[..|records| - 1];
      FilterMembers(front, keep);
      assert records == front + [records[|records| - 1]];
    }
  }

  /** `pre_filter` preserves order: filtering a concatenation concatenates the filtered parts. */
  lemma {:induction false} FilterAppend<C, L>(s: seq<Record<C, L>>, t: seq<Record<C, L>>, keep: Record<C, L> -> bool)
    ensures Filter(s + t, keep) == Filter(s, keep) + Filter(t, keep)
    decreases |t|
  {
    if t == [] {
      assert s + t == s;
    } else {
      var t' := t[..|t| - 1];
      assert (s + t)[..|s + t| - 1] == s + t';
      FilterAppend(s, t', keep);
    }
  }

  /** A filter every record passes keeps the list unchanged. */
  lemma {:induction false} FilterAllPass<C, L>(records: seq<Record<C, L>>, keep: Record<C, L> -> bool)
    requires forall i :: 0 <= i < |records| ==> keep(records[i])
    ensures Filter(records, keep) == records
  {
    if records != [] {
      FilterAllPass(records[..|records| - 1], keep);
    }
  }

  /**
   * Without hooks the result has one record per (gesture, label) pair, in input
   * order, labelled with that label and holding one row per point.
   */
  lemma ProcessSetRecords<C, L>(data: seq<seq<seq<seq<C>>>>, labels: seq<L>)
    requires ProcessSetSpec(data, labels, None, None).Success?
    ensures var out := ProcessSetSpec(data, labels, None, None).value;
            (|out| == |data| && |out| <= |labels|) || (|out| == |labels| && |out| <= |data|)
    ensures var out := ProcessSetSpec(data, labels, None, None).value;
            forall i :: 0 <= i < |out| ==>
              && out[i] == MakeRecord(data[i], labels[i])
              && out[i].y == labels[i]
              && |out[i].x| == PointCount(data[i]) > 0
              && out[i].pos == Columns(out[i].x)
  {
    var out := ProcessSetSpec(data, labels, None, None).value;
    forall i | 0 <= i < |out|
      ensures out[i].y == labels[i] && |out[i].x| == PointCount(data[i]) > 0
    {
      GestureRowsCount(data[i]);
    }
  }

  /**
   * The hooks run over the finished list and never cause a failure: `pre_filter` keeps
   * exactly the records it accepts, in order, and `pre_transform` is applied once to
   * each record that survives, in order.
   */
  lemma ProcessSetHooks<C, L>(data: seq<seq<seq<seq<C>>>>, labels: seq<L>,
                              keep: Record<C, L> -> bool, transform: Record<C, L> -> Record<C, L>)
    requires ProcessSetSpec(data, labels, None, None).Success?
    ensures var plain := ProcessSetSpec(data, labels, None, None).value;
            var filtered := ProcessSetSpec(data, labels, Some(keep), None);
            && filtered.Success?
            && (forall d :: d in filtered.value <==> d in plain && keep(d))
            && ((forall i :: 0 <= i < |plain| ==> keep(plain[i])) ==> filtered.value == plain)
    ensures var kept := ProcessSetSpec(data, labels, Some(keep), None).value;
            var hooked := ProcessSetSpec(data, labels, Some(keep), Some(transform));
            && hooked.Success?
            && |hooked.value| == |kept|
            && forall i :: 0 <= i < |kept| ==> hooked.value[i] == transform(kept[i])
  {
    var plain := ProcessSetSpec(data, labels, None, None).value;
    FilterMembers(plain, keep);
    if forall i :: 0 <= i < |plain| ==> keep(plain[i]) {
      FilterAllPass(plain, keep);
    }
  }
}
