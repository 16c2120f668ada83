# Temporal edge convolution: index bookkeeping

This project models the integer index bookkeeping of the temporal edge-convolution
layers in `temporal_edgecnn/temporal_edgecnn.py` and of the gesture flattening in
`pantomime_dataset.py`. The model proves properties about it. The neural network itself
(MLPs, attention numerics, knn distances) is not modelled. Tensors are flat row-major
sequences with explicit shape parameters. Feature rows are an abstract type, or
`seq<int>` where only their order matters (the max reduction).

Modules:

- `Wrappers`: `Result` and `Option`, and the three error kinds the core can raise:
  a failed reshape or broadcast (`ShapeMismatch`), an integer division by zero
  (`DivisionByZero`), and an index out of range (`IndexOutOfRange`).
- `IndexArith`, `TensorOps`: row-major positions and the torch operations the core uses.
  These are repeat along a size-1 dimension, boolean selection along dimension 1, a
  permute of two adjacent dimensions, and a broadcast add of rows. Each operation has
  an element formula.
- `BatchIndex`: the per-point (sample, frame) group ids computed in the temporal
  `forward`s. Also the sample-major, frame-major, point-minor layout that the rest of
  the core assumes.
- `Candidates`: `make_proper_data`.
  - The F x F frame-pair mask is built in place (`BuildFrameMask`). It is proved equal
    to its entrywise definition.
  - The candidate pipeline is a pure function.
  - Lemmas cover where each candidate comes from, how it is tagged and how it is
    ordered. They also prove that remapped knn edges stay inside the temporal window.
- `PairCount`: how many frame pairs the strict mask keeps when the window reaches
  back over every earlier frame.
- `TemporalMask`: the N x N mask that `TemporalAutomatedGraphDynamicEdgeConv`'s
  constructor fills frame by frame on an `array2`. A closed-form window lemma describes
  it.
- `Aggregation`, `TemporalConv`: the layer as a class.
  - Its constructor builds the mask and the per-sample offset table.
  - `CorrectEdges` is the offset correction in `forward`.
  - `Aggregate` is the block-wise attention followed by `scatter(..., reduce='max')`.
- `Flops`: the two profiler counters. They form a class whose `totalOps` field is
  updated in place.
- `Pantomime`: `process_set`'s nested loops (a method), its specification function,
  and lemmas about the rows it produces and about the `pre_filter` / `pre_transform`
  passes.

Two behaviours of the code are modelled exactly as written:

- **The temporal mask window is half-open.** Frame f writes the rows of frames
  `f - t//2` up to `f + t//2 - 1` in the columns of frame f. So a query column
  reaches `t//2` frames back and `t//2 - 1` frames forward, and `t = 1` sets no entry
  at all (`TemporalMask.UnitWindowIsEmpty`). A reading of "t//2 frames before and
  after" would include frame `f + t//2`. The code does not, and the model follows the
  code.
- **`make_proper_data`'s `target_batch` is computed positionally.** It is
  `source_batch.reshape(-1, 1).repeat(1, F)` viewed as (B, F*F, P). Candidate
  (b, i, j, p) therefore reads the group id of point `(j*P + p) // F` of frame i of
  sample b (`Candidates.ReplicateTagAt`). That equals `b*F + i`, the source frame's
  group, only on the assumed layout (`Candidates.CandidateOnLayout`).

## Model

| member | source | states |
|---|---|---|
| BatchIndex.GroupIdDecodes | temporal_edgecnn/temporal_edgecnn.py:114 | for a sequence number s in [1, F] the group id `b*F + s - 1` lies in [b*F, b*F + F) and decodes back to sample b and frame s - 1 (the same formula is at lines 169 and 234) |
| BatchIndex.GroupIdInjective | temporal_edgecnn/temporal_edgecnn.py:114 | two points get equal group ids exactly when they share sample and sequence number |
| BatchIndex.PrevGroupIdInSample | temporal_edgecnn/temporal_edgecnn.py:114-116 | the previous-frame id stays in the sample's range [b*F, b*F + F) and is the id of frame s - 1, except on the first frame (and the last frame in the line-116 variant) where it is the point's own id; the variant without the last-frame fallback is at lines 169-171 and 234-236 |
| BatchIndex.ForwardPairing | temporal_edgecnn/temporal_edgecnn.py:114-123 | a candidate's group id equals a query's previous-frame id iff both are in the same sample and the candidate is in the query's previous frame (or in the query's own frame where the id falls back) |
| BatchIndex.ForwardGroupsOnLayout | temporal_edgecnn/temporal_edgecnn.py:104-117 | on the layout, with F the distinct count of sequence numbers, the pair handed to knn gives point (b, f, p) the group id b*F + f and the previous-frame id of sequence number f + 1 (the same computation is at lines 159-172 and 224-237) |
| BatchIndex.LayoutCounts | temporal_edgecnn/temporal_edgecnn.py:311-312 | on the B x F x P layout, the distinct-value counts of the sample ids and the sequence numbers are B and F |
| BatchIndex.LayoutGroupIds | temporal_edgecnn/temporal_edgecnn.py:314 | on the layout, the group id of point p of frame f of sample b is b*F + f |
| Candidates.FillTril | temporal_edgecnn/temporal_edgecnn.py:321 | the matrix is filled with `tril(ones, diagonal=d)`: 1 where j <= i + d, else 0 |
| Candidates.SubtractTril | temporal_edgecnn/temporal_edgecnn.py:326 | every entry loses `tril(ones, diagonal=d)`'s entry and nothing else changes |
| Candidates.BuildFrameMask | temporal_edgecnn/temporal_edgecnn.py:320-326 | the in-place construction (triangle, the (0, 0) fix in strict mode, the window subtraction) yields a fresh F x F matrix equal entrywise to the frame-pair mask definition |
| Candidates.FrameMaskWindow | temporal_edgecnn/temporal_edgecnn.py:320-326 | for T >= 0 the mask is 0/1; strict mode keeps (i, j) iff i - T <= j <= i - 1 or (i, j) = (0, 0), self-loop mode iff i - T <= j <= i |
| Candidates.FrameHasCandidate | temporal_edgecnn/temporal_edgecnn.py:320-326 | a source frame has an allowed target frame iff it is frame 0, or there is a self loop, or T >= 1; frame 0 is never without one |
| Candidates.KeptPairDecodes | temporal_edgecnn/temporal_edgecnn.py:327-329 | every kept flat pair index decodes to frames (i, j) in range that the mask allows |
| Candidates.AllowedPairIsKept | temporal_edgecnn/temporal_edgecnn.py:327-329 | every allowed (i, j) is among the kept pairs |
| Candidates.MakeProperData | temporal_edgecnn/temporal_edgecnn.py:308-332 | succeeds iff B*F > 0 and B*F divides N (division by zero and reshape failure otherwise); `source` is the data, `source_batch` the group ids, and target, target_batch and index_mapper have length B * kept pairs * P |
| Candidates.ReplicateTargetAt | temporal_edgecnn/temporal_edgecnn.py:316-319 | candidate (b, c, p) with kept pair (i, j) is data row (b, j, p) and its mapper entry is that row's flat position |
| Candidates.ReplicateTagAt | temporal_edgecnn/temporal_edgecnn.py:330-331 | candidate (b, c, p) with kept pair (i, j) is tagged with the source group id of point (j*P + p) // F of frame i of sample b |
| Candidates.IndexMapperCorrect | temporal_edgecnn/temporal_edgecnn.py:316-329 | every mapper entry is a valid point index and every candidate equals the data row at that index |
| Candidates.FeatureIndependent | temporal_edgecnn/temporal_edgecnn.py:308-332 | success, source ids, tags and mapper do not depend on the feature values |
| Candidates.LayoutBuild | temporal_edgecnn/temporal_edgecnn.py:311-313 | on the layout the builder succeeds with the layout's B, F and P |
| Candidates.CandidateOnLayout | temporal_edgecnn/temporal_edgecnn.py:316-331 | on the layout, candidate (b, c, p) with kept pair (i, j) has tag b*F + i and mapper entry b*F*P + j*P + p, a point of sample b and frame j + 1 |
| Candidates.TargetBatchSorted | temporal_edgecnn/temporal_edgecnn.py:330-331 | on the layout `target_batch` never decreases |
| Candidates.RemappedEdgesInWindow | temporal_edgecnn/temporal_edgecnn.py:374-376 | given knn pairs only equal tags, every remapped edge joins two points of the same sample whose (source frame, target frame) pair the mask keeps |
| Candidates.AllowedTargetIsCandidate | temporal_edgecnn/temporal_edgecnn.py:374-376 | conversely, every point of an allowed frame of the same sample is a candidate carrying the query's tag |
| PairCount.TrueIndicesCount | temporal_edgecnn/temporal_edgecnn.py:327-328 | the number of kept positions equals the number of true flags |
| PairCount.StrictFullWindowCount | temporal_edgecnn/temporal_edgecnn.py:276 | in strict mode with T >= F - 1 the mask keeps 1 + F(F-1)/2 frame pairs, the factor the counter uses |
| TensorOps.RepeatMiddleAt | temporal_edgecnn/temporal_edgecnn.py:318 | `repeat` along a size-1 middle dimension: output (o, r, i) is input (o, i) |
| TensorOps.SelectMiddleAt | temporal_edgecnn/temporal_edgecnn.py:328 | boolean selection along dimension 1: output (o, c, i) is input (o, c-th kept position, i) |
| TensorOps.SwapAxesAt | temporal_edgecnn/temporal_edgecnn.py:569 | `permute` of two adjacent dimensions: output (a, y, x, z) is input (a, x, y, z) |
| TensorOps.TrueIndices | temporal_edgecnn/temporal_edgecnn.py:327-328 | the positions of the true flags, strictly ascending, and every true flag's position among them |
| TensorOps.AddRows | temporal_edgecnn/temporal_edgecnn.py:593 | the broadcast add succeeds iff the row counts agree or one of them is 1, with the broadcast row count |
| TensorOps.AddRowsAt | temporal_edgecnn/temporal_edgecnn.py:593 | on success, output row o is the elementwise sum of row o of each operand, or of its single row when it is broadcast |
| TemporalMask.FillBlock | temporal_edgecnn/temporal_edgecnn.py:564 | `mask[r0:r1, c0:c1] = 1`: entries inside the block become 1, all others keep their value |
| TemporalMask.FillFrame | temporal_edgecnn/temporal_edgecnn.py:558-564 | one loop iteration: the clamped start row, the end row and the column slice of frame f, normalised like Python slices, are set to 1 and nothing else changes |
| TemporalMask.BuildTemporalMask | temporal_edgecnn/temporal_edgecnn.py:555-564 | a fresh N x N 0/1 matrix whose entry is 1 exactly where some frame's block covers it |
| TemporalMask.MaskWindow | temporal_edgecnn/temporal_edgecnn.py:555-564 | for t > 0 and ppf = N // F, entry (r, c) is 1 iff c < F*ppf and c//ppf - t//2 <= r//ppf < c//ppf + t//2 |
| TemporalMask.NegativeWindowWraps | temporal_edgecnn/temporal_edgecnn.py:544-564 | t = -1 passes the oddness check and, through a negative slice end counting from the end, sets entry (15, 5) of the mask for N = 30, F = 3 |
| TemporalMask.UnitWindowIsEmpty | temporal_edgecnn/temporal_edgecnn.py:558-561 | with t = 1 no entry of the mask is set |
| TemporalConv.TemporalAutomatedGraphDynamicEdgeConv.constructor | temporal_edgecnn/temporal_edgecnn.py:544-570 | t odd is required, stores the configuration, and builds the mask (entries as `MaskCovers`) and the offset table |
| TemporalConv.OffsetTableAt | temporal_edgecnn/temporal_edgecnn.py:565-569 | every entry [b][row][e] of the (B, 2, N*k) offset table is b*N |
| TemporalConv.ShiftAndFlatten | temporal_edgecnn/temporal_edgecnn.py:593-595 | the shift succeeds iff the batch and table row counts agree or one is 1, with the broadcast row count times 2*N*k entries |
| TemporalConv.TemporalAutomatedGraphDynamicEdgeConv.CorrectEdges | temporal_edgecnn/temporal_edgecnn.py:584-595 | the correction succeeds iff the batch is no larger than the configured one or either size is 1; for a batch no larger it keeps the edge count |
| TemporalConv.CorrectedEdgeAt | temporal_edgecnn/temporal_edgecnn.py:592-595 | entry e of edge row `row` of sample b lands at flat position row*B'*N*k + b*N*k + e and equals the local index plus b*N |
| TemporalConv.CorrectedEdgeBounds | temporal_edgecnn/temporal_edgecnn.py:592-595 | local indices in [0, N) become global indices in [b*N, (b+1)*N), inside [0, B'*N) |
| TemporalConv.ShortBatchBranchAgrees | temporal_edgecnn/temporal_edgecnn.py:592-595 | at the configured batch size, the prefix-of-table branch gives the same edges as the full-table branch |
| TemporalConv.TemporalAutomatedGraphDynamicEdgeConv.Aggregate | temporal_edgecnn/temporal_edgecnn.py:603-616 | fails for k = 0, and for E not a multiple of k unless rows are empty; on success there are dim_size output rows of the input width |
| TemporalConv.AggregateMax | temporal_edgecnn/temporal_edgecnn.py:607-616 | output (n, d) bounds column d of every refined message sent to n and is attained by one, or is 0 when none is sent |
| Aggregation.RefineBlocks | temporal_edgecnn/temporal_edgecnn.py:609-613 | the per-block attention, applied block after block, keeps the message count |
| Aggregation.RefineAt | temporal_edgecnn/temporal_edgecnn.py:609-613 | refined message e is row e % k of the attention applied to block e // k: no message leaves its block or its place |
| Aggregation.RefineWidths | temporal_edgecnn/temporal_edgecnn.py:609-613 | with a width-keeping attention every refined message keeps the input width |
| Aggregation.MaxFor | temporal_edgecnn/temporal_edgecnn.py:615-616 | none iff no message targets n; otherwise an upper bound of column d over the messages sent to n, attained by one of them |
| Aggregation.ScatterMax | temporal_edgecnn/temporal_edgecnn.py:615-616 | dim_size output rows of the given width |
| Aggregation.ScatterMaxSpec | temporal_edgecnn/temporal_edgecnn.py:615-616 | output (n, d) is the maximum of column d over the messages sent to n, and 0 when none is |
| Flops.OpCounter.CountGeneralized | temporal_edgecnn/temporal_edgecnn.py:269-279 | fails on B*F = 0 leaving the count unchanged; otherwise adds 2(D+1) * B*P*(1 + F(F-1)//2) * B*F*P, and the count never decreases |
| Flops.GeneralizedOpsNonnegative | temporal_edgecnn/temporal_edgecnn.py:273-278 | the generalized estimate is never negative |
| Flops.GeneralizedOpsOnShape | temporal_edgecnn/temporal_edgecnn.py:273-278 | with N = B*F*P points, P = N // (B*F) is exact and the estimate is 2(D+1) * (B*(1 + F(F-1)//2)*P) * N |
| Flops.GeneralizedCountsCandidates | temporal_edgecnn/temporal_edgecnn.py:276-278 | on the layout, strict mode and T >= F - 1, the estimate is 2(D+1) times the number of candidates `make_proper_data` builds times the number of points |
| Flops.OpCounter.CountMultiHead | temporal_edgecnn/temporal_edgecnn.py:293-306 | fails on an empty q shape, zero heads, or q or k of fewer than two dimensions, leaving the count unchanged; otherwise adds (q_dim+1)*numel(k) + q1*numel(v) + q0*heads*q1*(3nf - 1), never decreasing the count when nf >= 1 |
| Flops.MultiHeadOpsNonnegative | temporal_edgecnn/temporal_edgecnn.py:300-305 | with at least one key feature the attention estimate is never negative |
| Flops.MultiHeadOpsEmptyKeys | temporal_edgecnn/temporal_edgecnn.py:300-306 | with nf = 0 the estimate can be negative: shapes (1, 1, 1), (1, 0), (1, 0) with one head give -1 |
| Pantomime.ProcessSet | pantomime_dataset.py:34-50 | the nested loops return what `ProcessSetSpec` defines: an index error for a paired gesture with no point or a point with fewer than three coordinates, else one record per paired gesture, filtered then transformed |
| Pantomime.GestureRowsCount | pantomime_dataset.py:36-39 | a gesture yields one row per point: the row count is the sum of the frame sizes |
| Pantomime.GestureRowAt | pantomime_dataset.py:37-39 | point p of 0-based frame f is row (points before frame f) + p, and that row is [f + 1, point[0], point[1], point[2]] |
| Pantomime.SeqNoOrdered | pantomime_dataset.py:37-39 | sequence numbers lie in [1, number of frames] and never decrease along the rows |
| Pantomime.PosAt | pantomime_dataset.py:43 | row n of `pos` is the first three coordinates of the n-th point |
| Pantomime.UniformCount | pantomime_dataset.py:36-39 | F frames of P points give F*P points |
| Pantomime.UniformGestureLayout | pantomime_dataset.py:36-39 | a gesture of F frames of P points yields exactly the one-sample layout the temporal layers assume: F*P rows with sequence number n // P + 1 |
| Pantomime.ProcessSetRecords | pantomime_dataset.py:35-44 | without hooks there are min(#gestures, #labels) records in input order, record i is the record built from gesture i (so the row lemmas apply), labelled with label i and with one row per point of gesture i, and `pos` the coordinate columns of `x` |
| Pantomime.FilterMembers | pantomime_dataset.py:46-47 | `pre_filter` keeps exactly the records it accepts |
| Pantomime.FilterAppend | pantomime_dataset.py:46-47 | `pre_filter` preserves order: filtering a concatenation concatenates the filtered parts |
| Pantomime.FilterAllPass | pantomime_dataset.py:46-47 | a filter every record passes leaves the list unchanged |
| Pantomime.ProcessSetHooks | pantomime_dataset.py:46-50 | the hooks never cause a failure; the filter keeps exactly the accepted records; `pre_transform` is applied once to each surviving record, in order |

## Left out

- The learned, floating-point computation is not modelled: MLPs, `MultiHeadAttention`, the `message` body, and the min-max normalisation and scaling of the knn input. The attention in `aggregate` is an opaque function that keeps the number of rows of a block and the width of each row.
- `torch_cluster.knn` is a foreign library that works on float distances. Its contract is taken as the precondition `Candidates.KnnWithinGroups`: an edge only joins a query and a candidate with equal tags. The number of neighbours per query is not modelled.
- The graph-creator layers are not part of this model. `CorrectEdges` takes their output, local indices of shape (B', 2, N*k), as a parameter.
- `MessagePassing.propagate` and `torch_scatter` are library machinery. Only the index semantics of the max scatter is modelled.
- Features are integers in `Aggregate` and an abstract type elsewhere. `total_ops` is an integer rather than a one-element double tensor, so float rounding of large counts is not modelled.
- `int(E / k)` goes through a float division. For very large E it could round; the model uses exact division.
- Several things are not modelled: `reset_parameters`, `__repr__`, the `ImportError` checks, `.to(device)`, dataset I/O (h5py, `torch.save`, `torch.load`, `collate`), the `print` call, `playground.py` and `models/`.
- `tmp` at temporal_edgecnn/temporal_edgecnn.py:325 is computed and never used, so it has no counterpart.
- The `forward`s of `TemporalDynamicEdgeConv`, `TemporalAttentionDynamicEdgeConv` and `TemporalSelfAttentionDynamicEdgeConv` are modelled only up to the group ids they hand to knn (`BatchIndex.ForwardGroups`). A tuple `batch` is passed through unchanged and is not modelled.
- TemporalConv.TemporalAutomatedGraphDynamicEdgeConv.constructor: requires an odd t, which stands for the `AssertionError` the source raises for an even t. It also requires a positive frame count. The source divides by it and raises `ZeroDivisionError`, and a constructor cannot return that error.
- TemporalMask.BuildTemporalMask: requires F > 0 for the same reason.
- TemporalMask.MaskWindow: the closed form is proved only for t > 0. A negative odd t passes the oddness assertion (`-1 % 2 == 1` in Python), and then the row-slice end `(f + t//2) * ppf` can be negative and counts from the end of the axis, so entries can be set (`TemporalMask.NegativeWindowWraps`: with N = 30, F = 3, t = -1, entry (15, 5) is 1). `MaskCovers` describes this case exactly; the closed form does not.
- TemporalConv.TemporalAutomatedGraphDynamicEdgeConv.Aggregate: requires every target index below `dim_size`. An out-of-range index makes the library scatter fail, and that failure is not modelled.
- TemporalConv.TemporalAutomatedGraphDynamicEdgeConv.CorrectEdges: the output length is stated only for a batch no larger than the configured one. For a larger batch only the success condition (broadcast of a single row) is stated.
- Candidates.BuildFrameMask: requires F > 0 in strict mode, where indexing `mask[0][0]` of an empty matrix raises `IndexError`. `make_proper_data` never reaches that point with F = 0, because `len(data) // (B*F)` fails first.
- Pantomime.ProcessSet: `torch.tensor` of the rows and labels is not modelled. A record's `x` is a sequence of rows and its `y` is the label itself.
