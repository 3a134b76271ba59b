# VideoSplitCombine in Dafny

This project models the `VideoSplitCombine` node, `split_and_combine` in `nodes.py`. The node takes a batch of image frames and checks that it is a tensor with at least `split_num` frames. It cuts the batch into `split_num` contiguous slices: with `q = batch_size // split_num` and `r = batch_size % split_num`, the first `r` slices get `q + 1` frames and the others get `q`. It calls the video-combine encoder once per slice, in slice order. Each call gets the slice, the prefix `"{filename_prefix}_part{i+1:02d}"` and every other argument unchanged. The node collects the file names and GIF previews from each reply and returns `{"result": ((save_output, all_filenames),), "ui": {"gifs": all_gifs}}`.

Files:

- `wrappers.dfy`: `Option` and `Result`.
- `partition.dfy` (module `Partition`): the slice arithmetic as functions. It proves the size bounds, non-emptiness, a closed form for `start_idx`, and that the slices tile the batch exactly.
- `naming.dfy` (module `Naming`): decimal formatting, the `02d` zero padding and the part prefix. A decimal parser inverts the formatting, which proves that distinct slices get distinct prefixes.
- `vhs.dfy` (module `Vhs`): the encoder collaborator.
  - It is a class `VideoCombine` with a `calls` field that logs every call it has received.
  - A constant `respond` gives the reply to a call as a function of all earlier calls. This lets an encoder keep state between calls.
  - A reply either returns an envelope or raises.
- `split_combine.dfy` (module `VideoSplitCombine`): the node.
  - `SplitAndCombine` is the imperative loop. Its postcondition equates its result and the encoder's new call log with `Outcome`, a pure statement of the same behaviour.
  - `Outcome` is built from `Plan`, the list of calls the node means to make, and `Dispatch`, which issues that plan call by call.
  - The lemmas describe `Outcome` in terms of the encoder's replies (`Replies`): the validation errors, the in-order concatenation on success, and the abort at the first unusable reply.

Modelling choices:

- Frames are a generic `seq<F>`; slicing is `frames[start..end]`.
- `frame_rate`, `loop_count`, `format`, `pingpong`, `audio`, `vae` and `**kwargs` are only forwarded, so they are one opaque value `forwarded: A`.
- The reply envelope has two parts: `result` is the `"result"` entry, a sequence of tuples whose elements are `Flag(bool)` or `Names(list)`; `ui` is the `"ui"` dictionary of preview lists.
  - An absent key is `None`.
  - A `None` or `{}` reply is `Envelope(None, None)`.
- Extending the file list with a second tuple element that is a boolean raises `TypeError` in the source. The model has this as the error `FilenamesNotIterable`.
- An exception from the encoder propagates. The model has this as `EncoderRaised`; the node then returns no partial result.

Behaviour of the code worth noting:

- An empty batch (0 frames, `split_num >= 1`) raises the too-few-frames error (nodes.py:43-44).
- A non-tensor input raises `ValueError` (nodes.py:39-40).
- The UI key of the return value is `"gifs"` (nodes.py:95).
- Previews are read only when the reply has a `"result"` entry (nodes.py:79, 86).

## Model

| member | source | states |
|---|---|---|
| Partition.SliceLength | nodes.py:55 | computes `current_frames`: `batch_size // split_num` plus one for the first `batch_size % split_num` slices; its bounds are stated by `SliceLengthBounds` |
| Partition.SliceStart | nodes.py:52-90 | computes `start_idx` before slice `i`: 0 initially (line 52), then advanced to each slice's end (lines 56, 90); its closed form is stated by `SliceStartClosedForm` |
| Partition.SliceLengthBounds | nodes.py:46-55 | every slice has `q` or `q+1` frames, and it has `q+1` exactly when its index is below `r` |
| Partition.SliceNonEmpty | nodes.py:43-55 | when `batch_size >= split_num`, every slice has at least one frame |
| Partition.SliceStartClosedForm | nodes.py:52-56 | `start_idx` before slice `i` is `i*q + min(i, r)` |
| Partition.SlicesCoverBatch | nodes.py:52-90 | after the last slice, `start_idx` equals `batch_size` |
| Partition.SliceStartMonotone | nodes.py:52-59 | slice starts never decrease and never pass `batch_size`, so every `images[start_idx:end_idx]` is in range |
| Partition.Slice | nodes.py:55-59 | slice `i` has `SliceLength` frames, ends where slice `i+1` starts, and holds the batch's frames from its start on |
| Partition.Slices | nodes.py:59 | has exactly `split_num` entries, entry `i` being the frames of slice `i` |
| Partition.SlicesReconstructBatch | nodes.py:52-90 | the slices, concatenated in order, are exactly the batch: no frame is lost or duplicated |
| Partition.PartitionExamples | nodes.py:46-56 | 10 frames in 3 slices are 4, 3, 3, starting at 0, 4, 7 and ending at 10; 5 frames in 5 slices are 1 each |
| Naming.Decimal | nodes.py:62 | the decimal text of `n` inside the `02d` format is non-empty and made only of digits |
| Naming.ZeroPad2 | nodes.py:62 | computes the `02d` form: one leading `0` below 10, the plain decimal text otherwise; its width and round trip are stated by `ZeroPad2Width` and `ZeroPad2RoundTrip` |
| Naming.DecimalRoundTrip | nodes.py:62 | reading the decimal digits of `n` back gives `n` |
| Naming.ZeroPad2RoundTrip | nodes.py:62 | parsing the `02d` form of `n` gives `n` back, so the padding loses nothing |
| Naming.ZeroPad2Width | nodes.py:62 | the `02d` form has two characters below 100 and three from 100 to 999 |
| Naming.PartPrefix | nodes.py:62 | computes `f"{filename_prefix}_part{i+1:02d}"`; its layout and injectivity are stated by `PartPrefixLayout` and `PartPrefixInjective` |
| Naming.PartPrefixLayout | nodes.py:62 | a part prefix is the caller's prefix, then `_part`, then digits that parse to `i+1` |
| Naming.PartPrefixInjective | nodes.py:62 | equal part prefixes (for the same caller prefix) come from the same slice index |
| Naming.PartPrefixExamples | nodes.py:62 | prefix `X` gives `X_part01`, `X_part03` and `X_part100` |
| Vhs.VideoCombine.CombineVideo | nodes.py:65-76 | a call is appended to the encoder's log, and the reply depends on the earlier log and the call |
| VideoSplitCombine.Wrap | nodes.py:93-96 | the return value has one result tuple `(save_output, all_filenames)` and a UI dictionary whose only key is `"gifs"` |
| VideoSplitCombine.Plan | nodes.py:53-76 | the calls the loop makes, one per slice: exactly `split_num` of them |
| VideoSplitCombine.PlanTilesBatch | nodes.py:52-90 | the slices given to the encoder, concatenated in call order, are the batch |
| VideoSplitCombine.PlanSliceSizes | nodes.py:43-55 | the frames of call `i` number `q` or `q+1`, `q+1` exactly for `i < r`, and at least one after validation |
| VideoSplitCombine.PlanPrefixesDistinct | nodes.py:62-76 | call `i` gets prefix `PartPrefix(filename_prefix, i)`, prefixes of different calls differ, and `save_output` and the forwarded arguments are passed unchanged |
| VideoSplitCombine.Contribution | nodes.py:79-88 | a reply without a `"result"` entry contributes nothing; the only reading error is a file entry that is not a list |
| VideoSplitCombine.ReadReply | nodes.py:65-88 | a raised encoder call is read as the node error `EncoderRaised` carrying the same message |
| VideoSplitCombine.CollectReply | nodes.py:79-88 | the loop's block that reads one reply extends the file names and previews by that reply's contribution, or fails exactly when the contribution cannot be read |
| VideoSplitCombine.Dispatch | nodes.py:53-90 | computes the loop as a fold over the plan, stopping at the first raise or unreadable reply; its meaning is stated by `DispatchSucceeds` and `DispatchFails` |
| VideoSplitCombine.Outcome | nodes.py:31-96 | computes the whole node: validation, then `Dispatch` of the plan, then `Wrap`; its meaning is stated by `OutcomeRejects`, `OutcomeSucceeds`, `OutcomeFails`, `OutcomeRaises` and `CallsFollowPlan` |
| VideoSplitCombine.SplitAndCombine | nodes.py:31-96 | the loop's result and the encoder's new call log are those of `Outcome` on the old log |
| VideoSplitCombine.DispatchSucceeds | nodes.py:53-90 | if every reply is usable, all planned calls are made in order and the accumulators are the in-order concatenation of each reply's file names and previews |
| VideoSplitCombine.DispatchFails | nodes.py:53-90 | at the first unusable reply the run stops: calls up to and including it were made, and its error is raised with no partial result |
| VideoSplitCombine.OutcomeRejects | nodes.py:39-44 | a non-tensor input, fewer frames than slices, and in particular an empty batch raise without any encoder call |
| VideoSplitCombine.OutcomeSucceeds | nodes.py:53-96 | with valid input and usable replies, the node makes exactly `split_num` calls and returns `save_output` with the concatenated file names and, under `"gifs"`, the concatenated previews |
| VideoSplitCombine.OutcomeRaises | nodes.py:53-96 | with valid input, when the first unusable reply `j` is a raise, the node makes calls `0..j` and raises that message with no partial result |
| VideoSplitCombine.OutcomeFails | nodes.py:53-96 | with valid input and a first unusable reply `j`, the node makes calls `0..j` and raises that reply's error |
| VideoSplitCombine.CallsFollowPlan | nodes.py:39-76 | the calls made are always a prefix of the plan in slice order: none if validation fails, all `split_num` if a result is returned |
| VideoSplitCombine.EncoderRaisesOnSecondCall | nodes.py:53-76 | if the second of three calls raises, the node raises the same error after exactly two calls |
| VideoSplitCombine.FirstUnusableIsFirst | nodes.py:65-88 | every reply before the first unusable one is usable |

## Left out

- The lazy lookup of `VHS_VideoCombine` in the host's node registry and its caching in a module global (nodes.py:3, 34-37) are not modelled. The encoder object is passed in already resolved, so a missing registry entry (a `KeyError`) is not modelled.
- The encoder's own work (video and GIF encoding, file writes) is not modelled. Its replies come from the opaque `respond` function.
- `torch.Tensor` details are not modelled. A tensor is its sequence of frames along the first dimension, and a non-tensor is one constructor with no contents.
- A 0-dimensional tensor is not represented: every `Tensor` has a first dimension, so the `IndexError` that `images.shape[0]` (nodes.py:42) raises on a scalar tensor is not modelled.
- The default argument values (nodes.py:31-33: `frame_rate=8`, `loop_count=0`, `filename_prefix="SplitVideo"`, `format="image/gif"`, `pingpong=False`, `save_output=True`, `audio=None`, `vae=None`) are not modelled as defaults. An omitted argument is modelled by passing its default value explicitly; every contract holds for all values, defaults included.
- The forwarded arguments (`frame_rate`, a float, and `loop_count`, `format`, `pingpong`, `audio`, `vae`, `**kwargs`) are carried as one opaque value, because the node never inspects them.
- `split_num` outside 1..100 is excluded by a precondition, because the node's input declaration (nodes.py:11) enforces that range. With 0 the source would divide by zero.
- Some Python dynamic typing in the reply is not modelled. The entries of `result["result"]` are taken to be tuples, and the `"gifs"` entry a list. A second tuple element that is a string, which `extend` would split into characters, is not represented.
- The node registration metadata (`INPUT_TYPES`, `RETURN_TYPES`, `NODE_CLASS_MAPPINGS`, nodes.py:6-29, 99-101) is not modelled, except for the `split_num` range.
- `web/js/video_preview.js` is not modelled. It is front-end DOM code with no logic of the node.
- Rollback of files written by earlier slices when a later call raises is not modelled, because the source does none.
