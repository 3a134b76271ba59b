/** The near-equal partition of a frame batch into `splitNum` contiguous
    slices, with the remainder given to the first slices
    (nodes.py, `split_and_combine`, lines 46-59 and 90). */
module Partition {

  /** In-order concatenation of a sequence of sequences. */
  function Concat<X>(ss: seq<seq<X>>): (r: seq<X>)
    decreases |ss|
  {
    if |ss| == 0 then [] else ss[0] + Concat(ss[1..])
  }

  /** Frames in slice `i`: `batch_size // split_num`, plus one for the first
      `batch_size % split_num` slices. */
  function SliceLength(batchSize: nat, splitNum: nat, i: nat): nat
    requires splitNum > 0
  {
    batchSize / splitNum + (if i < batchSize % splitNum then 1 else 0)
  }

  /** The value of `start_idx` when slice `i` is cut: the sum of the lengths
      of the slices before it. */
  function SliceStart(batchSize: nat, splitNum: nat, i: nat): nat
    requires splitNum > 0
    decreases i
  {
    if i == 0 then 0
    else SliceStart(batchSize, splitNum, i - 1) + SliceLength(batchSize, splitNum, i - 1)
  }

  /** Every slice has `q` or `q + 1` frames, and exactly the slices with
      `i < r` have `q + 1`. */
  lemma SliceLengthBounds(batchSize: nat, splitNum: nat, i: nat)
    requires splitNum > 0
    ensures batchSize / splitNum <= SliceLength(batchSize, splitNum, i) <= batchSize / splitNum + 1
    ensures SliceLength(batchSize, splitNum, i) == batchSize / splitNum + 1 <==> i < batchSize % splitNum
  {
  }

  /** When there are at least as many frames as slices, no slice is empty. */
  lemma SliceNonEmpty(batchSize: nat, splitNum: nat, i: nat)
    requires 0 < splitNum <= batchSize
    ensures SliceLength(batchSize, splitNum, i) >= 1
  {
  }

  /** Closed form of `start_idx`: `i * q + min(i, r)`. */
  lemma {:induction false} SliceStartClosedForm(batchSize: nat, splitNum: nat, i: nat)
    requires splitNum > 0
    ensures SliceStart(batchSize, splitNum, i)
         == i * (batchSize / splitNum) + (if i < batchSize % splitNum then i else batchSize % splitNum)
  {
    if i > 0 {
      SliceStartClosedForm(batchSize, splitNum, i - 1);
      assert i * (batchSize / splitNum) == (i - 1) * (batchSize / splitNum) + batchSize / splitNum;
    }
  }

  /** The last slice ends exactly at the end of the batch. */
  lemma SlicesCoverBatch(batchSize: nat, splitNum: nat)
    requires splitNum > 0
    ensures SliceStart(batchSize, splitNum, splitNum) == batchSize
  {
    SliceStartClosedForm(batchSize, splitNum, splitNum);
    assert batchSize == splitNum * (batchSize / splitNum) + batchSize % splitNum;
  }

  /** Slice starts never decrease, and none passes the end of the batch. */
  lemma {:induction false} SliceStartMonotone(batchSize: nat, splitNum: nat, i: nat, j: nat)
    requires splitNum > 0 && i <= j <= splitNum
    ensures SliceStart(batchSize, splitNum, i) <= SliceStart(batchSize, splitNum, j) <= batchSize
    decreases splitNum - i
  {
    if i < j {
      SliceStartMonotone(batchSize, splitNum, i + 1, j);
    } else if j < splitNum {
      SliceStartMonotone(batchSize, splitNum, j + 1, splitNum);
    } else {
      SlicesCoverBatch(batchSize, splitNum);
    }
  }

  /** Slice `i` of the batch: `images[start_idx:end_idx]`. */
  function Slice<F>(images: seq<F>, splitNum: nat, i: nat): (r: seq<F>)
    requires 0 <= i < splitNum
    ensures |r| == SliceLength(|images|, splitNum, i)
    ensures SliceStart(|images|, splitNum, i) + |r| == SliceStart(|images|, splitNum, i + 1) <= |images|
    ensures forall t :: 0 <= t < |r| ==> r[t] == images[SliceStart(|images|, splitNum, i) + t]
  {
    var start := SliceStart(|images|, splitNum, i);
    var end := SliceStart(|images|, splitNum, i + 1);
    SliceStartMonotone(|images|, splitNum, i + 1, splitNum);
    assert end == start + SliceLength(|images|, splitNum, i);
    images[start..end]
  }

  /** The `splitNum` slices in order. */
  function Slices<F>(images: seq<F>, splitNum: nat): (r: seq<seq<F>>)
    requires splitNum > 0
    ensures |r| == splitNum
  {
    seq(splitNum, i requires 0 <= i < splitNum => Slice(images, splitNum, i))
  }

  /** The slices from `i` on, concatenated, are the batch from the start of
      slice `i` on. */
  lemma {:induction false} SlicesConcatFrom<F>(images: seq<F>, splitNum: nat, i: nat)
    requires 0 < splitNum && i <= splitNum
    ensures SliceStart(|images|, splitNum, i) <= |images|
    ensures Concat(Slices(images, splitNum)[i..]) == images[SliceStart(|images|, splitNum, i)..]
    decreases splitNum - i
  {
    var n := |images|;
    var ss := Slices(images, splitNum);
    SliceStartMonotone(n, splitNum, i, splitNum);
    if i == splitNum {
      SlicesCoverBatch(n, splitNum);
      assert ss[i..] == [];
    } else {
      SlicesConcatFrom(images, splitNum, i + 1);
      SliceStartMonotone(n, splitNum, i + 1, splitNum);
      assert ss[i..][1..] == ss[i + 1..];
      calc {
        Concat(ss[i..]);
        ss[i] + Concat(ss[i + 1..]);
        images[SliceStart(n, splitNum, i)..SliceStart(n, splitNum, i + 1)] + images[SliceStart(n, splitNum, i + 1)..];
        images[SliceStart(n, splitNum, i)..];
      }
    }
  }

  /** The slices, concatenated in order, give back the batch: no frame is
      lost or duplicated. */
  lemma SlicesReconstructBatch<F>(images: seq<F>, splitNum: nat)
    requires splitNum > 0
    ensures Concat(Slices(images, splitNum)) == images
  {
    SlicesConcatFrom(images, splitNum, 0);
    assert Slices(images, splitNum)[0..] == Slices(images, splitNum);
  }

  /** Worked examples: 10 frames in 3 slices are 4, 3, 3; 5 frames in 5
      slices are 1 each. */
  lemma PartitionExamples()
    ensures SliceLength(10, 3, 0) == 4 && SliceLength(10, 3, 1) == 3 && SliceLength(10, 3, 2) == 3
    ensures SliceStart(10, 3, 1) == 4 && SliceStart(10, 3, 2) == 7 && SliceStart(10, 3, 3) == 10
    ensures forall i :: 0 <= i < 5 ==> SliceLength(5, 5, i) == 1
  {
  }
}
