/** The `VideoSplitCombine` node (nodes.py lines 31-96): validate the frame
    batch, cut it into `split_num` contiguous slices, call the encoder once
    per slice in order, and gather the file names and GIF previews of the
    replies into one result. */
module VideoSplitCombine {
  import opened Wrappers
  import opened Partition
  import opened Naming
  import opened Vhs

  /** The `images` argument: a tensor whose first dimension lists the frames,
      or any other value. */
  datatype Images<F> = Tensor(frames: seq<F>) | NotTensor

  /** What the node raises. */
  datatype Error =
    | NotATensor                                   // ValueError, line 40
    | TooFewFrames(batchSize: nat, splitNum: nat)  // ValueError, line 44
    | EncoderRaised(message: string)               // propagated from combine_video
    | FilenamesNotIterable                         // TypeError from `extend` on a non-list, line 83

  /** The node's return value `{"result": ((save_output, all_filenames),),
      "ui": {"gifs": all_gifs}}`. */
  datatype NodeOutput<P> = NodeOutput(result: seq<(bool, seq<string>)>, ui: map<string, seq<P>>)

  function Wrap<P>(saveOutput: bool, filenames: seq<string>, gifs: seq<P>): (r: NodeOutput<P>)
    ensures |r.result| == 1 && r.result[0].0 == saveOutput && r.result[0].1 == filenames
    ensures r.ui.Keys == {"gifs"} && r.ui["gifs"] == gifs
  {
    NodeOutput([(saveOutput, filenames)], map["gifs" := gifs])
  }

  // ---------------------------------------------------------------------
  // The calls the node makes

  /** The calls for all slices, in slice order: slice `i` of the frames,
      prefix `PartPrefix(filenamePrefix, i)`, the other arguments unchanged. */
  function Plan<F, A>(frames: seq<F>, splitNum: nat, filenamePrefix: string, saveOutput: bool, forwarded: A)
    : (plan: seq<Call<F, A>>)
    requires splitNum > 0
    ensures |plan| == splitNum
  {
    seq(splitNum, i requires 0 <= i < splitNum =>
      Call(Slice(frames, splitNum, i), PartPrefix(filenamePrefix, i), saveOutput, forwarded))
  }

  function ImagesOf<F, A>(calls: seq<Call<F, A>>): (r: seq<seq<F>>)
    ensures |r| == |calls|
  {
    seq(|calls|, i requires 0 <= i < |calls| => calls[i].images)
  }

  /** The slices handed to the encoder, concatenated in call order, are the
      whole batch: they start at frame 0, each starts where the previous one
      ends, and the last ends at `batch_size`. */
  lemma PlanTilesBatch<F, A>(frames: seq<F>, splitNum: nat, filenamePrefix: string, saveOutput: bool, forwarded: A)
    requires splitNum > 0
    ensures Concat(ImagesOf(Plan(frames, splitNum, filenamePrefix, saveOutput, forwarded))) == frames
  {
    var plan := Plan(frames, splitNum, filenamePrefix, saveOutput, forwarded);
    assert ImagesOf(plan) == Slices(frames, splitNum);
    SlicesReconstructBatch(frames, splitNum);
  }

  /** Slice sizes: each is `q` or `q + 1` frames, exactly the first `r` are
      `q + 1`, and none is empty when the batch passed validation. */
  lemma PlanSliceSizes<F, A>(frames: seq<F>, splitNum: nat, filenamePrefix: string, saveOutput: bool, forwarded: A, i: nat)
    requires 0 <= i < splitNum
    ensures var size := |Plan(frames, splitNum, filenamePrefix, saveOutput, forwarded)[i].images|;
      var q, r := |frames| / splitNum, |frames| % splitNum;
      (size == q || size == q + 1) && (size == q + 1 <==> i < r) && (splitNum <= |frames| ==> size >= 1)
  {
    SliceLengthBounds(|frames|, splitNum, i);
    if splitNum <= |frames| {
      SliceNonEmpty(|frames|, splitNum, i);
    }
  }

  /** Every call gets its own file name prefix, and every other argument is
      passed through unchanged. */
  lemma PlanPrefixesDistinct<F, A>(frames: seq<F>, splitNum: nat, filenamePrefix: string, saveOutput: bool, forwarded: A)
    requires splitNum > 0
    ensures var plan := Plan(frames, splitNum, filenamePrefix, saveOutput, forwarded);
      forall i, j :: 0 <= i < j < splitNum ==> plan[i].filenamePrefix != plan[j].filenamePrefix
    ensures var plan := Plan(frames, splitNum, filenamePrefix, saveOutput, forwarded);
      forall i :: 0 <= i < splitNum ==>
        plan[i].filenamePrefix == PartPrefix(filenamePrefix, i) &&
        plan[i].saveOutput == saveOutput && plan[i].forwarded == forwarded
  {
    var plan := Plan(frames, splitNum, filenamePrefix, saveOutput, forwarded);
    forall i, j | 0 <= i < j < splitNum
      ensures plan[i].filenamePrefix != plan[j].filenamePrefix
    {
      if PartPrefix(filenamePrefix, i) == PartPrefix(filenamePrefix, j) {
        PartPrefixInjective(filenamePrefix, i, j);
      }
    }
  }

  // ---------------------------------------------------------------------
  // Reading one reply (lines 79-88)

  /** The file names and previews one reply adds: the second element of the
      first result tuple when the tuple has at least two elements, and the
      `"gifs"` list of the UI section; neither when there is no `"result"`. */
  function Contribution<P>(env: Envelope<P>): (r: Result<(seq<string>, seq<P>), Error>)
    ensures env.result.None? ==> r == Ok(([], []))
    ensures r.Err? ==> r.error == FilenamesNotIterable
  {
    match env.result
    case None => Ok(([], []))
    case Some(resultTuple) =>
      var hasNames := |resultTuple| > 0 && |resultTuple[0]| >= 2;
      if hasNames && resultTuple[0][1].Flag? then Err(FilenamesNotIterable)
      else
        var names := if hasNames then resultTuple[0][1].names else [];
        var gifs := if env.ui.Some? && "gifs" in env.ui.value then env.ui.value["gifs"] else [];
        Ok((names, gifs))
  }

  /** What the node makes of one reply: a raise propagates; a returned
      envelope gives its contribution or the error of reading it. */
  function ReadReply<P>(reply: Reply<P>): (r: Result<(seq<string>, seq<P>), Error>)
    ensures reply.Raised? ==> r == Err(EncoderRaised(reply.message))
  {
    if reply.Raised? then Err(EncoderRaised(reply.message)) else Contribution(reply.envelope)
  }

  /** Issue `plan` in order to an encoder that has seen `history`, extending
      the accumulated file names and previews; a raise, or a reply the node
      cannot read, ends the run with that error. Returns the outcome and the
      encoder's history afterwards. */
  function Dispatch<F, A, P>(respond: (seq<Call<F, A>>, Call<F, A>) -> Reply<P>, history: seq<Call<F, A>>,
                             plan: seq<Call<F, A>>, filenames: seq<string>, gifs: seq<P>)
    : (Result<(seq<string>, seq<P>), Error>, seq<Call<F, A>>)
    decreases |plan|
  {
    if |plan| == 0 then (Ok((filenames, gifs)), history)
    else
      var step := ReadReply(respond(history, plan[0]));
      var log := history + [plan[0]];
      if step.Err? then (Err(step.error), log)
      else Dispatch(respond, log, plan[1..], filenames + step.value.0, gifs + step.value.1)
  }

  /** One step of `Dispatch`: the first call of the plan is issued, and the
      run goes on with the rest only when its reply was readable. */
  lemma DispatchStep<F, A, P>(respond: (seq<Call<F, A>>, Call<F, A>) -> Reply<P>, history: seq<Call<F, A>>,
                              plan: seq<Call<F, A>>, filenames: seq<string>, gifs: seq<P>)
    requires |plan| > 0
    ensures var step := ReadReply(respond(history, plan[0]));
      var log := history + [plan[0]];
      Dispatch(respond, history, plan, filenames, gifs)
        == if step.Err? then (Err(step.error), log)
           else Dispatch(respond, log, plan[1..], filenames + step.value.0, gifs + step.value.1)
  {
  }

  /** The whole node: its result and the encoder's call history afterwards. */
  function Outcome<F, A, P>(respond: (seq<Call<F, A>>, Call<F, A>) -> Reply<P>, history: seq<Call<F, A>>,
                            images: Images<F>, splitNum: nat, filenamePrefix: string, saveOutput: bool, forwarded: A)
    : (Result<NodeOutput<P>, Error>, seq<Call<F, A>>)
    requires 1 <= splitNum <= 100
  {
    if images.NotTensor? then (Err(NotATensor), history)
    else if |images.frames| < splitNum then (Err(TooFewFrames(|images.frames|, splitNum)), history)
    else
      var (res, log) := Dispatch(respond, history, Plan(images.frames, splitNum, filenamePrefix, saveOutput, forwarded), [], []);
      match res
      case Ok((filenames, gifs)) => (Ok(Wrap(saveOutput, filenames, gifs)), log)
      case Err(e) => (Err(e), log)
  }

  // ---------------------------------------------------------------------
  // The node's loop

  /** Lines 79-88 for one returned reply: when it has a `"result"` entry,
      extend the accumulated file names by the second element of the first
      result tuple (if that tuple has at least two elements) and the
      accumulated previews by the `"gifs"` list of its UI section (if
      present). */
  method CollectReply<P>(result: Envelope<P>, allFilenames: seq<string>, allGifs: seq<P>)
    returns (r: Result<(seq<string>, seq<P>), Error>)
    ensures r.Ok? <==> Contribution(result).Ok?
    ensures r.Ok? ==> r.value == (allFilenames + Contribution(result).value.0, allGifs + Contribution(result).value.1)
    ensures r.Err? ==> r.error == Contribution(result).error
  {
    var filenamesOut, gifsOut := allFilenames, allGifs;
    assert allFilenames + [] == allFilenames && allGifs + [] == allGifs;
    if result.result.Some? {
      var resultTuple: seq<seq<Field>> := result.result.value;
      if |resultTuple| > 0 && |resultTuple[0]| >= 2 {
        var filenames: Field := resultTuple[0][1];
        if filenames.Flag? {
          return Err(FilenamesNotIterable);
        }
        filenamesOut := filenamesOut + filenames.names;
      }
      if result.ui.Some? && "gifs" in result.ui.value {
        var gifsInfo := result.ui.value["gifs"];
        gifsOut := gifsOut + gifsInfo;
      }
    }
    return Ok((filenamesOut, gifsOut));
  }

  /** `split_and_combine`. The encoder is passed in already resolved; the
      bounds on `splitNum` are those the node declares for its input. */
  method SplitAndCombine<F, A, P>(encoder: VideoCombine<F, A, P>, images: Images<F>, splitNum: nat,
                                  filenamePrefix: string, saveOutput: bool, forwarded: A)
    returns (r: Result<NodeOutput<P>, Error>)
    requires 1 <= splitNum <= 100
    modifies encoder
    ensures (r, encoder.calls) == Outcome(encoder.respond, old(encoder.calls), images, splitNum, filenamePrefix, saveOutput, forwarded)
  {
    if images.NotTensor? {
      return Err(NotATensor);
    }
    var frames := images.frames;
    var batchSize := |frames|;
    if batchSize < splitNum {
      return Err(TooFewFrames(batchSize, splitNum));
    }
    var framesPerSplit := batchSize / splitNum;
    var remainder := batchSize % splitNum;
    var allFilenames: seq<string> := [];
    var allGifs: seq<P> := [];
    ghost var plan := Plan(frames, splitNum, filenamePrefix, saveOutput, forwarded);
    ghost var whole := Dispatch(encoder.respond, encoder.calls, plan, [], []);
    var startIdx := 0;
    for i := 0 to splitNum
      invariant startIdx == SliceStart(batchSize, splitNum, i)
      invariant whole == Dispatch(encoder.respond, encoder.calls, plan[i..], allFilenames, allGifs)
    {
      var currentFrames := framesPerSplit + (if i < remainder then 1 else 0);
      var endIdx := startIdx + currentFrames;
      SliceStartMonotone(batchSize, splitNum, i + 1, splitNum);
      var splitImages := frames[startIdx..endIdx];
      var splitFilenamePrefix := PartPrefix(filenamePrefix, i);
      var call := Call(splitImages, splitFilenamePrefix, saveOutput, forwarded);
      assert endIdx == SliceStart(batchSize, splitNum, i + 1);
      assert splitImages == Slice(frames, splitNum, i);
      assert call == plan[i];
      ghost var history := encoder.calls;
      var reply := encoder.CombineVideo(call);
      DispatchStep(encoder.respond, history, plan[i..], allFilenames, allGifs);
      if reply.Raised? {
        return Err(EncoderRaised(reply.message));
      }
      var collected := CollectReply(reply.envelope, allFilenames, allGifs);
      if collected.Err? {
        return Err(collected.error);
      }
      allFilenames, allGifs := collected.value.0, collected.value.1;
      assert plan[i..][1..] == plan[i + 1..];
      startIdx := endIdx;
    }
    return Ok(Wrap(saveOutput, allFilenames, allGifs));
  }

  // ---------------------------------------------------------------------
  // What the node computes, stated without the loop

  /** The replies the encoder gives to `plan` issued in order after `history`
      (past the first one the node cannot use, these are replies to calls the
      node never makes). */
  function Replies<F, A, P>(respond: (seq<Call<F, A>>, Call<F, A>) -> Reply<P>, history: seq<Call<F, A>>,
                            plan: seq<Call<F, A>>): (rs: seq<Reply<P>>)
    ensures |rs| == |plan|
    decreases |plan|
  {
    if |plan| == 0 then []
    else [respond(history, plan[0])] + Replies(respond, history + [plan[0]], plan[1..])
  }

  /** A reply the node reads without raising. */
  predicate Usable<P>(reply: Reply<P>) {
    ReadReply(reply).Ok?
  }

  /** The error the node raises on a reply it cannot use. */
  function Failure<P>(reply: Reply<P>): Error
    requires !Usable(reply)
  {
    ReadReply(reply).error
  }

  function FileNames<P>(rs: seq<Reply<P>>): (r: seq<seq<string>>)
    ensures |r| == |rs|
  {
    seq(|rs|, i requires 0 <= i < |rs| => if Usable(rs[i]) then ReadReply(rs[i]).value.0 else [])
  }

  function Previews<P>(rs: seq<Reply<P>>): (r: seq<seq<P>>)
    ensures |r| == |rs|
  {
    seq(|rs|, i requires 0 <= i < |rs| => if Usable(rs[i]) then ReadReply(rs[i]).value.1 else [])
  }

  /** The index of the first reply the node cannot use, or `|rs|`. */
  function FirstUnusable<P>(rs: seq<Reply<P>>): (j: nat)
    ensures j <= |rs|
    ensures j < |rs| ==> !Usable(rs[j])
    decreases |rs|
  {
    if |rs| == 0 || !Usable(rs[0]) then 0 else 1 + FirstUnusable(rs[1..])
  }

  /** Every reply before `FirstUnusable(rs)` is usable. */
  lemma {:induction false} FirstUnusableIsFirst<P>(rs: seq<Reply<P>>)
    ensures forall i :: 0 <= i < FirstUnusable(rs) ==> Usable(rs[i])
    decreases |rs|
  {
    if |rs| > 0 && Usable(rs[0]) {
      FirstUnusableIsFirst(rs[1..]);
      forall i | 0 <= i < FirstUnusable(rs) ensures Usable(rs[i]) {
        if i > 0 { assert rs[i] == rs[1..][i - 1]; }
      }
    }
  }

  /** When every reply is usable, the run issues the whole plan, and its
      file names and previews are the accumulated ones followed by the
      in-order concatenation of every reply's contribution. */
  lemma {:induction false} DispatchSucceeds<F, A, P>(respond: (seq<Call<F, A>>, Call<F, A>) -> Reply<P>,
                                                     history: seq<Call<F, A>>, plan: seq<Call<F, A>>,
                                                     filenames: seq<string>, gifs: seq<P>)
    requires FirstUnusable(Replies(respond, history, plan)) == |plan|
    ensures var rs := Replies(respond, history, plan);
      Dispatch(respond, history, plan, filenames, gifs)
        == (Ok((filenames + Concat(FileNames(rs)), gifs + Concat(Previews(rs)))), history + plan)
    decreases |plan|
  {
    var rs := Replies(respond, history, plan);
    if |plan| == 0 {
      assert history + plan == history;
      assert filenames + Concat(FileNames(rs)) == filenames;
      assert gifs + Concat(Previews(rs)) == gifs;
    } else {
      DispatchStep(respond, history, plan, filenames, gifs);
      var log := history + [plan[0]];
      var c := ReadReply(rs[0]).value;
      var rest := Replies(respond, log, plan[1..]);
      assert rs[1..] == rest;
      DispatchSucceeds(respond, log, plan[1..], filenames + c.0, gifs + c.1);
      ContributionsCons(rs);
      assert log + plan[1..] == history + plan;
      assert filenames + c.0 + Concat(FileNames(rest)) == filenames + Concat(FileNames(rs));
      assert gifs + c.1 + Concat(Previews(rest)) == gifs + Concat(Previews(rs));
    }
  }

  /** When some reply is unusable, the run issues the plan up to and
      including the first such reply, raises that reply's error and returns
      nothing else. */
  lemma {:induction false} DispatchFails<F, A, P>(respond: (seq<Call<F, A>>, Call<F, A>) -> Reply<P>,
                                                  history: seq<Call<F, A>>, plan: seq<Call<F, A>>,
                                                  filenames: seq<string>, gifs: seq<P>)
    requires FirstUnusable(Replies(respond, history, plan)) < |plan|
    ensures var rs := Replies(respond, history, plan);
      var j := FirstUnusable(rs);
      Dispatch(respond, history, plan, filenames, gifs) == (Err(Failure(rs[j])), history + plan[..j + 1])
    decreases |plan|
  {
    var rs := Replies(respond, history, plan);
    DispatchStep(respond, history, plan, filenames, gifs);
    var log := history + [plan[0]];
    assert rs[0] == respond(history, plan[0]);
    if Usable(rs[0]) {
      var c := ReadReply(rs[0]).value;
      var rest := Replies(respond, log, plan[1..]);
      assert rs[1..] == rest;
      DispatchFails(respond, log, plan[1..], filenames + c.0, gifs + c.1);
      var j := FirstUnusable(rest);
      assert FirstUnusable(rs) == j + 1;
      assert rs[j + 1] == rest[j];
      PrefixShift(history, plan, j);
    } else {
      assert plan[..1] == [plan[0]];
    }
  }

  lemma PrefixShift<X>(history: seq<X>, plan: seq<X>, j: nat)
    requires j + 1 < |plan|
    ensures (history + [plan[0]]) + plan[1..][..j + 1] == history + plan[..j + 2]
  {
    assert plan[..j + 2] == [plan[0]] + plan[1..][..j + 1];
  }

  /** Splitting off the contribution of a usable first reply. */
  lemma ContributionsCons<P>(rs: seq<Reply<P>>)
    requires |rs| > 0 && Usable(rs[0])
    ensures Concat(FileNames(rs)) == ReadReply(rs[0]).value.0 + Concat(FileNames(rs[1..]))
    ensures Concat(Previews(rs)) == ReadReply(rs[0]).value.1 + Concat(Previews(rs[1..]))
  {
    assert FileNames(rs)[1..] == FileNames(rs[1..]);
    assert Previews(rs)[1..] == Previews(rs[1..]);
  }

  /** Validation: a non-tensor input, and a batch with fewer frames than
      slices (an empty batch among them, since `splitNum >= 1`), raise
      before the encoder is called. */
  lemma OutcomeRejects<F, A, P>(respond: (seq<Call<F, A>>, Call<F, A>) -> Reply<P>, history: seq<Call<F, A>>,
                                images: Images<F>, splitNum: nat, filenamePrefix: string, saveOutput: bool, forwarded: A)
    requires 1 <= splitNum <= 100
    ensures images.NotTensor? ==>
      Outcome(respond, history, images, splitNum, filenamePrefix, saveOutput, forwarded) == (Err(NotATensor), history)
    ensures images.Tensor? && |images.frames| < splitNum ==>
      Outcome(respond, history, images, splitNum, filenamePrefix, saveOutput, forwarded)
        == (Err(TooFewFrames(|images.frames|, splitNum)), history)
    ensures images == Tensor([]) ==>
      Outcome(respond, history, images, splitNum, filenamePrefix, saveOutput, forwarded).0 == Err(TooFewFrames(0, splitNum))
  {
  }

  /** When the batch passes validation and every reply is usable, the node
      sends all `splitNum` planned calls and returns `save_output` with the
      in-order concatenation of the replies' file names and, under "gifs",
      of their previews. */
  lemma OutcomeSucceeds<F, A, P>(respond: (seq<Call<F, A>>, Call<F, A>) -> Reply<P>, history: seq<Call<F, A>>,
                                 frames: seq<F>, splitNum: nat, filenamePrefix: string, saveOutput: bool, forwarded: A)
    requires 1 <= splitNum <= 100 && splitNum <= |frames|
    requires FirstUnusable(Replies(respond, history, Plan(frames, splitNum, filenamePrefix, saveOutput, forwarded))) == splitNum
    ensures var plan := Plan(frames, splitNum, filenamePrefix, saveOutput, forwarded);
      var rs := Replies(respond, history, plan);
      Outcome(respond, history, Tensor(frames), splitNum, filenamePrefix, saveOutput, forwarded)
        == (Ok(Wrap(saveOutput, Concat(FileNames(rs)), Concat(Previews(rs)))), history + plan)
  {
    var plan := Plan(frames, splitNum, filenamePrefix, saveOutput, forwarded);
    var rs := Replies(respond, history, plan);
    DispatchSucceeds(respond, history, plan, [], []);
    assert [] + Concat(FileNames(rs)) == Concat(FileNames(rs));
    assert [] + Concat(Previews(rs)) == Concat(Previews(rs));
  }

  /** When the batch passes validation and reply `j` is the first the node
      cannot use (a raise, or a file list it cannot extend by), the node sends
      the planned calls `0..j` and raises that reply's error, with no partial
      result. */
  lemma OutcomeFails<F, A, P>(respond: (seq<Call<F, A>>, Call<F, A>) -> Reply<P>, history: seq<Call<F, A>>,
                              frames: seq<F>, splitNum: nat, filenamePrefix: string, saveOutput: bool, forwarded: A)
    requires 1 <= splitNum <= 100 && splitNum <= |frames|
    requires FirstUnusable(Replies(respond, history, Plan(frames, splitNum, filenamePrefix, saveOutput, forwarded))) < splitNum
    ensures var plan := Plan(frames, splitNum, filenamePrefix, saveOutput, forwarded);
      var rs := Replies(respond, history, plan);
      var j := FirstUnusable(rs);
      Outcome(respond, history, Tensor(frames), splitNum, filenamePrefix, saveOutput, forwarded)
        == (Err(Failure(rs[j])), history + plan[..j + 1])
  {
    DispatchFails(respond, history, Plan(frames, splitNum, filenamePrefix, saveOutput, forwarded), [], []);
  }

  /** An encoder call that raises ends the node: when the first unusable
      reply is a raise, the node makes the calls up to and including it and
      raises that message, with no partial result. */
  lemma OutcomeRaises<F, A, P>(respond: (seq<Call<F, A>>, Call<F, A>) -> Reply<P>, history: seq<Call<F, A>>,
                               frames: seq<F>, splitNum: nat, filenamePrefix: string, saveOutput: bool, forwarded: A,
                               message: string)
    requires 1 <= splitNum <= 100 && splitNum <= |frames|
    requires var rs := Replies(respond, history, Plan(frames, splitNum, filenamePrefix, saveOutput, forwarded));
      FirstUnusable(rs) < splitNum && rs[FirstUnusable(rs)] == Raised(message)
    ensures var plan := Plan(frames, splitNum, filenamePrefix, saveOutput, forwarded);
      var j := FirstUnusable(Replies(respond, history, plan));
      Outcome(respond, history, Tensor(frames), splitNum, filenamePrefix, saveOutput, forwarded)
        == (Err(EncoderRaised(message)), history + plan[..j + 1])
  {
    OutcomeFails(respond, history, frames, splitNum, filenamePrefix, saveOutput, forwarded);
  }

  /** Whatever happens, the calls the node makes are a prefix of the plan,
      in slice order; it makes none when validation fails, and all
      `splitNum` of them when it returns a result. */
  lemma CallsFollowPlan<F, A, P>(respond: (seq<Call<F, A>>, Call<F, A>) -> Reply<P>, history: seq<Call<F, A>>,
                                 images: Images<F>, splitNum: nat, filenamePrefix: string, saveOutput: bool, forwarded: A)
    requires 1 <= splitNum <= 100
    ensures var (r, log) := Outcome(respond, history, images, splitNum, filenamePrefix, saveOutput, forwarded);
      |history| <= |log| && log[..|history|] == history &&
      (images.NotTensor? || |images.frames| < splitNum ==> log == history) &&
      (images.Tensor? ==>
         var plan := Plan(images.frames, splitNum, filenamePrefix, saveOutput, forwarded);
         |log| - |history| <= splitNum &&
         log[|history|..] == plan[..|log| - |history|] &&
         (r.Ok? ==> log[|history|..] == plan))
  {
    if images.Tensor? && |images.frames| >= splitNum {
      var plan := Plan(images.frames, splitNum, filenamePrefix, saveOutput, forwarded);
      var rs := Replies(respond, history, plan);
      var j := FirstUnusable(rs);
      if j == splitNum {
        OutcomeSucceeds(respond, history, images.frames, splitNum, filenamePrefix, saveOutput, forwarded);
        assert (history + plan)[|history|..] == plan;
      } else {
        OutcomeFails(respond, history, images.frames, splitNum, filenamePrefix, saveOutput, forwarded);
        assert (history + plan[..j + 1])[|history|..] == plan[..j + 1];
      }
    }
  }

  /** The worked example of a failing encoder: when the second of three
      calls raises, the node raises the same error after exactly two calls. */
  lemma EncoderRaisesOnSecondCall<F, A, P>(respond: (seq<Call<F, A>>, Call<F, A>) -> Reply<P>, history: seq<Call<F, A>>,
                                           frames: seq<F>, filenamePrefix: string, saveOutput: bool, forwarded: A, message: string)
    requires |frames| >= 3
    requires var plan := Plan(frames, 3, filenamePrefix, saveOutput, forwarded);
      Usable(respond(history, plan[0])) && respond(history + [plan[0]], plan[1]) == Raised(message)
    ensures var plan := Plan(frames, 3, filenamePrefix, saveOutput, forwarded);
      Outcome(respond, history, Tensor(frames), 3, filenamePrefix, saveOutput, forwarded)
        == (Err(EncoderRaised(message)), history + [plan[0], plan[1]])
  {
    var plan := Plan(frames, 3, filenamePrefix, saveOutput, forwarded);
    var rs := Replies(respond, history, plan);
    assert rs[0] == respond(history, plan[0]);
    assert rs[1..] == Replies(respond, history + [plan[0]], plan[1..]);
    assert plan[1..][0] == plan[1];
    assert rs[1] == respond(history + [plan[0]], plan[1]);
    assert FirstUnusable(rs) == 1;
    OutcomeFails(respond, history, frames, 3, filenamePrefix, saveOutput, forwarded);
    assert plan[..2] == [plan[0], plan[1]];
  }
}
