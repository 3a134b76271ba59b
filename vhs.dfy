/** The video-combine collaborator that the node calls once per slice
    (`vhs_videocombine.combine_video`, nodes.py lines 65-76). Its encoding
    work is opaque: what it returns is given by `respond`, a function of
    every call the object has received before and of the current call, so
    an encoder that keeps state between calls is covered. */
module Vhs {
  import opened Wrappers

  /** One call to `combine_video`: the slice of frames, the slice's file name
      prefix, `save_output`, and the arguments the node forwards without
      looking at them (frame_rate, loop_count, format, pingpong, audio, vae
      and the extra keyword arguments), bundled as `forwarded`. */
  datatype Call<F, A> = Call(images: seq<F>, filenamePrefix: string, saveOutput: bool, forwarded: A)

  /** An element of the first tuple of the reply's `"result"` entry: the
      encoder puts `save_output` first and the list of written files second. */
  datatype Field = Flag(value: bool) | Names(names: seq<string>)

  /** The reply dictionary. `result` is the `"result"` entry (None when the
      key is absent; an empty sequence when it is present but empty), `ui` the
      `"ui"` entry, a dictionary whose `"gifs"` entry lists preview
      descriptors. A reply of `None` or `{}` is `Envelope(None, None)`. */
  datatype Envelope<P> = Envelope(result: Option<seq<seq<Field>>>, ui: Option<map<string, seq<P>>>)

  /** A call either returns an envelope or raises. */
  datatype Reply<P> = Returned(envelope: Envelope<P>) | Raised(message: string)

  class VideoCombine<F, A, P> {
    /** Every call this object has received, oldest first. */
    var calls: seq<Call<F, A>>
    /** The reply to a call, given the calls received before it. */
    const respond: (seq<Call<F, A>>, Call<F, A>) -> Reply<P>

    constructor (respond: (seq<Call<F, A>>, Call<F, A>) -> Reply<P>)
      ensures this.respond == respond && calls == []
    {
      this.respond := respond;
      calls := [];
    }

    method CombineVideo(call: Call<F, A>) returns (reply: Reply<P>)
      modifies this
      ensures calls == old(calls) + [call]
      ensures reply == respond(old(calls), call)
    {
      reply := respond(calls, call);
      calls := calls + [call];
    }
  }
}
