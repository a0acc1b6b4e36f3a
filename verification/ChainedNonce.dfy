/** What a chained nonce is on bytes, and what it binds. */
module Chains {
  import opened Wrappers
  import opened Primitives
  import opened Crypto
  import opened PlainWire
  import opened MerkleBinding
  import Frames
  import R = Responses
  import ResponseFrames

  lemma ReplyIsPlain(r: R.Response, message: Bytes)
    requires r.Sized() && message == R.Encode(r)
    ensures message == PlainResponse(r) && |message| < 0x1_0000_0000 && ResponseFrames.ToFrame(r) == PlainFrame(message)
  {
    ResponseFrames.SizeBound(r);
    ResponseIsPlain(r);
    FrameIsPlain(message);
  }

  /** The frame of a response, written out. */
  function PlainReply(r: R.Response): (b: Bytes)
    requires r.Sized()
    ensures b == ResponseFrames.ToFrame(r)
  {
    ReplyIsPlain(r, R.Encode(r));
    PlainFrame(PlainResponse(r))
  }

  /** What is hashed is the frame of the prior response and the 32 random bytes behind it. */
  lemma ChainedNonceIsPlain(suite: Suite, prior: R.Response, rand: Bytes32)
    requires prior.Sized()
    ensures ChainedNonce(suite, prior, rand) == suite.digest(PlainReply(prior) + rand)
  {
  }

  /**
    The hashed string begins with the bytes that were received exactly when nothing trailed the
    message, its announced length was its length and no version was sent as the legacy zero.
  */
  lemma ChainedNonceOfReceived(suite: Suite, b: Bytes, r: R.Response, rest: Bytes, rand: Bytes32)
    requires ResponseFrames.FromFrame(b) == Ok((r, rest))
    ensures r.Sized() && |b| >= Frames.FRAME_OVERHEAD && Frames.Unframe(b).Ok? && R.Decode(Frames.Unframe(b).value).Ok?
    ensures var asSent := rest == [] && Frames.Announced(b) == |b| - Frames.FRAME_OVERHEAD && R.LegacyFree(Frames.Unframe(b).value);
            && (PlainReply(r) + rand == b + rand <==> asSent)
            && (asSent ==> ChainedNonce(suite, r, rand) == suite.digest(b + rand))
  {
    hide PlainReply, ChainedNonce, R.Decode, R.LegacyFree, Frames.Announced;
    Frames.FrameUnframed(b);
    ResponseFrames.FrameReprints(b);
    ChainedNonceIsPlain(suite, r, rand);
    SameSplit(PlainReply(r), rand, b, rand);
  }

  /** A chained nonce binds the whole frame of the prior response and the random bytes, or the digest collides on the two strings. */
  lemma ChainBinds(suite: Suite, r1: R.Response, rand1: Bytes32, r2: R.Response, rand2: Bytes32)
    requires r1.Sized() && r2.Sized() && ChainedNonce(suite, r1, rand1) == ChainedNonce(suite, r2, rand2)
    ensures || (PlainReply(r1) == PlainReply(r2) && rand1 == rand2)
            || DigestCollision(suite.digest, PlainReply(r1) + rand1, PlainReply(r2) + rand2)
  {
    ChainedNonceIsPlain(suite, r1, rand1);
    ChainedNonceIsPlain(suite, r2, rand2);
    SameSplit(PlainReply(r1), rand1, PlainReply(r2), rand2);
  }

  /** The commitment of a request binds the server's key, or the digest collides on the two strings. */
  lemma CommitmentBinds(suite: Suite, key1: Bytes32, key2: Bytes32)
    requires SrvCommitment(suite, key1) == SrvCommitment(suite, key2)
    ensures key1 == key2 || DigestCollision(suite.digest, [0xff] + key1, [0xff] + key2)
  {
    SameFront([0xff], key1, key2);
  }

  /** Of responses that come back from their frames, it binds every field. */
  lemma SameFrameSameResponse(r1: R.Response, r2: R.Response)
    requires r1.Sized() && r2.Sized() && R.Coherent(r1, 0) && R.Coherent(r2, 0) && PlainReply(r1) == PlainReply(r2)
    ensures r1 == r2
  {
    ResponseFrames.FrameRoundTrip(r1);
    ResponseFrames.FrameRoundTrip(r2);
  }
}
