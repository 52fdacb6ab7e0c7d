/** The Capsule frame codec as the link sees it: a black box that tells the
    encoded length of a payload, encodes a payload with a packet identifier
    into a frame, and decodes a byte stream one byte at a time, reporting a
    frame (identifier and payload) whenever one completes. Its framing,
    checksums and decoder state are not modelled: the decoder state is a
    type parameter and the three operations are fields of a value. */
module Capsule {
  import opened Bytes

  datatype Option<T> = None | Some(value: T)

  /** A completed frame, as the decoder hands it to its callback. */
  datatype Frame = Frame(id: Byte, payload: seq<Byte>)

  datatype FrameCodec<!S> = FrameCodec(
    codedLen: nat -> nat,
    encode: (Byte, seq<Byte>) -> seq<Byte>,
    decode: (S, Byte) -> (S, Option<Frame>))
  {
    /** What the link relies on: `getCodedLen(n)` is the length of the frame
        `encode` produces for an n-byte payload. */
    ghost predicate Valid()
    {
      forall id: Byte, payload: seq<Byte> :: |encode(id, payload)| == codedLen(|payload|)
    }
  }

  /** The frames that one decoder step reports. */
  function Completed(f: Option<Frame>): (fs: seq<Frame>)
    ensures |fs| <= 1
  {
    match f
    case None => []
    case Some(frame) => [frame]
  }

  /** Feeding `bytes` to the decoder one at a time, starting in state `s`:
      the final decoder state and the frames completed on the way, in order. */
  function Drain<S>(decode: (S, Byte) -> (S, Option<Frame>), s: S, bytes: seq<Byte>): (r: (S, seq<Frame>))
    ensures |r.1| <= |bytes|
    decreases |bytes|
  {
    if bytes == [] then (s, [])
    else
      var before := Drain(decode, s, bytes[..|bytes| - 1]);
      var step := decode(before.0, bytes[|bytes| - 1]);
      (step.0, before.1 + Completed(step.1))
  }

  /** Draining in two parts is draining the whole. */
  lemma {:induction false} DrainAppend<S>(decode: (S, Byte) -> (S, Option<Frame>), s: S, xs: seq<Byte>, ys: seq<Byte>)
    ensures Drain(decode, s, xs + ys)
         == (Drain(decode, Drain(decode, s, xs).0, ys).0,
             Drain(decode, s, xs).1 + Drain(decode, Drain(decode, s, xs).0, ys).1)
    decreases |ys|
  {
    if ys == [] {
      assert xs + ys == xs;
      var mid := Drain(decode, s, xs);
      assert Drain(decode, mid.0, ys) == (mid.0, []);
      assert mid.1 + [] == mid.1;
    } else {
      var ys' := ys[..|ys| - 1];
      assert (xs + ys)[..|xs + ys| - 1] == xs + ys';
      assert (xs + ys)[|xs + ys| - 1] == ys[|ys| - 1];
      DrainAppend(decode, s, xs, ys');
      var mid := Drain(decode, s, xs);
      var rest := Drain(decode, mid.0, ys');
      var step := decode(rest.0, ys[|ys| - 1]);
      assert Drain(decode, mid.0, ys) == (step.0, rest.1 + Completed(step.1));
      assert Drain(decode, s, xs + ys) == (step.0, (mid.1 + rest.1) + Completed(step.1));
      assert (mid.1 + rest.1) + Completed(step.1) == mid.1 + (rest.1 + Completed(step.1));
    }
  }
}
