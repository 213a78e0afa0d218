/** The binary frame protocol of `writeMessage`: a 4-byte little-endian
    payload length, a 1-byte message kind, then the payload bytes.
    The JSON payload is an opaque byte sequence here. */
module Framing {
  import opened Wrappers
  import opened Bytes

  /** Length of the fixed header: four length bytes and one kind byte. */
  const HeaderSize: nat := 5

  /** `headlessMessageType`, a uint8 enumeration that starts at 0. */
  datatype MessageKind = Error | Diagnostic

  /** The kind byte written at header offset 4. */
  function KindByte(k: MessageKind): (b: byte)
    ensures KindFromByte(b) == Some(k)
  {
    match k
    case Error => 0
    case Diagnostic => 1
  }

  /** The kind a reader finds at header offset 4; bytes other than the two
      defined kinds are not a kind. */
  function KindFromByte(b: byte): (k: Option<MessageKind>)
    ensures k.Some? <==> b < 2
  {
    if b == 0 then Some(Error)
    else if b == 1 then Some(Diagnostic)
    else None
  }

  lemma KindByteOfKindFromByte(b: byte)
    requires KindFromByte(b).Some?
    ensures KindByte(KindFromByte(b).value) == b
  {
  }

  /** One message as it travels on the wire. */
  datatype Frame = Frame(kind: MessageKind, payload: seq<byte>)

  /** The payload length fits the uint32 header field
      (`uint32(len(payloadBytes))` would truncate otherwise). */
  predicate Fits(f: Frame) {
    |f.payload| < Uint32Limit
  }

  predicate AllFit(fs: seq<Frame>) {
    forall i | 0 <= i < |fs| :: Fits(fs[i])
  }

  /** The bytes one `writeMessage` call hands to the writer. */
  function EncodeFrame(f: Frame): (bs: seq<byte>)
    requires Fits(f)
    ensures |bs| == HeaderSize + |f.payload|
    ensures Uint32FromLittleEndian(bs[..4]) == |f.payload|
    ensures KindFromByte(bs[4]) == Some(f.kind)
    ensures bs[HeaderSize..] == f.payload
  {
    LittleEndian32(|f.payload|) + [KindByte(f.kind)] + f.payload
  }

  /** The bytes of several frames written one after the other. */
  function EncodeFrames(fs: seq<Frame>): seq<byte>
    requires AllFit(fs)
  {
    if |fs| == 0 then [] else EncodeFrame(fs[0]) + EncodeFrames(fs[1..])
  }

  /** Why a reader could not take a frame off the front of a byte stream. */
  datatype DecodeError =
    | ShortHeader(available: nat)
    | UnknownKind(kindByte: byte)
    | ShortPayload(length: nat, available: nat)

  /** Reads the 5-byte header, then exactly `length` payload bytes; returns
      the frame and the bytes that follow it. */
  function DecodeFrame(bs: seq<byte>): (r: Result<(Frame, seq<byte>), DecodeError>)
    ensures r.Success? ==> Fits(r.value.0)
    ensures r.Success? ==> bs == EncodeFrame(r.value.0) + r.value.1
    ensures r.Success? ==> |r.value.1| < |bs|
  {
    if |bs| < HeaderSize then Failure(ShortHeader(|bs|))
    else
      var length := Uint32FromLittleEndian(bs[..4]);
      match KindFromByte(bs[4])
      case None => Failure(UnknownKind(bs[4]))
      case Some(kind) =>
        if |bs| - HeaderSize < length then Failure(ShortPayload(length, |bs| - HeaderSize))
        else
          var frame := Frame(kind, bs[HeaderSize..HeaderSize + length]);
          LittleEndian32OfDecoded(bs[..4]);
          KindByteOfKindFromByte(bs[4]);
          assert EncodeFrame(frame) == bs[..4] + [bs[4]] + bs[HeaderSize..HeaderSize + length];
          assert bs == bs[..4] + [bs[4]] + bs[HeaderSize..HeaderSize + length] + bs[HeaderSize + length..];
          Success((frame, bs[HeaderSize + length..]))
  }

  /** Reads frames until the stream is exhausted. A stream that decodes is
      exactly the encoding of the frames read from it. */
  function DecodeFrames(bs: seq<byte>): (r: Result<seq<Frame>, DecodeError>)
    ensures r.Success? ==> AllFit(r.value) && EncodeFrames(r.value) == bs
    decreases |bs|
  {
    if |bs| == 0 then Success([])
    else
      match DecodeFrame(bs)
      case Failure(e) => Failure(e)
      case Success((frame, rest)) =>
        match DecodeFrames(rest)
        case Failure(e) => Failure(e)
        case Success(frames) =>
          assert ([frame] + frames)[1..] == frames;
          Success([frame] + frames)
  }

  /** A reader takes back exactly the frame that was written, whatever follows it. */
  lemma DecodeEncodeFrame(f: Frame, rest: seq<byte>)
    requires Fits(f)
    ensures DecodeFrame(EncodeFrame(f) + rest) == Success((f, rest))
  {
    var bs := EncodeFrame(f) + rest;
    assert bs[..4] == EncodeFrame(f)[..4];
    assert bs[HeaderSize..HeaderSize + |f.payload|] == f.payload;
    assert bs[HeaderSize + |f.payload|..] == rest;
  }

  /** Decoding a concatenation of encoded frames returns the same frames,
      same count, same order. */
  lemma {:induction false} DecodeEncodeFrames(fs: seq<Frame>)
    requires AllFit(fs)
    ensures DecodeFrames(EncodeFrames(fs)) == Success(fs)
  {
    if |fs| == 0 {
    } else {
      var rest := EncodeFrames(fs[1..]);
      DecodeEncodeFrame(fs[0], rest);
      DecodeEncodeFrames(fs[1..]);
      assert [fs[0]] + fs[1..] == fs;
    }
  }

  /** What a call of `writeMessage` leaves behind: the writer's bytes and
      the returned error, if any. */
  datatype Written = Written(output: seq<byte>, err: Option<string>)

  /** The serialised payload, if it exists, fits the uint32 length field. */
  predicate PayloadFits(m: Result<seq<byte>, string>) {
    m.Success? ==> |m.value| < Uint32Limit
  }

  /** `writeMessage(w, kind, payload)`: serialise the payload with `marshal`;
      on failure return the error and write nothing, otherwise append one
      frame to what `w` already holds: the uint32 length of the serialised
      bytes, the kind byte, then those bytes unchanged. */
  function WriteMessage<P>(w: seq<byte>, kind: MessageKind, payload: P,
                           marshal: P -> Result<seq<byte>, string>): (r: Written)
    requires PayloadFits(marshal(payload))
    ensures marshal(payload).Failure? ==> r.output == w && r.err == Some(marshal(payload).error)
    ensures marshal(payload).Success? ==>
      var bytes := marshal(payload).value;
      && r.err.None?
      && |r.output| == |w| + HeaderSize + |bytes|
      && r.output[..|w|] == w
      && Uint32FromLittleEndian(r.output[|w|..|w| + 4]) == |bytes|
      && KindFromByte(r.output[|w| + 4]) == Some(kind)
      && r.output[|w| + HeaderSize..] == bytes
  {
    match marshal(payload)
    case Failure(e) => Written(w, Some(e))
    case Success(bytes) =>
      var encoded := EncodeFrame(Frame(kind, bytes));
      var out := w + encoded;
      assert out[|w|..|w| + 4] == encoded[..4];
      assert out[|w| + HeaderSize..] == encoded[HeaderSize..];
      Written(out, None)
  }

  /** A successful `writeMessage` appends exactly one encoded frame. */
  lemma WriteMessageAppends<P>(w: seq<byte>, kind: MessageKind, payload: P,
                               marshal: P -> Result<seq<byte>, string>)
    requires PayloadFits(marshal(payload))
    ensures marshal(payload).Success? ==>
      WriteMessage(w, kind, payload, marshal).output == w + EncodeFrame(Frame(kind, marshal(payload).value))
  {
    if marshal(payload).Success? {
      var bytes := marshal(payload).value;
      var out := WriteMessage(w, kind, payload, marshal).output;
      var encoded := EncodeFrame(Frame(kind, bytes));
      var tail := out[|w|..];
      assert tail[..4] == out[|w|..|w| + 4];
      LittleEndian32OfDecoded(tail[..4]);
      LittleEndian32OfDecoded(encoded[..4]);
      assert tail[..4] == encoded[..4];
      KindByteOfKindFromByte(tail[4]);
      KindByteOfKindFromByte(encoded[4]);
      assert tail[4] == encoded[4];
      assert tail[HeaderSize..] == encoded[HeaderSize..];
      assert tail == tail[..4] + [tail[4]] + tail[HeaderSize..];
      assert encoded == encoded[..4] + [encoded[4]] + encoded[HeaderSize..];
      assert out == out[..|w|] + tail;
    }
  }

  /** A reader of what a successful `writeMessage` appended finds exactly
      one frame, with the given kind and the serialised payload. */
  lemma WriteMessageDecodes<P>(w: seq<byte>, kind: MessageKind, payload: P,
                               marshal: P -> Result<seq<byte>, string>)
    requires PayloadFits(marshal(payload))
    requires marshal(payload).Success?
    ensures DecodeFrames(WriteMessage(w, kind, payload, marshal).output[|w|..])
      == Success([Frame(kind, marshal(payload).value)])
  {
    var f := Frame(kind, marshal(payload).value);
    WriteMessageAppends(w, kind, payload, marshal);
    assert WriteMessage(w, kind, payload, marshal).output[|w|..] == EncodeFrames([f]) by {
      assert [f][1..] == [];
    }
    DecodeEncodeFrames([f]);
  }
}
