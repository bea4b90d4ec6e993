/** The obfuscated frame pipelines: serialise, compress, mask, pad and flag; and serialise, pad and mask. */
module FrameCodec {
  import opened Base
  import opened XorMask
  import opened Padding

  datatype FrameFlags = FrameFlags(isControl: bool, isCompressed: bool, isFinal: bool, needsAck: bool, isAck: bool)

  datatype ProxyFrame = ProxyFrame(connId: u64, rip: Bytes16, rport: u16, payload: Bytes, uuid: Bytes16,
                                   timestamp: u64, checksum: u32, flags: FrameFlags)

  const COMPRESSION_THRESHOLD: nat := 1024

  datatype CodecError =
    | SerializationFailed | DeserializationFailed | CompressionFailed | DecompressionFailed | InvalidFrameFormat

  datatype Result<+T> = Ok(value: T) | Err(error: CodecError)

  /** One end of a session: the session key, the padding strategy, the setting, and the foreign serialiser and
      compressor. */
  datatype End = End(key: bv64, padding: Strategy, compression: bool, rkyv: Codec<ProxyFrame>, zstd: Codec<Bytes>)

  /** Applies the session's mask in a time window. */
  function Apply(key: bv64, window: bv64, data: Bytes): Bytes {
    Masked(data, Mask(Seed(window, key), |data|))
  }

  /** Compresses from the threshold up; the flag says whether it did. */
  function CompressIfNeeded(zstd: Codec<Bytes>, data: Bytes): Option<(Bytes, bool)> {
    if |data| < COMPRESSION_THRESHOLD then Some((data, false))
    else match zstd.encode(data)
      case Some(compressed) => Some((compressed, true))
      case None => None
  }

  /** The data that is masked, with the flag of the first byte. */
  function Prepare(e: End, frame: ProxyFrame): Result<(Bytes, bool)> {
    match e.rkyv.encode(frame)
    case None => Err(SerializationFailed)
    case Some(bytes) =>
      if !e.compression then Ok((bytes, false))
      else match CompressIfNeeded(e.zstd, bytes)
        case None => Err(CompressionFailed)
        case Some(r) => Ok(r)
  }

  function Encode(e: End, frame: ProxyFrame, window: bv64, d: Draw): Result<Bytes> {
    match Prepare(e, frame)
    case Err(error) => Err(error)
    case Ok((data, compressed)) =>
      var padded := Padded(e.padding, Apply(e.key, window, data), d);
      Ok([if compressed then 1 else 0] + padded)
  }

  function Decode(e: End, data: Bytes, window: bv64): Result<ProxyFrame> {
    if data == [] then Err(InvalidFrameFormat)
    else
      var compressed := data[0] % 2 == 1;
      match Unpad(data[1..])
      case None => Err(InvalidFrameFormat)
      case Some(unpadded) =>
        Restore(e, Apply(e.key, window, unpadded), compressed)
  }

  /** The frame in unmasked data, decompressed first if the flag says so. */
  function Restore(e: End, data: Bytes, compressed: bool): Result<ProxyFrame> {
    match if compressed then e.zstd.decode(data) else Some(data)
    case None => Err(DecompressionFailed)
    case Some(bytes) =>
      match e.rkyv.decode(bytes)
      case None => Err(DeserializationFailed)
      case Some(frame) => Ok(frame)
  }

  /** Two ends that speak to each other; either may compress or not, and each pads in its own way. */
  ghost predicate Paired(sender: End, receiver: End) {
    && sender.key == receiver.key && sender.rkyv == receiver.rkyv && sender.zstd == receiver.zstd
    && Lawful(sender.rkyv) && Lawful(sender.zstd)
  }

  lemma PreparedRestores(sender: End, receiver: End, frame: ProxyFrame)
    requires Paired(sender, receiver) && Prepare(sender, frame).Ok?
    ensures var (data, compressed) := Prepare(sender, frame).value; Restore(receiver, data, compressed) == Ok(frame)
  {}

  /** Every frame that can be encoded comes back, for every padding draw and every pair of compression settings. */
  lemma FrameRoundTrip(sender: End, receiver: End, frame: ProxyFrame, window: bv64, d: Draw)
    requires Paired(sender, receiver)
    requires Prepare(sender, frame).Ok? && |Prepare(sender, frame).value.0| < TWO_32
    ensures Encode(sender, frame, window, d).Ok?
    ensures Decode(receiver, Encode(sender, frame, window, d).value, window) == Ok(frame)
  {
    var (data, compressed) := Prepare(sender, frame).value;
    var masked := Apply(sender.key, window, data);
    var encoded := Encode(sender, frame, window, d).value;
    assert encoded[1..] == Padded(sender.padding, masked, d);
    UnpadPadded(sender.padding, masked, d);
    UnmaskInWindow(data, Seed(window, sender.key));
    PreparedRestores(sender, receiver, frame);
  }

  /** Encoding fails only where a foreign serialiser does, and says which. */
  lemma EncodeFailsWhen(e: End, frame: ProxyFrame, window: bv64, d: Draw)
    ensures var r := Encode(e, frame, window, d);
      && (r == Err(SerializationFailed) <==> e.rkyv.encode(frame).None?)
      && (r == Err(CompressionFailed) <==>
            e.rkyv.encode(frame).Some? && e.compression && |e.rkyv.encode(frame).value| >= 1024
            && e.zstd.encode(e.rkyv.encode(frame).value).None?)
      && (r.Err? ==> r.error.SerializationFailed? || r.error.CompressionFailed?)
  {}

  /** The first byte tells whether the rest was compressed, which is so from the threshold up. */
  lemma FlagTells(e: End, frame: ProxyFrame, window: bv64, d: Draw)
    requires Encode(e, frame, window, d).Ok?
    ensures var encoded := Encode(e, frame, window, d).value;
      && encoded != [] && encoded[0] <= 1
      && (encoded[0] == 1 <==> e.compression && |e.rkyv.encode(frame).value| >= COMPRESSION_THRESHOLD)
  {}

  /** One string is another xored with the mask of a session in a time window. */
  predicate MaskedWith(x: Bytes, key: bv64, window: bv64, data: Bytes) {
    |x| == |data| && forall i :: 0 <= i < |data| ==> x[i] == XorByte(data[i], Mask(Seed(window, key), |data|)[i])
  }

  lemma ApplyMasks(key: bv64, window: bv64, data: Bytes, x: Bytes)
    ensures MaskedWith(x, key, window, data) <==> x == Apply(key, window, data)
  {
    if MaskedWith(x, key, window, data) {
      assert forall i :: 0 <= i < |data| ==> x[i] == Apply(key, window, data)[i];
    }
  }

  /** The bytes that are masked for a frame: serialised, and compressed from 1024 bytes up where compression is on. */
  predicate Plain(e: End, frame: ProxyFrame, data: Bytes, compressed: bool) {
    match e.rkyv.encode(frame)
    case None => false
    case Some(bytes) =>
      if e.compression && |bytes| >= 1024 then compressed && e.zstd.encode(bytes) == Some(data)
      else !compressed && data == bytes
  }

  /** An encoded frame: the flag, and then, padded, the plain bytes under the mask. */
  lemma EncodedIsMasked(e: End, frame: ProxyFrame, window: bv64, d: Draw, data: Bytes, compressed: bool)
    returns (x: Bytes)
    requires Plain(e, frame, data, compressed)
    ensures Encode(e, frame, window, d) == Ok([if compressed then 1 else 0] + Padded(e.padding, x, d))
    ensures MaskedWith(x, e.key, window, data)
    ensures |data| < TWO_32 ==> Unpad(Encode(e, frame, window, d).value[1..]) == Some(x)
  {
    x := Apply(e.key, window, data);
    ApplyMasks(e.key, window, data, x);
    UnpadPadded(e.padding, x, d);
    EncodePlain(e, frame, window, d, data, compressed);
    Parts<Byte>([if compressed then 1 else 0], Padded(e.padding, x, d));
  }

  lemma EncodePlain(e: End, frame: ProxyFrame, window: bv64, d: Draw, data: Bytes, compressed: bool)
    requires Plain(e, frame, data, compressed)
    ensures Encode(e, frame, window, d) ==
      Ok([if compressed then 1 else 0] + Padded(e.padding, Apply(e.key, window, data), d))
  {}

  lemma UnmaskedExactly(x: Bytes, key: bv64, window: bv64, data: Bytes, key': bv64, window': bv64)
    requires MaskedWith(x, key, window, data) && |data| >= 9
    ensures MaskedWith(data, key', window', x) <==> SameMix(window', key', window, key)
  {
    ApplyMasks(key, window, data, x);
    ApplyMasks(key', window', x, data);
    UnmaskOnlyWithSeed(data, key, key', window, window');
    SeedsAgreeWhen(window, key, window', key');
  }

  /** From nine plain bytes up, what is under the padding is unmasked exactly by the same mix of window and key. */
  lemma EncodedNeedsSeed(e: End, frame: ProxyFrame, window: bv64, d: Draw, data: Bytes, compressed: bool,
                         key': bv64, window': bv64) returns (x: Bytes)
    requires Plain(e, frame, data, compressed) && 9 <= |data| < TWO_32
    ensures Encode(e, frame, window, d).Ok? && Unpad(Encode(e, frame, window, d).value[1..]) == Some(x)
    ensures MaskedWith(data, key', window', x) <==> SameMix(window', key', window, e.key)
  {
    x := EncodedIsMasked(e, frame, window, d, data, compressed);
    UnmaskedExactly(x, e.key, window, data, key', window');
  }

  /** What decoding makes of any bytes: the format is wrong exactly if there is no flag or no padding to take off;
      otherwise the result is that of decompressing, if the lowest bit of the flag says so, and deserialising the
      unmasked bytes. */
  lemma DecodeExactly(e: End, data: Bytes, window: bv64, x: Bytes, plain: Bytes)
    ensures Decode(e, data, window) == Err(InvalidFrameFormat) <==> data == [] || Unpad(data[1..]).None?
    ensures data != [] && Unpad(data[1..]) == Some(x) && MaskedWith(plain, e.key, window, x) ==>
      Decode(e, data, window) ==
        match if data[0] % 2 == 1 then e.zstd.decode(plain) else Some(plain)
        case None => Err(DecompressionFailed)
        case Some(bytes) =>
          match e.rkyv.decode(bytes)
          case None => Err(DeserializationFailed)
          case Some(frame) => Ok(frame)
  {
    ApplyMasks(e.key, window, x, plain);
  }

  // ---- the client and handler pipeline ----

  /** What the client and the handler put on the wire. */
  function SendFrame(e: End, frame: ProxyFrame, window: bv64, d: Draw): Option<Bytes> {
    match e.rkyv.encode(frame)
    case None => None
    case Some(bytes) => Some(Apply(e.key, window, Padded(e.padding, bytes, d)))
  }

  /** What they make of a received message; a message with bad padding is dropped, an undecodable one is an error. */
  datatype Received = Frame(frame: ProxyFrame) | Dropped | Undecodable

  function RecvFrame(e: End, data: Bytes, window: bv64): Received {
    match Unpad(Apply(e.key, window, data))
    case None => Dropped
    case Some(unpadded) =>
      match e.rkyv.decode(unpadded)
      case None => Undecodable
      case Some(frame) => Frame(frame)
  }

  lemma SendReceive(sender: End, receiver: End, frame: ProxyFrame, window: bv64, d: Draw)
    requires Paired(sender, receiver)
    requires sender.rkyv.encode(frame).Some? && |sender.rkyv.encode(frame).value| < TWO_32
    ensures RecvFrame(receiver, SendFrame(sender, frame, window, d).value, window) == Frame(frame)
  {
    var bytes := sender.rkyv.encode(frame).value;
    var padded := Padded(sender.padding, bytes, d);
    UnmaskInWindow(padded, Seed(window, sender.key));
    UnpadPadded(sender.padding, bytes, d);
  }

  /** The default padding leaves no message so short that another time window could unmask it to the same bytes. */
  lemma OtherWindowNeverUnmasks(e: End, frame: ProxyFrame, window: bv64, window': bv64, d: Draw)
    requires e.padding == DEFAULT && e.rkyv.encode(frame).Some?
    requires Possible(DEFAULT, |e.rkyv.encode(frame).value|, d)
    ensures var padded := Padded(e.padding, e.rkyv.encode(frame).value, d);
      Apply(e.key, window', SendFrame(e, frame, window, d).value) == padded <==> window' == window
  {
    var bytes := e.rkyv.encode(frame).value;
    var padded := Padded(e.padding, bytes, d);
    PaddedLength(DEFAULT, bytes, d);
    UnmaskOnlyInWindow(padded, e.key, window, window');
  }

  /** What is sent is the padded frame under the mask. */
  lemma SentIsMasked(e: End, frame: ProxyFrame, window: bv64, d: Draw)
    ensures SendFrame(e, frame, window, d).None? <==> e.rkyv.encode(frame).None?
    ensures e.rkyv.encode(frame).Some? ==>
      MaskedWith(SendFrame(e, frame, window, d).value, e.key, window, Padded(e.padding, e.rkyv.encode(frame).value, d))
  {
    if e.rkyv.encode(frame).Some? {
      var padded := Padded(e.padding, e.rkyv.encode(frame).value, d);
      ApplyMasks(e.key, window, padded, SendFrame(e, frame, window, d).value);
    }
  }

  /** What receiving makes of any bytes, by what they are without the mask. */
  lemma ReceiveExactly(e: End, data: Bytes, window: bv64, plain: Bytes)
    requires MaskedWith(plain, e.key, window, data)
    ensures RecvFrame(e, data, window) ==
      match Unpad(plain)
      case None => Dropped
      case Some(bytes) =>
        match e.rkyv.decode(bytes)
        case None => Undecodable
        case Some(frame) => Frame(frame)
  {
    ApplyMasks(e.key, window, data, plain);
  }
}
