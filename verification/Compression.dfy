/** The versioned compression envelope with its raw fallbacks, over an abstract frame codec, and its
    composition with packetization.

    Models src/compression/src/compression.cpp and the per-packet use of it in
    app/server/server_replication.cppm and app/client/client_replication.cppm. */
module Compression {
  import opened Bytes
  import opened PacketFormat
  import opened Reassembly
  import Runs = ReassemblyRuns

  const ENVELOPE_BYTES: nat := 17
  const COMPRESSION_MAGIC: nat := 0x534E435A
  const COMPRESSION_PROTOCOL_VERSION: nat := 1
  const COMPRESSION_SCHEMA_VERSION: nat := 1

  // ---------------------------------------------------------------- the frame codec

  /** The calls made into Zstd: each may report an error. */
  datatype FrameCodec = FrameCodec(
    compress: (seq<byte>, int) -> Option<seq<byte>>,
    contentSize: seq<byte> -> Option<nat>,
    frameSize: seq<byte> -> Option<nat>,
    decompress: (seq<byte>, nat) -> Option<seq<byte>>)

  /** The only facts assumed of the codec: a frame it made is non-empty and one complete frame, knows
      the size of its content, and decompresses to it. */
  ghost predicate Lawful(codec: FrameCodec) {
    forall input, level :: codec.compress(input, level).Some? ==>
      var frame := codec.compress(input, level).value;
      && frame != []
      && codec.contentSize(frame) == Some(|input|)
      && codec.frameSize(frame) == Some(|frame|)
      && codec.decompress(frame, |input|) == Some(input)
  }

  // ---------------------------------------------------------------- the envelope

  datatype Encoding = Raw | Zstd
  datatype Policy = Always | OnlyWhenSmaller
  datatype Limits = Limits(maxUncompressedBytes: u32, maxOutputBytes: u32)

  datatype EnvelopeHeader = EnvelopeHeader(
    magic: nat, protocol: nat, schema: nat, encoding: nat, uncompressedBytes: nat, payloadBytes: nat)

  const ENVELOPE_LAYOUT: Layout := [4, 2, 2, 1, 4, 4]

  function EnvelopeValues(h: EnvelopeHeader): (values: seq<nat>)
    ensures |values| == |ENVELOPE_LAYOUT|
  {
    [h.magic, h.protocol, h.schema, h.encoding, h.uncompressedBytes, h.payloadBytes]
  }

  function EncodingByte(encoding: Encoding): nat {
    match encoding case Raw => 0 case Zstd => 1
  }

  function WriteEnvelope(encoding: Encoding, uncompressedBytes: nat, payload: seq<byte>): (envelope: seq<byte>) {
    WriteFields([COMPRESSION_MAGIC, COMPRESSION_PROTOCOL_VERSION, COMPRESSION_SCHEMA_VERSION,
                 EncodingByte(encoding), uncompressedBytes, |payload|], ENVELOPE_LAYOUT) + payload
  }

  function ReadEnvelope(bytes: seq<byte>): Option<EnvelopeHeader> {
    var values := ReadFields(bytes, 0, ENVELOPE_LAYOUT);
    if values.None? then None
    else
      var v := values.value;
      Some(EnvelopeHeader(v[0], v[1], v[2], v[3], v[4], v[5]))
  }

  lemma EnvelopeLayoutBytes()
    ensures LayoutBytes(ENVELOPE_LAYOUT) == ENVELOPE_BYTES
  {
    assert ENVELOPE_LAYOUT[1..] == [2, 2, 1, 4, 4];
    assert [2, 2, 1, 4, 4][1..] == [2, 1, 4, 4];
    assert [2, 1, 4, 4][1..] == [1, 4, 4];
    assert [1, 4, 4][1..] == [4, 4];
  }

  predicate HasCompressionEnvelope(bytes: seq<byte>) {
    ReadBigEndian(bytes, 0, 4) == Some(COMPRESSION_MAGIC)
  }

  /** What the receiver reads back from an envelope. */
  lemma ReadWrittenEnvelope(encoding: Encoding, uncompressedBytes: u32, payload: seq<byte>)
    requires |payload| <= U32_MAX
    ensures var envelope := WriteEnvelope(encoding, uncompressedBytes, payload);
      && |envelope| == ENVELOPE_BYTES + |payload|
      && envelope[ENVELOPE_BYTES..] == payload
      && HasCompressionEnvelope(envelope)
      && ReadEnvelope(envelope) == Some(EnvelopeHeader(COMPRESSION_MAGIC, COMPRESSION_PROTOCOL_VERSION,
           COMPRESSION_SCHEMA_VERSION, EncodingByte(encoding), uncompressedBytes, |payload|))
  {
    var h := EnvelopeHeader(COMPRESSION_MAGIC, COMPRESSION_PROTOCOL_VERSION, COMPRESSION_SCHEMA_VERSION,
                            EncodingByte(encoding), uncompressedBytes, |payload|);
    var values := EnvelopeValues(h);
    Capacities();
    EnvelopeLayoutBytes();
    var envelope := WriteEnvelope(encoding, uncompressedBytes, payload);
    ReadWritten(envelope, 0, values, ENVELOPE_LAYOUT);
    FirstField(envelope, ENVELOPE_LAYOUT);
  }

  /** The first integer of a layout is the one read at its start. */
  lemma FirstField(bytes: seq<byte>, layout: Layout)
    requires layout != [] && LayoutBytes(layout) <= |bytes|
    ensures ReadBigEndian(bytes, 0, layout[0]) == Some(ReadFields(bytes, 0, layout).value[0])
  {
  }

  // ---------------------------------------------------------------- compression

  datatype Compressed = Compressed(encoding: Encoding, enveloped: bool, output: seq<byte>)

  predicate ValidLimits(limits: Limits) {
    limits.maxUncompressedBytes != 0 && limits.maxOutputBytes != 0
  }

  /** What the compressor is allowed to produce: nothing, the input itself, or an envelope around the
      input or around its frame, by policy and by size. */
  function CompressSpec(codec: FrameCodec, input: seq<byte>, level: int, limits: Limits, policy: Policy)
    : Option<Compressed>
  {
    if !ValidLimits(limits) || !(1 <= level <= 19) || !(1 <= |input| <= limits.maxUncompressedBytes) then None
    else
      var frame := codec.compress(input, level);
      if frame.None? || |frame.value| > U32_MAX then None
      else
        var smaller := ENVELOPE_BYTES + |frame.value| < |input|
            && ENVELOPE_BYTES + |frame.value| <= limits.maxOutputBytes;
        match policy
        case OnlyWhenSmaller =>
          if smaller then Some(Compressed(Zstd, true, WriteEnvelope(Zstd, |input|, frame.value)))
          else if |input| <= limits.maxOutputBytes then Some(Compressed(Raw, false, input))
          else None
        case Always =>
          var encoding := if |frame.value| < |input| then Zstd else Raw;
          var payload := if encoding == Zstd then frame.value else input;
          if ENVELOPE_BYTES + |payload| <= limits.maxOutputBytes
          then Some(Compressed(encoding, true, WriteEnvelope(encoding, |input|, payload)))
          else None
  }

  /** Step by step as the code decides it; the output is rewritten only on success. */
  method CompressBytes(codec: FrameCodec, input: seq<byte>, level: int, limits: Limits, policy: Policy,
                       output: seq<byte>)
    returns (encoding: Encoding, valid: bool, written: seq<byte>)
    ensures var spec := CompressSpec(codec, input, level, limits, policy);
      && (valid <==> spec.Some?)
      && (valid ==> written == spec.value.output && encoding == spec.value.encoding)
      && (!valid ==> written == output)
  {
    encoding, valid, written := Raw, false, output;
    if !ValidLimits(limits) {
      return;
    }
    if level < 1 || level > 19 {
      return;
    }
    if input == [] || |input| > limits.maxUncompressedBytes || |input| > U32_MAX {
      return;
    }
    var compressed := codec.compress(input, level);
    if compressed.None? || |compressed.value| > U32_MAX {
      return;
    }
    var zstdTotal := ENVELOPE_BYTES + |compressed.value|;
    var useZstd := if policy == Always then |compressed.value| < |input|
                   else zstdTotal < |input| && zstdTotal <= limits.maxOutputBytes;
    if policy == OnlyWhenSmaller && !useZstd {
      if |input| > limits.maxOutputBytes {
        return;
      }
      return Raw, true, input;
    }
    var payloadBytes := if useZstd then |compressed.value| else |input|;
    var totalBytes := ENVELOPE_BYTES + payloadBytes;
    if totalBytes > limits.maxOutputBytes || totalBytes > U32_MAX {
      return;
    }
    var payload := if useZstd then compressed.value else input;
    encoding := if useZstd then Zstd else Raw;
    written := WriteEnvelope(encoding, |input|, payload);
    valid := true;
  }

  // ---------------------------------------------------------------- decompression

  datatype Decompressed = Decompressed(encoding: Encoding, output: seq<byte>)

  /** Accepts exactly well-formed envelopes within the limits, in the order of the code's checks. */
  function Decompress(codec: FrameCodec, input: seq<byte>, limits: Limits): Option<Decompressed> {
    if !ValidLimits(limits) || |input| < ENVELOPE_BYTES || |input| > limits.maxOutputBytes then None
    else
      var read := ReadEnvelope(input);
      if read.None? then None
      else DecompressRead(codec, read.value, input[ENVELOPE_BYTES..], limits)
  }

  function DecompressRead(codec: FrameCodec, h: EnvelopeHeader, payload: seq<byte>, limits: Limits)
    : Option<Decompressed>
  {
    if h.magic != COMPRESSION_MAGIC || h.protocol != COMPRESSION_PROTOCOL_VERSION
       || h.schema != COMPRESSION_SCHEMA_VERSION || (h.encoding != 0 && h.encoding != 1) then None
    else if h.uncompressedBytes == 0 || h.payloadBytes == 0 || h.uncompressedBytes > limits.maxUncompressedBytes then
      None
    else if h.payloadBytes != |payload| || ENVELOPE_BYTES + h.payloadBytes > limits.maxOutputBytes then None
    else if h.encoding == 0 then
      if h.payloadBytes != h.uncompressedBytes then None else Some(Decompressed(Raw, payload))
    else if codec.contentSize(payload) != Some(h.uncompressedBytes) then None
    else if codec.frameSize(payload) != Some(|payload|) then None
    else
      var content := codec.decompress(payload, h.uncompressedBytes);
      if content.None? || |content.value| != h.uncompressedBytes then None
      else Some(Decompressed(Zstd, content.value))
  }

  /** Check by check as the code makes them; the output is rewritten only on success. */
  method DecompressBytes(codec: FrameCodec, input: seq<byte>, limits: Limits, output: seq<byte>)
    returns (encoding: Encoding, valid: bool, written: seq<byte>)
    ensures var spec := Decompress(codec, input, limits);
      && (valid <==> spec.Some?)
      && (valid ==> written == spec.value.output && encoding == spec.value.encoding)
      && (!valid ==> written == output)
  {
    hide ReadFields, LayoutBytes;
    encoding, valid, written := Raw, false, output;
    if !ValidLimits(limits) || |input| < ENVELOPE_BYTES || |input| > limits.maxOutputBytes {
      return;
    }
    var read := ReadEnvelope(input);
    if read.None? {
      return;
    }
    var h := read.value;
    if h.magic != COMPRESSION_MAGIC || h.protocol != COMPRESSION_PROTOCOL_VERSION
       || h.schema != COMPRESSION_SCHEMA_VERSION || h.encoding > 1 {
      return;
    }
    if h.uncompressedBytes == 0 || h.payloadBytes == 0 || h.uncompressedBytes > limits.maxUncompressedBytes {
      return;
    }
    var payload := input[ENVELOPE_BYTES..];
    if h.payloadBytes != |payload| || ENVELOPE_BYTES + h.payloadBytes > limits.maxOutputBytes {
      return;
    }
    if h.encoding == 0 {
      if h.payloadBytes != h.uncompressedBytes {
        return;
      }
      return Raw, true, payload;
    }
    if codec.contentSize(payload) != Some(h.uncompressedBytes) {
      return;
    }
    if codec.frameSize(payload) != Some(|payload|) {
      return;
    }
    var frameScratch := codec.decompress(payload, h.uncompressedBytes);
    if frameScratch.None? || |frameScratch.value| != h.uncompressedBytes {
      return;
    }
    return Zstd, true, frameScratch.value;
  }

  /** Every envelope decodes to what was compressed into it, for any receiver limits that admit it. */
  lemma EnvelopeRoundTrip(codec: FrameCodec, input: seq<byte>, level: int, limits: Limits, policy: Policy,
                          receiver: Limits)
    requires Lawful(codec)
    requires CompressSpec(codec, input, level, limits, policy).Some?
    requires CompressSpec(codec, input, level, limits, policy).value.enveloped
    requires receiver.maxUncompressedBytes >= |input| && receiver.maxOutputBytes >= limits.maxOutputBytes
    ensures var compressed := CompressSpec(codec, input, level, limits, policy).value;
      Decompress(codec, compressed.output, receiver) == Some(Decompressed(compressed.encoding, input))
  {
    var compressed := CompressSpec(codec, input, level, limits, policy).value;
    var frame := codec.compress(input, level).value;
    ReadWrittenEnvelope(compressed.encoding, |input|, if compressed.encoding == Zstd then frame else input);
  }

  /** Under OnlyWhenSmaller nothing grows, and an envelope is used only when it saves bytes. */
  lemma NeverLarger(codec: FrameCodec, input: seq<byte>, level: int, limits: Limits)
    requires CompressSpec(codec, input, level, limits, OnlyWhenSmaller).Some?
    ensures var compressed := CompressSpec(codec, input, level, limits, OnlyWhenSmaller).value;
      && |compressed.output| <= |input| && |compressed.output| <= limits.maxOutputBytes
      && (compressed.enveloped <==> |compressed.output| < |input|)
      && (compressed.enveloped <==> compressed.encoding == Zstd)
      && (!compressed.enveloped ==> compressed.output == input)
  {
    var frame := codec.compress(input, level).value;
    if ENVELOPE_BYTES + |frame| < |input| {
      ReadWrittenEnvelope(Zstd, |input|, frame);
    }
  }

  // ---------------------------------------------------------------- detection by magic

  /** The receiving side of OnlyWhenSmaller: bytes that carry the magic must be a valid Zstd envelope,
      all other bytes are taken as they are. */
  function Detect(codec: FrameCodec, bytes: seq<byte>, limits: Limits): Option<seq<byte>> {
    if !HasCompressionEnvelope(bytes) then Some(bytes)
    else
      var decompressed := Decompress(codec, bytes, limits);
      if decompressed.None? || decompressed.value.encoding != Zstd then None else Some(decompressed.value.output)
  }

  /** Detection undoes OnlyWhenSmaller whenever the input does not itself start with the magic, or
      does but was compressed. */
  lemma DetectRoundTrip(codec: FrameCodec, input: seq<byte>, level: int, limits: Limits, receiver: Limits)
    requires Lawful(codec)
    requires CompressSpec(codec, input, level, limits, OnlyWhenSmaller).Some?
    requires receiver.maxUncompressedBytes >= |input| && receiver.maxOutputBytes >= limits.maxOutputBytes
    requires !HasCompressionEnvelope(input)
        || CompressSpec(codec, input, level, limits, OnlyWhenSmaller).value.enveloped
    ensures Detect(codec, CompressSpec(codec, input, level, limits, OnlyWhenSmaller).value.output, receiver)
        == Some(input)
  {
    var compressed := CompressSpec(codec, input, level, limits, OnlyWhenSmaller).value;
    NeverLarger(codec, input, level, limits);
    if compressed.enveloped {
      ReadWrittenEnvelope(Zstd, |input|, codec.compress(input, level).value);
      EnvelopeRoundTrip(codec, input, level, limits, OnlyWhenSmaller, receiver);
    }
  }

  /** An envelope that is a frame of itself: version, both lengths and the frame's own sizes agree, and
      the frame decompresses to the envelope it stands in. */
  predicate FrameOfItself(codec: FrameCodec, input: seq<byte>) {
    && |input| > ENVELOPE_BYTES
    && ReadEnvelope(input) == Some(EnvelopeHeader(COMPRESSION_MAGIC, COMPRESSION_PROTOCOL_VERSION,
         COMPRESSION_SCHEMA_VERSION, EncodingByte(Zstd), |input|, |input| - ENVELOPE_BYTES))
    && var frame := input[ENVELOPE_BYTES..];
    && codec.contentSize(frame) == Some(|input|)
    && codec.frameSize(frame) == Some(|frame|)
    && codec.decompress(frame, |input|) == Some(input)
  }

  /** An envelope is sent exactly when the frame and its header are shorter than the input. */
  lemma EnvelopedExactly(codec: FrameCodec, input: seq<byte>, level: int, limits: Limits)
    requires CompressSpec(codec, input, level, limits, OnlyWhenSmaller).Some?
    ensures codec.compress(input, level).Some?
    ensures CompressSpec(codec, input, level, limits, OnlyWhenSmaller).value.enveloped
       <==> ENVELOPE_BYTES + |codec.compress(input, level).value| < |input|
  {
  }

  /** Detection undoes OnlyWhenSmaller for an input exactly when it does not begin with the magic, or its
      frame is short enough for an envelope to be sent, or it is a frame of itself. So every raw fallback
      that begins with the magic is lost when its version, encoding, payload length or uncompressed length
      is not that of a frame of itself, and otherwise when its frame does not decompress to it. */
  lemma DetectExactly(codec: FrameCodec, input: seq<byte>, level: int, limits: Limits, receiver: Limits)
    requires Lawful(codec)
    requires CompressSpec(codec, input, level, limits, OnlyWhenSmaller).Some?
    requires receiver.maxUncompressedBytes >= |input| && receiver.maxOutputBytes >= limits.maxOutputBytes
    ensures codec.compress(input, level).Some?
    ensures var output := CompressSpec(codec, input, level, limits, OnlyWhenSmaller).value.output;
      Detect(codec, output, receiver) == Some(input) <==>
        || !HasCompressionEnvelope(input)
        || ENVELOPE_BYTES + |codec.compress(input, level).value| < |input|
        || FrameOfItself(codec, input)
  {
    EnvelopedExactly(codec, input, level, limits);
    var compressed := CompressSpec(codec, input, level, limits, OnlyWhenSmaller).value;
    if !HasCompressionEnvelope(input) || compressed.enveloped {
      DetectRoundTrip(codec, input, level, limits, receiver);
    } else {
      RawFallbackOpens(codec, input, receiver);
    }
  }

  /** What the receiver makes of bytes that begin with the magic, when it is to make them of themselves. */
  lemma RawFallbackOpens(codec: FrameCodec, input: seq<byte>, receiver: Limits)
    requires HasCompressionEnvelope(input)
    requires receiver.maxUncompressedBytes >= |input| && receiver.maxOutputBytes >= |input|
    ensures Detect(codec, input, receiver) == Some(input) <==> FrameOfItself(codec, input)
  {
    EnvelopeLayoutBytes();
  }

  /** The worst case: an envelope that does not shrink when it is compressed again is sent as it is, and
      what the receiver hands on is not the envelope but its content, other and more bytes. */
  lemma EnvelopeArrivesOpened(codec: FrameCodec, content: seq<byte>, level: int, limits: Limits,
                              again: int, limitsAgain: Limits, receiver: Limits)
    requires Lawful(codec)
    requires CompressSpec(codec, content, level, limits, OnlyWhenSmaller).Some?
    requires CompressSpec(codec, content, level, limits, OnlyWhenSmaller).value.enveloped
    requires var input := CompressSpec(codec, content, level, limits, OnlyWhenSmaller).value.output;
      && CompressSpec(codec, input, again, limitsAgain, OnlyWhenSmaller).Some?
      && !CompressSpec(codec, input, again, limitsAgain, OnlyWhenSmaller).value.enveloped
    requires receiver.maxUncompressedBytes >= |content| && receiver.maxOutputBytes >= limits.maxOutputBytes
    ensures var input := CompressSpec(codec, content, level, limits, OnlyWhenSmaller).value.output;
      var sent := CompressSpec(codec, input, again, limitsAgain, OnlyWhenSmaller).value;
      sent.output == input && Detect(codec, sent.output, receiver) == Some(content) && |content| > |input|
  {
    NeverLarger(codec, content, level, limits);
    DetectRoundTrip(codec, content, level, limits, receiver);
  }

  // A codec that knows one long input and stores every other one behind a marker.

  const LONG_INPUT: seq<byte> := seq(19, i => 0)

  const TOY_CODEC := FrameCodec(
    (input: seq<byte>, level: int) => if input == LONG_INPUT then Some([1]) else Some([0] + input),
    (frame: seq<byte>) => if frame == [] then None else if frame == [1] then Some(19) else Some(|frame| - 1),
    (frame: seq<byte>) => Some(|frame|),
    (frame: seq<byte>, size: nat) =>
      if frame == [] then None else if frame == [1] then Some(LONG_INPUT) else Some(frame[1..]))

  lemma ToyIsLawful()
    ensures Lawful(TOY_CODEC)
  {
    forall input, level
      ensures TOY_CODEC.decompress(TOY_CODEC.compress(input, level).value, |input|) == Some(input)
    {
      if input != LONG_INPUT {
        assert ([0] + input)[0] == 0 && ([0] + input)[1..] == input;
      }
    }
  }

  /** With it: nineteen zeros in an envelope of eighteen bytes, and that envelope sent again. */
  lemma EnvelopeArrivesOpenedOnce()
    ensures var limits := Limits(64, 64);
      var input := WriteEnvelope(Zstd, 19, [1]);
      && Lawful(TOY_CODEC)
      && CompressSpec(TOY_CODEC, input, 1, limits, OnlyWhenSmaller) == Some(Compressed(Raw, false, input))
      && Detect(TOY_CODEC, input, limits) == Some(LONG_INPUT) && input != LONG_INPUT
  {
    hide ReadFields, WriteFields, Detect, LayoutBytes;
    var limits := Limits(64, 64);
    var input := WriteEnvelope(Zstd, 19, [1]);
    ToyIsLawful();
    ReadWrittenEnvelope(Zstd, 19, [1]);
    assert CompressSpec(TOY_CODEC, LONG_INPUT, 1, limits, OnlyWhenSmaller) == Some(Compressed(Zstd, true, input));
    assert |input| == 18 && input != LONG_INPUT;
    EnvelopeArrivesOpened(TOY_CODEC, LONG_INPUT, 1, limits, 1, limits, limits);
  }

  /** Such an input: the magic alone. It is sent as it is and refused by the receiver. */
  lemma MagicAloneIsLost(codec: FrameCodec, level: int, limits: Limits, receiver: Limits)
    requires 1 <= level <= 19 && limits.maxUncompressedBytes >= 4 && limits.maxOutputBytes >= 4
    requires codec.compress(BigEndian(COMPRESSION_MAGIC, 4), level).Some?
    requires |codec.compress(BigEndian(COMPRESSION_MAGIC, 4), level).value| <= U32_MAX
    ensures var input := BigEndian(COMPRESSION_MAGIC, 4);
      && CompressSpec(codec, input, level, limits, OnlyWhenSmaller) == Some(Compressed(Raw, false, input))
      && Detect(codec, input, receiver) == None
  {
    var input := BigEndian(COMPRESSION_MAGIC, 4);
    Capacities();
    BigEndianRoundTrip(COMPRESSION_MAGIC, 4);
    assert input[0..4] == input;
  }

  // ---------------------------------------------------------------- packets over the wire

  function PacketLimits(s: Settings): Limits {
    Limits(s.maxPayloadBytes, s.maxPayloadBytes)
  }

  /** A genuine packet never looks like an envelope: their magics differ. */
  lemma PacketIsNoEnvelope(s: Settings, groupId: u32, bytes: seq<byte>, index: nat)
    requires ValidSettings(s) && s.enabled
    requires groupId != 0 && 0 < |bytes| <= s.maxGroupBytes
    requires index < CeilingDivide(|bytes|, ChunkCapacity(s))
    ensures !HasCompressionEnvelope(PacketFormat.Packet(s, groupId, bytes, index))
  {
    var packet := PacketFormat.Packet(s, groupId, bytes, index);
    GenuinePacketParses(s, groupId, bytes, index);
    HeaderLayoutBytes();
    FirstField(packet, HEADER_LAYOUT);
  }

  /** Packets of a group can be told from envelopes: by their own magic, or, when the group is sent raw,
      because it does not begin with the envelope's. */
  predicate Unambiguous(s: Settings, bytes: seq<byte>) {
    s.enabled || !HasCompressionEnvelope(bytes)
  }

  /** When packets of a group survive compression and detection; with packetization always. */
  predicate Survives(codec: FrameCodec, level: int, s: Settings, group: seq<byte>) {
    || Unambiguous(s, group)
    || (var frame := codec.compress(group, level); frame.Some? && ENVELOPE_BYTES + |frame.value| < |group|)
    || FrameOfItself(codec, group)
  }

  /** Per-packet compression never occupies more of the wire than the packet itself, and detection hands
      the receiver exactly the serialized packet if and only if the group is one that survives. */
  lemma WirePacket(codec: FrameCodec, level: int, s: Settings, receiver: Limits, groupId: u32, bytes: seq<byte>,
                   index: nat)
    requires Lawful(codec) && 1 <= level <= 19
    requires ValidSettings(s) && Runs.ValidSent(s, map[groupId := bytes])
    requires index < Runs.ChunkCount(s, map[groupId := bytes], groupId)
    requires receiver.maxUncompressedBytes >= s.maxPayloadBytes && receiver.maxOutputBytes >= s.maxPayloadBytes
    ensures var packet := PacketFormat.Packet(s, groupId, bytes, index);
      var compressed := CompressSpec(codec, packet, level, PacketLimits(s), OnlyWhenSmaller);
      && (compressed.Some? <==> codec.compress(packet, level).Some? && |codec.compress(packet, level).value| <= U32_MAX)
      && (compressed.Some? ==>
            && |compressed.value.output| <= |packet| <= s.maxPayloadBytes
            && (Detect(codec, compressed.value.output, receiver) == Some(packet) <==> Survives(codec, level, s, bytes)))
  {
    assert map[groupId := bytes][groupId] == bytes;
    var packet := PacketFormat.Packet(s, groupId, bytes, index);
    if s.enabled {
      GenuinePacketParses(s, groupId, bytes, index);
      PacketIsNoEnvelope(s, groupId, bytes, index);
    }
    var compressed := CompressSpec(codec, packet, level, PacketLimits(s), OnlyWhenSmaller);
    if compressed.Some? {
      NeverLarger(codec, packet, level, PacketLimits(s));
      DetectExactly(codec, packet, level, PacketLimits(s), receiver);
    }
  }

  /** One delivery as it arrives: the compressed packet, and the moment it is received. */
  datatype Arrival = Arrival(wire: seq<byte>, now: int) | Internal(event: Event)

  ghost predicate Carries(codec: FrameCodec, level: int, s: Settings, sent: Runs.Sent, t: Runs.Traffic, a: Arrival)
    requires ValidSettings(s) && Runs.ValidSent(s, sent) && Runs.Genuine(s, sent, t)
  {
    match t
    case Chunk(id, index, now) =>
      var compressed := CompressSpec(
          codec, PacketFormat.Packet(s, id, sent[id], index), level, PacketLimits(s), OnlyWhenSmaller);
      compressed.Some? && a == Arrival(compressed.value.output, now)
    case _ => a == Internal(Runs.ToEvent(s, sent, t))
  }

  /** The receiver's front end. */
  function Unwrap(codec: FrameCodec, receiver: Limits, a: Arrival): Option<Event> {
    match a
    case Internal(event) => Some(event)
    case Arrival(wire, now) =>
      var packet := Detect(codec, wire, receiver);
      if packet.None? then None else Some(Packet(packet.value, now))
  }

  /** Whatever order compressed packets arrive in, the reassembler sees exactly the events of the
      uncompressed run, and so completes groups with exactly the bytes prepared for them. */
  lemma CompressedRun(codec: FrameCodec, level: int, s: Settings, receiver: Limits, sent: Runs.Sent,
                      run: seq<Runs.Traffic>, arrivals: seq<Arrival>, events: seq<Event>)
    requires Lawful(codec) && 1 <= level <= 19
    requires ValidSettings(s) && Runs.ValidSent(s, sent) && Runs.AllGenuine(s, sent, run)
    requires forall id :: id in sent ==> Survives(codec, level, s, sent[id])
    requires receiver.maxUncompressedBytes >= s.maxPayloadBytes && receiver.maxOutputBytes >= s.maxPayloadBytes
    requires |arrivals| == |run| == |events|
    requires forall i :: 0 <= i < |run| ==>
               Runs.Genuine(s, sent, run[i]) && Carries(codec, level, s, sent, run[i], arrivals[i])
    requires forall i :: 0 <= i < |run| && Unwrap(codec, receiver, arrivals[i]).Some? ==>
               events[i] == Unwrap(codec, receiver, arrivals[i]).value
    ensures forall i :: 0 <= i < |run| ==> Unwrap(codec, receiver, arrivals[i]).Some?
    ensures events == Runs.ToEvents(s, sent, run)
    ensures forall i :: 0 <= i < |run| ==> Runs.Faithful(s, sent, run[i], Results(s, EMPTY, events)[i])
  {
    forall i | 0 <= i < |run|
      ensures Unwrap(codec, receiver, arrivals[i]) == Some(Runs.ToEvents(s, sent, run)[i])
    {
      EventAt(s, sent, run, i);
      var t := run[i];
      if t.Chunk? {
        WirePacket(codec, level, s, receiver, t.id, sent[t.id], t.index);
      }
    }
    Runs.GenuineRun(s, sent, run);
  }

  lemma {:induction false} EventAt(s: Settings, sent: Runs.Sent, run: seq<Runs.Traffic>, i: nat)
    requires ValidSettings(s) && Runs.ValidSent(s, sent) && Runs.AllGenuine(s, sent, run) && i < |run|
    ensures Runs.Genuine(s, sent, run[i])
    ensures Runs.ToEvents(s, sent, run)[i] == Runs.ToEvent(s, sent, run[i])
    decreases i
  {
    assert Runs.Genuine(s, sent, run[i]) && Runs.Genuine(s, sent, run[0]);
    if i > 0 {
      assert Runs.AllGenuine(s, sent, run[1..]);
      EventAt(s, sent, run[1..], i - 1);
    }
  }
}
