/** When bytes are compressed, enveloped, outcome or taken as they are, in the numbers of the envelope, the
    limits and the sizes the codec reports.

    Models src/compression/src/compression.cpp and the limits of app/server/server_replication.cppm and
    app/client/client_replication.cppm. */
module CompressionRules {
  import opened Bytes
  import opened PacketFormat
  import opened Compression

  /** Seventeen bytes of numbers, then the payload. */
  function Envelope(encoding: nat, uncompressedBytes: nat, payload: seq<byte>): seq<byte> {
    WriteFields([0x534E435A, 1, 1, encoding, uncompressedBytes, |payload|], [4, 2, 2, 1, 4, 4]) + payload
  }

  /** What may be compressed at all, and what then leaves the compressor: under Always an envelope around the
      shorter of the frame and the input; under OnlyWhenSmaller an envelope around the frame if it saves bytes and
      fits, otherwise the input itself if that fits. */
  lemma CompressedExactly(codec: FrameCodec, input: seq<byte>, level: int, limits: Limits, policy: Policy)
    ensures var spec := CompressSpec(codec, input, level, limits, policy);
      var frame := codec.compress(input, level);
      var allowed := limits.maxOutputBytes > 0 && 1 <= level <= 19 && 0 < |input| <= limits.maxUncompressedBytes
                     && frame.Some? && |frame.value| <= 0xFFFF_FFFF;
      if !allowed then spec.None?
      else if policy == Always then
        var shorter := |frame.value| < |input|;
        var bytes := if shorter then frame.value else input;
        && (spec.Some? <==> 17 + |bytes| <= limits.maxOutputBytes)
        && (spec.Some? ==>
              && spec.value.encoding == (if shorter then Zstd else Raw) && spec.value.enveloped
              && spec.value.output == Envelope(if shorter then 1 else 0, |input|, bytes))
      else
        var saves := 17 + |frame.value| < |input| && 17 + |frame.value| <= limits.maxOutputBytes;
        && (spec.Some? <==> saves || |input| <= limits.maxOutputBytes)
        && (spec.Some? ==>
              && spec.value.encoding == (if saves then Zstd else Raw) && spec.value.enveloped == saves
              && spec.value.output == (if saves then Envelope(1, |input|, frame.value) else input))
  {
    hide WriteFields;
  }

  /** The numbers of an envelope that is opened. */
  predicate EnvelopeStands(x: seq<nat>, inputBytes: nat, limits: Limits)
    requires |x| == 6
  {
    && x[0] == 0x534E435A && x[1] == 1 && x[2] == 1 && x[3] <= 1
    && 0 < x[4] <= limits.maxUncompressedBytes && 0 < x[5] && x[5] + 17 == inputBytes <= limits.maxOutputBytes
    && (x[3] == 0 ==> x[4] == x[5])
  }

  /** The payload is one whole frame of as many bytes as announced. */
  predicate FrameStands(codec: FrameCodec, frame: seq<byte>, bytes: nat) {
    && codec.contentSize(frame) == Some(bytes) && codec.frameSize(frame) == Some(|frame|)
    && codec.decompress(frame, bytes).Some? && |codec.decompress(frame, bytes).value| == bytes
  }

  /** An envelope is opened exactly when its numbers stand within the limits and, where it holds a frame, that is
      whole. */
  lemma OpenedExactly(codec: FrameCodec, input: seq<byte>, limits: Limits)
    ensures var outcome := Decompress(codec, input, limits);
      var read := ReadFields(input, 0, [4, 2, 2, 1, 4, 4]);
      if read.None? || !EnvelopeStands(read.value, |input|, limits) then outcome.None?
      else
        && |input| >= 17
        && var x, payload := read.value, input[17..];
        if x[3] == 0 then outcome == Some(Decompressed(Raw, payload))
        else if !FrameStands(codec, payload, x[4]) then outcome.None?
        else outcome == Some(Decompressed(Zstd, codec.decompress(payload, x[4]).value))
  {
    EnvelopeLayoutBytes();
    hide ReadFields, LayoutBytes, DecompressRead;
    if 17 <= |input| <= limits.maxOutputBytes && limits.maxUncompressedBytes > 0 {
      var v := ReadFields(input, 0, ENVELOPE_LAYOUT).value;
      ReadExactly(codec, EnvelopeHeader(v[0], v[1], v[2], v[3], v[4], v[5]), v, input[17..], limits);
    }
  }

  lemma ReadExactly(codec: FrameCodec, h: EnvelopeHeader, x: seq<nat>, payload: seq<byte>, limits: Limits)
    requires |x| == 6 && h == EnvelopeHeader(x[0], x[1], x[2], x[3], x[4], x[5])
    requires ValidLimits(limits) && |payload| + 17 <= limits.maxOutputBytes
    ensures var outcome := DecompressRead(codec, h, payload, limits);
      if !EnvelopeStands(x, |payload| + 17, limits) then outcome.None?
      else if x[3] == 0 then outcome == Some(Decompressed(Raw, payload))
      else if !FrameStands(codec, payload, x[4]) then outcome.None?
      else outcome == Some(Decompressed(Zstd, codec.decompress(payload, x[4]).value))
  {
  }

  lemma MagicBytes()
    ensures BigEndian(0x534E435A, 4) == [0x53, 0x4E, 0x43, 0x5A]
  {
    assert BigEndian(0x534E43, 3) == BigEndian(0x534E, 2) + [0x43];
    assert BigEndian(0x534E, 2) == BigEndian(0x53, 1) + [0x4E];
    assert BigEndian(0x53, 1) == BigEndian(0, 0) + [0x53];
  }

  lemma BeginsExactly(bytes: seq<byte>)
    ensures HasCompressionEnvelope(bytes) <==> [0x53, 0x4E, 0x43, 0x5A] <= bytes
  {
    MagicBytes();
    Capacities();
    if |bytes| >= 4 {
      var first := bytes[..4];
      assert bytes[0..4] == first && |first| == 4;
      FromBigEndianRoundTrip(first);
      BigEndianRoundTrip(0x534E435A, 4);
      assert [0x53, 0x4E, 0x43, 0x5A] <= bytes <==> first == [0x53, 0x4E, 0x43, 0x5A];
    }
  }

  /** What a receiver hands on that tells envelopes by their first four bytes: the content of one that holds a frame,
      nothing for any other, and bytes that begin otherwise as they are. */
  lemma DetectedExactly(codec: FrameCodec, bytes: seq<byte>, limits: Limits)
    ensures var outcome := Decompress(codec, bytes, limits);
      Detect(codec, bytes, limits)
      == if !([0x53, 0x4E, 0x43, 0x5A] <= bytes) then Some(bytes)
         else if outcome.Some? && outcome.value.encoding == Zstd then Some(outcome.value.output)
         else None
  {
    hide HasCompressionEnvelope, Decompress;
    BeginsExactly(bytes);
  }

  /** A packet may be given to the transport, under its payload limit, exactly when the codec takes it. */
  lemma PacketSentExactly(codec: FrameCodec, packet: seq<byte>, level: int, s: Settings)
    requires 1 <= level <= 19 && 0 < |packet| <= s.maxPayloadBytes
    ensures var sent := CompressSpec(codec, packet, level, PacketLimits(s), OnlyWhenSmaller);
      && (sent.Some? <==>
            codec.compress(packet, level).Some? && |codec.compress(packet, level).value| <= 0xFFFF_FFFF)
      && (sent.Some? ==> 0 < |sent.value.output| <= |packet|)
      && PacketLimits(s).maxUncompressedBytes == PacketLimits(s).maxOutputBytes == s.maxPayloadBytes
  {
    CompressedExactly(codec, packet, level, PacketLimits(s), OnlyWhenSmaller);
    if CompressSpec(codec, packet, level, PacketLimits(s), OnlyWhenSmaller).Some? {
      NeverLarger(codec, packet, level, PacketLimits(s));
      EnvelopeSize(CompressSpec(codec, packet, level, PacketLimits(s), OnlyWhenSmaller).value.output, packet, codec,
                   level);
    }
  }

  lemma EnvelopeSize(output: seq<byte>, packet: seq<byte>, codec: FrameCodec, level: int)
    requires packet != []
    requires output == packet
      || (codec.compress(packet, level).Some? && output == Envelope(1, |packet|, codec.compress(packet, level).value))
    ensures |output| > 0
  {
    EnvelopeLayoutBytes();
  }
}
