/** The sending half of packetization: settings, group preparation, the 25-byte
    packet header and chunk serialization.

    Models src/packetization/src/packetization.cpp and its interface unit. */
module PacketFormat {
  import opened Bytes

  const PACKET_HEADER_BYTES: nat := 25
  const MAXIMUM_PACKETIZED_GROUP_BYTES: nat := 4 * 1024 * 1024
  const MAXIMUM_CHUNKS_PER_GROUP: nat := 4096
  const MAXIMUM_IN_FLIGHT_GROUPS: nat := 64
  const MAXIMUM_INCOMPLETE_GROUP_BYTES: nat := 8 * 1024 * 1024

  const PACKET_MAGIC: nat := 0x534E504B
  const PACKET_PROTOCOL_VERSION: nat := 1
  const PACKET_SCHEMA_VERSION: nat := 1
  const BYTE_GROUP_CHUNK_KIND: nat := 1

  // ---------------------------------------------------------------- settings

  datatype Settings = Settings(
    enabled: bool,
    maxPayloadBytes: u32,
    maxGroupBytes: u32,
    maxChunksPerGroup: u32,
    maxInFlightGroups: u32,
    maxIncompleteBytes: u32,
    reassemblyTimeout: int)

  datatype SettingsError =
    | NonPositiveByteLimit
    | GroupLimitTooLarge
    | ChunkLimitOutOfRange
    | InFlightLimitOutOfRange
    | IncompleteBudgetInvalid
    | NonPositiveTimeout
    | PayloadCannotFitHeader
    | GroupLimitExceedsChunks

  /** The first violated setting, in the order the code checks them. */
  function ValidateSettings(s: Settings): Option<SettingsError> {
    if s.maxPayloadBytes == 0 || s.maxGroupBytes == 0 then Some(NonPositiveByteLimit)
    else if s.maxGroupBytes > MAXIMUM_PACKETIZED_GROUP_BYTES then Some(GroupLimitTooLarge)
    else if s.maxChunksPerGroup == 0 || s.maxChunksPerGroup > MAXIMUM_CHUNKS_PER_GROUP then Some(ChunkLimitOutOfRange)
    else if s.maxInFlightGroups == 0 || s.maxInFlightGroups > MAXIMUM_IN_FLIGHT_GROUPS then
      Some(InFlightLimitOutOfRange)
    else if s.maxIncompleteBytes < s.maxGroupBytes || s.maxIncompleteBytes > MAXIMUM_INCOMPLETE_GROUP_BYTES then
      Some(IncompleteBudgetInvalid)
    else if s.reassemblyTimeout <= 0 then Some(NonPositiveTimeout)
    else if !s.enabled then None
    else if s.maxPayloadBytes <= PACKET_HEADER_BYTES then Some(PayloadCannotFitHeader)
    else if s.maxGroupBytes > (s.maxPayloadBytes - PACKET_HEADER_BYTES) * s.maxChunksPerGroup then
      Some(GroupLimitExceedsChunks)
    else None
  }

  predicate ValidSettings(s: Settings) {
    ValidateSettings(s).None?
  }

  /** A C++ call that may throw. */
  datatype Checked<+T> = Thrown | Returned(value: T)

  // ---------------------------------------------------------------- chunk arithmetic

  function Min(a: nat, b: nat): nat {
    if a <= b then a else b
  }

  function CeilingDivide(value: nat, divisor: nat): (q: nat)
    requires divisor > 0
  {
    value / divisor + if value % divisor != 0 then 1 else 0
  }

  /** Payload bytes carried by each chunk of an enabled session. */
  function ChunkCapacity(s: Settings): (c: nat)
    requires ValidSettings(s) && s.enabled
    ensures c > 0
  {
    s.maxPayloadBytes - PACKET_HEADER_BYTES
  }

  /** Chunk `index` of a group of `size` bytes covers [ChunkStart, ChunkEnd). */
  function ChunkStart(capacity: nat, index: nat): nat {
    index * capacity
  }

  function ChunkEnd(size: nat, capacity: nat, index: nat): nat {
    Min(size, index * capacity + capacity)
  }

  lemma CeilingDivideBounds(value: nat, divisor: nat)
    requires divisor > 0
    ensures CeilingDivide(value, divisor) * divisor >= value
    ensures value > 0 ==> CeilingDivide(value, divisor) > 0 && (CeilingDivide(value, divisor) - 1) * divisor < value
  {
    var q := value / divisor;
    assert value == q * divisor + value % divisor;
    assert (q + 1) * divisor == q * divisor + divisor;
    if value % divisor == 0 && value > 0 {
      assert q != 0;
      assert (q - 1) * divisor == q * divisor - divisor;
    }
  }

  /** The ceiling is the one count whose chunks cover the group without an empty chunk. */
  lemma CeilingDivideUnique(value: nat, divisor: nat, n: nat)
    requires divisor > 0 && n > 0
    requires (n - 1) * divisor < value <= n * divisor
    ensures CeilingDivide(value, divisor) == n
  {
    var q := CeilingDivide(value, divisor);
    CeilingDivideBounds(value, divisor);
    if q < n {
      MultiplyMonotone(q, n - 1, divisor);
    } else if n < q {
      MultiplyMonotone(n, q - 1, divisor);
    }
  }

  lemma {:induction false} MultiplyMonotone(a: nat, b: nat, c: nat)
    requires a <= b
    ensures a * c <= b * c
    decreases b - a
  {
    if a < b {
      MultiplyMonotone(a, b - 1, c);
      assert (b - 1) * c == b * c - c;
    }
  }

  /** Every chunk index below the count denotes a non-empty range inside the group, and
      ranges of different chunks do not meet. */
  lemma ChunkRanges(size: nat, capacity: nat, i: nat, j: nat)
    requires capacity > 0 && size > 0 && i < j < CeilingDivide(size, capacity)
    ensures ChunkStart(capacity, i) + capacity <= ChunkStart(capacity, j) < size
    ensures ChunkEnd(size, capacity, i) == ChunkStart(capacity, i) + capacity
  {
    CeilingDivideBounds(size, capacity);
    MultiplyMonotone(j, CeilingDivide(size, capacity) - 1, capacity);
    MultiplyMonotone(i + 1, j, capacity);
    assert (i + 1) * capacity == i * capacity + capacity;
  }

  lemma ChunkRange(size: nat, capacity: nat, i: nat)
    requires capacity > 0 && size > 0 && i < CeilingDivide(size, capacity)
    ensures ChunkStart(capacity, i) < ChunkEnd(size, capacity, i) <= size
  {
    CeilingDivideBounds(size, capacity);
    MultiplyMonotone(i, CeilingDivide(size, capacity) - 1, capacity);
  }

  function ChunkOf(bytes: seq<byte>, capacity: nat, index: nat): (payload: seq<byte>)
    requires capacity > 0 && |bytes| > 0 && index < CeilingDivide(|bytes|, capacity)
  {
    ChunkRange(|bytes|, capacity, index);
    bytes[ChunkStart(capacity, index)..ChunkEnd(|bytes|, capacity, index)]
  }

  // ---------------------------------------------------------------- preparation

  datatype PacketizationReport = PacketizationReport(
    groupId: u32,
    groupBytes: nat,
    chunkCount: nat,
    totalHeaderBytes: nat,
    totalPacketBytes: nat,
    prepared: bool)

  datatype PreparedByteGroup = PreparedByteGroup(
    groupId: u32,
    bytes: seq<byte>,
    chunkPayloadCapacity: nat,
    chunkCount: nat,
    report: PacketizationReport)

  datatype Preparation = Rejected(report: PacketizationReport) | Prepared(group: PreparedByteGroup)

  function PrepareByteGroup(s: Settings, groupId: u32, bytes: seq<byte>): Checked<Preparation> {
    if !ValidSettings(s) then Thrown
    else
      var empty := PacketizationReport(groupId, 0, 0, 0, 0, false);
      if groupId == 0 || bytes == [] || |bytes| > s.maxGroupBytes then Returned(Rejected(empty))
      else
        var sized := empty.(groupBytes := |bytes|);
        var capacity := if s.enabled then s.maxPayloadBytes - PACKET_HEADER_BYTES else s.maxPayloadBytes;
        var count := if s.enabled then CeilingDivide(|bytes|, capacity) else 1;
        if s.enabled && (count == 0 || count > s.maxChunksPerGroup || count > U16_MAX) then Returned(Rejected(sized))
        else if !s.enabled && |bytes| > s.maxPayloadBytes then Returned(Rejected(sized))
        else
          var headers := if s.enabled then count * PACKET_HEADER_BYTES else 0;
          if headers > U32_MAX || headers + |bytes| > U32_MAX then Returned(Rejected(sized))
          else
            var report := PacketizationReport(groupId, |bytes|, count, headers, headers + |bytes|, true);
            Returned(Prepared(PreparedByteGroup(groupId, bytes, capacity, count, report)))
  }

  /** Under valid settings the chunk-count and 32-bit range refusals never fire: a group is refused
      exactly for a zero id, an empty or oversized group, or a raw group above the payload limit. */
  lemma PreparedExactly(s: Settings, groupId: u32, bytes: seq<byte>)
    requires ValidSettings(s)
    ensures var outcome := PrepareByteGroup(s, groupId, bytes);
      && outcome.Returned?
      && (outcome.value.Prepared? <==>
          groupId != 0 && 0 < |bytes| <= s.maxGroupBytes && (s.enabled || |bytes| <= s.maxPayloadBytes))
  {
    if s.enabled && 0 < |bytes| <= s.maxGroupBytes {
      var capacity := ChunkCapacity(s);
      var count := CeilingDivide(|bytes|, capacity);
      CeilingDivideBounds(|bytes|, capacity);
      if count > s.maxChunksPerGroup {
        MultiplyMonotone(s.maxChunksPerGroup, count - 1, capacity);
      }
    }
  }

  /** What preparation reports: the count whose chunks cover the group without an empty one, 25 header bytes a
      chunk, or the size alone when the group was refused after it was measured. */
  lemma PreparedNumbers(s: Settings, groupId: u32, bytes: seq<byte>)
    requires ValidSettings(s)
    ensures match PrepareByteGroup(s, groupId, bytes).value
      case Prepared(group) =>
        var n, capacity := group.chunkCount, group.chunkPayloadCapacity;
        && group.groupId == groupId && group.bytes == bytes
        && capacity == (if s.enabled then s.maxPayloadBytes - 25 else s.maxPayloadBytes)
        && (if s.enabled then (n - 1) * capacity < |bytes| <= n * capacity else n == 1)
        && var headers := if s.enabled then 25 * n else 0;
        group.report == PacketizationReport(groupId, |bytes|, n, headers, headers + |bytes|, true)
      case Rejected(report) =>
        var measured := groupId != 0 && bytes != [] && |bytes| <= s.maxGroupBytes;
        report == PacketizationReport(groupId, if measured then |bytes| else 0, 0, 0, 0, false)
  {
    if s.enabled {
      CeilingDivideBounds(|bytes|, ChunkCapacity(s));
    }
  }

  // ---------------------------------------------------------------- the header

  datatype PacketHeader = PacketHeader(
    magic: nat,
    protocol: nat,
    schema: nat,
    kind: nat,
    groupId: nat,
    chunkIndex: nat,
    chunkCount: nat,
    groupBytes: nat,
    chunkBytes: nat)

  const HEADER_LAYOUT: Layout := [4, 2, 2, 1, 4, 2, 2, 4, 4]

  function HeaderValues(h: PacketHeader): (values: seq<nat>)
    ensures |values| == |HEADER_LAYOUT|
  {
    [h.magic, h.protocol, h.schema, h.kind, h.groupId, h.chunkIndex, h.chunkCount, h.groupBytes, h.chunkBytes]
  }

  ghost predicate HeaderFits(h: PacketHeader) {
    Fits(HeaderValues(h), HEADER_LAYOUT)
  }

  function WriteHeader(h: PacketHeader): (bytes: seq<byte>) {
    WriteFields(HeaderValues(h), HEADER_LAYOUT)
  }

  lemma HeaderLayoutBytes()
    ensures LayoutBytes(HEADER_LAYOUT) == PACKET_HEADER_BYTES
  {
    assert HEADER_LAYOUT[1..] == [2, 2, 1, 4, 2, 2, 4, 4];
    assert HEADER_LAYOUT[1..][1..] == [2, 1, 4, 2, 2, 4, 4];
    assert HEADER_LAYOUT[1..][1..][1..] == [1, 4, 2, 2, 4, 4];
    assert LayoutBytes([1, 4, 2, 2, 4, 4]) == 17 by {
      assert [1, 4, 2, 2, 4, 4][1..] == [4, 2, 2, 4, 4];
      assert [4, 2, 2, 4, 4][1..] == [2, 2, 4, 4];
      assert [2, 2, 4, 4][1..] == [2, 4, 4];
      assert [2, 4, 4][1..] == [4, 4];
    }
  }

  function ReadHeader(packet: seq<byte>): (h: Option<PacketHeader>)
    ensures h.Some? <==> |packet| >= PACKET_HEADER_BYTES
  {
    HeaderLayoutBytes();
    var values := ReadFields(packet, 0, HEADER_LAYOUT);
    if values.None? then None
    else
      var v := values.value;
      Some(PacketHeader(v[0], v[1], v[2], v[3], v[4], v[5], v[6], v[7], v[8]))
  }

  /** The first 25 bytes of a packet are exactly the encoding of the header read from them. */
  lemma HeaderReadExactly(packet: seq<byte>)
    requires |packet| >= PACKET_HEADER_BYTES
    ensures HeaderFits(ReadHeader(packet).value)
    ensures WriteHeader(ReadHeader(packet).value) == packet[..PACKET_HEADER_BYTES]
  {
    HeaderLayoutBytes();
    assert HeaderValues(ReadHeader(packet).value) == ReadFields(packet, 0, HEADER_LAYOUT).value;
    WriteRead(packet, 0, HEADER_LAYOUT);
  }

  lemma ReadWrittenHeader(h: PacketHeader, payload: seq<byte>)
    requires HeaderFits(h)
    ensures |WriteHeader(h)| == PACKET_HEADER_BYTES
    ensures ReadHeader(WriteHeader(h) + payload) == Some(h)
  {
    HeaderLayoutBytes();
    ReadWritten(WriteHeader(h) + payload, 0, HeaderValues(h), HEADER_LAYOUT);
    var read := ReadFields(WriteHeader(h) + payload, 0, HEADER_LAYOUT).value;
    assert read == HeaderValues(h);
  }

  predicate HeaderIdentityIsValid(h: PacketHeader) {
    && h.magic == PACKET_MAGIC
    && h.protocol == PACKET_PROTOCOL_VERSION
    && h.schema == PACKET_SCHEMA_VERSION
    && h.kind == BYTE_GROUP_CHUNK_KIND
  }

  predicate HeaderFieldsAreWithinBounds(s: Settings, h: PacketHeader, packetBytes: nat)
    requires packetBytes >= PACKET_HEADER_BYTES
  {
    && h.groupId != 0
    && h.groupBytes != 0
    && h.groupBytes <= s.maxGroupBytes
    && h.chunkCount != 0
    && h.chunkCount <= s.maxChunksPerGroup
    && h.chunkIndex < h.chunkCount
    && h.chunkBytes == packetBytes - PACKET_HEADER_BYTES
    && packetBytes <= s.maxPayloadBytes
  }

  predicate ChunkGeometryIsConsistent(h: PacketHeader, capacity: nat)
    requires capacity > 0
  {
    && CeilingDivide(h.groupBytes, capacity) == h.chunkCount
    && ChunkStart(capacity, h.chunkIndex) < h.groupBytes
  }

  predicate ChunkSizeIsConsistent(h: PacketHeader, capacity: nat)
    requires ChunkStart(capacity, h.chunkIndex) < h.groupBytes
  {
    h.chunkBytes == Min(capacity, h.groupBytes - ChunkStart(capacity, h.chunkIndex))
  }

  // ---------------------------------------------------------------- serialization

  predicate PreparedMetadataIsValid(s: Settings, prepared: PreparedByteGroup, chunkIndex: nat)
    requires ValidSettings(s)
  {
    var capacity := if s.enabled then s.maxPayloadBytes - PACKET_HEADER_BYTES else s.maxPayloadBytes;
    var count := if s.enabled then CeilingDivide(|prepared.bytes|, capacity) else 1;
    var headers := if s.enabled then count * PACKET_HEADER_BYTES else 0;
    && prepared.report.prepared
    && prepared.groupId != 0
    && prepared.bytes != []
    && |prepared.bytes| <= s.maxGroupBytes
    && (s.enabled || |prepared.bytes| <= s.maxPayloadBytes)
    && prepared.chunkPayloadCapacity == capacity
    && 0 != count <= s.maxChunksPerGroup
    && count <= U16_MAX
    && prepared.chunkCount == count
    && chunkIndex < prepared.chunkCount
    && prepared.report.groupId == prepared.groupId
    && prepared.report.groupBytes == |prepared.bytes|
    && prepared.report.chunkCount == count
    && prepared.report.totalHeaderBytes == headers
    && prepared.report.totalPacketBytes == headers + |prepared.bytes|
  }

  function ChunkHeader(groupId: nat, size: nat, capacity: nat, index: nat): PacketHeader
    requires capacity > 0 && size > 0 && index < CeilingDivide(size, capacity)
  {
    ChunkRange(size, capacity, index);
    PacketHeader(PACKET_MAGIC, PACKET_PROTOCOL_VERSION, PACKET_SCHEMA_VERSION, BYTE_GROUP_CHUNK_KIND,
                 groupId, index, CeilingDivide(size, capacity), size,
                 ChunkEnd(size, capacity, index) - ChunkStart(capacity, index))
  }

  /** The packet that carries chunk `index` of a group. */
  function ChunkPacket(groupId: nat, bytes: seq<byte>, capacity: nat, index: nat): (packet: seq<byte>)
    requires capacity > 0 && |bytes| > 0 && index < CeilingDivide(|bytes|, capacity)
  {
    WriteHeader(ChunkHeader(groupId, |bytes|, capacity, index)) + ChunkOf(bytes, capacity, index)
  }

  /** The packet that one chunk of a group becomes, enabled or raw. */
  function Packet(s: Settings, groupId: nat, bytes: seq<byte>, index: nat): (packet: seq<byte>)
    requires ValidSettings(s) && |bytes| > 0
    requires s.enabled ==> index < CeilingDivide(|bytes|, ChunkCapacity(s))
  {
    if s.enabled then ChunkPacket(groupId, bytes, ChunkCapacity(s), index) else bytes
  }

  /** Fills the scratch buffer with the header fields and the chunk's bytes; throws on metadata that does not
      belong to these settings. */
  method SerializeGroupChunk(s: Settings, prepared: PreparedByteGroup, chunkIndex: u16)
    returns (packet: Checked<seq<byte>>)
    ensures packet.Thrown? <==> !ValidSettings(s) || !PreparedMetadataIsValid(s, prepared, chunkIndex)
    ensures packet.Returned? ==> packet.value == Packet(s, prepared.groupId, prepared.bytes, chunkIndex)
  {
    if !ValidSettings(s) || !PreparedMetadataIsValid(s, prepared, chunkIndex) {
      return Thrown;
    }
    if !s.enabled {
      return Returned(prepared.bytes);
    }
    var offset := chunkIndex * prepared.chunkPayloadCapacity;
    ChunkRange(|prepared.bytes|, prepared.chunkPayloadCapacity, chunkIndex);
    var remaining := |prepared.bytes| - offset;
    var chunkBytes := Min(remaining, prepared.chunkPayloadCapacity);
    var scratch := WriteHeader(PacketHeader(PACKET_MAGIC, PACKET_PROTOCOL_VERSION, PACKET_SCHEMA_VERSION,
      BYTE_GROUP_CHUNK_KIND, prepared.groupId, chunkIndex, prepared.chunkCount, |prepared.bytes|, chunkBytes));
    scratch := scratch + prepared.bytes[offset..offset + chunkBytes];
    return Returned(scratch);
  }

  /** A prepared group is never refused by the serializer under the settings it was prepared with. */
  lemma PreparedSerializes(s: Settings, groupId: u32, bytes: seq<byte>, index: nat)
    requires PrepareByteGroup(s, groupId, bytes).Returned? && PrepareByteGroup(s, groupId, bytes).value.Prepared?
    requires index < PrepareByteGroup(s, groupId, bytes).value.group.chunkCount
    ensures PreparedMetadataIsValid(s, PrepareByteGroup(s, groupId, bytes).value.group, index)
  {
    PreparedExactly(s, groupId, bytes);
  }

  /** And it serializes nothing else: metadata passes exactly if preparing the same bytes under the same id makes
      it again. */
  lemma SerializesExactlyThePrepared(s: Settings, prepared: PreparedByteGroup, index: nat)
    requires ValidSettings(s)
    ensures PreparedMetadataIsValid(s, prepared, index) <==>
      PrepareByteGroup(s, prepared.groupId, prepared.bytes) == Returned(Prepared(prepared))
      && index < prepared.chunkCount
  {
    PreparedExactly(s, prepared.groupId, prepared.bytes);
  }

  /** The header of a chunk as it stands on the wire. */
  function NineNumbers(groupId: nat, index: nat, count: nat, size: nat, length: nat): seq<byte> {
    WriteFields([0x534E504B, 1, 1, 1, groupId, index, count, size, length], [4, 2, 2, 1, 4, 2, 2, 4, 4])
  }

  /** The bytes of a packet: nine big-endian numbers, then the chunk's slice of the group; without packetization
      the group itself. */
  lemma PacketBytes(s: Settings, groupId: u32, bytes: seq<byte>, index: nat)
    requires ValidSettings(s) && groupId != 0 && 0 < |bytes| <= s.maxGroupBytes
    requires s.enabled ==> index < CeilingDivide(|bytes|, ChunkCapacity(s))
    ensures var packet := Packet(s, groupId, bytes, index);
      if !s.enabled then packet == bytes
      else
        var capacity := s.maxPayloadBytes - 25;
        var n, start := CeilingDivide(|bytes|, capacity), index * capacity;
        var length := if index + 1 < n then capacity else |bytes| - start;
        && 0 < length <= capacity && start + length <= |bytes|
        && packet == NineNumbers(groupId, index, n, |bytes|, length) + bytes[start..start + length]
  {
    hide WriteFields;
    if s.enabled {
      var capacity := ChunkCapacity(s);
      ChunkRange(|bytes|, capacity, index);
      if index + 1 < CeilingDivide(|bytes|, capacity) {
        ChunkRanges(|bytes|, capacity, index, index + 1);
      } else {
        CeilingDivideBounds(|bytes|, capacity);
      }
    }
  }

  /** The receiver reads back from a genuine packet the header the sender wrote, finds it consistent
      with the shared settings, and finds the chunk's bytes behind it. */
  lemma GenuinePacketParses(s: Settings, groupId: u32, bytes: seq<byte>, index: nat)
    requires ValidSettings(s) && s.enabled
    requires groupId != 0 && 0 < |bytes| <= s.maxGroupBytes
    requires index < CeilingDivide(|bytes|, ChunkCapacity(s))
    ensures var packet := Packet(s, groupId, bytes, index);
      var h := ChunkHeader(groupId, |bytes|, ChunkCapacity(s), index);
      && PACKET_HEADER_BYTES < |packet| <= s.maxPayloadBytes
      && ReadHeader(packet) == Some(h)
      && packet[PACKET_HEADER_BYTES..] == ChunkOf(bytes, ChunkCapacity(s), index)
      && HeaderIdentityIsValid(h)
      && HeaderFieldsAreWithinBounds(s, h, |packet|)
      && ChunkGeometryIsConsistent(h, ChunkCapacity(s))
      && ChunkSizeIsConsistent(h, ChunkCapacity(s))
  {
    var capacity := ChunkCapacity(s);
    var h := ChunkHeader(groupId, |bytes|, capacity, index);
    PreparedExactly(s, groupId, bytes);
    ChunkRange(|bytes|, capacity, index);
    Capacities();
    assert HeaderFits(h);
    ReadWrittenHeader(h, ChunkOf(bytes, capacity, index));
  }
}
