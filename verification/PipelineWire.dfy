/** Pipeline definitions, the 45-byte update header, and header inspection.

    Models src/pipeline/private/pipeline_wire.cppm, pipeline_validate.cppm and the header half of
    src/pipeline/src/pipeline_decode.cpp. */
module PipelineWire {
  import opened Bytes
  import opened Snapshot
  import opened Records

  const ENCODED_UPDATE_MAGIC: nat := 0x534E504C
  const PROTOCOL_VERSION: nat := 1
  const SCHEMA_VERSION: nat := 5
  const FIELD_MASK_SCHEMA_VERSION: nat := 6
  const HEADER_BYTES: nat := 45
  const DELETE_RECORD_BYTES: nat := 4
  const MASKED_UPSERT_MINIMUM_BYTES: nat := 6

  /** The technique flags and the settings that decide behaviour here. `rangesValid` stands for the
      float comparisons on quantization bounds, `scopesValid` for those on AOI and LOD distances, and
      `signature` for the decode signature both ends compute from the definition. */
  datatype Pipeline = Pipeline(
    sendInterval: bool,
    incremental: bool,
    quantization: bool,
    octHeading: bool,
    delta: bool,
    deltaFieldMask: bool,
    bitPacking: bool,
    intervalTicks: u32,
    maxEntitiesPerUpdate: u32,
    areaOfInterest: bool,
    levelOfDetail: bool,
    rangesValid: bool,
    scopesValid: bool,
    signature: u64,
    numerics: Numerics)

  predicate SupportedTechniques(p: Pipeline) {
    && (p.octHeading ==> p.quantization)
    && (p.bitPacking ==> p.quantization && p.octHeading)
    && (p.deltaFieldMask ==> p.delta)
  }

  predicate ValidPipeline(p: Pipeline) {
    && SupportedTechniques(p)
    && (p.sendInterval ==> p.intervalTicks != 0)
    && (p.incremental ==> p.maxEntitiesPerUpdate != 0)
    && (p.quantization ==> p.rangesValid)
    && p.scopesValid
    && (p.levelOfDetail ==> p.areaOfInterest)
  }

  predicate SupportedDecodePipeline(p: Pipeline) {
    SupportedTechniques(p) && (p.quantization ==> p.rangesValid)
  }

  function LayoutOf(p: Pipeline): RecordLayout {
    RecordLayout(p.quantization, p.octHeading, p.numerics)
  }

  function Schema(p: Pipeline): nat {
    if p.deltaFieldMask then FIELD_MASK_SCHEMA_VERSION else SCHEMA_VERSION
  }

  predicate PatchSupported(p: Pipeline) {
    p.delta || p.incremental || p.levelOfDetail
  }

  // ---------------------------------------------------------------- the header

  datatype UpdateHeader = UpdateHeader(
    magic: nat,
    protocol: nat,
    schema: nat,
    signature: nat,
    kind: nat,
    tick: nat,
    sequence: nat,
    baselineSequence: nat,
    upsertCount: nat,
    deleteCount: nat,
    payloadBytes: nat)

  const UPDATE_LAYOUT: Layout := [4, 2, 2, 8, 1, 8, 4, 4, 4, 4, 4]

  function UpdateValues(h: UpdateHeader): (values: seq<nat>)
    ensures |values| == |UPDATE_LAYOUT|
  {
    [h.magic, h.protocol, h.schema, h.signature, h.kind, h.tick, h.sequence, h.baselineSequence,
     h.upsertCount, h.deleteCount, h.payloadBytes]
  }

  ghost predicate UpdateHeaderFits(h: UpdateHeader) {
    && h.magic <= U32_MAX && h.protocol <= U16_MAX && h.schema <= U16_MAX
    && h.signature < 0x1_0000_0000_0000_0000 && h.kind < 0x100 && h.tick < 0x1_0000_0000_0000_0000
    && h.sequence <= U32_MAX && h.baselineSequence <= U32_MAX
    && h.upsertCount <= U32_MAX && h.deleteCount <= U32_MAX && h.payloadBytes <= U32_MAX
  }

  function WriteUpdateHeader(h: UpdateHeader): seq<byte> {
    WriteFields(UpdateValues(h), UPDATE_LAYOUT)
  }

  lemma UpdateLayoutBytes()
    ensures LayoutBytes(UPDATE_LAYOUT) == HEADER_BYTES
  {
    assert UPDATE_LAYOUT[1..] == [2, 2, 8, 1, 8, 4, 4, 4, 4, 4];
    assert [2, 2, 8, 1, 8, 4, 4, 4, 4, 4][1..] == [2, 8, 1, 8, 4, 4, 4, 4, 4];
    assert [2, 8, 1, 8, 4, 4, 4, 4, 4][1..] == [8, 1, 8, 4, 4, 4, 4, 4];
    assert [8, 1, 8, 4, 4, 4, 4, 4][1..] == [1, 8, 4, 4, 4, 4, 4];
    assert [1, 8, 4, 4, 4, 4, 4][1..] == [8, 4, 4, 4, 4, 4];
    assert LayoutBytes([8, 4, 4, 4, 4, 4]) == 28 by {
      assert [8, 4, 4, 4, 4, 4][1..] == [4, 4, 4, 4, 4];
      assert [4, 4, 4, 4, 4][1..] == [4, 4, 4, 4];
      assert [4, 4, 4, 4][1..] == [4, 4, 4];
      Triple(4, 4, 4);
    }
  }

  function ReadUpdateHeader(bytes: seq<byte>): (h: Option<UpdateHeader>)
    ensures h.Some? <==> |bytes| >= HEADER_BYTES
  {
    UpdateLayoutBytes();
    var values := ReadFields(bytes, 0, UPDATE_LAYOUT);
    if values.None? then None
    else
      var v := values.value;
      Some(UpdateHeader(v[0], v[1], v[2], v[3], v[4], v[5], v[6], v[7], v[8], v[9], v[10]))
  }

  lemma ReadWrittenUpdateHeader(h: UpdateHeader, payload: seq<byte>)
    requires UpdateHeaderFits(h)
    ensures |WriteUpdateHeader(h)| == HEADER_BYTES
    ensures ReadUpdateHeader(WriteUpdateHeader(h) + payload) == Some(h)
  {
    UpdateLayoutBytes();
    Capacities();
    ReadWritten(WriteUpdateHeader(h) + payload, 0, UpdateValues(h), UPDATE_LAYOUT);
  }

  /** Every header that can be read fits its fields. */
  lemma ReadHeaderFits(bytes: seq<byte>)
    requires |bytes| >= HEADER_BYTES
    ensures UpdateHeaderFits(ReadUpdateHeader(bytes).value)
  {
    UpdateLayoutBytes();
    Capacities();
    var v := ReadFields(bytes, 0, UPDATE_LAYOUT).value;
    assert Fits(v, UPDATE_LAYOUT);
  }

  function KindByte(kind: SnapshotKind): byte {
    match kind case FullReplace => 0 case Patch => 1
  }

  // ---------------------------------------------------------------- inspection

  datatype HeaderError =
    | UnsupportedPipeline
    | ByteCountOutOfRange
    | Truncated
    | InvalidMagic
    | UnsupportedVersion
    | SignatureMismatch
    | UnsupportedSnapshotKind
    | ReservedSequence
    | StaleSequence
    | InvalidPayloadSize
    | FullReplaceHasBaseline
    | PatchUnsupported
    | PatchHasReservedBaseline
    | PatchBaselineNotEarlier
    | InvalidPayloadBounds

  datatype Inspection = Refused(error: HeaderError) | Admitted(header: UpdateHeader)

  predicate IsPatch(h: UpdateHeader) {
    h.kind == KindByte(Patch)
  }

  /** The record format an update is read in. */
  predicate MaskedPatch(p: Pipeline, h: UpdateHeader) {
    p.deltaFieldMask && IsPatch(h)
  }

  function InspectRead(p: Pipeline, latestRemote: nat, byteCount: nat, h: UpdateHeader): Inspection
    requires byteCount >= HEADER_BYTES
  {
    if h.magic != ENCODED_UPDATE_MAGIC then Refused(InvalidMagic)
    else if h.protocol != PROTOCOL_VERSION || h.schema != Schema(p) then Refused(UnsupportedVersion)
    else if h.signature != p.signature then Refused(SignatureMismatch)
    else if h.kind != KindByte(FullReplace) && h.kind != KindByte(Patch) then Refused(UnsupportedSnapshotKind)
    else if h.sequence == 0 then Refused(ReservedSequence)
    else if h.sequence <= latestRemote then Refused(StaleSequence)
    else if h.payloadBytes != byteCount - HEADER_BYTES then Refused(InvalidPayloadSize)
    else if !IsPatch(h) && h.baselineSequence != 0 then Refused(FullReplaceHasBaseline)
    else if IsPatch(h) && !PatchSupported(p) then Refused(PatchUnsupported)
    else if IsPatch(h) && h.baselineSequence == 0 then Refused(PatchHasReservedBaseline)
    else if IsPatch(h) && h.baselineSequence >= h.sequence then Refused(PatchBaselineNotEarlier)
    else
      var deleteBytes := h.deleteCount * DELETE_RECORD_BYTES;
      var recordBytes := RecordBytes(LayoutOf(p));
      if MaskedPatch(p, h) then
        if h.payloadBytes < deleteBytes + h.upsertCount * MASKED_UPSERT_MINIMUM_BYTES
           || h.payloadBytes > deleteBytes + h.upsertCount * (recordBytes + 1)
        then Refused(InvalidPayloadBounds) else Admitted(h)
      else if h.payloadBytes != deleteBytes + h.upsertCount * recordBytes then Refused(InvalidPayloadBounds)
      else Admitted(h)
  }

  function InspectHeader(p: Pipeline, latestRemote: nat, bytes: seq<byte>): Inspection {
    if !SupportedDecodePipeline(p) then Refused(UnsupportedPipeline)
    else if |bytes| > U32_MAX then Refused(ByteCountOutOfRange)
    else
      var read := ReadUpdateHeader(bytes);
      if read.None? then Refused(Truncated) else InspectRead(p, latestRemote, |bytes|, read.value)
  }

  /** What the eleven numbers of an update header must be: the format's magic, versions and this pipeline's
      signature; a newer sequence; a Patch only where some technique makes one, against an earlier baseline, and
      a FullReplace against none; and a payload of the size that the counts and the record format say. */
  predicate HeaderStands(p: Pipeline, latestRemote: nat, x: seq<nat>, byteCount: nat)
    requires |x| == 11
  {
    var record := if !p.quantization then 30 else if p.octHeading then 16 else 18;
    && x[0] == 0x534E504C && x[1] == 1 && x[2] == (if p.deltaFieldMask then 6 else 5) && x[3] == p.signature
    && x[4] <= 1 && 0 < x[6] && latestRemote < x[6]
    && x[10] + 45 == byteCount
    && (if x[4] == 0 then x[7] == 0 else (p.delta || p.incremental || p.levelOfDetail) && 0 < x[7] < x[6])
    && (if x[4] == 1 && p.deltaFieldMask then 4 * x[9] + 6 * x[8] <= x[10] <= 4 * x[9] + (record + 1) * x[8]
        else x[10] == 4 * x[9] + record * x[8])
  }

  /** The techniques that can be decoded together. */
  lemma DecodableTechniques(p: Pipeline)
    ensures SupportedDecodePipeline(p) <==>
      && (p.octHeading ==> p.quantization) && (p.bitPacking ==> p.octHeading) && (p.deltaFieldMask ==> p.delta)
      && (p.quantization ==> p.rangesValid)
  {
  }

  lemma InspectReadExactly(p: Pipeline, latestRemote: nat, byteCount: nat, h: UpdateHeader)
    requires byteCount >= 45
    ensures var inspected := InspectRead(p, latestRemote, byteCount, h);
      && (inspected.Admitted? <==> HeaderStands(p, latestRemote, UpdateValues(h), byteCount))
      && (inspected.Admitted? ==> inspected.header == h)
  {
  }

  lemma ReadIsValues(bytes: seq<byte>)
    requires |bytes| >= 45
    ensures ReadFields(bytes, 0, [4, 2, 2, 8, 1, 8, 4, 4, 4, 4, 4]) == Some(UpdateValues(ReadUpdateHeader(bytes).value))
  {
    hide ReadFields, LayoutBytes, Capacity;
    UpdateLayoutBytes();
    assert ReadFields(bytes, 0, UPDATE_LAYOUT).value == UpdateValues(ReadUpdateHeader(bytes).value);
  }

  /** Admission, decided by the bytes alone. */
  lemma AdmittedExactly(p: Pipeline, latestRemote: nat, bytes: seq<byte>)
    ensures var inspected := InspectHeader(p, latestRemote, bytes);
      var read := ReadFields(bytes, 0, [4, 2, 2, 8, 1, 8, 4, 4, 4, 4, 4]);
      && (inspected.Admitted? <==>
            SupportedDecodePipeline(p) && 45 <= |bytes| <= U32_MAX
            && read.Some? && HeaderStands(p, latestRemote, read.value, |bytes|))
      && (inspected.Admitted? ==> UpdateValues(inspected.header) == read.value)
  {
    hide InspectRead, HeaderStands, SupportedDecodePipeline, ReadFields, ReadUpdateHeader, UpdateValues;
    if |bytes| >= 45 {
      ReadIsValues(bytes);
      InspectReadExactly(p, latestRemote, |bytes|, ReadUpdateHeader(bytes).value);
    }
  }

  /** The first thing wrong with a header that can be read, in the order of the code. */
  lemma RefusedFor(p: Pipeline, latestRemote: nat, byteCount: nat, h: UpdateHeader)
    requires byteCount >= 45 && InspectRead(p, latestRemote, byteCount, h).Refused?
    ensures InspectRead(p, latestRemote, byteCount, h).error ==
      if h.magic != 0x534E504C then InvalidMagic
      else if h.protocol != 1 || h.schema != (if p.deltaFieldMask then 6 else 5) then UnsupportedVersion
      else if h.signature != p.signature then SignatureMismatch
      else if h.kind > 1 then UnsupportedSnapshotKind
      else if h.sequence == 0 then ReservedSequence
      else if h.sequence <= latestRemote then StaleSequence
      else if h.payloadBytes + 45 != byteCount then InvalidPayloadSize
      else if h.kind == 0 && h.baselineSequence != 0 then FullReplaceHasBaseline
      else if h.kind == 1 && !p.delta && !p.incremental && !p.levelOfDetail then PatchUnsupported
      else if h.kind == 1 && h.baselineSequence == 0 then PatchHasReservedBaseline
      else if h.kind == 1 && h.baselineSequence >= h.sequence then PatchBaselineNotEarlier
      else InvalidPayloadBounds
  {
  }

  /** An admitted update begins with the magic, the versions and this pipeline's signature. */
  lemma AdmittedBegins(p: Pipeline, latestRemote: nat, bytes: seq<byte>)
    requires InspectHeader(p, latestRemote, bytes).Admitted?
    ensures ReadFields(bytes, 0, [4, 2, 2, 8])
         == Some([0x534E504C, 1, if p.deltaFieldMask then 6 else 5, p.signature])
  {
    hide InspectHeader, ReadFields;
    AdmittedExactly(p, latestRemote, bytes);
    var layout := [4, 2, 2, 8, 1, 8, 4, 4, 4, 4, 4];
    var x := ReadFields(bytes, 0, layout).value;
    ReadPrefix(bytes, 0, layout, 4);
    assert layout[..4] == [4, 2, 2, 8] && x[..4] == [x[0], x[1], x[2], x[3]];
  }
}
