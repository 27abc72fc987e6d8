/** Decoding undoes encoding: an emitted update, decoded against the baseline it names, is the logical
    update the encoder recorded, whole or field-masked, and what the resulting snapshot then means.

    Models src/pipeline/src/pipeline_encode.cpp against src/pipeline/src/pipeline_decode.cpp. */
module PipelineRoundTrip {
  import opened Bytes
  import opened Snapshot
  import opened Records
  import opened PipelineWire
  import opened PipelineEncode
  import opened PipelineDecode

  /** What a validated population is needed for here: ids that are nonzero and ascend. */
  ghost predicate Population(entities: seq<EntityState>) {
    Ascending(entities) && |entities| <= U32_MAX && forall e :: e in entities ==> e.id != 0
  }

  // ---------------------------------------------------------------- payload parts

  lemma {:induction false} DeletesDecode(bytes: seq<byte>, offset: nat, ids: seq<u32>, rest: seq<byte>)
    requires offset <= |bytes| && DeletesOf(ids) + rest <= bytes[offset..]
    ensures var next := offset + |DeletesOf(ids)|;
      && DecodeDeletes(bytes, offset, |ids|) == Good(ids, next)
      && next <= |bytes| && rest <= bytes[next..]
    decreases ids
  {
    hide BigEndian, FromBigEndian, Capacity;
    if ids == [] {
      assert [] + rest == rest;
    } else {
      Widths();
      var first := BigEndian(ids[0], 4);
      assert DeletesOf(ids) + rest == first + (DeletesOf(ids[1..]) + rest);
      Cut(bytes, offset, first, DeletesOf(ids[1..]) + rest);
      BigEndianRoundTrip(ids[0], 4);
      DeletesDecode(bytes, offset + 4, ids[1..], rest);
      assert [ids[0]] + ids[1..] == ids;
    }
  }

  /** A masked record as written is read back as the canonical entity, when it differs from the
      baseline's or the baseline lacks it. */
  lemma MaskedDecodes(bytes: seq<byte>, offset: nat, layout: RecordLayout, e: EntityState,
                      base: map<u32, EntityState>, previous: nat, rest: seq<byte>)
    requires offset <= |bytes| && RecordOf(layout, true, e, base) + rest <= bytes[offset..]
    requires Changed(layout, e, base) && e.id > previous && forall id :: id in base ==> base[id].id == id
    ensures var next := offset + |RecordOf(layout, true, e, base)|;
      && DecodeMasked(bytes, offset, layout, base, previous) == Record(Canonical(layout, e), next)
      && next <= |bytes| && rest <= bytes[next..]
  {
    hide ReadSelectedFields, WriteSelectedFields, BigEndian, FromBigEndian, Capacity, Canonical;
    Widths();
    var existing := e.id in base;
    var m := if existing then CanonicalFieldMask(Canonical(layout, e), base[e.id]) else ALL_FIELDS;
    var onto := if existing then base[e.id] else BLANK.(id := e.id);
    var selector := if existing then MaskByte(m) else SPAWN_SELECTOR;
    var id, fields := BigEndian(e.id, 4), WriteSelectedFields(layout, m, e);
    var mark := BigEndian(selector, 1);
    assert RecordOf(layout, true, e, base) == id + mark + fields;
    assert id + mark + fields + rest == id + (mark + (fields + rest));
    Cut(bytes, offset, id, mark + (fields + rest));
    Cut(bytes, offset + 4, mark, fields + rest);
    Cut(bytes, offset + 5, fields, rest);
    assert fields <= bytes[offset + 5..];
    BigEndianRoundTrip(e.id, 4);
    BigEndianRoundTrip(selector, 1);
    MaskRoundTrip(m);
    ReadWrittenFields(bytes, offset + 5, layout, m, e, onto);
    MaskSuffices(Canonical(layout, e), onto);
    assert Select(base, e.id, selector, previous) == Selected(onto, m);
  }

  lemma RecordDecodes(bytes: seq<byte>, offset: nat, layout: RecordLayout, format: RecordFormat, e: EntityState,
                      base: map<u32, EntityState>, previous: nat, rest: seq<byte>)
    requires offset <= |bytes| && RecordOf(layout, format.Masked?, e, base) + rest <= bytes[offset..]
    requires format.Masked? ==> format.base == base && Changed(layout, e, base) && e.id > previous
    requires format.Masked? ==> forall id :: id in base ==> base[id].id == id
    ensures var next := offset + |RecordOf(layout, format.Masked?, e, base)|;
      && DecodeRecord(bytes, offset, layout, format, previous) == Record(Canonical(layout, e), next)
      && next <= |bytes| && rest <= bytes[next..]
  {
    hide ReadRecord, WriteRecord, DecodeMasked, Canonical, Changed;
    if format.Masked? {
      MaskedDecodes(bytes, offset, layout, e, base, previous, rest);
    } else {
      Cut(bytes, offset, WriteRecord(layout, e), rest);
      assert WriteRecord(layout, e) <= bytes[offset..];
      ReadWrittenRecord(bytes, offset, layout, e);
    }
  }

  lemma {:induction false} RecordsDecode(bytes: seq<byte>, offset: nat, layout: RecordLayout, format: RecordFormat,
                                         entities: seq<EntityState>, base: map<u32, EntityState>, previous: nat)
    requires offset <= |bytes| && RecordsOf(layout, format.Masked?, entities, base) <= bytes[offset..]
    requires Ascending(entities) && forall i :: 0 <= i < |entities| ==> entities[i].id > previous
    requires format.Masked? ==> format.base == base && forall e :: e in entities ==> Changed(layout, e, base)
    requires format.Masked? ==> forall id :: id in base ==> base[id].id == id
    ensures DecodeRecords(bytes, offset, layout, format, previous, |entities|)
         == Good(CanonicalAll(layout, entities), offset + |RecordsOf(layout, format.Masked?, entities, base)|)
    decreases entities
  {
    hide RecordOf, DecodeRecord, Canonical, Changed;
    if entities != [] {
      AscendingTail(entities);
      var rest := RecordsOf(layout, format.Masked?, entities[1..], base);
      RecordDecodes(bytes, offset, layout, format, entities[0], base, previous, rest);
      var next := offset + |RecordOf(layout, format.Masked?, entities[0], base)|;
      RecordsDecode(bytes, next, layout, format, entities[1..], base, entities[0].id);
      assert CanonicalAll(layout, entities) == [Canonical(layout, entities[0])] + CanonicalAll(layout, entities[1..]);
      assert Canonical(layout, entities[0]).id == entities[0].id;
    }
  }

  // ---------------------------------------------------------------- whole updates

  /** The baseline a client must pass: the one the update was made from, when records are masked. */
  ghost predicate ExactBaseline(p: Pipeline, plan: Plan, input: DecodeInput) {
    p.deltaFieldMask && plan.emitDelta ==> input.baseline == plan.base
  }

  /** The body of an emitted update is the logical update, whatever validation then says of it. */
  lemma BodyDecodes(p: Pipeline, st: EncoderState, input: EncodeInput, h: UpdateHeader, format: RecordFormat)
    requires Decide(p, st, input).Emits? && Population(Current(p, input))
    requires var plan := PlanOf(p, st, input);
      && h == HeaderOf(p, st, input, plan) && UpdateHeaderFits(h)
      && (format.Masked? <==> p.deltaFieldMask && plan.emitDelta)
      && (format.Masked? ==> format.base == BaseTable(plan))
      && |WriteUpdateHeader(h)| == HEADER_BYTES
    ensures var plan := PlanOf(p, st, input);
      var update := LogicalUpdate(p, st, input, plan);
      DecodeBody(p, h, WriteUpdateHeader(h) + Payload(p, st, input, plan), format)
      == if ValidUpdate(update, p.numerics.normalized) then Accepted(h, update) else Rejected(UpdateInvalid)
  {
    hide WriteUpdateHeader, ValidUpdate, RecordsOf, DecodeRecords, DecodeDeletes, DeletesOf, Upserted, Deleted, Current;
    var plan := PlanOf(p, st, input);
    PlanFacts(p, st, input);
    UpsertedFacts(p, st, input, plan);
    var entities, ids := Upserted(p, st, input, plan), Deleted(p, input, plan);
    var records := RecordsOf(LayoutOf(p), format.Masked?, entities, BaseTable(plan));
    var bytes := WriteUpdateHeader(h) + Payload(p, st, input, plan);
    assert bytes[HEADER_BYTES..] == DeletesOf(ids) + records;
    DeletesDecode(bytes, HEADER_BYTES, ids, records);
    if plan.base.Some? {
      TableIds(plan.base.value.entities);
    }
    var next := HEADER_BYTES + |DeletesOf(ids)|;
    RecordsDecode(bytes, next, LayoutOf(p), format, entities, BaseTable(plan), 0);
    assert |bytes| == next + |records|;
    assert KindOf(h) == plan.Kind();
  }

  /** Decoding an emitted update against the baseline it was made from gives exactly the logical
      update that the recorded resulting snapshot was reconstructed from; the only check that can
      still refuse it is that of the decoded values. */
  lemma DecodeEncoded(p: Pipeline, st: EncoderState, input: EncodeInput, latestRemote: nat, received: DecodeInput,
                      validateBaseline: bool)
    requires Population(Current(p, input)) && latestRemote < st.nextSequence
    requires Encode(p, st, input).0.Update? && received.bytes == Encode(p, st, input).0.update.bytes
    requires ExactBaseline(p, PlanOf(p, st, input), received)
    ensures var plan := PlanOf(p, st, input);
      var h, update := HeaderOf(p, st, input, plan), LogicalUpdate(p, st, input, plan);
      var error := BaselineError(p, h, received, validateBaseline);
      Decode(p, latestRemote, received, validateBaseline)
      == if error.Some? then Rejected(error.value)
         else if ValidUpdate(update, p.numerics.normalized) then Accepted(h, update)
         else Rejected(UpdateInvalid)
  {
    hide InspectHeader, DecodeBody, ValidUpdate, EncodePlan, Payload, Upserted, Deleted, Population;
    hide WriteUpdateHeader, Table, BaselineError;
    var plan := PlanOf(p, st, input);
    var h := HeaderOf(p, st, input, plan);
    assert Ascending(Current(p, input)) && |Current(p, input)| <= U32_MAX by {
      PopulationFacts(Current(p, input));
    }
    EmittedUpdateAdmitted(p, st, input, latestRemote);
    if BaselineError(p, h, received, validateBaseline).None? {
      BaselineKnown(p, h, received, validateBaseline);
      var format := FormatOf(p, h, received.baseline);
      BodyDecodes(p, st, input, h, format);
    }
  }

  lemma PopulationFacts(entities: seq<EntityState>)
    requires Population(entities)
    ensures Ascending(entities) && |entities| <= U32_MAX
    ensures forall e :: e in entities ==> e.id != 0
  {
  }

  lemma BaselineKnown(p: Pipeline, h: UpdateHeader, received: DecodeInput, validateBaseline: bool)
    requires BaselineError(p, h, received, validateBaseline).None?
    ensures MaskedPatch(p, h) ==> received.baseline.Some?
  {
  }

  // ---------------------------------------------------------------- what is emitted is valid

  /** The law the float transforms must satisfy: what an entity is decoded to is as valid as it was. */
  ghost predicate LawfulNumerics(p: Pipeline) {
    forall e :: ValidEntity(e, p.numerics.normalized) ==> ValidEntity(Canonical(LayoutOf(p), e), p.numerics.normalized)
  }

  /** Without quantization the law holds: what is decoded is what was encoded, bit for bit. */
  lemma UnquantizedIsLawful(p: Pipeline)
    requires !p.quantization
    ensures LawfulNumerics(p) && forall e :: Canonical(LayoutOf(p), e) == e
  {
    forall e
      ensures Canonical(LayoutOf(p), e) == e
    {
      TokensFit(LayoutOf(p), e.position, e.heading);
    }
  }

  /** Under that law, valid snapshots make valid updates, so nothing that is emitted is refused. */
  lemma LogicalUpdateValid(p: Pipeline, st: EncoderState, input: EncodeInput)
    requires Decide(p, st, input).Emits? && LawfulNumerics(p)
    requires ValidSnapshot(WorldSnapshot(input.snapshot.tick, Current(p, input)), p.numerics.normalized)
    requires PlanOf(p, st, input).base.Some? ==> ValidSnapshot(PlanOf(p, st, input).base.value, p.numerics.normalized)
    ensures ValidUpdate(LogicalUpdate(p, st, input, PlanOf(p, st, input)), p.numerics.normalized)
  {
    hide Upserted, Current, Canonical, ValidEntity, Removed;
    var plan := PlanOf(p, st, input);
    PlanFacts(p, st, input);
    UpsertedFacts(p, st, input, plan);
    var update := LogicalUpdate(p, st, input, plan);
    var entities := Upserted(p, st, input, plan);
    forall i | 0 <= i < |entities|
      ensures ValidEntity(update.upserts[i], p.numerics.normalized)
      ensures update.upserts[i].id in Table(Current(p, input))
    {
      assert entities[i] in Current(p, input);
      var k :| 0 <= k < |Current(p, input)| && Current(p, input)[k] == entities[i];
      TableAt(Current(p, input), k);
    }
    if plan.base.Some? {
      DeletedValid(p, plan.base.value, Table(Current(p, input)));
    }
  }

  lemma DeletedValid(p: Pipeline, base: WorldSnapshot, current: map<u32, EntityState>)
    requires ValidSnapshot(base, p.numerics.normalized)
    ensures var ids := Removed(base.entities, current);
      && AscendingIds(ids)
      && (forall i :: 0 <= i < |ids| ==> ids[i] != 0)
      && (forall id :: id in ids ==> id !in current)
  {
    forall i | 0 <= i < |base.entities|
      ensures base.entities[i].id > 0
    {
      assert ValidEntity(base.entities[i], p.numerics.normalized);
    }
    RemovedAscending(base.entities, current, 0);
  }
}
