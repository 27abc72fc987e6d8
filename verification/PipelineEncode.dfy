/** Encoding of snapshots: the mode decision over the technique flags, the selection of upserts and
    deletes, the payload, the resulting snapshot and the encoder state.

    Area-of-interest retention and level-of-detail scheduling enter as inputs (the retained entities,
    the chosen indices). Models src/pipeline/src/pipeline_encode.cpp and
    src/pipeline/private/pipeline_selection.cppm. */
module PipelineEncode {
  import opened Bytes
  import opened Snapshot
  import opened Records
  import opened PipelineWire

  datatype EncoderState = EncoderState(
    nextSequence: nat, incrementalCursor: nat, incrementalSeeded: bool, levelOfDetailSeeded: bool)

  datatype EncodeInput = EncodeInput(
    snapshot: WorldSnapshot,
    baseline: Option<WorldSnapshot>,
    baselineSequence: u32,
    replica: Option<WorldSnapshot>,
    replicaSequence: u32,
    recoveryIds: seq<u32>,
    forceFullReplace: bool,
    interestValid: bool,
    retained: seq<EntityState>,
    pending: set<nat>,
    pendingCursor: nat)

  datatype EncodeError =
    | InvalidPipeline
    | BaselineSequenceWithoutBaseline
    | BaselineWithoutDelta
    | BaselineSequenceReserved
    | ReplicaSequenceWithoutReplica
    | ReplicaSequenceReserved
    | ReplicaWithLevelOfDetail
    | RecoveryIdsInvalid
    | ForcedFullReplaceWithBaseline
    | EntityCountOutOfRange
    | InterestSourceInvalid
    | SequenceReserved
    | SequenceExhausted
    | BaselineNotEarlier
    | ReplicaNotEarlier
    | InitialSynchronizationMustBeFull
    | LevelOfDetailNeedsBaseline
    | ReplicaNotAllowed
    | IncrementalNeedsReplica
    | RecoveryNeedsPatch
    | UpdateTooLarge

  /** What an update will be, before anything is selected. */
  datatype Plan = Plan(
    emitDelta: bool,
    scheduleLevelOfDetail: bool,
    scheduleIncremental: bool,
    baselineSequence: u32,
    base: Option<WorldSnapshot>)
  {
    predicate EmitsPatch() {
      scheduleLevelOfDetail || emitDelta || scheduleIncremental
    }

    function Kind(): SnapshotKind {
      if EmitsPatch() then Patch else FullReplace
    }
  }

  datatype Decision = Throws(error: EncodeError) | Skips | Emits(plan: Plan)

  predicate EmitsAt(p: Pipeline, tick: u64) {
    p.sendInterval ==> p.intervalTicks != 0 && tick % p.intervalTicks == 0
  }

  predicate RecoveryIdsValid(ids: seq<u32>) {
    forall i :: 0 <= i < |ids| ==> ids[i] != 0 && (i > 0 ==> ids[i - 1] < ids[i])
  }

  function PlanOf(p: Pipeline, st: EncoderState, input: EncodeInput): Plan {
    var scheduleLevelOfDetail := p.levelOfDetail && st.levelOfDetailSeeded && !input.forceFullReplace;
    var emitDelta := !input.forceFullReplace && p.delta && input.baseline.Some?;
    var seedIncremental :=
      !p.levelOfDetail && p.incremental && !p.delta && !st.incrementalSeeded && !input.forceFullReplace;
    var scheduleIncremental :=
      p.incremental
      && (scheduleLevelOfDetail
          || (!p.levelOfDetail && !input.forceFullReplace && !seedIncremental && (!p.delta || emitDelta)));
    var explicitBaseline := scheduleLevelOfDetail || emitDelta;
    Plan(emitDelta, scheduleLevelOfDetail, scheduleIncremental,
         if explicitBaseline then input.baselineSequence else if scheduleIncremental then input.replicaSequence else 0,
         if explicitBaseline then input.baseline else if scheduleIncremental then input.replica else None)
  }

  /** The checks on the caller's arguments, in the order of the code. */
  function ArgumentError(p: Pipeline, input: EncodeInput): Option<EncodeError> {
    if !ValidPipeline(p) then Some(InvalidPipeline)
    else if input.baseline.None? && input.baselineSequence != 0 then Some(BaselineSequenceWithoutBaseline)
    else if input.baseline.Some? && !p.delta && !p.levelOfDetail then Some(BaselineWithoutDelta)
    else if input.baseline.Some? && input.baselineSequence == 0 then Some(BaselineSequenceReserved)
    else if input.replica.None? && input.replicaSequence != 0 then Some(ReplicaSequenceWithoutReplica)
    else if input.replica.Some? && input.replicaSequence == 0 then Some(ReplicaSequenceReserved)
    else if p.levelOfDetail && input.replica.Some? then Some(ReplicaWithLevelOfDetail)
    else if !RecoveryIdsValid(input.recoveryIds) then Some(RecoveryIdsInvalid)
    else if input.forceFullReplace && (input.baseline.Some? || input.replica.Some? || input.recoveryIds != []) then
      Some(ForcedFullReplaceWithBaseline)
    else if |input.snapshot.entities| > U32_MAX then Some(EntityCountOutOfRange)
    else None
  }

  /** The checks on an emitting tick. */
  function EmissionError(p: Pipeline, st: EncoderState, input: EncodeInput): Option<EncodeError> {
    var plan := PlanOf(p, st, input);
    if p.areaOfInterest && !input.interestValid then Some(InterestSourceInvalid)
    else if st.nextSequence == 0 then Some(SequenceReserved)
    else if st.nextSequence >= U32_MAX then Some(SequenceExhausted)
    else if input.baseline.Some? && input.baselineSequence >= st.nextSequence then Some(BaselineNotEarlier)
    else if input.replica.Some? && input.replicaSequence >= st.nextSequence then Some(ReplicaNotEarlier)
    else if p.levelOfDetail && !st.levelOfDetailSeeded && input.baseline.Some? then
      Some(InitialSynchronizationMustBeFull)
    else if plan.scheduleLevelOfDetail && input.baseline.None? then Some(LevelOfDetailNeedsBaseline)
    else if input.replica.Some? && (!p.incremental || p.delta || p.levelOfDetail) then Some(ReplicaNotAllowed)
    else if plan.scheduleIncremental && !p.levelOfDetail && !p.delta && input.replica.None? then
      Some(IncrementalNeedsReplica)
    else if input.recoveryIds != [] && !plan.EmitsPatch() then Some(RecoveryNeedsPatch)
    else None
  }

  function Decide(p: Pipeline, st: EncoderState, input: EncodeInput): Decision {
    if ArgumentError(p, input).Some? then Throws(ArgumentError(p, input).value)
    else if !EmitsAt(p, input.snapshot.tick) then Skips
    else if EmissionError(p, st, input).Some? then Throws(EmissionError(p, st, input).value)
    else Emits(PlanOf(p, st, input))
  }

  // ---------------------------------------------------------------- selection

  /** The population an update is made from. */
  function Current(p: Pipeline, input: EncodeInput): seq<EntityState> {
    if p.areaOfInterest then input.retained else input.snapshot.entities
  }

  function Min(a: nat, b: nat): nat {
    if a <= b then a else b
  }

  /** The first `taken` indices of a round from `start`. */
  function RoundFrom(count: nat, start: nat, taken: nat): set<nat>
    requires count > 0
  {
    if taken == 0 then {} else RoundFrom(count, start, taken - 1) + {(start + taken - 1) % count}
  }

  /** A round-robin slice of indices. */
  function IncrementalSlice(count: nat, cursor: nat, maximum: nat): set<nat> {
    if count == 0 then {} else RoundFrom(count, cursor % count, Min(count, maximum))
  }

  function RecoveryIndices(entities: seq<EntityState>, ids: seq<u32>): set<nat> {
    set i: nat | i < |entities| && entities[i].id in ids
  }

  /** The indices an update may upsert, when it is scheduled at all. */
  function Scheduled(p: Pipeline, st: EncoderState, input: EncodeInput, plan: Plan): set<nat> {
    (if plan.scheduleLevelOfDetail then input.pending
     else IncrementalSlice(|Current(p, input)|, st.incrementalCursor, p.maxEntitiesPerUpdate))
    + RecoveryIndices(Current(p, input), input.recoveryIds)
  }

  /** The chosen entities in id order: sorting ascending indices without repetition. */
  function Pick(entities: seq<EntityState>, chosen: set<nat>): (picked: seq<EntityState>)
    ensures |picked| <= |entities|
  {
    if entities == [] then []
    else
      var last := |entities| - 1;
      Pick(entities[..last], chosen) + if last in chosen then [entities[last]] else []
  }

  predicate Changed(layout: RecordLayout, e: EntityState, base: map<u32, EntityState>) {
    e.id !in base || base[e.id] != Canonical(layout, e)
  }

  /** The entities whose canonical value the baseline does not already hold. */
  function ChangedOnly(layout: RecordLayout, entities: seq<EntityState>, base: map<u32, EntityState>)
    : (changed: seq<EntityState>)
    ensures |changed| <= |entities|
  {
    if entities == [] then []
    else (if Changed(layout, entities[0], base) then [entities[0]] else []) + ChangedOnly(layout, entities[1..], base)
  }

  /** The baseline ids that the population no longer has. */
  function Removed(base: seq<EntityState>, current: map<u32, EntityState>): (ids: seq<u32>)
    ensures |ids| <= |base|
  {
    if base == [] then []
    else (if base[0].id !in current then [base[0].id] else []) + Removed(base[1..], current)
  }

  /** The source entities an update may upsert. */
  function Eligible(p: Pipeline, st: EncoderState, input: EncodeInput, plan: Plan): (entities: seq<EntityState>)
    ensures |entities| <= |Current(p, input)|
  {
    if plan.scheduleLevelOfDetail || plan.scheduleIncremental
    then Pick(Current(p, input), Scheduled(p, st, input, plan)) else Current(p, input)
  }

  /** The source entities an update upserts. */
  function Upserted(p: Pipeline, st: EncoderState, input: EncodeInput, plan: Plan): (entities: seq<EntityState>)
    ensures |entities| <= |Current(p, input)|
  {
    if plan.emitDelta && plan.base.Some?
    then ChangedOnly(LayoutOf(p), Eligible(p, st, input, plan), Table(plan.base.value.entities))
    else Eligible(p, st, input, plan)
  }

  function Deleted(p: Pipeline, input: EncodeInput, plan: Plan): seq<u32> {
    if plan.base.None? then [] else Removed(plan.base.value.entities, Table(Current(p, input)))
  }

  // ---------------------------------------------------------------- payload

  function RecordOf(layout: RecordLayout, masked: bool, e: EntityState, base: map<u32, EntityState>): seq<byte> {
    if !masked then WriteRecord(layout, e)
    else if e.id in base then WriteMaskedRecord(layout, e, true, CanonicalFieldMask(Canonical(layout, e), base[e.id]))
    else WriteMaskedRecord(layout, e, false, NO_FIELDS)
  }

  function RecordsOf(layout: RecordLayout, masked: bool, entities: seq<EntityState>, base: map<u32, EntityState>)
    : seq<byte>
  {
    if entities == [] then []
    else RecordOf(layout, masked, entities[0], base) + RecordsOf(layout, masked, entities[1..], base)
  }

  function DeletesOf(ids: seq<u32>): (bytes: seq<byte>)
    ensures |bytes| == DELETE_RECORD_BYTES * |ids|
  {
    if ids == [] then [] else BigEndian(ids[0], 4) + DeletesOf(ids[1..])
  }

  function BaseTable(plan: Plan): map<u32, EntityState> {
    if plan.base.Some? then Table(plan.base.value.entities) else map[]
  }

  function Payload(p: Pipeline, st: EncoderState, input: EncodeInput, plan: Plan): seq<byte> {
    DeletesOf(Deleted(p, input, plan))
    + RecordsOf(LayoutOf(p), p.deltaFieldMask && plan.emitDelta, Upserted(p, st, input, plan), BaseTable(plan))
  }

  function HeaderOf(p: Pipeline, st: EncoderState, input: EncodeInput, plan: Plan): UpdateHeader {
    UpdateHeader(ENCODED_UPDATE_MAGIC, PROTOCOL_VERSION, Schema(p), p.signature, KindByte(plan.Kind()),
                 input.snapshot.tick, st.nextSequence, plan.baselineSequence,
                 |Upserted(p, st, input, plan)|, |Deleted(p, input, plan)|, |Payload(p, st, input, plan)|)
  }

  /** The update the client is meant to apply. */
  function LogicalUpdate(p: Pipeline, st: EncoderState, input: EncodeInput, plan: Plan): SnapshotUpdate {
    SnapshotUpdate(input.snapshot.tick, plan.Kind(), CanonicalAll(LayoutOf(p), Upserted(p, st, input, plan)),
                   Deleted(p, input, plan))
  }

  // ---------------------------------------------------------------- encoding

  datatype EncodedUpdate = EncodedUpdate(
    sequence: nat, kind: SnapshotKind, baselineSequence: u32, bytes: seq<byte>, resulting: WorldSnapshot)

  datatype EncodeOutcome = Thrown(error: EncodeError) | Skipped | Update(update: EncodedUpdate)

  function NextCursor(count: nat, cursor: nat, selected: nat): nat {
    if count == 0 then 0 else (cursor + selected) % count
  }

  /** The sequence is the one just used plus one; the caller has excluded the last. */
  function NextState(p: Pipeline, st: EncoderState, input: EncodeInput, plan: Plan): EncoderState {
    var count := |Current(p, input)|;
    EncoderState(
      st.nextSequence + 1,
      if p.levelOfDetail then (if plan.scheduleLevelOfDetail then input.pendingCursor else st.incrementalCursor)
      else if plan.scheduleIncremental then
        NextCursor(count, st.incrementalCursor, Min(count, p.maxEntitiesPerUpdate))
      else st.incrementalCursor,
      st.incrementalSeeded || (p.incremental && !plan.EmitsPatch()),
      st.levelOfDetailSeeded || (p.levelOfDetail && !plan.EmitsPatch()))
  }

  function EncodePlan(p: Pipeline, st: EncoderState, input: EncodeInput, plan: Plan): EncodeOutcome {
    var payload := Payload(p, st, input, plan);
    var resulting := Reconstruct(plan.base, LogicalUpdate(p, st, input, plan));
    if |payload| + HEADER_BYTES > U32_MAX || resulting.None? then Thrown(UpdateTooLarge)
    else
      Update(EncodedUpdate(st.nextSequence, plan.Kind(), plan.baselineSequence,
                           WriteUpdateHeader(HeaderOf(p, st, input, plan)) + payload, resulting.value))
  }

  function Encode(p: Pipeline, st: EncoderState, input: EncodeInput): (EncodeOutcome, EncoderState) {
    match Decide(p, st, input)
    case Throws(error) => (Thrown(error), st)
    case Skips => (Skipped, st)
    case Emits(plan) =>
      var outcome := EncodePlan(p, st, input, plan);
      (outcome, if outcome.Update? then NextState(p, st, input, plan) else st)
  }

  // ---------------------------------------------------------------- what was decided and selected

  /** A Patch is made exactly against a Delta baseline, once the level of detail is seeded, or in a seeded
      incremental round, and never when a full replacement is forced. It names an earlier, nonzero baseline and
      carries it; a FullReplace names none. The record format written is the one the decoder will choose. */
  lemma PlanFacts(p: Pipeline, st: EncoderState, input: EncodeInput)
    requires Decide(p, st, input).Emits?
    ensures var plan := Decide(p, st, input).plan;
      && plan == PlanOf(p, st, input)
      && ValidPipeline(p) && 0 < st.nextSequence < U32_MAX
      && (plan.EmitsPatch() ==> plan.base.Some? && 0 < plan.baselineSequence < st.nextSequence && PatchSupported(p))
      && (!plan.EmitsPatch() ==> plan.base.None? && plan.baselineSequence == 0 && !plan.emitDelta)
      && (p.deltaFieldMask && plan.EmitsPatch() ==> plan.emitDelta)
      && (plan.emitDelta <==> !input.forceFullReplace && p.delta && input.baseline.Some?)
      && (plan.EmitsPatch() <==>
            !input.forceFullReplace
            && ((p.delta && input.baseline.Some?) || (p.levelOfDetail && st.levelOfDetailSeeded)
                || (p.incremental && !p.delta && !p.levelOfDetail && st.incrementalSeeded)))
  {
  }

  lemma {:induction false} PickAscending(entities: seq<EntityState>, chosen: set<nat>)
    requires Ascending(entities)
    ensures Ascending(Pick(entities, chosen))
    ensures forall e :: e in Pick(entities, chosen) ==> e in entities
  {
    if entities != [] {
      var init := entities[..|entities| - 1];
      PickAscending(init, chosen);
      var picked := Pick(init, chosen);
      forall i | 0 <= i < |picked|
        ensures picked[i].id < entities[|entities| - 1].id
      {
        assert picked[i] in init;
      }
    }
  }

  lemma {:induction false} ChangedAscending(layout: RecordLayout, entities: seq<EntityState>,
                                            base: map<u32, EntityState>, least: int)
    requires Ascending(entities) && forall i :: 0 <= i < |entities| ==> entities[i].id > least
    ensures var changed := ChangedOnly(layout, entities, base);
      && Ascending(changed)
      && (forall i :: 0 <= i < |changed| ==> changed[i].id > least)
      && (forall e :: e in changed ==> e in entities && Changed(layout, e, base))
  {
    if entities != [] {
      AscendingTail(entities);
      ChangedAscending(layout, entities[1..], base, entities[0].id);
    }
  }

  lemma {:induction false} RemovedAscending(base: seq<EntityState>, current: map<u32, EntityState>, least: int)
    requires Ascending(base) && forall i :: 0 <= i < |base| ==> base[i].id > least
    ensures var ids := Removed(base, current);
      && AscendingIds(ids)
      && (forall i :: 0 <= i < |ids| ==> ids[i] > least)
      && (forall id :: id in ids ==> id !in current)
  {
    if base != [] {
      AscendingTail(base);
      RemovedAscending(base[1..], current, base[0].id);
    }
  }

  lemma {:induction false} RemovedExactly(base: seq<EntityState>, current: map<u32, EntityState>, id: u32)
    ensures id in Removed(base, current) <==> id in Table(base) && id !in current
  {
    if base != [] {
      RemovedExactly(base[1..], current, id);
    }
  }

  lemma {:induction false} WholeRecordsLength(layout: RecordLayout, entities: seq<EntityState>,
                                              base: map<u32, EntityState>)
    requires ValidLayout(layout)
    ensures |RecordsOf(layout, false, entities, base)| == |entities| * RecordBytes(layout)
  {
    hide WriteRecord, RecordBytes;
    if entities != [] {
      WholeRecordsLength(layout, entities[1..], base);
      RecordWrittenBytes(layout, entities[0]);
    }
  }

  lemma {:induction false} MaskedRecordsLength(layout: RecordLayout, entities: seq<EntityState>,
                                               base: map<u32, EntityState>)
    requires ValidLayout(layout)
    requires forall i :: 0 <= i < |entities| ==> Changed(layout, entities[i], base)
    requires forall id :: id in base ==> base[id].id == id
    ensures |entities| * MASKED_UPSERT_MINIMUM_BYTES <= |RecordsOf(layout, true, entities, base)|
         <= |entities| * (RecordBytes(layout) + 1)
  {
    hide RecordOf, RecordBytes, Changed;
    if entities != [] {
      var rest := |RecordsOf(layout, true, entities[1..], base)|;
      MaskedRecordsLength(layout, entities[1..], base);
      MaskedLength(layout, entities[0], base);
      var one := |RecordOf(layout, true, entities[0], base)|;
      assert |RecordsOf(layout, true, entities, base)| == one + rest;
      assert |entities| * (RecordBytes(layout) + 1)
          == RecordBytes(layout) + 1 + (|entities| - 1) * (RecordBytes(layout) + 1);
    }
  }

  lemma MaskedLength(layout: RecordLayout, e: EntityState, base: map<u32, EntityState>)
    requires ValidLayout(layout) && Changed(layout, e, base) && forall id :: id in base ==> base[id].id == id
    ensures MASKED_UPSERT_MINIMUM_BYTES <= |RecordOf(layout, true, e, base)| <= RecordBytes(layout) + 1
  {
    if e.id in base {
      var m := CanonicalFieldMask(Canonical(layout, e), base[e.id]);
      MaskSuffices(Canonical(layout, e), base[e.id]);
      WrittenBytes(layout, m, e);
    } else {
      WrittenBytes(layout, ALL_FIELDS, e);
    }
  }

  lemma {:induction false} TableIds(entities: seq<EntityState>)
    ensures forall id :: id in Table(entities) ==> Table(entities)[id].id == id
  {
    if entities != [] {
      TableIds(entities[1..]);
    }
  }

  lemma UpsertedFacts(p: Pipeline, st: EncoderState, input: EncodeInput, plan: Plan)
    requires Ascending(Current(p, input))
    ensures var entities := Upserted(p, st, input, plan);
      && Ascending(entities)
      && (forall e :: e in entities ==> e in Current(p, input))
      && (plan.emitDelta && plan.base.Some? ==> forall e :: e in entities ==> Changed(LayoutOf(p), e, BaseTable(plan)))
  {
    PickAscending(Current(p, input), Scheduled(p, st, input, plan));
    ChangedAscending(LayoutOf(p), Eligible(p, st, input, plan), BaseTable(plan), -1);
  }

  /** What the length fields of an update say about its payload. */
  lemma PayloadLength(p: Pipeline, st: EncoderState, input: EncodeInput)
    requires Decide(p, st, input).Emits? && Ascending(Current(p, input))
    ensures var plan := Decide(p, st, input).plan;
      var deleteBytes := DELETE_RECORD_BYTES * |Deleted(p, input, plan)|;
      var count := |Upserted(p, st, input, plan)|;
      var bytes := |Payload(p, st, input, plan)|;
      if p.deltaFieldMask && plan.EmitsPatch()
      then deleteBytes + count * MASKED_UPSERT_MINIMUM_BYTES <= bytes
             <= deleteBytes + count * (RecordBytes(LayoutOf(p)) + 1)
      else bytes == deleteBytes + count * RecordBytes(LayoutOf(p))
  {
    var plan := Decide(p, st, input).plan;
    PlanFacts(p, st, input);
    UpsertedFacts(p, st, input, plan);
    if plan.base.Some? {
      TableIds(plan.base.value.entities);
    }
    if p.deltaFieldMask && plan.emitDelta {
      MaskedRecordsLength(LayoutOf(p), Upserted(p, st, input, plan), BaseTable(plan));
    } else {
      WholeRecordsLength(LayoutOf(p), Upserted(p, st, input, plan), BaseTable(plan));
    }
  }

  /** Whatever the techniques, seeding and forcing, an emitted update passes inspection at any client
      on the same pipeline that has not yet seen its sequence, and is read back in the format it was
      written in. */
  lemma EmittedUpdateAdmitted(p: Pipeline, st: EncoderState, input: EncodeInput, latestRemote: nat)
    requires Ascending(Current(p, input)) && |Current(p, input)| <= U32_MAX
    requires Encode(p, st, input).0.Update? && latestRemote < st.nextSequence
    ensures var plan := PlanOf(p, st, input);
      var update := Encode(p, st, input).0.update;
      var h := HeaderOf(p, st, input, plan);
      && InspectHeader(p, latestRemote, update.bytes) == Admitted(h)
      && (MaskedPatch(p, h) <==> p.deltaFieldMask && plan.emitDelta)
      && UpdateHeaderFits(h)
      && update.bytes == WriteUpdateHeader(h) + Payload(p, st, input, plan)
      && |WriteUpdateHeader(h)| == HEADER_BYTES
  {
    hide ReadUpdateHeader, WriteUpdateHeader, Payload, Upserted, Deleted;
    var plan := PlanOf(p, st, input);
    PlanFacts(p, st, input);
    PayloadLength(p, st, input);
    PayloadCounts(p, st, input, plan);
    var h, payload := HeaderOf(p, st, input, plan), Payload(p, st, input, plan);
    ReadWrittenUpdateHeader(h, payload);
    HeaderAdmitted(p, latestRemote, |payload| + HEADER_BYTES, h);
    InspectReads(p, latestRemote, WriteUpdateHeader(h) + payload, h);
  }

  /** The inspection of a header that says what the encoder says. */
  lemma HeaderAdmitted(p: Pipeline, latestRemote: nat, byteCount: nat, h: UpdateHeader)
    requires h.magic == ENCODED_UPDATE_MAGIC && h.protocol == PROTOCOL_VERSION && h.schema == Schema(p)
    requires h.signature == p.signature && h.sequence > latestRemote
    requires byteCount >= HEADER_BYTES && h.payloadBytes == byteCount - HEADER_BYTES
    requires h.kind == KindByte(FullReplace) || h.kind == KindByte(Patch)
    requires if IsPatch(h) then PatchSupported(p) && 0 < h.baselineSequence < h.sequence else h.baselineSequence == 0
    requires var deleteBytes := h.deleteCount * DELETE_RECORD_BYTES;
      if MaskedPatch(p, h)
      then deleteBytes + h.upsertCount * MASKED_UPSERT_MINIMUM_BYTES <= h.payloadBytes
             <= deleteBytes + h.upsertCount * (RecordBytes(LayoutOf(p)) + 1)
      else h.payloadBytes == deleteBytes + h.upsertCount * RecordBytes(LayoutOf(p))
    ensures InspectRead(p, latestRemote, byteCount, h) == Admitted(h)
  {
  }

  lemma InspectReads(p: Pipeline, latestRemote: nat, bytes: seq<byte>, h: UpdateHeader)
    requires SupportedDecodePipeline(p) && HEADER_BYTES <= |bytes| <= U32_MAX && ReadUpdateHeader(bytes) == Some(h)
    ensures InspectHeader(p, latestRemote, bytes) == InspectRead(p, latestRemote, |bytes|, h)
  {
  }

  lemma PayloadCounts(p: Pipeline, st: EncoderState, input: EncodeInput, plan: Plan)
    requires |Current(p, input)| <= U32_MAX && |Payload(p, st, input, plan)| <= U32_MAX
    ensures |Upserted(p, st, input, plan)| <= U32_MAX && |Deleted(p, input, plan)| <= U32_MAX
  {
  }
}
