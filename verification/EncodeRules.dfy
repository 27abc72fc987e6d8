/** When an update is emitted, of which kind, and which entities and bytes it carries, in the technique
    flags, the encoder's own state and the caller's arguments.

    Models src/pipeline/src/pipeline_encode.cpp and src/pipeline/private/pipeline_selection.cppm. */
module EncodeRules {
  import opened Bytes
  import opened Snapshot
  import opened Records
  import opened PipelineWire
  import opened PipelineEncode
  import opened PipelineMeaning
  import opened Arithmetic

  // ---------------------------------------------------------------- which kind

  /** An update is a Patch exactly in three cases: a Delta baseline is at hand, the level of detail has been
      seeded, or an incremental round without either goes on; never when a full replacement is forced. The
      baseline it names is the caller's in the first two cases, the replica's in the third, and otherwise none. */
  lemma KindExactly(p: Pipeline, st: EncoderState, input: EncodeInput)
    requires Encode(p, st, input).0.Update?
    ensures var update := Encode(p, st, input).0.update;
      var explicit := !input.forceFullReplace
                      && ((p.delta && input.baseline.Some?) || (p.levelOfDetail && st.levelOfDetailSeeded));
      var continued := !input.forceFullReplace
                       && p.incremental && !p.delta && !p.levelOfDetail && st.incrementalSeeded;
      && (update.kind == Patch <==> explicit || continued)
      && update.baselineSequence
           == (if explicit then input.baselineSequence else if continued then input.replicaSequence else 0)
      && update.sequence == st.nextSequence
      && update.resulting.tick == input.snapshot.tick
  {
    hide Payload, Upserted, Deleted, HeaderOf, WriteUpdateHeader, Merge, CanonicalAll;
    PlanFacts(p, st, input);
  }

  // ---------------------------------------------------------------- whether

  /** The definition and the arguments that are accepted at any tick. */
  ghost predicate ArgumentsStand(p: Pipeline, input: EncodeInput) {
    && (p.octHeading ==> p.quantization) && (p.bitPacking ==> p.octHeading) && (p.deltaFieldMask ==> p.delta)
    && (p.sendInterval ==> p.intervalTicks > 0) && (p.incremental ==> p.maxEntitiesPerUpdate > 0)
    && (p.quantization ==> p.rangesValid) && p.scopesValid && (p.levelOfDetail ==> p.areaOfInterest)
    && (input.baseline.Some? <==> input.baselineSequence > 0)
    && (input.replica.Some? <==> input.replicaSequence > 0)
    && (input.baseline.Some? ==> p.delta || p.levelOfDetail)
    && (input.replica.Some? ==> !p.levelOfDetail)
    && (forall id :: id in input.recoveryIds ==> id != 0)
    && (forall i, j :: 0 <= i < j < |input.recoveryIds| ==> input.recoveryIds[i] < input.recoveryIds[j])
    && (input.forceFullReplace ==> input.baseline.None? && input.replica.None? && input.recoveryIds == [])
    && |input.snapshot.entities| <= U32_MAX
  }

  /** What an emitting tick asks for besides: a valid area of interest; a sequence left to use, and baselines
      before it; no baseline before the level of detail is seeded and one afterwards; a replica exactly for
      incremental rounds on their own, where it is needed once they are seeded; and a Patch for recovery. */
  predicate TickStands(p: Pipeline, st: EncoderState, input: EncodeInput) {
    var rounds := p.incremental && !p.delta && !p.levelOfDetail;
    && (p.areaOfInterest ==> input.interestValid)
    && 0 < st.nextSequence < U32_MAX
    && input.baselineSequence < st.nextSequence && input.replicaSequence < st.nextSequence
    && (p.levelOfDetail && !st.levelOfDetailSeeded ==> input.baseline.None?)
    && (p.levelOfDetail && st.levelOfDetailSeeded && !input.forceFullReplace ==> input.baseline.Some?)
    && (input.replica.Some? ==> rounds)
    && (rounds && st.incrementalSeeded && !input.forceFullReplace ==> input.replica.Some?)
    && (input.recoveryIds != [] ==>
          (p.delta && input.baseline.Some?) || (p.levelOfDetail && st.levelOfDetailSeeded)
          || (rounds && st.incrementalSeeded))
  }

  predicate EmittingTick(p: Pipeline, tick: u64) {
    !p.sendInterval || (p.intervalTicks > 0 && tick % p.intervalTicks == 0)
  }

  lemma {:induction false} AscendingFrom(ids: seq<u32>, i: nat, j: nat)
    requires RecoveryIdsValid(ids) && i < j < |ids|
    ensures ids[i] < ids[j]
    decreases j
  {
    if i < j - 1 {
      AscendingFrom(ids, i, j - 1);
    }
    assert ids[j - 1] < ids[j];
  }

  lemma RecoveryIdsExactly(ids: seq<u32>)
    ensures RecoveryIdsValid(ids) <==>
      (forall id :: id in ids ==> id != 0) && (forall i, j :: 0 <= i < j < |ids| ==> ids[i] < ids[j])
  {
    if RecoveryIdsValid(ids) {
      forall i, j | 0 <= i < j < |ids|
        ensures ids[i] < ids[j]
      {
        AscendingFrom(ids, i, j);
      }
    }
    assert forall i :: 0 <= i < |ids| ==> ids[i] in ids;
  }

  lemma ArgumentsExactly(p: Pipeline, input: EncodeInput)
    ensures ArgumentError(p, input).None? <==> ArgumentsStand(p, input)
  {
    hide RecoveryIdsValid;
    RecoveryIdsExactly(input.recoveryIds);
  }

  lemma TickExactly(p: Pipeline, st: EncoderState, input: EncodeInput)
    requires ArgumentsStand(p, input)
    ensures EmissionError(p, st, input).None? <==> TickStands(p, st, input)
  {
  }

  /** An update is skipped exactly between the interval's ticks, and is otherwise emitted, within 32-bit
      sizes, exactly when its arguments and the encoder's state allow it; what is not emitted changes nothing. */
  lemma EmittedExactly(p: Pipeline, st: EncoderState, input: EncodeInput)
    ensures var (outcome, next) := Encode(p, st, input);
      && (outcome.Skipped? <==> ArgumentsStand(p, input) && !EmittingTick(p, input.snapshot.tick))
      && (outcome.Update? || outcome == EncodeOutcome.Thrown(UpdateTooLarge) <==>
            ArgumentsStand(p, input) && EmittingTick(p, input.snapshot.tick) && TickStands(p, st, input))
      && (!outcome.Update? ==> next == st)
      && (outcome.Update? ==> |outcome.update.bytes| <= U32_MAX)
  {
    hide Payload, LogicalUpdate, HeaderOf, ArgumentsStand, TickStands, EmissionError, ArgumentError, PlanOf;
    hide WriteUpdateHeader;
    ArgumentsExactly(p, input);
    if ArgumentsStand(p, input) {
      TickExactly(p, st, input);
    }
    NeverTooLargeBefore(p, st, input);
    if Decide(p, st, input).Emits? {
      SizeKept(p, st, input, PlanOf(p, st, input));
    }
  }

  lemma NeverTooLargeBefore(p: Pipeline, st: EncoderState, input: EncodeInput)
    ensures Decide(p, st, input).Throws? ==> Decide(p, st, input).error != UpdateTooLarge
  {
    hide PlanOf, RecoveryIdsValid, ValidPipeline;
  }

  lemma SizeKept(p: Pipeline, st: EncoderState, input: EncodeInput, plan: Plan)
    ensures var outcome := EncodePlan(p, st, input, plan);
      && !outcome.Skipped?
      && (outcome.Thrown? ==> outcome.error == UpdateTooLarge)
      && (outcome.Update? ==> |outcome.update.bytes| <= U32_MAX)
  {
    hide Payload, LogicalUpdate, HeaderOf, Reconstruct;
    UpdateLayoutBytes();
  }

  // ---------------------------------------------------------------- which entities

  /** How far `i` lies ahead of `start`, going round. */
  function Ahead(count: nat, start: nat, i: nat): int {
    if i >= start then i - start else i + count - start
  }

  lemma {:induction false} RoundExactly(count: nat, start: nat, taken: nat, i: nat)
    requires start < count && taken <= count && i < count
    ensures i in RoundFrom(count, start, taken) <==> Ahead(count, start, i) < taken
  {
    if taken > 0 {
      RoundExactly(count, start, taken - 1, i);
      var last := start + taken - 1;
      DivideExactly(if last < count then 0 else 1, if last < count then last else last - count, count);
    }
  }

  /** Index `i` takes its turn in this update: it is pending in its level of detail, or among the next of the
      round, as many as one update may hold and none twice. */
  predicate TakesTurn(p: Pipeline, st: EncoderState, input: EncodeInput, i: nat)
    requires i < |Current(p, input)|
  {
    var count := |Current(p, input)|;
    if p.levelOfDetail then i in input.pending
    else Ahead(count, st.incrementalCursor % count, i) < p.maxEntitiesPerUpdate
  }

  /** Which techniques restrict an update to the entities whose turn it is. */
  predicate ByTurns(p: Pipeline, st: EncoderState, input: EncodeInput) {
    !input.forceFullReplace
    && (if p.levelOfDetail then st.levelOfDetailSeeded
        else p.incremental && (if p.delta then input.baseline.Some? else st.incrementalSeeded))
  }

  /** Whether an entity of the population is sent: its turn has come or its recovery was asked for, and a Delta
      baseline does not already hold what it would be decoded to. */
  ghost predicate IsSent(p: Pipeline, st: EncoderState, input: EncodeInput, i: nat)
    requires i < |Current(p, input)|
  {
    var e := Current(p, input)[i];
    && (ByTurns(p, st, input) ==> e.id in input.recoveryIds || TakesTurn(p, st, input, i))
    && (!input.forceFullReplace && p.delta && input.baseline.Some? ==>
          Canonical(LayoutOf(p), e) !in input.baseline.value.entities)
  }

  lemma {:induction false} PickExactly(entities: seq<EntityState>, chosen: set<nat>, i: nat)
    requires Ascending(entities) && i < |entities|
    ensures entities[i] in Pick(entities, chosen) <==> i in chosen
  {
    var last := |entities| - 1;
    var init := entities[..last];
    if i < last {
      PickExactly(init, chosen, i);
    } else {
      PickAscending(init, chosen);
    }
  }

  lemma {:induction false} ChangedOnlyExactly(layout: RecordLayout, entities: seq<EntityState>,
                                              base: map<u32, EntityState>, e: EntityState)
    ensures e in ChangedOnly(layout, entities, base) <==> e in entities && Changed(layout, e, base)
  {
    hide Changed;
    if entities != [] {
      ChangedOnlyExactly(layout, entities[1..], base, e);
    }
  }

  lemma HeldExactly(layout: RecordLayout, e: EntityState, base: seq<EntityState>)
    requires Ascending(base)
    ensures Changed(layout, e, Table(base)) <==> Canonical(layout, e) !in base
  {
    hide Canonical;
    var c := Canonical(layout, e);
    if c in base {
      var i :| 0 <= i < |base| && base[i] == c;
      TableAt(base, i);
    }
    if e.id in Table(base) {
      var i := TableSound(base, e.id);
    }
  }

  lemma TurnExactly(p: Pipeline, st: EncoderState, input: EncodeInput, i: nat)
    requires i < |Current(p, input)|
    ensures var plan := PlanOf(p, st, input);
      && (plan.scheduleLevelOfDetail || plan.scheduleIncremental <==> ByTurns(p, st, input))
      && (ByTurns(p, st, input) ==>
            (i in Scheduled(p, st, input, plan) <==>
              Current(p, input)[i].id in input.recoveryIds || TakesTurn(p, st, input, i)))
  {
    hide Current, RoundFrom;
    var count := |Current(p, input)|;
    RoundExactly(count, st.incrementalCursor % count, Min(count, p.maxEntitiesPerUpdate), i);
  }

  /** The upserts of an update are exactly the entities that are to be sent, in id order. */
  lemma SentExactly(p: Pipeline, st: EncoderState, input: EncodeInput, i: nat)
    requires i < |Current(p, input)| && Ascending(Current(p, input))
    requires input.baseline.Some? ==> Ascending(input.baseline.value.entities)
    ensures var upserts := Upserted(p, st, input, PlanOf(p, st, input));
      && Ascending(upserts) && (forall e :: e in upserts ==> e in Current(p, input))
      && (Current(p, input)[i] in upserts <==> IsSent(p, st, input, i))
  {
    hide Current, Scheduled, TakesTurn, Canonical, Changed, Pick, ChangedOnly;
    var plan := PlanOf(p, st, input);
    UpsertedFacts(p, st, input, plan);
    TurnExactly(p, st, input, i);
    var e := Current(p, input)[i];
    PickExactly(Current(p, input), Scheduled(p, st, input, plan), i);
    if plan.emitDelta {
      ChangedOnlyExactly(LayoutOf(p), Eligible(p, st, input, plan), BaseTable(plan), e);
      HeldExactly(LayoutOf(p), e, input.baseline.value.entities);
    }
  }

  // ---------------------------------------------------------------- records

  /** A whole record, in numbers: the id, the classification, the position and the heading as bits or as what the
      transforms make of them, and the hue. */
  lemma WholeRecordBytes(layout: RecordLayout, e: EntityState)
    requires ValidLayout(layout)
    ensures var q, h, o := layout.numerics.quantizePosition(e.position), layout.numerics.quantizeHeading(e.heading),
                           layout.numerics.encodeOctHeading(e.heading);
      WriteRecord(layout, e) ==
      if !layout.quantized then
        BigEndian(e.id, 4) + BigEndian(e.classification, 1)
        + (BigEndian(e.position.x, 4) + BigEndian(e.position.y, 4) + BigEndian(e.position.z, 4))
        + (BigEndian(e.heading.x, 4) + BigEndian(e.heading.y, 4) + BigEndian(e.heading.z, 4)) + BigEndian(e.hue, 1)
      else
        BigEndian(e.id, 4) + BigEndian(e.classification, 1)
        + (BigEndian(q.0, 2) + BigEndian(q.1, 2) + BigEndian(q.2, 2))
        + (if layout.octHeading then BigEndian(o.0, 2) + BigEndian(o.1, 2)
           else BigEndian(h.0, 2) + BigEndian(h.1, 2) + BigEndian(h.2, 2))
        + BigEndian(e.hue, 1)
  {
    hide BigEndian;
    WriteOne(e.classification, 1);
    WriteOne(e.hue, 1);
    WriteThree(PositionTokens(layout, e.position), PositionWidths(layout));
    if layout.octHeading {
      WriteTwo(HeadingTokens(layout, e.heading), HeadingWidths(layout));
    } else {
      WriteThree(HeadingTokens(layout, e.heading), HeadingWidths(layout));
    }
  }

  lemma WriteOne(value: nat, width: nat)
    ensures WriteFields([value], [width]) == BigEndian(value, width)
  {
    hide BigEndian;
    assert [value][1..] == [] && [width][1..] == [];
  }

  lemma WriteTwo(values: seq<nat>, widths: Layout)
    requires |values| == |widths| == 2
    ensures WriteFields(values, widths) == BigEndian(values[0], widths[0]) + BigEndian(values[1], widths[1])
  {
    hide BigEndian, WriteFields;
    WriteNext(values, widths);
    assert values[1..] == [values[1]] && widths[1..] == [widths[1]];
    WriteOne(values[1], widths[1]);
  }

  lemma WriteThree(values: seq<nat>, widths: Layout)
    requires |values| == |widths| == 3
    ensures WriteFields(values, widths)
         == BigEndian(values[0], widths[0]) + BigEndian(values[1], widths[1]) + BigEndian(values[2], widths[2])
  {
    hide BigEndian, WriteFields;
    WriteNext(values, widths);
    WriteTwo(values[1..], widths[1..]);
  }

  /** A field-masked record: a spawn carries selector 128 and every field; a known entity carries a bit for each
      field in which its decoded form differs from the baseline's, and only those fields. */
  lemma MaskedRecordBytes(layout: RecordLayout, e: EntityState, base: map<u32, EntityState>)
    requires ValidLayout(layout)
    ensures var record := RecordOf(layout, true, e, base);
      var c := Canonical(layout, e);
      && |record| >= 5 && record[..4] == BigEndian(e.id, 4)
      && (e.id !in base ==> record[4] == 0x80 && record[5..] == WriteRecord(layout, e)[4..])
      && (e.id in base ==>
            var b, selector := base[e.id], record[4];
            && selector < 16
            && (selector % 2 == 1 <==> c.classification != b.classification)
            && (selector / 2 % 2 == 1 <==> c.position != b.position)
            && (selector / 4 % 2 == 1 <==> c.heading != b.heading)
            && (selector / 8 % 2 == 1 <==> c.hue != b.hue)
            && |record| == 5 + (if c.classification != b.classification then 1 else 0)
                             + (if c.position == b.position then 0 else if layout.quantized then 6 else 12)
                             + (if c.heading == b.heading then 0 else if layout.octHeading then 4
                                else if layout.quantized then 6 else 12)
                             + (if c.hue != b.hue then 1 else 0))
  {
    hide WriteSelectedFields, Canonical;
    var m := if e.id in base then CanonicalFieldMask(Canonical(layout, e), base[e.id]) else ALL_FIELDS;
    WrittenBytes(layout, m, e);
    OneByte(MaskByte(m));
    OneByte(0x80);
    var record := RecordOf(layout, true, e, base);
    assert record[4] == if e.id in base then MaskByte(m) else 0x80;
  }

  lemma OneByte(value: byte)
    ensures BigEndian(value, 1) == [value]
  {
    assert BigEndian(value / 0x100, 0) == [];
  }

  // ---------------------------------------------------------------- which bytes

  /** The snapshot a Patch is made against. */
  function Against(p: Pipeline, st: EncoderState, input: EncodeInput): Option<WorldSnapshot> {
    if input.forceFullReplace then None
    else if (p.delta && input.baseline.Some?) || (p.levelOfDetail && st.levelOfDetailSeeded) then input.baseline
    else if p.incremental && !p.delta && !p.levelOfDetail && st.incrementalSeeded then input.replica
    else None
  }

  /** The update as it stands on the wire, given the entities it upserts and the ids it deletes: eleven
      big-endian numbers, the deletes, then the records, field-masked only against a Delta baseline. */
  function WireBytes(p: Pipeline, st: EncoderState, input: EncodeInput, kind: SnapshotKind, baselineSequence: nat,
                     upserts: seq<EntityState>, deletes: seq<u32>): seq<byte>
  {
    var masked := p.deltaFieldMask && !input.forceFullReplace && input.baseline.Some?;
    var base := Against(p, st, input);
    var body := DeletesOf(deletes)
      + RecordsOf(LayoutOf(p), masked, upserts, if base.Some? then Table(base.value.entities) else map[]);
    WriteFields([0x534E504C, 1, if p.deltaFieldMask then 6 else 5, p.signature, if kind == Patch then 1 else 0,
                 input.snapshot.tick, st.nextSequence, baselineSequence, |upserts|, |deletes|, |body|],
                [4, 2, 2, 8, 1, 8, 4, 4, 4, 4, 4])
    + body
  }

  lemma PlanBase(p: Pipeline, st: EncoderState, input: EncodeInput)
    requires ArgumentsStand(p, input)
    ensures var plan := PlanOf(p, st, input);
      && plan.base == Against(p, st, input)
      && (plan.emitDelta <==> !input.forceFullReplace && p.delta && input.baseline.Some?)
  {
  }

  lemma WireOfPlan(p: Pipeline, st: EncoderState, input: EncodeInput, plan: Plan)
    requires p.deltaFieldMask ==> p.delta
    requires plan.base == Against(p, st, input)
    requires plan.emitDelta <==> !input.forceFullReplace && p.delta && input.baseline.Some?
    ensures WriteUpdateHeader(HeaderOf(p, st, input, plan)) + Payload(p, st, input, plan)
         == WireBytes(p, st, input, plan.Kind(), plan.baselineSequence, Upserted(p, st, input, plan),
                      Deleted(p, input, plan))
  {
    hide Upserted, Deleted, RecordsOf, DeletesOf, WriteFields, Against;
  }

  lemma WireOf(p: Pipeline, st: EncoderState, input: EncodeInput)
    requires Encode(p, st, input).0.Update?
    ensures var update, plan := Encode(p, st, input).0.update, PlanOf(p, st, input);
      update.bytes == WireBytes(p, st, input, update.kind, update.baselineSequence,
                                Upserted(p, st, input, plan), Deleted(p, input, plan))
  {
    hide Upserted, Deleted, Payload, LogicalUpdate, WriteUpdateHeader, HeaderOf, ArgumentsStand, TickStands;
    hide PlanOf, ArgumentError, EmissionError, Against, Reconstruct, WireBytes;
    PlanFacts(p, st, input);
    EmittedExactly(p, st, input);
    PlanArguments(p, st, input);
    PlanBase(p, st, input);
    WireOfPlan(p, st, input, PlanOf(p, st, input));
  }

  lemma PlanArguments(p: Pipeline, st: EncoderState, input: EncodeInput)
    requires ArgumentsStand(p, input)
    ensures p.deltaFieldMask ==> p.delta
  {
  }

  /** The bytes of every emitted update. It upserts exactly the entities to be sent, and deletes exactly the ids
      that the snapshot it is made against has and the population has not; both ascend. */
  lemma EmittedBytes(p: Pipeline, st: EncoderState, input: EncodeInput)
    returns (upserts: seq<EntityState>, deletes: seq<u32>)
    requires Encode(p, st, input).0.Update? && Ascending(Current(p, input))
    requires input.baseline.Some? ==> Ascending(input.baseline.value.entities)
    requires input.replica.Some? ==> Ascending(input.replica.value.entities)
    ensures var update := Encode(p, st, input).0.update;
      update.bytes == WireBytes(p, st, input, update.kind, update.baselineSequence, upserts, deletes)
    ensures Current(p, input) == if p.areaOfInterest then input.retained else input.snapshot.entities
    ensures Ascending(upserts) && forall e :: e in upserts ==> e in Current(p, input)
    ensures forall i :: 0 <= i < |Current(p, input)| ==>
      (Current(p, input)[i] in upserts <==> IsSent(p, st, input, i))
    ensures AscendingIds(deletes)
    ensures forall id :: id in deletes <==>
      Against(p, st, input).Some? && id in Table(Against(p, st, input).value.entities)
      && id !in Table(Current(p, input))
  {
    hide Upserted, IsSent, WireBytes, ArgumentsStand, TickStands;
    var plan := PlanOf(p, st, input);
    upserts, deletes := Upserted(p, st, input, plan), Deleted(p, input, plan);
    WireOf(p, st, input);
    EmittedExactly(p, st, input);
    PlanBase(p, st, input);
    UpsertedFacts(p, st, input, plan);
    forall i | 0 <= i < |Current(p, input)|
      ensures Current(p, input)[i] in upserts <==> IsSent(p, st, input, i)
    {
      SentExactly(p, st, input, i);
    }
    if plan.base.Some? {
      RemovedAscending(plan.base.value.entities, Table(Current(p, input)), -1);
      forall id: u32 {
        RemovedExactly(plan.base.value.entities, Table(Current(p, input)), id);
      }
    }
  }

  // ---------------------------------------------------------------- the state afterwards

  /** What an emission leaves behind: the next sequence; a technique seeded by its first full replacement; and
      the cursor behind the slice taken, or where the level of detail says. */
  lemma StateAfter(p: Pipeline, st: EncoderState, input: EncodeInput)
    requires Encode(p, st, input).0.Update?
    ensures var (outcome, next) := Encode(p, st, input);
      var full := outcome.update.kind == FullReplace;
      var count := |Current(p, input)|;
      && next.nextSequence == st.nextSequence + 1
      && (next.incrementalSeeded <==> st.incrementalSeeded || (p.incremental && full))
      && (next.levelOfDetailSeeded <==> st.levelOfDetailSeeded || (p.levelOfDetail && full))
      && next.incrementalCursor
           == (if !ByTurns(p, st, input) then st.incrementalCursor
               else if p.levelOfDetail then input.pendingCursor
               else if count == 0 then 0
               else (st.incrementalCursor + (if count < p.maxEntitiesPerUpdate then count
                                             else p.maxEntitiesPerUpdate)) % count)
  {
    hide Payload, LogicalUpdate, HeaderOf, WriteUpdateHeader, Current;
    PlanFacts(p, st, input);
  }

  // ---------------------------------------------------------------- how many

  lemma {:induction false} PickCount(entities: seq<EntityState>, chosen: set<nat>)
    requires forall i :: i in chosen ==> i < |entities|
    ensures |Pick(entities, chosen)| == |chosen|
  {
    if entities != [] {
      var last := |entities| - 1;
      PickAgrees(entities[..last], chosen, chosen - {last});
      PickCount(entities[..last], chosen - {last});
    }
  }

  lemma {:induction false} PickAgrees(entities: seq<EntityState>, a: set<nat>, b: set<nat>)
    requires forall i :: 0 <= i < |entities| ==> (i in a <==> i in b)
    ensures Pick(entities, a) == Pick(entities, b)
  {
    if entities != [] {
      PickAgrees(entities[..|entities| - 1], a, b);
    }
  }

  /** Ascending lists with the same members are the same. */
  lemma SameMembers(a: seq<EntityState>, b: seq<EntityState>)
    requires Ascending(a) && Ascending(b) && forall e :: e in a <==> e in b
    ensures a == b
  {
    forall id: u32
      ensures id in Table(a) <==> id in Table(b)
      ensures id in Table(a) ==> Table(a)[id] == Table(b)[id]
    {
      if id in Table(a) {
        var i := TableSound(a, id);
        assert a[i] in b;
        var j :| 0 <= j < |b| && b[j] == a[i];
        TableAt(b, j);
      }
      if id in Table(b) {
        var i := TableSound(b, id);
        assert b[i] in a;
        var j :| 0 <= j < |a| && a[j] == b[i];
        TableAt(a, j);
      }
    }
    assert Table(a).Keys == Table(b).Keys;
    assert Table(a) == Table(b);
    TableDetermines(a, b);
  }

  ghost function SentIndices(p: Pipeline, st: EncoderState, input: EncodeInput): set<nat> {
    set i: nat | i < |Current(p, input)| && IsSent(p, st, input, i)
  }

  lemma SentCount(p: Pipeline, st: EncoderState, input: EncodeInput)
    requires Ascending(Current(p, input)) && (input.baseline.Some? ==> Ascending(input.baseline.value.entities))
    ensures |Upserted(p, st, input, PlanOf(p, st, input))| == |SentIndices(p, st, input)|
  {
    hide Upserted, IsSent, Current, PlanOf, Pick;
    var current, chosen := Current(p, input), SentIndices(p, st, input);
    var upserts, picked := Upserted(p, st, input, PlanOf(p, st, input)), Pick(current, chosen);
    PickAscending(current, chosen);
    forall e
      ensures e in upserts <==> e in picked
    {
      if e in upserts || e in picked {
        if |current| > 0 {
          SentExactly(p, st, input, 0);
        }
        UpsertedFacts(p, st, input, PlanOf(p, st, input));
        var i :| 0 <= i < |current| && current[i] == e;
        SentExactly(p, st, input, i);
        PickExactly(current, chosen, i);
      }
    }
    UpsertedFacts(p, st, input, PlanOf(p, st, input));
    SameMembers(upserts, picked);
    PickCount(current, chosen);
  }

  /** The numbers a client reads at the front of an emitted update: with a Delta baseline and nothing forced, the
      upserts counted are only entities of whose decoded form the baseline holds no copy. */
  lemma HeaderNumbers(p: Pipeline, st: EncoderState, input: EncodeInput)
    requires Encode(p, st, input).0.Update? && Ascending(Current(p, input)) && |Current(p, input)| <= U32_MAX
    requires input.baseline.Some? ==> Ascending(input.baseline.value.entities)
    ensures var update := Encode(p, st, input).0.update;
      var read := ReadFields(update.bytes, 0, [4, 2, 2, 8, 1, 8, 4, 4, 4, 4, 4]);
      && read.Some?
      && read.value[4] == (if update.kind == Patch then 1 else 0)
      && read.value[5] == input.snapshot.tick
      && read.value[6] == st.nextSequence && read.value[7] == update.baselineSequence
      && read.value[8] == |SentIndices(p, st, input)|
      && (p.delta && input.baseline.Some? && !input.forceFullReplace ==>
            forall i :: i in SentIndices(p, st, input) ==>
              Canonical(LayoutOf(p), Current(p, input)[i]) !in input.baseline.value.entities)
  {
    hide Encode, Current, HeaderOf, Canonical, ReadFields, PlanOf, Upserted;
    HeaderRead(p, st, input);
    SentCount(p, st, input);
  }

  lemma HeaderRead(p: Pipeline, st: EncoderState, input: EncodeInput)
    requires Encode(p, st, input).0.Update? && Ascending(Current(p, input)) && |Current(p, input)| <= U32_MAX
    ensures var update, plan := Encode(p, st, input).0.update, PlanOf(p, st, input);
      var h := HeaderOf(p, st, input, plan);
      && ReadFields(update.bytes, 0, [4, 2, 2, 8, 1, 8, 4, 4, 4, 4, 4]) == Some(UpdateValues(h))
      && h.kind == (if update.kind == Patch then 1 else 0) && h.tick == input.snapshot.tick
      && h.sequence == st.nextSequence && h.baselineSequence == update.baselineSequence
      && h.upsertCount == |Upserted(p, st, input, plan)|
  {
    hide InspectHeader, Current, Payload, Upserted, Deleted, WriteUpdateHeader, ReadFields, LogicalUpdate;
    hide PlanOf, ArgumentError, EmissionError, Reconstruct, HeaderStands, UpdateValues;
    PlanFacts(p, st, input);
    EmittedUpdateAdmitted(p, st, input, 0);
    AdmittedExactly(p, 0, Encode(p, st, input).0.update.bytes);
  }

  // ---------------------------------------------------------------- which snapshot

  /** The turn of an entity has come, or its recovery was asked for, or the update takes everything. */
  predicate IsTaken(p: Pipeline, st: EncoderState, input: EncodeInput, i: nat)
    requires i < |Current(p, input)|
  {
    ByTurns(p, st, input) ==> Current(p, input)[i].id in input.recoveryIds || TakesTurn(p, st, input, i)
  }

  lemma EligibleExactly(p: Pipeline, st: EncoderState, input: EncodeInput, i: nat)
    requires i < |Current(p, input)| && Ascending(Current(p, input))
    ensures var plan := PlanOf(p, st, input);
      var e := Current(p, input)[i];
      e.id in Table(Eligible(p, st, input, plan)) <==> IsTaken(p, st, input, i)
  {
    hide Current, Scheduled, TakesTurn, Pick, PlanOf;
    var plan := PlanOf(p, st, input);
    var current, eligible := Current(p, input), Eligible(p, st, input, plan);
    var e := current[i];
    TurnExactly(p, st, input, i);
    PickExactly(current, Scheduled(p, st, input, plan), i);
    EligibleTable(p, st, input, plan, e.id);
    TableAt(current, i);
    if e in eligible {
      var k :| 0 <= k < |eligible| && eligible[k] == e;
      TableAt(eligible, k);
    }
    if e.id in Table(eligible) {
      var k := TableSound(eligible, e.id);
      assert eligible[k] in eligible;
    }
  }

  /** The snapshot recorded with an update, entity by entity: what was taken is there as it decodes, what was not
      is as the snapshot the update was made against had it, if it did, and nothing else is there. */
  lemma ResultingExactly(p: Pipeline, st: EncoderState, input: EncodeInput)
    requires Encode(p, st, input).0.Update? && Ascending(Current(p, input))
    requires Against(p, st, input).Some? ==> Ascending(Against(p, st, input).value.entities)
    ensures var resulting := Table(Encode(p, st, input).0.update.resulting.entities);
      var base := if Against(p, st, input).Some? then Table(Against(p, st, input).value.entities) else map[];
      && Ascending(Encode(p, st, input).0.update.resulting.entities)
      && (forall id :: id in resulting ==> id in Table(Current(p, input)))
      && (forall i :: 0 <= i < |Current(p, input)| ==>
            var e := Current(p, input)[i];
            if IsTaken(p, st, input, i) then e.id in resulting && resulting[e.id] == Canonical(LayoutOf(p), e)
            else (e.id in resulting <==> e.id in base) && (e.id in base ==> resulting[e.id] == base[e.id]))
  {
    hide Current, Encode, PlanOf, Eligible, Canonical, IsTaken, ArgumentsStand, TickStands, Against;
    EmittedExactly(p, st, input);
    PlanBase(p, st, input);
    ResultingMeaning(p, st, input);
    var plan := PlanOf(p, st, input);
    var resulting := Table(Encode(p, st, input).0.update.resulting.entities);
    forall id | id in resulting
      ensures id in Table(Current(p, input))
    {
      assert Represents(resulting, Table(Current(p, input)), BaseTable(plan), Table(Eligible(p, st, input, plan)),
                        LayoutOf(p), id);
    }
    forall i | 0 <= i < |Current(p, input)|
      ensures var e := Current(p, input)[i];
        if IsTaken(p, st, input, i) then e.id in resulting && resulting[e.id] == Canonical(LayoutOf(p), e)
        else (e.id in resulting <==> e.id in BaseTable(plan))
             && (e.id in BaseTable(plan) ==> resulting[e.id] == BaseTable(plan)[e.id])
    {
      TableAt(Current(p, input), i);
      EligibleExactly(p, st, input, i);
      assert Represents(resulting, Table(Current(p, input)), BaseTable(plan), Table(Eligible(p, st, input, plan)),
                        LayoutOf(p), Current(p, input)[i].id);
    }
  }
}
