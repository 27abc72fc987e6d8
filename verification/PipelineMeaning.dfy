/** What the snapshot recorded with an emitted update means, id by id, whichever techniques made it.

    Models src/pipeline/src/pipeline_encode.cpp and src/pipeline/private/pipeline_selection.cppm. */
module PipelineMeaning {
  import opened Bytes
  import opened Snapshot
  import opened Records
  import opened PipelineWire
  import opened PipelineEncode
  import opened PipelineRoundTrip

  lemma {:induction false} CanonicalTable(layout: RecordLayout, entities: seq<EntityState>, id: u32)
    ensures id in Table(CanonicalAll(layout, entities)) <==> id in Table(entities)
    ensures id in Table(entities) ==>
        Table(CanonicalAll(layout, entities))[id] == Canonical(layout, Table(entities)[id])
  {
    hide Canonical;
    if entities != [] {
      CanonicalTable(layout, entities[1..], id);
      assert CanonicalAll(layout, entities)[1..] == CanonicalAll(layout, entities[1..]);
      assert Canonical(layout, entities[0]).id == entities[0].id;
    }
  }

  lemma {:induction false} ChangedTable(layout: RecordLayout, entities: seq<EntityState>, base: map<u32, EntityState>,
                                        id: u32)
    requires Ascending(entities)
    ensures var changed := Table(ChangedOnly(layout, entities, base));
      && (id in changed <==> id in Table(entities) && Changed(layout, Table(entities)[id], base))
      && (id in changed ==> changed[id] == Table(entities)[id])
  {
    hide Changed;
    if entities != [] {
      AscendingTail(entities);
      ChangedTable(layout, entities[1..], base, id);
      TableAbove(entities[1..], entities[0].id);
      var rest := ChangedOnly(layout, entities[1..], base);
      assert ([entities[0]] + rest)[1..] == rest && [] + rest == rest;
    }
  }

  lemma EligibleTable(p: Pipeline, st: EncoderState, input: EncodeInput, plan: Plan, id: u32)
    requires Ascending(Current(p, input))
    ensures Ascending(Eligible(p, st, input, plan))
    ensures var eligible, current := Table(Eligible(p, st, input, plan)), Table(Current(p, input));
      id in eligible ==> id in current && eligible[id] == current[id]
  {
    hide Scheduled;
    var eligible, current := Eligible(p, st, input, plan), Current(p, input);
    PickAscending(current, Scheduled(p, st, input, plan));
    if id in Table(eligible) {
      var i := TableSound(eligible, id);
      assert eligible[i] in current;
      var k :| 0 <= k < |current| && current[k] == eligible[i];
      TableAt(current, k);
    }
  }

  /** What an update leaves out because the baseline already holds it makes no difference. */
  lemma UpsertedTable(p: Pipeline, st: EncoderState, input: EncodeInput, plan: Plan, id: u32)
    requires Ascending(Current(p, input))
    ensures var eligible := Table(Eligible(p, st, input, plan));
      var upserts := Table(CanonicalAll(LayoutOf(p), Upserted(p, st, input, plan)));
      && (id in upserts ==> id in eligible && upserts[id] == Canonical(LayoutOf(p), eligible[id]))
      && (id in eligible && id !in upserts ==>
            id in BaseTable(plan) && BaseTable(plan)[id] == Canonical(LayoutOf(p), eligible[id]))
  {
    hide Eligible, Canonical, CanonicalAll, ChangedOnly;
    EligibleTable(p, st, input, plan, id);
    if id in Table(Eligible(p, st, input, plan)) {
      var i := TableSound(Eligible(p, st, input, plan), id);
    }
    ChangedTable(LayoutOf(p), Eligible(p, st, input, plan), BaseTable(plan), id);
    CanonicalTable(LayoutOf(p), Upserted(p, st, input, plan), id);
  }

  /** One id of the recorded snapshot: gone when the population lacks it; fresh and canonical when it
      was eligible; otherwise as the baseline had it, if it did. */
  ghost predicate Represents(resulting: map<u32, EntityState>, current: map<u32, EntityState>,
                             base: map<u32, EntityState>, eligible: map<u32, EntityState>,
                             layout: RecordLayout, id: u32)
  {
    if id !in current then id !in resulting
    else if id in eligible then id in resulting && resulting[id] == Canonical(layout, current[id])
    else if id in base then id in resulting && resulting[id] == base[id]
    else id !in resulting
  }

  lemma ResultingMeaning(p: Pipeline, st: EncoderState, input: EncodeInput)
    requires Encode(p, st, input).0.Update? && Ascending(Current(p, input))
    requires PlanOf(p, st, input).base.Some? ==> Ascending(PlanOf(p, st, input).base.value.entities)
    ensures var plan := PlanOf(p, st, input);
      var resulting := Encode(p, st, input).0.update.resulting;
      && resulting.tick == input.snapshot.tick
      && Ascending(resulting.entities)
      && (forall id: u32 :: Represents(Table(resulting.entities), Table(Current(p, input)), BaseTable(plan),
                                       Table(Eligible(p, st, input, plan)), LayoutOf(p), id))
  {
    hide Upserted, Eligible, Canonical, Current, Payload;
    var plan := PlanOf(p, st, input);
    PlanFacts(p, st, input);
    UpsertedFacts(p, st, input, plan);
    var upserts := CanonicalAll(LayoutOf(p), Upserted(p, st, input, plan));
    var base := if plan.base.Some? then plan.base.value.entities else [];
    MergeAscending(base, upserts, Deleted(p, input, plan), -1);
    forall id: u32
      ensures Represents(Table(Encode(p, st, input).0.update.resulting.entities), Table(Current(p, input)),
                         BaseTable(plan), Table(Eligible(p, st, input, plan)), LayoutOf(p), id)
    {
      EligibleTable(p, st, input, plan, id);
      UpsertedTable(p, st, input, plan, id);
      MergeEntry(base, upserts, Deleted(p, input, plan), id);
      RemovedExactly(base, Table(Current(p, input)), id);
      if !plan.EmitsPatch() {
        WholeEligible(p, st, input, plan);
      }
    }
  }

  lemma WholeEligible(p: Pipeline, st: EncoderState, input: EncodeInput, plan: Plan)
    requires !plan.scheduleLevelOfDetail && !plan.scheduleIncremental
    ensures Eligible(p, st, input, plan) == Current(p, input)
  {
  }

  /** An unscheduled update, FullReplace or Delta, field-masked or whole, records the canonical form of
      the whole population. */
  lemma UnscheduledIsExact(p: Pipeline, st: EncoderState, input: EncodeInput)
    requires Encode(p, st, input).0.Update? && Ascending(Current(p, input))
    requires PlanOf(p, st, input).base.Some? ==> Ascending(PlanOf(p, st, input).base.value.entities)
    requires !PlanOf(p, st, input).scheduleLevelOfDetail && !PlanOf(p, st, input).scheduleIncremental
    ensures Encode(p, st, input).0.update.resulting.entities == CanonicalAll(LayoutOf(p), Current(p, input))
  {
    hide Canonical, CanonicalAll, Encode, Current;
    ResultingMeaning(p, st, input);
    WholeEligible(p, st, input, PlanOf(p, st, input));
    var resulting, current := Encode(p, st, input).0.update.resulting.entities, Current(p, input);
    var canonical := CanonicalAll(LayoutOf(p), current);
    forall id: u32
      ensures id in Table(resulting) <==> id in Table(canonical)
      ensures id in Table(canonical) ==> Table(resulting)[id] == Table(canonical)[id]
    {
      CanonicalTable(LayoutOf(p), current, id);
      assert Represents(Table(resulting), Table(current), BaseTable(PlanOf(p, st, input)),
                        Table(Eligible(p, st, input, PlanOf(p, st, input))), LayoutOf(p), id);
    }
    assert Table(resulting).Keys == Table(canonical).Keys;
    assert Table(resulting) == Table(canonical);
    CanonicalAscending(LayoutOf(p), current);
    TableDetermines(resulting, canonical);
  }

  lemma CanonicalAscending(layout: RecordLayout, entities: seq<EntityState>)
    requires Ascending(entities)
    ensures Ascending(CanonicalAll(layout, entities))
  {
    hide Canonical;
    var canonical := CanonicalAll(layout, entities);
    forall i, j | 0 <= i < j < |canonical|
      ensures canonical[i].id < canonical[j].id
    {
      assert canonical[i].id == entities[i].id && canonical[j].id == entities[j].id;
    }
  }
}
