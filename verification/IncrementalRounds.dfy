/** Fairness of incremental scheduling: the cursor that the encoder leaves behind makes consecutive
    updates continue one round, so that no entity waits longer than a round takes.

    Models the cursor of src/pipeline/src/pipeline_encode.cpp and the slices of
    src/pipeline/private/pipeline_selection.cppm. */
module IncrementalRounds {
  import opened Bytes
  import opened Snapshot
  import opened Records
  import opened PipelineWire
  import opened PipelineEncode
  import opened PipelineMeaning
  import opened Arithmetic

  // ---------------------------------------------------------------- rounds

  lemma RoundEnds(count: nat, start: nat, taken: nat, last: nat)
    requires count > 0 && (taken > 0 ==> last == (start + taken - 1) % count)
    ensures RoundFrom(count, start, taken) == if taken == 0 then {} else RoundFrom(count, start, taken - 1) + {last}
  {
  }

  /** A slice and the one that starts where it ends are one longer slice. */
  lemma {:induction false} RoundsJoin(count: nat, start: nat, next: nat, a: nat, b: nat)
    requires count > 0 && next == (start + a) % count
    ensures RoundFrom(count, start, a) + RoundFrom(count, next, b) == RoundFrom(count, start, a + b)
    decreases b
  {
    hide RoundFrom;
    if b == 0 {
      RoundEnds(count, next, 0, 0);
    } else {
      RoundsJoin(count, start, next, a, b - 1);
      ModuloAdd(start + a, b - 1, count);
      var last := (start + a + (b - 1)) % count;
      RoundEnds(count, next, b, last);
      RoundEnds(count, start, a + b, last);
    }
  }

  lemma {:induction false} InRound(count: nat, start: nat, taken: nat, offset: nat)
    requires count > 0 && offset < taken
    ensures (start + offset) % count in RoundFrom(count, start, taken)
  {
    if offset < taken - 1 {
      InRound(count, start, taken - 1, offset);
    }
  }

  /** A slice as long as the population is all of it. */
  lemma FullRound(count: nat, start: nat, taken: nat, i: nat)
    requires start < count <= taken && i < count
    ensures i in RoundFrom(count, start, taken)
  {
    var offset := if i >= start then i - start else i + count - start;
    InRound(count, start, taken, offset);
    DivideExactly(if i >= start then 0 else 1, i, count);
  }

  // ---------------------------------------------------------------- runs of the encoder

  /** Updates made one after the other by the incremental schedule, over a population of constant size. */
  ghost predicate IncrementalRun(p: Pipeline, st: EncoderState, inputs: seq<EncodeInput>, count: nat)
    decreases inputs
  {
    inputs == []
    || (&& Encode(p, st, inputs[0]).0.Update?
        && PlanOf(p, st, inputs[0]).scheduleIncremental && !p.levelOfDetail
        && |Current(p, inputs[0])| == count
        && IncrementalRun(p, Encode(p, st, inputs[0]).1, inputs[1..], count))
  }

  function StateBefore(p: Pipeline, st: EncoderState, inputs: seq<EncodeInput>, j: nat): EncoderState
    requires j <= |inputs|
    decreases inputs
  {
    if j == 0 then st else StateBefore(p, Encode(p, st, inputs[0]).1, inputs[1..], j - 1)
  }

  /** The `j`-th update of the run schedules the index. */
  ghost predicate Schedules(p: Pipeline, st: EncoderState, inputs: seq<EncodeInput>, j: nat, i: nat)
    requires j < |inputs|
  {
    var before := StateBefore(p, st, inputs, j);
    i in Scheduled(p, before, inputs[j], PlanOf(p, before, inputs[j]))
  }

  ghost predicate ComesUp(p: Pipeline, st: EncoderState, inputs: seq<EncodeInput>, i: nat) {
    exists j :: 0 <= j < |inputs| && Schedules(p, st, inputs, j, i)
  }

  /** How many indices so many updates take together. */
  function TakenBy(updates: nat, count: nat, maximum: nat): nat {
    updates * Min(count, maximum)
  }

  /** What one scheduled update does to the cursor, and which slice it takes. */
  lemma ScheduledStep(p: Pipeline, st: EncoderState, input: EncodeInput, count: nat)
    requires Encode(p, st, input).0.Update? && PlanOf(p, st, input).scheduleIncremental && !p.levelOfDetail
    requires |Current(p, input)| == count > 0
    ensures var taken := Min(count, p.maxEntitiesPerUpdate);
      && taken > 0
      && Encode(p, st, input).1.incrementalCursor == (st.incrementalCursor + taken) % count
      && RoundFrom(count, st.incrementalCursor % count, taken)
           <= Scheduled(p, st, input, PlanOf(p, st, input))
  {
    hide EncodePlan, RoundFrom, RecoveryIndices;
    PlanFacts(p, st, input);
  }

  lemma ComesUpLater(p: Pipeline, st: EncoderState, inputs: seq<EncodeInput>, i: nat)
    requires inputs != [] && ComesUp(p, Encode(p, st, inputs[0]).1, inputs[1..], i)
    ensures ComesUp(p, st, inputs, i)
  {
    hide Encode, Scheduled, PlanOf;
    var next := Encode(p, st, inputs[0]).1;
    var j :| 0 <= j < |inputs[1..]| && Schedules(p, next, inputs[1..], j, i);
    assert Schedules(p, st, inputs, j + 1, i);
  }

  /** The updates of a run schedule at least one unbroken slice of as many indices as they take together. */
  lemma {:induction false} RunTakesRound(p: Pipeline, st: EncoderState, inputs: seq<EncodeInput>, count: nat, i: nat)
    requires count > 0
    requires i in RoundFrom(count, st.incrementalCursor % count, TakenBy(|inputs|, count, p.maxEntitiesPerUpdate))
    requires IncrementalRun(p, st, inputs, count)
    ensures ComesUp(p, st, inputs, i)
    decreases inputs
  {
    hide Encode, PlanOf, Current, Scheduled;
    if inputs != [] {
      var taken := Min(count, p.maxEntitiesPerUpdate);
      var start := st.incrementalCursor % count;
      var rest := TakenBy(|inputs| - 1, count, p.maxEntitiesPerUpdate);
      ScheduledStep(p, st, inputs[0], count);
      Distribute(1, |inputs| - 1, taken);
      ModuloAdd(st.incrementalCursor, taken, count);
      RoundsJoin(count, start, (start + taken) % count, taken, rest);
      if i in RoundFrom(count, start, taken) {
        assert Schedules(p, st, inputs, 0, i);
      } else {
        var next := Encode(p, st, inputs[0]).1;
        ModuloAdd(st.incrementalCursor + taken, 0, count);
        assert next.incrementalCursor % count == (start + taken) % count;
        RunTakesRound(p, next, inputs[1..], count, i);
        ComesUpLater(p, st, inputs, i);
      }
    }
  }

  /** Within as many updates as a round takes, every index comes up. */
  lemma EveryIndexComesUp(p: Pipeline, st: EncoderState, inputs: seq<EncodeInput>, count: nat, i: nat)
    requires IncrementalRun(p, st, inputs, count) && i < count
    requires TakenBy(|inputs|, count, p.maxEntitiesPerUpdate) >= count
    ensures ComesUp(p, st, inputs, i)
  {
    hide IncrementalRun;
    FullRound(count, st.incrementalCursor % count, TakenBy(|inputs|, count, p.maxEntitiesPerUpdate), i);
    RunTakesRound(p, st, inputs, count, i);
  }

  lemma {:induction false} PickHas(entities: seq<EntityState>, chosen: set<nat>, i: nat)
    requires i < |entities| && i in chosen
    ensures entities[i] in Pick(entities, chosen)
  {
    if i < |entities| - 1 {
      PickHas(entities[..|entities| - 1], chosen, i);
    }
  }

  lemma MemberOfTable(entities: seq<EntityState>, e: EntityState)
    requires Ascending(entities) && e in entities
    ensures e.id in Table(entities) && Table(entities)[e.id] == e
  {
    var i :| 0 <= i < |entities| && entities[i] == e;
    TableAt(entities, i);
  }

  /** And an update that schedules an entity records its current canonical value. */
  lemma ScheduledIsCurrent(p: Pipeline, st: EncoderState, input: EncodeInput, i: nat)
    requires Encode(p, st, input).0.Update? && PlanOf(p, st, input).scheduleIncremental
    requires Ascending(Current(p, input)) && i < |Current(p, input)|
    requires PlanOf(p, st, input).base.Some? ==> Ascending(PlanOf(p, st, input).base.value.entities)
    requires i in Scheduled(p, st, input, PlanOf(p, st, input))
    ensures var e, resulting := Current(p, input)[i], Table(Encode(p, st, input).0.update.resulting.entities);
      e.id in resulting && resulting[e.id] == Canonical(LayoutOf(p), e)
  {
    hide Encode, Scheduled, PlanOf, Current, Canonical, Pick;
    var plan := PlanOf(p, st, input);
    var e, eligible := Current(p, input)[i], Eligible(p, st, input, plan);
    PickHas(Current(p, input), Scheduled(p, st, input, plan), i);
    EligibleTable(p, st, input, plan, e.id);
    MemberOfTable(eligible, e);
    MemberOfTable(Current(p, input), e);
    ResultingMeaning(p, st, input);
    var resulting := Table(Encode(p, st, input).0.update.resulting.entities);
    assert PipelineMeaning.Represents(
        resulting, Table(Current(p, input)), BaseTable(plan), Table(eligible), LayoutOf(p), e.id);
  }
}
