/** Whole runs of one server and one client over a channel that loses, reorders and duplicates
    updates. Every baseline the server passes is a result it recorded; the client keeps its own
    results, evicts old ones, and applies each accepted update to its world.

    Models app/server/server_replication.cppm and app/client/client_replication.cppm around
    src/pipeline/src/pipeline_encode.cpp and src/pipeline/src/pipeline_decode.cpp. */
module PipelineRuns {
  import opened Bytes
  import opened Snapshot
  import opened Records
  import opened PipelineWire
  import opened PipelineEncode
  import opened PipelineDecode
  import opened PipelineRoundTrip
  import opened PipelineMeaning
  import opened GameClient

  // ---------------------------------------------------------------- the server

  /** One committed emission: what was encoded, from which state, and what came out. */
  datatype Emission = Emission(st: EncoderState, input: EncodeInput, update: EncodedUpdate)

  datatype Server = Server(st: EncoderState, history: map<nat, Emission>)

  const FRESH_ENCODER := EncoderState(1, 0, false, false)
  const FRESH_SERVER := Server(FRESH_ENCODER, map[])

  predicate Recorded(history: map<nat, Emission>, baseline: Option<WorldSnapshot>, sequence: nat) {
    baseline.Some? ==> sequence in history && history[sequence].update.resulting == baseline.value
  }

  /** The calls the server makes: valid populations, and baselines it recorded under their sequence. */
  ghost predicate ServerCall(p: Pipeline, server: Server, input: EncodeInput) {
    && Population(Current(p, input))
    && Recorded(server.history, input.baseline, input.baselineSequence)
    && Recorded(server.history, input.replica, input.replicaSequence)
  }

  /** An emission is committed once all of it was handed to the transport; otherwise the encoder state
      is rolled back and the sequence is used again. */
  ghost function Emit(p: Pipeline, server: Server, input: EncodeInput, committed: bool): Server {
    var (outcome, next) := Encode(p, server.st, input);
    if !ServerCall(p, server, input) || !committed || !outcome.Update? then server
    else Server(next, server.history[server.st.nextSequence := Emission(server.st, input, outcome.update)])
  }

  // ---------------------------------------------------------------- the client

  datatype Kept = Kept(sequence: nat, snapshot: WorldSnapshot)

  datatype Client = Client(latestRemote: nat, retained: seq<Kept>, world: World)

  const FRESH_CLIENT := Client(0, [], EMPTY_WORLD)

  function FindKept(retained: seq<Kept>, sequence: nat): Option<WorldSnapshot> {
    if retained == [] then None
    else if retained[0].sequence == sequence then Some(retained[0].snapshot)
    else FindKept(retained[1..], sequence)
  }

  datatype Receipt = Ignored | BaselineUnavailable | Fatal | Updated

  predicate BaselineIsCurrent(c: Client, baselineSequence: nat) {
    c.retained != [] && c.retained[|c.retained| - 1].sequence == baselineSequence
  }

  /** A patch on the newest result is applied as it is; anything else replaces the whole world. */
  function PatchToApply(c: Client, h: UpdateHeader, update: SnapshotUpdate, reconstructed: WorldSnapshot)
    : SnapshotUpdate
  {
    if update.kind == Patch && !BaselineIsCurrent(c, h.baselineSequence)
    then SnapshotUpdate(reconstructed.tick, FullReplace, reconstructed.entities, [])
    else update
  }

  /** Applies a decoded update, then keeps the result; `evicted` old results make room for it. */
  function Commit(c: Client, h: UpdateHeader, update: SnapshotUpdate, baseline: Option<WorldSnapshot>, evicted: nat)
    : (Client, Receipt)
    requires UpdateHeaderFits(h)
  {
    var result := Reconstruct(baseline, update);
    if result.None? then (c, Fatal)
    else
      var patch := PatchToApply(c, h, update, result.value);
      if !Applicable(c.world, patch) then (c, Fatal)
      else
        var left := if evicted <= |c.retained| then c.retained[evicted..] else [];
        (Client(h.sequence, left + [Kept(h.sequence, result.value)], Applied(c.world, patch)), Updated)
  }

  function Receive(p: Pipeline, c: Client, bytes: seq<byte>, evicted: nat): (Client, Receipt) {
    var inspected := InspectHeader(p, c.latestRemote, bytes);
    if inspected.Refused? then (c, if inspected.error == StaleSequence then Ignored else Fatal)
    else
      AdmittedFits(p, c.latestRemote, bytes);
      var h := inspected.header;
      var baseline := if h.baselineSequence == 0 then None else FindKept(c.retained, h.baselineSequence);
      if h.baselineSequence != 0 && baseline.None? then (c, BaselineUnavailable)
      else
        var decoded := Decode(p, c.latestRemote, DecodeInput(bytes, baseline, h.baselineSequence), false);
        if decoded.Rejected? then (c, Fatal) else
        Commit(c, h, decoded.update, baseline, evicted)
  }

  // ---------------------------------------------------------------- invariants

  ghost predicate Committed(p: Pipeline, history: map<nat, Emission>, sequence: nat)
    requires sequence in history
  {
    var e := history[sequence];
    var plan := PlanOf(p, e.st, e.input);
    && e.st.nextSequence == sequence
    && Encode(p, e.st, e.input).0 == EncodeOutcome.Update(e.update)
    && Population(Current(p, e.input))
    && Ascending(e.update.resulting.entities)
    && (plan.base.Some? ==> plan.baselineSequence < sequence && Recorded(history, plan.base, plan.baselineSequence))
  }

  ghost predicate ServerInv(p: Pipeline, server: Server) {
    && server.st.nextSequence > 0
    && forall s :: s in server.history ==> 0 < s < server.st.nextSequence && Committed(p, server.history, s)
  }

  /** What the client keeps is what the server recorded, and its world shows the newest of it. */
  ghost predicate ClientInv(history: map<nat, Emission>, c: Client) {
    && (forall i :: 0 <= i < |c.retained| ==>
          && c.retained[i].sequence in history
          && c.retained[i].snapshot == history[c.retained[i].sequence].update.resulting
          && c.retained[i].sequence <= c.latestRemote)
    && (forall i, j :: 0 <= i < j < |c.retained| ==> c.retained[i].sequence < c.retained[j].sequence)
    && Sound(c.world)
    && (if c.retained == [] then c.latestRemote == 0 && Contents(c.world) == [] && c.world.latestTick == 0
        else var newest := c.retained[|c.retained| - 1];
          && newest.sequence == c.latestRemote
          && Contents(c.world) == newest.snapshot.entities && c.world.latestTick == newest.snapshot.tick)
  }

  // ---------------------------------------------------------------- the server's steps

  lemma EmitFacts(p: Pipeline, st: EncoderState, input: EncodeInput)
    requires Encode(p, st, input).0.Update?
    ensures Decide(p, st, input).Emits? && Encode(p, st, input).1.nextSequence == st.nextSequence + 1
    ensures Encode(p, st, input).0.update.sequence == st.nextSequence > 0
    ensures var plan := PlanOf(p, st, input);
      && Decide(p, st, input).plan == plan
      && Reconstruct(plan.base, LogicalUpdate(p, st, input, plan)) == Some(Encode(p, st, input).0.update.resulting)
      && (plan.base.Some? ==> 0 < plan.baselineSequence < st.nextSequence)
      && (plan.base.None? ==> plan.baselineSequence == 0)
      && (plan.base.Some? <==> plan.EmitsPatch())
      && (plan.base.Some? ==> (plan.base == input.baseline && plan.baselineSequence == input.baselineSequence)
                              || (plan.base == input.replica && plan.baselineSequence == input.replicaSequence))
  {
    hide Payload, LogicalUpdate, HeaderOf, WriteUpdateHeader;
    PlanFacts(p, st, input);
  }

  lemma EmitKeeps(p: Pipeline, server: Server, input: EncodeInput, committed: bool)
    requires ServerInv(p, server)
    ensures ServerInv(p, Emit(p, server, input, committed))
    ensures forall s :: s in server.history ==>
      s in Emit(p, server, input, committed).history
      && Emit(p, server, input, committed).history[s] == server.history[s]
  {
    hide Encode, PlanOf, Population, Current;
    var next := Emit(p, server, input, committed);
    if next != server {
      var sequence := server.st.nextSequence;
      EmitFacts(p, server.st, input);
      var plan := PlanOf(p, server.st, input);
      assert Recorded(server.history, plan.base, plan.baselineSequence);
      if plan.base.Some? {
        assert Committed(p, server.history, plan.baselineSequence);
      }
      PopulationFacts(Current(p, input));
      ResultingMeaning(p, server.st, input);
      assert Committed(p, next.history, sequence);
      forall s | s in server.history
        ensures Committed(p, next.history, s)
      {
        assert Committed(p, server.history, s);
      }
    }
  }

  // ---------------------------------------------------------------- the client's steps

  lemma {:induction false} FindKeptExact(history: map<nat, Emission>, retained: seq<Kept>, sequence: nat)
    requires forall i :: 0 <= i < |retained| ==>
      retained[i].sequence in history && retained[i].snapshot == history[retained[i].sequence].update.resulting
    ensures var found := FindKept(retained, sequence);
      && (found.Some? <==> exists i :: 0 <= i < |retained| && retained[i].sequence == sequence)
      && (found.Some? ==> sequence in history && found.value == history[sequence].update.resulting)
  {
    if retained != [] {
      FindKeptExact(history, retained[1..], sequence);
      if FindKept(retained, sequence).Some? && retained[0].sequence != sequence {
        var i :| 0 <= i < |retained[1..]| && retained[1..][i].sequence == sequence;
        assert retained[i + 1].sequence == sequence;
      }
      forall i | 0 <= i < |retained| && retained[i].sequence == sequence
        ensures FindKept(retained, sequence).Some?
      {
        if i > 0 {
          assert retained[1..][i - 1].sequence == sequence;
        }
      }
    }
  }

  /** An old update is recognised as stale. */
  lemma StaleIgnored(p: Pipeline, history: map<nat, Emission>, sequence: nat, latestRemote: nat)
    requires sequence in history && 0 < sequence <= latestRemote && Committed(p, history, sequence)
    ensures InspectHeader(p, latestRemote, history[sequence].update.bytes) == Refused(StaleSequence)
  {
    hide ReadUpdateHeader, WriteUpdateHeader, Payload, Upserted, Deleted, Population, Encode, InspectHeader;
    var e := history[sequence];
    PopulationFacts(Current(p, e.input));
    EmittedUpdateAdmitted(p, e.st, e.input, 0);
    InspectStale(p, latestRemote, e.update.bytes);
  }

  lemma InspectStale(p: Pipeline, latestRemote: nat, bytes: seq<byte>)
    requires InspectHeader(p, 0, bytes).Admitted? && InspectHeader(p, 0, bytes).header.sequence <= latestRemote
    ensures InspectHeader(p, latestRemote, bytes) == Refused(StaleSequence)
  {
    hide ReadUpdateHeader;
  }

  /** What decides the fate of a recorded update that is newer than everything accepted. */
  ghost predicate Decodable(p: Pipeline, e: Emission) {
    ValidUpdate(LogicalUpdate(p, e.st, e.input, PlanOf(p, e.st, e.input)), p.numerics.normalized)
  }

  /** A newer recorded update whose baseline is kept, or that needs none, decodes to the logical update,
      and reconstructs to exactly the snapshot the server recorded. */
  lemma DecodesExactly(p: Pipeline, server: Server, sequence: nat, latestRemote: nat, baseline: Option<WorldSnapshot>)
    requires ServerInv(p, server) && sequence in server.history && latestRemote < sequence
    requires var e := server.history[sequence];
      baseline == PlanOf(p, e.st, e.input).base
    ensures var e := server.history[sequence];
      var plan := PlanOf(p, e.st, e.input);
      var update := LogicalUpdate(p, e.st, e.input, plan);
      && InspectHeader(p, latestRemote, e.update.bytes) == Admitted(HeaderOf(p, e.st, e.input, plan))
      && Decode(p, latestRemote, DecodeInput(e.update.bytes, baseline, plan.baselineSequence), false)
           == (if Decodable(p, e) then Accepted(HeaderOf(p, e.st, e.input, plan), update) else Rejected(UpdateInvalid))
      && Reconstruct(baseline, update) == Some(e.update.resulting)
  {
    hide Encode, PlanOf, LogicalUpdate, Decode, Population, Current, InspectHeader, BaselineError, ValidUpdate;
    var e := server.history[sequence];
    assert Committed(p, server.history, sequence);
    var plan := PlanOf(p, e.st, e.input);
    EmitFacts(p, e.st, e.input);
    PopulationFacts(Current(p, e.input));
    EmittedUpdateAdmitted(p, e.st, e.input, latestRemote);
    var received := DecodeInput(e.update.bytes, baseline, plan.baselineSequence);
    DecodeEncoded(p, e.st, e.input, latestRemote, received, false);
    ExactBaselineAccepted(p, HeaderOf(p, e.st, e.input, plan), plan, received);
  }

  lemma ExactBaselineAccepted(p: Pipeline, h: UpdateHeader, plan: Plan, received: DecodeInput)
    requires h.baselineSequence == plan.baselineSequence == received.baselineSequence && h.kind == KindByte(plan.Kind())
    requires received.baseline == plan.base && (plan.base.Some? <==> plan.EmitsPatch())
    requires plan.base.None? ==> plan.baselineSequence == 0
    ensures BaselineError(p, h, received, false).None?
  {
  }

  /** Committing keeps the client in step with the server. */
  lemma CommitKeeps(history: map<nat, Emission>, c: Client, h: UpdateHeader, update: SnapshotUpdate,
                    baseline: Option<WorldSnapshot>, evicted: nat)
    requires ClientInv(history, c) && UpdateHeaderFits(h) && h.sequence > c.latestRemote && h.sequence in history
    requires Reconstruct(baseline, update) == Some(history[h.sequence].update.resulting)
    requires Ascending(update.upserts) && Ascending(history[h.sequence].update.resulting.entities)
    requires update.kind == Patch ==> baseline == FindKept(c.retained, h.baselineSequence)
    ensures ClientInv(history, Commit(c, h, update, baseline, evicted).0)
  {
    hide Applied, Applicable, Sound, Contents, Merge, HandleOf, FindKept;
    var result := history[h.sequence].update.resulting;
    var patch := PatchToApply(c, h, update, result);
    if Applicable(c.world, patch) {
      AppliedMeaning(c.world, patch);
      if update.kind == Patch {
        FindKeptExact(history, c.retained, h.baselineSequence);
        if BaselineIsCurrent(c, h.baselineSequence) {
          assert history[h.baselineSequence].update.resulting == c.retained[|c.retained| - 1].snapshot;
        }
      }
      assert Contents(Applied(c.world, patch)) == result.entities;
      var left := if evicted <= |c.retained| then c.retained[evicted..] else [];
      var next := Commit(c, h, update, baseline, evicted).0;
      assert next.retained == left + [Kept(h.sequence, result)];
      assert forall i :: 0 <= i < |left| ==> left[i] == c.retained[i + evicted];
    }
  }

  ghost predicate BaselineKept(p: Pipeline, c: Client, e: Emission) {
    var plan := PlanOf(p, e.st, e.input);
    plan.base.Some? ==> exists i :: 0 <= i < |c.retained| && c.retained[i].sequence == plan.baselineSequence
  }

  /** The world refuses older ticks and unknown classifications. */
  ghost predicate WorldTakes(p: Pipeline, c: Client, e: Emission) {
    var plan := PlanOf(p, e.st, e.input);
    Applicable(c.world,
        PatchToApply(c, HeaderOf(p, e.st, e.input, plan), LogicalUpdate(p, e.st, e.input, plan), e.update.resulting))
  }

  /** Delivering any recorded update, however old, in whatever order: the client stays in step; it
      ignores exactly what is not newer, asks for recovery exactly when the baseline is not kept, and
      otherwise shows the recorded result unless a value or the tick is refused. */
  lemma ReceiveRecorded(p: Pipeline, server: Server, c: Client, sequence: nat, evicted: nat)
    requires ServerInv(p, server) && ClientInv(server.history, c) && sequence in server.history
    ensures var e := server.history[sequence];
      var (next, receipt) := Receive(p, c, e.update.bytes, evicted);
      && ClientInv(server.history, next)
      && next.latestRemote == (if receipt == Updated then sequence else c.latestRemote)
      && (receipt == Ignored <==> sequence <= c.latestRemote)
      && (receipt == BaselineUnavailable <==> sequence > c.latestRemote && !BaselineKept(p, c, e))
      && (receipt == Updated <==>
            sequence > c.latestRemote && BaselineKept(p, c, e) && Decodable(p, e) && WorldTakes(p, c, e))
      && (receipt == Updated ==> Contents(next.world) == e.update.resulting.entities)
      && (receipt != Updated ==> next == c)
  {
    hide Encode, PlanOf, LogicalUpdate, Decode, Population, Current, InspectHeader, BaselineError, ValidUpdate,
        Decodable;
    hide Commit, Sound, Contents, Upserted, Deleted, Payload, WorldTakes, BaselineKept;
    var e := server.history[sequence];
    assert Committed(p, server.history, sequence);
    if sequence <= c.latestRemote {
      StaleIgnored(p, server.history, sequence, c.latestRemote);
    } else {
      hide Receive, FindKept, Reconstruct;
      var plan := PlanOf(p, e.st, e.input);
      var h := HeaderOf(p, e.st, e.input, plan);
      EmitFacts(p, e.st, e.input);
      FindKeptExact(server.history, c.retained, plan.baselineSequence);
      DecodesExactly(p, server, sequence, c.latestRemote, plan.base);
      ReceiveAdmitted(p, c, e.update.bytes, evicted, h);
      TakesExactly(p, c, e);
      KeptExactly(p, c, e);
      if BaselineKept(p, c, e) && Decodable(p, e) {
        LogicalAscending(p, e);
        CommitKeeps(server.history, c, h, LogicalUpdate(p, e.st, e.input, plan), plan.base, evicted);
        CommitShows(c, h, LogicalUpdate(p, e.st, e.input, plan), plan.base, evicted);
      }
    }
  }

  /** What is left to decide once the header is admitted. */
  lemma ReceiveAdmitted(p: Pipeline, c: Client, bytes: seq<byte>, evicted: nat, h: UpdateHeader)
    requires InspectHeader(p, c.latestRemote, bytes) == Admitted(h)
    ensures UpdateHeaderFits(h)
    ensures var baseline := if h.baselineSequence == 0 then None else FindKept(c.retained, h.baselineSequence);
      Receive(p, c, bytes, evicted)
      == if h.baselineSequence != 0 && baseline.None? then (c, BaselineUnavailable)
         else
           var decoded := Decode(p, c.latestRemote, DecodeInput(bytes, baseline, h.baselineSequence), false);
           if decoded.Rejected? then (c, Fatal) else Commit(c, h, decoded.update, baseline, evicted)
  {
    hide InspectHeader, Decode, Commit;
    AdmittedFits(p, c.latestRemote, bytes);
  }

  lemma KeptExactly(p: Pipeline, c: Client, e: Emission)
    ensures var plan := PlanOf(p, e.st, e.input);
      BaselineKept(p, c, e) <==>
        (plan.base.Some? ==> exists i :: 0 <= i < |c.retained| && c.retained[i].sequence == plan.baselineSequence)
  {
    hide PlanOf;
  }

  lemma TakesExactly(p: Pipeline, c: Client, e: Emission)
    ensures var plan := PlanOf(p, e.st, e.input);
      WorldTakes(p, c, e) <==>
        Applicable(c.world, PatchToApply(c, HeaderOf(p, e.st, e.input, plan), LogicalUpdate(p, e.st, e.input, plan),
                                         e.update.resulting))
  {
  }

  lemma LogicalAscending(p: Pipeline, e: Emission)
    requires Decodable(p, e)
    ensures var update := LogicalUpdate(p, e.st, e.input, PlanOf(p, e.st, e.input));
      Ascending(update.upserts) && update.kind == PlanOf(p, e.st, e.input).Kind()
  {
  }

  lemma CommitShows(c: Client, h: UpdateHeader, update: SnapshotUpdate, baseline: Option<WorldSnapshot>, evicted: nat)
    requires UpdateHeaderFits(h)
    ensures var (next, receipt) := Commit(c, h, update, baseline, evicted);
      && (receipt == Updated || (receipt == Fatal && next == c))
      && (receipt == Updated <==>
            Reconstruct(baseline, update).Some?
            && Applicable(c.world, PatchToApply(c, h, update, Reconstruct(baseline, update).value)))
      && (receipt == Updated ==>
            && next.latestRemote == h.sequence && next.retained != []
            && Some(next.retained[|next.retained| - 1].snapshot) == Reconstruct(baseline, update))
  {
  }

  // ---------------------------------------------------------------- what a receipt leaves behind

  lemma CommitKeepsHandles(c: Client, h: UpdateHeader, update: SnapshotUpdate, baseline: Option<WorldSnapshot>,
                           evicted: nat, current: bool, id: u32)
    requires UpdateHeaderFits(h) && Commit(c, h, update, baseline, evicted).1 == Updated
    requires Sound(c.world) && Ascending(update.upserts)
    requires Reconstruct(baseline, update).Some? && Ascending(Reconstruct(baseline, update).value.entities)
    requires forall e :: e in update.upserts ==> e.id !in update.deletes
    requires update.kind == Patch ==> (current <==> BaselineIsCurrent(c, h.baselineSequence))
    requires id in HandleOf(Commit(c, h, update, baseline, evicted).0.world.rows)
    ensures var handle := HandleOf(Commit(c, h, update, baseline, evicted).0.world.rows)[id];
      if update.kind == Patch && current && id in HandleOf(c.world.rows) then handle == HandleOf(c.world.rows)[id]
      else handle >= c.world.nextHandle
  {
    hide Applied, Applicable, Sound, Contents, Merge, HandleOf;
    var patch := PatchToApply(c, h, update, Reconstruct(baseline, update).value);
    AppliedMeaning(c.world, patch);
    if update.kind == Patch && current && id in HandleOf(c.world.rows) {
      PatchKeepsHandles(c.world, patch, id);
    }
  }

  /** A shown update that was made from what the world shows keeps the handle of every entity that stays; any other
      gives every entity a new one. The result is kept as the newest, behind all earlier ones but the evicted. */
  lemma ShownUpdateLeaves(p: Pipeline, server: Server, c: Client, sequence: nat, evicted: nat)
    requires ServerInv(p, server) && ClientInv(server.history, c) && sequence in server.history
    requires Receive(p, c, server.history[sequence].update.bytes, evicted).1 == Updated
    ensures var update, next := server.history[sequence].update,
                                Receive(p, c, server.history[sequence].update.bytes, evicted).0;
      && next.latestRemote == sequence
      && next.retained == (if evicted <= |c.retained| then c.retained[evicted..] else [])
                          + [Kept(sequence, update.resulting)]
      && (forall id :: id in HandleOf(next.world.rows) ==>
            if update.kind == Patch && update.baselineSequence == c.latestRemote && id in HandleOf(c.world.rows)
            then HandleOf(next.world.rows)[id] == HandleOf(c.world.rows)[id]
            else HandleOf(next.world.rows)[id] >= c.world.nextHandle)
  {
    hide Encode, PlanOf, LogicalUpdate, Decode, Population, Current, InspectHeader, BaselineError, ValidUpdate,
        Decodable;
    hide Commit, Sound, Contents, Upserted, Deleted, Payload, HandleOf, WorldTakes;
    var e := server.history[sequence];
    ReceiveRecorded(p, server, c, sequence, evicted);
    assert Committed(p, server.history, sequence);
    var plan := PlanOf(p, e.st, e.input);
    var h, update := HeaderOf(p, e.st, e.input, plan), LogicalUpdate(p, e.st, e.input, plan);
    EmitFacts(p, e.st, e.input);
    EmittedPlan(p, e.st, e.input);
    FindKeptExact(server.history, c.retained, plan.baselineSequence);
    DecodesExactly(p, server, sequence, c.latestRemote, plan.base);
    AdmittedFits(p, c.latestRemote, e.update.bytes);
    LogicalAscending(p, e);
    LogicalDisjoint(p, e);
    CommitRetains(c, h, update, plan.base, evicted);
    var next := Receive(p, c, e.update.bytes, evicted).0;
    assert next == Commit(c, h, update, plan.base, evicted).0;
    forall id | id in HandleOf(next.world.rows)
      ensures if e.update.kind == Patch && e.update.baselineSequence == c.latestRemote && id in HandleOf(c.world.rows)
              then HandleOf(next.world.rows)[id] == HandleOf(c.world.rows)[id]
              else HandleOf(next.world.rows)[id] >= c.world.nextHandle
    {
      CommitKeepsHandles(c, h, update, plan.base, evicted, e.update.baselineSequence == c.latestRemote, id);
    }
  }

  lemma EmittedPlan(p: Pipeline, st: EncoderState, input: EncodeInput)
    requires Encode(p, st, input).0.Update?
    ensures var update, plan := Encode(p, st, input).0.update, PlanOf(p, st, input);
      update.kind == plan.Kind() && update.baselineSequence == plan.baselineSequence
  {
    hide Payload, LogicalUpdate, HeaderOf, WriteUpdateHeader;
    PlanFacts(p, st, input);
  }

  lemma LogicalDisjoint(p: Pipeline, e: Emission)
    requires Decodable(p, e)
    ensures var update := LogicalUpdate(p, e.st, e.input, PlanOf(p, e.st, e.input));
      forall u :: u in update.upserts ==> u.id !in update.deletes
  {
    hide LogicalUpdate, PlanOf;
  }

  lemma CommitRetains(c: Client, h: UpdateHeader, update: SnapshotUpdate, baseline: Option<WorldSnapshot>, evicted: nat)
    requires UpdateHeaderFits(h) && Commit(c, h, update, baseline, evicted).1 == Updated
    ensures Reconstruct(baseline, update).Some?
    ensures Commit(c, h, update, baseline, evicted).0.retained
         == (if evicted <= |c.retained| then c.retained[evicted..] else [])
            + [Kept(h.sequence, Reconstruct(baseline, update).value)]
  {
  }

  /** What the server is told to commit it records, and can deliver from then on; what it is not it forgets, and
      the next attempt uses the same sequence again. */
  lemma CommittedIsRecorded(p: Pipeline, server: Server, input: EncodeInput, committed: bool)
    requires ServerCall(p, server, input)
    ensures var next := Emit(p, server, input, committed);
      var (outcome, st) := Encode(p, server.st, input);
      if committed && outcome.Update? then
        && next.st == st && server.st.nextSequence in next.history
        && next.history[server.st.nextSequence].update == outcome.update
        && next.history.Keys == server.history.Keys + {server.st.nextSequence}
      else next == server
  {
    hide Encode, ServerCall;
  }

  // ---------------------------------------------------------------- runs

  /** Any number of emissions, and deliveries of any recorded update any number of times. */
  datatype Event = Emitted(input: EncodeInput, committed: bool) | Delivery(sequence: nat, evicted: nat)

  datatype System = System(server: Server, client: Client)

  ghost function Step(p: Pipeline, system: System, event: Event): System {
    match event
    case Emitted(input, committed) => system.(server := Emit(p, system.server, input, committed))
    case Delivery(sequence, evicted) =>
      if sequence !in system.server.history then system
      else system.(client := Receive(p, system.client, system.server.history[sequence].update.bytes, evicted).0)
  }

  ghost function Run(p: Pipeline, system: System, events: seq<Event>): System
    decreases events
  {
    if events == [] then system else Run(p, Step(p, system, events[0]), events[1..])
  }

  ghost predicate Inv(p: Pipeline, system: System) {
    ServerInv(p, system.server) && ClientInv(system.server.history, system.client)
  }

  lemma StepKeeps(p: Pipeline, system: System, event: Event)
    requires Inv(p, system)
    ensures Inv(p, Step(p, system, event))
    ensures Step(p, system, event).client.latestRemote >= system.client.latestRemote
  {
    hide Receive, Emit, ServerInv, Sound, Contents;
    match event
    case Emitted(input, committed) =>
      EmitKeeps(p, system.server, input, committed);
    case Delivery(sequence, evicted) =>
      if sequence in system.server.history {
        ReceiveRecorded(p, system.server, system.client, sequence, evicted);
      }
  }

  lemma {:induction false} RunKeeps(p: Pipeline, system: System, events: seq<Event>)
    requires Inv(p, system)
    ensures Inv(p, Run(p, system, events))
    ensures Run(p, system, events).client.latestRemote >= system.client.latestRemote
    decreases events
  {
    hide Step, Inv;
    if events != [] {
      StepKeeps(p, system, events[0]);
      RunKeeps(p, Step(p, system, events[0]), events[1..]);
    }
  }

  const START := System(FRESH_SERVER, FRESH_CLIENT)

  /** Over every run, every snapshot the client keeps is the one the server recorded under that
      sequence, and the client's world shows exactly the newest of them. */
  lemma ClientAgreesWithServer(p: Pipeline, events: seq<Event>)
    ensures var end := Run(p, START, events);
      && (forall i :: 0 <= i < |end.client.retained| ==>
            var kept := end.client.retained[i];
            kept.sequence in end.server.history && kept.snapshot == end.server.history[kept.sequence].update.resulting)
      && Sound(end.client.world)
      && (end.client.latestRemote != 0 ==>
            && end.client.latestRemote in end.server.history
            && Contents(end.client.world) == end.server.history[end.client.latestRemote].update.resulting.entities)
  {
    StartInv(p);
    RunKeeps(p, START, events);
  }

  /** After any run, an update that was made from what the client's world shows is applied to it as a patch: every
      entity that stays keeps its handle, and only new ones are given new handles. */
  lemma PatchesKeepHandles(p: Pipeline, events: seq<Event>, sequence: nat, evicted: nat)
    requires sequence in Run(p, START, events).server.history
    requires var end := Run(p, START, events);
      var update := end.server.history[sequence].update;
      && update.kind == Patch && update.baselineSequence == end.client.latestRemote
      && Receive(p, end.client, update.bytes, evicted).1 == Updated
    ensures var before := Run(p, START, events).client.world;
      var after := Run(p, START, events + [Delivery(sequence, evicted)]).client.world;
      forall id :: id in HandleOf(after.rows) ==>
        if id in HandleOf(before.rows) then HandleOf(after.rows)[id] == HandleOf(before.rows)[id]
        else HandleOf(after.rows)[id] >= before.nextHandle
  {
    StartInv(p);
    hide Run, Receive, Sound, Contents, HandleOf, ServerInv, ClientInv;
    RunKeeps(p, START, events);
    var end := Run(p, START, events);
    ShownUpdateLeaves(p, end.server, end.client, sequence, evicted);
    RunOneMore(p, START, events, Delivery(sequence, evicted));
  }

  lemma StartInv(p: Pipeline)
    ensures Inv(p, START)
  {
    EmptyConsistent(1);
  }

  lemma {:induction false} RunOneMore(p: Pipeline, system: System, events: seq<Event>, event: Event)
    ensures Run(p, system, events + [event]) == Step(p, Run(p, system, events), event)
    decreases events
  {
    hide Step;
    if events == [] {
      assert [event][1..] == [] && events + [event] == [event];
    } else {
      assert (events + [event])[1..] == events[1..] + [event];
      RunOneMore(p, Step(p, system, events[0]), events[1..], event);
    }
  }

  // ---------------------------------------------------------------- nothing committed is refused

  ghost predicate ValidPopulation(p: Pipeline, input: EncodeInput) {
    ValidSnapshot(WorldSnapshot(input.snapshot.tick, Current(p, input)), p.numerics.normalized)
  }

  ghost predicate AllValid(p: Pipeline, history: map<nat, Emission>) {
    forall s :: s in history ==>
      ValidPopulation(p, history[s].input) && ValidSnapshot(history[s].update.resulting, p.numerics.normalized)
  }

  lemma {:induction false} MergeMember(base: seq<EntityState>, upserts: seq<EntityState>, deletes: seq<u32>,
                                       e: EntityState)
    requires e in Merge(base, upserts, deletes)
    ensures e in base || e in upserts
    decreases |base| + |upserts|
  {
    if base != [] {
      var first := Merge(base, upserts, deletes)[0];
      if upserts != [] && upserts[0].id < base[0].id {
        if e != upserts[0] { MergeMember(base, upserts[1..], deletes, e); }
      } else if base[0].id in deletes {
        MergeMember(base[1..], upserts, deletes, e);
      } else if upserts != [] && upserts[0].id == base[0].id {
        if e != upserts[0] { MergeMember(base[1..], upserts[1..], deletes, e); }
      } else if e != base[0] {
        MergeMember(base[1..], upserts, deletes, e);
      }
    }
  }

  /** A valid update on a valid baseline makes a valid snapshot. */
  lemma ReconstructedValid(p: Pipeline, baseline: Option<WorldSnapshot>, update: SnapshotUpdate)
    requires ValidUpdate(update, p.numerics.normalized) && Reconstruct(baseline, update).Some?
    requires baseline.Some? ==> ValidSnapshot(baseline.value, p.numerics.normalized)
    ensures ValidSnapshot(Reconstruct(baseline, update).value, p.numerics.normalized)
  {
    hide ValidEntity, Merge;
    if update.kind == Patch {
      var base := baseline.value.entities;
      var merged := Merge(base, update.upserts, update.deletes);
      MergeMeaning(base, update.upserts, update.deletes);
      forall i | 0 <= i < |merged|
        ensures ValidEntity(merged[i], p.numerics.normalized)
      {
        MergeMember(base, update.upserts, update.deletes, merged[i]);
      }
    }
  }

  lemma EmitKeepsValid(p: Pipeline, server: Server, input: EncodeInput, committed: bool)
    requires ServerInv(p, server) && AllValid(p, server.history) && LawfulNumerics(p) && ValidPopulation(p, input)
    ensures AllValid(p, Emit(p, server, input, committed).history)
  {
    hide Encode, PlanOf, Population, Current, LogicalUpdate, ValidUpdate, ValidSnapshot, LawfulNumerics, Reconstruct;
    var next := Emit(p, server, input, committed);
    if next != server {
      EmitFacts(p, server.st, input);
      var plan := PlanOf(p, server.st, input);
      assert Recorded(server.history, plan.base, plan.baselineSequence);
      LogicalUpdateValid(p, server.st, input);
      ReconstructedValid(p, plan.base, LogicalUpdate(p, server.st, input, plan));
    }
  }

  ghost predicate ValidEvents(p: Pipeline, events: seq<Event>) {
    forall i :: 0 <= i < |events| && events[i].Emitted? ==> ValidPopulation(p, events[i].input)
  }

  lemma {:induction false} RunKeepsValid(p: Pipeline, system: System, events: seq<Event>)
    requires Inv(p, system) && AllValid(p, system.server.history) && LawfulNumerics(p) && ValidEvents(p, events)
    ensures AllValid(p, Run(p, system, events).server.history)
    decreases events
  {
    hide Inv, AllValid, LawfulNumerics, ValidPopulation, Emit, Receive;
    if events != [] {
      StepKeeps(p, system, events[0]);
      InvServer(p, system);
      if events[0].Emitted? {
        EmitKeepsValid(p, system.server, events[0].input, events[0].committed);
      }
      RunKeepsValid(p, Step(p, system, events[0]), events[1..]);
    }
  }

  lemma InvServer(p: Pipeline, system: System)
    requires Inv(p, system)
    ensures ServerInv(p, system.server)
  {
  }

  /** When the transforms are lawful and the populations valid, no committed update is ever refused for
      its values: a newer one is shown as soon as its baseline is kept and the world takes it. */
  lemma CommittedIsDecodable(p: Pipeline, events: seq<Event>, sequence: nat)
    requires LawfulNumerics(p) && ValidEvents(p, events)
    requires sequence in Run(p, START, events).server.history
    ensures Decodable(p, Run(p, START, events).server.history[sequence])
  {
    hide LawfulNumerics, Run, Encode, ValidSnapshot, PlanOf, LogicalUpdate, ValidUpdate, Current, Population;
    StartInv(p);
    RunKeeps(p, START, events);
    RunKeepsValid(p, START, events);
    var server := Run(p, START, events).server;
    var e := server.history[sequence];
    assert Committed(p, server.history, sequence);
    EmitFacts(p, e.st, e.input);
    var plan := PlanOf(p, e.st, e.input);
    assert Recorded(server.history, plan.base, plan.baselineSequence);
    LogicalUpdateValid(p, e.st, e.input);
  }

  // ---------------------------------------------------------------- nothing committed is turned away

  /** Emissions follow the ticks of the simulation. */
  ghost predicate TicksOrdered(history: map<nat, Emission>) {
    forall a, b :: a in history && b in history && a < b ==>
      history[a].input.snapshot.tick <= history[b].input.snapshot.tick
  }

  ghost predicate PopulationSupported(p: Pipeline, input: EncodeInput) {
    forall e :: e in Current(p, input) ==> Supported(e)
  }

  ghost predicate AllSupported(p: Pipeline, history: map<nat, Emission>) {
    forall s :: s in history ==> PopulationSupported(p, history[s].input)
  }

  lemma UpsertsSupported(p: Pipeline, st: EncoderState, input: EncodeInput)
    requires Ascending(Current(p, input)) && PopulationSupported(p, input)
    ensures forall e :: e in LogicalUpdate(p, st, input, PlanOf(p, st, input)).upserts ==> Supported(e)
  {
    hide Current, PlanOf, Upserted;
    var plan := PlanOf(p, st, input);
    UpsertedFacts(p, st, input, plan);
    var entities := Upserted(p, st, input, plan);
    forall i | 0 <= i < |entities|
      ensures Supported(Canonical(LayoutOf(p), entities[i]))
    {
      assert entities[i] in entities;
    }
  }

  /** Every recorded result holds supported classifications only, down the chain of its baselines. */
  lemma {:induction false} ResultingSupported(p: Pipeline, server: Server, sequence: nat)
    requires ServerInv(p, server) && AllSupported(p, server.history) && sequence in server.history
    ensures forall e :: e in server.history[sequence].update.resulting.entities ==> Supported(e)
    decreases sequence
  {
    hide Encode, PlanOf, LogicalUpdate, Population, PopulationSupported, Supported, Merge, Current;
    var emission := server.history[sequence];
    assert Committed(p, server.history, sequence);
    EmitFacts(p, emission.st, emission.input);
    var plan := PlanOf(p, emission.st, emission.input);
    var update := LogicalUpdate(p, emission.st, emission.input, plan);
    PopulationFacts(Current(p, emission.input));
    UpsertsSupported(p, emission.st, emission.input);
    assert Recorded(server.history, plan.base, plan.baselineSequence);
    if plan.base.Some? {
      ResultingSupported(p, server, plan.baselineSequence);
    }
    forall e | e in emission.update.resulting.entities
      ensures Supported(e)
    {
      if update.kind == Patch {
        MergeMember(plan.base.value.entities, update.upserts, update.deletes, e);
      }
    }
  }

  /** A full replacement never waits for a baseline. */
  lemma FullReplaceNeedsNone(p: Pipeline, server: Server, c: Client, sequence: nat)
    requires ServerInv(p, server) && sequence in server.history
    requires server.history[sequence].update.kind == FullReplace
    ensures BaselineKept(p, c, server.history[sequence])
  {
    hide Payload, LogicalUpdate, HeaderOf, WriteUpdateHeader, Upserted, Deleted, Population, Current;
    var e := server.history[sequence];
    assert Committed(p, server.history, sequence);
    EmitFacts(p, e.st, e.input);
  }

  /** With ticks in order and supported classifications the world takes every newer update. */
  lemma WorldTakesOrdered(p: Pipeline, server: Server, c: Client, sequence: nat)
    requires ServerInv(p, server) && ClientInv(server.history, c)
    requires TicksOrdered(server.history) && AllSupported(p, server.history)
    requires sequence in server.history && sequence > c.latestRemote
    ensures WorldTakes(p, c, server.history[sequence])
  {
    hide Encode, PlanOf, Population, PopulationSupported, Supported, Current, Sound, Contents, HeaderOf;
    var emission := server.history[sequence];
    assert Committed(p, server.history, sequence);
    PopulationFacts(Current(p, emission.input));
    UpsertsSupported(p, emission.st, emission.input);
    ResultingSupported(p, server, sequence);
    ResultingTick(p, server, sequence);
    if c.retained != [] {
      ResultingTick(p, server, c.latestRemote);
    }
  }

  lemma ResultingTick(p: Pipeline, server: Server, sequence: nat)
    requires ServerInv(p, server) && sequence in server.history
    ensures server.history[sequence].update.resulting.tick == server.history[sequence].input.snapshot.tick
  {
    hide Encode, PlanOf, Population, Current, Upserted, Deleted, CanonicalAll;
    var emission := server.history[sequence];
    assert Committed(p, server.history, sequence);
    EmitFacts(p, emission.st, emission.input);
  }

  /** Ticks never fall from one emission to the next, and the simulation has only what the world knows. */
  ghost predicate OrderedEvents(p: Pipeline, events: seq<Event>, least: nat)
    decreases events
  {
    events == []
    || (match events[0]
        case Emitted(input, _) =>
          && input.snapshot.tick >= least && PopulationSupported(p, input)
          && OrderedEvents(p, events[1..], input.snapshot.tick)
        case Delivery(_, _) => OrderedEvents(p, events[1..], least))
  }

  ghost predicate TicksUpTo(history: map<nat, Emission>, last: nat) {
    TicksOrdered(history) && forall s :: s in history ==> history[s].input.snapshot.tick <= last
  }

  lemma EmitKeepsOrder(p: Pipeline, server: Server, input: EncodeInput, committed: bool, last: nat)
    requires ServerInv(p, server) && TicksUpTo(server.history, last) && AllSupported(p, server.history)
    requires input.snapshot.tick >= last && PopulationSupported(p, input)
    ensures var next := Emit(p, server, input, committed);
      TicksUpTo(next.history, input.snapshot.tick) && AllSupported(p, next.history)
  {
    hide Encode, Committed, PopulationSupported, ServerCall;
  }

  lemma {:induction false} RunKeepsOrder(p: Pipeline, system: System, events: seq<Event>, last: nat)
    requires Inv(p, system) && OrderedEvents(p, events, last)
    requires TicksUpTo(system.server.history, last) && AllSupported(p, system.server.history)
    ensures TicksOrdered(Run(p, system, events).server.history)
    ensures AllSupported(p, Run(p, system, events).server.history)
    decreases events
  {
    hide Inv, AllSupported, TicksOrdered, PopulationSupported, Emit, Receive;
    if events == [] {
      OrderedOf(system.server.history, last);
    } else {
      StepKeeps(p, system, events[0]);
      InvServer(p, system);
      match events[0] {
        case Emitted(input, committed) =>
          EmitKeepsOrder(p, system.server, input, committed, last);
          RunKeepsOrder(p, Step(p, system, events[0]), events[1..], input.snapshot.tick);
        case Delivery(_, _) =>
          RunKeepsOrder(p, Step(p, system, events[0]), events[1..], last);
      }
    }
  }

  lemma OrderedOf(history: map<nat, Emission>, last: nat)
    requires TicksUpTo(history, last)
    ensures TicksOrdered(history)
  {
  }

  /** When the simulation's ticks never fall, its populations are valid and the transforms lawful, then
      after any run a recorded update is shown exactly when it is newer and its baseline is still kept. */
  lemma OrderedUpdatesAreShown(p: Pipeline, events: seq<Event>, sequence: nat, evicted: nat)
    requires LawfulNumerics(p) && ValidEvents(p, events) && OrderedEvents(p, events, 0)
    requires sequence in Run(p, START, events).server.history
    ensures var end := Run(p, START, events);
      var e := end.server.history[sequence];
      Receive(p, end.client, e.update.bytes, evicted).1 == Updated <==>
        sequence > end.client.latestRemote && BaselineKept(p, end.client, e)
  {
    hide LawfulNumerics, Run, Encode, PlanOf, Receive, BaselineKept, WorldTakes, Decodable, Current;
    StartInv(p);
    RunKeeps(p, START, events);
    RunKeepsOrder(p, START, events, 0);
    CommittedIsDecodable(p, events, sequence);
    var end := Run(p, START, events);
    ReceiveRecorded(p, end.server, end.client, sequence, evicted);
    if sequence > end.client.latestRemote {
      WorldTakesOrdered(p, end.server, end.client, sequence);
    }
  }
}
