/** Conservation over every run of the receiver: every packet is accounted for once, and every
    admitted group leaves by exactly one door or is still retained.

    Models the counters of src/packetization/src/packetization.cpp. */
module ReassemblyLedger {
  import opened Bytes
  import opened PacketFormat
  import opened Reassembly

  // ---------------------------------------------------------------- packets

  datatype Account = Unique | Duplicated | Outdated | Malformed | Refused

  function AccountOf(result: Result): Account {
    match result
    case Incomplete(_) => Unique
    case Complete(_, _, _, _) => Unique
    case Duplicate(_) => Duplicated
    case Stale(_) => Outdated
    case Invalid(_, _) => Malformed
    case LimitExceeded(_) => Refused
  }

  function Count(results: seq<Option<Result>>, account: Account): nat
    decreases results
  {
    if results == [] then 0
    else (if results[0].Some? && AccountOf(results[0].value) == account then 1 else 0) + Count(results[1..], account)
  }

  function Packets(events: seq<Event>): nat
    decreases events
  {
    if events == [] then 0 else (if events[0].Packet? then 1 else 0) + Packets(events[1..])
  }

  function One(result: Result, account: Account): nat {
    if AccountOf(result) == account then 1 else 0
  }

  /** How one result moves the counters; refusals for limits are not counted by the report. */
  ghost predicate MovedBy(before: Report, after: Report, result: Result) {
    && after.receivedChunks == before.receivedChunks
    && after.uniqueChunks == before.uniqueChunks + One(result, Unique)
    && after.duplicateChunks == before.duplicateChunks + One(result, Duplicated)
    && after.staleGroups == before.staleGroups + One(result, Outdated)
    && after.invalidGroups == before.invalidGroups + One(result, Malformed)
  }

  /** How far the five packet counters have moved over a run. */
  ghost predicate Moved(before: Report, after: Report, packets: nat, results: seq<Option<Result>>) {
    && after.receivedChunks == before.receivedChunks + packets
    && after.uniqueChunks == before.uniqueChunks + Count(results, Unique)
    && after.duplicateChunks == before.duplicateChunks + Count(results, Duplicated)
    && after.staleGroups == before.staleGroups + Count(results, Outdated)
    && after.invalidGroups == before.invalidGroups + Count(results, Malformed)
  }

  lemma ReceiveCounters(st: State, k: nat, index: nat, payload: seq<byte>)
    requires k < |st.groups|
    ensures var (next, result) := Receive(st, k, index, payload);
      MovedBy(st.report, next.report, result)
  {
  }

  lemma AcceptChunkCounters(s: Settings, st: State, h: PacketHeader, capacity: nat, payload: seq<byte>, now: int)
    ensures var (next, result) := AcceptChunk(s, st, h, capacity, payload, now);
      MovedBy(st.report, next.report, result)
  {
    var k := Find(st.groups, h.groupId);
    if k < |st.groups| {
      ReceiveCounters(st, k, h.chunkIndex, payload);
    } else {
      ReceiveCounters(Admit(st, h, capacity, now), k, h.chunkIndex, payload);
    }
  }

  lemma DispatchReadCounters(s: Settings, st: State, read: Option<PacketHeader>, packet: seq<byte>, now: int)
    requires ValidSettings(s) && s.enabled && (read.Some? ==> |packet| >= PACKET_HEADER_BYTES)
    ensures var (next, result) := DispatchRead(s, st, read, packet, now);
      MovedBy(st.report, next.report, result)
  {
    if read.Some? {
      AcceptChunkCounters(s, st, read.value, ChunkCapacity(s), packet[PACKET_HEADER_BYTES..], now);
    }
  }

  lemma StepCounters(s: Settings, st: State, e: Event)
    requires ValidSettings(s)
    ensures var (next, result) := Step(s, st, e);
      && (result.Some? <==> e.Packet?)
      && next.report.receivedChunks == st.report.receivedChunks + (if e.Packet? then 1 else 0)
      && (result.Some? ==>
            MovedBy(st.report.(receivedChunks := next.report.receivedChunks), next.report, result.value))
      && (result.None? ==> Moved(st.report, next.report, 0, []))
  {
    if e.Packet? && s.enabled {
      DispatchReadCounters(s, Expire(s, CountReceived(st), e.now), ReadHeader(e.bytes), e.bytes, e.now);
    }
  }

  lemma {:induction false} RunCounters(s: Settings, st: State, events: seq<Event>)
    requires ValidSettings(s)
    ensures var results := Results(s, st, events);
      && Moved(st.report, Run(s, st, events).report, Packets(events), results)
      && Packets(events) == Count(results, Unique) + Count(results, Duplicated) + Count(results, Outdated)
                          + Count(results, Malformed) + Count(results, Refused)
    decreases events
  {
    hide Step;
    if events != [] {
      StepCounters(s, st, events[0]);
      var (next, result) := Step(s, st, events[0]);
      RunCounters(s, next, events[1..]);
      var results := Results(s, st, events);
      assert results[1..] == Results(s, next, events[1..]);
    }
  }

  /** Received packets = unique + duplicate + stale + invalid + refused for limits, over every run. */
  lemma PacketsConserved(s: Settings, events: seq<Event>)
    requires ValidSettings(s)
    ensures var report := Run(s, EMPTY, events).report;
      && report.receivedChunks == Packets(events)
      && report.receivedChunks == report.uniqueChunks + report.duplicateChunks + report.staleGroups
                                + report.invalidGroups + Count(Results(s, EMPTY, events), Refused)
  {
    RunCounters(s, EMPTY, events);
  }

  // ---------------------------------------------------------------- groups

  /** Groups that entered, were dropped for an invalid packet, or were superseded by a commit. */
  datatype Flow = Flow(admitted: nat, rejected: nat, superseded: nat)

  function FlowOf(s: Settings, st: State, e: Event): Flow
    requires ValidSettings(s)
  {
    match e
    case Packet(bytes, now) =>
      var live := Expire(s, CountReceived(st), now);
      var result := Dispatch(s, live, bytes, now).1;
      var retained := Retained(live, result.groupId);
      Flow(if (result.Incomplete? || result.Complete?) && !retained then 1 else 0,
           if result.Invalid? && retained then 1 else 0,
           0)
    case Expiry(now) => Flow(0, 0, 0)
    case Committed(id) =>
      Flow(0, 0, if id <= st.committed then 0 else |st.groups| - |Retain(st.groups, AtLeast(id))|)
  }

  function TotalFlow(s: Settings, st: State, events: seq<Event>): Flow
    requires ValidSettings(s)
    decreases events
  {
    if events == [] then Flow(0, 0, 0)
    else
      var f := FlowOf(s, st, events[0]);
      var rest := TotalFlow(s, Step(s, st, events[0]).0, events[1..]);
      Flow(f.admitted + rest.admitted, f.rejected + rest.rejected, f.superseded + rest.superseded)
  }

  ghost predicate Balanced(before: State, after: State, flow: Flow) {
    |before.groups| + flow.admitted
      == |after.groups| + (after.report.completedGroups - before.report.completedGroups)
       + (after.report.expiredGroups - before.report.expiredGroups) + flow.rejected + flow.superseded
  }

  /** One packet's share of the balance, given whether its group was retained before. */
  ghost predicate PacketBalanced(before: State, after: State, result: Result) {
    var retained := Retained(before, result.groupId);
    && |before.groups| + (if (result.Incomplete? || result.Complete?) && !retained then 1 else 0)
        == |after.groups| + (after.report.completedGroups - before.report.completedGroups)
         + (if result.Invalid? && retained then 1 else 0)
    && after.report.expiredGroups == before.report.expiredGroups
  }

  lemma AcceptChunkBalance(s: Settings, st: State, h: PacketHeader, capacity: nat, payload: seq<byte>, now: int)
    ensures var (next, result) := AcceptChunk(s, st, h, capacity, payload, now);
      PacketBalanced(st, next, result)
  {
    var k := Find(st.groups, h.groupId);
    if k < |st.groups| {
      ReceiveBalance(st, k, h.chunkIndex, payload);
    } else {
      ReceiveBalance(Admit(st, h, capacity, now), k, h.chunkIndex, payload);
    }
  }

  lemma ReceiveBalance(st: State, k: nat, index: nat, payload: seq<byte>)
    requires k < |st.groups|
    requires st.groups[k].chunks == map[] || k == Find(st.groups, st.groups[k].id)
    ensures var (next, result) := Receive(st, k, index, payload);
      && result.groupId == st.groups[k].id
      && |st.groups| == |next.groups| + (next.report.completedGroups - st.report.completedGroups)
                      + (if result.Invalid? then 1 else 0)
      && next.report.expiredGroups == st.report.expiredGroups
      && (st.groups[k].chunks == map[] ==> result.Incomplete? || result.Complete?)
  {
  }

  lemma RejectBalance(st: State, id: nat, reason: Reason)
    ensures var (next, result) := Reject(st, id, reason);
      PacketBalanced(st, next, result)
  {
  }

  lemma NoGroupZero(st: State)
    requires Inv(st)
    ensures !Retained(st, 0)
  {
    forall i | 0 <= i < |st.groups|
      ensures st.groups[i].id != 0
    {
      assert WellFormed(st.groups[i]);
    }
  }

  lemma DispatchBalance(s: Settings, st: State, read: Option<PacketHeader>, packet: seq<byte>, now: int)
    requires ValidSettings(s) && s.enabled && Inv(st) && (read.Some? ==> |packet| >= PACKET_HEADER_BYTES)
    ensures var (next, result) := DispatchRead(s, st, read, packet, now);
      PacketBalanced(st, next, result)
  {
    NoGroupZero(st);
    if read.Some? && HeaderIdentityIsValid(read.value) {
      var h := read.value;
      if !HeaderFieldsAreWithinBounds(s, h, |packet|) {
        RejectBalance(st, h.groupId, FieldsOutsideBounds);
      } else if h.groupId > st.committed {
        RejectBalance(st, h.groupId, CountOrOffsetInconsistent);
        RejectBalance(st, h.groupId, PayloadSizeInconsistent);
        AcceptChunkBalance(s, st, h, ChunkCapacity(s), packet[PACKET_HEADER_BYTES..], now);
      }
    }
  }

  lemma StepBalance(s: Settings, st: State, e: Event)
    requires ValidSettings(s) && s.enabled && Inv(st)
    ensures Balanced(st, Step(s, st, e).0, FlowOf(s, st, e))
  {
    if e.Packet? {
      ExpireInv(s, CountReceived(st), e.now);
      DispatchBalance(s, Expire(s, CountReceived(st), e.now), ReadHeader(e.bytes), e.bytes, e.now);
    }
  }

  lemma {:induction false} RunBalance(s: Settings, st: State, events: seq<Event>)
    requires ValidSettings(s) && s.enabled && Inv(st)
    ensures Balanced(st, Run(s, st, events), TotalFlow(s, st, events))
    decreases events
  {
    if events != [] {
      StepInv(s, st, events[0]);
      StepBalance(s, st, events[0]);
      RunBalance(s, Step(s, st, events[0]).0, events[1..]);
    }
  }

  /** Groups admitted = completed + expired + rejected while retained + superseded + still retained. */
  lemma GroupsConserved(s: Settings, events: seq<Event>)
    requires ValidSettings(s) && s.enabled
    ensures var last := Run(s, EMPTY, events);
      var flow := TotalFlow(s, EMPTY, events);
      flow.admitted == last.report.completedGroups + last.report.expiredGroups + flow.rejected + flow.superseded
                     + |last.groups|
  {
    RunBalance(s, EMPTY, events);
  }
}
