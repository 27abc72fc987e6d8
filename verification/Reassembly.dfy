/** The receiving half of packetization as an abstract state machine: a retained group is its
    metadata and the map of chunks received so far. `ReassemblyState.dfy` proves that the
    bitset-and-buffer implementation refines it.

    Models src/packetization/src/packetization.cpp. */
module Reassembly {
  import opened Bytes
  import opened PacketFormat

  datatype Group = Group(
    id: nat,
    size: nat,
    capacity: nat,
    count: nat,
    first: int,
    chunks: map<nat, seq<byte>>)

  datatype Report = Report(
    receivedChunks: nat,
    uniqueChunks: nat,
    duplicateChunks: nat,
    incompleteGroups: nat,
    retainedIncompleteBytes: nat,
    latestCompletedGroupBytes: nat,
    completedGroups: nat,
    expiredGroups: nat,
    invalidGroups: nat,
    staleGroups: nat)

  datatype State = State(committed: nat, groups: seq<Group>, report: Report)

  const EMPTY_REPORT := Report(0, 0, 0, 0, 0, 0, 0, 0, 0, 0)
  const EMPTY := State(0, [], EMPTY_REPORT)

  datatype Reason =
    | RawPayloadOutsideBounds
    | ShorterThanHeader
    | IdentityOrVersionInvalid
    | FieldsOutsideBounds
    | CountOrOffsetInconsistent
    | PayloadSizeInconsistent
    | MetadataConflict
    | DuplicatePayloadConflict

  datatype Result =
    | Incomplete(groupId: nat)
    | Complete(groupId: nat, chunkCount: nat, totalPacketBytes: nat, bytes: seq<byte>)
    | Duplicate(groupId: nat)
    | Stale(groupId: nat)
    | Invalid(groupId: nat, reason: Reason)
    | LimitExceeded(groupId: nat)

  // ---------------------------------------------------------------- retained groups

  function TotalBytes(groups: seq<Group>): nat {
    if groups == [] then 0 else TotalBytes(groups[..|groups| - 1]) + groups[|groups| - 1].size
  }

  /** The three reasons for which retained groups are dropped in bulk or singly. */
  datatype Keep = Unexpired(timeout: int, now: int) | AtLeast(id: nat) | Except(id: nat)

  predicate TimedOut(timeout: int, first: int, now: int) {
    now >= first && now - first >= timeout
  }

  predicate Keeps(keep: Keep, id: nat, first: int) {
    match keep
    case Unexpired(timeout, now) => !TimedOut(timeout, first, now)
    case AtLeast(least) => id >= least
    case Except(other) => id != other
  }

  function Retain(groups: seq<Group>, keep: Keep): (kept: seq<Group>)
    ensures |kept| <= |groups|
  {
    if groups == [] then []
    else
      var last := groups[|groups| - 1];
      var rest := Retain(groups[..|groups| - 1], keep);
      if Keeps(keep, last.id, last.first) then rest + [last] else rest
  }

  function Find(groups: seq<Group>, id: nat): (index: nat)
    ensures index <= |groups|
    ensures index < |groups| ==> groups[index].id == id
  {
    if groups == [] || groups[0].id == id then 0 else 1 + Find(groups[1..], id)
  }

  lemma {:induction false} FindIsFirst(groups: seq<Group>, id: nat)
    ensures forall j :: 0 <= j < Find(groups, id) ==> groups[j].id != id
  {
    if groups != [] && groups[0].id != id {
      FindIsFirst(groups[1..], id);
      forall j | 0 <= j < Find(groups, id)
        ensures groups[j].id != id
      {
        if j > 0 {
          assert groups[j] == groups[1..][j - 1];
        }
      }
    }
  }

  predicate Retained(st: State, id: nat) {
    Find(st.groups, id) < |st.groups|
  }

  function Without(groups: seq<Group>, index: nat): seq<Group>
    requires index < |groups|
  {
    groups[..index] + groups[index + 1..]
  }

  /** The narrowing cast to a 32-bit counter. */
  function Narrow(value: nat): nat {
    if value <= U32_MAX then value else value % 0x1_0000_0000
  }

  /** Recomputes the two totals the resource limits are checked against. */
  function Refresh(st: State): State {
    st.(report := st.report.(incompleteGroups := Narrow(|st.groups|),
                             retainedIncompleteBytes := Narrow(TotalBytes(st.groups))))
  }

  function Assemble(chunks: map<nat, seq<byte>>, count: nat): seq<byte> {
    if count == 0 then []
    else Assemble(chunks, count - 1) + if count - 1 in chunks then chunks[count - 1] else []
  }

  // ---------------------------------------------------------------- operations

  function Expire(s: Settings, st: State, now: int): State {
    var kept := Retain(st.groups, Unexpired(s.reassemblyTimeout, now));
    Refresh(st.(groups := kept,
                report := st.report.(expiredGroups := st.report.expiredGroups + |st.groups| - |kept|)))
  }

  function Commit(st: State, id: nat): State {
    if id <= st.committed then st
    else Refresh(st.(committed := id, groups := Retain(st.groups, AtLeast(id))))
  }

  function CountInvalid(st: State): State {
    st.(report := st.report.(invalidGroups := st.report.invalidGroups + 1))
  }

  /** Drops the offending group, if it is retained, and no other. */
  function Reject(st: State, id: nat, reason: Reason): (State, Result) {
    var k := Find(st.groups, id);
    var dropped := if k < |st.groups| then Refresh(st.(groups := Without(st.groups, k))) else st;
    (CountInvalid(dropped), Invalid(id, reason))
  }

  function AcceptRaw(s: Settings, st: State, packet: seq<byte>): (State, Result) {
    if packet == [] || |packet| > s.maxPayloadBytes || |packet| > s.maxGroupBytes then
      (CountInvalid(st), Invalid(0, RawPayloadOutsideBounds))
    else
      (st.(report := st.report.(uniqueChunks := st.report.uniqueChunks + 1,
                                completedGroups := st.report.completedGroups + 1,
                                latestCompletedGroupBytes := |packet|)),
       Complete(0, 1, |packet|, packet))
  }

  /** Hands over the group at `k`, all of whose chunks are present. */
  function Finish(st: State, k: nat): (State, Result)
    requires k < |st.groups|
  {
    var g := st.groups[k];
    var bytes := Assemble(g.chunks, g.count);
    var erased := Refresh(st.(groups := Without(st.groups, k)));
    (erased.(report := erased.report.(completedGroups := erased.report.completedGroups + 1,
                                      latestCompletedGroupBytes := |bytes|)),
     Complete(g.id, g.count, g.size + g.count * PACKET_HEADER_BYTES, bytes))
  }

  /** Files one chunk under the retained group at `k`. */
  function Receive(st: State, k: nat, index: nat, payload: seq<byte>): (State, Result)
    requires k < |st.groups|
  {
    var g := st.groups[k];
    if index in g.chunks then
      if g.chunks[index] != payload then Reject(st, g.id, DuplicatePayloadConflict)
      else
        (st.(report := st.report.(duplicateChunks := st.report.duplicateChunks + 1)), Duplicate(g.id))
    else
      var filled := g.(chunks := g.chunks[index := payload]);
      var counted := st.(groups := st.groups[k := filled],
                         report := st.report.(uniqueChunks := st.report.uniqueChunks + 1));
      if |filled.chunks| != g.count then (counted, Incomplete(g.id)) else Finish(counted, k)
  }

  predicate WithinLimits(s: Settings, st: State, size: nat) {
    |st.groups| < s.maxInFlightGroups && st.report.retainedIncompleteBytes + size <= s.maxIncompleteBytes
  }

  function Admit(st: State, h: PacketHeader, capacity: nat, now: int): State {
    Refresh(st.(groups := st.groups + [Group(h.groupId, h.groupBytes, capacity, h.chunkCount, now, map[])]))
  }

  function AcceptChunk(s: Settings, st: State, h: PacketHeader, capacity: nat, payload: seq<byte>, now: int)
    : (State, Result)
  {
    var k := Find(st.groups, h.groupId);
    if k < |st.groups| then
      var g := st.groups[k];
      if g.size != h.groupBytes || g.count != h.chunkCount || g.capacity != capacity then
        Reject(st, h.groupId, MetadataConflict)
      else Receive(st, k, h.chunkIndex, payload)
    else if !WithinLimits(s, st, h.groupBytes) then (st, LimitExceeded(h.groupId))
    else Receive(Admit(st, h, capacity, now), k, h.chunkIndex, payload)
  }

  /** `accept_group_packet` once the header has been read, if the packet is long enough for one. */
  function DispatchRead(s: Settings, st: State, read: Option<PacketHeader>, packet: seq<byte>, now: int)
    : (State, Result)
    requires ValidSettings(s) && s.enabled && (read.Some? ==> |packet| >= PACKET_HEADER_BYTES)
  {
    if read.None? then (CountInvalid(st), Invalid(0, ShorterThanHeader))
    else
      var h := read.value;
      if !HeaderIdentityIsValid(h) then (CountInvalid(st), Invalid(0, IdentityOrVersionInvalid))
      else if !HeaderFieldsAreWithinBounds(s, h, |packet|) then Reject(st, h.groupId, FieldsOutsideBounds)
      else if h.groupId <= st.committed then
        (st.(report := st.report.(staleGroups := st.report.staleGroups + 1)), Stale(h.groupId))
      else if !ChunkGeometryIsConsistent(h, ChunkCapacity(s)) then Reject(st, h.groupId, CountOrOffsetInconsistent)
      else if !ChunkSizeIsConsistent(h, ChunkCapacity(s)) then Reject(st, h.groupId, PayloadSizeInconsistent)
      else AcceptChunk(s, st, h, ChunkCapacity(s), packet[PACKET_HEADER_BYTES..], now)
  }

  /** `accept_group_packet` after the packet has been counted and old groups have expired. */
  function Dispatch(s: Settings, st: State, packet: seq<byte>, now: int): (State, Result)
    requires ValidSettings(s)
  {
    if s.enabled then DispatchRead(s, st, ReadHeader(packet), packet, now) else AcceptRaw(s, st, packet)
  }

  function CountReceived(st: State): State {
    st.(report := st.report.(receivedChunks := st.report.receivedChunks + 1))
  }

  function Accept(s: Settings, st: State, packet: seq<byte>, now: int): (State, Result)
    requires ValidSettings(s)
  {
    Dispatch(s, Expire(s, CountReceived(st), now), packet, now)
  }

  // ---------------------------------------------------------------- runs

  datatype Event = Packet(bytes: seq<byte>, now: int) | Expiry(now: int) | Committed(id: nat)

  function Step(s: Settings, st: State, e: Event): (State, Option<Result>)
    requires ValidSettings(s)
  {
    match e
    case Packet(bytes, now) => var (next, result) := Accept(s, st, bytes, now); (next, Some(result))
    case Expiry(now) => (Expire(s, st, now), None)
    case Committed(id) => (Commit(st, id), None)
  }

  function Run(s: Settings, st: State, events: seq<Event>): State
    requires ValidSettings(s)
    decreases events
  {
    if events == [] then st else Run(s, Step(s, st, events[0]).0, events[1..])
  }

  /** What the caller was handed at each event of a run. */
  function Results(s: Settings, st: State, events: seq<Event>): (results: seq<Option<Result>>)
    requires ValidSettings(s)
    ensures |results| == |events|
    decreases events
  {
    if events == [] then [] else [Step(s, st, events[0]).1] + Results(s, Step(s, st, events[0]).0, events[1..])
  }

  // ---------------------------------------------------------------- the invariant

  ghost predicate WellFormed(g: Group) {
    && g.id > 0 && g.size > 0 && g.capacity > 0
    && g.count == CeilingDivide(g.size, g.capacity)
    && |g.chunks| < g.count
    && forall i :: i in g.chunks ==>
        i < g.count && |g.chunks[i]| == ChunkEnd(g.size, g.capacity, i) - ChunkStart(g.capacity, i)
  }

  ghost predicate DistinctIds(groups: seq<Group>) {
    forall i, j :: 0 <= i < j < |groups| ==> groups[i].id != groups[j].id
  }

  /** What every reachable state satisfies, whatever packets an adversary sends. */
  ghost predicate Inv(st: State) {
    && (forall i :: 0 <= i < |st.groups| ==> WellFormed(st.groups[i]))
    && (forall i :: 0 <= i < |st.groups| ==> st.groups[i].id >= st.committed)
    && DistinctIds(st.groups)
    && st.report.incompleteGroups == |st.groups| <= MAXIMUM_IN_FLIGHT_GROUPS
    && st.report.retainedIncompleteBytes == TotalBytes(st.groups) <= MAXIMUM_INCOMPLETE_GROUP_BYTES
  }

  ghost predicate WithinBudget(s: Settings, st: State) {
    |st.groups| <= s.maxInFlightGroups && TotalBytes(st.groups) <= s.maxIncompleteBytes
  }

  lemma FindComplete(groups: seq<Group>, i: nat)
    requires i < |groups|
    ensures Find(groups, groups[i].id) <= i
  {
    FindIsFirst(groups, groups[i].id);
  }

  lemma {:induction false} RetainMember(groups: seq<Group>, keep: Keep, g: Group)
    ensures g in Retain(groups, keep) <==> g in groups && Keeps(keep, g.id, g.first)
  {
    hide Keeps;
    if groups != [] {
      var init := groups[..|groups| - 1];
      RetainMember(init, keep, g);
      assert groups == init + [groups[|groups| - 1]];
    }
  }

  lemma {:induction false} RetainShrinks(groups: seq<Group>, keep: Keep)
    ensures TotalBytes(Retain(groups, keep)) <= TotalBytes(groups)
  {
    hide Keeps;
    if groups != [] {
      var init := groups[..|groups| - 1];
      RetainShrinks(init, keep);
      var last := groups[|groups| - 1];
      if Keeps(keep, last.id, last.first) {
        assert (Retain(init, keep) + [last])[..|Retain(init, keep)|] == Retain(init, keep);
      }
    }
  }

  lemma {:induction false} RetainDistinct(groups: seq<Group>, keep: Keep)
    requires DistinctIds(groups)
    ensures DistinctIds(Retain(groups, keep))
  {
    hide Keeps;
    if groups != [] {
      var init := groups[..|groups| - 1];
      RetainDistinct(init, keep);
      var last, rest := groups[|groups| - 1], Retain(init, keep);
      forall j | 0 <= j < |rest|
        ensures rest[j].id != last.id
      {
        RetainMember(init, keep, rest[j]);
      }
    }
  }

  /** Retaining keeps exactly the groups that qualify, in no more bytes, and their ids distinct. */
  lemma RetainKeeps(groups: seq<Group>, keep: Keep)
    ensures var kept := Retain(groups, keep);
      && TotalBytes(kept) <= TotalBytes(groups)
      && (forall j :: 0 <= j < |kept| ==> kept[j] in groups && Keeps(keep, kept[j].id, kept[j].first))
      && (forall g :: g in groups && Keeps(keep, g.id, g.first) ==> g in kept)
      && (DistinctIds(groups) ==> DistinctIds(kept))
  {
    hide Retain, Keeps;
    RetainShrinks(groups, keep);
    forall g
      ensures g in Retain(groups, keep) <==> g in groups && Keeps(keep, g.id, g.first)
    {
      RetainMember(groups, keep, g);
    }
    if DistinctIds(groups) {
      RetainDistinct(groups, keep);
    }
  }

  lemma {:induction false} TotalSplit(a: seq<Group>, b: seq<Group>)
    ensures TotalBytes(a + b) == TotalBytes(a) + TotalBytes(b)
  {
    if b == [] {
      assert a + b == a;
    } else {
      TotalSplit(a, b[..|b| - 1]);
      assert (a + b)[..|a + b| - 1] == a + b[..|b| - 1];
    }
  }

  lemma TotalOfOne(g: Group)
    ensures TotalBytes([g]) == g.size
  {
    assert [g][..0] == [];
  }

  lemma TotalWithout(groups: seq<Group>, k: nat)
    requires k < |groups|
    ensures TotalBytes(groups) == TotalBytes(Without(groups, k)) + groups[k].size
  {
    hide TotalBytes;
    var before, g, after := groups[..k], groups[k], groups[k + 1..];
    assert groups == before + ([g] + after);
    TotalSplit(before, [g] + after);
    TotalSplit([g], after);
    TotalSplit(before, after);
    TotalOfOne(g);
  }

  lemma TotalUpdate(groups: seq<Group>, k: nat, g: Group)
    requires k < |groups| && g.size == groups[k].size
    ensures TotalBytes(groups[k := g]) == TotalBytes(groups)
  {
    TotalWithout(groups, k);
    TotalWithout(groups[k := g], k);
    assert Without(groups[k := g], k) == Without(groups, k);
  }

  lemma RetainInv(st: State, keep: Keep, next: State)
    requires Inv(st) && next == Refresh(next) && next.groups == Retain(st.groups, keep)
    requires next.committed == st.committed || keep == AtLeast(next.committed)
    ensures Inv(next)
    ensures |next.groups| <= |st.groups| && TotalBytes(next.groups) <= TotalBytes(st.groups)
  {
    RetainKeeps(st.groups, keep);
    forall i | 0 <= i < |next.groups|
      ensures WellFormed(next.groups[i]) && next.groups[i].id >= next.committed
    {
      assert next.groups[i] in st.groups;
    }
  }

  lemma ExpireInv(s: Settings, st: State, now: int)
    requires Inv(st)
    ensures Inv(Expire(s, st, now))
    ensures WithinBudget(s, st) ==> WithinBudget(s, Expire(s, st, now))
  {
    RetainInv(st, Unexpired(s.reassemblyTimeout, now), Expire(s, st, now));
  }

  lemma CommitInv(s: Settings, st: State, id: nat)
    requires Inv(st)
    ensures Inv(Commit(st, id))
    ensures WithinBudget(s, st) ==> WithinBudget(s, Commit(st, id))
  {
    if id > st.committed {
      RetainInv(st, AtLeast(id), Commit(st, id));
    }
  }

  lemma RejectInv(s: Settings, st: State, id: nat, reason: Reason)
    requires Inv(st)
    ensures Inv(Reject(st, id, reason).0)
    ensures WithinBudget(s, st) ==> WithinBudget(s, Reject(st, id, reason).0)
  {
    hide WellFormed, DistinctIds, TotalBytes;
    var k := Find(st.groups, id);
    if k < |st.groups| {
      TotalWithout(st.groups, k);
      WithoutInv(st, k);
    }
  }

  lemma ReceiveInv(s: Settings, st: State, k: nat, index: nat, payload: seq<byte>)
    requires Inv(st) && k < |st.groups|
    requires index < st.groups[k].count
    requires |payload| == ChunkEnd(st.groups[k].size, st.groups[k].capacity, index)
                        - ChunkStart(st.groups[k].capacity, index)
    ensures Inv(Receive(st, k, index, payload).0)
    ensures WithinBudget(s, st) ==> WithinBudget(s, Receive(st, k, index, payload).0)
  {
    var g := st.groups[k];
    if index in g.chunks {
      RejectInv(s, st, g.id, DuplicatePayloadConflict);
    } else {
      var filled := g.(chunks := g.chunks[index := payload]);
      assert |filled.chunks| == |g.chunks| + 1;
      assert Without(st.groups[k := filled], k) == Without(st.groups, k);
      if |filled.chunks| != g.count {
        assert WellFormed(filled);
        TotalUpdate(st.groups, k, filled);
      } else {
        TotalWithout(st.groups, k);
        WithoutInv(st, k);
      }
    }
  }

  lemma WithoutInv(st: State, k: nat)
    requires Inv(st) && k < |st.groups|
    ensures Inv(Refresh(st.(groups := Without(st.groups, k))))
  {
    hide WellFormed, TotalBytes;
    TotalWithout(st.groups, k);
  }

  lemma AdmitInv(s: Settings, st: State, h: PacketHeader, capacity: nat, now: int)
    requires ValidSettings(s) && Inv(st) && WithinLimits(s, st, h.groupBytes)
    requires h.groupId > 0 && h.groupBytes > 0 && capacity > 0 && ChunkGeometryIsConsistent(h, capacity)
    requires h.groupId >= st.committed && Find(st.groups, h.groupId) == |st.groups|
    ensures Inv(Admit(st, h, capacity, now))
    ensures WithinBudget(s, Admit(st, h, capacity, now))
  {
    var g := Group(h.groupId, h.groupBytes, capacity, h.chunkCount, now, map[]);
    FindIsFirst(st.groups, h.groupId);
    CeilingDivideBounds(h.groupBytes, capacity);
    TotalSplit(st.groups, [g]);
    TotalOfOne(g);
  }

  lemma ChunkLength(h: PacketHeader, capacity: nat)
    requires capacity > 0 && ChunkGeometryIsConsistent(h, capacity) && ChunkSizeIsConsistent(h, capacity)
    ensures h.chunkBytes == ChunkEnd(h.groupBytes, capacity, h.chunkIndex) - ChunkStart(capacity, h.chunkIndex)
  {
  }

  lemma AcceptChunkInv(s: Settings, st: State, h: PacketHeader, payload: seq<byte>, now: int)
    requires ValidSettings(s) && s.enabled && Inv(st)
    requires h.groupId > st.committed && h.groupBytes > 0 && h.chunkIndex < h.chunkCount
    requires ChunkGeometryIsConsistent(h, ChunkCapacity(s)) && ChunkSizeIsConsistent(h, ChunkCapacity(s))
    requires |payload| == h.chunkBytes
    ensures var next := AcceptChunk(s, st, h, ChunkCapacity(s), payload, now).0;
      Inv(next) && (WithinBudget(s, st) ==> WithinBudget(s, next))
  {
    var capacity := ChunkCapacity(s);
    ChunkLength(h, capacity);
    var k := Find(st.groups, h.groupId);
    if k < |st.groups| {
      var g := st.groups[k];
      if g.size == h.groupBytes && g.count == h.chunkCount && g.capacity == capacity {
        ReceiveInv(s, st, k, h.chunkIndex, payload);
      } else {
        RejectInv(s, st, h.groupId, MetadataConflict);
      }
    } else if WithinLimits(s, st, h.groupBytes) {
      AdmitInv(s, st, h, capacity, now);
      ReceiveInv(s, Admit(st, h, capacity, now), k, h.chunkIndex, payload);
    }
  }

  lemma DispatchReadInv(s: Settings, st: State, read: Option<PacketHeader>, packet: seq<byte>, now: int)
    requires ValidSettings(s) && s.enabled && Inv(st) && (read.Some? ==> |packet| >= PACKET_HEADER_BYTES)
    ensures var next := DispatchRead(s, st, read, packet, now).0;
      Inv(next) && (WithinBudget(s, st) ==> WithinBudget(s, next))
  {
    if read.Some? && HeaderIdentityIsValid(read.value) {
      var h := read.value;
      var capacity := ChunkCapacity(s);
      if !HeaderFieldsAreWithinBounds(s, h, |packet|) {
        RejectInv(s, st, h.groupId, FieldsOutsideBounds);
      } else if h.groupId > st.committed {
        if !ChunkGeometryIsConsistent(h, capacity) {
          RejectInv(s, st, h.groupId, CountOrOffsetInconsistent);
        } else if !ChunkSizeIsConsistent(h, capacity) {
          RejectInv(s, st, h.groupId, PayloadSizeInconsistent);
        } else {
          AcceptChunkInv(s, st, h, packet[PACKET_HEADER_BYTES..], now);
        }
      }
    }
  }

  lemma DispatchInv(s: Settings, st: State, packet: seq<byte>, now: int)
    requires ValidSettings(s) && Inv(st)
    ensures Inv(Dispatch(s, st, packet, now).0)
    ensures WithinBudget(s, st) ==> WithinBudget(s, Dispatch(s, st, packet, now).0)
  {
    if s.enabled {
      DispatchReadInv(s, st, ReadHeader(packet), packet, now);
    }
  }

  lemma StepInv(s: Settings, st: State, e: Event)
    requires ValidSettings(s) && Inv(st)
    ensures Inv(Step(s, st, e).0)
    ensures WithinBudget(s, st) ==> WithinBudget(s, Step(s, st, e).0)
  {
    match e
    case Packet(bytes, now) =>
      ExpireInv(s, CountReceived(st), now);
      DispatchInv(s, Expire(s, CountReceived(st), now), bytes, now);
    case Expiry(now) => ExpireInv(s, st, now);
    case Committed(id) => CommitInv(s, st, id);
  }

  /** Safety over every run, including every malformed or hostile packet. */
  lemma {:induction false} RunInv(s: Settings, st: State, events: seq<Event>)
    requires ValidSettings(s) && Inv(st)
    ensures Inv(Run(s, st, events))
    ensures WithinBudget(s, st) ==> WithinBudget(s, Run(s, st, events))
    decreases events
  {
    if events != [] {
      StepInv(s, st, events[0]);
      RunInv(s, Step(s, st, events[0]).0, events[1..]);
    }
  }
}
