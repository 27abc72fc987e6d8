/** What the packet channel delivers over whole runs: exact bytes, completion on the last missing
    chunk, and the committed watermark.

    Models the promises of src/packetization/README.md over src/packetization/src/packetization.cpp. */
module ReassemblyRuns {
  import opened Bytes
  import opened PacketFormat
  import opened Reassembly

  // ---------------------------------------------------------------- reachable states

  lemma EmptyInv()
    ensures Inv(EMPTY)
    ensures forall s: Settings :: WithinBudget(s, EMPTY)
  {
  }

  /** Any packets, any clock readings, any commits: the state stays well formed, ids stay distinct
      and at or above the watermark, totals stay exact and both resource limits hold. */
  lemma ReachableStates(s: Settings, events: seq<Event>)
    requires ValidSettings(s)
    ensures Inv(Run(s, EMPTY, events)) && WithinBudget(s, Run(s, EMPTY, events))
  {
    EmptyInv();
    RunInv(s, EMPTY, events);
  }

  // ---------------------------------------------------------------- the watermark

  ghost predicate StrictlyAboveWatermark(st: State) {
    forall i :: 0 <= i < |st.groups| ==> st.groups[i].id > st.committed
  }

  /** A commit leaves a group at the watermark itself exactly when it names a group that is still
      incomplete; that group then only sees stale packets until it expires. */
  lemma CommitKeepsStrictness(st: State, id: nat)
    requires Inv(st) && StrictlyAboveWatermark(st)
    ensures StrictlyAboveWatermark(Commit(st, id)) <==> (id <= st.committed || !Retained(st, id))
  {
    if id > st.committed {
      if Retained(st, id) {
        CommitOfRetained(st, id);
      } else {
        CommitOfAbsent(st, id);
      }
    }
  }

  lemma CommitOfRetained(st: State, id: nat)
    requires Inv(st) && id > st.committed && Retained(st, id)
    ensures !StrictlyAboveWatermark(Commit(st, id)) && Retained(Commit(st, id), id)
  {
    var kept := Retain(st.groups, AtLeast(id));
    RetainKeeps(st.groups, AtLeast(id));
    var g := st.groups[Find(st.groups, id)];
    assert g in kept;
    var i :| 0 <= i < |kept| && kept[i] == g;
    assert Commit(st, id).groups[i].id == id;
    FindComplete(kept, i);
  }

  lemma CommitOfAbsent(st: State, id: nat)
    requires Inv(st) && id > st.committed && !Retained(st, id)
    ensures StrictlyAboveWatermark(Commit(st, id))
  {
    var kept := Retain(st.groups, AtLeast(id));
    RetainKeeps(st.groups, AtLeast(id));
    forall i | 0 <= i < |kept|
      ensures kept[i].id > id
    {
      var j :| 0 <= j < |st.groups| && st.groups[j] == kept[i];
      FindComplete(st.groups, j);
    }
  }

  lemma ReceiveStrictness(st: State, k: nat, index: nat, payload: seq<byte>)
    requires StrictlyAboveWatermark(st) && k < |st.groups| && DistinctIds(st.groups)
    ensures var (next, result) := Receive(st, k, index, payload);
      && StrictlyAboveWatermark(next)
      && (result.Complete? ==> result.groupId == st.groups[k].id && !Retained(next, result.groupId))
  {
    hide TotalBytes, Narrow, Assemble;
  }

  lemma AcceptChunkStrictness(s: Settings, st: State, h: PacketHeader, capacity: nat, payload: seq<byte>, now: int)
    requires StrictlyAboveWatermark(st) && DistinctIds(st.groups) && h.groupId > st.committed
    ensures var (next, result) := AcceptChunk(s, st, h, capacity, payload, now);
      StrictlyAboveWatermark(next) && (result.Complete? ==> !Retained(next, result.groupId))
  {
    var k := Find(st.groups, h.groupId);
    if k < |st.groups| {
      ReceiveStrictness(st, k, h.chunkIndex, payload);
    } else {
      FindIsFirst(st.groups, h.groupId);
      ReceiveStrictness(Admit(st, h, capacity, now), k, h.chunkIndex, payload);
    }
  }

  lemma DispatchReadStrictness(s: Settings, st: State, read: Option<PacketHeader>, packet: seq<byte>, now: int)
    requires ValidSettings(s) && s.enabled && (read.Some? ==> |packet| >= PACKET_HEADER_BYTES)
    requires DistinctIds(st.groups) && StrictlyAboveWatermark(st)
    ensures var (next, result) := DispatchRead(s, st, read, packet, now);
      StrictlyAboveWatermark(next) && (result.Complete? ==> !Retained(next, result.groupId))
  {
    if read.Some? && HeaderIdentityIsValid(read.value)
       && HeaderFieldsAreWithinBounds(s, read.value, |packet|) && read.value.groupId > st.committed {
      AcceptChunkStrictness(s, st, read.value, ChunkCapacity(s), packet[PACKET_HEADER_BYTES..], now);
    }
  }

  lemma DispatchStrictness(s: Settings, st: State, packet: seq<byte>, now: int)
    requires ValidSettings(s) && DistinctIds(st.groups) && StrictlyAboveWatermark(st)
    ensures var (next, result) := Dispatch(s, st, packet, now);
      StrictlyAboveWatermark(next) && (result.Complete? && s.enabled ==> !Retained(next, result.groupId))
  {
    if s.enabled {
      DispatchReadStrictness(s, st, ReadHeader(packet), packet, now);
    }
  }

  /** Packets and expiry keep every retained id strictly above the watermark, and a group that has
      just completed is no longer retained, so committing it keeps that too. */
  lemma AcceptKeepsStrictness(s: Settings, st: State, packet: seq<byte>, now: int)
    requires ValidSettings(s) && Inv(st) && StrictlyAboveWatermark(st)
    ensures var (next, result) := Accept(s, st, packet, now);
      && StrictlyAboveWatermark(next)
      && (result.Complete? && s.enabled ==>
          !Retained(next, result.groupId) && StrictlyAboveWatermark(Commit(next, result.groupId)))
  {
    var expired := Expire(s, CountReceived(st), now);
    RetainKeeps(st.groups, Unexpired(s.reassemblyTimeout, now));
    forall i | 0 <= i < |expired.groups|
      ensures expired.groups[i].id > expired.committed
    {
      assert expired.groups[i] in st.groups;
    }
    StepInv(s, st, Packet(packet, now));
    DispatchStrictness(s, expired, packet, now);
    var (next, result) := Accept(s, st, packet, now);
    if result.Complete? && s.enabled {
      CommitKeepsStrictness(next, result.groupId);
    }
  }

  // ---------------------------------------------------------------- genuine traffic

  /** The groups the sender prepared, by id. */
  type Sent = map<nat, seq<byte>>

  /** Exactly the groups that preparation accepts; without packetization they also fit one packet. */
  ghost predicate ValidSent(s: Settings, sent: Sent)
    requires ValidSettings(s)
  {
    forall id :: id in sent ==>
      && 0 < id <= U32_MAX && 0 < |sent[id]| <= s.maxGroupBytes
      && (s.enabled || |sent[id]| <= s.maxPayloadBytes)
  }

  /** What a lossy, duplicating, reordering channel can do with genuine chunks, together with the
      receiver's own expiry and commit calls. Loss is the absence of a delivery. */
  datatype Traffic = Chunk(id: nat, index: nat, now: int) | Timer(now: int) | Applied(id: nat)

  function ChunkCount(s: Settings, sent: Sent, id: nat): nat
    requires ValidSettings(s) && id in sent
  {
    if s.enabled then CeilingDivide(|sent[id]|, ChunkCapacity(s)) else 1
  }

  ghost predicate Genuine(s: Settings, sent: Sent, t: Traffic)
    requires ValidSettings(s)
  {
    t.Chunk? ==> t.id in sent && t.index < ChunkCount(s, sent, t.id)
  }

  ghost predicate AllGenuine(s: Settings, sent: Sent, run: seq<Traffic>)
    requires ValidSettings(s)
  {
    forall i :: 0 <= i < |run| ==> Genuine(s, sent, run[i])
  }

  function ToEvent(s: Settings, sent: Sent, t: Traffic): Event
    requires ValidSettings(s) && ValidSent(s, sent) && Genuine(s, sent, t)
  {
    match t
    case Chunk(id, index, now) => Packet(PacketFormat.Packet(s, id, sent[id], index), now)
    case Timer(now) => Expiry(now)
    case Applied(id) => Committed(id)
  }

  function ToEvents(s: Settings, sent: Sent, run: seq<Traffic>): (events: seq<Event>)
    requires ValidSettings(s) && ValidSent(s, sent) && AllGenuine(s, sent, run)
    ensures |events| == |run|
    decreases run
  {
    if run == [] then [] else
      assert Genuine(s, sent, run[0]);
      assert AllGenuine(s, sent, run[1..]);
      [ToEvent(s, sent, run[0])] + ToEvents(s, sent, run[1..])
  }

  /** A retained group holds nothing but pieces of what was sent under its id; without packetization
      nothing is ever retained. */
  ghost predicate Matches(s: Settings, sent: Sent, g: Group)
    requires ValidSettings(s) && ValidSent(s, sent)
  {
    && s.enabled
    && g.id in sent
    && g.size == |sent[g.id]|
    && g.capacity == ChunkCapacity(s)
    && g.count == ChunkCount(s, sent, g.id)
    && forall i :: i in g.chunks ==> i < g.count && g.chunks[i] == ChunkOf(sent[g.id], g.capacity, i)
  }

  ghost predicate AllMatch(s: Settings, sent: Sent, st: State)
    requires ValidSettings(s) && ValidSent(s, sent)
  {
    forall i :: 0 <= i < |st.groups| ==> Matches(s, sent, st.groups[i])
  }

  /** Each chunk starts where the one before ends, the first at the start. */
  lemma ChunkFollows(size: nat, capacity: nat, index: nat)
    requires capacity > 0 && size > 0 && index < CeilingDivide(size, capacity)
    ensures ChunkStart(capacity, index) == if index == 0 then 0 else ChunkEnd(size, capacity, index - 1)
    ensures ChunkStart(capacity, index) < ChunkEnd(size, capacity, index) <= size
  {
    ChunkRange(size, capacity, index);
    if index > 0 {
      ChunkRanges(size, capacity, index - 1, index);
    }
  }

  /** Chunks 0..n-1 of a byte string, put side by side, are its prefix. */
  lemma {:induction false} AssemblePrefix(bytes: seq<byte>, capacity: nat, chunks: map<nat, seq<byte>>, n: nat)
    requires capacity > 0 && |bytes| > 0 && n <= CeilingDivide(|bytes|, capacity)
    requires forall i :: 0 <= i < n ==> i in chunks && chunks[i] == ChunkOf(bytes, capacity, i)
    ensures n > 0 ==> Assemble(chunks, n) == bytes[..ChunkEnd(|bytes|, capacity, n - 1)]
    ensures n == 0 ==> Assemble(chunks, n) == []
  {
    hide ChunkStart, ChunkEnd, CeilingDivide;
    if n > 0 {
      AssemblePrefix(bytes, capacity, chunks, n - 1);
      ChunkFollows(|bytes|, capacity, n - 1);
    }
  }

  lemma AssembleAll(bytes: seq<byte>, capacity: nat, chunks: map<nat, seq<byte>>)
    requires capacity > 0 && |bytes| > 0
    requires forall i :: 0 <= i < CeilingDivide(|bytes|, capacity) ==>
               i in chunks && chunks[i] == ChunkOf(bytes, capacity, i)
    ensures Assemble(chunks, CeilingDivide(|bytes|, capacity)) == bytes
  {
    var n := CeilingDivide(|bytes|, capacity);
    CeilingDivideBounds(|bytes|, capacity);
    AssemblePrefix(bytes, capacity, chunks, n);
    assert (n - 1) * capacity + capacity == n * capacity;
    assert ChunkEnd(|bytes|, capacity, n - 1) == |bytes|;
    assert bytes[..|bytes|] == bytes;
  }

  function Upto(n: nat): (indices: set<nat>)
    ensures forall i: nat :: i in indices <==> i < n
  {
    if n == 0 then {} else Upto(n - 1) + {n - 1}
  }

  lemma {:induction false} UptoSize(n: nat)
    ensures |Upto(n)| == n
  {
    if n > 0 {
      UptoSize(n - 1);
    }
  }

  /** A set of indices below `n` is all of them exactly when it has `n` elements. */
  lemma FullExactly(indices: set<nat>, n: nat)
    requires forall i :: i in indices ==> i < n
    ensures |indices| <= n
    ensures |indices| == n <==> indices == Upto(n)
  {
    UptoSize(n);
    assert indices <= Upto(n);
    SubsetSize(indices, Upto(n));
  }

  lemma {:induction false} SubsetSize(a: set<nat>, b: set<nat>)
    requires a <= b
    ensures |a| <= |b|
    ensures |a| == |b| ==> a == b
  {
    if a != {} {
      var x :| x in a;
      SubsetSize(a - {x}, b - {x});
    }
  }

  /** A completion for a packet of group `id` carries what was prepared for that group, under its id if
      the packet had a header to say so. */
  ghost predicate CompletesCorrectly(s: Settings, sent: Sent, id: nat, result: Result)
    requires ValidSettings(s) && ValidSent(s, sent) && id in sent
  {
    result.Complete? ==>
      && result.groupId == (if s.enabled then id else 0)
      && var preparation := PrepareByteGroup(s, id, sent[id]).value;
      && preparation.Prepared?
      && result.bytes == preparation.group.bytes == sent[id]
      && result.chunkCount == preparation.group.chunkCount
      && result.totalPacketBytes == preparation.group.report.totalPacketBytes
  }

  /** The retained groups by id. */
  function ById(groups: seq<Group>): (table: map<nat, Group>) {
    if groups == [] then map[]
    else ById(groups[..|groups| - 1])[groups[|groups| - 1].id := groups[|groups| - 1]]
  }

  function Kept(table: map<nat, Group>, keep: Keep): map<nat, Group> {
    map id | id in table && Keeps(keep, id, table[id].first) :: table[id]
  }

  lemma {:induction false} ByIdAt(groups: seq<Group>, k: nat)
    requires DistinctIds(groups) && k < |groups|
    ensures groups[k].id in ById(groups) && ById(groups)[groups[k].id] == groups[k]
  {
    if k < |groups| - 1 {
      ByIdAt(groups[..|groups| - 1], k);
    }
  }

  lemma {:induction false} ByIdSound(groups: seq<Group>, id: nat) returns (k: nat)
    requires id in ById(groups)
    ensures k < |groups| && groups[k] == ById(groups)[id] && groups[k].id == id
  {
    k := |groups| - 1;
    if groups[k].id != id {
      k := ByIdSound(groups[..|groups| - 1], id);
    }
  }

  lemma FindById(groups: seq<Group>, id: nat)
    requires DistinctIds(groups)
    ensures Find(groups, id) < |groups| <==> id in ById(groups)
    ensures id in ById(groups) ==> groups[Find(groups, id)] == ById(groups)[id] && ById(groups)[id].id == id
  {
    var f := Find(groups, id);
    if f < |groups| {
      ByIdAt(groups, f);
    }
    if id in ById(groups) {
      var k := ByIdSound(groups, id);
      FindComplete(groups, k);
    }
  }

  lemma {:induction false} UpdateById(groups: seq<Group>, k: nat, g: Group)
    requires DistinctIds(groups) && k < |groups| && groups[k].id == g.id
    ensures ById(groups[k := g]) == ById(groups)[g.id := g]
  {
    var init, last := groups[..|groups| - 1], groups[|groups| - 1];
    var updated := groups[k := g];
    if k == |groups| - 1 {
      assert updated[..k] == init;
    } else {
      assert last.id != g.id;
      UpdateById(init, k, g);
      assert updated[..|groups| - 1] == init[k := g];
    }
  }

  lemma {:induction false} WithoutById(groups: seq<Group>, k: nat)
    requires DistinctIds(groups) && k < |groups|
    ensures ById(Without(groups, k)) == ById(groups) - {groups[k].id}
  {
    var init, last := groups[..|groups| - 1], groups[|groups| - 1];
    var rest := Without(groups, k);
    if k == |groups| - 1 {
      assert rest == init;
      if last.id in ById(init) {
        var j := ByIdSound(init, last.id);
        assert false;
      }
    } else {
      assert last.id != groups[k].id;
      WithoutById(init, k);
      assert rest[..|rest| - 1] == Without(init, k);
    }
  }

  lemma {:induction false} RetainEntry(groups: seq<Group>, keep: Keep, id: nat)
    requires DistinctIds(groups)
    ensures var table, kept := ById(groups), ById(Retain(groups, keep));
      && (id in kept <==> id in table && Keeps(keep, id, table[id].first))
      && (id in kept ==> kept[id] == table[id])
  {
    if groups != [] {
      var init, last := groups[..|groups| - 1], groups[|groups| - 1];
      RetainEntry(init, keep, id);
      var kept := Retain(groups, keep);
      if Keeps(keep, last.id, last.first) {
        assert kept[..|kept| - 1] == Retain(init, keep);
      } else if id == last.id && id in ById(init) {
        var k := ByIdSound(init, id);
        assert false;
      }
    }
  }

  lemma RetainById(groups: seq<Group>, keep: Keep)
    requires DistinctIds(groups)
    ensures ById(Retain(groups, keep)) == Kept(ById(groups), keep)
  {
    forall id {
      RetainEntry(groups, keep, id);
    }
  }

  lemma AppendById(groups: seq<Group>, g: Group)
    requires DistinctIds(groups) && g.id !in ById(groups)
    ensures DistinctIds(groups + [g])
    ensures ById(groups + [g]) == ById(groups)[g.id := g]
  {
    assert (groups + [g])[..|groups|] == groups;
    forall i | 0 <= i < |groups|
      ensures groups[i].id != g.id
    {
      ByIdAt(groups, i);
    }
  }

  function WithChunk(g: Group, index: nat, payload: seq<byte>): Group {
    g.(chunks := g.chunks[index := payload])
  }

  /** One genuine chunk filed under its matching group. */
  lemma ReceiveGenuine(s: Settings, sent: Sent, st: State, k: nat, index: nat)
    requires ValidSettings(s) && ValidSent(s, sent) && Inv(st) && AllMatch(s, sent, st)
    requires k < |st.groups| && index < st.groups[k].count
    ensures var g := st.groups[k];
      var payload := ChunkOf(sent[g.id], g.capacity, index);
      var (next, result) := Receive(st, k, index, payload);
      var covered := g.chunks.Keys + {index} == Upto(g.count);
      && CompletesCorrectly(s, sent, g.id, result)
      && result.groupId == g.id
      && (result.Duplicate? <==> index in g.chunks)
      && (result.Complete? <==> covered)
      && (result.Incomplete? <==> index !in g.chunks && !covered)
      && next.committed == st.committed
      && next.groups == if covered then Without(st.groups, k) else st.groups[k := WithChunk(g, index, payload)]
  {
    var g := st.groups[k];
    assert Matches(s, sent, g) && WellFormed(g);
    var payload := ChunkOf(sent[g.id], g.capacity, index);
    FullExactly(g.chunks.Keys, g.count);
    if index in g.chunks {
      assert g.chunks.Keys + {index} == g.chunks.Keys;
      assert WithChunk(g, index, payload) == g;
      assert st.groups[k := g] == st.groups;
    } else {
      var filled := WithChunk(g, index, payload);
      assert filled.chunks.Keys == g.chunks.Keys + {index};
      FullExactly(filled.chunks.Keys, g.count);
      if |filled.chunks| == g.count {
        CompletionCorrect(s, sent, filled);
        assert Without(st.groups[k := filled], k) == Without(st.groups, k);
      }
    }
  }

  lemma CompletionCorrect(s: Settings, sent: Sent, g: Group)
    requires ValidSettings(s) && ValidSent(s, sent) && Matches(s, sent, g) && g.chunks.Keys == Upto(g.count)
    ensures CompletesCorrectly(s, sent, g.id,
              Complete(g.id, g.count, g.size + g.count * PACKET_HEADER_BYTES, Assemble(g.chunks, g.count)))
  {
    AssembleAll(sent[g.id], g.capacity, g.chunks);
    PreparedExactly(s, g.id, sent[g.id]);
  }

  /** The table after one genuine chunk: unchanged if it is stale or refused, without the group if it
      was the last missing chunk, and otherwise with exactly that chunk added. */
  function TableAfter(s: Settings, sent: Sent, committed: nat, table: map<nat, Group>, refused: bool,
                      id: nat, index: nat, now: int): map<nat, Group>
    requires ValidSettings(s) && s.enabled && ValidSent(s, sent) && id in sent && index < ChunkCount(s, sent, id)
  {
    if id <= committed || refused then table
    else
      var g := if id in table then table[id]
               else Group(id, |sent[id]|, ChunkCapacity(s), ChunkCount(s, sent, id), now, map[]);
      if g.chunks.Keys + {index} == Upto(ChunkCount(s, sent, id)) then table - {id}
      else table[id := WithChunk(g, index, ChunkOf(sent[id], ChunkCapacity(s), index))]
  }

  /** The chunks of `id` held by the receiver. */
  function Held(table: map<nat, Group>, id: nat): set<nat> {
    if id in table then table[id].chunks.Keys else {}
  }

  /** The receiver as a table of groups, with the order of the groups and the report forgotten. */
  datatype Table = Table(committed: nat, groups: map<nat, Group>)

  function TableOf(st: State): Table {
    Table(st.committed, ById(st.groups))
  }

  /** What one genuine chunk may do to the table of unexpired groups and what is reported for it. Without
      packetization every packet completes at once and the table stays as it is. */
  ghost predicate ChunkOutcome(s: Settings, sent: Sent, live: Table, refused: bool, id: nat, index: nat, now: int,
                               next: Table, result: Result)
    requires ValidSettings(s) && ValidSent(s, sent) && id in sent && index < ChunkCount(s, sent, id)
  {
    var held := Held(live.groups, id);
    CompletesCorrectly(s, sent, id, result) &&
    if !s.enabled then !refused && next == live && result.Complete?
    else
    && (refused ==> id !in live.groups)
    && next == Table(live.committed, TableAfter(s, sent, live.committed, live.groups, refused, id, index, now))
    && result.groupId == id
    && !result.Invalid?
    && (result.Stale? <==> id <= live.committed)
    && (result.LimitExceeded? <==> id > live.committed && refused)
    && (result.Duplicate? <==> id > live.committed && !refused && index in held)
    && (result.Complete? <==>
        id > live.committed && !refused && held + {index} == Upto(ChunkCount(s, sent, id)))
  }

  lemma ReceiveOutcome(s: Settings, sent: Sent, st: State, k: nat, index: nat, now: int)
    requires ValidSettings(s) && ValidSent(s, sent) && Inv(st) && AllMatch(s, sent, st)
    requires k < |st.groups| && index < st.groups[k].count && st.groups[k].id > st.committed
    ensures var g := st.groups[k];
      var (next, result) := Receive(st, k, index, ChunkOf(sent[g.id], g.capacity, index));
      ChunkOutcome(s, sent, TableOf(st), false, g.id, index, now, TableOf(next), result)
  {
    var g := st.groups[k];
    assert Matches(s, sent, g);
    var payload := ChunkOf(sent[g.id], g.capacity, index);
    ByIdAt(st.groups, k);
    ReceiveGenuine(s, sent, st, k, index);
    UpdateById(st.groups, k, WithChunk(g, index, payload));
    WithoutById(st.groups, k);
  }

  lemma AcceptChunkGenuine(s: Settings, sent: Sent, st: State, id: nat, index: nat, now: int)
    requires ValidSettings(s) && s.enabled && ValidSent(s, sent) && Inv(st) && AllMatch(s, sent, st)
    requires id in sent && index < ChunkCount(s, sent, id) && id > st.committed
    ensures var capacity := ChunkCapacity(s);
      var (next, result) := AcceptChunk(s, st, ChunkHeader(id, |sent[id]|, capacity, index), capacity,
                                        ChunkOf(sent[id], capacity, index), now);
      var refused := id !in ById(st.groups) && !WithinLimits(s, st, |sent[id]|);
      ChunkOutcome(s, sent, TableOf(st), refused, id, index, now, TableOf(next), result)
  {
    var capacity := ChunkCapacity(s);
    var h := ChunkHeader(id, |sent[id]|, capacity, index);
    var k := Find(st.groups, id);
    FindById(st.groups, id);
    if k < |st.groups| {
      assert Matches(s, sent, st.groups[k]);
      ReceiveOutcome(s, sent, st, k, index, now);
    } else if WithinLimits(s, st, |sent[id]|) {
      AdmittedOutcome(s, sent, st, id, index, now);
    }
  }

  /** A new group, before its first chunk is filed. */
  lemma AdmitGenuine(s: Settings, sent: Sent, st: State, id: nat, index: nat, now: int)
    requires ValidSettings(s) && s.enabled && ValidSent(s, sent) && Inv(st) && AllMatch(s, sent, st)
    requires id in sent && index < ChunkCount(s, sent, id) && id > st.committed
    requires Find(st.groups, id) == |st.groups| && WithinLimits(s, st, |sent[id]|)
    ensures var capacity := ChunkCapacity(s);
      var g := Group(id, |sent[id]|, capacity, ChunkCount(s, sent, id), now, map[]);
      var admitted := Admit(st, ChunkHeader(id, |sent[id]|, capacity, index), capacity, now);
      && Inv(admitted) && AllMatch(s, sent, admitted)
      && admitted.groups == st.groups + [g] && admitted.committed == st.committed
      && id !in ById(st.groups)
      && ById(admitted.groups) == ById(st.groups)[id := g]
  {
    var capacity := ChunkCapacity(s);
    var h := ChunkHeader(id, |sent[id]|, capacity, index);
    GenuinePacketParses(s, id, sent[id], index);
    AdmitInv(s, st, h, capacity, now);
    FindById(st.groups, id);
    AppendById(st.groups, Group(id, |sent[id]|, capacity, ChunkCount(s, sent, id), now, map[]));
  }

  /** A new group takes its first chunk. */
  lemma AdmittedOutcome(s: Settings, sent: Sent, st: State, id: nat, index: nat, now: int)
    requires ValidSettings(s) && s.enabled && ValidSent(s, sent) && Inv(st) && AllMatch(s, sent, st)
    requires id in sent && index < ChunkCount(s, sent, id) && id > st.committed
    requires Find(st.groups, id) == |st.groups| && WithinLimits(s, st, |sent[id]|)
    ensures var capacity := ChunkCapacity(s);
      var admitted := Admit(st, ChunkHeader(id, |sent[id]|, capacity, index), capacity, now);
      var (next, result) := Receive(admitted, |st.groups|, index, ChunkOf(sent[id], capacity, index));
      ChunkOutcome(s, sent, TableOf(st), false, id, index, now, TableOf(next), result)
  {
    var capacity := ChunkCapacity(s);
    var admitted := Admit(st, ChunkHeader(id, |sent[id]|, capacity, index), capacity, now);
    AdmitGenuine(s, sent, st, id, index, now);
    ReceiveOutcome(s, sent, admitted, |st.groups|, index, now);
    TableAfterAdmission(s, sent, st.committed, ById(st.groups), id, index, now);
  }

  lemma TableAfterAdmission(s: Settings, sent: Sent, committed: nat, table: map<nat, Group>, id: nat, index: nat,
                            now: int)
    requires ValidSettings(s) && s.enabled && ValidSent(s, sent)
    requires id in sent && index < ChunkCount(s, sent, id) && id !in table
    ensures var g := Group(id, |sent[id]|, ChunkCapacity(s), ChunkCount(s, sent, id), now, map[]);
      && (id > committed ==>
            TableAfter(s, sent, committed, table[id := g], false, id, index, now)
              == TableAfter(s, sent, committed, table, false, id, index, now))
      && Held(table[id := g], id) == Held(table, id)
  {
    var g := Group(id, |sent[id]|, ChunkCapacity(s), ChunkCount(s, sent, id), now, map[]);
    var widened: map<nat, Group> := table[id := g];
    assert widened - {id} == table - {id};
    var filled := WithChunk(g, index, ChunkOf(sent[id], ChunkCapacity(s), index));
    assert widened[id := filled] == table[id := filled];
  }

  /** Everything one genuine packet with a header can cause, once old groups have expired. */
  lemma DispatchChunk(s: Settings, sent: Sent, st: State, id: nat, index: nat, now: int)
    requires ValidSettings(s) && s.enabled && ValidSent(s, sent) && Inv(st) && AllMatch(s, sent, st)
    requires id in sent && index < ChunkCount(s, sent, id)
    ensures var (next, result) := Dispatch(s, st, PacketFormat.Packet(s, id, sent[id], index), now);
      var refused := id !in ById(st.groups) && !WithinLimits(s, st, |sent[id]|);
      ChunkOutcome(s, sent, TableOf(st), refused, id, index, now, TableOf(next), result)
  {
    hide AcceptChunk, WithinLimits, Inv, AllMatch, ChunkOutcome, ById, ChunkOf, ReadHeader;
    hide HeaderIdentityIsValid, HeaderFieldsAreWithinBounds, ChunkGeometryIsConsistent, ChunkSizeIsConsistent;
    GenuinePacketParses(s, id, sent[id], index);
    if id > st.committed {
      AcceptChunkGenuine(s, sent, st, id, index, now);
    } else {
      StaleOutcome(s, sent, st, id, index, now);
    }
  }

  /** A chunk that is not above the watermark changes no group; nor is a retained group ever refused. */
  lemma StaleOutcome(s: Settings, sent: Sent, st: State, id: nat, index: nat, now: int)
    requires ValidSettings(s) && s.enabled && ValidSent(s, sent)
    requires id in sent && index < ChunkCount(s, sent, id) && id <= st.committed
    ensures var refused := id !in ById(st.groups) && !WithinLimits(s, st, |sent[id]|);
      ChunkOutcome(s, sent, TableOf(st), refused, id, index, now, TableOf(st), Stale(id))
  {
  }

  /** And one without. */
  lemma DispatchRaw(s: Settings, sent: Sent, st: State, id: nat, now: int)
    requires ValidSettings(s) && !s.enabled && ValidSent(s, sent) && id in sent
    ensures var (next, result) := Dispatch(s, st, PacketFormat.Packet(s, id, sent[id], 0), now);
      ChunkOutcome(s, sent, TableOf(st), false, id, 0, now, TableOf(next), result)
  {
    PreparedExactly(s, id, sent[id]);
  }

  lemma DispatchGenuine(s: Settings, sent: Sent, st: State, id: nat, index: nat, now: int)
    requires ValidSettings(s) && ValidSent(s, sent) && Inv(st) && AllMatch(s, sent, st)
    requires id in sent && index < ChunkCount(s, sent, id)
    ensures var (next, result) := Dispatch(s, st, PacketFormat.Packet(s, id, sent[id], index), now);
      var refused := s.enabled && id !in ById(st.groups) && !WithinLimits(s, st, |sent[id]|);
      ChunkOutcome(s, sent, TableOf(st), refused, id, index, now, TableOf(next), result)
  {
    hide Dispatch, WithinLimits, ChunkOutcome, Inv, AllMatch;
    if s.enabled {
      DispatchChunk(s, sent, st, id, index, now);
    } else {
      DispatchRaw(s, sent, st, id, now);
    }
  }

  // ---------------------------------------------------------------- whole runs of genuine traffic

  lemma MatchAfterChunk(s: Settings, sent: Sent, st: State, refused: bool, id: nat, index: nat, now: int, next: State)
    requires ValidSettings(s) && s.enabled && ValidSent(s, sent) && AllMatch(s, sent, st)
    requires id in sent && index < ChunkCount(s, sent, id) && DistinctIds(next.groups)
    requires ById(next.groups) == TableAfter(s, sent, st.committed, ById(st.groups), refused, id, index, now)
    ensures AllMatch(s, sent, next)
  {
    forall i | 0 <= i < |next.groups|
      ensures Matches(s, sent, next.groups[i])
    {
      var g := next.groups[i];
      ByIdAt(next.groups, i);
      if id in ById(st.groups) {
        var k := ByIdSound(st.groups, id);
        assert Matches(s, sent, st.groups[k]);
      }
      if g.id in ById(st.groups) {
        var k := ByIdSound(st.groups, g.id);
        assert Matches(s, sent, st.groups[k]);
      }
    }
  }

  lemma MatchAfterRetain(s: Settings, sent: Sent, st: State, keep: Keep, next: State)
    requires ValidSettings(s) && ValidSent(s, sent) && AllMatch(s, sent, st)
    requires next.groups == Retain(st.groups, keep)
    ensures AllMatch(s, sent, next)
  {
    RetainKeeps(st.groups, keep);
    forall i | 0 <= i < |next.groups|
      ensures Matches(s, sent, next.groups[i])
    {
      assert next.groups[i] in st.groups;
    }
  }

  /** One step of the table: the only thing it leaves open is whether a new group is refused. */
  ghost predicate TableStep(s: Settings, sent: Sent, table: Table, t: Traffic, next: Table, result: Option<Result>)
    requires ValidSettings(s) && ValidSent(s, sent) && Genuine(s, sent, t)
  {
    match t
    case Chunk(id, index, now) =>
      var live := table.(groups := Kept(table.groups, Unexpired(s.reassemblyTimeout, now)));
      result.Some? && exists refused ::
        ChunkOutcome(s, sent, live, refused, id, index, now, next, result.value)
    case Timer(now) =>
      result.None? && next == table.(groups := Kept(table.groups, Unexpired(s.reassemblyTimeout, now)))
    case Applied(id) =>
      result.None? && next == if id <= table.committed then table else Table(id, Kept(table.groups, AtLeast(id)))
  }

  lemma ChunkStep(s: Settings, sent: Sent, st: State, id: nat, index: nat, now: int)
    requires ValidSettings(s) && ValidSent(s, sent) && Inv(st) && AllMatch(s, sent, st)
    requires id in sent && index < ChunkCount(s, sent, id)
    ensures var (next, result) := Accept(s, st, PacketFormat.Packet(s, id, sent[id], index), now);
      && AllMatch(s, sent, next)
      && TableStep(s, sent, TableOf(st), Chunk(id, index, now), TableOf(next), Some(result))
  {
    var counted := CountReceived(st);
    var live := Expire(s, counted, now);
    var packet := PacketFormat.Packet(s, id, sent[id], index);
    ExpireInv(s, counted, now);
    RetainById(st.groups, Unexpired(s.reassemblyTimeout, now));
    MatchAfterRetain(s, sent, st, Unexpired(s.reassemblyTimeout, now), live);
    DispatchGenuine(s, sent, live, id, index, now);
    DispatchInv(s, live, packet, now);
    var next := Dispatch(s, live, packet, now).0;
    var refused := s.enabled && id !in ById(live.groups) && !WithinLimits(s, live, |sent[id]|);
    if s.enabled {
      MatchAfterChunk(s, sent, live, refused, id, index, now, next);
    }
  }

  /** The state machine refines the table machine on genuine traffic. */
  lemma GenuineStep(s: Settings, sent: Sent, st: State, t: Traffic)
    requires ValidSettings(s) && ValidSent(s, sent) && Inv(st) && AllMatch(s, sent, st) && Genuine(s, sent, t)
    ensures var (next, result) := Step(s, st, ToEvent(s, sent, t));
      && Inv(next) && AllMatch(s, sent, next)
      && TableStep(s, sent, TableOf(st), t, TableOf(next), result)
  {
    StepInv(s, st, ToEvent(s, sent, t));
    match t
    case Chunk(id, index, now) =>
      ChunkStep(s, sent, st, id, index, now);
    case Timer(now) =>
      RetainById(st.groups, Unexpired(s.reassemblyTimeout, now));
      MatchAfterRetain(s, sent, st, Unexpired(s.reassemblyTimeout, now), Expire(s, st, now));
    case Applied(id) =>
      if id > st.committed {
        RetainById(st.groups, AtLeast(id));
        MatchAfterRetain(s, sent, st, AtLeast(id), Commit(st, id));
      }
  }

  ghost predicate TableRun(s: Settings, sent: Sent, table: Table, run: seq<Traffic>, results: seq<Option<Result>>)
    requires ValidSettings(s) && ValidSent(s, sent) && AllGenuine(s, sent, run)
    decreases run
  {
    && |results| == |run|
    && (run == [] ||
        (assert Genuine(s, sent, run[0]);
         assert AllGenuine(s, sent, run[1..]);
         exists next :: TableStep(s, sent, table, run[0], next, results[0])
                        && TableRun(s, sent, next, run[1..], results[1..])))
  }

  lemma {:induction false} RunRefinesTable(s: Settings, sent: Sent, st: State, run: seq<Traffic>)
    requires ValidSettings(s) && ValidSent(s, sent) && Inv(st) && AllMatch(s, sent, st) && AllGenuine(s, sent, run)
    ensures TableRun(s, sent, TableOf(st), run, Results(s, st, ToEvents(s, sent, run)))
    decreases run
  {
    if run != [] {
      var t, rest := run[0], run[1..];
      assert Genuine(s, sent, t);
      assert AllGenuine(s, sent, rest);
      GenuineStep(s, sent, st, t);
      var events := ToEvents(s, sent, run);
      assert events[0] == ToEvent(s, sent, t) && events[1..] == ToEvents(s, sent, rest);
      var (next, result) := Step(s, st, events[0]);
      RunRefinesTable(s, sent, next, rest);
      var results := Results(s, st, events);
      assert results[0] == result && results[1..] == Results(s, next, events[1..]);
    }
  }

  ghost predicate Faithful(s: Settings, sent: Sent, t: Traffic, result: Option<Result>)
    requires ValidSettings(s) && ValidSent(s, sent)
  {
    && (result.Some? <==> t.Chunk?)
    && (t.Chunk? ==>
          && t.id in sent
          && !result.value.Invalid? && CompletesCorrectly(s, sent, t.id, result.value)
          && (!s.enabled ==> result.value.Complete?))
  }

  lemma {:induction false} TableRunFaithful(s: Settings, sent: Sent, table: Table, run: seq<Traffic>,
                                            results: seq<Option<Result>>)
    requires ValidSettings(s) && ValidSent(s, sent) && AllGenuine(s, sent, run)
    requires TableRun(s, sent, table, run, results)
    ensures forall i :: 0 <= i < |results| ==> Faithful(s, sent, run[i], results[i])
    decreases run
  {
    if run != [] {
      assert Genuine(s, sent, run[0]) && AllGenuine(s, sent, run[1..]);
      var next :| TableStep(s, sent, table, run[0], next, results[0])
                  && TableRun(s, sent, next, run[1..], results[1..]);
      TableRunFaithful(s, sent, next, run[1..], results[1..]);
      forall i | 0 <= i < |results|
        ensures Faithful(s, sent, run[i], results[i])
      {
        if i > 0 {
          assert results[i] == results[1..][i - 1] && run[i] == run[1..][i - 1];
        }
      }
    }
  }

  /** Under all valid settings, over every interleaved, reordered, duplicated, lossy delivery of genuine
      chunks of any number of groups, with any expiry and commits: no packet is called invalid, and every
      completed group carries exactly the bytes, chunk count and packet-byte total prepared for the group
      whose packet completed it; without packetization every packet completes its group. */
  lemma GenuineRun(s: Settings, sent: Sent, run: seq<Traffic>)
    requires ValidSettings(s) && ValidSent(s, sent) && AllGenuine(s, sent, run)
    ensures var results := Results(s, EMPTY, ToEvents(s, sent, run));
      forall i :: 0 <= i < |results| ==> Faithful(s, sent, run[i], results[i])
  {
    EmptyInv();
    RunRefinesTable(s, sent, EMPTY, run);
    TableRunFaithful(s, sent, TableOf(EMPTY), run, Results(s, EMPTY, ToEvents(s, sent, run)));
  }

  // ---------------------------------------------------------------- a commit that comes too early

  /** The first of several chunks, from the empty state. */
  lemma OneChunkHeld(s: Settings, sent: Sent, id: nat, index: nat, now: int)
    requires ValidSettings(s) && s.enabled && ValidSent(s, sent)
    requires id in sent && index < ChunkCount(s, sent, id) && ChunkCount(s, sent, id) > 1
    ensures var next := Accept(s, EMPTY, PacketFormat.Packet(s, id, sent[id], index), now).0;
      Inv(next) && Retained(next, id) && next.committed == 0
  {
    hide Dispatch, Inv, AllMatch, ChunkOutcome, WithinLimits, ById;
    var live := Expire(s, CountReceived(EMPTY), now);
    var packet := PacketFormat.Packet(s, id, sent[id], index);
    NothingLive(s, sent, id, now);
    DispatchChunk(s, sent, live, id, index, now);
    DispatchInv(s, live, packet, now);
    var (next, result) := Dispatch(s, live, packet, now);
    HeldAfterOne(s, sent, id, index, now, TableOf(next), result);
    DistinctOf(next);
    FindById(next.groups, id);
  }

  /** The empty state, as the first packet finds it. */
  lemma NothingLive(s: Settings, sent: Sent, id: nat, now: int)
    requires ValidSettings(s) && s.enabled && ValidSent(s, sent) && id in sent
    ensures var live := Expire(s, CountReceived(EMPTY), now);
      Inv(live) && AllMatch(s, sent, live) && TableOf(live) == Table(0, map[]) && WithinLimits(s, live, |sent[id]|)
  {
    EmptyInv();
    ExpireInv(s, CountReceived(EMPTY), now);
  }

  lemma HeldAfterOne(s: Settings, sent: Sent, id: nat, index: nat, now: int, next: Table, result: Result)
    requires ValidSettings(s) && s.enabled && ValidSent(s, sent)
    requires id in sent && index < ChunkCount(s, sent, id) && ChunkCount(s, sent, id) > 1
    requires ChunkOutcome(s, sent, Table(0, map[]), false, id, index, now, next, result)
    ensures id in next.groups && next.committed == 0
  {
    hide CompletesCorrectly, Upto, ChunkOf;
    assert {} + {index} == {index};
    OneIsNotAll(index, ChunkCount(s, sent, id));
  }

  lemma OneIsNotAll(index: nat, n: nat)
    requires n > 1
    ensures {index} != Upto(n)
  {
    assert 0 in Upto(n) && 1 in Upto(n);
  }

  lemma DistinctOf(st: State)
    requires Inv(st)
    ensures DistinctIds(st.groups)
  {
  }

  /** Committing a group of which only one of several chunks has arrived leaves it retained at the
      watermark, and from then on its genuine chunks are stale: for every such group under all settings. */
  lemma CommitTooEarly(s: Settings, sent: Sent, id: nat, index: nat, other: nat, now: int, later: int)
    requires ValidSettings(s) && s.enabled && ValidSent(s, sent) && id in sent
    requires index < ChunkCount(s, sent, id) && other < ChunkCount(s, sent, id) && ChunkCount(s, sent, id) > 1
    ensures var chunk := Packet(PacketFormat.Packet(s, id, sent[id], index), now);
      var again := PacketFormat.Packet(s, id, sent[id], other);
      var early := Run(s, EMPTY, [chunk, Committed(id)]);
      && Retained(early, id) && !StrictlyAboveWatermark(early)
      && Accept(s, early, again, later).1 == Stale(id)
  {
    var packet := PacketFormat.Packet(s, id, sent[id], index);
    var events := [Packet(packet, now), Committed(id)];
    OneChunkHeld(s, sent, id, index, now);
    GenuinePacketParses(s, id, sent[id], other);
    var held := Accept(s, EMPTY, packet, now).0;
    assert Run(s, EMPTY, events) == Commit(held, id) by {
      assert events[1..] == [Committed(id)] && events[1..][1..] == [];
      assert Step(s, EMPTY, events[0]).0 == held;
      assert Run(s, EMPTY, events) == Run(s, held, events[1..]);
      assert Run(s, held, events[1..]) == Run(s, Commit(held, id), []);
    }
    CommitOfRetained(held, id);
    StaleOnceCommitted(s, Commit(held, id), sent[id], id, other, later);
  }

  lemma StaleOnceCommitted(s: Settings, st: State, bytes: seq<byte>, id: u32, index: nat, now: int)
    requires ValidSettings(s) && s.enabled && 0 < id <= st.committed && 0 < |bytes| <= s.maxGroupBytes
    requires index < CeilingDivide(|bytes|, ChunkCapacity(s))
    ensures Accept(s, st, PacketFormat.Packet(s, id, bytes, index), now).1 == Stale(id)
  {
    GenuinePacketParses(s, id, bytes, index);
  }

  /** One such run: two bytes, a payload limit that leaves room for one, the first chunk, the commit. */
  lemma CommitTooEarlyOnce()
    ensures var s := Settings(true, 26, 2, 2, 1, 2, 1);
      var sent: Sent := map[1 := [7, 9]];
      && ValidSettings(s) && ValidSent(s, sent) && Genuine(s, sent, Chunk(1, 0, 0))
      && !StrictlyAboveWatermark(
            Run(s, EMPTY, [Packet(PacketFormat.Packet(s, 1, sent[1], 0), 0), Committed(1)]))
  {
    hide Run, StrictlyAboveWatermark, PacketFormat.Packet;
    var s := Settings(true, 26, 2, 2, 1, 2, 1);
    var sent: Sent := map[1 := [7, 9]];
    assert CeilingDivide(2, 1) == 2;
    CommitTooEarly(s, sent, 1, 0, 1, 0, 0);
  }

  // ---------------------------------------------------------------- completion

  ghost predicate Completion(result: Option<Result>, id: nat) {
    result.Some? && result.value.Complete? && result.value.groupId == id
  }

  ghost predicate Completes(results: seq<Option<Result>>, id: nat) {
    exists i :: 0 <= i < |results| && Completion(results[i], id)
  }

  /** The chunk indices of `id` that one event, or a run, delivers. */
  function Delivers(t: Traffic, id: nat): set<nat> {
    if t.Chunk? && t.id == id then {t.index} else {}
  }

  function Delivered(run: seq<Traffic>, id: nat): set<nat>
    decreases run
  {
    if run == [] then {} else Delivers(run[0], id) + Delivered(run[1..], id)
  }

  /** The event's clock reading does not time out a group first seen at `first`, and it is no commit
      that reaches `id`. */
  predicate Undisturbed(s: Settings, t: Traffic, id: nat, first: int) {
    match t
    case Chunk(_, _, now) => !TimedOut(s.reassemblyTimeout, first, now)
    case Timer(now) => !TimedOut(s.reassemblyTimeout, first, now)
    case Applied(committed) => committed < id
  }

  /** In numbers: at the event's time the group's age has not reached the timeout, or the commit is of an older id. */
  lemma UndisturbedExactly(s: Settings, t: Traffic, id: nat, first: int)
    ensures Undisturbed(s, t, id, first) <==>
      if t.Applied? then t.id < id else t.now < first || t.now - first < s.reassemblyTimeout
  {
  }

  lemma {:induction false} DeliveredBound(s: Settings, sent: Sent, run: seq<Traffic>, id: nat)
    requires ValidSettings(s) && AllGenuine(s, sent, run) && id in sent
    ensures Delivered(run, id) <= Upto(ChunkCount(s, sent, id))
    decreases run
  {
    if run != [] {
      assert Genuine(s, sent, run[0]);
      assert AllGenuine(s, sent, run[1..]);
      DeliveredBound(s, sent, run[1..], id);
    }
  }

  /** How one undisturbed step treats a group in the table. */
  lemma UndisturbedStep(s: Settings, sent: Sent, table: Table, t: Traffic, next: Table, result: Option<Result>, id: nat)
    requires ValidSettings(s) && s.enabled && ValidSent(s, sent) && Genuine(s, sent, t)
    requires id in table.groups && id > table.committed && id in sent
    requires Undisturbed(s, t, id, table.groups[id].first)
    requires TableStep(s, sent, table, t, next, result)
    ensures var held := Held(table.groups, id) + Delivers(t, id);
      && (Completion(result, id) <==> Delivers(t, id) != {} && held == Upto(ChunkCount(s, sent, id)))
      && (!Completion(result, id) ==>
          && id in next.groups && id > next.committed
          && next.groups[id].first == table.groups[id].first
          && Held(next.groups, id) == held)
  {
    if t.Chunk? {
      var live := table.(groups := Kept(table.groups, Unexpired(s.reassemblyTimeout, t.now)));
      assert live.groups[id] == table.groups[id];
      var refused :| ChunkOutcome(s, sent, live, refused, t.id, t.index, t.now, next, result.value);
    }
  }

  /** A group in the table completes during a run exactly when the chunks it held and the chunks the
      run delivers are together all of its chunks. */
  lemma {:induction false} TableCompletes(s: Settings, sent: Sent, table: Table, run: seq<Traffic>,
                                          results: seq<Option<Result>>, id: nat)
    requires ValidSettings(s) && s.enabled && ValidSent(s, sent) && AllGenuine(s, sent, run)
    requires TableRun(s, sent, table, run, results)
    requires id in table.groups && id > table.committed && id in sent
    requires Held(table.groups, id) < Upto(ChunkCount(s, sent, id))
    requires forall i :: 0 <= i < |run| ==> Undisturbed(s, run[i], id, table.groups[id].first)
    ensures Completes(results, id) <==> Held(table.groups, id) + Delivered(run, id) == Upto(ChunkCount(s, sent, id))
    decreases run
  {
    var held, n := Held(table.groups, id), ChunkCount(s, sent, id);
    if run == [] {
      assert held + Delivered(run, id) == held;
    } else {
      var t, rest := run[0], run[1..];
      assert Genuine(s, sent, t) && AllGenuine(s, sent, rest);
      assert Undisturbed(s, t, id, table.groups[id].first);
      var next :| TableStep(s, sent, table, t, next, results[0]) && TableRun(s, sent, next, rest, results[1..]);
      UndisturbedStep(s, sent, table, t, next, results[0], id);
      DeliveredBound(s, sent, run, id);
      CompletesSplit(results, id);
      if Completion(results[0], id) {
        assert held + Delivered(run, id) == Upto(n);
      } else {
        assert Held(next.groups, id) <= Upto(n);
        TableCompletes(s, sent, next, rest, results[1..], id);
        assert held + Delivered(run, id) == Held(next.groups, id) + Delivered(rest, id);
      }
    }
  }

  lemma CompletesSplit(results: seq<Option<Result>>, id: nat)
    requires results != []
    ensures Completes(results, id) <==> Completion(results[0], id) || Completes(results[1..], id)
  {
    if Completes(results, id) {
      var i :| 0 <= i < |results| && Completion(results[i], id);
      assert i > 0 ==> results[1..][i - 1] == results[i];
    }
    if Completes(results[1..], id) {
      var i :| 0 <= i < |results[1..]| && Completion(results[1..][i], id);
      assert results[i + 1] == results[1..][i];
    }
  }

  /** A retained group completes during a run, undisturbed by timeout or commit, exactly when its
      missing chunks are all delivered, in whatever order and however often. */
  lemma CompletesExactly(s: Settings, sent: Sent, st: State, run: seq<Traffic>, id: nat)
    requires ValidSettings(s) && ValidSent(s, sent) && Inv(st) && AllMatch(s, sent, st) && AllGenuine(s, sent, run)
    requires id in ById(st.groups) && id > st.committed
    requires forall i :: 0 <= i < |run| ==> Undisturbed(s, run[i], id, ById(st.groups)[id].first)
    ensures id in sent
    ensures Completes(Results(s, st, ToEvents(s, sent, run)), id)
       <==> Held(ById(st.groups), id) + Delivered(run, id) == Upto(ChunkCount(s, sent, id))
  {
    var k := ByIdSound(st.groups, id);
    var g := st.groups[k];
    assert Matches(s, sent, g) && WellFormed(g);
    FullExactly(g.chunks.Keys, g.count);
    RunRefinesTable(s, sent, st, run);
    TableCompletes(s, sent, TableOf(st), run, Results(s, st, ToEvents(s, sent, run)), id);
  }

  /** From the first chunk on: a group that is not refused for limits completes exactly when every
      one of its chunks is delivered before it times out or is superseded by a commit. */
  lemma CompletesFromFirstChunk(s: Settings, sent: Sent, st: State, first: Traffic, rest: seq<Traffic>)
    requires ValidSettings(s) && s.enabled && ValidSent(s, sent) && Inv(st) && AllMatch(s, sent, st)
    requires first.Chunk? && AllGenuine(s, sent, [first] + rest)
    requires first.id > st.committed && first.id !in ById(st.groups)
    requires forall i :: 0 <= i < |rest| ==> Undisturbed(s, rest[i], first.id, first.now)
    ensures var run := [first] + rest;
      var results := Results(s, st, ToEvents(s, sent, run));
      && results[0].Some?
      && first.id in sent
      && (!results[0].value.LimitExceeded? ==>
          (Completes(results, first.id) <==> Delivered(run, first.id) == Upto(ChunkCount(s, sent, first.id))))
  {
    assert rest == ([first] + rest)[1..];
    RunRefinesTable(s, sent, st, [first] + rest);
    TableCompletesFromFirst(s, sent, TableOf(st), [first] + rest, Results(s, st, ToEvents(s, sent, [first] + rest)));
  }

  lemma TableCompletesFromFirst(s: Settings, sent: Sent, table: Table, run: seq<Traffic>, results: seq<Option<Result>>)
    requires ValidSettings(s) && s.enabled && ValidSent(s, sent) && AllGenuine(s, sent, run)
    requires TableRun(s, sent, table, run, results)
    requires run != [] && run[0].Chunk? && run[0].id > table.committed && run[0].id !in table.groups
    requires forall i :: 0 <= i < |run[1..]| ==> Undisturbed(s, run[1..][i], run[0].id, run[0].now)
    ensures results != [] && results[0].Some? && run[0].id in sent
    ensures !results[0].value.LimitExceeded? ==>
      (Completes(results, run[0].id) <==> Delivered(run, run[0].id) == Upto(ChunkCount(s, sent, run[0].id)))
  {
    var first, rest, id := run[0], run[1..], run[0].id;
    assert Genuine(s, sent, first) && AllGenuine(s, sent, rest);
    var next :| TableStep(s, sent, table, first, next, results[0]) && TableRun(s, sent, next, rest, results[1..]);
    if !results[0].value.LimitExceeded? {
      FirstStep(s, sent, table, first, next, results[0]);
      CompletesSplit(results, id);
      DeliveredBound(s, sent, run, id);
      if !Completion(results[0], id) {
        TableCompletes(s, sent, next, rest, results[1..], id);
      }
    }
  }

  lemma FirstStep(s: Settings, sent: Sent, table: Table, first: Traffic, next: Table, result: Option<Result>)
    requires ValidSettings(s) && s.enabled && ValidSent(s, sent) && Genuine(s, sent, first) && first.Chunk?
    requires first.id > table.committed && first.id !in table.groups
    requires TableStep(s, sent, table, first, next, result) && !result.value.LimitExceeded?
    ensures var n := ChunkCount(s, sent, first.id);
      && (Completion(result, first.id) <==> {first.index} == Upto(n))
      && (!Completion(result, first.id) ==>
          && first.id in next.groups && first.id > next.committed
          && next.groups[first.id].first == first.now
          && Held(next.groups, first.id) == {first.index} < Upto(n))
  {
    var live := table.(groups := Kept(table.groups, Unexpired(s.reassemblyTimeout, first.now)));
    var refused :| ChunkOutcome(s, sent, live, refused, first.id, first.index, first.now, next, result.value);
    assert {} + {first.index} == {first.index};
  }

  /** With a free slot, and room for its bytes beside what the report says is retained, no chunk is refused for
      limits: expiry only makes more room. */
  lemma RoomAdmits(s: Settings, sent: Sent, st: State, id: nat, index: nat, now: int)
    requires ValidSettings(s) && s.enabled && ValidSent(s, sent) && Inv(st)
    requires id in sent && index < ChunkCount(s, sent, id)
    requires |st.groups| < s.maxInFlightGroups
    requires st.report.retainedIncompleteBytes + |sent[id]| <= s.maxIncompleteBytes
    ensures !Accept(s, st, PacketFormat.Packet(s, id, sent[id], index), now).1.LimitExceeded?
  {
    hide PacketFormat.Packet, Retain, Inv, HeaderIdentityIsValid, HeaderFieldsAreWithinBounds, ReadHeader;
    hide ChunkGeometryIsConsistent, ChunkSizeIsConsistent, CeilingDivide, ChunkCapacity, Receive, ChunkOf;
    GenuinePacketParses(s, id, sent[id], index);
    var live := Expire(s, CountReceived(st), now);
    RoomAfterExpiry(s, st, now);
    ReceiveIsNoRefusal(live, Find(live.groups, id), index, ChunkOf(sent[id], ChunkCapacity(s), index));
    var admitted := Admit(live, ChunkHeader(id, |sent[id]|, ChunkCapacity(s), index), ChunkCapacity(s), now);
    ReceiveIsNoRefusal(admitted, Find(live.groups, id), index, ChunkOf(sent[id], ChunkCapacity(s), index));
  }

  lemma RoomAfterExpiry(s: Settings, st: State, now: int)
    requires Inv(st)
    ensures var live := Expire(s, CountReceived(st), now);
      |live.groups| <= |st.groups| && live.report.retainedIncompleteBytes <= st.report.retainedIncompleteBytes
  {
    hide Retain;
    RetainKeeps(st.groups, Unexpired(s.reassemblyTimeout, now));
    RetainShrinks(st.groups, Unexpired(s.reassemblyTimeout, now));
  }

  lemma ReceiveIsNoRefusal(st: State, k: nat, index: nat, payload: seq<byte>)
    ensures k < |st.groups| ==> !Receive(st, k, index, payload).1.LimitExceeded?
  {
  }

  lemma {:induction false} DeliveredHolds(run: seq<Traffic>, id: nat, i: nat)
    requires i < |run| && run[i].Chunk? && run[i].id == id
    ensures run[i].index in Delivered(run, id)
    decreases run
  {
    if i > 0 {
      DeliveredHolds(run[1..], id, i - 1);
    }
  }
}
