/** What a packet, an expiry or a commit does to the receiver, in the numbers a packet carries, the clock
    readings and the limits of the settings.

    Models src/packetization/src/packetization.cpp. */
module ReassemblyRules {
  import opened Bytes
  import opened PacketFormat
  import opened Reassembly

  // ---------------------------------------------------------------- settings

  /** The settings that are accepted. */
  lemma SettingsExactly(s: Settings)
    ensures ValidSettings(s) <==>
      && 0 < s.maxPayloadBytes && 0 < s.maxGroupBytes <= 4_194_304
      && 0 < s.maxChunksPerGroup <= 4096 && 0 < s.maxInFlightGroups <= 64
      && s.maxGroupBytes <= s.maxIncompleteBytes <= 8_388_608
      && s.reassemblyTimeout > 0
      && (s.enabled ==>
            s.maxPayloadBytes > 25 && s.maxGroupBytes <= (s.maxPayloadBytes - 25) * s.maxChunksPerGroup)
  {
  }

  // ---------------------------------------------------------------- expiry

  /** The retained groups whose time is up at `now`. */
  function Overdue(groups: seq<Group>, timeout: int, now: int): set<nat> {
    set i: nat | i < |groups| && now >= groups[i].first && now - groups[i].first >= timeout
  }

  lemma {:induction false} ExpiryCount(groups: seq<Group>, timeout: int, now: int)
    ensures |groups| == |Retain(groups, Unexpired(timeout, now))| + |Overdue(groups, timeout, now)|
  {
    if groups == [] {
      assert Overdue(groups, timeout, now) == {};
    } else {
      var last := |groups| - 1;
      ExpiryCount(groups[..last], timeout, now);
      var before := Overdue(groups[..last], timeout, now);
      var over := now >= groups[last].first && now - groups[last].first >= timeout;
      assert Overdue(groups, timeout, now) == before + if over then {last} else {};
    }
  }

  /** An expiry keeps exactly the groups that were first received less than the timeout ago, or later than
      `now`, and counts every other one. */
  lemma ExpiryExactly(s: Settings, st: State, now: int)
    ensures var next := Expire(s, st, now);
      && next.committed == st.committed
      && (forall g :: g in next.groups <==>
            g in st.groups && (now < g.first || now - g.first < s.reassemblyTimeout))
      && next.report.expiredGroups
           == st.report.expiredGroups + |Overdue(st.groups, s.reassemblyTimeout, now)|
  {
    hide Retain;
    RetainKeeps(st.groups, Unexpired(s.reassemblyTimeout, now));
    ExpiryCount(st.groups, s.reassemblyTimeout, now);
  }

  /** A commit raises the watermark, never lowers it, and then keeps exactly the groups not below it. */
  lemma CommitExactly(st: State, id: nat)
    ensures var next := Commit(st, id);
      && next.committed == (if id > st.committed then id else st.committed)
      && (forall g :: g in next.groups <==> g in st.groups && (id > st.committed ==> g.id >= id))
  {
    hide Retain;
    RetainKeeps(st.groups, AtLeast(id));
  }

  ghost predicate InTime(s: Settings, groups: seq<Group>, now: int) {
    forall i :: 0 <= i < |groups| ==> now < groups[i].first || now - groups[i].first < s.reassemblyTimeout
  }

  lemma InTimeReceive(s: Settings, st: State, k: nat, index: nat, payload: seq<byte>, now: int)
    requires InTime(s, st.groups, now) && k < |st.groups|
    ensures InTime(s, Receive(st, k, index, payload).0.groups, now)
  {
    hide Narrow, TotalBytes, Assemble, Find;
  }

  lemma InTimeChunk(s: Settings, st: State, h: PacketHeader, capacity: nat, payload: seq<byte>, now: int)
    requires ValidSettings(s) && InTime(s, st.groups, now)
    ensures InTime(s, AcceptChunk(s, st, h, capacity, payload, now).0.groups, now)
  {
    hide Narrow, TotalBytes, Receive, WithinLimits, Find;
    var k := Find(st.groups, h.groupId);
    if k < |st.groups| {
      InTimeReceive(s, st, k, h.chunkIndex, payload, now);
    } else {
      InTimeReceive(s, Admit(st, h, capacity, now), k, h.chunkIndex, payload, now);
    }
  }

  lemma InTimeDispatch(s: Settings, live: State, packet: seq<byte>, now: int)
    requires ValidSettings(s) && InTime(s, live.groups, now)
    ensures InTime(s, Dispatch(s, live, packet, now).0.groups, now)
  {
    hide Narrow, TotalBytes, AcceptChunk, Find, HeaderIdentityIsValid, HeaderFieldsAreWithinBounds;
    hide ChunkGeometryIsConsistent, ChunkSizeIsConsistent, ReadHeader;
    if s.enabled && |packet| >= 25 {
      InTimeChunk(s, live, ReadHeader(packet).value, ChunkCapacity(s), packet[25..], now);
    }
  }

  /** Whatever was retained before, no packet leaves a group whose time is up at its arrival. */
  lemma InTimeAfterPacket(s: Settings, st: State, packet: seq<byte>, now: int)
    requires ValidSettings(s)
    ensures InTime(s, Accept(s, st, packet, now).0.groups, now)
  {
    hide Dispatch;
    var live := Expire(s, CountReceived(st), now);
    ExpiryExactly(s, CountReceived(st), now);
    InTimeDispatch(s, live, packet, now);
  }

  // ---------------------------------------------------------------- one packet

  /** Full chunks up to the last one, which is not empty. */
  predicate ChunksCover(size: nat, count: nat, capacity: nat) {
    (count - 1) * capacity < size <= count * capacity
  }

  /** The bytes that chunk `index` of `count` carries. */
  function ChunkBytes(size: nat, count: nat, index: nat, capacity: nat): int {
    if index + 1 < count then capacity else size - index * capacity
  }

  /** What the nine numbers of a header decide before its group is looked up. */
  function HeaderVerdict(s: Settings, committed: nat, x: seq<nat>, packetBytes: nat): Option<Result>
    requires ValidSettings(s) && s.enabled && |x| == 9
  {
    var capacity := s.maxPayloadBytes - 25;
    if x[0] != 0x534E504B || x[1] != 1 || x[2] != 1 || x[3] != 1 then Some(Invalid(0, IdentityOrVersionInvalid))
    else if x[4] == 0 || x[7] == 0 || x[7] > s.maxGroupBytes || x[6] == 0 || x[6] > s.maxChunksPerGroup
            || x[5] >= x[6] || x[8] + 25 != packetBytes || packetBytes > s.maxPayloadBytes
    then Some(Invalid(x[4], FieldsOutsideBounds))
    else if x[4] <= committed then Some(Stale(x[4]))
    else if !ChunksCover(x[7], x[6], capacity) then Some(Invalid(x[4], CountOrOffsetInconsistent))
    else if x[8] != ChunkBytes(x[7], x[6], x[5], capacity) then Some(Invalid(x[4], PayloadSizeInconsistent))
    else None
  }

  /** The other groups stay, and the group under `id` becomes what is given, or goes. */
  ghost predicate Becomes(live: seq<Group>, next: seq<Group>, id: nat, group: Option<Group>) {
    forall g :: g in next <==> (g in live && g.id != id) || Some(g) == group
  }

  /** A chunk for a group that is held: other metadata or other bytes drop the group, equal bytes change
      nothing, and a missing chunk is filed, the last one completing the group. */
  ghost predicate HeldFate(live: seq<Group>, g: Group, x: seq<nat>, capacity: nat, payload: seq<byte>,
                           next: seq<Group>, result: Result)
    requires |x| == 9
  {
    var filled := g.(chunks := g.chunks[x[5] := payload]);
    if g.size != x[7] || g.count != x[6] || g.capacity != capacity then
      result == Invalid(x[4], MetadataConflict) && Becomes(live, next, x[4], None)
    else if x[5] in g.chunks && g.chunks[x[5]] != payload then
      result == Invalid(x[4], DuplicatePayloadConflict) && Becomes(live, next, x[4], None)
    else if x[5] in g.chunks then
      result == Duplicate(x[4]) && Becomes(live, next, x[4], Some(g))
    else if |g.chunks| + 1 < x[6] then
      result == Incomplete(x[4]) && Becomes(live, next, x[4], Some(filled))
    else
      result == Complete(x[4], x[6], x[7] + 25 * x[6], Assemble(filled.chunks, x[6]))
      && Becomes(live, next, x[4], None)
  }

  /** A chunk of a group that is not held: refused when either limit would be passed. */
  ghost predicate NewFate(s: Settings, live: seq<Group>, x: seq<nat>, capacity: nat, payload: seq<byte>, now: int,
                          next: seq<Group>, result: Result)
    requires |x| == 9
  {
    if |live| >= s.maxInFlightGroups || TotalBytes(live) + x[7] > s.maxIncompleteBytes then
      result == LimitExceeded(x[4]) && Becomes(live, next, x[4], None)
    else if x[6] == 1 then
      result == Complete(x[4], 1, x[7] + 25, payload) && Becomes(live, next, x[4], None)
    else
      result == Incomplete(x[4])
      && Becomes(live, next, x[4], Some(Group(x[4], x[7], capacity, x[6], now, map[x[5] := payload])))
  }

  /** The counters move by what the result says, and the two totals are those of the groups. */
  ghost predicate Counted(before: Report, next: State, result: Result) {
    next.report == before.(
      uniqueChunks := before.uniqueChunks + (if result.Incomplete? || result.Complete? then 1 else 0),
      duplicateChunks := before.duplicateChunks + (if result.Duplicate? then 1 else 0),
      staleGroups := before.staleGroups + (if result.Stale? then 1 else 0),
      invalidGroups := before.invalidGroups + (if result.Invalid? then 1 else 0),
      completedGroups := before.completedGroups + (if result.Complete? then 1 else 0),
      latestCompletedGroupBytes :=
        if result.Complete? then |result.bytes| else before.latestCompletedGroupBytes,
      incompleteGroups := |next.groups|,
      retainedIncompleteBytes := TotalBytes(next.groups))
  }

  lemma WithoutMembers(groups: seq<Group>, k: nat)
    requires k < |groups| && DistinctIds(groups)
    ensures Becomes(groups, Without(groups, k), groups[k].id, None)
  {
    var rest := Without(groups, k);
    forall g
      ensures g in rest <==> g in groups && g.id != groups[k].id
    {
      if g in groups && g.id != groups[k].id {
        var j :| 0 <= j < |groups| && groups[j] == g;
        assert rest[if j < k then j else j - 1] == g;
      }
      if g in rest {
        var j :| 0 <= j < |rest| && rest[j] == g;
        assert g == groups[if j < k then j else j + 1];
      }
    }
  }

  lemma UpdatedMembers(groups: seq<Group>, k: nat, g: Group)
    requires k < |groups| && DistinctIds(groups) && g.id == groups[k].id
    ensures Becomes(groups, groups[k := g], g.id, Some(g))
  {
    var updated := groups[k := g];
    forall e
      ensures e in updated <==> (e in groups && e.id != g.id) || e == g
    {
      if e in groups && e.id != g.id {
        var j :| 0 <= j < |groups| && groups[j] == e;
        assert updated[j] == e;
      }
      assert updated[k] == g;
      if e in updated && e != g {
        var j :| 0 <= j < |updated| && updated[j] == e;
        assert groups[j] == e && j != k;
      }
    }
  }

  lemma AbsentMembers(groups: seq<Group>, id: nat)
    requires Find(groups, id) == |groups|
    ensures Becomes(groups, groups, id, None)
    ensures forall g :: g in groups ==> g.id != id
  {
    FindIsFirst(groups, id);
  }

  lemma RejectFate(st: State, id: nat, reason: Reason)
    requires Inv(st)
    ensures var (next, result) := Reject(st, id, reason);
      && result == Invalid(id, reason) && next.committed == st.committed
      && Becomes(st.groups, next.groups, id, None) && Counted(st.report, next, result)
  {
    hide Becomes, TotalBytes, WellFormed;
    var k := Find(st.groups, id);
    if k < |st.groups| {
      WithoutMembers(st.groups, k);
      TotalWithout(st.groups, k);
    } else {
      AbsentMembers(st.groups, id);
    }
  }

  lemma ReceiveFate(st: State, k: nat, x: seq<nat>, payload: seq<byte>)
    requires Inv(st) && k < |st.groups| && |x| == 9
    requires var g := st.groups[k]; g.id == x[4] && g.size == x[7] && g.count == x[6] && x[5] < g.count
    requires |payload| == ChunkEnd(x[7], st.groups[k].capacity, x[5]) - ChunkStart(st.groups[k].capacity, x[5])
    ensures var (next, result) := Receive(st, k, x[5], payload);
      && next.committed == st.committed
      && HeldFate(st.groups, st.groups[k], x, st.groups[k].capacity, payload, next.groups, result)
      && Counted(st.report, next, result)
  {
    hide Becomes, TotalBytes, Assemble, Narrow;
    var g := st.groups[k];
    var filled := g.(chunks := g.chunks[x[5] := payload]);
    ReceiveInv(Settings(true, 0, 0, 0, 0, 0, 0), st, k, x[5], payload);
    assert WellFormed(g);
    if x[5] in g.chunks {
      if g.chunks[x[5]] != payload {
        RejectFate(st, g.id, DuplicatePayloadConflict);
      } else {
        UpdatedMembers(st.groups, k, g);
        assert st.groups[k := g] == st.groups;
      }
    } else {
      assert |filled.chunks| == |g.chunks| + 1;
      UpdatedMembers(st.groups, k, filled);
      WithoutMembers(st.groups, k);
      assert Without(st.groups[k := filled], k) == Without(st.groups, k);
    }
  }

  /** A chunk that its header has brought to its group. */
  ghost predicate ChunkFate(s: Settings, live: State, x: seq<nat>, payload: seq<byte>, now: int, next: State,
                            result: Result)
    requires ValidSettings(s) && s.enabled && |x| == 9
  {
    var capacity := s.maxPayloadBytes - 25;
    && next.committed == live.committed
    && Counted(live.report, next, result)
    && (forall g :: g in live.groups && g.id == x[4] ==>
          HeldFate(live.groups, g, x, capacity, payload, next.groups, result))
    && ((forall g :: g in live.groups ==> g.id != x[4]) ==>
          NewFate(s, live.groups, x, capacity, payload, now, next.groups, result))
  }

  lemma BecomesAfterAppend(groups: seq<Group>, g: Group, next: seq<Group>, group: Option<Group>)
    requires Becomes(groups + [g], next, g.id, group) && forall e :: e in groups ==> e.id != g.id
    ensures Becomes(groups, next, g.id, group)
  {
    forall e
      ensures e in groups + [g] && e.id != g.id <==> e in groups && e.id != g.id
    {
    }
  }

  /** Admitting a group and filing its first chunk. */
  lemma NewGroupFate(s: Settings, st: State, h: PacketHeader, x: seq<nat>, payload: seq<byte>, now: int)
    requires ValidSettings(s) && s.enabled && Inv(st) && HeaderValues(h) == x
    requires h.groupId > st.committed && h.groupBytes > 0 && h.chunkIndex < h.chunkCount
    requires ChunkGeometryIsConsistent(h, ChunkCapacity(s)) && ChunkSizeIsConsistent(h, ChunkCapacity(s))
    requires |payload| == h.chunkBytes && Find(st.groups, h.groupId) == |st.groups| && WithinLimits(s, st, h.groupBytes)
    ensures var capacity := ChunkCapacity(s);
      var (next, result) := Receive(Admit(st, h, capacity, now), |st.groups|, h.chunkIndex, payload);
      && next.committed == st.committed && Counted(st.report, next, result)
      && NewFate(s, st.groups, x, capacity, payload, now, next.groups, result)
  {
    hide Becomes, TotalBytes, Receive, Inv;
    var capacity := ChunkCapacity(s);
    var g := Group(h.groupId, h.groupBytes, capacity, h.chunkCount, now, map[]);
    var admitted := Admit(st, h, capacity, now);
    var (next, result) := Receive(admitted, |st.groups|, h.chunkIndex, payload);
    AdmitInv(s, st, h, capacity, now);
    AbsentMembers(st.groups, h.groupId);
    ChunkLength(h, capacity);
    ReceiveFate(admitted, |st.groups|, x, payload);
    assert g.chunks[x[5] := payload] == map[x[5] := payload];
    TotalsOf(st);
    if x[6] == 1 {
      OneChunk(payload);
      BecomesAfterAppend(st.groups, g, next.groups, None);
    } else {
      BecomesAfterAppend(st.groups, g, next.groups, Some(g.(chunks := map[x[5] := payload])));
    }
  }

  lemma TotalsOf(st: State)
    requires Inv(st)
    ensures st.report.retainedIncompleteBytes == TotalBytes(st.groups) && st.report.incompleteGroups == |st.groups|
  {
  }

  lemma OneChunk(payload: seq<byte>)
    ensures Assemble(map[0 := payload], 1) == payload
  {
    assert Assemble(map[0 := payload], 0) == [];
  }

  lemma AcceptChunkFate(s: Settings, st: State, h: PacketHeader, x: seq<nat>, payload: seq<byte>, now: int)
    requires ValidSettings(s) && s.enabled && Inv(st) && HeaderValues(h) == x
    requires h.groupId > st.committed && h.groupBytes > 0 && h.chunkIndex < h.chunkCount
    requires ChunkGeometryIsConsistent(h, ChunkCapacity(s)) && ChunkSizeIsConsistent(h, ChunkCapacity(s))
    requires |payload| == h.chunkBytes
    ensures var (next, result) := AcceptChunk(s, st, h, ChunkCapacity(s), payload, now);
      ChunkFate(s, st, x, payload, now, next, result)
  {
    hide Becomes, TotalBytes, Receive, Reject, Counted, NewFate, Inv;
    var capacity := ChunkCapacity(s);
    var k := Find(st.groups, h.groupId);
    TotalsOf(st);
    ChunkLength(h, capacity);
    if k < |st.groups| {
      var g := st.groups[k];
      OnlyOne(st, k);
      if g.size != h.groupBytes || g.count != h.chunkCount || g.capacity != capacity {
        RejectFate(st, h.groupId, MetadataConflict);
      } else {
        ReceiveFate(st, k, x, payload);
      }
    } else {
      AbsentMembers(st.groups, h.groupId);
      if WithinLimits(s, st, h.groupBytes) {
        NewGroupFate(s, st, h, x, payload, now);
      } else {
        RefusedFate(s, st, x, payload, now);
      }
    }
  }

  lemma OnlyOne(st: State, k: nat)
    requires Inv(st) && k < |st.groups|
    ensures forall g :: g in st.groups && g.id == st.groups[k].id ==> g == st.groups[k]
  {
  }

  lemma RefusedFate(s: Settings, st: State, x: seq<nat>, payload: seq<byte>, now: int)
    requires ValidSettings(s) && s.enabled && Inv(st) && |x| == 9 && Find(st.groups, x[4]) == |st.groups|
    requires |st.groups| >= s.maxInFlightGroups || TotalBytes(st.groups) + x[7] > s.maxIncompleteBytes
    ensures Counted(st.report, st, LimitExceeded(x[4]))
    ensures NewFate(s, st.groups, x, s.maxPayloadBytes - 25, payload, now, st.groups, LimitExceeded(x[4]))
  {
    AbsentMembers(st.groups, x[4]);
  }

  /** The geometry of a chunk, in the numbers of its header. */
  lemma GeometryExactly(h: PacketHeader, capacity: nat)
    requires capacity > 0 && h.groupBytes > 0 && h.chunkIndex < h.chunkCount
    ensures ChunkGeometryIsConsistent(h, capacity) <==> ChunksCover(h.groupBytes, h.chunkCount, capacity)
    ensures ChunkGeometryIsConsistent(h, capacity) ==>
      ChunkStart(capacity, h.chunkIndex) < h.groupBytes &&
      (ChunkSizeIsConsistent(h, capacity) <==>
        h.chunkBytes == ChunkBytes(h.groupBytes, h.chunkCount, h.chunkIndex, capacity))
  {
    CeilingDivideBounds(h.groupBytes, capacity);
    if (h.chunkCount - 1) * capacity < h.groupBytes <= h.chunkCount * capacity {
      CeilingDivideUnique(h.groupBytes, capacity, h.chunkCount);
      MultiplyMonotone(h.chunkIndex, h.chunkCount - 1, capacity);
      if h.chunkIndex + 1 < h.chunkCount {
        MultiplyMonotone(h.chunkIndex + 1, h.chunkCount - 1, capacity);
        assert (h.chunkIndex + 1) * capacity == h.chunkIndex * capacity + capacity;
      } else {
        assert h.chunkCount * capacity == (h.chunkCount - 1) * capacity + capacity;
      }
    }
  }

  /** What a packet causes without packetization. */
  ghost predicate RawFate(s: Settings, live: State, packet: seq<byte>, next: State, result: Result) {
    var fits := 0 < |packet| <= s.maxPayloadBytes && |packet| <= s.maxGroupBytes;
    && result == (if fits then Complete(0, 1, |packet|, packet) else Invalid(0, RawPayloadOutsideBounds))
    && next.committed == live.committed && next.groups == live.groups
    && next.report == (
      if fits then live.report.(uniqueChunks := live.report.uniqueChunks + 1,
                                completedGroups := live.report.completedGroups + 1,
                                latestCompletedGroupBytes := |packet|)
      else live.report.(invalidGroups := live.report.invalidGroups + 1))
  }

  /** What a packet with the header numbers `x` causes: they decide, in order, whether it is invalid, and then
      drops the group it names and no other; or stale, and then changes no group; or goes to its group. */
  ghost predicate ReadFate(s: Settings, live: State, x: seq<nat>, packet: seq<byte>, now: int, next: State,
                           result: Result)
    requires ValidSettings(s) && s.enabled && |x| == 9 && |packet| >= 25
  {
    var verdict := HeaderVerdict(s, live.committed, x, |packet|);
    if verdict.Some? then
      && result == verdict.value && next.committed == live.committed && Counted(live.report, next, result)
      && (if result.Stale? then next.groups == live.groups
          else Becomes(live.groups, next.groups, result.groupId, None))
    else ChunkFate(s, live, x, packet[25..], now, next, result)
  }

  /** What a packet causes once old groups have expired. */
  ghost predicate PacketFate(s: Settings, live: State, packet: seq<byte>, now: int, next: State, result: Result)
    requires ValidSettings(s)
  {
    if !s.enabled then RawFate(s, live, packet, next, result)
    else if |packet| < 25 then
      && result == Invalid(0, ShorterThanHeader)
      && next == live.(report := live.report.(invalidGroups := live.report.invalidGroups + 1))
    else
      var read := ReadFields(packet, 0, [4, 2, 2, 1, 4, 2, 2, 4, 4]);
      read.Some? && ReadFate(s, live, read.value, packet, now, next, result)
  }

  lemma NoGroupZero(st: State)
    requires Inv(st)
    ensures forall g :: g in st.groups ==> g.id != 0
  {
  }

  lemma InvalidFate(live: State, reason: Reason)
    requires Inv(live)
    ensures Counted(live.report, CountInvalid(live), Invalid(0, reason))
    ensures Becomes(live.groups, live.groups, 0, None)
  {
    NoGroupZero(live);
  }

  lemma DispatchReadFate(s: Settings, live: State, packet: seq<byte>, h: PacketHeader, now: int)
    requires ValidSettings(s) && s.enabled && Inv(live) && |packet| >= 25
    ensures var (next, result) := DispatchRead(s, live, Some(h), packet, now);
      ReadFate(s, live, HeaderValues(h), packet, now, next, result)
  {
    hide Becomes, TotalBytes, AcceptChunk, Reject, ChunkFate, Inv, Counted, ChunksCover, ChunkBytes;
    hide ChunkGeometryIsConsistent, ChunkSizeIsConsistent;
    InvalidFate(live, IdentityOrVersionInvalid);
    RejectFate(live, h.groupId, FieldsOutsideBounds);
    if HeaderFieldsAreWithinBounds(s, h, |packet|) {
      StaleFate(live, h.groupId);
      GeometryExactly(h, ChunkCapacity(s));
      RejectFate(live, h.groupId, CountOrOffsetInconsistent);
      RejectFate(live, h.groupId, PayloadSizeInconsistent);
      if h.groupId > live.committed && ChunkGeometryIsConsistent(h, ChunkCapacity(s))
         && ChunkSizeIsConsistent(h, ChunkCapacity(s)) {
        AcceptChunkFate(s, live, h, HeaderValues(h), packet[25..], now);
      }
    }
  }

  lemma StaleFate(live: State, id: nat)
    requires Inv(live)
    ensures Counted(live.report, live.(report := live.report.(staleGroups := live.report.staleGroups + 1)), Stale(id))
  {
  }

  lemma DispatchFate(s: Settings, live: State, packet: seq<byte>, now: int)
    requires ValidSettings(s) && Inv(live)
    ensures var (next, result) := Dispatch(s, live, packet, now);
      PacketFate(s, live, packet, now, next, result)
  {
    hide ReadFate, HeaderIdentityIsValid, HeaderFieldsAreWithinBounds, AcceptChunk, Reject, Inv;
    if s.enabled {
      HeaderLayoutBytes();
      if |packet| >= 25 {
        var h := ReadHeader(packet).value;
        assert ReadFields(packet, 0, HEADER_LAYOUT).value == HeaderValues(h);
        DispatchReadFate(s, live, packet, h, now);
      }
    }
  }

  /** One packet: it is counted, the groups whose time is up expire, and the bytes decide the rest. */
  lemma PacketExactly(s: Settings, st: State, packet: seq<byte>, now: int)
    requires ValidSettings(s) && Inv(st)
    ensures var (next, result) := Step(s, st, Packet(packet, now));
      var live := Step(s, st, Expiry(now)).0;
      && result.Some?
      && PacketFate(s, live.(report := live.report.(receivedChunks := st.report.receivedChunks + 1)), packet, now,
                    next, result.value)
  {
    hide PacketFate, Dispatch, Retain, Inv, Narrow, TotalBytes;
    var live := Expire(s, CountReceived(st), now);
    CountedInv(st);
    ExpireInv(s, CountReceived(st), now);
    DispatchFate(s, live, packet, now);
  }

  lemma CountedInv(st: State)
    requires Inv(st)
    ensures Inv(CountReceived(st))
  {
  }

  // ---------------------------------------------------------------- over runs

  lemma {:induction false} RunOneMore(s: Settings, st: State, events: seq<Event>, e: Event)
    requires ValidSettings(s)
    ensures Run(s, st, events + [e]) == Step(s, Run(s, st, events), e).0
    decreases events
  {
    hide Step;
    if events == [] {
      assert [e][1..] == [] && events + [e] == [e];
    } else {
      assert (events + [e])[1..] == events[1..] + [e];
      RunOneMore(s, Step(s, st, events[0]).0, events[1..], e);
    }
  }

  /** A group that is held after a chunk was held before, with the same first time, or is new. */
  lemma ChunkFirsts(s: Settings, live: State, x: seq<nat>, payload: seq<byte>, now: int, next: State, result: Result)
    requires ValidSettings(s) && s.enabled && |x| == 9 && ChunkFate(s, live, x, payload, now, next, result)
    ensures forall g :: g in next.groups ==>
      g.first == now || exists was :: was in live.groups && was.first == g.first
  {
    hide Counted;
    if was :| was in live.groups && was.id == x[4] {
      assert HeldFate(live.groups, was, x, s.maxPayloadBytes - 25, payload, next.groups, result);
    }
  }

  lemma PacketFirsts(s: Settings, live: State, packet: seq<byte>, now: int, next: State, result: Result)
    requires ValidSettings(s) && PacketFate(s, live, packet, now, next, result)
    ensures forall g :: g in next.groups ==>
      g.first == now || exists was :: was in live.groups && was.first == g.first
  {
    hide Counted, ChunkFate, HeaderVerdict;
    if s.enabled && |packet| >= 25 {
      var x := ReadFields(packet, 0, [4, 2, 2, 1, 4, 2, 2, 4, 4]).value;
      if HeaderVerdict(s, live.committed, x, |packet|).None? {
        ChunkFirsts(s, live, x, packet[25..], now, next, result);
      }
    }
  }

  lemma StepFirsts(s: Settings, st: State, e: Event)
    requires ValidSettings(s) && Inv(st)
    ensures forall g :: g in Step(s, st, e).0.groups ==>
      && ((e.Packet? && g.first == e.now) || exists was :: was in st.groups && was.first == g.first)
      && (!e.Committed? ==> e.now < g.first || e.now - g.first < s.reassemblyTimeout)
  {
    hide PacketFate, Expire, Accept, Inv;
    match e
    case Packet(bytes, now) =>
      PacketExactly(s, st, bytes, now);
      ExpiryExactly(s, st, now);
      var live := Expire(s, st, now);
      PacketFirsts(s, live.(report := live.report.(receivedChunks := st.report.receivedChunks + 1)), bytes, now,
                   Step(s, st, e).0, Step(s, st, e).1.value);
    case Expiry(now) => ExpiryExactly(s, st, now);
    case Committed(id) => CommitExactly(st, id);
  }

  /** Of any run from the empty state: a packet or an expiry leaves no group whose time is up, an expiry drops
      no other group, and either counts as expired exactly those whose time was up. */
  lemma ExpiryInRuns(s: Settings, events: seq<Event>, e: Event)
    requires ValidSettings(s) && !e.Committed?
    ensures var st, next := Run(s, EMPTY, events), Run(s, EMPTY, events + [e]);
      && (forall g :: g in next.groups ==> e.now < g.first || e.now - g.first < s.reassemblyTimeout)
      && (e.Expiry? ==> forall g :: g in st.groups && (e.now < g.first || e.now - g.first < s.reassemblyTimeout)
                                    ==> g in next.groups)
      && next.report.expiredGroups
           == st.report.expiredGroups + |Overdue(st.groups, s.reassemblyTimeout, e.now)|
  {
    hide PacketFate, Expire, Accept, Run, Inv;
    var st := Run(s, EMPTY, events);
    RunOneMore(s, EMPTY, events, e);
    EmptyMeetsInv();
    RunInv(s, EMPTY, events);
    StepFirsts(s, st, e);
    ExpiryExactly(s, st, e.now);
    if e.Packet? {
      PacketExactly(s, st, e.bytes, e.now);
      var live := Expire(s, st, e.now);
      FateKeepsExpired(s, live.(report := live.report.(receivedChunks := st.report.receivedChunks + 1)), e.bytes,
                       e.now, Step(s, st, e).0, Step(s, st, e).1.value);
    }
  }

  lemma EmptyMeetsInv()
    ensures Inv(EMPTY)
  {
  }

  lemma ChunkKeepsExpired(s: Settings, live: State, x: seq<nat>, payload: seq<byte>, now: int, next: State,
                          result: Result)
    requires ValidSettings(s) && s.enabled && |x| == 9
    ensures ChunkFate(s, live, x, payload, now, next, result) ==>
      next.report.expiredGroups == live.report.expiredGroups
  {
    hide HeldFate, NewFate, TotalBytes;
  }

  lemma FateKeepsExpired(s: Settings, live: State, packet: seq<byte>, now: int, next: State, result: Result)
    requires ValidSettings(s) && PacketFate(s, live, packet, now, next, result)
    ensures next.report.expiredGroups == live.report.expiredGroups
  {
    hide HeaderVerdict, HeldFate, NewFate, Becomes, ReadFields, TotalBytes, ChunkFate;
    if s.enabled && |packet| >= 25 {
      ChunkKeepsExpired(s, live, ReadFields(packet, 0, [4, 2, 2, 1, 4, 2, 2, 4, 4]).value, packet[25..], now, next,
                        result);
    }
  }

  /** The clock readings since event `i` leave a group first received at `first` its time. */
  ghost predicate InTimeSince(s: Settings, events: seq<Event>, i: nat, first: int) {
    forall j :: i <= j < |events| && !events[j].Committed? ==>
      events[j].now < first || events[j].now - first < s.reassemblyTimeout
  }

  /** Over every run, each group still retained was first received with one of the packets, and at no packet or
      expiry since then was its time up. */
  lemma {:induction false} NoGroupOutlivesItsTime(s: Settings, events: seq<Event>)
    requires ValidSettings(s)
    ensures forall g :: g in Run(s, EMPTY, events).groups ==>
      exists i :: 0 <= i < |events| && events[i].Packet? && events[i].now == g.first
                  && InTimeSince(s, events, i, g.first)
    decreases |events|
  {
    hide Step, Inv;
    if events != [] {
      var init, e := events[..|events| - 1], events[|events| - 1];
      assert events == init + [e];
      NoGroupOutlivesItsTime(s, init);
      RunOneMore(s, EMPTY, init, e);
      EmptyMeetsInv();
      RunInv(s, EMPTY, init);
      StepFirsts(s, Run(s, EMPTY, init), e);
      forall g | g in Run(s, EMPTY, events).groups
        ensures exists i :: 0 <= i < |events| && events[i].Packet? && events[i].now == g.first
                            && InTimeSince(s, events, i, g.first)
      {
        var last := |events| - 1;
        if !(e.Packet? && g.first == e.now) {
          var was :| was in Run(s, EMPTY, init).groups && was.first == g.first;
          var i :| 0 <= i < |init| && init[i].Packet? && init[i].now == was.first && InTimeSince(s, init, i, was.first);
          assert events[i] == init[i] && InTimeSince(s, events, i, g.first);
        } else {
          assert events[last].now == g.first && InTimeSince(s, events, last, g.first);
        }
      }
    }
  }
}
