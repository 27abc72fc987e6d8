/** The receiver as it is implemented: per group one byte buffer of the full size, a bitset of
    received chunks and a received count, all updated in place. Every method is proved to act on the
    abstract machine of `Reassembly.dfy`, which the object carries as its ghost field `view`.

    Models src/packetization/src/packetization.cpp. */
module ReassemblyImplementation {
  import opened Bytes
  import opened PacketFormat
  import opened Reassembly
  import opened ChunkBits
  import Runs = ReassemblyRuns
  import Rules = ReassemblyRules

  datatype IncompleteByteGroup = IncompleteByteGroup(
    groupId: nat,
    groupBytes: u32,
    chunkPayloadCapacity: u32,
    chunkCount: u16,
    receivedCount: nat,
    firstReceivedTime: int,
    bytes: seq<byte>,
    receivedChunks: seq<Word>)

  ghost predicate Shaped(g: IncompleteByteGroup) {
    && g.groupBytes > 0 && g.chunkPayloadCapacity > 0
    && g.chunkCount == CeilingDivide(g.groupBytes, g.chunkPayloadCapacity)
    && |g.bytes| == g.groupBytes
    && |g.receivedChunks| == (g.chunkCount + 63) / 64
  }

  /** The buffer, the bitset and the count hold exactly the chunks of the abstract group. */
  ghost predicate Represents(g: IncompleteByteGroup, a: Group) {
    && Shaped(g)
    && a.id == g.groupId && a.size == g.groupBytes && a.capacity == g.chunkPayloadCapacity
    && a.count == g.chunkCount && a.first == g.firstReceivedTime
    && g.receivedCount == |a.chunks|
    && (forall i :: i in a.chunks ==> i < g.chunkCount)
    && (forall i :: 0 <= i < g.chunkCount ==> (Marked(g.receivedChunks, i) <==> i in a.chunks))
    && (forall i :: i in a.chunks ==> a.chunks[i] == ChunkOf(g.bytes, g.chunkPayloadCapacity, i))
  }

  ghost predicate RepresentsAll(groups: seq<IncompleteByteGroup>, view: seq<Group>) {
    |groups| == |view| && forall i :: 0 <= i < |groups| ==> Represents(groups[i], view[i])
  }

  /** Copies a chunk to its offset and marks its bit. */
  function Filed(g: IncompleteByteGroup, index: nat, offset: nat, payload: seq<byte>): IncompleteByteGroup
    requires offset + |payload| <= |g.bytes| && index < WORD_BITS * |g.receivedChunks|
  {
    g.(bytes := g.bytes[..offset] + payload + g.bytes[offset + |payload|..],
       receivedChunks := Mark(g.receivedChunks, index),
       receivedCount := g.receivedCount + 1)
  }

  lemma FiledBytes(bytes: seq<byte>, capacity: nat, index: nat, payload: seq<byte>, other: nat)
    requires |bytes| > 0 && capacity > 0 && index < CeilingDivide(|bytes|, capacity)
    requires other < CeilingDivide(|bytes|, capacity)
    requires |payload| == ChunkEnd(|bytes|, capacity, index) - ChunkStart(capacity, index)
    ensures var offset := ChunkStart(capacity, index);
      && offset + |payload| <= |bytes|
      && ChunkOf(bytes[..offset] + payload + bytes[offset + |payload|..], capacity, other)
          == if other == index then payload else ChunkOf(bytes, capacity, other)
  {
    ChunkRange(|bytes|, capacity, index);
    ChunkRange(|bytes|, capacity, other);
    if other < index {
      ChunkRanges(|bytes|, capacity, other, index);
    } else if index < other {
      ChunkRanges(|bytes|, capacity, index, other);
    }
  }

  /** Filing a chunk in the buffer and the bitset adds exactly that chunk to the abstract group. */
  lemma FileChunk(g: IncompleteByteGroup, a: Group, index: nat, payload: seq<byte>)
    requires Represents(g, a) && index < g.chunkCount && index !in a.chunks
    requires |payload| == ChunkEnd(g.groupBytes, g.chunkPayloadCapacity, index)
                        - ChunkStart(g.chunkPayloadCapacity, index)
    ensures var offset := ChunkStart(g.chunkPayloadCapacity, index);
      && offset + |payload| <= |g.bytes|
      && Represents(Filed(g, index, offset, payload), Runs.WithChunk(a, index, payload))
  {
    hide Marked, Mark, ChunkOf, CeilingDivide;
    ChunkRange(g.groupBytes, g.chunkPayloadCapacity, index);
    var filed := Filed(g, index, ChunkStart(g.chunkPayloadCapacity, index), payload);
    var b := Runs.WithChunk(a, index, payload);
    forall i: nat | i < g.chunkCount
      ensures Marked(filed.receivedChunks, i) <==> i in b.chunks
    {
      MarkSetsOne(g.receivedChunks, index, i);
    }
    forall i | i in b.chunks
      ensures b.chunks[i] == ChunkOf(filed.bytes, g.chunkPayloadCapacity, i)
    {
      FiledBytes(g.bytes, g.chunkPayloadCapacity, index, payload, i);
    }
  }

  /** With every bit set, the buffer is the assembled group. */
  lemma FullBuffer(g: IncompleteByteGroup, a: Group)
    requires Represents(g, a) && g.receivedCount == g.chunkCount
    ensures Assemble(a.chunks, a.count) == g.bytes
  {
    assert |a.chunks| == |a.chunks.Keys|;
    Runs.FullExactly(a.chunks.Keys, g.chunkCount);
    Runs.AssembleAll(g.bytes, g.chunkPayloadCapacity, a.chunks);
  }

  /** What the group's metadata tells without looking at its chunks. */
  lemma SameData(g: IncompleteByteGroup, a: Group)
    requires Represents(g, a)
    ensures a.id == g.groupId && a.size == g.groupBytes && a.capacity == g.chunkPayloadCapacity
    ensures a.count == g.chunkCount && a.first == g.firstReceivedTime && g.receivedCount == |a.chunks|
    ensures |g.bytes| == g.groupBytes && |g.receivedChunks| == (g.chunkCount + 63) / 64
  {
  }

  lemma SameMark(g: IncompleteByteGroup, a: Group, index: nat)
    requires Represents(g, a) && index < g.chunkCount
    ensures Marked(g.receivedChunks, index) <==> index in a.chunks
  {
  }

  function RetainConcrete(groups: seq<IncompleteByteGroup>, keep: Keep): seq<IncompleteByteGroup> {
    if groups == [] then []
    else
      var last := groups[|groups| - 1];
      RetainConcrete(groups[..|groups| - 1], keep)
      + if Keeps(keep, last.groupId, last.firstReceivedTime) then [last] else []
  }

  lemma {:induction false} RetainRepresents(groups: seq<IncompleteByteGroup>, view: seq<Group>, keep: Keep)
    requires RepresentsAll(groups, view)
    ensures RepresentsAll(RetainConcrete(groups, keep), Retain(view, keep))
  {
    hide Represents, Keeps;
    if groups != [] {
      var last := |groups| - 1;
      SameData(groups[last], view[last]);
      RetainRepresents(groups[..last], view[..last], keep);
    }
  }

  lemma {:induction false} RetainConcreteMember(groups: seq<IncompleteByteGroup>, timeout: int, now: int,
                                                g: IncompleteByteGroup)
    ensures g in RetainConcrete(groups, Unexpired(timeout, now)) <==>
      g in groups && (now < g.firstReceivedTime || now - g.firstReceivedTime < timeout)
  {
    if groups != [] {
      var init := groups[..|groups| - 1];
      RetainConcreteMember(init, timeout, now, g);
      assert groups == init + [groups[|groups| - 1]];
    }
  }

  lemma StillInTime(s: Settings, groups: seq<IncompleteByteGroup>, view: seq<Group>, now: int)
    requires RepresentsAll(groups, view) && Rules.InTime(s, view, now)
    ensures forall g :: g in groups ==> now < g.firstReceivedTime || now - g.firstReceivedTime < s.reassemblyTimeout
  {
    assert forall i :: 0 <= i < |groups| ==> Represents(groups[i], view[i]);
  }

  /** `std::erase_if` over the retained groups. */
  method EraseIf(groups: seq<IncompleteByteGroup>, keep: Keep) returns (kept: seq<IncompleteByteGroup>)
    ensures kept == RetainConcrete(groups, keep)
  {
    kept := [];
    for i := 0 to |groups|
      invariant kept == RetainConcrete(groups[..i], keep)
    {
      assert groups[..i + 1][..i] == groups[..i];
      if Keeps(keep, groups[i].groupId, groups[i].firstReceivedTime) {
        kept := kept + [groups[i]];
      }
    }
    assert groups[..|groups|] == groups;
  }

  lemma RepresentedFields(g: IncompleteByteGroup, a: Group)
    requires Represents(g, a)
    ensures a.id == g.groupId && a.size == g.groupBytes && a.capacity == g.chunkPayloadCapacity
    ensures a.count == g.chunkCount && a.first == g.firstReceivedTime
  {
  }

  /** A group without a chunk: a zeroed buffer and cleared words. */
  lemma FreshRepresents(h: PacketHeader, capacity: u32, now: int, bytes: seq<byte>, words: seq<Word>)
    requires 0 < h.groupBytes <= U32_MAX && 0 < capacity && h.chunkCount <= U16_MAX
    requires ChunkGeometryIsConsistent(h, capacity)
    requires |bytes| == h.groupBytes && words == seq((h.chunkCount + 63) / 64, i => ClearWord())
    ensures Represents(IncompleteByteGroup(h.groupId, h.groupBytes, capacity, h.chunkCount, 0, now, bytes, words),
                       Group(h.groupId, h.groupBytes, capacity, h.chunkCount, now, map[]))
  {
  }

  lemma FindAppended(groups: seq<Group>, g: Group)
    requires Find(groups, g.id) == |groups|
    ensures Find(groups + [g], g.id) == |groups|
    decreases groups
  {
    if groups != [] {
      FindAppended(groups[1..], g);
      assert (groups + [g])[1..] == groups[1..] + [g];
    }
  }

  lemma {:induction false} FindUpdated(groups: seq<Group>, k: nat, g: Group)
    requires k < |groups| && k == Find(groups, groups[k].id) && g.id == groups[k].id
    ensures Find(groups[k := g], g.id) == k
  {
    if k > 0 {
      FindUpdated(groups[1..], k - 1, g);
      assert groups[k := g][1..] == groups[1..][k - 1 := g];
    }
  }

  class ReassemblyState {
    ghost var view: State

    var latestCommittedGroup: nat
    var incomplete: seq<IncompleteByteGroup>
    var report: Report

    ghost predicate Valid()
      reads this
    {
      && view.committed == latestCommittedGroup
      && view.report == report
      && RepresentsAll(incomplete, view.groups)
    }

    constructor ()
      ensures Valid() && view == EMPTY
    {
      latestCommittedGroup := 0;
      incomplete := [];
      report := EMPTY_REPORT;
      view := EMPTY;
    }

    method ClearReassemblyState()
      modifies this
      ensures Valid() && view == EMPTY
    {
      latestCommittedGroup := 0;
      incomplete := [];
      report := EMPTY_REPORT;
      view := EMPTY;
    }

    method UpdateCurrentReport()
      requires Valid()
      modifies this`report, this`view
      ensures Valid() && view == Refresh(old(view))
      ensures report.expiredGroups == old(report.expiredGroups)
    {
      var bytes := 0;
      for i := 0 to |incomplete|
        invariant bytes == TotalBytes(view.groups[..i])
      {
        bytes := bytes + incomplete[i].groupBytes;
        assert view.groups[..i + 1][..i] == view.groups[..i];
        assert Represents(incomplete[i], view.groups[i]);
      }
      assert view.groups[..|incomplete|] == view.groups;
      report := report.(incompleteGroups := Narrow(|incomplete|), retainedIncompleteBytes := Narrow(bytes));
      view := Refresh(view);
    }

    /** The position of the group, or the end. */
    method FindGroup(groupId: nat) returns (index: nat)
      requires Valid()
      ensures index == Find(view.groups, groupId)
    {
      ghost var groups := view.groups;
      index := 0;
      while index < |incomplete| && incomplete[index].groupId != groupId
        invariant index <= |incomplete|
        invariant Find(groups, groupId) == index + Find(groups[index..], groupId)
      {
        assert Represents(incomplete[index], groups[index]);
        assert groups[index..][1..] == groups[index + 1..];
        index := index + 1;
      }
      if index < |incomplete| {
        assert Represents(incomplete[index], groups[index]);
      }
    }

    method EraseUnless(keep: Keep)
      requires Valid()
      modifies this`incomplete, this`view
      ensures Valid() && view == old(view).(groups := Retain(old(view).groups, keep))
      ensures incomplete == RetainConcrete(old(incomplete), keep)
    {
      hide Represents, Keeps;
      RetainRepresents(incomplete, view.groups, keep);
      incomplete := EraseIf(incomplete, keep);
      view := view.(groups := Retain(view.groups, keep));
    }

    method ExpireIncompleteGroups(s: Settings, now: int)
      requires Valid()
      modifies this
      ensures Valid() && view == Expire(s, old(view), now)
      ensures forall g :: g in incomplete <==>
        g in old(incomplete) && (now < g.firstReceivedTime || now - g.firstReceivedTime < s.reassemblyTimeout)
      ensures report.expiredGroups == old(report.expiredGroups) + |old(incomplete)| - |incomplete|
    {
      var before := |incomplete|;
      forall g {
        RetainConcreteMember(incomplete, s.reassemblyTimeout, now, g);
      }
      EraseUnless(Unexpired(s.reassemblyTimeout, now));
      report := report.(expiredGroups := report.expiredGroups + before - |incomplete|);
      view := view.(report := report);
      UpdateCurrentReport();
    }

    method CommitReassembledGroup(groupId: nat)
      requires Valid()
      modifies this
      ensures Valid() && view == Commit(old(view), groupId)
    {
      if groupId <= latestCommittedGroup {
        return;
      }
      latestCommittedGroup := groupId;
      view := view.(committed := groupId);
      EraseUnless(AtLeast(groupId));
      UpdateCurrentReport();
    }

    method EraseIncompleteGroup(groupId: nat)
      requires Valid()
      modifies this
      ensures Valid()
      ensures var was := old(view);
        var k := Find(was.groups, groupId);
        view == if k < |was.groups| then Refresh(was.(groups := Without(was.groups, k))) else was
    {
      hide Represents;
      var found := FindGroup(groupId);
      if found == |incomplete| {
        return;
      }
      incomplete := incomplete[..found] + incomplete[found + 1..];
      view := view.(groups := Without(view.groups, found));
      UpdateCurrentReport();
    }

    method RejectGroup(groupId: nat, reason: Reason) returns (result: Result)
      requires Valid()
      modifies this
      ensures Valid() && (view, result) == Reject(old(view), groupId, reason)
    {
      EraseIncompleteGroup(groupId);
      report := report.(invalidGroups := report.invalidGroups + 1);
      view := CountInvalid(view);
      result := Invalid(groupId, reason);
    }

    method AcceptRawGroup(s: Settings, packet: seq<byte>) returns (result: Result)
      requires Valid()
      modifies this`report, this`view
      ensures Valid() && (view, result) == AcceptRaw(s, old(view), packet)
    {
      if packet == [] || |packet| > s.maxPayloadBytes || |packet| > s.maxGroupBytes {
        report := report.(invalidGroups := report.invalidGroups + 1);
        result := Invalid(0, RawPayloadOutsideBounds);
      } else {
        report := report.(uniqueChunks := report.uniqueChunks + 1,
                          completedGroups := report.completedGroups + 1,
                          latestCompletedGroupBytes := |packet|);
        result := Complete(0, 1, |packet|, packet);
      }
      view := view.(report := report);
    }

    /** Finds or makes room for the chunk's group; otherwise says why not. */
    method AdmitIncompleteGroup(s: Settings, h: PacketHeader, now: int, ghost payload: seq<byte>)
      returns (index: Option<nat>, rejection: Result)
      requires Valid() && ValidSettings(s) && s.enabled
      requires 0 < h.groupBytes <= s.maxGroupBytes && h.chunkCount <= U16_MAX
      requires ChunkGeometryIsConsistent(h, ChunkCapacity(s))
      modifies this
      ensures Valid()
      ensures var accepted := AcceptChunk(s, old(view), h, ChunkCapacity(s), payload, now);
        match index
        case None => (view, rejection) == accepted
        case Some(k) =>
          && k < |incomplete|
          && k == Find(view.groups, h.groupId)
          && incomplete[k].groupId == h.groupId
          && incomplete[k].groupBytes == h.groupBytes
          && incomplete[k].chunkPayloadCapacity == ChunkCapacity(s)
          && accepted == Receive(view, k, h.chunkIndex, payload)
    {
      hide Represents, ChunkGeometryIsConsistent, Receive, Reject, Find, TotalBytes, Narrow, Assemble, CeilingDivide;
      rejection := LimitExceeded(h.groupId);
      var capacity := ChunkCapacity(s);
      var found := FindGroup(h.groupId);
      if found < |incomplete| {
        var g := incomplete[found];
        RepresentedFields(g, view.groups[found]);
        if g.groupBytes != h.groupBytes || g.chunkCount != h.chunkCount || g.chunkPayloadCapacity != capacity {
          rejection := RejectGroup(h.groupId, MetadataConflict);
          return None, rejection;
        }
        return Some(found), rejection;
      }
      if |incomplete| >= s.maxInFlightGroups || report.retainedIncompleteBytes + h.groupBytes > s.maxIncompleteBytes {
        return None, rejection;
      }
      var words := seq((h.chunkCount + 63) / 64, i => ClearWord());
      var g := IncompleteByteGroup(h.groupId, h.groupBytes, capacity, h.chunkCount, 0, now,
                                   seq(h.groupBytes, i => 0), words);
      ghost var a := Group(h.groupId, h.groupBytes, capacity, h.chunkCount, now, map[]);
      FreshRepresents(h, capacity, now, g.bytes, words);
      FindAppended(view.groups, a);
      incomplete := incomplete + [g];
      view := view.(groups := view.groups + [a]);
      UpdateCurrentReport();
      return Some(found), rejection;
    }

    /** A chunk that is already held must carry the same bytes. */
    method AcceptRepeatedChunk(k: nat, h: PacketHeader, payload: seq<byte>, offset: nat) returns (result: Result)
      requires Valid() && k < |incomplete| && h.groupId == incomplete[k].groupId
      requires h.chunkIndex < incomplete[k].chunkCount && Marked(incomplete[k].receivedChunks, h.chunkIndex)
      requires offset == ChunkStart(incomplete[k].chunkPayloadCapacity, h.chunkIndex)
      requires offset + |payload|
          == ChunkEnd(incomplete[k].groupBytes, incomplete[k].chunkPayloadCapacity, h.chunkIndex)
      modifies this
      ensures Valid() && (view, result) == Receive(old(view), k, h.chunkIndex, payload)
    {
      assert Represents(incomplete[k], view.groups[k]);
      ChunkRange(incomplete[k].groupBytes, incomplete[k].chunkPayloadCapacity, h.chunkIndex);
      if incomplete[k].bytes[offset..offset + |payload|] != payload {
        result := RejectGroup(h.groupId, DuplicatePayloadConflict);
        return;
      }
      report := report.(duplicateChunks := report.duplicateChunks + 1);
      view := view.(report := report);
      result := Duplicate(h.groupId);
    }

    /** Files a chunk whose header has been validated under the group at `k`. */
    method AcceptValidatedChunk(k: nat, h: PacketHeader, payload: seq<byte>, offset: nat) returns (result: Result)
      requires Valid() && k < |incomplete| && h.groupId == incomplete[k].groupId
      requires k == Find(view.groups, h.groupId)
      requires h.chunkIndex < incomplete[k].chunkCount
      requires offset == ChunkStart(incomplete[k].chunkPayloadCapacity, h.chunkIndex)
      requires offset + |payload|
          == ChunkEnd(incomplete[k].groupBytes, incomplete[k].chunkPayloadCapacity, h.chunkIndex)
      modifies this
      ensures Valid() && (view, result) == Receive(old(view), k, h.chunkIndex, payload)
    {
      hide Represents, Marked;
      var g := incomplete[k];
      ghost var a := view.groups[k];
      SameData(g, a);
      SameMark(g, a, h.chunkIndex);
      if Marked(g.receivedChunks, h.chunkIndex) {
        result := AcceptRepeatedChunk(k, h, payload, offset);
        return;
      }
      FileChunk(g, a, h.chunkIndex, payload);
      g := Filed(g, h.chunkIndex, offset, payload);
      a := Runs.WithChunk(a, h.chunkIndex, payload);
      SameData(g, a);
      FindUpdated(view.groups, k, a);
      incomplete := incomplete[k := g];
      report := report.(uniqueChunks := report.uniqueChunks + 1);
      view := view.(groups := view.groups[k := a], report := report);
      if g.receivedCount != g.chunkCount {
        return Incomplete(h.groupId);
      }
      result := FinishGroup(k);
    }

    method FinishGroup(k: nat) returns (result: Result)
      requires Valid() && k < |incomplete| && incomplete[k].receivedCount == incomplete[k].chunkCount
      requires k == Find(view.groups, incomplete[k].groupId)
      modifies this
      ensures Valid() && (view, result) == Finish(old(view), k)
    {
      hide Represents;
      var g := incomplete[k];
      SameData(g, view.groups[k]);
      FullBuffer(g, view.groups[k]);
      result := Complete(g.groupId, g.chunkCount, g.groupBytes + g.chunkCount * PACKET_HEADER_BYTES, g.bytes);
      EraseIncompleteGroup(g.groupId);
      report := report.(completedGroups := report.completedGroups + 1, latestCompletedGroupBytes := |g.bytes|);
      view := view.(report := report);
    }

    /** One packet from the channel. */
    method AcceptGroupPacket(s: Settings, packet: seq<byte>, now: int) returns (outcome: Checked<Result>)
      requires Valid()
      modifies this
      ensures Valid()
      ensures !ValidSettings(s) ==> outcome.Thrown? && view == old(view)
      ensures ValidSettings(s) ==> outcome.Returned? && (view, outcome.value) == Accept(s, old(view), packet, now)
      ensures ValidSettings(s) ==> forall g :: g in incomplete ==>
        now < g.firstReceivedTime || now - g.firstReceivedTime < s.reassemblyTimeout
    {
      hide Represents, Expire, DispatchRead, AcceptRaw, ReadHeader;
      if !ValidSettings(s) {
        return Thrown;
      }
      report := report.(receivedChunks := report.receivedChunks + 1);
      view := CountReceived(view);
      ExpireIncompleteGroups(s, now);
      var result;
      if s.enabled {
        result := AcceptRead(s, ReadHeader(packet), packet, now);
      } else {
        result := AcceptRawGroup(s, packet);
      }
      Rules.InTimeAfterPacket(s, old(view), packet, now);
      StillInTime(s, incomplete, view.groups, now);
      return Returned(result);
    }

    /** The checks on a packet's header, in the order of the code. */
    method AcceptRead(s: Settings, read: Option<PacketHeader>, packet: seq<byte>, now: int) returns (result: Result)
      requires Valid() && ValidSettings(s) && s.enabled
      requires read.Some? ==> |packet| >= PACKET_HEADER_BYTES
      modifies this
      ensures Valid() && (view, result) == DispatchRead(s, old(view), read, packet, now)
    {
      if read.None? {
        report := report.(invalidGroups := report.invalidGroups + 1);
        view := CountInvalid(view);
        return Invalid(0, ShorterThanHeader);
      }
      var h := read.value;
      if !HeaderIdentityIsValid(h) {
        report := report.(invalidGroups := report.invalidGroups + 1);
        view := CountInvalid(view);
        return Invalid(0, IdentityOrVersionInvalid);
      }
      if !HeaderFieldsAreWithinBounds(s, h, |packet|) {
        result := RejectGroup(h.groupId, FieldsOutsideBounds);
        return;
      }
      if h.groupId <= latestCommittedGroup {
        report := report.(staleGroups := report.staleGroups + 1);
        view := view.(report := report);
        return Stale(h.groupId);
      }
      var capacity := ChunkCapacity(s);
      if !ChunkGeometryIsConsistent(h, capacity) {
        result := RejectGroup(h.groupId, CountOrOffsetInconsistent);
        return;
      }
      if !ChunkSizeIsConsistent(h, capacity) {
        result := RejectGroup(h.groupId, PayloadSizeInconsistent);
        return;
      }
      result := AcceptConsistentChunk(s, h, packet[PACKET_HEADER_BYTES..], now);
    }

    method AcceptConsistentChunk(s: Settings, h: PacketHeader, payload: seq<byte>, now: int) returns (result: Result)
      requires Valid() && ValidSettings(s) && s.enabled
      requires 0 < h.groupBytes <= s.maxGroupBytes && h.chunkIndex < h.chunkCount <= U16_MAX
      requires ChunkGeometryIsConsistent(h, ChunkCapacity(s)) && ChunkSizeIsConsistent(h, ChunkCapacity(s))
      requires |payload| == h.chunkBytes
      modifies this
      ensures Valid()
      ensures (view, result) == AcceptChunk(s, old(view), h, ChunkCapacity(s), payload, now)
    {
      var capacity := ChunkCapacity(s);
      var index, rejection := AdmitIncompleteGroup(s, h, now, payload);
      if index.None? {
        return rejection;
      }
      ChunkLength(h, capacity);
      assert Represents(incomplete[index.value], view.groups[index.value]);
      result := AcceptValidatedChunk(index.value, h, payload, ChunkStart(capacity, h.chunkIndex));
    }
  }
}
