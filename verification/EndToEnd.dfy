/** One server and one client over a packet channel that loses, reorders and duplicates: encoding,
    compression of whole updates or of single packets, packetization, on or off, reassembly, decoding and
    the client's world, all in one machine.

    Models the replication paths of app/server/server_replication.cppm and
    app/client/client_replication.cppm. */
module EndToEnd {
  import opened Bytes
  import opened PacketFormat
  import opened Compression
  import R = Reassembly
  import Channel = ReassemblyRuns
  import Rules = CompressionRules
  import Wire = PipelineWire
  import Encoding = PipelineEncode
  import Decoding = PipelineDecode
  import RoundTrip = PipelineRoundTrip
  import Pipelines = PipelineRuns
  import World = GameClient

  datatype Mode = Uncompressed | WholeUpdate | PerPacket

  /** What both ends share, and the limits of the client's decompressor. */
  datatype Link = Link(p: Wire.Pipeline, s: Settings, mode: Mode, codec: FrameCodec, level: int, receiver: Limits)

  /** Both ends refuse to start with a transport payload limit below the packet payload limit. */
  ghost predicate ValidLink(k: Link) {
    && ValidSettings(k.s) && Lawful(k.codec)
    && k.receiver.maxUncompressedBytes >= k.s.maxPayloadBytes
    && k.receiver.maxOutputBytes >= k.s.maxPayloadBytes
  }

  // ---------------------------------------------------------------- the two compression stages

  function GroupLimits(s: Settings): Limits {
    Limits(s.maxGroupBytes, s.maxGroupBytes)
  }

  /** The bytes of an update as they are handed to packetization. */
  function Closed(k: Link, update: seq<byte>): Option<seq<byte>> {
    if k.mode != WholeUpdate then Some(update)
    else
      var compressed := CompressSpec(k.codec, update, k.level, GroupLimits(k.s), Always);
      if compressed.None? then None else Some(compressed.value.output)
  }

  /** The update in a completed group. */
  function Opened(k: Link, group: seq<byte>): Option<seq<byte>> {
    if k.mode != WholeUpdate then Some(group)
    else
      var decompressed := Decompress(k.codec, group, GroupLimits(k.s));
      if decompressed.None? then None else Some(decompressed.value.output)
  }

  lemma OpensWhatWasClosed(k: Link, update: seq<byte>)
    requires Lawful(k.codec) && Closed(k, update).Some?
    ensures Opened(k, Closed(k, update).value) == Some(update)
    ensures k.mode != WholeUpdate ==> Closed(k, update).value == update
  {
    if k.mode == WholeUpdate {
      EnvelopeRoundTrip(k.codec, update, k.level, GroupLimits(k.s), Always, GroupLimits(k.s));
    }
  }

  /** Which updates can be closed: without whole-update compression all of them, as they are; with it those whose
      envelope, around the frame or the update itself, whichever is shorter, fits a group. */
  lemma ClosedExactly(k: Link, update: seq<byte>)
    ensures k.mode != WholeUpdate ==> Closed(k, update) == Some(update)
    ensures k.mode == WholeUpdate ==>
      var frame := k.codec.compress(update, k.level);
      var limit := k.s.maxGroupBytes;
      && (Closed(k, update).Some? <==>
            && 1 <= k.level <= 19 && 0 < |update| <= limit
            && frame.Some? && |frame.value| <= 0xFFFF_FFFF
            && (17 + |frame.value| <= limit || 17 + |update| <= limit))
      && (Closed(k, update).Some? ==> |Closed(k, update).value| <= limit)
  {
    if k.mode == WholeUpdate {
      Rules.CompressedExactly(k.codec, update, k.level, Limits(k.s.maxGroupBytes, k.s.maxGroupBytes), Always);
      EnvelopeLayoutBytes();
    }
  }

  /** A packet as it is given to the transport. */
  function OnWire(k: Link, packet: seq<byte>): Option<seq<byte>> {
    if k.mode != PerPacket then Some(packet)
    else
      var compressed := CompressSpec(k.codec, packet, k.level, PacketLimits(k.s), OnlyWhenSmaller);
      if compressed.None? then None else Some(compressed.value.output)
  }

  function OffWire(k: Link, bytes: seq<byte>): Option<seq<byte>> {
    if k.mode != PerPacket then Some(bytes) else Detect(k.codec, bytes, k.receiver)
  }

  ghost predicate Genuine(k: Link, sent: Channel.Sent, id: nat, index: nat)
    requires ValidLink(k)
  {
    id in sent && index < Channel.ChunkCount(k.s, sent, id)
  }

  /** Without packetization a group is one packet. */
  function Packets(s: Settings, group: seq<byte>): nat
    requires ValidSettings(s)
  {
    if s.enabled then CeilingDivide(|group|, ChunkCapacity(s)) else 1
  }

  /** The group is one that preparation accepts, and every packet of it can be given to the transport. */
  ghost predicate Sendable(k: Link, id: u32, group: seq<byte>)
    requires ValidLink(k)
  {
    && id != 0 && 0 < |group| <= k.s.maxGroupBytes && (k.s.enabled || |group| <= k.s.maxPayloadBytes)
    && forall index :: 0 <= index < Packets(k.s, group) ==> OnWire(k, Packet(k.s, id, group, index)).Some?
  }

  lemma ComesOffTheWire(k: Link, id: u32, group: seq<byte>, index: nat)
    requires ValidLink(k) && Sendable(k, id, group) && index < Packets(k.s, group)
    requires k.mode == PerPacket ==> Unambiguous(k.s, group)
    ensures var packet := Packet(k.s, id, group, index);
      OnWire(k, packet).Some? && OffWire(k, OnWire(k, packet).value) == Some(packet)
  {
    if k.mode == PerPacket {
      var packet := Packet(k.s, id, group, index);
      if k.s.enabled {
        PacketIsNoEnvelope(k.s, id, group, index);
      }
      NeverLarger(k.codec, packet, k.level, PacketLimits(k.s));
      DetectRoundTrip(k.codec, packet, k.level, PacketLimits(k.s), k.receiver);
    }
  }

  /** An update never looks like an envelope: their magics differ. */
  lemma UpdateIsNoEnvelope(p: Wire.Pipeline, update: seq<byte>)
    requires Wire.InspectHeader(p, 0, update).Admitted?
    ensures !HasCompressionEnvelope(update)
  {
    Wire.UpdateLayoutBytes();
    FirstField(update, Wire.UPDATE_LAYOUT);
  }

  // ---------------------------------------------------------------- the machine

  datatype System = System(server: Pipelines.Server, sent: Channel.Sent, reassembly: R.State, client: Pipelines.Client)

  datatype Event =
    | Emitted(input: Encoding.EncodeInput, committed: bool)
    | Arrived(id: nat, index: nat, now: int, evicted: nat)
    | Timer(now: int)

  const START := System(Pipelines.FRESH_SERVER, map[], R.EMPTY, Pipelines.FRESH_CLIENT)

  /** An update is committed when it could be compressed and packetized and the transport took every
      packet; its group id is its sequence. */
  ghost function Emit(k: Link, system: System, input: Encoding.EncodeInput, committed: bool): System
    requires ValidLink(k)
  {
    var id := system.server.st.nextSequence;
    var server := Pipelines.Emit(k.p, system.server, input, committed);
    if server == system.server || id !in server.history || id > U32_MAX then system
    else
      var group := Closed(k, server.history[id].update.bytes);
      if group.None? || !Sendable(k, id, group.value) then system
      else system.(server := server, sent := system.sent[id := group.value])
  }

  /** A completed group: with packetization, an update that passes inspection under another sequence than
      the group's is fatal. */
  function ApplyGroup(k: Link, c: Pipelines.Client, id: nat, group: seq<byte>, evicted: nat)
    : (Pipelines.Client, Pipelines.Receipt)
  {
    var update := Opened(k, group);
    if update.None? then (c, Pipelines.Ignored)
    else
      var inspected := Wire.InspectHeader(k.p, c.latestRemote, update.value);
      if k.s.enabled && inspected.Admitted? && inspected.header.sequence != id then (c, Pipelines.Fatal)
      else Pipelines.Receive(k.p, c, update.value, evicted)
  }

  /** The group behind an applied update is committed, which drops the older ones. */
  function Deliver(k: Link, system: System, wire: seq<byte>, now: int, evicted: nat): System
    requires ValidLink(k)
  {
    var packet := OffWire(k, wire);
    if packet.None? then system
    else
      var (next, result) := R.Accept(k.s, system.reassembly, packet.value, now);
      if !result.Complete? then system.(reassembly := next)
      else
        var (client, receipt) := ApplyGroup(k, system.client, result.groupId, result.bytes, evicted);
        system.(client := client,
                reassembly := if receipt == Pipelines.Updated then R.Commit(next, client.latestRemote) else next)
  }

  /** What the transport was given for one packet of a group on its way. */
  ghost function Transmitted(k: Link, system: System, id: nat, index: nat): seq<byte>
    requires ValidLink(k) && SentRecorded(k, system) && Genuine(k, system.sent, id, index)
  {
    assert Sendable(k, id, system.sent[id]);
    OnWire(k, Packet(k.s, id, system.sent[id], index)).value
  }

  ghost function Step(k: Link, system: System, event: Event): System
    requires ValidLink(k) && Inv(k, system)
  {
    match event
    case Emitted(input, committed) => Emit(k, system, input, committed)
    case Timer(now) => system.(reassembly := R.Expire(k.s, system.reassembly, now))
    case Arrived(id, index, now, evicted) =>
      if !Genuine(k, system.sent, id, index) then system
      else Deliver(k, system, Transmitted(k, system, id, index), now, evicted)
  }

  // ---------------------------------------------------------------- the invariant

  /** Every group on its way holds the update recorded under its id. */
  ghost predicate SentRecorded(k: Link, system: System)
    requires ValidLink(k)
  {
    && Channel.ValidSent(k.s, system.sent)
    && forall id :: id in system.sent ==>
         && id in system.server.history
         && Sendable(k, id, system.sent[id])
         && (k.mode == PerPacket ==> Unambiguous(k.s, system.sent[id]))
         && Opened(k, system.sent[id]) == Some(system.server.history[id].update.bytes)
  }

  /** The receiver holds nothing but pieces of such groups, all newer than what the client shows: the
      watermark is the sequence of the world. */
  ghost predicate Receiving(k: Link, system: System)
    requires ValidLink(k) && Channel.ValidSent(k.s, system.sent)
  {
    && R.Inv(system.reassembly)
    && Channel.AllMatch(k.s, system.sent, system.reassembly)
    && Channel.StrictlyAboveWatermark(system.reassembly)
    && system.reassembly.committed == system.client.latestRemote
  }

  ghost predicate Inv(k: Link, system: System)
    requires ValidLink(k)
  {
    && Pipelines.ServerInv(k.p, system.server)
    && Pipelines.ClientInv(system.server.history, system.client)
    && SentRecorded(k, system)
    && Receiving(k, system)
  }

  // ---------------------------------------------------------------- steps

  lemma EmitKeeps(k: Link, system: System, input: Encoding.EncodeInput, committed: bool)
    requires ValidLink(k) && Inv(k, system)
    ensures Inv(k, Emit(k, system, input, committed))
  {
    hide Pipelines.Emit, Closed, Opened, Pipelines.Committed, R.Inv;
    var next := Emit(k, system, input, committed);
    Pipelines.EmitKeeps(k.p, system.server, input, committed);
    if next != system {
      var id := system.server.st.nextSequence;
      assert id !in system.server.history;
      OpensWhatWasClosed(k, next.server.history[id].update.bytes);
      EmittedIsNoEnvelope(k, next.server, id);
      assert Channel.ValidSent(k.s, next.sent);
      forall i | 0 <= i < |next.reassembly.groups|
        ensures Channel.Matches(k.s, next.sent, next.reassembly.groups[i])
      {
        assert Channel.Matches(k.s, system.sent, next.reassembly.groups[i]);
      }
      ClientGrows(system.server.history, next.server.history, system.client);
    }
  }

  /** An emission is on its way, under the sequence it used, exactly when the server made an update of it, was told to
      commit it, could close it and could hand every packet to the transport; otherwise nothing has changed. */
  lemma EmittedIsSent(k: Link, system: System, input: Encoding.EncodeInput, committed: bool)
    requires ValidLink(k) && Inv(k, system)
    ensures var id := system.server.st.nextSequence;
      var (outcome, st) := Encoding.Encode(k.p, system.server.st, input);
      var next := Emit(k, system, input, committed);
      && id !in system.sent
      && (id in next.sent <==>
            && Pipelines.ServerCall(k.p, system.server, input) && committed && outcome.Update?
            && Closed(k, outcome.update.bytes).Some?
            && id <= U32_MAX && Sendable(k, id, Closed(k, outcome.update.bytes).value))
      && (id in next.sent ==>
            && next.sent == system.sent[id := Closed(k, outcome.update.bytes).value]
            && next.server.st == st && id in next.server.history
            && next.server.history[id].update == outcome.update)
      && (id !in next.sent ==> next == system)
      && next.client == system.client && next.reassembly == system.reassembly
  {
    hide Encoding.Encode, Closed, Sendable, Receiving, Pipelines.ServerCall, Pipelines.ClientInv, Pipelines.Committed;
    hide Opened;
    var id := system.server.st.nextSequence;
    assert id !in system.server.history;
    if Pipelines.ServerCall(k.p, system.server, input) {
      Pipelines.CommittedIsRecorded(k.p, system.server, input, committed);
    }
  }

  lemma EmittedIsNoEnvelope(k: Link, server: Pipelines.Server, id: nat)
    requires Pipelines.ServerInv(k.p, server) && id in server.history
    ensures !HasCompressionEnvelope(server.history[id].update.bytes)
  {
    hide Wire.InspectHeader, Encoding.Encode, Encoding.Payload, Encoding.Upserted, Encoding.Deleted;
    hide Encoding.PlanOf, RoundTrip.Population, Encoding.Current, Wire.WriteUpdateHeader, HasCompressionEnvelope;
    var e := server.history[id];
    assert Pipelines.Committed(k.p, server.history, id);
    RoundTrip.PopulationFacts(Encoding.Current(k.p, e.input));
    Encoding.EmittedUpdateAdmitted(k.p, e.st, e.input, 0);
    UpdateIsNoEnvelope(k.p, e.update.bytes);
  }

  lemma ClientGrows(history: map<nat, Pipelines.Emission>, grown: map<nat, Pipelines.Emission>, c: Pipelines.Client)
    requires Pipelines.ClientInv(history, c)
    requires forall s :: s in history ==> s in grown && grown[s] == history[s]
    ensures Pipelines.ClientInv(grown, c)
  {
  }

  lemma TimerKeeps(k: Link, system: System, now: int)
    requires ValidLink(k) && Inv(k, system)
    ensures Receiving(k, system.(reassembly := R.Expire(k.s, system.reassembly, now)))
  {
    var keep := R.Unexpired(k.s.reassemblyTimeout, now);
    R.ExpireInv(k.s, system.reassembly, now);
    R.RetainKeeps(system.reassembly.groups, keep);
    Channel.MatchAfterRetain(k.s, system.sent, system.reassembly, keep, R.Expire(k.s, system.reassembly, now));
  }

  /** A raw packet has no header to name its group. */
  function GroupId(k: Link, id: nat): nat {
    if k.s.enabled then id else 0
  }

  /** What the reassembler makes of one genuine packet. */
  lemma PacketAccepted(k: Link, system: System, id: nat, index: nat, now: int)
    requires ValidLink(k) && Channel.ValidSent(k.s, system.sent) && Receiving(k, system)
    requires Genuine(k, system.sent, id, index)
    ensures var (next, result) := R.Accept(k.s, system.reassembly, Packet(k.s, id, system.sent[id], index), now);
      && Receiving(k, system.(reassembly := next))
      && (!k.s.enabled ==> result.Complete?)
      && (result.Complete? ==>
            && result.groupId == GroupId(k, id) && result.bytes == system.sent[id]
            && (k.s.enabled ==> id > system.client.latestRemote)
            && Channel.StrictlyAboveWatermark(R.Commit(next, id)))
  {
    hide R.Accept, R.Inv, R.Commit, R.Retained, R.Step, R.WithinBudget;
    hide Channel.AllMatch, Channel.TableStep, Channel.StrictlyAboveWatermark, Channel.ById, CeilingDivide, Packet,
        Lawful;
    var st := system.reassembly;
    var packet := Packet(k.s, id, system.sent[id], index);
    var (next, result) := R.Accept(k.s, st, packet, now);
    AcceptInv(k.s, st, packet, now);
    Channel.ChunkStep(k.s, system.sent, st, id, index, now);
    Channel.AcceptKeepsStrictness(k.s, st, packet, now);
    OutcomeFacts(k, system.sent, Channel.TableOf(st), id, index, now, Channel.TableOf(next), result);
    if !k.s.enabled {
      NothingRetained(k, system.sent, next, id);
    }
  }

  /** Without packetization no group is retained, and so none at any watermark. */
  lemma NothingRetained(k: Link, sent: Channel.Sent, st: R.State, id: nat)
    requires ValidLink(k) && !k.s.enabled && Channel.ValidSent(k.s, sent) && Channel.AllMatch(k.s, sent, st)
    ensures st.groups == [] && Channel.StrictlyAboveWatermark(R.Commit(st, id))
  {
    if st.groups != [] {
      RetainedNeedsHeaders(k, sent, st, 0);
    }
  }

  lemma RetainedNeedsHeaders(k: Link, sent: Channel.Sent, st: R.State, i: nat)
    requires ValidLink(k) && Channel.ValidSent(k.s, sent) && Channel.AllMatch(k.s, sent, st) && i < |st.groups|
    ensures k.s.enabled
  {
    assert Channel.Matches(k.s, sent, st.groups[i]);
  }

  lemma AcceptInv(s: Settings, st: R.State, packet: seq<byte>, now: int)
    requires ValidSettings(s) && R.Inv(st)
    ensures R.Inv(R.Accept(s, st, packet, now).0)
  {
    hide R.Accept, R.Inv;
    R.StepInv(s, st, R.Packet(packet, now));
  }

  /** Committing the group that was applied raises the watermark to the sequence of the world. */
  lemma CommitKeeps(k: Link, system: System, client: Pipelines.Client)
    requires ValidLink(k) && Channel.ValidSent(k.s, system.sent) && Receiving(k, system)
    requires client.latestRemote > system.client.latestRemote
    requires Channel.StrictlyAboveWatermark(R.Commit(system.reassembly, client.latestRemote))
    ensures Receiving(k, system.(client := client, reassembly := R.Commit(system.reassembly, client.latestRemote)))
  {
    hide R.Inv, Channel.AllMatch, Channel.StrictlyAboveWatermark;
    var id := client.latestRemote;
    R.CommitInv(k.s, system.reassembly, id);
    Channel.MatchAfterRetain(k.s, system.sent, system.reassembly, R.AtLeast(id), R.Commit(system.reassembly, id));
  }

  lemma OutcomeFacts(k: Link, sent: Channel.Sent, table: Channel.Table, id: nat, index: nat, now: int,
                     next: Channel.Table, result: R.Result)
    requires ValidLink(k) && Channel.ValidSent(k.s, sent) && Genuine(k, sent, id, index)
    requires Channel.TableStep(k.s, sent, table, Channel.Chunk(id, index, now), next, Some(result))
    ensures next.committed == table.committed
    ensures !k.s.enabled ==> result.Complete?
    ensures result.Complete? ==> result.groupId == GroupId(k, id) && result.bytes == sent[id]
    ensures result.Complete? && k.s.enabled ==> id > table.committed
  {
    hide Channel.TableAfter, Channel.Upto, Channel.Kept, Channel.Held, PrepareByteGroup;
    var live := table.(groups := Channel.Kept(table.groups, R.Unexpired(k.s.reassemblyTimeout, now)));
    var refused :| Channel.ChunkOutcome(k.s, sent, live, refused, id, index, now, next, result);
  }

  /** What the client makes of one completed group. */
  lemma GroupApplied(k: Link, system: System, id: nat, evicted: nat)
    requires ValidLink(k) && Inv(k, system) && id in system.sent
    ensures var (next, receipt) := ApplyGroup(k, system.client, GroupId(k, id), system.sent[id], evicted);
      var e := system.server.history[id];
      && Pipelines.ClientInv(system.server.history, next)
      && (receipt == Pipelines.Updated <==>
            id > system.client.latestRemote && Pipelines.BaselineKept(k.p, system.client, e)
            && Pipelines.Decodable(k.p, e) && Pipelines.WorldTakes(k.p, system.client, e))
      && (receipt == Pipelines.Updated ==>
            next.latestRemote == id && World.Contents(next.world) == e.update.resulting.entities)
      && (receipt != Pipelines.Updated ==> next == system.client)
  {
    hide Pipelines.Receive, Pipelines.BaselineKept, Pipelines.Decodable, Pipelines.WorldTakes, Wire.InspectHeader;
    hide Opened, Sendable, Receiving;
    InspectsAsItself(k, system, id);
    Pipelines.ReceiveRecorded(k.p, system.server, system.client, id, evicted);
  }

  /** No recorded update ever passes inspection under a sequence that is not its group's. */
  lemma InspectsAsItself(k: Link, system: System, id: nat)
    requires ValidLink(k) && Pipelines.ServerInv(k.p, system.server) && id in system.server.history
    ensures var inspected := Wire.InspectHeader(
        k.p, system.client.latestRemote, system.server.history[id].update.bytes);
      inspected.Admitted? ==> inspected.header.sequence == id
  {
    hide Wire.InspectHeader, Encoding.Encode, Encoding.Payload, Encoding.Upserted, Encoding.Deleted;
    hide Encoding.PlanOf, RoundTrip.Population, Encoding.Current, Wire.WriteUpdateHeader;
    var e := system.server.history[id];
    assert Pipelines.Committed(k.p, system.server.history, id);
    if id <= system.client.latestRemote {
      Pipelines.StaleIgnored(k.p, system.server.history, id, system.client.latestRemote);
    } else {
      RoundTrip.PopulationFacts(Encoding.Current(k.p, e.input));
      Encoding.EmittedUpdateAdmitted(k.p, e.st, e.input, system.client.latestRemote);
    }
  }

  /** What one arrival does: nothing more than the reassembler and the client do of the packet as sent. */
  lemma ArrivalStep(k: Link, system: System, id: nat, index: nat, now: int, evicted: nat)
    requires ValidLink(k) && Inv(k, system) && Genuine(k, system.sent, id, index)
    ensures var (next, result) := R.Accept(k.s, system.reassembly, Packet(k.s, id, system.sent[id], index), now);
      var (client, receipt) := ApplyGroup(k, system.client, GroupId(k, id), system.sent[id], evicted);
      Step(k, system, Arrived(id, index, now, evicted))
      == if !result.Complete? then system.(reassembly := next)
         else if receipt == Pipelines.Updated
         then system.(client := client, reassembly := R.Commit(next, client.latestRemote))
         else system.(client := client, reassembly := next)
  {
    hide R.Accept, R.Commit, ApplyGroup, Pipelines.ServerInv, Pipelines.ClientInv, Sendable, OnWire, OffWire, Receiving;
    ComesOffTheWire(k, id, system.sent[id], index);
    PacketAccepted(k, system, id, index, now);
  }

  lemma ArrivalKeeps(k: Link, system: System, id: nat, index: nat, now: int, evicted: nat)
    requires ValidLink(k) && Inv(k, system) && Genuine(k, system.sent, id, index)
    ensures Inv(k, Step(k, system, Arrived(id, index, now, evicted)))
  {
    hide R.Accept, R.Commit, ApplyGroup, Step, Pipelines.ServerInv, Pipelines.ClientInv, Sendable, Receiving;
    hide Pipelines.BaselineKept, Pipelines.Decodable, Pipelines.WorldTakes, Packet, Opened, Lawful;
    ArrivalStep(k, system, id, index, now, evicted);
    PacketAccepted(k, system, id, index, now);
    GroupApplied(k, system, id, evicted);
    var (next, result) := R.Accept(k.s, system.reassembly, Packet(k.s, id, system.sent[id], index), now);
    var (client, receipt) := ApplyGroup(k, system.client, GroupId(k, id), system.sent[id], evicted);
    if result.Complete? && receipt == Pipelines.Updated {
      CommitKeeps(k, system.(reassembly := next), client);
    }
  }

  lemma StepKeeps(k: Link, system: System, event: Event)
    requires ValidLink(k) && Inv(k, system)
    ensures Inv(k, Step(k, system, event))
  {
    match event
    case Emitted(input, committed) =>
      EmitKeeps(k, system, input, committed);
    case Timer(now) =>
      TimerKeeps(k, system, now);
    case Arrived(id, index, now, evicted) =>
      if Genuine(k, system.sent, id, index) {
        ArrivalKeeps(k, system, id, index, now, evicted);
      }
  }

  // ---------------------------------------------------------------- runs

  ghost function Run(k: Link, system: System, events: seq<Event>): System
    requires ValidLink(k) && Inv(k, system)
    decreases events
  {
    if events == [] then system
    else
      StepKeeps(k, system, events[0]);
      Run(k, Step(k, system, events[0]), events[1..])
  }

  lemma StartInv(k: Link)
    requires ValidLink(k)
    ensures Inv(k, START)
  {
    World.EmptyConsistent(1);
  }

  lemma {:induction false} RunKeeps(k: Link, system: System, events: seq<Event>)
    requires ValidLink(k) && Inv(k, system)
    ensures Inv(k, Run(k, system, events))
    decreases events
  {
    hide Inv, Step;
    if events != [] {
      StepKeeps(k, system, events[0]);
      RunKeeps(k, Step(k, system, events[0]), events[1..]);
    }
  }

  /** Under all valid settings and in every compression mode, over every run of emissions, packet arrivals
      in any order and number, timeouts and evictions: the client's world shows exactly the snapshot that
      the server recorded for the sequence the client applied last, that sequence is the reassembler's
      watermark, and every group it still retains is newer and made of what was sent under its id. */
  lemma WorldAgreesWithServer(k: Link, events: seq<Event>)
    requires ValidLink(k)
    ensures Inv(k, START)
    ensures var end := Run(k, START, events);
      var latest := end.client.latestRemote;
      && World.Sound(end.client.world)
      && (latest != 0 ==>
            latest in end.server.history
            && World.Contents(end.client.world) == end.server.history[latest].update.resulting.entities)
      && (latest == 0 ==> World.Contents(end.client.world) == [])
      && end.reassembly.committed == latest
      && (forall i :: 0 <= i < |end.reassembly.groups| ==>
            end.reassembly.groups[i].id > latest && end.reassembly.groups[i].id in end.sent)
  {
    StartInv(k);
    RunKeeps(k, START, events);
    var end := Run(k, START, events);
    forall i | 0 <= i < |end.reassembly.groups|
      ensures end.reassembly.groups[i].id in end.sent
    {
      assert Channel.Matches(k.s, end.sent, end.reassembly.groups[i]);
    }
  }

  /** The arrival makes the client show the update it belongs to. */
  ghost predicate Shows(before: System, after: System, id: nat) {
    id > before.client.latestRemote && after.client.latestRemote == id
  }

  /** In every reachable state, an arriving packet makes the client show the update it belongs to exactly
      when it completes the group, the update is newer than what is shown, its baseline is kept, its values
      are valid and the world takes it. With packetization a completed group is always newer; without it
      every packet completes its group. Otherwise the client stays as it is. */
  lemma CompletionShows(k: Link, system: System, id: nat, index: nat, now: int, evicted: nat)
    requires ValidLink(k) && Inv(k, system) && Genuine(k, system.sent, id, index)
    ensures id in system.server.history
    ensures var result := R.Accept(k.s, system.reassembly, Packet(k.s, id, system.sent[id], index), now).1;
      var next := Step(k, system, Arrived(id, index, now, evicted));
      var e := system.server.history[id];
      && (k.s.enabled && result.Complete? ==> id > system.client.latestRemote)
      && (!k.s.enabled ==> result.Complete?)
      && (Shows(system, next, id) <==>
            && result.Complete? && id > system.client.latestRemote
            && Pipelines.BaselineKept(k.p, system.client, e) && Pipelines.Decodable(k.p, e)
            && Pipelines.WorldTakes(k.p, system.client, e))
      && (Shows(system, next, id) ==>
            World.Sound(next.client.world) && World.Contents(next.client.world) == e.update.resulting.entities)
      && (!Shows(system, next, id) ==> next.client == system.client)
  {
    hide R.Accept, R.Commit, ApplyGroup, Step, Pipelines.ServerInv, Sendable, Receiving;
    hide Pipelines.BaselineKept, Pipelines.Decodable, Pipelines.WorldTakes, Packet, Opened, Lawful;
    ArrivalStep(k, system, id, index, now, evicted);
    PacketAccepted(k, system, id, index, now);
    GroupApplied(k, system, id, evicted);
  }

  /** When the committed emissions follow the ticks of the simulation and hold what the world knows, the
      world never turns a newer update away. */
  lemma OrderedCompletionShows(k: Link, system: System, id: nat, index: nat, now: int, evicted: nat)
    requires ValidLink(k) && Inv(k, system) && Genuine(k, system.sent, id, index)
    requires Pipelines.TicksOrdered(system.server.history) && Pipelines.AllSupported(k.p, system.server.history)
    ensures var result := R.Accept(k.s, system.reassembly, Packet(k.s, id, system.sent[id], index), now).1;
      var e := system.server.history[id];
      Shows(system, Step(k, system, Arrived(id, index, now, evicted)), id) <==>
        && result.Complete? && id > system.client.latestRemote
        && Pipelines.BaselineKept(k.p, system.client, e) && Pipelines.Decodable(k.p, e)
  {
    hide R.Accept, Step, Sendable, Receiving, Shows, Packet, Lawful, Opened;
    hide Pipelines.ServerInv, Pipelines.ClientInv, Pipelines.TicksOrdered, Pipelines.AllSupported;
    hide Pipelines.BaselineKept, Pipelines.Decodable, Pipelines.WorldTakes;
    CompletionShows(k, system, id, index, now, evicted);
    if id > system.client.latestRemote {
      Pipelines.WorldTakesOrdered(k.p, system.server, system.client, id);
    }
  }

  // ---------------------------------------------------------------- all packets arrive

  /** Arrivals of packets of one group and of nothing else. */
  ghost predicate ArrivalsOf(k: Link, system: System, id: nat, events: seq<Event>)
    requires ValidLink(k)
  {
    forall i :: 0 <= i < |events| ==>
      events[i].Arrived? && events[i].id == id && Genuine(k, system.sent, id, events[i].index)
  }

  /** What the receiver sees of them. */
  function Traffic(events: seq<Event>): (traffic: seq<Channel.Traffic>)
    requires forall i :: 0 <= i < |events| ==> events[i].Arrived?
    ensures |traffic| == |events|
    ensures forall i :: 0 <= i < |events| ==>
      traffic[i] == Channel.Chunk(events[i].id, events[i].index, events[i].now)
  {
    seq(|events|, i requires 0 <= i < |events| => Channel.Chunk(events[i].id, events[i].index, events[i].now))
  }

  /** What an update still needs to be shown. */
  ghost predicate Showable(k: Link, system: System, id: nat)
    requires id in system.server.history
  {
    var e := system.server.history[id];
    && Pipelines.BaselineKept(k.p, system.client, e) && Pipelines.Decodable(k.p, e)
    && Pipelines.WorldTakes(k.p, system.client, e)
  }

  ghost predicate ShownNow(system: System, id: nat) {
    && system.client.latestRemote == id && id in system.server.history
    && World.Sound(system.client.world)
    && World.Contents(system.client.world) == system.server.history[id].update.resulting.entities
  }

  /** Once an update is shown, more packets of it change nothing that is shown. */
  lemma {:induction false} ShownStays(k: Link, system: System, id: nat, events: seq<Event>)
    requires ValidLink(k) && Inv(k, system) && ArrivalsOf(k, system, id, events) && ShownNow(system, id)
    ensures ShownNow(Run(k, system, events), id) && Run(k, system, events).server == system.server
    decreases events
  {
    hide Inv, Step, Genuine;
    if events != [] {
      var t := events[0];
      SingleArrival(k, system, id, t);
      var next := Step(k, system, t);
      ShownStays(k, next, id, events[1..]);
    }
  }

  /** What one arrival leaves as it was, and when it makes the client show the update. */
  lemma SingleArrival(k: Link, system: System, id: nat, t: Event)
    requires ValidLink(k) && Inv(k, system)
    requires t.Arrived? && t.id == id && Genuine(k, system.sent, id, t.index)
    ensures id in system.server.history
    ensures var (rest, result) := R.Accept(k.s, system.reassembly, Packet(k.s, id, system.sent[id], t.index), t.now);
      var next := Step(k, system, t);
      && Inv(k, next) && next.server == system.server && next.sent == system.sent
      && (result.Complete? && k.s.enabled ==> result.groupId == id)
      && (!result.Complete? ==> next == system.(reassembly := rest))
      && (result.Complete? && id > system.client.latestRemote && Showable(k, system, id) ==> ShownNow(next, id))
      && (id <= system.client.latestRemote ==> next.client == system.client)
  {
    hide R.Accept, R.Commit, ApplyGroup, Step, Sendable, Receiving, Opened, Lawful, Packet;
    hide Pipelines.BaselineKept, Pipelines.Decodable, Pipelines.WorldTakes, Pipelines.ServerInv, Pipelines.ClientInv;
    CompletionShows(k, system, id, t.index, t.now, t.evicted);
    ArrivalStep(k, system, id, t.index, t.now, t.evicted);
    StepKeeps(k, system, t);
    PacketAccepted(k, system, id, t.index, t.now);
  }

  /** What the reassembler alone answers to the arrivals. */
  ghost function Answers(k: Link, system: System, id: nat, events: seq<Event>): (answers: seq<Option<R.Result>>)
    requires ValidLink(k) && Channel.ValidSent(k.s, system.sent) && ArrivalsOf(k, system, id, events)
    ensures |answers| == |events|
  {
    R.Results(k.s, system.reassembly, Channel.ToEvents(k.s, system.sent, Traffic(events)))
  }

  lemma AnswersUnfold(k: Link, system: System, id: nat, events: seq<Event>)
    requires ValidLink(k) && Channel.ValidSent(k.s, system.sent) && ArrivalsOf(k, system, id, events) && events != []
    ensures events[0].id == id && Genuine(k, system.sent, id, events[0].index)
    ensures var (rest, result) :=
        R.Accept(k.s, system.reassembly, Packet(k.s, id, system.sent[id], events[0].index), events[0].now);
      && ArrivalsOf(k, system.(reassembly := rest), id, events[1..])
      && Answers(k, system, id, events)
         == [Some(result)] + Answers(k, system.(reassembly := rest), id, events[1..])
  {
    hide R.Accept, Packet, Lawful, Channel.ChunkCount;
    assert Traffic(events)[1..] == Traffic(events[1..]);
    assert Channel.Genuine(k.s, system.sent, Traffic(events)[0]);
  }

  /** When the reassembler alone would complete the group from the arrivals, the client ends up showing it. */
  lemma {:induction false} CompletedIsShown(k: Link, system: System, id: nat, events: seq<Event>)
    requires ValidLink(k) && Inv(k, system) && k.s.enabled && ArrivalsOf(k, system, id, events)
    requires id in system.sent && id > system.client.latestRemote && Showable(k, system, id)
    requires Channel.Completes(Answers(k, system, id, events), id)
    ensures ShownNow(Run(k, system, events), id) && Run(k, system, events).server == system.server
    decreases events
  {
    hide Inv, Step, Genuine, R.Accept, Showable, Answers, Packet, ShownNow, Channel.Completes, Channel.ValidSent;
    hide Lawful, Receiving;
    StateFacts(k, system);
    NoAnswerCompletes(Answers(k, system, id, events), id);
    var next := Step(k, system, events[0]);
    NotYetComplete(k, system, id, events);
    if ShownNow(next, id) {
      ShownStays(k, next, id, events[1..]);
    } else {
      CompletedIsShown(k, next, id, events[1..]);
    }
  }

  lemma NoAnswerCompletes(answers: seq<Option<R.Result>>, id: nat)
    requires Channel.Completes(answers, id)
    ensures answers != []
  {
  }

  lemma StateFacts(k: Link, system: System)
    requires ValidLink(k) && Inv(k, system)
    ensures Channel.ValidSent(k.s, system.sent) && Receiving(k, system)
  {
  }

  /** While the update is not shown, the rest of the arrivals still has to complete the group. */
  lemma NotYetComplete(k: Link, system: System, id: nat, events: seq<Event>)
    requires ValidLink(k) && Inv(k, system) && k.s.enabled && ArrivalsOf(k, system, id, events) && events != []
    requires id in system.sent && id > system.client.latestRemote && Showable(k, system, id)
    requires Channel.ValidSent(k.s, system.sent) && Channel.Completes(Answers(k, system, id, events), id)
    ensures Genuine(k, system.sent, id, events[0].index)
    ensures var next := Step(k, system, events[0]);
      && Inv(k, next) && ArrivalsOf(k, next, id, events[1..]) && next.server == system.server
      && (!ShownNow(next, id) ==>
            && next.client == system.client && next.sent == system.sent
            && Channel.ValidSent(k.s, next.sent) && Channel.Completes(Answers(k, next, id, events[1..]), id)
            && id in next.server.history && Showable(k, next, id))
  {
    hide Inv, Step, R.Accept, Answers, Packet, ShownNow, Channel.Completes, Lawful;
    hide Pipelines.BaselineKept, Pipelines.Decodable, Pipelines.WorldTakes, R.Inv;
    var t, answers := events[0], Answers(k, system, id, events);
    AnswersUnfold(k, system, id, events);
    SingleArrival(k, system, id, t);
    Channel.CompletesSplit(answers, id);
    var (rest, result) := R.Accept(k.s, system.reassembly, Packet(k.s, id, system.sent[id], t.index), t.now);
    assert answers[1..] == Answers(k, system.(reassembly := rest), id, events[1..]);
  }

  ghost predicate Arrives(events: seq<Event>, index: nat) {
    exists i :: 0 <= i < |events| && events[i].Arrived? && events[i].index == index
  }

  /** Every packet of the group arrives at least once, none of them later than the timeout after the first. */
  ghost predicate AllArriveInTime(k: Link, system: System, id: nat, events: seq<Event>)
    requires ValidLink(k) && ArrivalsOf(k, system, id, events) && id in system.sent
  {
    && events != []
    && (forall index: nat :: index < Packets(k.s, system.sent[id]) ==> Arrives(events, index))
    && (forall i :: 0 <= i < |events| ==>
          events[i].now < events[0].now || events[i].now - events[0].now < k.s.reassemblyTimeout)
  }

  lemma AllDelivered(k: Link, system: System, id: nat, events: seq<Event>)
    requires ValidLink(k) && Channel.ValidSent(k.s, system.sent) && id in system.sent
    requires ArrivalsOf(k, system, id, events) && AllArriveInTime(k, system, id, events)
    ensures Channel.Delivered(Traffic(events), id) == Channel.Upto(Channel.ChunkCount(k.s, system.sent, id))
  {
    hide Lawful, Channel.Delivered, CeilingDivide, Channel.ValidSent;
    var traffic, n := Traffic(events), Channel.ChunkCount(k.s, system.sent, id);
    Channel.DeliveredBound(k.s, system.sent, traffic, id);
    forall index: nat | index < n
      ensures index in Channel.Delivered(traffic, id)
    {
      assert Arrives(events, index);
      var i :| 0 <= i < |events| && events[i].Arrived? && events[i].index == index;
      Channel.DeliveredHolds(traffic, id, i);
    }
  }

  /** The reassembler has a free slot, and room for the bytes of the group beside those it retains. */
  predicate Room(s: Settings, st: R.State, group: seq<byte>) {
    |st.groups| < s.maxInFlightGroups && st.report.retainedIncompleteBytes + |group| <= s.maxIncompleteBytes
  }

  lemma AnswersComplete(k: Link, system: System, id: nat, events: seq<Event>)
    requires ValidLink(k) && Channel.ValidSent(k.s, system.sent) && Receiving(k, system) && k.s.enabled
    requires ArrivalsOf(k, system, id, events) && id in system.sent && id > system.client.latestRemote
    requires AllArriveInTime(k, system, id, events)
    requires forall i :: 0 <= i < |system.reassembly.groups| ==> system.reassembly.groups[i].id != id
    requires Room(k.s, system.reassembly, system.sent[id])
    ensures Channel.Completes(Answers(k, system, id, events), id)
  {
    hide R.Inv, R.Accept, Packet, Lawful, Channel.Completes, Channel.AllMatch, Channel.StrictlyAboveWatermark;
    hide Channel.ChunkCount, Channel.Delivered;
    var st, traffic := system.reassembly, Traffic(events);
    var first, rest := traffic[0], traffic[1..];
    assert [first] + rest == traffic;
    assert Genuine(k, system.sent, id, events[0].index);
    if id in Channel.ById(st.groups) {
      var i := Channel.ByIdSound(st.groups, id);
      assert false;
    }
    AllDelivered(k, system, id, events);
    Channel.CompletesFromFirstChunk(k.s, system.sent, st, first, rest);
    AnswersUnfold(k, system, id, events);
    Channel.RoomAdmits(k.s, system.sent, st, id, events[0].index, events[0].now);
  }

  /** Of the group nothing is retained yet, the reassembler has room for it, and all of its packets arrive in time. */
  ghost predicate Delivered(k: Link, system: System, id: nat, events: seq<Event>)
    requires ValidLink(k)
  {
    && id in system.sent && ArrivalsOf(k, system, id, events) && AllArriveInTime(k, system, id, events)
    && (forall i :: 0 <= i < |system.reassembly.groups| ==> system.reassembly.groups[i].id != id)
    && Room(k.s, system.reassembly, system.sent[id])
  }

  /** Nothing more than its packets is needed: in every reachable state, of an update that is newer than what is shown,
      of which nothing has been received yet and for which the reassembler has room, whose baseline is kept and whose
      values and tick are acceptable, once every packet has arrived, in any order and number, the last no later than
      the timeout allows, the client shows exactly what the server recorded for it. */
  lemma AllPacketsShow(k: Link, system: System, id: nat, events: seq<Event>)
    requires ValidLink(k) && Inv(k, system) && k.s.enabled && Delivered(k, system, id, events)
    requires id > system.client.latestRemote && Showable(k, system, id)
    ensures var end := Run(k, system, events);
      && end.client.latestRemote == id && end.server == system.server
      && World.Sound(end.client.world)
      && World.Contents(end.client.world) == system.server.history[id].update.resulting.entities
  {
    hide Inv, R.Inv, R.Accept, Packet, Answers, Showable, Lawful, Channel.Completes, Channel.AllMatch;
    StateFacts(k, system);
    AnswersComplete(k, system, id, events);
    CompletedIsShown(k, system, id, events);
  }

  /** A recorded full replacement with valid values, when the committed emissions follow the ticks and hold what the
      world knows. */
  ghost predicate OrderlyReplacement(p: Wire.Pipeline, server: Pipelines.Server, id: nat) {
    && id in server.history && server.history[id].update.kind.FullReplace?
    && Pipelines.Decodable(p, server.history[id])
    && Pipelines.TicksOrdered(server.history) && Pipelines.AllSupported(p, server.history)
  }

  /** The way back for a client that has lost its baselines: a newer full replacement is shown once all of its packets
      have arrived, whatever the client has retained and whatever it has missed. */
  lemma FullReplaceShows(k: Link, system: System, id: nat, events: seq<Event>)
    requires ValidLink(k) && Inv(k, system) && k.s.enabled && Delivered(k, system, id, events)
    requires id > system.client.latestRemote && OrderlyReplacement(k.p, system.server, id)
    ensures ShownNow(Run(k, system, events), id) && Run(k, system, events).server == system.server
  {
    hide Receiving, Pipelines.ServerInv, Pipelines.ClientInv, Pipelines.TicksOrdered, Pipelines.AllSupported, Lawful;
    hide Pipelines.BaselineKept, Pipelines.Decodable, Pipelines.WorldTakes, Run, Step, Delivered, Sendable;
    Pipelines.FullReplaceNeedsNone(k.p, system.server, system.client, id);
    Pipelines.WorldTakesOrdered(k.p, system.server, system.client, id);
    AllPacketsShow(k, system, id, events);
  }
}
