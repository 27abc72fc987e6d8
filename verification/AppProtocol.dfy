/** The application's control and input messages: two header bytes, kind and version, and a small body.

    Models app/common/app_protocol.cpp. */
module AppProtocol {
  import opened Bytes

  const APP_MESSAGE_VERSION: byte := 3

  const PAUSE_SET_REQUEST: byte := 1
  const PAUSE_STATE: byte := 2
  const JOIN_REQUEST: byte := 3
  const JOIN_ACCEPTED: byte := 4
  const SNAPSHOT_ACK: byte := 5
  const PLAYER_INPUT: byte := 6
  const STATIONARY_OBSERVER_INTEREST: byte := 7
  const SNAPSHOT_RECOVERY_REQUEST: byte := 8

  datatype Role = StationaryObserver | Player

  datatype AppMessage =
    | PauseSetRequest(paused: bool)
    | PauseState(paused: bool)
    | JoinRequest(role: Role)
    | JoinAccepted(role: Role, peerId: u16, playerId: u32)

  datatype PlayerInput = PlayerInput(buttons: byte)
  datatype SnapshotAck = SnapshotAck(newestApplied: u32)
  datatype RecoveryRequest = RecoveryRequest(rejected: u32, missingBaseline: u32)

  predicate ValidMessage(m: AppMessage) {
    m.JoinAccepted? ==> m.peerId != 0 && (m.role == Player <==> m.playerId != 0)
  }

  predicate ValidRecovery(r: RecoveryRequest) {
    0 < r.missingBaseline < r.rejected
  }

  function RoleByte(role: Role): byte {
    match role case StationaryObserver => 0 case Player => 1
  }

  function RoleOf(b: byte): Option<Role> {
    if b == 0 then Some(StationaryObserver) else if b == 1 then Some(Player) else None
  }

  function Header(kind: byte): seq<byte> {
    [kind, APP_MESSAGE_VERSION]
  }

  predicate HasHeader(bytes: seq<byte>, kind: byte) {
    |bytes| >= 2 && bytes[0] == kind && bytes[1] == APP_MESSAGE_VERSION
  }

  /** A recognised kind, once the version is right. */
  function DecodeKind(bytes: seq<byte>): Option<byte> {
    if |bytes| < 2 || bytes[1] != APP_MESSAGE_VERSION then None
    else if PAUSE_SET_REQUEST <= bytes[0] <= SNAPSHOT_RECOVERY_REQUEST then Some(bytes[0])
    else None
  }

  // ---------------------------------------------------------------- pause and join

  function BoolByte(b: bool): byte {
    if b then 1 else 0
  }

  function EncodeMessage(m: AppMessage): seq<byte> {
    match m
    case PauseSetRequest(paused) => Header(PAUSE_SET_REQUEST) + [BoolByte(paused)]
    case PauseState(paused) => Header(PAUSE_STATE) + [BoolByte(paused)]
    case JoinRequest(role) => Header(JOIN_REQUEST) + [RoleByte(role)]
    case JoinAccepted(role, peerId, playerId) =>
      Header(JOIN_ACCEPTED) + [RoleByte(role)] + BigEndian(peerId, 2) + BigEndian(playerId, 4)
  }

  function DecodePause(bytes: seq<byte>): Option<bool> {
    if |bytes| != 3 || bytes[2] > 1 then None else Some(bytes[2] == 1)
  }

  function DecodeJoinAccepted(bytes: seq<byte>): Option<AppMessage> {
    Capacities();
    if |bytes| != 9 then None
    else
      var peerId, playerId := ReadBigEndian(bytes, 3, 2).value, ReadBigEndian(bytes, 5, 4).value;
      var role := RoleOf(bytes[2]);
      if role.None? || peerId == 0 || (role.value == StationaryObserver && playerId != 0)
         || (role.value == Player && playerId == 0)
      then None else Some(JoinAccepted(role.value, peerId, playerId))
  }

  function DecodeMessage(bytes: seq<byte>): Option<AppMessage> {
    if |bytes| < 2 || bytes[1] != APP_MESSAGE_VERSION then None
    else if bytes[0] == PAUSE_SET_REQUEST then
      var paused := DecodePause(bytes);
      if paused.None? then None else Some(PauseSetRequest(paused.value))
    else if bytes[0] == PAUSE_STATE then
      var paused := DecodePause(bytes);
      if paused.None? then None else Some(PauseState(paused.value))
    else if bytes[0] == JOIN_REQUEST then
      if |bytes| != 3 || RoleOf(bytes[2]).None? then None else Some(JoinRequest(RoleOf(bytes[2]).value))
    else if bytes[0] == JOIN_ACCEPTED then DecodeJoinAccepted(bytes)
    else None
  }

  /** A byte string is accepted as a message exactly when it is the encoding of that valid message. */
  lemma MessageExactly(bytes: seq<byte>, m: AppMessage)
    ensures DecodeMessage(bytes) == Some(m) <==> ValidMessage(m) && bytes == EncodeMessage(m)
  {
    hide BigEndian, FromBigEndian, Capacity;
    Capacities();
    if m.JoinAccepted? {
      BigEndianRoundTrip(m.peerId, 2);
      BigEndianRoundTrip(m.playerId, 4);
      if bytes == EncodeMessage(m) {
        assert bytes[3..5] == BigEndian(m.peerId, 2);
        assert bytes[5..9] == BigEndian(m.playerId, 4);
      }
      if DecodeMessage(bytes) == Some(m) {
        FromBigEndianRoundTrip(bytes[3..5]);
        FromBigEndianRoundTrip(bytes[5..9]);
        assert bytes == [bytes[0], bytes[1]] + [bytes[2]] + bytes[3..5] + bytes[5..9];
      }
    } else if DecodeMessage(bytes) == Some(m) {
      assert bytes == [bytes[0], bytes[1]] + [bytes[2]];
    }
  }

  // ---------------------------------------------------------------- input, acknowledgement, recovery

  function EncodePlayerInput(input: PlayerInput): seq<byte> {
    Header(PLAYER_INPUT) + [input.buttons]
  }

  function DecodePlayerInput(bytes: seq<byte>): Option<PlayerInput> {
    if |bytes| != 3 || !HasHeader(bytes, PLAYER_INPUT) then None else Some(PlayerInput(bytes[2]))
  }

  lemma PlayerInputExactly(bytes: seq<byte>, input: PlayerInput)
    ensures DecodePlayerInput(bytes) == Some(input) <==> bytes == EncodePlayerInput(input)
  {
    if DecodePlayerInput(bytes) == Some(input) {
      assert bytes == [bytes[0], bytes[1]] + [bytes[2]];
    }
  }

  function EncodeSnapshotAck(ack: SnapshotAck): seq<byte> {
    Header(SNAPSHOT_ACK) + BigEndian(ack.newestApplied, 4)
  }

  function DecodeSnapshotAck(bytes: seq<byte>): Option<SnapshotAck> {
    Capacities();
    if |bytes| != 6 || !HasHeader(bytes, SNAPSHOT_ACK) then None
    else Some(SnapshotAck(ReadBigEndian(bytes, 2, 4).value))
  }

  lemma SnapshotAckExactly(bytes: seq<byte>, ack: SnapshotAck)
    ensures DecodeSnapshotAck(bytes) == Some(ack) <==> bytes == EncodeSnapshotAck(ack)
  {
    hide BigEndian, FromBigEndian, Capacity;
    Capacities();
    BigEndianRoundTrip(ack.newestApplied, 4);
    if bytes == EncodeSnapshotAck(ack) {
      assert bytes[2..6] == BigEndian(ack.newestApplied, 4);
    }
    if DecodeSnapshotAck(bytes) == Some(ack) {
      FromBigEndianRoundTrip(bytes[2..6]);
      assert bytes == [bytes[0], bytes[1]] + bytes[2..6];
    }
  }

  function EncodeRecovery(r: RecoveryRequest): seq<byte> {
    Header(SNAPSHOT_RECOVERY_REQUEST) + BigEndian(r.rejected, 4) + BigEndian(r.missingBaseline, 4)
  }

  function DecodeRecovery(bytes: seq<byte>): Option<RecoveryRequest> {
    Capacities();
    if |bytes| != 10 || !HasHeader(bytes, SNAPSHOT_RECOVERY_REQUEST) then None
    else
      var r := RecoveryRequest(ReadBigEndian(bytes, 2, 4).value, ReadBigEndian(bytes, 6, 4).value);
      if r.rejected == 0 || r.missingBaseline == 0 || r.missingBaseline >= r.rejected then None else Some(r)
  }

  lemma RecoveryExactly(bytes: seq<byte>, r: RecoveryRequest)
    ensures DecodeRecovery(bytes) == Some(r) <==> ValidRecovery(r) && bytes == EncodeRecovery(r)
  {
    hide BigEndian, FromBigEndian, Capacity;
    Capacities();
    BigEndianRoundTrip(r.rejected, 4);
    BigEndianRoundTrip(r.missingBaseline, 4);
    if bytes == EncodeRecovery(r) {
      assert bytes[2..6] == BigEndian(r.rejected, 4);
      assert bytes[6..10] == BigEndian(r.missingBaseline, 4);
    }
    if DecodeRecovery(bytes) == Some(r) {
      FromBigEndianRoundTrip(bytes[2..6]);
      FromBigEndianRoundTrip(bytes[6..10]);
      assert bytes == [bytes[0], bytes[1]] + bytes[2..6] + bytes[6..10];
    }
  }

  /** The messages on the wire: the kind, version 3, and the fields. */
  lemma MessageBytes(m: AppMessage)
    ensures EncodeMessage(m) ==
      match m
      case PauseSetRequest(paused) => [1, 3, if paused then 1 else 0]
      case PauseState(paused) => [2, 3, if paused then 1 else 0]
      case JoinRequest(role) => [3, 3, if role == Player then 1 else 0]
      case JoinAccepted(role, peerId, playerId) =>
        [4, 3, if role == Player then 1 else 0] + (BigEndian(peerId, 2) + BigEndian(playerId, 4))
    ensures ValidMessage(m) <==>
      (m.JoinAccepted? ==> m.peerId > 0 && (if m.role == Player then m.playerId > 0 else m.playerId == 0))
  {
    hide BigEndian;
  }

  lemma OtherBytes(ack: SnapshotAck, input: PlayerInput, r: RecoveryRequest)
    ensures EncodeSnapshotAck(ack) == [5, 3] + BigEndian(ack.newestApplied, 4)
    ensures EncodePlayerInput(input) == [6, 3, input.buttons]
    ensures EncodeRecovery(r) == [8, 3] + (BigEndian(r.rejected, 4) + BigEndian(r.missingBaseline, 4))
    ensures ValidRecovery(r) <==> r.missingBaseline != 0 && r.missingBaseline < r.rejected
  {
    hide BigEndian;
  }

  /** Which messages have a recognised kind, whatever follows, and which have the shape of an observer's interest. */
  lemma KindExactly(bytes: seq<byte>, kind: byte)
    ensures DecodeKind(bytes) == Some(kind) <==> 1 <= kind <= 8 && [kind, 3] <= bytes
    ensures InterestShaped(bytes) <==> [7, 3] <= bytes && |bytes| == 26
  {
    assert forall k: byte :: [k, 3] <= bytes <==> |bytes| >= 2 && bytes[0] == k && bytes[1] == 3;
  }

  // ---------------------------------------------------------------- no confusion

  /** The part of the observer interest decoder that is modelled: its header and its length. */
  predicate InterestShaped(bytes: seq<byte>) {
    |bytes| == 26 && HasHeader(bytes, STATIONARY_OBSERVER_INTEREST)
  }

  /** Which of the five decoders accept a byte string. */
  function Acceptors(bytes: seq<byte>): nat {
    (if DecodeMessage(bytes).Some? then 1 else 0) + (if DecodePlayerInput(bytes).Some? then 1 else 0)
    + (if DecodeSnapshotAck(bytes).Some? then 1 else 0) + (if DecodeRecovery(bytes).Some? then 1 else 0)
    + (if InterestShaped(bytes) then 1 else 0)
  }

  /** No byte string is accepted by two decoders, and what one accepts has the kind of its message. */
  lemma OneDecoderAtMost(bytes: seq<byte>)
    ensures Acceptors(bytes) <= 1
    ensures Acceptors(bytes) == 1 ==> DecodeKind(bytes) == Some(bytes[0])
    ensures DecodeMessage(bytes).Some? <==> Acceptors(bytes) == 1 && bytes[0] <= JOIN_ACCEPTED
    ensures DecodeSnapshotAck(bytes).Some? <==> Acceptors(bytes) == 1 && bytes[0] == SNAPSHOT_ACK
    ensures DecodePlayerInput(bytes).Some? <==> Acceptors(bytes) == 1 && bytes[0] == PLAYER_INPUT
    ensures DecodeRecovery(bytes).Some? <==> Acceptors(bytes) == 1 && bytes[0] == SNAPSHOT_RECOVERY_REQUEST
  {
    hide FromBigEndian;
  }

  // ---------------------------------------------------------------- the implementation

  method EncodeAppMessage(m: AppMessage) returns (bytes: seq<byte>)
    ensures bytes == EncodeMessage(m)
  {
    match m {
      case PauseSetRequest(paused) =>
        bytes := Header(PAUSE_SET_REQUEST);
        bytes := bytes + [BoolByte(paused)];
      case PauseState(paused) =>
        bytes := Header(PAUSE_STATE);
        bytes := bytes + [BoolByte(paused)];
      case JoinRequest(role) =>
        bytes := Header(JOIN_REQUEST);
        bytes := bytes + [RoleByte(role)];
      case JoinAccepted(role, peerId, playerId) =>
        bytes := Header(JOIN_ACCEPTED);
        bytes := bytes + [RoleByte(role)];
        bytes := bytes + BigEndian(peerId, 2);
        bytes := bytes + BigEndian(playerId, 4);
    }
  }

  /** The destination is replaced only on success. */
  method DecodeRecoveryRequest(bytes: seq<byte>, request: RecoveryRequest) returns (ok: bool, decoded: RecoveryRequest)
    ensures ok == DecodeRecovery(bytes).Some?
    ensures decoded == if ok then DecodeRecovery(bytes).value else request
  {
    hide FromBigEndian;
    Capacities();
    var offset := 2;
    if |bytes| != 10 || bytes[0] != SNAPSHOT_RECOVERY_REQUEST || bytes[1] != APP_MESSAGE_VERSION {
      return false, request;
    }
    var rejected := ReadBigEndian(bytes, offset, 4);
    offset := offset + 4;
    var missing := ReadBigEndian(bytes, offset, 4);
    offset := offset + 4;
    if rejected.value == 0 || missing.value == 0 || missing.value >= rejected.value {
      return false, request;
    }
    return true, RecoveryRequest(rejected.value, missing.value);
  }
}
