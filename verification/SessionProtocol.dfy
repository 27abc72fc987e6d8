/** The session handshake messages of the transport: encoding, decoding, and the identity check.

    Models src/transport/src/transport_protocol.cpp. */
module SessionProtocol {
  import opened Bytes

  const SESSION_MAGIC: nat := 0x534E5453
  const SESSION_VERSION: nat := 4
  const SESSION_HEADER_BYTES: nat := 11

  const CLIENT_HELLO: byte := 1
  const SERVER_ACCEPT: byte := 2
  const SERVER_REJECT: byte := 3

  datatype SessionIdentity = SessionIdentity(version: u32, compatibility: u64, wire: u64)

  /** Disconnect codes by number: zero is none, one to seven are the reasons. */
  const NO_CODE: nat := 0
  const PROTOCOL_MISMATCH: nat := 2
  const INCOMPATIBLE_CONFIG: nat := 3
  const INCOMPATIBLE_WIRE_PROFILE: nat := 4
  const LAST_CODE: nat := 7

  datatype SessionMessage = ClientHello(identity: SessionIdentity) | ServerAccept | ServerReject(code: u16)

  predicate ValidMessage(m: SessionMessage) {
    m.ServerReject? ==> NO_CODE < m.code <= LAST_CODE
  }

  function IdentityMismatch(actual: SessionIdentity, expected: SessionIdentity): nat {
    if actual.version != expected.version then PROTOCOL_MISMATCH
    else if actual.compatibility != expected.compatibility then INCOMPATIBLE_CONFIG
    else if actual.wire != expected.wire then INCOMPATIBLE_WIRE_PROFILE
    else NO_CODE
  }

  /** A peer is let in exactly when its identity is the expected one; a refusal can be sent as such. */
  lemma MismatchMeaning(actual: SessionIdentity, expected: SessionIdentity)
    ensures IdentityMismatch(actual, expected) == NO_CODE <==> actual == expected
    ensures actual != expected ==> ValidMessage(ServerReject(IdentityMismatch(actual, expected)))
  {
  }

  // ---------------------------------------------------------------- encoding

  const HEADER_LAYOUT: Layout := [4, 2, 1, 4]
  const HELLO_LAYOUT: Layout := [4, 8, 8]
  const REJECT_LAYOUT: Layout := [2]

  function KindOf(m: SessionMessage): byte {
    match m
    case ClientHello(_) => CLIENT_HELLO
    case ServerAccept => SERVER_ACCEPT
    case ServerReject(_) => SERVER_REJECT
  }

  function PayloadOf(m: SessionMessage): seq<byte> {
    match m
    case ClientHello(id) => WriteFields([id.version, id.compatibility, id.wire], HELLO_LAYOUT)
    case ServerAccept => []
    case ServerReject(code) => WriteFields([code], REJECT_LAYOUT)
  }

  function HeaderOf(kind: byte, size: nat): seq<byte> {
    WriteFields([SESSION_MAGIC, SESSION_VERSION, kind, size], HEADER_LAYOUT)
  }

  function Encode(m: SessionMessage): seq<byte> {
    HeaderOf(KindOf(m), |PayloadOf(m)|) + PayloadOf(m)
  }

  // ---------------------------------------------------------------- decoding

  function DecodePayload(kind: nat, bytes: seq<byte>, offset: nat): Option<SessionMessage>
    requires offset <= |bytes|
  {
    Capacities();
    if kind == CLIENT_HELLO then
      if |bytes| - offset != 20 then None
      else
        var v := ReadFields(bytes, offset, HELLO_LAYOUT);
        if v.None? then None else Some(ClientHello(SessionIdentity(v.value[0], v.value[1], v.value[2])))
    else if kind == SERVER_ACCEPT then
      if |bytes| != offset then None else Some(ServerAccept)
    else if kind == SERVER_REJECT then
      if |bytes| - offset != 2 then None
      else
        var v := ReadFields(bytes, offset, REJECT_LAYOUT);
        if v.None? || v.value[0] == NO_CODE || v.value[0] > LAST_CODE then None else Some(ServerReject(v.value[0]))
    else None
  }

  function Decode(bytes: seq<byte>): Option<SessionMessage> {
    LayoutSizes();
    var h := ReadFields(bytes, 0, HEADER_LAYOUT);
    if h.None? then None
    else if h.value[0] != SESSION_MAGIC || h.value[1] != SESSION_VERSION then None
    else if h.value[3] != |bytes| - SESSION_HEADER_BYTES then None
    else DecodePayload(h.value[2], bytes, SESSION_HEADER_BYTES)
  }

  lemma LayoutSizes()
    ensures LayoutBytes(HEADER_LAYOUT) == SESSION_HEADER_BYTES
    ensures LayoutBytes(HELLO_LAYOUT) == 20
    ensures LayoutBytes(REJECT_LAYOUT) == 2
  {
    assert HEADER_LAYOUT[1..] == [2, 1, 4] && [2, 1, 4][1..] == [1, 4] && [1, 4][1..] == [4] && [4][1..] == [];
    assert LayoutBytes([4]) == 4 && LayoutBytes([1, 4]) == 5 && LayoutBytes([2, 1, 4]) == 7;
    assert HELLO_LAYOUT[1..] == [8, 8] && [8, 8][1..] == [8] && [8][1..] == [];
    assert LayoutBytes([8]) == 8 && LayoutBytes([8, 8]) == 16;
    assert REJECT_LAYOUT[1..] == [];
  }

  // ---------------------------------------------------------------- mutual inverses

  lemma PayloadRoundTrip(m: SessionMessage, bytes: seq<byte>, offset: nat)
    requires ValidMessage(m) && offset <= |bytes| && bytes[offset..] == PayloadOf(m)
    ensures DecodePayload(KindOf(m), bytes, offset) == Some(m)
  {
    hide ReadFields, WriteFields;
    LayoutSizes();
    Capacities();
    match m {
      case ClientHello(id) =>
        assert bytes[offset..offset + 20] == bytes[offset..];
        ReadWritten(bytes, offset, [id.version, id.compatibility, id.wire], HELLO_LAYOUT);
      case ServerAccept =>
      case ServerReject(code) =>
        assert bytes[offset..offset + 2] == bytes[offset..];
        ReadWritten(bytes, offset, [code], REJECT_LAYOUT);
    }
  }

  lemma PayloadExact(kind: nat, bytes: seq<byte>, offset: nat)
    requires offset <= |bytes| && DecodePayload(kind, bytes, offset).Some?
    ensures var m := DecodePayload(kind, bytes, offset).value;
      ValidMessage(m) && KindOf(m) == kind && PayloadOf(m) == bytes[offset..]
  {
    hide ReadFields, WriteFields;
    LayoutSizes();
    if kind == CLIENT_HELLO {
      WriteRead(bytes, offset, HELLO_LAYOUT);
      assert bytes[offset..offset + 20] == bytes[offset..];
      var v := ReadFields(bytes, offset, HELLO_LAYOUT).value;
      assert v == [v[0], v[1], v[2]];
    } else if kind == SERVER_REJECT {
      WriteRead(bytes, offset, REJECT_LAYOUT);
      assert bytes[offset..offset + 2] == bytes[offset..];
      var v := ReadFields(bytes, offset, REJECT_LAYOUT).value;
      assert v == [v[0]];
    }
  }

  lemma PayloadSize(m: SessionMessage)
    ensures |PayloadOf(m)| <= 20
    ensures |HeaderOf(KindOf(m), |PayloadOf(m)|)| == SESSION_HEADER_BYTES
  {
    LayoutSizes();
  }

  /** A byte string is accepted as a message exactly when it is the encoding of that valid message. */
  lemma DecodeExactly(bytes: seq<byte>, m: SessionMessage)
    ensures Decode(bytes) == Some(m) <==> ValidMessage(m) && bytes == Encode(m)
  {
    hide ReadFields, WriteFields, PayloadOf, DecodePayload;
    LayoutSizes();
    Capacities();
    PayloadSize(m);
    if Decode(bytes) == Some(m) {
      WriteRead(bytes, 0, HEADER_LAYOUT);
      var h := ReadFields(bytes, 0, HEADER_LAYOUT).value;
      assert h == [h[0], h[1], h[2], h[3]];
      PayloadExact(h[2], bytes, SESSION_HEADER_BYTES);
      assert bytes == bytes[..SESSION_HEADER_BYTES] + bytes[SESSION_HEADER_BYTES..];
      assert bytes[0..SESSION_HEADER_BYTES] == bytes[..SESSION_HEADER_BYTES];
    }
    if ValidMessage(m) && bytes == Encode(m) {
      var values := [SESSION_MAGIC, SESSION_VERSION, KindOf(m), |PayloadOf(m)|];
      assert Fits(values, HEADER_LAYOUT);
      assert bytes[0..SESSION_HEADER_BYTES] == WriteFields(values, HEADER_LAYOUT);
      ReadWritten(bytes, 0, values, HEADER_LAYOUT);
      assert bytes[SESSION_HEADER_BYTES..] == PayloadOf(m);
      PayloadRoundTrip(m, bytes, SESSION_HEADER_BYTES);
    }
  }

  /** The handshake on the wire: eleven header bytes with the magic, version 4, the kind and the size of the rest. */
  lemma SessionBytes(m: SessionMessage)
    ensures Encode(m) ==
      match m
      case ClientHello(id) =>
        [0x53, 0x4E, 0x54, 0x53, 0, 4, 1, 0, 0, 0, 20]
        + (BigEndian(id.version, 4) + BigEndian(id.compatibility, 8) + BigEndian(id.wire, 8))
      case ServerAccept => [0x53, 0x4E, 0x54, 0x53, 0, 4, 2, 0, 0, 0, 0]
      case ServerReject(code) => [0x53, 0x4E, 0x54, 0x53, 0, 4, 3, 0, 0, 0, 2] + BigEndian(code, 2)
  {
    hide BigEndian, WriteFields;
    HeaderBytes(KindOf(m), |PayloadOf(m)|);
    LayoutSizes();
    match m {
      case ClientHello(id) => WriteThree([id.version, id.compatibility, id.wire], HELLO_LAYOUT);
      case ServerAccept =>
      case ServerReject(code) =>
        WriteNext([code], REJECT_LAYOUT);
        assert WriteFields([code as nat][1..], REJECT_LAYOUT[1..]) == [];
    }
  }

  lemma HeaderBytes(kind: byte, size: nat)
    requires size < 0x100
    ensures HeaderOf(kind, size) == [0x53, 0x4E, 0x54, 0x53, 0, 4, kind, 0, 0, 0, size]
  {
    WriteFour([0x534E5453, 4, kind, size], HEADER_LAYOUT);
    OneByte(0x53);
    OneByte(0);
    OneByte(kind);
    assert BigEndian(0x534E, 2) == BigEndian(0x53, 1) + [0x4E];
    assert BigEndian(0x534E54, 3) == BigEndian(0x534E, 2) + [0x54];
    assert BigEndian(0x534E5453, 4) == BigEndian(0x534E54, 3) + [0x53];
    assert BigEndian(4, 2) == BigEndian(0, 1) + [4];
    assert BigEndian(0, 2) == BigEndian(0, 1) + [0];
    assert BigEndian(0, 3) == BigEndian(0, 2) + [0];
    assert BigEndian(size, 4) == BigEndian(0, 3) + [size];
  }

  lemma OneByte(value: byte)
    ensures BigEndian(value, 1) == [value]
  {
    assert BigEndian(value / 0x100, 0) == [];
  }

  /** The reason given is that of the first field that differs, and reasons one to seven may be sent. */
  lemma MismatchExactly(actual: SessionIdentity, expected: SessionIdentity, code: u16)
    ensures IdentityMismatch(actual, expected)
         == if actual.version != expected.version then 2
            else if actual.compatibility != expected.compatibility then 3
            else if actual.wire != expected.wire then 4
            else 0
    ensures ValidMessage(ServerReject(code)) <==> 1 <= code <= 7
  {
  }

  // ---------------------------------------------------------------- the implementation

  /** Appends field after field. */
  method EncodeSessionMessage(m: SessionMessage) returns (bytes: seq<byte>)
    ensures bytes == Encode(m)
  {
    hide BigEndian;
    var payload := [];
    match m {
      case ClientHello(id) =>
        payload := payload + BigEndian(id.version, 4);
        payload := payload + BigEndian(id.compatibility, 8);
        payload := payload + BigEndian(id.wire, 8);
        WriteThree([id.version, id.compatibility, id.wire], HELLO_LAYOUT);
      case ServerAccept =>
      case ServerReject(code) =>
        payload := payload + BigEndian(code, 2);
        assert REJECT_LAYOUT[1..] == [] && [code as nat][1..] == [];
    }
    assert payload == PayloadOf(m);
    bytes := BigEndian(SESSION_MAGIC, 4);
    bytes := bytes + BigEndian(SESSION_VERSION, 2);
    bytes := bytes + BigEndian(KindOf(m), 1);
    bytes := bytes + BigEndian(|payload|, 4);
    WriteFour([SESSION_MAGIC, SESSION_VERSION, KindOf(m), |payload|], HEADER_LAYOUT);
    bytes := bytes + payload;
  }

  lemma WriteThree(v: seq<nat>, w: Layout)
    requires |v| == |w| == 3
    ensures WriteFields(v, w) == BigEndian(v[0], w[0]) + BigEndian(v[1], w[1]) + BigEndian(v[2], w[2])
  {
    hide BigEndian;
    assert v[1..][1..][1..] == [] && w[1..][1..][1..] == [];
    assert WriteFields(v[1..][1..], w[1..][1..]) == BigEndian(v[2], w[2]);
  }

  lemma WriteFour(v: seq<nat>, w: Layout)
    requires |v| == |w| == 4
    ensures WriteFields(v, w)
         == BigEndian(v[0], w[0]) + BigEndian(v[1], w[1]) + BigEndian(v[2], w[2]) + BigEndian(v[3], w[3])
  {
    hide BigEndian;
    WriteThree(v[1..], w[1..]);
  }

  /** The fields behind the header, by kind; the sizes are checked first. */
  method ReadPayload(bytes: seq<byte>, start: nat, kind: nat) returns (candidate: Option<SessionMessage>)
    requires start <= |bytes|
    ensures candidate == DecodePayload(kind, bytes, start)
  {
    hide FromBigEndian, ReadFields;
    Capacities();
    var offset := start;
    if kind == CLIENT_HELLO {
      ReadThree(bytes, start, HELLO_LAYOUT);
      if |bytes| - offset != 20 { return None; }
      var version := ReadBigEndian(bytes, offset, 4);
      if version.None? { return None; }
      offset := offset + 4;
      var compatibility := ReadBigEndian(bytes, offset, 8);
      if compatibility.None? { return None; }
      offset := offset + 8;
      var wire := ReadBigEndian(bytes, offset, 8);
      if wire.None? { return None; }
      return Some(ClientHello(SessionIdentity(version.value, compatibility.value, wire.value)));
    } else if kind == SERVER_ACCEPT {
      if |bytes| - offset != 0 { return None; }
      return Some(ServerAccept);
    } else if kind == SERVER_REJECT {
      ReadNext(bytes, start, REJECT_LAYOUT);
      if |bytes| - offset != 2 { return None; }
      var code := ReadBigEndian(bytes, offset, 2);
      if code.None? || code.value > LAST_CODE || code.value == NO_CODE { return None; }
      return Some(ServerReject(code.value));
    }
    return None;
  }

  /** Fills a candidate while an offset moves through the bytes; the message is replaced only on success. */
  method DecodeSessionMessage(bytes: seq<byte>, message: SessionMessage) returns (ok: bool, decoded: SessionMessage)
    ensures ok == Decode(bytes).Some?
    ensures decoded == if ok then Decode(bytes).value else message
  {
    hide FromBigEndian;
    decoded := message;
    LayoutSizes();
    Capacities();
    var offset := 0;
    ReadFour(bytes, 0, HEADER_LAYOUT);
    var magic := ReadBigEndian(bytes, offset, 4);
    if magic.None? { return false, message; }
    offset := offset + 4;
    var version := ReadBigEndian(bytes, offset, 2);
    if version.None? { return false, message; }
    offset := offset + 2;
    var kind := ReadBigEndian(bytes, offset, 1);
    if kind.None? { return false, message; }
    offset := offset + 1;
    var size := ReadBigEndian(bytes, offset, 4);
    if size.None? { return false, message; }
    offset := offset + 4;
    if magic.value != SESSION_MAGIC || version.value != SESSION_VERSION || size.value != |bytes| - offset {
      return false, message;
    }
    var candidate := ReadPayload(bytes, offset, kind.value);
    if candidate.None? { return false, message; }
    return true, candidate.value;
  }
}
