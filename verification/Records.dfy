/** Entity records on the wire: the complete record of each layout and the field-masked record.

    The float transforms (quantization, octahedral headings, renormalization) are parameters: a
    prepared record is its tokens, and its canonical value is what those tokens decode to. Models
    src/pipeline/private/pipeline_records.cppm and pipeline_wire.cppm. */
module Records {
  import opened Bytes
  import opened Snapshot

  /** The scalar transforms, with the quantization bounds fixed. */
  datatype Numerics = Numerics(
    quantizePosition: Vec3 -> (u16, u16, u16),
    dequantizePosition: (u16, u16, u16) -> Vec3,
    quantizeHeading: Vec3 -> (u16, u16, u16),
    dequantizeHeading: (u16, u16, u16) -> Vec3,
    encodeOctHeading: Vec3 -> (u16, u16),
    decodeOctHeading: (u16, u16) -> Vec3,
    normalized: Vec3 -> bool)

  datatype RecordLayout = RecordLayout(quantized: bool, octHeading: bool, numerics: Numerics)

  ghost predicate ValidLayout(layout: RecordLayout) {
    layout.octHeading ==> layout.quantized
  }

  // ---------------------------------------------------------------- tokens

  function PositionWidths(layout: RecordLayout): Layout {
    if layout.quantized then [2, 2, 2] else [4, 4, 4]
  }

  function PositionTokens(layout: RecordLayout, v: Vec3): (tokens: seq<nat>)
    ensures |tokens| == 3
  {
    if layout.quantized then
      var q := layout.numerics.quantizePosition(v); [q.0, q.1, q.2]
    else [v.x, v.y, v.z]
  }

  function PositionValue(layout: RecordLayout, tokens: seq<nat>): Vec3
    requires Fits(tokens, PositionWidths(layout))
  {
    Widths();
    if layout.quantized then layout.numerics.dequantizePosition(tokens[0], tokens[1], tokens[2])
    else Vec3(tokens[0], tokens[1], tokens[2])
  }

  function HeadingWidths(layout: RecordLayout): Layout {
    if layout.quantized then (if layout.octHeading then [2, 2] else [2, 2, 2]) else [4, 4, 4]
  }

  function HeadingTokens(layout: RecordLayout, v: Vec3): (tokens: seq<nat>)
    ensures |tokens| == |HeadingWidths(layout)|
  {
    if layout.quantized then
      if layout.octHeading then
        var q := layout.numerics.encodeOctHeading(v); [q.0, q.1]
      else
        var q := layout.numerics.quantizeHeading(v); [q.0, q.1, q.2]
    else [v.x, v.y, v.z]
  }

  function HeadingValue(layout: RecordLayout, tokens: seq<nat>): Vec3
    requires Fits(tokens, HeadingWidths(layout))
  {
    Widths();
    if layout.quantized then
      if layout.octHeading then layout.numerics.decodeOctHeading(tokens[0], tokens[1])
      else layout.numerics.dequantizeHeading(tokens[0], tokens[1], tokens[2])
    else Vec3(tokens[0], tokens[1], tokens[2])
  }

  lemma Widths()
    ensures Capacity(1) == 0x100 && Capacity(2) == 0x1_0000 && Capacity(4) == 0x1_0000_0000
  {
    Capacities();
  }

  lemma TokensFit(layout: RecordLayout, position: Vec3, heading: Vec3)
    ensures Fits(PositionTokens(layout, position), PositionWidths(layout))
    ensures Fits(HeadingTokens(layout, heading), HeadingWidths(layout))
  {
    Widths();
  }

  /** The value a client holds after decoding what the source entity was encoded to. */
  function Canonical(layout: RecordLayout, e: EntityState): (c: EntityState)
    ensures c.id == e.id && c.classification == e.classification && c.hue == e.hue
  {
    TokensFit(layout, e.position, e.heading);
    EntityState(e.id, e.classification, PositionValue(layout, PositionTokens(layout, e.position)),
                HeadingValue(layout, HeadingTokens(layout, e.heading)), e.hue)
  }

  function CanonicalAll(layout: RecordLayout, entities: seq<EntityState>): (canonical: seq<EntityState>)
    ensures |canonical| == |entities|
    ensures forall i :: 0 <= i < |entities| ==> canonical[i] == Canonical(layout, entities[i])
  {
    seq(|entities|, i requires 0 <= i < |entities| => Canonical(layout, entities[i]))
  }

  // ---------------------------------------------------------------- field masks

  datatype Mask = Mask(classification: bool, position: bool, heading: bool, hue: bool)

  const ALL_FIELDS := Mask(true, true, true, true)
  const NO_FIELDS := Mask(false, false, false, false)
  const SPAWN_SELECTOR: byte := 0x80

  function MaskByte(m: Mask): byte {
    (if m.classification then 1 else 0) + (if m.position then 2 else 0)
    + (if m.heading then 4 else 0) + (if m.hue then 8 else 0)
  }

  /** A selector of an existing entity: some of the four low bits and nothing else. */
  predicate ValidExistingMask(selector: byte) {
    0 < selector < 0x10
  }

  function ByteMask(selector: byte): Mask {
    Mask(selector % 2 == 1, (selector / 2) % 2 == 1, (selector / 4) % 2 == 1, (selector / 8) % 2 == 1)
  }

  lemma MaskRoundTrip(m: Mask)
    ensures ByteMask(MaskByte(m)) == m
    ensures ValidExistingMask(MaskByte(m)) <==> m != NO_FIELDS
    ensures MaskByte(m) != SPAWN_SELECTOR
  {
  }

  /** The fields in which a canonical value differs, bit for bit, from a retained one. */
  function CanonicalFieldMask(current: EntityState, baseline: EntityState): Mask {
    Mask(current.classification != baseline.classification, current.position != baseline.position,
         current.heading != baseline.heading, current.hue != baseline.hue)
  }

  function Overwrite(m: Mask, onto: EntityState, from: EntityState): EntityState {
    EntityState(onto.id,
                if m.classification then from.classification else onto.classification,
                if m.position then from.position else onto.position,
                if m.heading then from.heading else onto.heading,
                if m.hue then from.hue else onto.hue)
  }

  /** Sending only the differing fields loses nothing, and there are none exactly when nothing changed. */
  lemma MaskSuffices(current: EntityState, baseline: EntityState)
    requires current.id == baseline.id
    ensures Overwrite(CanonicalFieldMask(current, baseline), baseline, current) == current
    ensures CanonicalFieldMask(current, baseline) == NO_FIELDS <==> current == baseline
    ensures Overwrite(ALL_FIELDS, baseline, current) == current
  {
  }

  // ---------------------------------------------------------------- writing

  function FieldPart(selected: bool, values: seq<nat>, widths: Layout): seq<byte>
    requires |values| == |widths|
  {
    if selected then WriteFields(values, widths) else []
  }

  /** The selected fields of a prepared record, without its id. */
  function WriteSelectedFields(layout: RecordLayout, m: Mask, e: EntityState): seq<byte> {
    FieldPart(m.classification, [e.classification], [1])
    + (FieldPart(m.position, PositionTokens(layout, e.position), PositionWidths(layout))
       + (FieldPart(m.heading, HeadingTokens(layout, e.heading), HeadingWidths(layout))
          + FieldPart(m.hue, [e.hue], [1])))
  }

  function WriteRecord(layout: RecordLayout, e: EntityState): seq<byte> {
    BigEndian(e.id, 4) + WriteSelectedFields(layout, ALL_FIELDS, e)
  }

  /** A masked record of an existing entity carries its mask; a spawn carries every field. */
  function WriteMaskedRecord(layout: RecordLayout, e: EntityState, existing: bool, m: Mask): seq<byte> {
    BigEndian(e.id, 4) + BigEndian(if existing then MaskByte(m) else SPAWN_SELECTOR, 1)
    + WriteSelectedFields(layout, if existing then m else ALL_FIELDS, e)
  }

  function RecordBytes(layout: RecordLayout): nat {
    if !layout.quantized then 30 else if layout.octHeading then 16 else 18
  }

  function SelectedBytes(layout: RecordLayout, m: Mask): nat {
    (if m.classification then 1 else 0) + (if m.position then (if layout.quantized then 6 else 12) else 0)
    + (if m.heading then (if layout.quantized then (if layout.octHeading then 4 else 6) else 12) else 0)
    + (if m.hue then 1 else 0)
  }

  lemma WidthBytes(layout: RecordLayout)
    ensures LayoutBytes([1]) == 1
    ensures LayoutBytes(PositionWidths(layout)) == if layout.quantized then 6 else 12
    ensures LayoutBytes(HeadingWidths(layout))
         == if layout.quantized then (if layout.octHeading then 4 else 6) else 12
  {
    Pair(2, 2);
    Triple(2, 2, 2);
    Triple(4, 4, 4);
    assert [1][1..] == [];
  }

  lemma Pair(a: nat, b: nat)
    ensures LayoutBytes([a, b]) == a + b
  {
    assert [a, b][1..] == [b] && [b][1..] == [];
    assert LayoutBytes([b]) == b + LayoutBytes([b][1..]);
  }

  lemma Triple(a: nat, b: nat, c: nat)
    ensures LayoutBytes([a, b, c]) == a + b + c
  {
    assert [a, b, c][1..] == [b, c];
    Pair(b, c);
  }

  lemma WrittenBytes(layout: RecordLayout, m: Mask, e: EntityState)
    ensures |WriteSelectedFields(layout, m, e)| == SelectedBytes(layout, m)
  {
    WidthBytes(layout);
  }

  lemma RecordWrittenBytes(layout: RecordLayout, e: EntityState)
    requires ValidLayout(layout)
    ensures |WriteRecord(layout, e)| == RecordBytes(layout)
  {
    WrittenBytes(layout, ALL_FIELDS, e);
  }

  // ---------------------------------------------------------------- reading

  /** An entity being filled in, and the offset of the next byte to read. */
  datatype Cursor = Cursor(entity: EntityState, offset: nat)

  function ReadClassification(bytes: seq<byte>, at: Cursor, selected: bool): Option<Cursor> {
    if !selected then Some(at)
    else
      Widths();
      var value := ReadBigEndian(bytes, at.offset, 1);
      if value.None? then None
      else Some(Cursor(at.entity.(classification := value.value), at.offset + 1))
  }

  function ReadPosition(bytes: seq<byte>, at: Cursor, layout: RecordLayout, selected: bool): Option<Cursor> {
    if !selected then Some(at)
    else
      var tokens := ReadFields(bytes, at.offset, PositionWidths(layout));
      if tokens.None? then None
      else Some(Cursor(at.entity.(position := PositionValue(layout, tokens.value)),
                       at.offset + LayoutBytes(PositionWidths(layout))))
  }

  function ReadHeading(bytes: seq<byte>, at: Cursor, layout: RecordLayout, selected: bool): Option<Cursor> {
    if !selected then Some(at)
    else
      var tokens := ReadFields(bytes, at.offset, HeadingWidths(layout));
      if tokens.None? then None
      else Some(Cursor(at.entity.(heading := HeadingValue(layout, tokens.value)),
                       at.offset + LayoutBytes(HeadingWidths(layout))))
  }

  function ReadHue(bytes: seq<byte>, at: Cursor, selected: bool): Option<Cursor> {
    if !selected then Some(at)
    else
      Widths();
      var value := ReadBigEndian(bytes, at.offset, 1);
      if value.None? then None else Some(Cursor(at.entity.(hue := value.value), at.offset + 1))
  }

  /** Reads selected fields into a complete entity. */
  function ReadSelectedFields(bytes: seq<byte>, offset: nat, layout: RecordLayout, m: Mask, onto: EntityState)
    : Option<Cursor>
  {
    var a := ReadClassification(bytes, Cursor(onto, offset), m.classification);
    if a.None? then None else
    var b := ReadPosition(bytes, a.value, layout, m.position);
    if b.None? then None else
    var c := ReadHeading(bytes, b.value, layout, m.heading);
    if c.None? then None else ReadHue(bytes, c.value, m.hue)
  }

  const BLANK := EntityState(0, 0, Vec3(0, 0, 0), Vec3(0, 0, 0), 0)

  function ReadRecord(bytes: seq<byte>, offset: nat, layout: RecordLayout): Option<Cursor> {
    Widths();
    var id := ReadBigEndian(bytes, offset, 4);
    if id.None? then None
    else ReadSelectedFields(bytes, offset + 4, layout, ALL_FIELDS, BLANK.(id := id.value))
  }

  /** Cuts bytes that start with a part and what follows it. */
  lemma Cut(bytes: seq<byte>, offset: nat, part: seq<byte>, rest: seq<byte>)
    requires offset <= |bytes| && part + rest <= bytes[offset..]
    ensures offset + |part| <= |bytes|
    ensures bytes[offset..offset + |part|] == part
    ensures rest <= bytes[offset + |part|..]
  {
    var all := part + rest;
    assert bytes[offset..][..|all|] == all;
    assert bytes[offset..offset + |part|] == all[..|part|];
    assert bytes[offset + |part|..][..|rest|] == all[|part|..];
  }

  lemma ReadWrittenByte(bytes: seq<byte>, offset: nat, value: byte, rest: seq<byte>)
    requires offset <= |bytes| && WriteFields([value], [1]) + rest <= bytes[offset..]
    ensures ReadBigEndian(bytes, offset, 1) == Some(value)
    ensures offset + 1 <= |bytes| && rest <= bytes[offset + 1..]
  {
    Widths();
    var part := WriteFields([value], [1]);
    assert part == BigEndian(value, 1) + WriteFields([value][1..], [1][1..]);
    assert part == BigEndian(value, 1);
    Cut(bytes, offset, part, rest);
    BigEndianRoundTrip(value, 1);
  }

  lemma ReadWrittenTokens(bytes: seq<byte>, offset: nat, tokens: seq<nat>, widths: Layout, rest: seq<byte>)
    requires Fits(tokens, widths)
    requires offset <= |bytes| && WriteFields(tokens, widths) + rest <= bytes[offset..]
    ensures ReadFields(bytes, offset, widths) == Some(tokens)
    ensures offset + LayoutBytes(widths) <= |bytes| && rest <= bytes[offset + LayoutBytes(widths)..]
  {
    Cut(bytes, offset, WriteFields(tokens, widths), rest);
    ReadWritten(bytes, offset, tokens, widths);
  }

  lemma StepClassification(bytes: seq<byte>, at: Cursor, m: Mask, e: EntityState, rest: seq<byte>)
    requires at.offset <= |bytes| && FieldPart(m.classification, [e.classification], [1]) + rest <= bytes[at.offset..]
    ensures var next := at.offset + |FieldPart(m.classification, [e.classification], [1])|;
      && next <= |bytes| && rest <= bytes[next..]
      && ReadClassification(bytes, at, m.classification)
           == Some(Cursor(Overwrite(NO_FIELDS.(classification := m.classification), at.entity, e), next))
  {
    if m.classification {
      ReadWrittenByte(bytes, at.offset, e.classification, rest);
    } else {
      assert [] + rest == rest;
    }
  }

  lemma StepHue(bytes: seq<byte>, at: Cursor, m: Mask, e: EntityState)
    requires at.offset <= |bytes| && FieldPart(m.hue, [e.hue], [1]) <= bytes[at.offset..]
    ensures ReadHue(bytes, at, m.hue)
         == Some(Cursor(Overwrite(NO_FIELDS.(hue := m.hue), at.entity, e),
                        at.offset + |FieldPart(m.hue, [e.hue], [1])|))
  {
    if m.hue {
      assert FieldPart(true, [e.hue], [1]) + [] == FieldPart(true, [e.hue], [1]);
      ReadWrittenByte(bytes, at.offset, e.hue, []);
    }
  }

  lemma StepPosition(bytes: seq<byte>, at: Cursor, layout: RecordLayout, m: Mask, e: EntityState, rest: seq<byte>)
    requires at.offset <= |bytes|
    requires FieldPart(m.position, PositionTokens(layout, e.position), PositionWidths(layout)) + rest
          <= bytes[at.offset..]
    ensures var next := at.offset + |FieldPart(m.position, PositionTokens(layout, e.position), PositionWidths(layout))|;
      && next <= |bytes| && rest <= bytes[next..]
      && ReadPosition(bytes, at, layout, m.position)
           == Some(Cursor(Overwrite(NO_FIELDS.(position := m.position), at.entity, Canonical(layout, e)), next))
  {
    TokensFit(layout, e.position, e.heading);
    if m.position {
      ReadWrittenTokens(bytes, at.offset, PositionTokens(layout, e.position), PositionWidths(layout), rest);
    } else {
      assert [] + rest == rest;
    }
  }

  lemma StepHeading(bytes: seq<byte>, at: Cursor, layout: RecordLayout, m: Mask, e: EntityState, rest: seq<byte>)
    requires at.offset <= |bytes|
    requires FieldPart(m.heading, HeadingTokens(layout, e.heading), HeadingWidths(layout)) + rest <= bytes[at.offset..]
    ensures var next := at.offset + |FieldPart(m.heading, HeadingTokens(layout, e.heading), HeadingWidths(layout))|;
      && next <= |bytes| && rest <= bytes[next..]
      && ReadHeading(bytes, at, layout, m.heading)
           == Some(Cursor(Overwrite(NO_FIELDS.(heading := m.heading), at.entity, Canonical(layout, e)), next))
  {
    TokensFit(layout, e.position, e.heading);
    if m.heading {
      ReadWrittenTokens(bytes, at.offset, HeadingTokens(layout, e.heading), HeadingWidths(layout), rest);
    } else {
      assert [] + rest == rest;
    }
  }

  lemma OverwriteInParts(m: Mask, onto: EntityState, from: EntityState)
    ensures var a := Overwrite(NO_FIELDS.(classification := m.classification), onto, from);
      var b := Overwrite(NO_FIELDS.(position := m.position), a, from);
      var c := Overwrite(NO_FIELDS.(heading := m.heading), b, from);
      Overwrite(NO_FIELDS.(hue := m.hue), c, from) == Overwrite(m, onto, from)
  {
  }

  lemma OverwriteSameByte(m: Mask, onto: EntityState, layout: RecordLayout, e: EntityState)
    requires !m.position && !m.heading
    ensures Overwrite(m, onto, e) == Overwrite(m, onto, Canonical(layout, e))
  {
  }

  /** Reading the selected fields of a written record overwrites exactly those fields with the
      canonical ones, and stops right behind them. */
  lemma ReadWrittenFields(bytes: seq<byte>, offset: nat, layout: RecordLayout, m: Mask, e: EntityState,
                          onto: EntityState)
    requires offset <= |bytes| && WriteSelectedFields(layout, m, e) <= bytes[offset..]
    ensures ReadSelectedFields(bytes, offset, layout, m, onto)
         == Some(Cursor(Overwrite(m, onto, Canonical(layout, e)), offset + |WriteSelectedFields(layout, m, e)|))
  {
    hide ReadClassification, ReadPosition, ReadHeading, ReadHue, FieldPart, Canonical, Overwrite;
    var p := FieldPart(m.position, PositionTokens(layout, e.position), PositionWidths(layout));
    var h := FieldPart(m.heading, HeadingTokens(layout, e.heading), HeadingWidths(layout));
    var u := FieldPart(m.hue, [e.hue], [1]);
    var start := Cursor(onto, offset);
    StepClassification(bytes, start, m, e, p + (h + u));
    OverwriteSameByte(NO_FIELDS.(classification := m.classification), onto, layout, e);
    var a := ReadClassification(bytes, start, m.classification).value;
    StepPosition(bytes, a, layout, m, e, h + u);
    var b := ReadPosition(bytes, a, layout, m.position).value;
    StepHeading(bytes, b, layout, m, e, u);
    var c := ReadHeading(bytes, b, layout, m.heading).value;
    StepHue(bytes, c, m, e);
    OverwriteSameByte(NO_FIELDS.(hue := m.hue), c.entity, layout, e);
    OverwriteInParts(m, onto, Canonical(layout, e));
  }

  lemma ReadWrittenRecord(bytes: seq<byte>, offset: nat, layout: RecordLayout, e: EntityState)
    requires offset <= |bytes| && WriteRecord(layout, e) <= bytes[offset..]
    ensures ReadRecord(bytes, offset, layout) == Some(Cursor(Canonical(layout, e), offset + |WriteRecord(layout, e)|))
  {
    Widths();
    var fields := WriteSelectedFields(layout, ALL_FIELDS, e);
    Cut(bytes, offset, BigEndian(e.id, 4), fields);
    BigEndianRoundTrip(e.id, 4);
    ReadWrittenFields(bytes, offset + 4, layout, ALL_FIELDS, e, BLANK.(id := e.id));
  }
}
