/** When an update is accepted and what it then says, in the numbers on the wire and the caller's arguments.

    Models src/pipeline/src/pipeline_decode.cpp, src/pipeline/private/pipeline_records.cppm and
    src/snapshot/import/snapshot_validate.cppm. */
module DecodeRules {
  import opened Bytes
  import opened Snapshot
  import opened Records
  import opened PipelineWire
  import opened PipelineDecode

  // ---------------------------------------------------------------- values

  /** The binary32 bit patterns that are neither an infinity nor not a number. */
  predicate FinitePattern(bits: u32) {
    bits < 0x7F80_0000 || 0x8000_0000 <= bits < 0xFF80_0000
  }

  lemma FiniteExactly(bits: u32)
    ensures FiniteBits(bits) <==> FinitePattern(bits)
  {
    var high, low := bits / 0x80_0000, bits % 0x80_0000;
    assert bits == high * 0x80_0000 + low;
  }

  /** The entities a snapshot may hold. */
  predicate Stands(e: EntityState, normalized: Vec3 -> bool) {
    && e.id > 0 && e.classification > 0 && normalized(e.heading)
    && FinitePattern(e.position.x) && FinitePattern(e.position.y) && FinitePattern(e.position.z)
    && FinitePattern(e.heading.x) && FinitePattern(e.heading.y) && FinitePattern(e.heading.z)
  }

  lemma EntityExactly(e: EntityState, normalized: Vec3 -> bool)
    ensures ValidEntity(e, normalized) <==> Stands(e, normalized)
  {
    hide FiniteBits, FinitePattern;
    FiniteExactly(e.position.x);
    FiniteExactly(e.position.y);
    FiniteExactly(e.position.z);
    FiniteExactly(e.heading.x);
    FiniteExactly(e.heading.y);
    FiniteExactly(e.heading.z);
  }

  ghost predicate SnapshotStands(snapshot: WorldSnapshot, normalized: Vec3 -> bool) {
    && (forall e :: e in snapshot.entities ==> Stands(e, normalized))
    && forall i, j :: 0 <= i < j < |snapshot.entities| ==> snapshot.entities[i].id < snapshot.entities[j].id
  }

  /** An update deletes nothing when it replaces everything, and never what it upserts. */
  ghost predicate UpdateStands(update: SnapshotUpdate, normalized: Vec3 -> bool) {
    && (update.kind == FullReplace ==> update.deletes == [])
    && (forall e :: e in update.upserts ==> Stands(e, normalized) && e.id !in update.deletes)
    && (forall i, j :: 0 <= i < j < |update.upserts| ==> update.upserts[i].id < update.upserts[j].id)
    && (forall id :: id in update.deletes ==> id > 0)
    && forall i, j :: 0 <= i < j < |update.deletes| ==> update.deletes[i] < update.deletes[j]
  }

  lemma SnapshotExactly(snapshot: WorldSnapshot, normalized: Vec3 -> bool)
    ensures ValidSnapshot(snapshot, normalized) <==> SnapshotStands(snapshot, normalized)
  {
    hide Stands, ValidEntity;
    forall i | 0 <= i < |snapshot.entities|
      ensures snapshot.entities[i] in snapshot.entities
      ensures ValidEntity(snapshot.entities[i], normalized) <==> Stands(snapshot.entities[i], normalized)
    {
      EntityExactly(snapshot.entities[i], normalized);
    }
  }

  lemma UpdateExactly(update: SnapshotUpdate, normalized: Vec3 -> bool)
    ensures ValidUpdate(update, normalized) <==> UpdateStands(update, normalized)
  {
    hide Stands, ValidEntity;
    forall i | 0 <= i < |update.upserts|
      ensures update.upserts[i] in update.upserts
      ensures ValidEntity(update.upserts[i], normalized) <==> Stands(update.upserts[i], normalized)
    {
      EntityExactly(update.upserts[i], normalized);
    }
    assert forall i :: 0 <= i < |update.deletes| ==> update.deletes[i] in update.deletes;
  }

  // ---------------------------------------------------------------- the baseline passed

  /** The baseline a caller may pass: none under sequence 0, unless the records are masked; or, for a Patch, one
      under the sequence the header names, valid where that is checked. */
  ghost predicate BaselineStands(p: Pipeline, h: UpdateHeader, input: DecodeInput, validateBaseline: bool) {
    if input.baseline.None? then input.baselineSequence == 0 && !(p.deltaFieldMask && h.kind == 1)
    else
      && h.kind == 1 && input.baselineSequence == h.baselineSequence
      && (validateBaseline ==> SnapshotStands(input.baseline.value, p.numerics.normalized))
  }

  lemma BaselineExactly(p: Pipeline, h: UpdateHeader, input: DecodeInput, validateBaseline: bool)
    ensures var error := BaselineError(p, h, input, validateBaseline);
      && (error.None? <==> BaselineStands(p, h, input, validateBaseline))
      && (error.Some? ==>
            error.value ==
            if input.baseline.None? && input.baselineSequence != 0 then BaselineSequenceWithoutBaseline
            else if input.baseline.None? then MaskedPatchNeedsBaseline
            else if h.kind != 1 then BaselineWithoutPatch
            else if input.baselineSequence != h.baselineSequence then BaselineSequenceMismatch
            else BaselineInvalid)
  {
    hide SnapshotStands, ValidSnapshot;
    if input.baseline.Some? {
      SnapshotExactly(input.baseline.value, p.numerics.normalized);
    }
  }

  // ---------------------------------------------------------------- one record

  function Number(bytes: seq<byte>, offset: nat, width: nat): nat {
    if offset + width <= |bytes| then FromBigEndian(bytes[offset..offset + width]) else 0
  }

  lemma NumberFits(bytes: seq<byte>, offset: nat)
    ensures Number(bytes, offset, 1) < 0x100 && Number(bytes, offset, 2) < 0x1_0000
    ensures Number(bytes, offset, 4) < 0x1_0000_0000
  {
    Capacities();
  }

  /** The position and the heading that stand at an offset. */
  function PositionAt(bytes: seq<byte>, at: nat, layout: RecordLayout): Vec3 {
    NumberFits(bytes, at);
    NumberFits(bytes, at + 2);
    NumberFits(bytes, at + 4);
    NumberFits(bytes, at + 8);
    if layout.quantized then
      layout.numerics.dequantizePosition(Number(bytes, at, 2), Number(bytes, at + 2, 2), Number(bytes, at + 4, 2))
    else Vec3(Number(bytes, at, 4), Number(bytes, at + 4, 4), Number(bytes, at + 8, 4))
  }

  function HeadingAt(bytes: seq<byte>, at: nat, layout: RecordLayout): Vec3 {
    NumberFits(bytes, at);
    NumberFits(bytes, at + 2);
    NumberFits(bytes, at + 4);
    NumberFits(bytes, at + 8);
    if layout.quantized && layout.octHeading then
      layout.numerics.decodeOctHeading(Number(bytes, at, 2), Number(bytes, at + 2, 2))
    else if layout.quantized then
      layout.numerics.dequantizeHeading(Number(bytes, at, 2), Number(bytes, at + 2, 2), Number(bytes, at + 4, 2))
    else Vec3(Number(bytes, at, 4), Number(bytes, at + 4, 4), Number(bytes, at + 8, 4))
  }

  lemma ReadPositionAt(bytes: seq<byte>, at: Cursor, layout: RecordLayout)
    ensures var size := if layout.quantized then 6 else 12;
      ReadPosition(bytes, at, layout, true)
      == if at.offset + size <= |bytes|
         then Some(Cursor(at.entity.(position := PositionAt(bytes, at.offset, layout)), at.offset + size)) else None
  {
    hide FromBigEndian;
    WidthBytes(layout);
    NumberFits(bytes, at.offset);
    ReadThree(bytes, at.offset, PositionWidths(layout));
  }

  lemma ReadHeadingAt(bytes: seq<byte>, at: Cursor, layout: RecordLayout)
    ensures var size := if !layout.quantized then 12 else if layout.octHeading then 4 else 6;
      ReadHeading(bytes, at, layout, true)
      == if at.offset + size <= |bytes|
         then Some(Cursor(at.entity.(heading := HeadingAt(bytes, at.offset, layout)), at.offset + size)) else None
  {
    hide FromBigEndian;
    WidthBytes(layout);
    NumberFits(bytes, at.offset);
    if layout.quantized && layout.octHeading {
      ReadTwo(bytes, at.offset, HeadingWidths(layout));
    } else {
      ReadThree(bytes, at.offset, HeadingWidths(layout));
    }
  }

  /** A whole record: four bytes of id, the classification, the position, the heading and the hue. */
  lemma RecordAt(bytes: seq<byte>, at: nat, layout: RecordLayout)
    requires ValidLayout(layout)
    ensures var size := if !layout.quantized then 30 else if layout.octHeading then 16 else 18;
      if at + size > |bytes| then ReadRecord(bytes, at, layout).None?
      else
        && ReadRecord(bytes, at, layout).Some?
        && var read := ReadRecord(bytes, at, layout).value;
        && read.offset == at + size
        && read.entity.id == Number(bytes, at, 4)
        && read.entity.classification == Number(bytes, at + 4, 1)
        && read.entity.position == PositionAt(bytes, at + 5, layout)
        && read.entity.heading == HeadingAt(bytes, at + if layout.quantized then 11 else 17, layout)
        && read.entity.hue == Number(bytes, at + size - 1, 1)
  {
    hide FromBigEndian, ReadPosition, ReadHeading, PositionAt, HeadingAt;
    Widths();
    if at + 5 <= |bytes| {
      var id := Number(bytes, at, 4);
      NumberFits(bytes, at);
      var a := ReadClassification(bytes, Cursor(BLANK.(id := id), at + 4), true).value;
      ReadPositionAt(bytes, a, layout);
      var b := ReadPosition(bytes, a, layout, true);
      if b.Some? {
        ReadHeadingAt(bytes, b.value, layout);
      }
    }
  }

  // ---------------------------------------------------------------- updates of whole records

  lemma {:induction false} DeletesParse(bytes: seq<byte>, offset: nat, count: nat)
    requires offset + 4 * count <= |bytes|
    ensures var read := DecodeDeletes(bytes, offset, count);
      && read.Good? && read.offset == offset + 4 * count && |read.items| == count
      && forall i :: 0 <= i < count ==> read.items[i] == Number(bytes, offset + 4 * i, 4)
    decreases count
  {
    hide Number;
    if count > 0 {
      Widths();
      DeletesParse(bytes, offset + 4, count - 1);
      var rest := DecodeDeletes(bytes, offset + 4, count - 1);
      var read := DecodeDeletes(bytes, offset, count);
      assert read.items == [ReadBigEndian(bytes, offset, 4).value] + rest.items;
      FirstNumber(bytes, offset);
      forall i | 0 < i < count
        ensures read.items[i] == Number(bytes, offset + 4 * i, 4)
      {
        assert read.items[i] == rest.items[i - 1];
      }
    }
  }

  lemma FirstNumber(bytes: seq<byte>, offset: nat)
    requires offset + 4 <= |bytes|
    ensures ReadBigEndian(bytes, offset, 4) == Some(Number(bytes, offset, 4))
  {
  }

  /** Where the `i`-th of the records that start at `offset` stands. */
  function RecordStart(layout: RecordLayout, offset: nat, i: nat): nat {
    offset + i * RecordBytes(layout)
  }

  lemma StartsAfter(layout: RecordLayout, offset: nat, i: nat)
    requires i > 0
    ensures RecordStart(layout, offset + RecordBytes(layout), i - 1) == RecordStart(layout, offset, i)
  {
  }

  lemma {:induction false} RecordsParse(bytes: seq<byte>, offset: nat, layout: RecordLayout, previous: nat, count: nat)
    requires ValidLayout(layout) && RecordStart(layout, offset, count) <= |bytes|
    ensures var read := DecodeRecords(bytes, offset, layout, Whole, previous, count);
      && read.Good? && read.offset == RecordStart(layout, offset, count) && |read.items| == count
      && forall i :: 0 <= i < count ==>
           var record := ReadRecord(bytes, RecordStart(layout, offset, i), layout);
           record.Some? && record.value.entity == read.items[i]
    decreases count
  {
    hide ReadRecord, RecordBytes, RecordStart;
    StartOf(layout, offset);
    if count > 0 {
      StartsAfter(layout, offset, count);
      RecordFits(bytes, offset, layout, count);
      var record := ReadRecord(bytes, offset, layout).value;
      RecordsParse(bytes, record.offset, layout, record.entity.id, count - 1);
      var rest := DecodeRecords(bytes, record.offset, layout, Whole, record.entity.id, count - 1);
      var read := DecodeRecords(bytes, offset, layout, Whole, previous, count);
      assert read.items == [record.entity] + rest.items;
      forall i | 0 <= i < count
        ensures var one := ReadRecord(bytes, RecordStart(layout, offset, i), layout);
          one.Some? && one.value.entity == read.items[i]
      {
        if i > 0 {
          StartsAfter(layout, offset, i);
          assert read.items[i] == rest.items[i - 1];
        }
      }
    }
  }

  lemma StartOf(layout: RecordLayout, offset: nat)
    ensures RecordStart(layout, offset, 0) == offset
  {
  }

  lemma RecordFits(bytes: seq<byte>, offset: nat, layout: RecordLayout, count: nat)
    requires ValidLayout(layout) && count > 0 && RecordStart(layout, offset, count) <= |bytes|
    ensures ReadRecord(bytes, offset, layout).Some?
    ensures ReadRecord(bytes, offset, layout).value.offset == offset + RecordBytes(layout)
  {
    hide ReadRecord;
    RecordAt(bytes, offset, layout);
  }

  /** An admitted update of whole records can no longer be truncated nor have bytes to spare: its deletes and
      records are where the counts say, and only the values can still be refused. */
  lemma WholeDecoded(p: Pipeline, latestRemote: nat, input: DecodeInput, validateBaseline: bool)
    returns (update: SnapshotUpdate)
    requires InspectHeader(p, latestRemote, input.bytes).Admitted?
    requires var h := InspectHeader(p, latestRemote, input.bytes).header;
      BaselineStands(p, h, input, validateBaseline) && !(p.deltaFieldMask && h.kind == 1)
    ensures var h := InspectHeader(p, latestRemote, input.bytes).header;
      var layout, start := LayoutOf(p), 45 + 4 * h.deleteCount;
      && update.tick == h.tick && (update.kind == Patch <==> h.kind == 1)
      && |update.deletes| == h.deleteCount && |update.upserts| == h.upsertCount
      && (forall i :: 0 <= i < h.deleteCount ==> update.deletes[i] == Number(input.bytes, 45 + 4 * i, 4))
      && (forall i :: 0 <= i < h.upsertCount ==>
            var record := ReadRecord(input.bytes, RecordStart(layout, start, i), layout);
            record.Some? && record.value.entity == update.upserts[i])
      && Decode(p, latestRemote, input, validateBaseline)
           == if UpdateStands(update, p.numerics.normalized) then Accepted(h, update) else Rejected(UpdateInvalid)
  {
    hide InspectHeader, BaselineStands, BaselineError, DecodeDeletes, DecodeRecords, ReadRecord, ValidUpdate, Number;
    hide UpdateStands, RecordStart;
    AdmittedFits(p, latestRemote, input.bytes);
    var h := InspectHeader(p, latestRemote, input.bytes).header;
    BaselineExactly(p, h, input, validateBaseline);
    WholeSize(p, latestRemote, input.bytes);
    DeletesParse(input.bytes, 45, h.deleteCount);
    RecordsParse(input.bytes, 45 + 4 * h.deleteCount, LayoutOf(p), 0, h.upsertCount);
    update := SnapshotUpdate(h.tick, KindOf(h),
        DecodeRecords(input.bytes, 45 + 4 * h.deleteCount, LayoutOf(p), Whole, 0, h.upsertCount).items,
        DecodeDeletes(input.bytes, 45, h.deleteCount).items);
    UpdateExactly(update, p.numerics.normalized);
  }

  lemma WholeSize(p: Pipeline, latestRemote: nat, bytes: seq<byte>)
    requires InspectHeader(p, latestRemote, bytes).Admitted?
    requires !(p.deltaFieldMask && InspectHeader(p, latestRemote, bytes).header.kind == 1)
    ensures var h := InspectHeader(p, latestRemote, bytes).header;
      && ValidLayout(LayoutOf(p))
      && |bytes| == RecordStart(LayoutOf(p), 45 + 4 * h.deleteCount, h.upsertCount)
      && 45 + 4 * h.deleteCount <= |bytes|
  {
    hide ReadUpdateHeader;
  }

  // ---------------------------------------------------------------- field-masked records

  /** The bytes that follow a selector: all the fields for a spawn, otherwise those of its four low bits. */
  function FieldBytes(layout: RecordLayout, selector: byte): nat {
    var position := if layout.quantized then 6 else 12;
    var heading := if !layout.quantized then 12 else if layout.octHeading then 4 else 6;
    if selector == 0x80 then 2 + position + heading
    else
      (if selector % 2 == 1 then 1 else 0) + (if selector / 2 % 2 == 1 then position else 0)
      + (if selector / 4 % 2 == 1 then heading else 0) + (if selector / 8 % 2 == 1 then 1 else 0)
  }

  /** A masked record is read exactly when its id and selector are there, ids ascend, the selector is 128 for an id
      that the baseline lacks or 1 to 15 for one that it has, and the fields it names are there. */
  lemma MaskedExactly(bytes: seq<byte>, offset: nat, layout: RecordLayout, base: map<u32, EntityState>, previous: nat)
    ensures var read := DecodeMasked(bytes, offset, layout, base, previous);
      var id, selector := Number(bytes, offset, 4), Number(bytes, offset + 4, 1);
      var size := 5 + if selector < 0x100 then FieldBytes(layout, selector) else 0;
      && (read.Record? <==>
            && offset + 5 <= |bytes| && id > previous
            && ((selector == 0x80 && id !in base) || (1 <= selector <= 15 && id in base))
            && offset + size <= |bytes|)
      && (read.Record? ==> read.offset == offset + size)
      && (read.Failed? ==>
            read.error ==
            if offset + 5 > |bytes| then TruncatedPrefix
            else if id <= previous then UpsertIdsNotAscending
            else if selector != 0x80 && (selector == 0 || selector > 15) then SelectorInvalid
            else if selector == 0x80 && id in base then SpawnExists
            else if selector != 0x80 && id !in base then ExistingAbsent
            else TruncatedFields)
  {
    hide ReadSelectedFields, FromBigEndian, FieldBytes, ByteMask;
    Widths();
    NumberFits(bytes, offset);
    NumberFits(bytes, offset + 4);
    if offset + 5 <= |bytes| {
      var id, selector := ReadBigEndian(bytes, offset, 4).value, ReadBigEndian(bytes, offset + 4, 1).value;
      assert id == Number(bytes, offset, 4) && selector == Number(bytes, offset + 4, 1);
      var selection := Select(base, id, selector, previous);
      if selection.Selected? {
        SelectedReadable(bytes, offset + 5, layout, selection.fields, selection.onto);
        FieldBytesOf(layout, selector);
      }
    }
  }

  lemma FieldBytesOf(layout: RecordLayout, selector: byte)
    ensures SelectedBytes(layout, if selector == SPAWN_SELECTOR then ALL_FIELDS else ByteMask(selector))
         == FieldBytes(layout, selector)
  {
  }

  lemma SelectedReadable(bytes: seq<byte>, offset: nat, layout: RecordLayout, fields: Mask, onto: EntityState)
    ensures var read := ReadSelectedFields(bytes, offset, layout, fields, onto);
      && (read.Some? <==> fields == NO_FIELDS || offset + SelectedBytes(layout, fields) <= |bytes|)
      && (read.Some? ==> read.value.offset == offset + SelectedBytes(layout, fields))
  {
    hide FromBigEndian, PositionValue, HeadingValue;
    WidthBytes(layout);
  }

  // ---------------------------------------------------------------- acceptance

  /** Whatever is accepted, masked or whole: its first bytes name the format and this pipeline, its header stands,
      its baseline is the one the header names, and its values are valid. */
  lemma AcceptedStands(p: Pipeline, latestRemote: nat, input: DecodeInput, validateBaseline: bool)
    requires Decode(p, latestRemote, input, validateBaseline).Accepted?
    ensures var outcome := Decode(p, latestRemote, input, validateBaseline);
      var h, update := outcome.header, outcome.update;
      var read := ReadFields(input.bytes, 0, [4, 2, 2, 8, 1, 8, 4, 4, 4, 4, 4]);
      && ReadFields(input.bytes, 0, [4, 2, 2, 8])
           == Some([0x534E504C, 1, if p.deltaFieldMask then 6 else 5, p.signature])
      && read == Some(UpdateValues(h)) && HeaderStands(p, latestRemote, read.value, |input.bytes|)
      && BaselineStands(p, h, input, validateBaseline)
      && update.tick == h.tick && (update.kind == Patch <==> h.kind == 1)
      && UpdateStands(update, p.numerics.normalized)
  {
    hide Decode, InspectHeader, BaselineStands, BaselineError, ValidUpdate, UpdateStands;
    hide HeaderStands, ReadFields, UpdateValues;
    AcceptedParts(p, latestRemote, input, validateBaseline);
    AdmittedBegins(p, latestRemote, input.bytes);
    AdmittedExactly(p, latestRemote, input.bytes);
    BaselineExactly(p, InspectHeader(p, latestRemote, input.bytes).header, input, validateBaseline);
    UpdateExactly(Decode(p, latestRemote, input, validateBaseline).update, p.numerics.normalized);
  }

  lemma AcceptedParts(p: Pipeline, latestRemote: nat, input: DecodeInput, validateBaseline: bool)
    requires Decode(p, latestRemote, input, validateBaseline).Accepted?
    ensures var outcome := Decode(p, latestRemote, input, validateBaseline);
      var h, update := outcome.header, outcome.update;
      && InspectHeader(p, latestRemote, input.bytes) == Admitted(h)
      && BaselineError(p, h, input, validateBaseline).None?
      && update.tick == h.tick && (update.kind == Patch <==> h.kind == 1)
      && ValidUpdate(update, p.numerics.normalized)
  {
    hide InspectHeader, BaselineError, DecodeDeletes, DecodeRecords, ValidUpdate, UpdateHeaderFits;
    AdmittedFits(p, latestRemote, input.bytes);
  }
}
