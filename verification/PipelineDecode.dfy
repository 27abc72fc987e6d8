/** Decoding of updates: the plain meaning of a payload, in which a masked record looks its entity up
    by id, and the decoder itself, whose search only moves forward through the baseline.

    Models the body half of src/pipeline/src/pipeline_decode.cpp. */
module PipelineDecode {
  import opened Bytes
  import opened Snapshot
  import opened Records
  import opened PipelineWire

  datatype DecodeInput = DecodeInput(bytes: seq<byte>, baseline: Option<WorldSnapshot>, baselineSequence: u32)

  datatype DecodeError =
    | HeaderRefused(error: HeaderError)
    | BaselineSequenceWithoutBaseline
    | BaselineWithoutPatch
    | BaselineSequenceMismatch
    | BaselineInvalid
    | MaskedPatchNeedsBaseline
    | TruncatedDelete
    | TruncatedRecord
    | TruncatedPrefix
    | UpsertIdsNotAscending
    | SelectorInvalid
    | SpawnExists
    | ExistingAbsent
    | TruncatedFields
    | TrailingBytes
    | UpdateInvalid

  datatype DecodeOutcome = Rejected(error: DecodeError) | Accepted(header: UpdateHeader, update: SnapshotUpdate)

  /** A part of the payload that was read, and the offset behind it. */
  datatype Part<+T> = Bad(error: DecodeError) | Good(items: seq<T>, offset: nat)

  function After<T>(done: seq<T>, rest: Part<T>): Part<T> {
    match rest
    case Bad(_) => rest
    case Good(items, offset) => Good(done + items, offset)
  }

  // ---------------------------------------------------------------- the plain meaning

  function DecodeDeletes(bytes: seq<byte>, offset: nat, count: nat): Part<u32>
    decreases count
  {
    if count == 0 then Good([], offset)
    else
      Widths();
      var id := ReadBigEndian(bytes, offset, 4);
      if id.None? then Bad(TruncatedDelete) else After([id.value], DecodeDeletes(bytes, offset + 4, count - 1))
  }

  /** How records are to be read: with masks against a baseline's entities by id, or whole. */
  datatype RecordFormat = Whole | Masked(base: map<u32, EntityState>)

  datatype RecordRead = Failed(error: DecodeError) | Record(entity: EntityState, offset: nat)

  /** An entity to fill in, and the fields that follow for it. */
  datatype Selection = Invalid(error: DecodeError) | Selected(onto: EntityState, fields: Mask)

  function Select(base: map<u32, EntityState>, id: u32, selector: byte, previous: nat): Selection {
    if id <= previous then Invalid(UpsertIdsNotAscending)
    else if selector != SPAWN_SELECTOR && !ValidExistingMask(selector) then Invalid(SelectorInvalid)
    else if selector == SPAWN_SELECTOR && id in base then Invalid(SpawnExists)
    else if selector != SPAWN_SELECTOR && id !in base then Invalid(ExistingAbsent)
    else if selector == SPAWN_SELECTOR then Selected(BLANK.(id := id), ALL_FIELDS)
    else Selected(base[id], ByteMask(selector))
  }

  function DecodeMasked(bytes: seq<byte>, offset: nat, layout: RecordLayout, base: map<u32, EntityState>, previous: nat)
    : RecordRead
  {
    Widths();
    var id := ReadBigEndian(bytes, offset, 4);
    if id.None? then Failed(TruncatedPrefix)
    else
      var selector := ReadBigEndian(bytes, offset + 4, 1);
      if selector.None? then Failed(TruncatedPrefix)
      else
        var selection := Select(base, id.value, selector.value, previous);
        if selection.Invalid? then Failed(selection.error)
        else
          var read := ReadSelectedFields(bytes, offset + 5, layout, selection.fields, selection.onto);
          if read.None? then Failed(TruncatedFields) else Record(read.value.entity, read.value.offset)
  }

  function DecodeRecord(bytes: seq<byte>, offset: nat, layout: RecordLayout, format: RecordFormat, previous: nat)
    : RecordRead
  {
    match format
    case Whole =>
      var read := ReadRecord(bytes, offset, layout);
      if read.None? then Failed(TruncatedRecord) else Record(read.value.entity, read.value.offset)
    case Masked(base) => DecodeMasked(bytes, offset, layout, base, previous)
  }

  function DecodeRecords(bytes: seq<byte>, offset: nat, layout: RecordLayout, format: RecordFormat, previous: nat,
                         count: nat): Part<EntityState>
    decreases count
  {
    if count == 0 then Good([], offset)
    else
      var read := DecodeRecord(bytes, offset, layout, format, previous);
      if read.Failed? then Bad(read.error)
      else After([read.entity], DecodeRecords(bytes, read.offset, layout, format, read.entity.id, count - 1))
  }

  function FormatOf(p: Pipeline, h: UpdateHeader, baseline: Option<WorldSnapshot>): RecordFormat
    requires MaskedPatch(p, h) ==> baseline.Some?
  {
    if MaskedPatch(p, h) then Masked(Table(baseline.value.entities)) else Whole
  }

  function KindOf(h: UpdateHeader): SnapshotKind {
    if IsPatch(h) then Patch else FullReplace
  }

  /** The check of the baseline the caller passes. */
  function BaselineError(p: Pipeline, h: UpdateHeader, input: DecodeInput, validateBaseline: bool)
    : Option<DecodeError>
  {
    if input.baseline.None? then
      if input.baselineSequence != 0 then Some(BaselineSequenceWithoutBaseline)
      else if MaskedPatch(p, h) then Some(MaskedPatchNeedsBaseline)
      else None
    else if !IsPatch(h) then Some(BaselineWithoutPatch)
    else if input.baselineSequence != h.baselineSequence then Some(BaselineSequenceMismatch)
    else if validateBaseline && !ValidSnapshot(input.baseline.value, p.numerics.normalized) then Some(BaselineInvalid)
    else None
  }

  function Finish(p: Pipeline, h: UpdateHeader, bytes: seq<byte>, deletes: seq<u32>, upserts: seq<EntityState>,
                  offset: nat): DecodeOutcome
    requires UpdateHeaderFits(h)
  {
    var update := SnapshotUpdate(h.tick, KindOf(h), upserts, deletes);
    if offset != |bytes| then Rejected(TrailingBytes)
    else if !ValidUpdate(update, p.numerics.normalized) then Rejected(UpdateInvalid)
    else Accepted(h, update)
  }

  function DecodeBody(p: Pipeline, h: UpdateHeader, bytes: seq<byte>, format: RecordFormat): DecodeOutcome
    requires UpdateHeaderFits(h)
  {
    var deletes := DecodeDeletes(bytes, HEADER_BYTES, h.deleteCount);
    if deletes.Bad? then Rejected(deletes.error)
    else
      var upserts := DecodeRecords(bytes, deletes.offset, LayoutOf(p), format, 0, h.upsertCount);
      if upserts.Bad? then Rejected(upserts.error)
      else Finish(p, h, bytes, deletes.items, upserts.items, upserts.offset)
  }

  lemma AdmittedFits(p: Pipeline, latestRemote: nat, bytes: seq<byte>)
    requires InspectHeader(p, latestRemote, bytes).Admitted?
    ensures UpdateHeaderFits(InspectHeader(p, latestRemote, bytes).header)
    ensures InspectHeader(p, latestRemote, bytes).header.sequence > latestRemote
  {
    hide ReadUpdateHeader;
    ReadHeaderFits(bytes);
  }

  function Decode(p: Pipeline, latestRemote: nat, input: DecodeInput, validateBaseline: bool): DecodeOutcome {
    var inspected := InspectHeader(p, latestRemote, input.bytes);
    if inspected.Refused? then Rejected(HeaderRefused(inspected.error))
    else
      AdmittedFits(p, latestRemote, input.bytes);
      var h := inspected.header;
      var error := BaselineError(p, h, input, validateBaseline);
      if error.Some? then Rejected(error.value) else DecodeBody(p, h, input.bytes, FormatOf(p, h, input.baseline))
  }

  function LatestAfter(latestRemote: nat, outcome: DecodeOutcome): nat {
    if outcome.Accepted? then outcome.header.sequence else latestRemote
  }

  // ---------------------------------------------------------------- the decoder

  /** The first index from `from` on whose id is not below `id`. */
  method LowerBound(base: seq<EntityState>, from: nat, id: u32) returns (index: nat)
    requires Ascending(base) && from <= |base|
    requires forall i :: 0 <= i < from ==> base[i].id < id
    ensures from <= index <= |base|
    ensures forall i :: 0 <= i < index ==> base[i].id < id
    ensures forall i :: index <= i < |base| ==> base[i].id >= id
  {
    index := from;
    var end := |base|;
    while index < end
      invariant from <= index <= end <= |base|
      invariant forall i :: 0 <= i < index ==> base[i].id < id
      invariant forall i :: end <= i < |base| ==> base[i].id >= id
    {
      var middle := index + (end - index) / 2;
      if base[middle].id < id {
        index := middle + 1;
      } else {
        end := middle;
      }
    }
  }

  /** What the lower bound finds is what a lookup by id finds. */
  lemma LowerBoundIsLookup(base: seq<EntityState>, index: nat, id: u32)
    requires Ascending(base) && index <= |base|
    requires forall i :: 0 <= i < index ==> base[i].id < id
    requires forall i :: index <= i < |base| ==> base[i].id >= id
    ensures index < |base| && base[index].id == id <==> id in Table(base)
    ensures id in Table(base) ==> Table(base)[id] == base[index]
  {
    if index < |base| && base[index].id == id {
      TableAt(base, index);
    }
    if id in Table(base) {
      var i := TableSound(base, id);
    }
  }

  method ReadDeletes(bytes: seq<byte>, start: nat, count: nat) returns (read: Part<u32>)
    ensures read == DecodeDeletes(bytes, start, count)
  {
    var deletes: seq<u32>, offset := [], start;
    for index := 0 to count
      invariant DecodeDeletes(bytes, start, count) == After(deletes, DecodeDeletes(bytes, offset, count - index))
    {
      Widths();
      var id := ReadBigEndian(bytes, offset, 4);
      if id.None? {
        return Bad(TruncatedDelete);
      }
      AfterAfter(deletes, id.value, DecodeDeletes(bytes, offset + 4, count - index - 1));
      deletes := deletes + [id.value];
      offset := offset + 4;
    }
    read := Good(deletes, offset);
  }

  lemma AfterAfter<T>(done: seq<T>, item: T, rest: Part<T>)
    ensures After(done, After([item], rest)) == After(done + [item], rest)
  {
    if rest.Good? {
      assert done + ([item] + rest.items) == done + [item] + rest.items;
    }
  }

  method ReadWhole(bytes: seq<byte>, start: nat, layout: RecordLayout, count: nat) returns (read: Part<EntityState>)
    ensures read == DecodeRecords(bytes, start, layout, Whole, 0, count)
  {
    hide ReadRecord;
    var upserts: seq<EntityState>, offset := [], start;
    ghost var previous := 0;
    for index := 0 to count
      invariant DecodeRecords(bytes, start, layout, Whole, 0, count)
             == After(upserts, DecodeRecords(bytes, offset, layout, Whole, previous, count - index))
    {
      var record := ReadRecord(bytes, offset, layout);
      if record.None? {
        return Bad(TruncatedRecord);
      }
      var entity := record.value.entity;
      AfterAfter(upserts, entity,
          DecodeRecords(bytes, record.value.offset, layout, Whole, entity.id, count - index - 1));
      upserts := upserts + [entity];
      offset := record.value.offset;
      previous := entity.id;
    }
    read := Good(upserts, offset);
  }

  /** One masked record, read with a cursor that has passed only smaller ids. */
  method ReadMasked(bytes: seq<byte>, start: nat, layout: RecordLayout, base: seq<EntityState>, from: nat,
                    previous: u32, first: bool)
    returns (read: RecordRead, baselineIndex: nat)
    requires Ascending(base) && from <= |base|
    requires first ==> previous == 0 && from == 0
    requires !first ==> previous != 0
    requires forall i :: 0 <= i < from ==> base[i].id <= previous
    ensures read == DecodeMasked(bytes, start, layout, Table(base), previous)
    ensures from <= baselineIndex <= |base|
    ensures read.Record? ==> read.entity.id > previous
    ensures read.Record? ==> forall i :: 0 <= i < baselineIndex ==> base[i].id <= read.entity.id
  {
    baselineIndex := from;
    Widths();
    var id := ReadBigEndian(bytes, start, 4);
    if id.None? {
      return Failed(TruncatedPrefix), baselineIndex;
    }
    var selector := ReadBigEndian(bytes, start + 4, 1);
    if selector.None? {
      return Failed(TruncatedPrefix), baselineIndex;
    }
    if id.value == 0 || (!first && id.value <= previous) {
      return Failed(UpsertIdsNotAscending), baselineIndex;
    }
    var spawn := selector.value == SPAWN_SELECTOR;
    if !spawn && !ValidExistingMask(selector.value) {
      return Failed(SelectorInvalid), baselineIndex;
    }
    baselineIndex := LowerBound(base, from, id.value);
    LowerBoundIsLookup(base, baselineIndex, id.value);
    var found := baselineIndex < |base| && base[baselineIndex].id == id.value;
    if spawn && found {
      return Failed(SpawnExists), baselineIndex;
    }
    if !spawn && !found {
      return Failed(ExistingAbsent), baselineIndex;
    }
    var onto := if spawn then BLANK.(id := id.value) else base[baselineIndex];
    var fields := if spawn then ALL_FIELDS else ByteMask(selector.value);
    var selected := ReadSelectedFields(bytes, start + 5, layout, fields, onto);
    if selected.None? {
      return Failed(TruncatedFields), baselineIndex;
    }
    ReadKeepsId(bytes, start + 5, layout, fields, onto);
    read := Record(selected.value.entity, selected.value.offset);
  }

  lemma ReadKeepsId(bytes: seq<byte>, offset: nat, layout: RecordLayout, m: Mask, onto: EntityState)
    ensures var read := ReadSelectedFields(bytes, offset, layout, m, onto);
      read.Some? ==> read.value.entity.id == onto.id
  {
  }

  method ReadMaskedAll(bytes: seq<byte>, start: nat, layout: RecordLayout, base: seq<EntityState>, count: nat)
    returns (read: Part<EntityState>)
    requires Ascending(base)
    ensures read == DecodeRecords(bytes, start, layout, Masked(Table(base)), 0, count)
  {
    hide DecodeMasked, Table;
    var upserts: seq<EntityState>, offset := [], start;
    var baselineIndex, previous: u32 := 0, 0;
    for index := 0 to count
      invariant baselineIndex <= |base|
      invariant index == 0 ==> previous == 0 && baselineIndex == 0
      invariant index > 0 ==> previous != 0
      invariant forall i :: 0 <= i < baselineIndex ==> base[i].id <= previous
      invariant DecodeRecords(bytes, start, layout, Masked(Table(base)), 0, count)
             == After(upserts, DecodeRecords(bytes, offset, layout, Masked(Table(base)), previous, count - index))
    {
      var record, next := ReadMasked(bytes, offset, layout, base, baselineIndex, previous, index == 0);
      if record.Failed? {
        return Bad(record.error);
      }
      AfterAfter(upserts, record.entity,
                 DecodeRecords(bytes, record.offset, layout, Masked(Table(base)), record.entity.id, count - index - 1));
      upserts := upserts + [record.entity];
      offset := record.offset;
      previous := record.entity.id;
      baselineIndex := next;
    }
    read := Good(upserts, offset);
  }

  /** A client's decoding state. */
  class ClientReplicationState {
    var latestRemoteSequence: u32

    constructor ()
      ensures latestRemoteSequence == 0
    {
      latestRemoteSequence := 0;
    }

    /** The unchecked variant leaves the baseline's validity to the caller. */
    method DecodeUpdate(p: Pipeline, input: DecodeInput, validateBaseline: bool) returns (outcome: DecodeOutcome)
      requires !validateBaseline && input.baseline.Some? ==> Ascending(input.baseline.value.entities)
      modifies this
      ensures outcome == Decode(p, old(latestRemoteSequence), input, validateBaseline)
      ensures latestRemoteSequence == LatestAfter(old(latestRemoteSequence), outcome)
      ensures outcome.Accepted? ==> latestRemoteSequence > old(latestRemoteSequence)
      ensures outcome.Accepted? ==>
        ReadFields(input.bytes, 0, [4, 2, 2, 8])
          == Some([0x534E504C, 1, if p.deltaFieldMask then 6 else 5, p.signature])
    {
      hide InspectHeader;
      hide ReadRecord;
      var inspected := InspectHeader(p, latestRemoteSequence, input.bytes);
      if inspected.Refused? {
        return Rejected(HeaderRefused(inspected.error));
      }
      AdmittedFits(p, latestRemoteSequence, input.bytes);
      var h := inspected.header;
      var error := BaselineError(p, h, input, validateBaseline);
      if error.Some? {
        return Rejected(error.value);
      }
      var deletes := ReadDeletes(input.bytes, HEADER_BYTES, h.deleteCount);
      if deletes.Bad? {
        return Rejected(deletes.error);
      }
      var upserts;
      if MaskedPatch(p, h) {
        upserts := ReadMaskedAll(
            input.bytes, deletes.offset, LayoutOf(p), input.baseline.value.entities, h.upsertCount);
      } else {
        upserts := ReadWhole(input.bytes, deletes.offset, LayoutOf(p), h.upsertCount);
      }
      if upserts.Bad? {
        return Rejected(upserts.error);
      }
      outcome := Finish(p, h, input.bytes, deletes.items, upserts.items, upserts.offset);
      if outcome.Accepted? {
        AdmittedBegins(p, latestRemoteSequence, input.bytes);
        latestRemoteSequence := h.sequence;
      }
    }
  }

  // ---------------------------------------------------------------- what acceptance means

  /** What the selected fields at `offset` say, read into a blank entity. */
  function Sent(bytes: seq<byte>, offset: nat, layout: RecordLayout, fields: Mask): EntityState {
    var read := ReadSelectedFields(bytes, offset, layout, fields, BLANK);
    if read.None? then BLANK else read.value.entity
  }

  /** The record at `offset` carries the entity's id, a selector, and exactly the fields that the selector
      names. With a mask the id is in the baseline, at least one field is sent, and the entity is the
      baseline's with the sent fields in place of its own; a spawn sends every field of an absent id. */
  ghost predicate RecordStands(bytes: seq<byte>, offset: nat, layout: RecordLayout, base: map<u32, EntityState>,
                               entity: EntityState, end: nat) {
    var selector := ReadBigEndian(bytes, offset + 4, 1);
    && ReadBigEndian(bytes, offset, 4) == Some(entity.id)
    && selector.Some?
    && if selector.value == SPAWN_SELECTOR then
         && entity.id !in base
         && entity == Sent(bytes, offset + 5, layout, ALL_FIELDS).(id := entity.id)
         && end == offset + 5 + SelectedBytes(layout, ALL_FIELDS)
       else
         var fields := ByteMask(selector.value);
         && entity.id in base
         && fields != NO_FIELDS && MaskByte(fields) == selector.value
         && entity == Overwrite(fields, base[entity.id], Sent(bytes, offset + 5, layout, fields))
         && end == offset + 5 + SelectedBytes(layout, fields)
  }

  /** Such records stand back to back from `offset` to `end`. */
  ghost predicate RecordsStand(bytes: seq<byte>, offset: nat, layout: RecordLayout, base: map<u32, EntityState>,
                               entities: seq<EntityState>, end: nat)
    decreases entities
  {
    if entities == [] then offset == end
    else exists next: nat :: RecordStands(bytes, offset, layout, base, entities[0], next)
                        && RecordsStand(bytes, next, layout, base, entities[1..], end)
  }

  /** What is read does not depend on the entity it is read into, nor does where it ends. */
  lemma ReadIsOverwrite(bytes: seq<byte>, offset: nat, layout: RecordLayout, fields: Mask, onto: EntityState)
    requires ReadSelectedFields(bytes, offset, layout, fields, onto).Some?
    ensures var read := ReadSelectedFields(bytes, offset, layout, fields, onto).value;
      && read.entity == Overwrite(fields, onto, Sent(bytes, offset, layout, fields))
      && read.offset == offset + SelectedBytes(layout, fields)
  {
    hide ReadBigEndian, ReadFields, PositionValue, HeadingValue;
    WidthBytes(layout);
  }

  lemma SelectorIsMask(selector: byte)
    requires ValidExistingMask(selector)
    ensures ByteMask(selector) != NO_FIELDS && MaskByte(ByteMask(selector)) == selector
  {
  }

  lemma {:induction false} RecordsAscend(bytes: seq<byte>, offset: nat, layout: RecordLayout,
                                         base: map<u32, EntityState>, previous: nat, count: nat)
    requires DecodeRecords(bytes, offset, layout, Masked(base), previous, count).Good?
    requires forall id :: id in base ==> base[id].id == id
    ensures var read := DecodeRecords(bytes, offset, layout, Masked(base), previous, count);
      && |read.items| == count
      && Ascending(read.items)
      && (forall i :: 0 <= i < |read.items| ==> read.items[i].id > previous)
      && RecordsStand(bytes, offset, layout, base, read.items, read.offset)
    decreases count
  {
    hide DecodeMasked, RecordStands;
    if count > 0 {
      var read := DecodeRecord(bytes, offset, layout, Masked(base), previous);
      RecordsAscend(bytes, read.offset, layout, base, read.entity.id, count - 1);
      MaskedRecordMeaning(bytes, offset, layout, base, previous);
      var items := DecodeRecords(bytes, offset, layout, Masked(base), previous, count).items;
      assert items[1..] == DecodeRecords(bytes, read.offset, layout, Masked(base), read.entity.id, count - 1).items;
    }
  }

  lemma MaskedRecordMeaning(bytes: seq<byte>, offset: nat, layout: RecordLayout, base: map<u32, EntityState>,
                            previous: nat)
    requires DecodeMasked(bytes, offset, layout, base, previous).Record?
    requires forall id :: id in base ==> base[id].id == id
    ensures var read := DecodeMasked(bytes, offset, layout, base, previous);
      read.entity.id > previous && RecordStands(bytes, offset, layout, base, read.entity, read.offset)
  {
    hide ReadSelectedFields, Sent, SelectedBytes;
    Widths();
    var id := ReadBigEndian(bytes, offset, 4).value;
    var selector := ReadBigEndian(bytes, offset + 4, 1).value;
    var selection := Select(base, id, selector, previous);
    ReadIsOverwrite(bytes, offset + 5, layout, selection.fields, selection.onto);
    if selector != SPAWN_SELECTOR {
      SelectorIsMask(selector);
    }
  }

  lemma {:induction false} DeletesFill(bytes: seq<byte>, offset: nat, count: nat)
    requires DecodeDeletes(bytes, offset, count).Good?
    ensures DecodeDeletes(bytes, offset, count).offset == offset + DELETE_RECORD_BYTES * count
    ensures |DecodeDeletes(bytes, offset, count).items| == count
    decreases count
  {
    if count > 0 {
      DeletesFill(bytes, offset + 4, count - 1);
    }
  }

  lemma {:induction false} TableKeepsIds(entities: seq<EntityState>)
    ensures forall id :: id in Table(entities) ==> Table(entities)[id].id == id
  {
    forall id | id in Table(entities)
      ensures Table(entities)[id].id == id
    {
      var i := TableSound(entities, id);
    }
  }

  /** An accepted field-mask Patch is exactly what its bytes say of its baseline: behind the deletes stand,
      back to back and up to the last byte, as many records as announced, ids ascending, each a baseline
      entity overwritten by the fields sent or a complete spawn of an absent id. */
  lemma AcceptedPatchMeaning(p: Pipeline, latestRemote: nat, input: DecodeInput, validateBaseline: bool)
    requires Decode(p, latestRemote, input, validateBaseline).Accepted?
    requires MaskedPatch(p, Decode(p, latestRemote, input, validateBaseline).header)
    ensures var outcome := Decode(p, latestRemote, input, validateBaseline);
      var h, update := outcome.header, outcome.update;
      && input.baseline.Some? && input.baselineSequence == h.baselineSequence
      && update.kind == Patch && update.tick == h.tick
      && |update.deletes| == h.deleteCount && |update.upserts| == h.upsertCount
      && Ascending(update.upserts)
      && RecordsStand(input.bytes, HEADER_BYTES + DELETE_RECORD_BYTES * h.deleteCount, LayoutOf(p),
                      Table(input.baseline.value.entities), update.upserts, |input.bytes|)
  {
    hide InspectHeader, RecordsStand, DecodeRecords, DecodeDeletes, ValidUpdate;
    AdmittedFits(p, latestRemote, input.bytes);
    var h := InspectHeader(p, latestRemote, input.bytes).header;
    var base := Table(input.baseline.value.entities);
    TableKeepsIds(input.baseline.value.entities);
    DeletesFill(input.bytes, HEADER_BYTES, h.deleteCount);
    RecordsAscend(input.bytes, HEADER_BYTES + DELETE_RECORD_BYTES * h.deleteCount, LayoutOf(p), base, 0, h.upsertCount);
  }

  // ---------------------------------------------------------------- traces

  datatype Attempt = Attempt(input: DecodeInput, validateBaseline: bool)

  function Latest(p: Pipeline, start: nat, attempts: seq<Attempt>): nat {
    if attempts == [] then start
    else
      var last := attempts[|attempts| - 1];
      var before := Latest(p, start, attempts[..|attempts| - 1]);
      LatestAfter(before, Decode(p, before, last.input, last.validateBaseline))
  }

  /** The sequences accepted over a trace, in order. */
  function AcceptedSequences(p: Pipeline, start: nat, attempts: seq<Attempt>): seq<nat> {
    if attempts == [] then []
    else
      var init := attempts[..|attempts| - 1];
      var last := attempts[|attempts| - 1];
      var outcome := Decode(p, Latest(p, start, init), last.input, last.validateBaseline);
      AcceptedSequences(p, start, init) + if outcome.Accepted? then [outcome.header.sequence] else []
  }

  /** Whatever arrives, accepted sequences strictly increase, and the latest one is remembered. */
  lemma {:induction false} AcceptedSequencesIncrease(p: Pipeline, start: nat, attempts: seq<Attempt>)
    ensures var sequences := AcceptedSequences(p, start, attempts);
      && (forall i, j :: 0 <= i < j < |sequences| ==> sequences[i] < sequences[j])
      && (forall i :: 0 <= i < |sequences| ==> start < sequences[i] <= Latest(p, start, attempts))
      && Latest(p, start, attempts) == if sequences == [] then start else sequences[|sequences| - 1]
  {
    hide Decode, InspectHeader;
    if attempts != [] {
      var init := attempts[..|attempts| - 1];
      var last := attempts[|attempts| - 1];
      AcceptedSequencesIncrease(p, start, init);
      var before := Latest(p, start, init);
      AcceptedIsNewer(p, before, last.input, last.validateBaseline);
    }
  }

  /** What is accepted is newer than everything before, and begins with the numbers of this pipeline. */
  lemma AcceptedIsNewer(p: Pipeline, latestRemote: nat, input: DecodeInput, validateBaseline: bool)
    ensures var outcome := Decode(p, latestRemote, input, validateBaseline);
      outcome.Accepted? ==>
        && outcome.header.sequence > latestRemote
        && InspectHeader(p, latestRemote, input.bytes) == Admitted(outcome.header)
        && ReadFields(input.bytes, 0, [4, 2, 2, 8])
             == Some([0x534E504C, 1, if p.deltaFieldMask then 6 else 5, p.signature])
  {
    hide InspectHeader, ReadFields;
    if InspectHeader(p, latestRemote, input.bytes).Admitted? {
      AdmittedFits(p, latestRemote, input.bytes);
      AdmittedBegins(p, latestRemote, input.bytes);
    }
  }
}
