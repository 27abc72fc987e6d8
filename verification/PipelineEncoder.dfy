/** The encoder as it is implemented: scratch vectors that are reused between calls and filled by
    loops with moving cursors, and the per-client state updated at the end. Every method is proved
    against the specification of `PipelineEncode.dfy`, whatever the scratch held before.

    Models src/pipeline/src/pipeline_encode.cpp and src/pipeline/private/pipeline_selection.cppm. */
module PipelineEncoder {
  import opened Bytes
  import opened Snapshot
  import opened Records
  import opened PipelineWire
  import opened PipelineEncode
  import opened PipelineRoundTrip
  import opened IndexSelection
  import EncodeRules
  import PipelineDecode

  // ---------------------------------------------------------------- delta records

  /** What filtering entities against a baseline leaves: how many, their records, their canonical form. */
  datatype Delta = Delta(count: nat, records: seq<byte>, upserts: seq<EntityState>)

  function Joined(a: Delta, b: Delta): Delta {
    Delta(a.count + b.count, a.records + b.records, a.upserts + b.upserts)
  }

  function DeltaOne(layout: RecordLayout, masked: bool, e: EntityState, base: map<u32, EntityState>): Delta {
    if Changed(layout, e, base) then Delta(1, RecordOf(layout, masked, e, base), [Canonical(layout, e)])
    else Delta(0, [], [])
  }

  function DeltaOf(layout: RecordLayout, masked: bool, entities: seq<EntityState>, base: map<u32, EntityState>): Delta {
    if entities == [] then Delta(0, [], [])
    else Joined(DeltaOne(layout, masked, entities[0], base), DeltaOf(layout, masked, entities[1..], base))
  }

  lemma {:induction false} DeltaMeaning(layout: RecordLayout, masked: bool, entities: seq<EntityState>,
                                        base: map<u32, EntityState>)
    ensures var changed := ChangedOnly(layout, entities, base);
      DeltaOf(layout, masked, entities, base)
      == Delta(|changed|, RecordsOf(layout, masked, changed, base), CanonicalAll(layout, changed))
  {
    hide RecordOf, Canonical, Changed;
    if entities != [] {
      DeltaMeaning(layout, masked, entities[1..], base);
      var e, rest := entities[0], ChangedOnly(layout, entities[1..], base);
      if Changed(layout, e, base) {
        assert ([e] + rest)[1..] == rest;
        assert CanonicalAll(layout, [e] + rest) == [Canonical(layout, e)] + CanonicalAll(layout, rest);
      } else {
        assert [] + rest == rest;
      }
    }
  }

  lemma JoinedAssociates(a: Delta, b: Delta, c: Delta)
    ensures Joined(Joined(a, b), c) == Joined(a, Joined(b, c))
  {
    assert a.records + b.records + c.records == a.records + (b.records + c.records);
    assert a.upserts + b.upserts + c.upserts == a.upserts + (b.upserts + c.upserts);
  }

  /** What is left to be filtered from a position on. */
  function DeltaFrom(layout: RecordLayout, masked: bool, entities: seq<EntityState>, at: nat,
                     base: map<u32, EntityState>): Delta
    requires at <= |entities|
  {
    DeltaOf(layout, masked, entities[at..], base)
  }

  /** One more entity has been visited. */
  lemma DeltaStep(done: Delta, layout: RecordLayout, masked: bool, entities: seq<EntityState>, at: nat,
                  base: map<u32, EntityState>)
    requires at < |entities|
    ensures Joined(done, DeltaFrom(layout, masked, entities, at, base))
         == Joined(Joined(done, DeltaOne(layout, masked, entities[at], base)),
             DeltaFrom(layout, masked, entities, at + 1, base))
  {
    hide DeltaOne;
    assert entities[at..][0] == entities[at] && entities[at..][1..] == entities[at + 1..];
    JoinedAssociates(done, DeltaOne(layout, masked, entities[at], base),
        DeltaOf(layout, masked, entities[at + 1..], base));
  }

  lemma DeltaEnds(layout: RecordLayout, masked: bool, entities: seq<EntityState>, base: map<u32, EntityState>,
                  done: Delta)
    ensures Joined(Delta(0, [], []), DeltaFrom(layout, masked, entities, 0, base))
        == DeltaOf(layout, masked, entities, base)
    ensures Joined(done, DeltaFrom(layout, masked, entities, |entities|, base)) == done
  {
    hide Joined;
    assert entities[0..] == entities;
    JoinedUnit(DeltaOf(layout, masked, entities, base));
    JoinedUnit(done);
  }

  lemma JoinedUnit(a: Delta)
    ensures Joined(Delta(0, [], []), a) == a == Joined(a, Delta(0, [], []))
  {
  }

  /** The ids found removed so far, and those that the rest of the baseline will add. */
  function RemovedAfter(done: seq<u32>, base: seq<EntityState>, at: nat, current: map<u32, EntityState>): seq<u32>
    requires at <= |base|
  {
    done + Removed(base[at..], current)
  }

  lemma RemovedStep(done: seq<u32>, base: seq<EntityState>, at: nat, current: map<u32, EntityState>)
    requires at < |base|
    ensures RemovedAfter(done, base, at, current)
         == RemovedAfter(done + if base[at].id !in current then [base[at].id] else [], base, at + 1, current)
  {
    assert base[at..][0] == base[at] && base[at..][1..] == base[at + 1..];
  }

  lemma RemovedEnds(base: seq<EntityState>, done: seq<u32>, current: map<u32, EntityState>)
    ensures RemovedAfter([], base, 0, current) == Removed(base, current)
    ensures RemovedAfter(done, base, |base|, current) == done
    ensures done + [] == done
  {
    assert base[0..] == base;
  }

  // ---------------------------------------------------------------- cursors

  /** Everything before the cursor is below the id. */
  ghost predicate Passed(entities: seq<EntityState>, at: nat, id: u32) {
    at <= |entities| && forall i :: 0 <= i < at ==> entities[i].id < id
  }

  /** A cursor that stands on the first id not below `id` finds what a lookup finds. */
  lemma CursorLooksUp(entities: seq<EntityState>, at: nat, id: u32)
    requires Ascending(entities) && Passed(entities, at, id) && (at < |entities| ==> entities[at].id >= id)
    ensures id in Table(entities) <==> at < |entities| && entities[at].id == id
    ensures id in Table(entities) ==> Table(entities)[id] == entities[at]
  {
    PipelineDecode.LowerBoundIsLookup(entities, at, id);
  }

  lemma PassStart(entities: seq<EntityState>, others: seq<EntityState>, at: nat)
    ensures at < |others| ==> Passed(entities, 0, others[at].id)
  {
  }

  lemma PassOne(entities: seq<EntityState>, at: nat, id: u32)
    requires Ascending(entities) && at < |entities| && entities[at].id < id
    ensures Passed(entities, at + 1, id)
  {
  }

  /** When the other list moves on to its next id, the cursor has still passed only smaller ones. */
  lemma OtherMoves(entities: seq<EntityState>, at: nat, others: seq<EntityState>, k: nat)
    requires Ascending(entities) && Ascending(others) && k < |others| && Passed(entities, at, others[k].id)
    ensures k + 1 < |others| ==> Passed(entities, at, others[k + 1].id)
    ensures k + 1 < |others| && at < |entities| && entities[at].id <= others[k].id ==>
              Passed(entities, at + 1, others[k + 1].id)
  {
  }

  /** Moves a baseline cursor up to `id`. */
  method SkipTo(base: seq<EntityState>, from: nat, id: u32) returns (at: nat)
    requires Ascending(base) && Passed(base, from, id)
    ensures Passed(base, at, id) && (at < |base| ==> base[at].id >= id)
  {
    at := from;
    while at < |base| && base[at].id < id
      invariant Passed(base, at, id)
    {
      at := at + 1;
    }
  }

  // ---------------------------------------------------------------- scratch

  class PipelineScratch {
    var selectedIndices: seq<nat>
    var selectedDeleteIds: seq<u32>
    var preparedRecordBytes: seq<byte>
    var logicalUpdate: SnapshotUpdate
    var bytes: seq<byte>

    constructor ()
    {
      selectedIndices, selectedDeleteIds, preparedRecordBytes, bytes := [], [], [], [];
      logicalUpdate := SnapshotUpdate(0, FullReplace, [], []);
    }

    /** The indices chosen by the level-of-detail schedule, ascending. */
    method SelectPendingIndices(count: nat, pending: set<nat>)
      modifies this`selectedIndices
      ensures Strict(selectedIndices, -1) && Within(selectedIndices, count)
      ensures forall i :: i in selectedIndices <==> i < count && i in pending
    {
      selectedIndices := Enumerate(count, pending);
      EnumerateStrict(count, pending);
    }

    /** A round-robin slice; sorting restores id order after the cursor wraps around. */
    method SelectIncrementalIndices(count: nat, cursor: nat, maximum: nat)
      modifies this`selectedIndices
      ensures Strict(selectedIndices, -1) && Within(selectedIndices, count)
      ensures forall i :: i in selectedIndices <==> i in IncrementalSlice(count, cursor, maximum)
      ensures |selectedIndices| == Min(count, maximum)
    {
      selectedIndices := [];
      if count == 0 {
        return;
      }
      var taken := Min(count, maximum);
      var start := cursor % count;
      for offset := 0 to taken
        invariant |selectedIndices| == offset && Distinct(selectedIndices) && Within(selectedIndices, count)
        invariant forall i :: i in selectedIndices <==> i in RoundFrom(count, start, offset)
      {
        var sourceIndex := (start + offset) % count;
        RoundFresh(count, start, offset, offset);
        DistinctAppend(selectedIndices, sourceIndex);
        selectedIndices := selectedIndices + [sourceIndex];
      }
      SortStrict(selectedIndices);
      SortLength(selectedIndices);
      forall i
        ensures i in Sort(selectedIndices) <==> i in selectedIndices
      {
        SortMember(selectedIndices, i);
      }
      selectedIndices := Sort(selectedIndices);
    }

    /** Adds the indices of the recovery ids that are present, keeping the order strict. */
    method MergeRecoveryUpsertIndices(current: seq<EntityState>, recoveryIds: seq<u32>)
      requires Ascending(current) && Within(selectedIndices, |current|)
      modifies this`selectedIndices
      ensures Strict(selectedIndices, -1) && Within(selectedIndices, |current|)
      ensures forall i :: i in selectedIndices <==>
                i in old(selectedIndices) || i in RecoveryIndices(current, recoveryIds)
    {
      ghost var before := selectedIndices;
      for k := 0 to |recoveryIds|
        invariant forall i: nat :: i in selectedIndices <==>
                    i in before || (i < |current| && current[i].id in recoveryIds[..k])
      {
        var found := PipelineDecode.LowerBound(current, 0, recoveryIds[k]);
        if found < |current| && current[found].id == recoveryIds[k] {
          selectedIndices := selectedIndices + [found];
        }
        assert recoveryIds[..k + 1] == recoveryIds[..k] + [recoveryIds[k]];
      }
      assert recoveryIds[..|recoveryIds|] == recoveryIds;
      var all := selectedIndices;
      SortWeak(all);
      DedupeStrict(Sort(all), -1);
      forall i
        ensures i in Dedupe(Sort(all)) <==> i in all
      {
        SortMember(all, i);
        DedupeMember(Sort(all), i);
      }
      selectedIndices := Dedupe(Sort(all));
    }

    /** Two cursors over the old and the new ids. */
    method SelectRemovedEntityIds(current: seq<EntityState>, previous: seq<EntityState>)
      requires Ascending(current) && Ascending(previous)
      modifies this`selectedDeleteIds
      ensures selectedDeleteIds == Removed(previous, Table(current))
    {
      hide Table, Passed, Ascending, RemovedAfter, Removed;
      selectedDeleteIds := [];
      var c, b := 0, 0;
      PassStart(current, previous, 0);
      RemovedEnds(previous, [], Table(current));
      while c < |current| && b < |previous|
        invariant c <= |current| && b <= |previous|
        invariant b < |previous| ==> Passed(current, c, previous[b].id)
        invariant RemovedAfter(selectedDeleteIds, previous, b, Table(current)) == Removed(previous, Table(current))
        decreases |current| - c + |previous| - b
      {
        if current[c].id < previous[b].id {
          PassOne(current, c, previous[b].id);
          c := c + 1;
        } else {
          CursorLooksUp(current, c, previous[b].id);
          RemovedStep(selectedDeleteIds, previous, b, Table(current));
          OtherMoves(current, c, previous, b);
          if previous[b].id < current[c].id {
            selectedDeleteIds := selectedDeleteIds + [previous[b].id];
          } else {
            RemovedEnds(previous, selectedDeleteIds, Table(current));
            c := c + 1;
          }
          b := b + 1;
        }
      }
      while b < |previous|
        invariant b <= |previous|
        invariant b < |previous| ==> c == |current| && Passed(current, c, previous[b].id)
        invariant RemovedAfter(selectedDeleteIds, previous, b, Table(current)) == Removed(previous, Table(current))
      {
        CursorLooksUp(current, c, previous[b].id);
        RemovedStep(selectedDeleteIds, previous, b, Table(current));
        OtherMoves(current, c, previous, b);
        selectedDeleteIds := selectedDeleteIds + [previous[b].id];
        b := b + 1;
      }
      RemovedEnds(previous, selectedDeleteIds, Table(current));
    }

    ghost function Prepared(): Delta
      reads this
    {
      Delta(|selectedIndices|, preparedRecordBytes, logicalUpdate.upserts)
    }

    method BeginDeltaPreparation()
      modifies this`preparedRecordBytes, this`logicalUpdate
      ensures preparedRecordBytes == [] && logicalUpdate == old(logicalUpdate).(upserts := [])
    {
      preparedRecordBytes := [];
      logicalUpdate := logicalUpdate.(upserts := []);
    }

    /** Writes one record that is to be sent. */
    method RetainPreparedRecord(layout: RecordLayout, e: EntityState, masked: bool, existing: bool, m: Mask)
      modifies this`preparedRecordBytes, this`logicalUpdate
      ensures preparedRecordBytes == old(preparedRecordBytes)
                + (if masked then WriteMaskedRecord(layout, e, existing, m) else WriteRecord(layout, e))
      ensures logicalUpdate == old(logicalUpdate).(upserts := old(logicalUpdate).upserts + [Canonical(layout, e)])
    {
      if masked {
        preparedRecordBytes := preparedRecordBytes + WriteMaskedRecord(layout, e, existing, m);
      } else {
        preparedRecordBytes := preparedRecordBytes + WriteRecord(layout, e);
      }
      logicalUpdate := logicalUpdate.(upserts := logicalUpdate.upserts + [Canonical(layout, e)]);
    }

    /** An entity that meets its baseline counterpart at the cursor, or has none. */
    method ConsiderRecord(layout: RecordLayout, e: EntityState, masked: bool, base: seq<EntityState>, b: nat)
      returns (retained: bool)
      requires Ascending(base) && Passed(base, b, e.id) && (b < |base| ==> base[b].id >= e.id)
      modifies this`preparedRecordBytes, this`logicalUpdate
      ensures retained <==> Changed(layout, e, Table(base))
      ensures preparedRecordBytes
           == old(preparedRecordBytes) + DeltaOne(layout, masked, e, Table(base)).records
      ensures logicalUpdate == old(logicalUpdate).(
                upserts := old(logicalUpdate).upserts + DeltaOne(layout, masked, e, Table(base)).upserts)
    {
      hide WriteMaskedRecord, WriteRecord, Table;
      CursorLooksUp(base, b, e.id);
      var existed := b < |base| && base[b].id == e.id;
      var m := NO_FIELDS;
      var same := false;
      if existed {
        MaskSuffices(Canonical(layout, e), base[b]);
        if masked {
          m := CanonicalFieldMask(Canonical(layout, e), base[b]);
          same := m == NO_FIELDS;
        } else {
          same := Canonical(layout, e) == base[b];
        }
      }
      retained := !same;
      if retained {
        RetainPreparedRecord(layout, e, masked, existed, m);
      }
    }

    /** Filters scheduled indices in place, behind a cursor that only moves forward in the baseline. */
    method FilterScheduledDeltaRecords(current: seq<EntityState>, base: seq<EntityState>, layout: RecordLayout,
                                       masked: bool)
      requires Ascending(current) && Ascending(base)
      requires Strict(selectedIndices, -1) && Within(selectedIndices, |current|)
      modifies this`selectedIndices, this`selectedDeleteIds, this`preparedRecordBytes, this`logicalUpdate
      ensures Prepared() == DeltaOf(layout, masked, At(current, old(selectedIndices)), Table(base))
      ensures selectedDeleteIds == Removed(base, Table(current))
      ensures logicalUpdate == old(logicalUpdate).(upserts := logicalUpdate.upserts)
    {
      hide Table, Removed, DeltaOne, DeltaFrom, Joined, Passed, Ascending, Strict;
      BeginDeltaPreparation();
      ghost var scheduled := selectedIndices;
      ghost var entities, table := At(current, scheduled), Table(base);
      ghost var all := DeltaOf(layout, masked, entities, table);
      AtAscends(current, scheduled);
      DeltaEnds(layout, masked, entities, table, Delta(0, [], []));
      PassStart(base, entities, 0);
      var b: nat, retained: nat := 0, 0;
      for k := 0 to |selectedIndices|
        invariant |selectedIndices| == |scheduled| && retained <= k && selectedIndices[k..] == scheduled[k..]
        invariant b <= |base| && (k < |scheduled| ==> Passed(base, b, entities[k].id))
        invariant Joined(Delta(retained, preparedRecordBytes, logicalUpdate.upserts),
                         DeltaFrom(layout, masked, entities, k, table)) == all
        invariant logicalUpdate == old(logicalUpdate).(upserts := logicalUpdate.upserts)
        invariant selectedDeleteIds == old(selectedDeleteIds)
      {
        assert selectedIndices[k] == selectedIndices[k..][0] == scheduled[k..][0] == scheduled[k];
        assert scheduled[k] in scheduled;
        var currentIndex := selectedIndices[k];
        var e := current[currentIndex];
        b := SkipTo(base, b, e.id);
        ghost var done := Delta(retained, preparedRecordBytes, logicalUpdate.upserts);
        DeltaStep(done, layout, masked, entities, k, table);
        JoinOne(done, layout, e, masked, table);
        OtherMoves(base, b, entities, k);
        var keep := ConsiderRecord(layout, e, masked, base, b);
        ghost var rest := selectedIndices[k + 1..];
        assert rest == selectedIndices[k..][1..] == scheduled[k..][1..] == scheduled[k + 1..];
        if keep {
          selectedIndices := selectedIndices[retained := currentIndex];
          retained := retained + 1;
        }
        assert selectedIndices[k + 1..] == rest;
      }
      DeltaEnds(layout, masked, entities, table, Delta(retained, preparedRecordBytes, logicalUpdate.upserts));
      selectedIndices := selectedIndices[..retained];
      SelectRemovedEntityIds(current, base);
    }

    /** Takes up the entity at `c` unless the baseline already holds its canonical value. */
    method RetainChanged(current: seq<EntityState>, c: nat, base: seq<EntityState>, b: nat, layout: RecordLayout,
                         masked: bool)
      requires c < |current| && Ascending(base)
      requires Passed(base, b, current[c].id) && (b < |base| ==> base[b].id >= current[c].id)
      modifies this`selectedIndices, this`preparedRecordBytes, this`logicalUpdate
      ensures Joined(Prepared(), DeltaFrom(layout, masked, current, c + 1, Table(base)))
           == Joined(old(Prepared()), DeltaFrom(layout, masked, current, c, Table(base)))
      ensures logicalUpdate == old(logicalUpdate).(upserts := logicalUpdate.upserts)
    {
      hide Table, DeltaFrom, DeltaOne, Joined;
      ghost var before := Prepared();
      ghost var one := DeltaOne(layout, masked, current[c], Table(base));
      DeltaStep(before, layout, masked, current, c, Table(base));
      var keep := ConsiderRecord(layout, current[c], masked, base, b);
      if keep {
        selectedIndices := selectedIndices + [c];
      }
      JoinOne(before, layout, current[c], masked, Table(base));
      assert Prepared() == Joined(before, one);
    }

    /** Two cursors over the population and the baseline. */
    method SelectDeltaRecords(current: seq<EntityState>, base: seq<EntityState>, layout: RecordLayout, masked: bool)
      requires Ascending(current) && Ascending(base)
      modifies this`selectedIndices, this`selectedDeleteIds, this`preparedRecordBytes, this`logicalUpdate
      ensures Prepared() == DeltaOf(layout, masked, current, Table(base))
      ensures selectedDeleteIds == Removed(base, Table(current))
      ensures logicalUpdate == old(logicalUpdate).(upserts := logicalUpdate.upserts)
    {
      hide Table, DeltaOne, DeltaFrom, DeltaOf, Joined, Removed, RemovedAfter, Passed, Ascending;
      selectedIndices, selectedDeleteIds := [], [];
      BeginDeltaPreparation();
      ghost var table, all := Table(base), DeltaOf(layout, masked, current, Table(base));
      DeltaEnds(layout, masked, current, table, Prepared());
      RemovedEnds(base, [], Table(current));
      PassStart(current, base, 0);
      PassStart(base, current, 0);
      var c, b := 0, 0;
      while c < |current| && b < |base|
        invariant c <= |current| && b <= |base|
        invariant c < |current| ==> Passed(base, b, current[c].id)
        invariant b < |base| ==> Passed(current, c, base[b].id)
        invariant Joined(Prepared(), DeltaFrom(layout, masked, current, c, table)) == all
        invariant RemovedAfter(selectedDeleteIds, base, b, Table(current)) == Removed(base, Table(current))
        invariant logicalUpdate == old(logicalUpdate).(upserts := logicalUpdate.upserts)
        decreases |current| - c + |base| - b
      {
        if current[c].id < base[b].id {
          RetainChanged(current, c, base, b, layout, masked);
          OtherMoves(base, b, current, c);
          PassOne(current, c, base[b].id);
          c := c + 1;
        } else {
          CursorLooksUp(current, c, base[b].id);
          RemovedStep(selectedDeleteIds, base, b, Table(current));
          OtherMoves(current, c, base, b);
          if base[b].id < current[c].id {
            selectedDeleteIds := selectedDeleteIds + [base[b].id];
            PassOne(base, b, current[c].id);
            b := b + 1;
          } else {
            RetainChanged(current, c, base, b, layout, masked);
            RemovedEnds(base, selectedDeleteIds, Table(current));
            OtherMoves(base, b, current, c);
            c := c + 1;
            b := b + 1;
          }
        }
      }
      while c < |current|
        invariant c <= |current| && b <= |base|
        invariant c < |current| ==> b == |base| && Passed(base, b, current[c].id)
        invariant b < |base| ==> c == |current| && Passed(current, c, base[b].id)
        invariant Joined(Prepared(), DeltaFrom(layout, masked, current, c, table)) == all
        invariant RemovedAfter(selectedDeleteIds, base, b, Table(current)) == Removed(base, Table(current))
        invariant logicalUpdate == old(logicalUpdate).(upserts := logicalUpdate.upserts)
      {
        RetainChanged(current, c, base, b, layout, masked);
        OtherMoves(base, b, current, c);
        c := c + 1;
      }
      while b < |base|
        invariant b <= |base|
        invariant b < |base| ==> c == |current| && Passed(current, c, base[b].id)
        invariant RemovedAfter(selectedDeleteIds, base, b, Table(current)) == Removed(base, Table(current))
        invariant Joined(Prepared(), DeltaFrom(layout, masked, current, c, table)) == all && c == |current|
        invariant logicalUpdate == old(logicalUpdate).(upserts := logicalUpdate.upserts)
      {
        CursorLooksUp(current, c, base[b].id);
        RemovedStep(selectedDeleteIds, base, b, Table(current));
        OtherMoves(current, c, base, b);
        selectedDeleteIds := selectedDeleteIds + [base[b].id];
        b := b + 1;
      }
      RemovedEnds(base, selectedDeleteIds, Table(current));
      DeltaEnds(layout, masked, current, table, Prepared());
    }

    /** Prepares and writes whole records, one entity at a time. */
    method PrepareAndWriteRecords(layout: RecordLayout, entities: seq<EntityState>)
      modifies this`bytes, this`logicalUpdate
      ensures bytes == old(bytes) + RecordsOf(layout, false, entities, map[])
      ensures logicalUpdate
           == old(logicalUpdate).(upserts := old(logicalUpdate).upserts + CanonicalAll(layout, entities))
    {
      hide WriteRecord, Canonical;
      for k := 0 to |entities|
        invariant bytes + RecordsOf(layout, false, entities[k..], map[])
            == old(bytes) + RecordsOf(layout, false, entities, map[])
        invariant logicalUpdate
               == old(logicalUpdate).(upserts := old(logicalUpdate).upserts + CanonicalAll(layout, entities[..k]))
      {
        assert entities[k..][0] == entities[k] && entities[k..][1..] == entities[k + 1..];
        assert CanonicalAll(layout, entities[..k + 1])
            == CanonicalAll(layout, entities[..k]) + [Canonical(layout, entities[k])];
        bytes := bytes + WriteRecord(layout, entities[k]);
        logicalUpdate := logicalUpdate.(upserts := logicalUpdate.upserts + [Canonical(layout, entities[k])]);
      }
      assert entities[..|entities|] == entities;
    }

    method WriteDeletes()
      modifies this`bytes
      ensures bytes == old(bytes) + DeletesOf(selectedDeleteIds)
    {
      for k := 0 to |selectedDeleteIds|
        invariant bytes + DeletesOf(selectedDeleteIds[k..]) == old(bytes) + DeletesOf(selectedDeleteIds)
      {
        ghost var rest := selectedDeleteIds[k..];
        assert rest[0] == selectedDeleteIds[k] && rest[1..] == selectedDeleteIds[k + 1..];
        bytes := bytes + BigEndian(selectedDeleteIds[k], 4);
      }
    }

    /** Which indices are upserted and which ids deleted; the scheduled stage. */
    method ScheduleUpserts(p: Pipeline, st: EncoderState, input: EncodeInput, plan: Plan) returns (selectionCount: nat)
      requires Ascending(Current(p, input)) && (plan.base.Some? ==> Ascending(plan.base.value.entities))
      requires plan.scheduleLevelOfDetail || plan.scheduleIncremental ==> plan.base.Some?
      modifies this`selectedIndices, this`selectedDeleteIds
      ensures plan.scheduleLevelOfDetail || plan.scheduleIncremental ==>
        && Strict(selectedIndices, -1) && Within(selectedIndices, |Current(p, input)|)
        && At(Current(p, input), selectedIndices) == Eligible(p, st, input, plan)
        && (!p.delta ==> selectedDeleteIds == Deleted(p, input, plan))
      ensures plan.scheduleIncremental && !plan.scheduleLevelOfDetail ==>
        selectionCount == Min(|Current(p, input)|, p.maxEntitiesPerUpdate)
    {
      hide Current, Removed, Table, Ascending, Strict, RecoveryIndices, IncrementalSlice;
      selectionCount := 0;
      var current := Current(p, input);
      if plan.scheduleLevelOfDetail {
        SelectPendingIndices(|current|, input.pending);
      } else if plan.scheduleIncremental {
        selectedDeleteIds := [];
        SelectIncrementalIndices(|current|, st.incrementalCursor, p.maxEntitiesPerUpdate);
        selectionCount := |selectedIndices|;
      } else {
        return;
      }
      MergeRecoveryUpsertIndices(current, input.recoveryIds);
      AnyListPicks(current, Scheduled(p, st, input, plan), selectedIndices);
      if !p.delta {
        SelectRemovedEntityIds(current, plan.base.value.entities);
      }
    }

    /** The delta stage: records are prepared here when they are filtered against a baseline. */
    method SelectUpdate(p: Pipeline, st: EncoderState, input: EncodeInput, plan: Plan) returns (selectionCount: nat)
      requires Decide(p, st, input) == Emits(plan)
      requires Ascending(Current(p, input)) && (plan.base.Some? ==> Ascending(plan.base.value.entities))
      modifies this`selectedIndices, this`selectedDeleteIds, this`preparedRecordBytes, this`logicalUpdate
      ensures selectedDeleteIds == Deleted(p, input, plan)
      ensures var entities := Upserted(p, st, input, plan);
        if plan.emitDelta then
          Prepared() == Delta(|entities|, RecordsOf(LayoutOf(p), p.deltaFieldMask, entities, BaseTable(plan)),
                              CanonicalAll(LayoutOf(p), entities))
        else if plan.EmitsPatch() then
          Within(selectedIndices, |Current(p, input)|) && At(Current(p, input), selectedIndices) == entities
        else selectedIndices == [] && entities == Current(p, input)
      ensures plan.scheduleIncremental && !plan.scheduleLevelOfDetail ==>
        selectionCount == Min(|Current(p, input)|, p.maxEntitiesPerUpdate)
    {
      hide Current, Removed, Table, Ascending, Strict, Eligible, RecordsOf, ChangedOnly, DeltaOf;
      PlanFacts(p, st, input);
      ghost var eligible := Eligible(p, st, input, plan);
      EligibleFacts(p, st, input, plan);
      selectionCount := ScheduleUpserts(p, st, input, plan);
      var current := Current(p, input);
      if plan.emitDelta {
        var base := plan.base.value.entities;
        DeltaMeaning(LayoutOf(p), p.deltaFieldMask, eligible, Table(base));
        if plan.scheduleLevelOfDetail || plan.scheduleIncremental {
          FilterScheduledDeltaRecords(current, base, LayoutOf(p), p.deltaFieldMask);
        } else {
          SelectDeltaRecords(current, base, LayoutOf(p), p.deltaFieldMask);
        }
      } else {
        preparedRecordBytes := [];
        if !plan.EmitsPatch() {
          selectedDeleteIds := [];
          selectedIndices := [];
        }
      }
    }

    /** The header, the deletes, and the records, prepared or written now. */
    method WriteUpdate(p: Pipeline, st: EncoderState, input: EncodeInput, plan: Plan)
      requires Decide(p, st, input) == Emits(plan)
      requires selectedDeleteIds == Deleted(p, input, plan)
      requires var entities := Upserted(p, st, input, plan);
        if plan.emitDelta then
          Prepared() == Delta(|entities|, RecordsOf(LayoutOf(p), p.deltaFieldMask, entities, BaseTable(plan)),
                              CanonicalAll(LayoutOf(p), entities))
        else if plan.EmitsPatch() then
          Within(selectedIndices, |Current(p, input)|) && At(Current(p, input), selectedIndices) == entities
        else selectedIndices == [] && entities == Current(p, input)
      modifies this`bytes, this`logicalUpdate
      ensures bytes == WriteUpdateHeader(HeaderOf(p, st, input, plan)) + Payload(p, st, input, plan)
      ensures logicalUpdate == LogicalUpdate(p, st, input, plan)
    {
      hide WriteUpdateHeader, Upserted, Current, Deleted, RecordsOf, DeletesOf, BaseTable, Canonical;
      ghost var entities, ids := Upserted(p, st, input, plan), Deleted(p, input, plan);
      ghost var header := WriteUpdateHeader(HeaderOf(p, st, input, plan));
      PlanFacts(p, st, input);
      var current := Current(p, input);
      var upsertCount := if plan.EmitsPatch() then |selectedIndices| else |current|;
      var upsertBytes := if plan.emitDelta then |preparedRecordBytes| else upsertCount * RecordBytes(LayoutOf(p));
      var h := UpdateHeader(ENCODED_UPDATE_MAGIC, PROTOCOL_VERSION, Schema(p), p.signature, KindByte(plan.Kind()),
                            input.snapshot.tick, st.nextSequence, plan.baselineSequence, upsertCount,
                            |selectedDeleteIds|, |selectedDeleteIds| * DELETE_RECORD_BYTES + upsertBytes);
      WholeRecordsLength(LayoutOf(p), entities, BaseTable(plan));
      WholeIgnoresBase(LayoutOf(p), entities, BaseTable(plan));
      assert h == HeaderOf(p, st, input, plan);
      bytes := WriteUpdateHeader(h);
      WriteDeletes();
      if !plan.emitDelta {
        logicalUpdate := SnapshotUpdate(0, FullReplace, [], []);
      }
      logicalUpdate := SnapshotUpdate(input.snapshot.tick, plan.Kind(), logicalUpdate.upserts, selectedDeleteIds);
      if plan.emitDelta {
        bytes := bytes + preparedRecordBytes;
      } else if plan.EmitsPatch() {
        PrepareAndWriteRecords(LayoutOf(p), At(current, selectedIndices));
      } else {
        PrepareAndWriteRecords(LayoutOf(p), current);
      }
      PayloadParts(p, st, input, plan, header);
      assert [] + CanonicalAll(LayoutOf(p), entities) == CanonicalAll(LayoutOf(p), entities);
    }
  }

  /** A client's encoding state. */
  class ClientState {
    var nextSequence: nat
    var incrementalCursor: nat
    var incrementalSeeded: bool
    var levelOfDetailSeeded: bool

    constructor ()
      ensures State() == EncoderState(1, 0, false, false)
    {
      nextSequence, incrementalCursor, incrementalSeeded, levelOfDetailSeeded := 1, 0, false, false;
    }

    function State(): EncoderState
      reads this
    {
      EncoderState(nextSequence, incrementalCursor, incrementalSeeded, levelOfDetailSeeded)
    }

    /** Valid snapshots are the caller's obligation; whatever the scratch held before does not matter. */
    method EncodeSnapshotUnchecked(p: Pipeline, scratch: PipelineScratch, input: EncodeInput)
      returns (outcome: EncodeOutcome)
      requires Ascending(Current(p, input))
      requires input.baseline.Some? ==> Ascending(input.baseline.value.entities)
      requires input.replica.Some? ==> Ascending(input.replica.value.entities)
      modifies this, scratch
      ensures (outcome, State()) == Encode(p, old(State()), input)
      ensures outcome.Update? ==>
        && (outcome.update.kind == Patch <==>
              !input.forceFullReplace
              && ((p.delta && input.baseline.Some?) || (p.levelOfDetail && old(levelOfDetailSeeded))
                  || (p.incremental && !p.delta && !p.levelOfDetail && old(incrementalSeeded))))
        && outcome.update.sequence == old(nextSequence)
    {
      hide Current, Ascending, Payload, LogicalUpdate, HeaderOf, WriteUpdateHeader, NextCursor;
      ghost var st := State();
      KindWhenEmitted(p, st, input);
      var decision := PipelineEncode.Decide(p, State(), input);
      match decision {
        case Throws(error) => return Thrown(error);
        case Skips => return Skipped;
        case Emits(plan) =>
          PlanFacts(p, st, input);
          var sequence := nextSequence;
          var selectionCount := scratch.SelectUpdate(p, State(), input, plan);
          scratch.WriteUpdate(p, State(), input, plan);
          HeaderLength(p, st, input, plan);
          if |scratch.bytes| > U32_MAX {
            return Thrown(UpdateTooLarge);
          }
          LogicalDeletesAscend(p, st, input, plan);
          var valid, resulting := ReconstructWorldSnapshot(plan.base, scratch.logicalUpdate, WorldSnapshot(0, []));
          if !valid {
            return Thrown(UpdateTooLarge);
          }
          outcome := EncodeOutcome.Update(
              EncodedUpdate(sequence, plan.Kind(), plan.baselineSequence, scratch.bytes, resulting));
          if plan.scheduleIncremental && !p.levelOfDetail {
            incrementalCursor := NextCursor(|Current(p, input)|, incrementalCursor, selectionCount);
          }
          if p.incremental && plan.Kind() == FullReplace {
            incrementalSeeded := true;
          }
          if p.levelOfDetail && plan.Kind() == FullReplace {
            levelOfDetailSeeded := true;
          }
          if p.levelOfDetail {
            incrementalCursor := if plan.scheduleLevelOfDetail then input.pendingCursor else incrementalCursor;
          }
          nextSequence := sequence + 1;
      }
    }
  }

  lemma KindWhenEmitted(p: Pipeline, st: EncoderState, input: EncodeInput)
    ensures var outcome := Encode(p, st, input).0;
      outcome.Update? ==>
        && (outcome.update.kind == Patch <==>
              !input.forceFullReplace
              && ((p.delta && input.baseline.Some?) || (p.levelOfDetail && st.levelOfDetailSeeded)
                  || (p.incremental && !p.delta && !p.levelOfDetail && st.incrementalSeeded)))
        && outcome.update.sequence == st.nextSequence
  {
    hide Encode;
    if Encode(p, st, input).0.Update? {
      EncodeRules.KindExactly(p, st, input);
    }
  }

  lemma EligibleFacts(p: Pipeline, st: EncoderState, input: EncodeInput, plan: Plan)
    requires Ascending(Current(p, input))
    ensures var eligible := Eligible(p, st, input, plan);
      && (!plan.scheduleLevelOfDetail && !plan.scheduleIncremental ==> eligible == Current(p, input))
  {
  }

  lemma {:induction false} WholeIgnoresBase(layout: RecordLayout, entities: seq<EntityState>,
                                            base: map<u32, EntityState>)
    ensures RecordsOf(layout, false, entities, map[]) == RecordsOf(layout, false, entities, base)
  {
    hide WriteRecord;
    if entities != [] {
      WholeIgnoresBase(layout, entities[1..], base);
    }
  }

  lemma PayloadParts(p: Pipeline, st: EncoderState, input: EncodeInput, plan: Plan, header: seq<byte>)
    ensures header + DeletesOf(Deleted(p, input, plan))
              + RecordsOf(LayoutOf(p), p.deltaFieldMask && plan.emitDelta, Upserted(p, st, input, plan),
                          BaseTable(plan))
         == header + Payload(p, st, input, plan)
  {
  }

  lemma HeaderLength(p: Pipeline, st: EncoderState, input: EncodeInput, plan: Plan)
    ensures |WriteUpdateHeader(HeaderOf(p, st, input, plan))| == HEADER_BYTES
  {
    hide Payload, Upserted, Deleted;
    UpdateLayoutBytes();
  }

  lemma LogicalDeletesAscend(p: Pipeline, st: EncoderState, input: EncodeInput, plan: Plan)
    requires plan.base.Some? ==> Ascending(plan.base.value.entities)
    ensures AscendingIds(LogicalUpdate(p, st, input, plan).deletes)
  {
    hide Removed, Upserted;
    if plan.base.Some? {
      RemovedAscending(plan.base.value.entities, Table(Current(p, input)), -1);
    }
  }

  lemma JoinOne(done: Delta, layout: RecordLayout, e: EntityState, masked: bool, base: map<u32, EntityState>)
    ensures var one := DeltaOne(layout, masked, e, base);
      Joined(done, one) == Delta(done.count + (if Changed(layout, e, base) then 1 else 0),
                                 done.records + one.records, done.upserts + one.upserts)
  {
  }

  /** Entities at strictly ascending indices ascend. */
  lemma AtAscends(entities: seq<EntityState>, xs: seq<nat>)
    requires Ascending(entities) && Strict(xs, -1) && Within(xs, |entities|)
    ensures Ascending(At(entities, xs))
  {
    forall i, j | 0 <= i < j < |xs|
      ensures xs[i] < xs[j] < |entities|
    {
      StrictOrder(xs, -1, i, j);
      assert xs[j] in xs;
    }
  }

  lemma {:induction false} StrictOrder(xs: seq<nat>, least: int, i: nat, j: nat)
    requires Strict(xs, least) && i < j < |xs|
    ensures xs[i] < xs[j]
  {
    if i == 0 {
      assert xs[1..][j - 1] == xs[j];
      StrictAbove(xs[1..], xs[0], xs[j]);
    } else {
      StrictOrder(xs[1..], xs[0], i - 1, j - 1);
    }
  }

  lemma {:induction false} SortLength(xs: seq<nat>)
    ensures |Sort(xs)| == |xs|
  {
    if xs != [] {
      SortLength(xs[1..]);
      InsertLength(xs[0], Sort(xs[1..]));
    }
  }

  lemma {:induction false} InsertLength(x: nat, xs: seq<nat>)
    ensures |Insert(x, xs)| == |xs| + 1
  {
    if xs != [] && x > xs[0] {
      InsertLength(x, xs[1..]);
    }
  }
}
