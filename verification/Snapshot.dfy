/** Snapshots, logical updates, their validation, and reconstruction of a snapshot from a baseline
    and an update. The five parallel arrays of the code, whose sizes its validation makes equal, are
    one sequence of entities here; floats are their binary32 bit patterns.

    Models src/snapshot/import/snapshot_types.cppm, snapshot_validate.cppm and
    snapshot_reconstruct.cppm. */
module Snapshot {
  import opened Bytes

  datatype Vec3 = Vec3(x: u32, y: u32, z: u32)

  datatype EntityState = EntityState(id: u32, classification: byte, position: Vec3, heading: Vec3, hue: byte)

  datatype SnapshotKind = FullReplace | Patch

  datatype WorldSnapshot = WorldSnapshot(tick: u64, entities: seq<EntityState>)

  datatype SnapshotUpdate = SnapshotUpdate(tick: u64, kind: SnapshotKind, upserts: seq<EntityState>, deletes: seq<u32>)

  // ---------------------------------------------------------------- order

  predicate Ascending(entities: seq<EntityState>) {
    forall i, j :: 0 <= i < j < |entities| ==> entities[i].id < entities[j].id
  }

  predicate AscendingIds(ids: seq<u32>) {
    forall i, j :: 0 <= i < j < |ids| ==> ids[i] < ids[j]
  }

  /** The entities by id. */
  function Table(entities: seq<EntityState>): map<u32, EntityState> {
    if entities == [] then map[] else Table(entities[1..])[entities[0].id := entities[0]]
  }

  lemma AscendingTail(entities: seq<EntityState>)
    requires entities != [] && Ascending(entities)
    ensures Ascending(entities[1..])
    ensures forall i :: 0 <= i < |entities[1..]| ==> entities[1..][i].id > entities[0].id
  {
  }

  lemma {:induction false} TableAt(entities: seq<EntityState>, i: nat)
    requires i < |entities| && Ascending(entities)
    ensures entities[i].id in Table(entities) && Table(entities)[entities[i].id] == entities[i]
  {
    if i > 0 {
      AscendingTail(entities);
      TableAt(entities[1..], i - 1);
    }
  }

  lemma {:induction false} TableSound(entities: seq<EntityState>, id: u32) returns (i: nat)
    requires id in Table(entities)
    ensures i < |entities| && entities[i] == Table(entities)[id] && entities[i].id == id
  {
    if entities[0].id == id {
      i := 0;
    } else {
      i := TableSound(entities[1..], id);
      i := i + 1;
    }
  }

  lemma TableAbove(entities: seq<EntityState>, id: u32)
    requires forall i :: 0 <= i < |entities| ==> entities[i].id > id
    ensures id !in Table(entities)
  {
    if id in Table(entities) {
      var i := TableSound(entities, id);
      assert false;
    }
  }

  /** A snapshot's order is determined by its contents: ascending sequences with equal tables are equal. */
  lemma {:induction false} TableDetermines(a: seq<EntityState>, b: seq<EntityState>)
    requires Ascending(a) && Ascending(b) && Table(a) == Table(b)
    ensures a == b
  {
    if a == [] {
      if b != [] {
        TableAt(b, 0);
        assert false;
      }
    } else {
      TableAt(a, 0);
      var i := TableSound(b, a[0].id);
      TableAt(b, 0);
      var j := TableSound(a, b[0].id);
      assert i == 0 && j == 0;
      AscendingTail(a);
      AscendingTail(b);
      TableAbove(a[1..], a[0].id);
      TableAbove(b[1..], b[0].id);
      assert Table(a[1..]) == Table(a) - {a[0].id};
      assert Table(b[1..]) == Table(b) - {b[0].id};
      TableDetermines(a[1..], b[1..]);
    }
  }

  // ---------------------------------------------------------------- validation

  /** binary32 is finite unless its exponent bits are all ones. */
  predicate IsFinite(v: Vec3) {
    FiniteBits(v.x) && FiniteBits(v.y) && FiniteBits(v.z)
  }

  predicate FiniteBits(bits: u32) {
    (bits / 0x80_0000) % 0x100 != 0xFF
  }

  /** `normalized` stands for the float test of a heading's length against its tolerance. */
  predicate ValidEntity(e: EntityState, normalized: Vec3 -> bool) {
    e.id != 0 && e.classification != 0 && IsFinite(e.position) && IsFinite(e.heading) && normalized(e.heading)
  }

  predicate ValidSnapshot(snapshot: WorldSnapshot, normalized: Vec3 -> bool) {
    && Ascending(snapshot.entities)
    && forall i :: 0 <= i < |snapshot.entities| ==> ValidEntity(snapshot.entities[i], normalized)
  }

  predicate ValidUpdate(update: SnapshotUpdate, normalized: Vec3 -> bool) {
    && (update.kind == FullReplace ==> update.deletes == [])
    && Ascending(update.upserts)
    && AscendingIds(update.deletes)
    && (forall i :: 0 <= i < |update.upserts| ==> ValidEntity(update.upserts[i], normalized))
    && (forall i :: 0 <= i < |update.deletes| ==> update.deletes[i] != 0)
    && (forall i :: 0 <= i < |update.upserts| ==> update.upserts[i].id !in update.deletes)
  }

  // ---------------------------------------------------------------- reconstruction

  /** The merge of a baseline and upserts by id. A deleted baseline entity is dropped even when it is
      upserted too; the upsert then counts as new. */
  function Merge(base: seq<EntityState>, upserts: seq<EntityState>, deletes: seq<u32>): seq<EntityState>
    decreases |base| + |upserts|
  {
    if base == [] then upserts
    else if upserts != [] && upserts[0].id < base[0].id then [upserts[0]] + Merge(base, upserts[1..], deletes)
    else if base[0].id in deletes then Merge(base[1..], upserts, deletes)
    else if upserts != [] && upserts[0].id == base[0].id then [upserts[0]] + Merge(base[1..], upserts[1..], deletes)
    else [base[0]] + Merge(base[1..], upserts, deletes)
  }

  /** One id's fate in a merge, in terms of the three tables. */
  lemma {:induction false} MergeEntry(base: seq<EntityState>, upserts: seq<EntityState>, deletes: seq<u32>, id: u32)
    requires Ascending(base) && Ascending(upserts)
    ensures var merged := Table(Merge(base, upserts, deletes));
      && (id in Table(upserts) ==> id in merged && merged[id] == Table(upserts)[id])
      && (id !in Table(upserts) ==>
            && (id in merged <==> id in Table(base) && id !in deletes)
            && (id in merged ==> merged[id] == Table(base)[id]))
    decreases |base| + |upserts|
  {
    if base != [] {
      AscendingTail(base);
      if upserts != [] {
        AscendingTail(upserts);
      }
      if upserts != [] && upserts[0].id < base[0].id {
        MergeEntry(base, upserts[1..], deletes, id);
        if id == upserts[0].id {
          TableAbove(base, id);
        }
      } else if base[0].id in deletes {
        MergeEntry(base[1..], upserts, deletes, id);
      } else if upserts != [] && upserts[0].id == base[0].id {
        MergeEntry(base[1..], upserts[1..], deletes, id);
      } else {
        MergeEntry(base[1..], upserts, deletes, id);
        if id == base[0].id {
          TableAbove(upserts, id);
        }
      }
    }
  }

  lemma {:induction false} MergeAscending(base: seq<EntityState>, upserts: seq<EntityState>, deletes: seq<u32>,
                                          least: int)
    requires Ascending(base) && Ascending(upserts)
    requires forall i :: 0 <= i < |base| ==> base[i].id > least
    requires forall i :: 0 <= i < |upserts| ==> upserts[i].id > least
    ensures Ascending(Merge(base, upserts, deletes))
    ensures forall i :: 0 <= i < |Merge(base, upserts, deletes)| ==> Merge(base, upserts, deletes)[i].id > least
    decreases |base| + |upserts|
  {
    if base != [] {
      AscendingTail(base);
      if upserts != [] {
        AscendingTail(upserts);
      }
      if upserts != [] && upserts[0].id < base[0].id {
        MergeAscending(base, upserts[1..], deletes, upserts[0].id);
      } else if base[0].id in deletes {
        MergeAscending(base[1..], upserts, deletes, least);
      } else if upserts != [] && upserts[0].id == base[0].id {
        MergeAscending(base[1..], upserts[1..], deletes, base[0].id);
      } else {
        MergeAscending(base[1..], upserts, deletes, base[0].id);
      }
    }
  }

  function SetOf(ids: seq<u32>): (s: set<u32>)
    ensures forall id :: id in s <==> id in ids
  {
    set id | id in ids
  }

  /** The merge means: the baseline minus the deletes, overridden by the upserts, in id order. */
  lemma MergeMeaning(base: seq<EntityState>, upserts: seq<EntityState>, deletes: seq<u32>)
    requires Ascending(base) && Ascending(upserts)
    ensures Ascending(Merge(base, upserts, deletes))
    ensures Table(Merge(base, upserts, deletes)) == Table(base) - SetOf(deletes) + Table(upserts)
  {
    MergeAscending(base, upserts, deletes, -1);
    var merged := Table(Merge(base, upserts, deletes));
    var expected := Table(base) - SetOf(deletes) + Table(upserts);
    forall id: u32
      ensures id in merged <==> id in expected
      ensures id in merged ==> merged[id] == expected[id]
    {
      MergeEntry(base, upserts, deletes, id);
    }
    assert merged.Keys == expected.Keys;
  }

  function Reconstruct(baseline: Option<WorldSnapshot>, update: SnapshotUpdate): (result: Option<WorldSnapshot>) {
    match update.kind
    case FullReplace => Some(WorldSnapshot(update.tick, update.upserts))
    case Patch =>
      if baseline.None? then None
      else Some(WorldSnapshot(update.tick, Merge(baseline.value.entities, update.upserts, update.deletes)))
  }

  /** Moves the delete cursor up to `id`. */
  method SkipBelow(deletes: seq<u32>, index: nat, id: u32) returns (next: nat)
    requires AscendingIds(deletes) && index <= |deletes|
    requires forall i :: 0 <= i < index ==> deletes[i] < id
    ensures index <= next <= |deletes|
    ensures forall i :: 0 <= i < next ==> deletes[i] < id
    ensures id in deletes <==> next < |deletes| && deletes[next] == id
  {
    next := index;
    while next < |deletes| && deletes[next] < id
      invariant index <= next <= |deletes|
      invariant forall i :: 0 <= i < next ==> deletes[i] < id
    {
      next := next + 1;
    }
  }

  predicate UpsertFirst(base: seq<EntityState>, b: nat, upserts: seq<EntityState>, u: nat) {
    u < |upserts| && (b >= |base| || upserts[u].id < base[b].id)
  }

  /** What is still to be merged at two cursors. */
  function MergeFrom(base: seq<EntityState>, b: nat, upserts: seq<EntityState>, u: nat, deletes: seq<u32>)
    : seq<EntityState>
    requires b <= |base| && u <= |upserts|
  {
    Merge(base[b..], upserts[u..], deletes)
  }

  lemma MergeEnds(base: seq<EntityState>, upserts: seq<EntityState>, deletes: seq<u32>)
    ensures MergeFrom(base, 0, upserts, 0, deletes) == Merge(base, upserts, deletes)
    ensures MergeFrom(base, |base|, upserts, |upserts|, deletes) == []
  {
    assert base[0..] == base && upserts[0..] == upserts;
  }

  /** One step of the merge at two cursors. */
  lemma MergeAt(base: seq<EntityState>, b: nat, upserts: seq<EntityState>, u: nat, deletes: seq<u32>)
    requires b <= |base| && u <= |upserts| && (b < |base| || u < |upserts|)
    ensures var merged := MergeFrom(base, b, upserts, u, deletes);
      if UpsertFirst(base, b, upserts, u) then merged == [upserts[u]] + MergeFrom(base, b, upserts, u + 1, deletes)
      else if base[b].id in deletes then merged == MergeFrom(base, b + 1, upserts, u, deletes)
      else if u < |upserts| && upserts[u].id == base[b].id
      then merged == [upserts[u]] + MergeFrom(base, b + 1, upserts, u + 1, deletes)
      else merged == [base[b]] + MergeFrom(base, b + 1, upserts, u, deletes)
  {
    if b < |base| {
      assert base[b..][0] == base[b] && base[b..][1..] == base[b + 1..];
    }
    if u < |upserts| {
      assert upserts[u..] == [upserts[u]] + upserts[u + 1..];
    }
  }

  /** The code's loop over three cursors. */
  method MergeWithCursors(base: seq<EntityState>, upserts: seq<EntityState>, deletes: seq<u32>)
    returns (reconstructed: seq<EntityState>)
    requires Ascending(base) && AscendingIds(deletes)
    ensures reconstructed == Merge(base, upserts, deletes)
  {
    hide MergeFrom, Merge;
    MergeEnds(base, upserts, deletes);
    reconstructed := [];
    var b, u, d := 0, 0, 0;
    while b < |base| || u < |upserts|
      invariant b <= |base| && u <= |upserts| && d <= |deletes|
      invariant forall i :: 0 <= i < d && b < |base| ==> deletes[i] < base[b].id
      invariant reconstructed + MergeFrom(base, b, upserts, u, deletes) == Merge(base, upserts, deletes)
      decreases |base| - b + |upserts| - u
    {
      MergeAt(base, b, upserts, u, deletes);
      if u < |upserts| && (b == |base| || upserts[u].id < base[b].id) {
        reconstructed := reconstructed + [upserts[u]];
        u := u + 1;
      } else {
        var id := base[b].id;
        d := SkipBelow(deletes, d, id);
        var deleted := d < |deletes| && deletes[d] == id;
        if deleted {
          d := d + 1;
        } else if u < |upserts| && upserts[u].id == id {
          reconstructed := reconstructed + [upserts[u]];
          u := u + 1;
        } else {
          reconstructed := reconstructed + [base[b]];
        }
        b := b + 1;
      }
    }
  }

  /** The result is rewritten only on success. */
  method ReconstructWorldSnapshot(baseline: Option<WorldSnapshot>, update: SnapshotUpdate, out: WorldSnapshot)
    returns (valid: bool, result: WorldSnapshot)
    requires AscendingIds(update.deletes)
    requires baseline.Some? ==> Ascending(baseline.value.entities)
    ensures valid <==> Reconstruct(baseline, update).Some?
    ensures result == if valid then Reconstruct(baseline, update).value else out
  {
    if update.kind == Patch && baseline.None? {
      return false, out;
    }
    if update.kind == FullReplace {
      return true, WorldSnapshot(update.tick, update.upserts);
    }
    var entities := MergeWithCursors(baseline.value.entities, update.upserts, update.deletes);
    return true, WorldSnapshot(update.tick, entities);
  }
}
