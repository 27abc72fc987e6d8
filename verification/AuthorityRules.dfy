/** What spawning, deleting and appending do to the population of authoritative ids, and exactly when
    they succeed.

    Models src/game_server/src/game_server.cpp. */
module AuthorityRules {
  import opened Bytes
  import opened AuthorityIndex

  /** The entities by id. */
  ghost function Known(slots: seq<Slot>, live: map<Handle, Entity>): map<u32, Entity> {
    if slots == [] then map[]
    else
      var rest := Known(slots[1..], live);
      if slots[0].handle in live then rest[slots[0].id := live[slots[0].handle]] else rest
  }

  ghost function Population(x: Index): map<u32, Entity> {
    Known(x.slots, x.live)
  }

  lemma {:induction false} KnownAbove(slots: seq<Slot>, live: map<Handle, Entity>, least: int, id: u32)
    requires Ascend(slots, least) && id in Known(slots, live)
    ensures id > least
  {
    if slots[0].id != id {
      KnownAbove(slots[1..], live, slots[0].id, id);
    }
  }

  /** The listed ids are the slots' ids. */
  lemma {:induction false} ListedExactly(slots: seq<Slot>, id: u32)
    ensures HasId(slots, id) <==> exists i :: 0 <= i < |slots| && slots[i].id == id
  {
    if slots != [] {
      ListedExactly(slots[1..], id);
      if i :| 0 <= i < |slots| && slots[i].id == id {
        assert i > 0 ==> slots[1..][i - 1] == slots[i];
      }
      if HasId(slots[1..], id) {
        var i :| 0 <= i < |slots[1..]| && slots[1..][i].id == id;
        assert slots[i + 1].id == id;
      }
    }
  }

  lemma {:induction false} KnownListed(slots: seq<Slot>, live: map<Handle, Entity>, rank: nat, id: u32)
    requires Listed(slots, live, rank)
    ensures id in Known(slots, live) <==> HasId(slots, id)
    ensures HasId(slots, id) ==> HandleOf(slots, id) in live && Known(slots, live)[id] == live[HandleOf(slots, id)]
  {
    if slots != [] {
      KnownListed(slots[1..], live, rank + Step(live[slots[0].handle]), id);
    }
  }

  lemma {:induction false} KnownElsewhere(slots: seq<Slot>, live: map<Handle, Entity>, other: map<Handle, Entity>)
    requires forall h :: h in Handles(slots) ==> (h in live <==> h in other) && (h in live ==> live[h] == other[h])
    ensures Known(slots, other) == Known(slots, live)
  {
    if slots != [] {
      KnownElsewhere(slots[1..], live, other);
    }
  }

  lemma {:induction false} KnownInsert(slots: seq<Slot>, live: map<Handle, Entity>, s: Slot)
    requires !HasId(slots, s.id) && s.handle in live
    ensures Known(Insert(slots, s), live) == Known(slots, live)[s.id := live[s.handle]]
  {
    if slots == [] || s.id < slots[0].id {
      assert ([s] + slots)[1..] == slots;
    } else {
      KnownInsert(slots[1..], live, s);
      assert Insert(slots, s)[1..] == Insert(slots[1..], s);
    }
  }

  lemma {:induction false} KnownRemove(slots: seq<Slot>, live: map<Handle, Entity>, least: int, id: u32)
    requires Ascend(slots, least)
    ensures Known(Remove(slots, id), live) == Known(slots, live) - {id}
  {
    if slots != [] {
      if slots[0].id == id {
        if id in Known(slots[1..], live) {
          KnownAbove(slots[1..], live, id, id);
        }
      } else {
        KnownRemove(slots[1..], live, slots[0].id, id);
        assert Remove(slots, id)[1..] == Remove(slots[1..], id);
      }
    }
  }

  lemma {:induction false} KnownAppend(slots: seq<Slot>, live: map<Handle, Entity>, s: Slot)
    requires !HasId(slots, s.id) && s.handle in live
    ensures Known(slots + [s], live) == Known(slots, live)[s.id := live[s.handle]]
  {
    if slots == [] {
      assert slots + [s] == [s] && [s][1..] == [];
    } else {
      KnownAppend(slots[1..], live, s);
      assert (slots + [s])[1..] == slots[1..] + [s];
    }
  }

  // ---------------------------------------------------------------- spawning

  lemma {:induction false} FreeExactly(slots: seq<Slot>, from: u32)
    ensures var free := FreeId(slots, from);
      && (free != 0 ==> free >= from && !HasId(slots, free))
      && (forall id: u32 :: from <= id && id != 0 && (free == 0 || id < free) ==> HasId(slots, id))
    decreases U32_MAX - from
  {
    if (from == 0 || HasId(slots, from)) && from < U32_MAX {
      FreeExactly(slots, from + 1);
    }
  }

  /** A spawn takes the least id that is free from the next one on, if there is one and the world made the entity;
      that id becomes a player, and the next one to try follows it. */
  lemma SpawnExactly(x: Index, created: bool)
    requires Inv(x)
    ensures var (next, id) := Spawned(x, created);
      && (id != 0 <==>
            created && x.nextId != 0 && exists free: u32 :: free >= x.nextId && free !in Population(x))
      && (id == 0 ==> next == x)
      && (id != 0 ==>
            && id >= x.nextId && id !in Population(x)
            && (forall other: u32 :: x.nextId <= other < id ==> other in Population(x))
            && Population(next) == Population(x)[id := Player(id)]
            && next.nextId == (if id == 0xFFFF_FFFF then 0 else id + 1) && next.boidCount == x.boidCount)
  {
    FreeExactly(x.slots, x.nextId);
    forall other: u32
      ensures other in Population(x) <==> HasId(x.slots, other)
    {
      KnownListed(x.slots, x.live, 0, other);
    }
    BoidsFit(x.slots, x.live);
    var (next, id) := Spawned(x, created);
    if id != 0 {
      assert id >= x.nextId && id !in Population(x);
      KnownInsert(x.slots, next.live, Slot(id, x.nextHandle));
      KnownElsewhere(x.slots, x.live, next.live);
    }
    hide FreeId, Known, HasId, Inv;
    if created && x.nextId != 0 && exists free: u32 :: free >= x.nextId && free !in Population(x) {
      var free: u32 :| free >= x.nextId && free !in Population(x);
      assert !HasId(x.slots, free);
    }
  }

  // ---------------------------------------------------------------- deleting

  lemma {:induction false} HandleOnce(slots: seq<Slot>, live: map<Handle, Entity>, rank: nat, id: u32)
    requires DistinctHandles(slots) && Listed(slots, live, rank) && HasId(slots, id)
    ensures HandleOf(slots, id) in Handles(slots) && HandleOf(slots, id) !in Handles(Remove(slots, id))
    ensures Handles(Remove(slots, id)) <= Handles(slots)
  {
    if slots[0].id != id {
      HandleOnce(slots[1..], live, rank + Step(live[slots[0].handle]), id);
      assert Remove(slots, id)[1..] == Remove(slots[1..], id);
    }
  }

  /** A delete takes exactly the given player out of the population; boids and unknown ids stay. */
  lemma DeleteExactly(x: Index, id: u32)
    requires Inv(x)
    ensures var (next, deleted) := Deleted(x, id);
      && (deleted <==> id in Population(x) && Population(x)[id].Player?)
      && (!deleted ==> next == x)
      && (deleted ==>
            && Population(next) == Population(x) - {id}
            && next.nextId == x.nextId && next.boidCount == x.boidCount)
  {
    KnownListed(x.slots, x.live, 0, id);
    BoidsFit(x.slots, x.live);
    if id in Population(x) {
      KnownAbove(x.slots, x.live, 0, id);
    }
    var (next, deleted) := Deleted(x, id);
    if deleted {
      HandleOnce(x.slots, x.live, 0, id);
      KnownRemove(x.slots, x.live, 0, id);
      KnownElsewhere(next.slots, x.live, next.live);
    }
  }

  // ---------------------------------------------------------------- appending

  /** No listed id is above the last, which is listed unless there is none. */
  lemma LastExactly(slots: seq<Slot>)
    requires Ascend(slots, 0)
    ensures forall id: u32 :: HasId(slots, id) ==> id <= LastId(slots)
    ensures slots == [] <==> LastId(slots) == 0
    ensures slots != [] ==> HasId(slots, LastId(slots))
  {
    forall id: u32 | HasId(slots, id)
      ensures id <= LastId(slots)
    {
      HasIdAt(slots, id);
      var i :| 0 <= i < |slots| && slots[i].id == id;
      if i < |slots| - 1 {
        AscendPair(slots, 0, i, |slots| - 1);
      }
    }
    if slots != [] {
      AscendAt(slots, 0, |slots| - 1);
    }
  }

  /** Nothing is wrong with state `i`: its id is above the one before it, or above all listed ids, and it is valid. */
  predicate Fine(states: seq<BoidState>, i: nat, last: u32)
    requires i < |states|
  {
    states[i].id > last && states[i].valid && (i > 0 ==> states[i].id > states[i - 1].id)
  }

  lemma {:induction false} ValidateExactly(states: seq<BoidState>, offset: nat, last: u32)
    requires offset <= |states|
    ensures var failure := Validate(states, offset, last);
      && (failure.None? <==> forall i :: offset <= i < |states| ==> Fine(states, i, last))
      && (failure.Some? ==>
            var (error, at) := failure.value;
            && offset <= at < |states|
            && !Fine(states, at, last) && (forall i :: offset <= i < at ==> Fine(states, i, last))
            && error == if states[at].id == 0 then ZeroId
                        else if at > 0 && states[at].id <= states[at - 1].id then NonAscendingIds
                        else if states[at].id <= last then ExistingIdOverlap
                        else InvalidBoidState)
    decreases |states| - offset
  {
    if offset < |states| {
      ValidateExactly(states, offset + 1, last);
      assert Fine(states, offset, last) ==>
        (Validate(states, offset, last) == Validate(states, offset + 1, last));
    }
  }

  /** The boids that are appended: one row after the other, behind those there are. */
  ghost function WithBoids(population: map<u32, Entity>, states: seq<BoidState>, rows: nat): map<u32, Entity>
    decreases states
  {
    if states == [] then population
    else WithBoids(population[states[0].id := Boid(states[0].id, rows)], states[1..], rows + 1)
  }

  lemma {:induction false} AppendedExactly(x: Index, states: seq<BoidState>)
    requires Inv(x) && StatesAscend(states, LastId(x.slots))
    ensures var next := Appended(x, states);
      && Population(next) == WithBoids(Population(x), states, x.boidCount)
      && next.boidCount == x.boidCount + |states| && |next.slots| == |x.slots| + |states|
    decreases states
  {
    if states != [] {
      var h, s := x.nextHandle, Slot(states[0].id, x.nextHandle);
      var next := Index(x.slots + [s], x.boidCount + 1, x.nextId, x.live[h := Boid(states[0].id, x.boidCount)], h + 1);
      LastExactly(x.slots);
      KnownAppend(x.slots, next.live, s);
      KnownElsewhere(x.slots, x.live, next.live);
      ListedElsewhere(x.slots, x.live, next.live, 0);
      ListBoid(x.slots, next.live, 0, s);
      AscendAppend(x.slots, 0, s);
      assert next.live.Keys == x.live.Keys + {h};
      AppendedExactly(next, states[1..]);
    }
  }

  /** An append takes all of the states or none: all exactly when they are not too many, every one of them is fine and
      the world took them. They become boids in the rows behind the others, and the next id to try passes the last
      of them. Otherwise nothing changes and the first state that is not fine is named. */
  lemma AppendExactly(x: Index, states: seq<BoidState>, inserted: bool)
    requires Inv(x)
    ensures var (next, report) := AppendBoids(x, states, inserted);
      var last := LastId(x.slots);
      && (report.error.None? <==>
            && |states| <= 0x7FFF_FFFF && |states| + |x.slots| <= 0xFFFF_FFFF
            && (forall i :: 0 <= i < |states| ==> Fine(states, i, last))
            && (states == [] || inserted))
      && (report.error.Some? ==> next == x && report.spawned == 0)
      && (report.error.None? ==>
            && report.spawned == |states|
            && Population(next) == WithBoids(Population(x), states, x.boidCount)
            && next.boidCount == x.boidCount + |states|
            && (states == [] ==> next.nextId == x.nextId)
            && (states != [] ==>
                  var after := states[|states| - 1].id + 1;
                  next.nextId == if after <= x.nextId || after == 0x1_0000_0000 then x.nextId else after))
  {
    hide Known, Inv;
    Fits(x);
    ValidateExactly(states, 0, LastId(x.slots));
    var (next, report) := AppendBoids(x, states, inserted);
    if report.error.None? && states != [] {
      ValidatedAscend(states, 0, LastId(x.slots));
      AppendedExactly(x, states);
      AppendedKeeps(x, states);
    }
  }

  lemma Fits(x: Index)
    requires Inv(x)
    ensures ValidIndex(x)
  {
    BoidsFit(x.slots, x.live);
  }

  /** And which of the refusals it is. */
  lemma AppendRefusal(x: Index, states: seq<BoidState>, inserted: bool)
    requires Inv(x) && AppendBoids(x, states, inserted).1.error.Some?
    ensures var (error, at) := (AppendBoids(x, states, inserted).1.error.value,
                                AppendBoids(x, states, inserted).1.failingIndex);
      var last := LastId(x.slots);
      if |states| > 0x7FFF_FFFF || |states| + |x.slots| > 0xFFFF_FFFF then error == CountOutOfRange
      else if forall i :: 0 <= i < |states| ==> Fine(states, i, last) then error == BulkInsertFailed && !inserted
      else
        && at < |states| && !Fine(states, at, last) && (forall i :: 0 <= i < at ==> Fine(states, i, last))
        && error == if states[at].id == 0 then ZeroId
                    else if at > 0 && states[at].id <= states[at - 1].id then NonAscendingIds
                    else if states[at].id <= last then ExistingIdOverlap
                    else InvalidBoidState
  {
    hide Inv;
    Fits(x);
    ValidateExactly(states, 0, LastId(x.slots));
  }
}
