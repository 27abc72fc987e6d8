/** What becomes of ids over whole histories of the authoritative index: the players' ids that were ever
    issued, when an id comes back, and runs in which one does.

    Models src/game_server/src/game_server.cpp. */
module AuthorityHistory {
  import opened Bytes
  import opened AuthorityIndex

  // ---------------------------------------------------------------- histories

  /** The id an operation issues to a player, zero for none. */
  function Issues(x: Index, op: Operation): u32 {
    if op.Spawn? then Spawned(x, op.created).1 else 0
  }

  /** The id an operation takes from a player, zero for none. */
  function Retires(x: Index, op: Operation): u32 {
    if op.Delete? && Deleted(x, op.id).1 then op.id else 0
  }

  function One(id: u32): set<u32> {
    if id == 0 then {} else {id}
  }

  /** The ids issued to players in the course of a run, in order. */
  function IssuedInOrder(x: Index, ops: seq<Operation>): seq<u32>
    decreases ops
  {
    if ops == [] then []
    else (if Issues(x, ops[0]) == 0 then [] else [Issues(x, ops[0])]) + IssuedInOrder(Apply(x, ops[0]), ops[1..])
  }

  /** The index together with the ids ever issued to players and ever taken from them. */
  datatype History = History(x: Index, issued: set<u32>, retired: set<u32>)

  const BEGINNING := History(EMPTY, {}, {})

  function Advance(h: History, op: Operation): History {
    History(Apply(h.x, op), h.issued + One(Issues(h.x, op)), h.retired + One(Retires(h.x, op)))
  }

  function Course(h: History, ops: seq<Operation>): History
    decreases ops
  {
    if ops == [] then h else Course(Advance(h, ops[0]), ops[1..])
  }

  /** The history's index is the run's. */
  lemma {:induction false} CourseRuns(h: History, ops: seq<Operation>)
    ensures Course(h, ops).x == Run(h.x, ops)
    decreases ops
  {
    hide Apply;
    if ops != [] {
      CourseRuns(Advance(h, ops[0]), ops[1..]);
    }
  }

  // ---------------------------------------------------------------- the invariant

  ghost predicate AboveBoids(live: map<Handle, Entity>, id: u32) {
    forall h :: h in live && live[h].Boid? ==> live[h].id < id
  }

  ghost predicate IsPlayer(live: map<Handle, Entity>, id: u32) {
    exists h :: h in live && live[h] == Player(id)
  }

  /** Once the last id has been issued, every id above the boids has been, and so has every id a spawn can
      still return; before, exactly those below the next id have been. */
  ghost predicate Kept(h: History) {
    && Inv(h.x)
    && (forall id: u32 :: id in h.issued <==> IsPlayer(h.x.live, id) || id in h.retired)
    && (U32_MAX !in h.issued ==> h.x.nextId != 0 && forall id :: id in h.issued ==> id < h.x.nextId)
    && (U32_MAX in h.issued && h.x.nextId != 0 ==> forall id: u32 :: id >= h.x.nextId ==> id in h.issued)
    && (forall id: u32 :: id != 0 && AboveBoids(h.x.live, id) && (U32_MAX in h.issued || id < h.x.nextId) ==>
          id in h.issued)
  }

  /** Ids the search for a free one passes over are listed. */
  lemma {:induction false} PassedAreListed(slots: seq<Slot>, id: u32, passed: u32)
    requires id != 0 && FreeId(slots, id) != 0 && id <= passed < FreeId(slots, id)
    ensures HasId(slots, passed)
    decreases U32_MAX - id
  {
    if HasId(slots, id) && passed > id {
      PassedAreListed(slots, id + 1, passed);
    }
  }

  /** A listed id above the boids is a player's. */
  lemma ListedAboveBoids(x: Index, id: u32)
    requires Inv(x) && HasId(x.slots, id) && AboveBoids(x.live, id)
    ensures IsPlayer(x.live, id)
  {
    HandleIsListed(x.slots, x.live, 0, id);
    var h := HandleOf(x.slots, id);
    assert x.live[h] == Player(id);
  }

  /** The ids a spawn passes over, above the boids, are players'. */
  lemma SkippedAreIssued(h: History, id: u32)
    requires Kept(h) && h.x.nextId != 0 && id == FreeId(h.x.slots, h.x.nextId) != 0
    ensures forall other: u32 :: AboveBoids(h.x.live, other) && h.x.nextId <= other < id ==> other in h.issued
  {
    hide AboveBoids, HasId, FreeId, IsPlayer;
    forall other: u32 | AboveBoids(h.x.live, other) && h.x.nextId <= other < id
      ensures other in h.issued
    {
      PassedAreListed(h.x.slots, h.x.nextId, other);
      ListedAboveBoids(h.x, other);
    }
  }

  lemma PlayersAfterSpawn(live: map<Handle, Entity>, handle: Handle, id: u32)
    requires handle !in live
    ensures forall other: u32 :: IsPlayer(live[handle := Player(id)], other) <==> other == id || IsPlayer(live, other)
    ensures forall other: u32 :: AboveBoids(live[handle := Player(id)], other) <==> AboveBoids(live, other)
  {
    hide AboveBoids, IsPlayer;
    forall other: u32 {
      PlayerAdded(live, handle, id, other);
    }
  }

  lemma SpawnKept(h: History, created: bool)
    requires Kept(h)
    ensures Kept(Advance(h, Spawn(created)))
  {
    hide AboveBoids, IsPlayer, HasId, FreeId, Inv;
    var x := h.x;
    var next := Advance(h, Spawn(created));
    var id := Issues(x, Spawn(created));
    SpawnKeeps(x, created);
    if id != 0 {
      SpawnIsFresh(x, created);
      NewHandle(x);
      PlayersAfterSpawn(x.live, x.nextHandle, id);
      SkippedAreIssued(h, id);
      assert next.x.live == x.live[x.nextHandle := Player(id)];
      assert next.issued == h.issued + {id} && next.retired == h.retired;
    } else {
      assert next.issued == h.issued && next.retired == h.retired;
    }
  }

  lemma NewHandle(x: Index)
    requires Inv(x)
    ensures x.nextHandle !in x.live
  {
  }

  lemma PlayerAdded(live: map<Handle, Entity>, handle: Handle, id: u32, other: u32)
    requires handle !in live
    ensures var next := live[handle := Player(id)];
      && (IsPlayer(next, other) <==> other == id || IsPlayer(live, other))
      && (AboveBoids(next, other) <==> AboveBoids(live, other))
  {
    var next := live[handle := Player(id)];
    if IsPlayer(live, other) {
      var h :| h in live && live[h] == Player(other);
      assert next[h] == Player(other);
    }
    if AboveBoids(next, other) {
      assert forall h :: h in live && live[h].Boid? ==> next[h] == live[h];
    }
    assert next[handle] == Player(id);
  }

  lemma DeleteKept(h: History, id: u32)
    requires Kept(h)
    ensures Kept(Advance(h, Delete(id)))
  {
    var next := Advance(h, Delete(id));
    DeleteKeeps(h.x, id);
    if Deleted(h.x, id).1 {
      var handle := HandleOf(h.x.slots, id);
      HandleIsListed(h.x.slots, h.x.live, 0, id);
      assert next.x.live == h.x.live - {handle};
      OnlyHandle(h.x, handle);
      hide Inv;
      forall other: u32
        ensures IsPlayer(next.x.live, other) <==> other != id && IsPlayer(h.x.live, other)
        ensures AboveBoids(next.x.live, other) <==> AboveBoids(h.x.live, other)
      {
        PlayerRemoved(h.x.live, handle, id, other);
      }
      assert IsPlayer(h.x.live, id);
    } else {
      assert next.issued == h.issued && next.retired == h.retired;
    }
  }

  /** Ids are held by one entity each. */
  lemma OnlyHandle(x: Index, handle: Handle)
    requires Inv(x) && handle in x.live
    ensures forall h :: h in x.live && x.live[h].id == x.live[handle].id ==> h == handle
  {
    forall h | h in x.live && x.live[h].id == x.live[handle].id
      ensures h == handle
    {
      SlotOf(x.slots, x.live, 0, h);
      SlotOf(x.slots, x.live, 0, handle);
      var i :| 0 <= i < |x.slots| && x.slots[i] == Slot(x.live[h].id, h);
      var j :| 0 <= j < |x.slots| && x.slots[j] == Slot(x.live[handle].id, handle);
      if i < j {
        AscendPair(x.slots, 0, i, j);
      } else if j < i {
        AscendPair(x.slots, 0, j, i);
      }
    }
  }

  lemma {:induction false} SlotOf(slots: seq<Slot>, live: map<Handle, Entity>, rank: nat, handle: Handle)
    requires Listed(slots, live, rank) && handle in Handles(slots) && handle in live
    ensures exists i :: 0 <= i < |slots| && slots[i] == Slot(live[handle].id, handle)
  {
    if slots[0].handle == handle {
      assert slots[0] == Slot(live[handle].id, handle);
    } else {
      SlotOf(slots[1..], live, rank + AuthorityIndex.Step(live[slots[0].handle]), handle);
      var i :| 0 <= i < |slots[1..]| && slots[1..][i] == Slot(live[handle].id, handle);
      assert slots[i + 1] == Slot(live[handle].id, handle);
    }
  }

  lemma PlayerRemoved(live: map<Handle, Entity>, handle: Handle, id: u32, other: u32)
    requires handle in live && live[handle] == Player(id)
    requires forall h :: h in live && live[h].id == id ==> h == handle
    ensures var next := live - {handle};
      && (IsPlayer(next, other) <==> other != id && IsPlayer(live, other))
      && (AboveBoids(next, other) <==> AboveBoids(live, other))
  {
    var next := live - {handle};
    if IsPlayer(live, other) && other != id {
      var h :| h in live && live[h] == Player(other);
      assert next[h] == Player(other);
    }
    if AboveBoids(next, other) {
      assert forall h :: h in live && live[h].Boid? ==> h in next && next[h] == live[h];
    }
  }

  /** What an append does to the live entities: the old ones stay, the new ones are the boids named. */
  lemma {:induction false} AppendedLive(x: Index, states: seq<BoidState>)
    requires forall h :: h in x.live ==> h < x.nextHandle
    ensures var live := Appended(x, states).live;
      && (forall h :: h in x.live ==> h in live && live[h] == x.live[h])
      && (forall h :: h in live && h !in x.live ==> live[h].Boid?)
      && (states != [] ==> exists h :: h in live && live[h].Boid? && live[h].id == states[|states| - 1].id)
    decreases states
  {
    if states != [] {
      var h := x.nextHandle;
      var next := Index(x.slots + [Slot(states[0].id, h)], x.boidCount + 1, x.nextId,
                        x.live[h := Boid(states[0].id, x.boidCount)], h + 1);
      AppendedLive(next, states[1..]);
      assert next.live[h].id == states[0].id;
    }
  }

  /** Every live id is at most the last one listed. */
  lemma LiveUpTo(x: Index)
    requires Inv(x)
    ensures forall h :: h in x.live ==> x.live[h].id <= LastId(x.slots)
  {
    forall h | h in x.live
      ensures x.live[h].id <= LastId(x.slots)
    {
      LiveUpToLast(x.slots, x.live, 0, 0, h);
    }
  }

  /** A successful append of at least one boid. */
  predicate Appends(x: Index, states: seq<BoidState>, inserted: bool) {
    AppendBoids(x, states, inserted).1.spawned > 0
  }

  lemma AppendFacts(x: Index, states: seq<BoidState>, inserted: bool)
    requires Inv(x)
    ensures var next := AppendBoids(x, states, inserted).0;
      if !Appends(x, states, inserted) then next == x
      else
        && states != [] && StatesAscend(states, LastId(x.slots))
        && next.live == Appended(x, states).live
        && next.nextId == Max(x.nextId, NextEntityId(states[|states| - 1].id))
  {
    if Appends(x, states, inserted) {
      ValidatedAscend(states, 0, LastId(x.slots));
    }
  }

  lemma AppendedHistory(live: map<Handle, Entity>, next: map<Handle, Entity>, last: u32, id: u32)
    requires forall h :: h in live ==> h in next && next[h] == live[h]
    requires forall h :: h in next && h !in live ==> next[h].Boid?
    requires exists h :: h in next && next[h].Boid? && next[h].id == last
    ensures IsPlayer(next, id) <==> IsPlayer(live, id)
    ensures AboveBoids(next, id) ==> AboveBoids(live, id) && id > last
  {
    if IsPlayer(live, id) {
      var h :| h in live && live[h] == Player(id);
      assert next[h] == Player(id);
    }
    if AboveBoids(next, id) {
      assert forall h :: h in live && live[h].Boid? ==> next[h] == live[h];
    }
  }

  lemma AppendKept(h: History, states: seq<BoidState>, inserted: bool)
    requires Kept(h)
    ensures Kept(Advance(h, Append(states, inserted)))
  {
    var x := h.x;
    var next := Advance(h, Append(states, inserted));
    assert next.issued == h.issued && next.retired == h.retired;
    AppendKeeps(x, states, inserted);
    AppendFacts(x, states, inserted);
    if Appends(x, states, inserted) {
      var last := states[|states| - 1].id;
      NewHandles(x);
      AppendedLive(x, states);
      StatesLast(states, LastId(x.slots));
      LiveUpTo(x);
      hide Inv, AppendBoids, Appended, StatesAscend;
      forall id: u32
        ensures IsPlayer(next.x.live, id) <==> IsPlayer(x.live, id)
        ensures AboveBoids(next.x.live, id) ==> AboveBoids(x.live, id) && id > last
      {
        AppendedHistory(x.live, next.x.live, last, id);
      }
      assert forall id: u32 :: id > last ==> AboveBoids(x.live, id);
    }
  }

  lemma NewHandles(x: Index)
    requires Inv(x)
    ensures forall h :: h in x.live ==> h < x.nextHandle
  {
  }

  lemma {:induction false} CourseKept(h: History, ops: seq<Operation>)
    requires Kept(h)
    ensures Kept(Course(h, ops))
    decreases ops
  {
    hide Kept, Advance;
    if ops != [] {
      match ops[0] {
        case Append(states, inserted) => AppendKept(h, states, inserted);
        case Spawn(created) => SpawnKept(h, created);
        case Delete(id) => DeleteKept(h, id);
      }
      CourseKept(Advance(h, ops[0]), ops[1..]);
    }
  }

  lemma ReachableHistories(ops: seq<Operation>)
    ensures Kept(Course(BEGINNING, ops)) && Course(BEGINNING, ops).x == Run(EMPTY, ops)
  {
    EmptyInv();
    CourseKept(BEGINNING, ops);
    CourseRuns(BEGINNING, ops);
  }

  // ---------------------------------------------------------------- when an id comes back

  /** After any run, a spawn returns an id that a player had before if and only if the last id of all has
      been issued before. */
  lemma SpawnRepeatsExactly(ops: seq<Operation>, created: bool)
    ensures var h := Course(BEGINNING, ops);
      var id := Spawned(Run(EMPTY, ops), created).1;
      && (id != 0 ==> (id in h.issued <==> U32_MAX in h.issued))
      && (id != 0 && id in h.issued ==> id in h.retired)
  {
    var h := Course(BEGINNING, ops);
    ReachableHistories(ops);
    SpawnIsFresh(h.x, created);
    var id := Spawned(h.x, created).1;
    if id != 0 && IsPlayer(h.x.live, id) {
      var g :| g in h.x.live && h.x.live[g] == Player(id);
      LiveIsListed(h.x, g);
    }
  }

  lemma LiveIsListed(x: Index, handle: Handle)
    requires Inv(x) && handle in x.live
    ensures HasId(x.slots, x.live[handle].id)
  {
    SlotOf(x.slots, x.live, 0, handle);
    var i :| 0 <= i < |x.slots| && x.slots[i] == Slot(x.live[handle].id, handle);
    AscendAt(x.slots, 0, i);
  }

  /** After any run, an appended boid takes an id that a player had before if and only if the last id of
      all has been issued before or the boid's id is below the next one; the player is then deleted. */
  lemma AppendRepeatsExactly(ops: seq<Operation>, states: seq<BoidState>, inserted: bool, i: nat)
    requires Appends(Run(EMPTY, ops), states, inserted) && i < |states|
    ensures var h, id := Course(BEGINNING, ops), states[i].id;
      && (id in h.issued <==> U32_MAX in h.issued || id < h.x.nextId)
      && (id in h.issued <==> id in h.retired)
  {
    var h, id := Course(BEGINNING, ops), states[i].id;
    ReachableHistories(ops);
    AppendFacts(h.x, states, inserted);
    StatesAbove(states, LastId(h.x.slots), i);
    LiveUpTo(h.x);
    assert AboveBoids(h.x.live, id) && !IsPlayer(h.x.live, id);
  }

  lemma {:induction false} StatesAbove(states: seq<BoidState>, least: int, i: nat)
    requires StatesAscend(states, least) && i < |states|
    ensures states[i].id > least
  {
    if i > 0 {
      StatesAbove(states[1..], states[0].id, i - 1);
    }
  }

  // ---------------------------------------------------------------- when the issued ids increase

  /** A successful append that finds no next id and leaves one. */
  predicate Resets(x: Index, op: Operation) {
    op.Append? && x.nextId == 0 && Apply(x, op).nextId != 0
  }

  /** What a caller can see before it appends. */
  lemma ResetsExactly(x: Index, states: seq<BoidState>, inserted: bool)
    requires Inv(x)
    ensures Resets(x, Append(states, inserted)) <==>
      x.nextId == 0 && Appends(x, states, inserted) && states[|states| - 1].id != U32_MAX
  {
    AppendFacts(x, states, inserted);
  }

  /** A player is spawned some time after such an append. */
  ghost predicate SpawnsAfterReset(x: Index, ops: seq<Operation>)
    decreases ops
  {
    ops != [] &&
    (|| (Resets(x, ops[0]) && IssuedInOrder(Apply(x, ops[0]), ops[1..]) != [])
     || SpawnsAfterReset(Apply(x, ops[0]), ops[1..]))
  }

  ghost predicate Increasing(ids: seq<u32>) {
    forall i, j :: 0 <= i < j < |ids| ==> ids[i] < ids[j]
  }

  /** The issued ids of a run increase if and only if none is issued after an append that gave an index
      without a next id one again. */
  lemma IssuedIncreaseExactly(ops: seq<Operation>)
    ensures Increasing(IssuedInOrder(EMPTY, ops)) <==> !SpawnsAfterReset(EMPTY, ops)
  {
    EmptyInv();
    if SpawnsAfterReset(EMPTY, ops) {
      ResetBreaks(EMPTY, ops, []);
      assert [] + IssuedInOrder(EMPTY, ops) == IssuedInOrder(EMPTY, ops);
    } else {
      WithoutReset(EMPTY, ops);
    }
  }

  /** How one operation moves the next id. */
  lemma NextIdMoves(x: Index, op: Operation)
    requires Inv(x)
    ensures Inv(Apply(x, op))
    ensures var next, id := Apply(x, op), Issues(x, op);
      && (id != 0 ==> 0 < x.nextId <= id && next.nextId == NextEntityId(id))
      && (id == 0 && !Resets(x, op) ==> next.nextId >= x.nextId && (x.nextId == 0 ==> next.nextId == 0))
      && (id == 0 && x.nextId != 0 ==> next.nextId != 0)
  {
    match op {
      case Append(states, inserted) =>
        AppendKeeps(x, states, inserted);
        AppendFacts(x, states, inserted);
      case Spawn(created) =>
        SpawnKeeps(x, created);
        SpawnIsFresh(x, created);
      case Delete(id) =>
        DeleteKeeps(x, id);
    }
  }

  lemma {:induction false} WithoutReset(x: Index, ops: seq<Operation>)
    requires Inv(x) && !SpawnsAfterReset(x, ops)
    ensures var ids := IssuedInOrder(x, ops);
      && Increasing(ids)
      && (ids != [] ==> x.nextId != 0)
      && forall i :: 0 <= i < |ids| ==> ids[i] >= x.nextId
    decreases ops
  {
    hide Apply, Resets, Issues, Inv;
    if ops != [] {
      NextIdMoves(x, ops[0]);
      WithoutReset(Apply(x, ops[0]), ops[1..]);
    }
  }

  /** `prior` are the ids issued before; the next id is missing only when the last one of all is among them. */
  lemma {:induction false} ResetBreaks(x: Index, ops: seq<Operation>, prior: seq<u32>)
    requires Inv(x) && SpawnsAfterReset(x, ops) && (x.nextId == 0 ==> U32_MAX in prior)
    ensures !Increasing(prior + IssuedInOrder(x, ops))
    decreases ops
  {
    hide Apply, Issues, Inv;
    var next, rest := Apply(x, ops[0]), ops[1..];
    var id := Issues(x, ops[0]);
    NextIdMoves(x, ops[0]);
    var all := prior + IssuedInOrder(x, ops);
    var grown := if id == 0 then prior else prior + [id];
    assert all == grown + IssuedInOrder(next, rest);
    if Resets(x, ops[0]) && IssuedInOrder(next, rest) != [] {
      var i :| 0 <= i < |prior| && prior[i] == U32_MAX;
      assert all[i] == U32_MAX && i < |grown| < |all|;
      assert all[|grown|] <= U32_MAX;
    } else {
      assert id != 0 ==> grown[|prior|] == id;
      if next.nextId == 0 {
        LastStaysIn(x, ops[0], prior, grown);
      }
      ResetBreaks(next, rest, grown);
    }
  }

  lemma LastStaysIn(x: Index, op: Operation, prior: seq<u32>, grown: seq<u32>)
    requires Inv(x) && Apply(x, op).nextId == 0 && (x.nextId == 0 ==> U32_MAX in prior)
    requires grown == if Issues(x, op) == 0 then prior else prior + [Issues(x, op)]
    ensures U32_MAX in grown
  {
    hide Apply, Issues, Inv;
    NextIdMoves(x, op);
    if Issues(x, op) != 0 {
      assert grown[|prior|] == Issues(x, op);
    }
  }

  // ---------------------------------------------------------------- runs in which ids come back

  const LAST: u32 := U32_MAX
  const FIRST_BOID := Boid(LAST - 2, 0)
  const SECOND_BOID := Boid(LAST - 1, 1)

  /** The indexes along the way: a boid with the last id but two; a player, deleted; a player with the last
      id of all, deleted; and a boid with the last id but one. */
  const ONE_BOID := Index([Slot(LAST - 2, 1)], 1, LAST - 1, map[1 := FIRST_BOID], 2)
  const FIRST_PLAYER :=
    Index([Slot(LAST - 2, 1), Slot(LAST - 1, 2)], 1, LAST, map[1 := FIRST_BOID, 2 := Player(LAST - 1)], 3)
  const FIRST_GONE := Index([Slot(LAST - 2, 1)], 1, LAST, map[1 := FIRST_BOID], 3)
  const SECOND_PLAYER := Index([Slot(LAST - 2, 1), Slot(LAST, 3)], 1, 0, map[1 := FIRST_BOID, 3 := Player(LAST)], 4)
  const SECOND_GONE := Index([Slot(LAST - 2, 1)], 1, 0, map[1 := FIRST_BOID], 4)
  const TWO_BOIDS :=
    Index([Slot(LAST - 2, 1), Slot(LAST - 1, 4)], 2, LAST, map[1 := FIRST_BOID, 4 := SECOND_BOID], 5)

  function AppendOne(id: u32): Operation {
    Append([BoidState(id, true)], true)
  }

  lemma AppendOneStep(x: Index, id: u32)
    requires ValidIndex(x) && |x.slots| < I32_MAX && id > LastId(x.slots)
    ensures Apply(x, AppendOne(id))
         == Index(x.slots + [Slot(id, x.nextHandle)], x.boidCount + 1, Max(x.nextId, NextEntityId(id)),
                  x.live[x.nextHandle := Boid(id, x.boidCount)], x.nextHandle + 1)
  {
    var states := [BoidState(id, true)];
    assert Validate(states, 1, LastId(x.slots)).None?;
    assert Validate(states, 0, LastId(x.slots)).None?;
    var next := Index(x.slots + [Slot(id, x.nextHandle)], x.boidCount + 1, x.nextId,
                      x.live[x.nextHandle := Boid(id, x.boidCount)], x.nextHandle + 1);
    assert states[1..] == [] && Appended(next, []) == next;
    assert Appended(x, states) == next;
  }

  /** One player behind the others comes and goes. */
  lemma SpawnLastStep(x: Index, only: Slot, after: Index)
    requires ValidIndex(x) && x.slots == [only] && x.nextId > only.id
    requires after == Index([only, Slot(x.nextId, x.nextHandle)], x.boidCount, NextEntityId(x.nextId),
                            x.live[x.nextHandle := Player(x.nextId)], x.nextHandle + 1)
    ensures Spawned(x, true) == (after, x.nextId)
  {
    var s := Slot(x.nextId, x.nextHandle);
    assert x.slots[1..] == [] && !HasId([], x.nextId);
    assert !HasId(x.slots, x.nextId);
    assert FreeId(x.slots, x.nextId) == x.nextId;
    assert Insert([], s) == [s] + [] == [s];
    assert Insert(x.slots, s) == [only] + [s] == [only, s];
  }

  lemma DeleteLastStep(x: Index, only: Slot, last: Slot)
    requires ValidIndex(x) && x.slots == [only, last] && 0 < only.id < last.id
    requires last.handle in x.live && x.live[last.handle].Player?
    ensures Deleted(x, last.id) == (x.(slots := [only], live := x.live - {last.handle}), true)
  {
    assert x.slots[1..] == [last] && [last][1..] == [];
    assert HasId([last], last.id) && HasId(x.slots, last.id);
    assert HandleOf([last], last.id) == last.handle && Remove([last], last.id) == [];
    assert HandleOf(x.slots, last.id) == last.handle;
    assert Remove(x.slots, last.id) == [only] + [] == [only];
  }

  lemma Steps()
    ensures Apply(EMPTY, AppendOne(LAST - 2)) == ONE_BOID
    ensures Spawned(ONE_BOID, true) == (FIRST_PLAYER, LAST - 1)
    ensures Deleted(FIRST_PLAYER, LAST - 1) == (FIRST_GONE, true)
    ensures Spawned(FIRST_GONE, true) == (SECOND_PLAYER, LAST)
    ensures Deleted(SECOND_PLAYER, LAST) == (SECOND_GONE, true)
    ensures Apply(SECOND_GONE, AppendOne(LAST - 1)) == TWO_BOIDS
  {
    hide Apply, Spawned, Deleted;
    AppendOneStep(EMPTY, LAST - 2);
    SpawnLastStep(ONE_BOID, Slot(LAST - 2, 1), FIRST_PLAYER);
    DeleteLastStep(FIRST_PLAYER, Slot(LAST - 2, 1), Slot(LAST - 1, 2));
    SpawnLastStep(FIRST_GONE, Slot(LAST - 2, 1), SECOND_PLAYER);
    DeleteLastStep(SECOND_PLAYER, Slot(LAST - 2, 1), Slot(LAST, 3));
    AppendOneStep(SECOND_GONE, LAST - 1);
    assert FIRST_PLAYER.live - {2} == FIRST_GONE.live;
    assert SECOND_PLAYER.live - {3} == SECOND_GONE.live;
  }

  const EXHAUSTING: seq<Operation> :=
    [AppendOne(LAST - 2), Spawn(true), Delete(LAST - 1), Spawn(true), Delete(LAST), AppendOne(LAST - 1)]

  lemma OneMore(h: History, op: Operation, rest: seq<Operation>)
    ensures Course(h, [op] + rest) == Course(Advance(h, op), rest)
  {
    assert ([op] + rest)[1..] == rest;
  }

  /** From the empty index: the second boid takes the first player's id, and the spawn after it returns the
      second player's. */
  lemma IdsComeBack()
    ensures Course(BEGINNING, EXHAUSTING) == History(TWO_BOIDS, {LAST - 1, LAST}, {LAST - 1, LAST})
    ensures TWO_BOIDS.live[4] == Boid(LAST - 1, 1)
    ensures Spawned(Run(EMPTY, EXHAUSTING), true).1 == LAST
  {
    hide Apply, Spawned, Deleted, Course;
    Steps();
    var after1 := EXHAUSTING[1..];
    var after2, after3 := after1[1..], after1[1..][1..];
    var after4, after5 := after3[1..], after3[1..][1..];
    var h1 := History(ONE_BOID, {}, {});
    var h2 := History(FIRST_PLAYER, {LAST - 1}, {});
    var h3 := History(FIRST_GONE, {LAST - 1}, {LAST - 1});
    var h4 := History(SECOND_PLAYER, {LAST - 1, LAST}, {LAST - 1});
    var h5 := History(SECOND_GONE, {LAST - 1, LAST}, {LAST - 1, LAST});
    Advances();
    assert EXHAUSTING == [AppendOne(LAST - 2)] + after1 && after1 == [Spawn(true)] + after2;
    assert after2 == [Delete(LAST - 1)] + after3 && after3 == [Spawn(true)] + after4;
    assert after4 == [Delete(LAST)] + after5 && after5 == [AppendOne(LAST - 1)] + [];
    OneMore(BEGINNING, AppendOne(LAST - 2), after1);
    OneMore(h1, Spawn(true), after2);
    OneMore(h2, Delete(LAST - 1), after3);
    OneMore(h3, Spawn(true), after4);
    OneMore(h4, Delete(LAST), after5);
    OneMore(h5, AppendOne(LAST - 1), []);
    NoMore(Advance(h5, AppendOne(LAST - 1)));
    CourseRuns(BEGINNING, EXHAUSTING);
    LastAgain();
  }

  lemma NoMore(h: History)
    ensures Course(h, []) == h
  {
  }

  lemma LastAgain()
    ensures Spawned(TWO_BOIDS, true).1 == LAST
  {
    var slots := TWO_BOIDS.slots;
    assert slots[1..] == [Slot(LAST - 1, 4)] && slots[1..][1..] == [] && !HasId([], LAST);
    assert !HasId(slots[1..], LAST);
    assert !HasId(slots, LAST);
    assert FreeId(slots, LAST) == LAST;
  }

  lemma Advances()
    ensures Advance(BEGINNING, AppendOne(LAST - 2)) == History(ONE_BOID, {}, {})
    ensures Advance(History(ONE_BOID, {}, {}), Spawn(true)) == History(FIRST_PLAYER, {LAST - 1}, {})
    ensures Advance(History(FIRST_PLAYER, {LAST - 1}, {}), Delete(LAST - 1))
         == History(FIRST_GONE, {LAST - 1}, {LAST - 1})
    ensures Advance(History(FIRST_GONE, {LAST - 1}, {LAST - 1}), Spawn(true))
         == History(SECOND_PLAYER, {LAST - 1, LAST}, {LAST - 1})
    ensures Advance(History(SECOND_PLAYER, {LAST - 1, LAST}, {LAST - 1}), Delete(LAST))
         == History(SECOND_GONE, {LAST - 1, LAST}, {LAST - 1, LAST})
    ensures Advance(History(SECOND_GONE, {LAST - 1, LAST}, {LAST - 1, LAST}), AppendOne(LAST - 1))
         == History(TWO_BOIDS, {LAST - 1, LAST}, {LAST - 1, LAST})
  {
    hide Spawned, Deleted, AppendBoids;
    Steps();
    assert {LAST - 1} + {LAST} == {LAST - 1, LAST};
  }

  /** A boid takes the id of a player that was spawned and deleted, with ids to spare. */
  lemma BoidTakesPlayersId()
    ensures var ops := [Spawn(true), Delete(1)];
      && Course(BEGINNING, ops) == History(Index([], 0, 2, map[], 2), {1}, {1})
      && Apply(Run(EMPTY, ops), AppendOne(1)).live == map[2 := Boid(1, 0)]
  {
    var ops := [Spawn(true), Delete(1)];
    var one := Index([Slot(1, 1)], 0, 2, map[1 := Player(1)], 2);
    var gone := Index([], 0, 2, map[], 2);
    assert Spawned(EMPTY, true) == (one, 1) by {
      assert !HasId([], 1);
      assert FreeId([], 1) == 1;
      assert Insert([], Slot(1, 1)) == [Slot(1, 1)] + [] == [Slot(1, 1)];
    }
    assert Deleted(one, 1) == (gone, true) by {
      assert HasId(one.slots, 1) && HandleOf(one.slots, 1) == 1;
      assert one.slots[1..] == [] && Remove(one.slots, 1) == [] && one.live - {1} == map[];
    }
    hide Spawned, Deleted, Course;
    assert ops == [Spawn(true)] + [Delete(1)] && [Delete(1)] == [Delete(1)] + [];
    OneMore(BEGINNING, Spawn(true), [Delete(1)]);
    OneMore(History(one, {1}, {}), Delete(1), []);
    NoMore(History(gone, {1}, {1}));
    CourseRuns(BEGINNING, ops);
    AppendOneStep(gone, 1);
  }
}
