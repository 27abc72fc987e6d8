/** The authoritative index of replicated entities: ids in ascending order, each paired with its live
    entity, and the dense rows of the boids. Over every sequence of boid appends, player spawns and
    player deletes the flock capture finds exactly the rows it expects.

    The parallel arrays of ids and entity handles are one sequence of slots; a handle is a number that
    is never handed out twice. Models src/game_server/src/game_server.cpp. */
module AuthorityIndex {
  import opened Bytes

  type Handle = nat

  datatype Entity = Boid(id: u32, row: nat) | Player(id: u32)

  datatype Slot = Slot(id: u32, handle: Handle)

  datatype Index = Index(slots: seq<Slot>, boidCount: nat, nextId: u32, live: map<Handle, Entity>, nextHandle: Handle)

  const EMPTY := Index([], 0, 1, map[], 1)

  const I32_MAX: nat := 0x7FFF_FFFF

  // ---------------------------------------------------------------- the invariant

  ghost predicate Ascend(slots: seq<Slot>, least: int) {
    slots != [] ==> slots[0].id > least && Ascend(slots[1..], slots[0].id)
  }

  ghost function Handles(slots: seq<Slot>): set<Handle> {
    if slots == [] then {} else {slots[0].handle} + Handles(slots[1..])
  }

  ghost predicate DistinctHandles(slots: seq<Slot>) {
    slots != [] ==> slots[0].handle !in Handles(slots[1..]) && DistinctHandles(slots[1..])
  }

  function Step(e: Entity): nat {
    if e.Boid? then 1 else 0
  }

  /** Every slot's entity is alive under the slot's id, and boids carry their rank among boids as row. */
  ghost predicate Listed(slots: seq<Slot>, live: map<Handle, Entity>, rank: nat) {
    slots != [] ==>
      var h := slots[0].handle;
      && h in live && live[h].id == slots[0].id
      && (live[h].Boid? ==> live[h].row == rank)
      && Listed(slots[1..], live, rank + Step(live[h]))
  }

  ghost function Boids(slots: seq<Slot>, live: map<Handle, Entity>): nat {
    if slots == [] then 0
    else (if slots[0].handle in live then Step(live[slots[0].handle]) else 0) + Boids(slots[1..], live)
  }

  ghost predicate Inv(x: Index) {
    && Ascend(x.slots, 0)
    && DistinctHandles(x.slots)
    && Listed(x.slots, x.live, 0)
    && x.live.Keys == Handles(x.slots)
    && (forall h :: h in x.live ==> h < x.nextHandle)
    && x.boidCount == Boids(x.slots, x.live)
    && (forall h :: h in x.live && x.live[h].Player? ==> x.nextId == 0 || x.live[h].id < x.nextId)
  }

  predicate ValidIndex(x: Index) {
    x.boidCount <= |x.slots|
  }

  predicate HasId(slots: seq<Slot>, id: u32) {
    slots != [] && (slots[0].id == id || HasId(slots[1..], id))
  }

  // ---------------------------------------------------------------- order

  lemma {:induction false} AscendAt(slots: seq<Slot>, least: int, i: nat)
    requires Ascend(slots, least) && i < |slots|
    ensures slots[i].id > least && HasId(slots, slots[i].id)
  {
    if i > 0 {
      AscendAt(slots[1..], slots[0].id, i - 1);
    }
  }

  lemma {:induction false} AscendPair(slots: seq<Slot>, least: int, i: nat, j: nat)
    requires Ascend(slots, least) && i < j < |slots|
    ensures slots[i].id < slots[j].id
  {
    if i == 0 {
      AscendAt(slots[1..], slots[0].id, j - 1);
    } else {
      AscendPair(slots[1..], slots[0].id, i - 1, j - 1);
    }
  }

  lemma {:induction false} HasIdAt(slots: seq<Slot>, id: u32)
    requires HasId(slots, id)
    ensures exists i :: 0 <= i < |slots| && slots[i].id == id
  {
    if slots[0].id != id {
      HasIdAt(slots[1..], id);
      var i :| 0 <= i < |slots[1..]| && slots[1..][i].id == id;
      assert slots[i + 1].id == id;
    }
  }

  ghost predicate Found(slots: seq<Slot>, id: u32, at: nat) {
    && at <= |slots|
    && (forall i :: 0 <= i < at ==> slots[i].id < id)
    && (forall i :: at <= i < |slots| ==> slots[i].id >= id)
  }

  /** `find_index`: the first slot whose id is not below `id`. */
  method FindIndex(slots: seq<Slot>, id: u32) returns (at: nat)
    requires Ascend(slots, 0)
    ensures Found(slots, id, at)
    ensures HasId(slots, id) <==> at < |slots| && slots[at].id == id
  {
    at := 0;
    var end := |slots|;
    forall i, j | 0 <= i < j < |slots|
      ensures slots[i].id < slots[j].id
    {
      AscendPair(slots, 0, i, j);
    }
    while at < end
      invariant 0 <= at <= end <= |slots|
      invariant forall i :: 0 <= i < at ==> slots[i].id < id
      invariant forall i :: end <= i < |slots| ==> slots[i].id >= id
    {
      var middle := at + (end - at) / 2;
      if slots[middle].id < id {
        at := middle + 1;
      } else {
        end := middle;
      }
    }
    if at < |slots| && slots[at].id == id {
      AscendAt(slots, 0, at);
    }
    if HasId(slots, id) {
      HasIdAt(slots, id);
    }
  }

  // ---------------------------------------------------------------- inserting and removing

  function Insert(slots: seq<Slot>, s: Slot): seq<Slot> {
    if slots == [] || s.id < slots[0].id then [s] + slots else [slots[0]] + Insert(slots[1..], s)
  }

  function Remove(slots: seq<Slot>, id: u32): seq<Slot> {
    if slots == [] then [] else if slots[0].id == id then slots[1..] else [slots[0]] + Remove(slots[1..], id)
  }

  function HandleOf(slots: seq<Slot>, id: u32): Handle
    requires HasId(slots, id)
  {
    if slots[0].id == id then slots[0].handle else HandleOf(slots[1..], id)
  }

  lemma {:induction false} InsertAt(slots: seq<Slot>, s: Slot, at: nat)
    requires Found(slots, s.id, at) && !HasId(slots, s.id)
    ensures Insert(slots, s) == slots[..at] + [s] + slots[at..]
  {
    if slots != [] && s.id >= slots[0].id {
      assert at > 0;
      assert Found(slots[1..], s.id, at - 1);
      InsertAt(slots[1..], s, at - 1);
      assert slots[..at] == [slots[0]] + slots[1..][..at - 1] && slots[1..][at - 1..] == slots[at..];
    }
  }

  lemma CutBehindFirst(slots: seq<Slot>, at: nat)
    requires 0 < at < |slots|
    ensures slots[..at] + slots[at + 1..] == [slots[0]] + (slots[1..][..at - 1] + slots[1..][at..])
  {
  }

  lemma {:induction false} RemoveAt(slots: seq<Slot>, id: u32, at: nat)
    requires Found(slots, id, at) && at < |slots| && slots[at].id == id
    ensures HasId(slots, id) && HandleOf(slots, id) == slots[at].handle
    ensures Remove(slots, id) == slots[..at] + slots[at + 1..]
  {
    if slots[0].id == id {
      assert at == 0 && slots[..0] + slots[1..] == slots[1..];
    } else {
      var rest := slots[1..];
      assert Found(rest, id, at - 1);
      assert rest[at - 1].id == id;
      RemoveAt(rest, id, at - 1);
      CutBehindFirst(slots, at);
    }
  }

  lemma {:induction false} ListedElsewhere(slots: seq<Slot>, live: map<Handle, Entity>, other: map<Handle, Entity>,
                                           rank: nat)
    requires Listed(slots, live, rank)
    requires forall h :: h in Handles(slots) && h in live ==> h in other && other[h] == live[h]
    ensures Listed(slots, other, rank) && Boids(slots, other) == Boids(slots, live)
  {
    if slots != [] {
      ListedElsewhere(slots[1..], live, other, rank + Step(live[slots[0].handle]));
    }
  }

  lemma {:induction false} ListedAlive(slots: seq<Slot>, live: map<Handle, Entity>, rank: nat)
    requires Listed(slots, live, rank)
    ensures Handles(slots) <= live.Keys
  {
    if slots != [] {
      ListedAlive(slots[1..], live, rank + Step(live[slots[0].handle]));
    }
  }

  /** A player takes its place in id order and changes no boid's row. */
  lemma {:induction false} InsertPlayer(slots: seq<Slot>, live: map<Handle, Entity>, rank: nat, least: int, s: Slot)
    requires Ascend(slots, least) && DistinctHandles(slots) && Listed(slots, live, rank)
    requires s.id > least && !HasId(slots, s.id) && s.handle !in Handles(slots)
    requires s.handle in live && live[s.handle] == Player(s.id)
    ensures var next := Insert(slots, s);
      && Ascend(next, least) && DistinctHandles(next) && Listed(next, live, rank)
      && Handles(next) == Handles(slots) + {s.handle}
      && Boids(next, live) == Boids(slots, live)
  {
    if slots == [] || s.id < slots[0].id {
      assert ([s] + slots)[1..] == slots;
    } else {
      InsertPlayer(slots[1..], live, rank + Step(live[slots[0].handle]), slots[0].id, s);
      var rest := Insert(slots[1..], s);
      assert ([slots[0]] + rest)[1..] == rest;
    }
  }

  lemma {:induction false} AscendAbove(slots: seq<Slot>, least: int, lower: int)
    requires Ascend(slots, least) && lower <= least
    ensures Ascend(slots, lower)
  {
  }

  /** Without a player the others stay as they were, rows included. */
  lemma {:induction false} RemovePlayer(slots: seq<Slot>, live: map<Handle, Entity>, rank: nat, least: int, id: u32)
    requires Ascend(slots, least) && DistinctHandles(slots) && Listed(slots, live, rank) && HasId(slots, id)
    requires HandleOf(slots, id) in live && live[HandleOf(slots, id)].Player?
    ensures var next, h := Remove(slots, id), HandleOf(slots, id);
      && Ascend(next, least) && DistinctHandles(next) && Listed(next, live, rank)
      && h in Handles(slots) && Handles(next) == Handles(slots) - {h}
      && Boids(next, live) == Boids(slots, live)
  {
    if slots[0].id == id {
      AscendAbove(slots[1..], slots[0].id, least);
    } else {
      RemovePlayer(slots[1..], live, rank + Step(live[slots[0].handle]), slots[0].id, id);
      var rest := Remove(slots[1..], id);
      assert ([slots[0]] + rest)[1..] == rest;
    }
  }

  // ---------------------------------------------------------------- spawning and deleting players

  function NextEntityId(id: u32): u32 {
    if id == U32_MAX then 0 else id + 1
  }

  /** The first id from `id` on that is not listed; zero when there is none. */
  function FreeId(slots: seq<Slot>, id: u32): (free: u32)
    ensures free != 0 ==> id <= free && !HasId(slots, free)
    decreases U32_MAX - id
  {
    if id != 0 && !HasId(slots, id) then id else if id == U32_MAX then 0 else FreeId(slots, id + 1)
  }

  function Spawned(x: Index, created: bool): (Index, u32) {
    if !ValidIndex(x) || x.nextId == 0 then (x, 0)
    else
      var id := FreeId(x.slots, x.nextId);
      if id == 0 || !created then (x, 0)
      else
        (Index(Insert(x.slots, Slot(id, x.nextHandle)), x.boidCount, NextEntityId(id),
               x.live[x.nextHandle := Player(id)], x.nextHandle + 1), id)
  }

  function Deleted(x: Index, id: u32): (Index, bool) {
    if !ValidIndex(x) || id == 0 || !HasId(x.slots, id) then (x, false)
    else
      var h := HandleOf(x.slots, id);
      if h !in x.live || !x.live[h].Player? then (x, false)
      else (x.(slots := Remove(x.slots, id), live := x.live - {h}), true)
  }

  lemma SpawnKeeps(x: Index, created: bool)
    requires Inv(x)
    ensures Inv(Spawned(x, created).0)
  {
    var (next, id) := Spawned(x, created);
    if id != 0 {
      var h := x.nextHandle;
      ListedElsewhere(x.slots, x.live, next.live, 0);
      InsertPlayer(x.slots, next.live, 0, 0, Slot(id, h));
      assert next.live.Keys == x.live.Keys + {h};
    }
  }

  /** A spawn never returns an id that is live, and the ids it returns grow while ids last. */
  lemma SpawnIsFresh(x: Index, created: bool)
    requires Inv(x)
    ensures var (next, id) := Spawned(x, created);
      id != 0 ==>
        && !HasId(x.slots, id) && HasId(next.slots, id) && id >= x.nextId
        && (next.nextId == 0 || next.nextId > id)
  {
    var (next, id) := Spawned(x, created);
    if id != 0 {
      InsertHas(x.slots, Slot(id, x.nextHandle));
    }
  }

  lemma {:induction false} InsertHas(slots: seq<Slot>, s: Slot)
    ensures HasId(Insert(slots, s), s.id)
  {
    if slots != [] && s.id >= slots[0].id {
      InsertHas(slots[1..], s);
      assert Insert(slots, s)[1..] == Insert(slots[1..], s);
    }
  }

  lemma DeleteKeeps(x: Index, id: u32)
    requires Inv(x)
    ensures Inv(Deleted(x, id).0)
  {
    var (next, deleted) := Deleted(x, id);
    if deleted {
      RemovePlayer(x.slots, x.live, 0, 0, id);
      ListedElsewhere(next.slots, x.live, next.live, 0);
    }
  }

  /** Every listed id has its entity. */
  lemma {:induction false} HandleIsListed(slots: seq<Slot>, live: map<Handle, Entity>, rank: nat, id: u32)
    requires Listed(slots, live, rank) && HasId(slots, id)
    ensures HandleOf(slots, id) in live && live[HandleOf(slots, id)].id == id && HandleOf(slots, id) in Handles(slots)
  {
    if slots[0].id != id {
      HandleIsListed(slots[1..], live, rank + Step(live[slots[0].handle]), id);
    }
  }

  /** A delete removes a listed player, that id and no other; a boid's id and an unlisted one are refused
      and change nothing. */
  lemma DeleteExactly(x: Index, id: u32)
    requires Inv(x)
    ensures var (next, deleted) := Deleted(x, id);
      && (HasId(x.slots, id) ==> HandleOf(x.slots, id) in x.live)
      && (deleted <==> HasId(x.slots, id) && x.live[HandleOf(x.slots, id)].Player?)
      && (HasId(x.slots, id) && x.live[HandleOf(x.slots, id)].Boid? ==> Deleted(x, id) == (x, false))
      && (!deleted ==> next == x)
      && (deleted ==> forall other: u32 :: HasId(next.slots, other) <==> other != id && HasId(x.slots, other))
  {
    if HasId(x.slots, id) {
      HandleIsListed(x.slots, x.live, 0, id);
      HasIdAt(x.slots, id);
      var i :| 0 <= i < |x.slots| && x.slots[i].id == id;
      AscendAt(x.slots, 0, i);
      BoidsFit(x.slots, x.live);
      forall other: u32
        ensures HasId(Remove(x.slots, id), other) <==> other != id && HasId(x.slots, other)
      {
        RemoveHas(x.slots, 0, id, other);
      }
    }
  }

  lemma {:induction false} RemoveHas(slots: seq<Slot>, least: int, id: u32, other: u32)
    requires Ascend(slots, least) && HasId(slots, id)
    ensures HasId(Remove(slots, id), other) <==> other != id && HasId(slots, other)
  {
    if slots[0].id == id {
      if HasId(slots[1..], id) {
        HasIdAt(slots[1..], id);
        var i :| 0 <= i < |slots[1..]| && slots[1..][i].id == id;
        AscendAt(slots[1..], id, i);
      }
    } else {
      RemoveHas(slots[1..], slots[0].id, id, other);
      assert Remove(slots, id)[1..] == Remove(slots[1..], id);
    }
  }

  // ---------------------------------------------------------------- appending boids

  datatype BoidState = BoidState(id: u32, valid: bool)

  datatype AppendError =
    | InvalidIndexState
    | CountOutOfRange
    | ZeroId
    | NonAscendingIds
    | ExistingIdOverlap
    | InvalidBoidState
    | BulkInsertFailed

  datatype AppendReport = AppendReport(spawned: nat, error: Option<AppendError>, failingIndex: nat)

  function LastId(slots: seq<Slot>): u32 {
    if slots == [] then 0 else slots[|slots| - 1].id
  }

  function Validate(states: seq<BoidState>, offset: nat, maximum: u32): Option<(AppendError, nat)>
    requires offset <= |states|
    decreases |states| - offset
  {
    if offset == |states| then None
    else if states[offset].id == 0 then Some((ZeroId, offset))
    else if offset > 0 && states[offset].id <= states[offset - 1].id then Some((NonAscendingIds, offset))
    else if states[offset].id <= maximum then Some((ExistingIdOverlap, offset))
    else if !states[offset].valid then Some((InvalidBoidState, offset))
    else Validate(states, offset + 1, maximum)
  }

  /** The boids still to be listed, with their rows and fresh handles. */
  function Appended(x: Index, states: seq<BoidState>): Index
    decreases states
  {
    if states == [] then x
    else
      Appended(Index(x.slots + [Slot(states[0].id, x.nextHandle)], x.boidCount + 1, x.nextId,
                     x.live[x.nextHandle := Boid(states[0].id, x.boidCount)], x.nextHandle + 1), states[1..])
  }

  function Max(a: u32, b: u32): u32 {
    if a < b then b else a
  }

  /** `boid_state.valid` stands for the classification and float checks of one boid. */
  function AppendBoids(x: Index, states: seq<BoidState>, inserted: bool): (Index, AppendReport) {
    if !ValidIndex(x) then (x, AppendReport(0, Some(InvalidIndexState), 0))
    else if |states| > I32_MAX || |states| > U32_MAX - |x.slots| then (x, AppendReport(0, Some(CountOutOfRange), 0))
    else if states == [] then (x, AppendReport(0, None, 0))
    else
      var failure := Validate(states, 0, LastId(x.slots));
      if failure.Some? then (x, AppendReport(0, Some(failure.value.0), failure.value.1))
      else if !inserted then (x, AppendReport(0, Some(BulkInsertFailed), 0))
      else
        var next := Appended(x, states);
        (next.(nextId := Max(x.nextId, NextEntityId(states[|states| - 1].id))), AppendReport(|states|, None, 0))
  }

  ghost predicate StatesAscend(states: seq<BoidState>, least: int) {
    states != [] ==> states[0].id > least && StatesAscend(states[1..], states[0].id)
  }

  lemma {:induction false} ValidatedAscend(states: seq<BoidState>, offset: nat, maximum: u32)
    requires offset <= |states| && Validate(states, offset, maximum).None?
    ensures offset > 0 ==> StatesAscend(states[offset..], states[offset - 1].id)
    ensures offset == 0 ==> StatesAscend(states, maximum)
    decreases |states| - offset
  {
    if offset < |states| {
      ValidatedAscend(states, offset + 1, maximum);
      assert states[offset..][1..] == states[offset + 1..];
      if offset == 0 {
        assert states[0..] == states;
      }
    }
  }

  lemma {:induction false} AscendAppend(slots: seq<Slot>, least: int, s: Slot)
    requires Ascend(slots, least) && s.id > least && (slots != [] ==> s.id > LastId(slots))
    ensures Ascend(slots + [s], least)
  {
    if slots == [] {
      assert slots + [s] == [s];
    } else {
      assert (slots + [s])[1..] == slots[1..] + [s];
      if |slots| == 1 {
        assert slots[1..] == [];
      } else {
        AscendAt(slots[1..], slots[0].id, |slots| - 2);
      }
      AscendAppend(slots[1..], slots[0].id, s);
    }
  }

  lemma {:induction false} ListBoid(slots: seq<Slot>, live: map<Handle, Entity>, rank: nat, s: Slot)
    requires DistinctHandles(slots) && Listed(slots, live, rank) && s.handle !in Handles(slots)
    requires s.handle in live && live[s.handle] == Boid(s.id, rank + Boids(slots, live))
    ensures var next := slots + [s];
      && DistinctHandles(next) && Listed(next, live, rank)
      && Handles(next) == Handles(slots) + {s.handle}
      && Boids(next, live) == Boids(slots, live) + 1
  {
    if slots == [] {
      assert slots + [s] == [s];
    } else {
      assert (slots + [s])[1..] == slots[1..] + [s];
      ListBoid(slots[1..], live, rank + Step(live[slots[0].handle]), s);
    }
  }

  lemma {:induction false} AppendedKeeps(x: Index, states: seq<BoidState>)
    requires Inv(x) && StatesAscend(states, LastId(x.slots))
    ensures Inv(Appended(x, states)) && Appended(x, states).nextId == x.nextId
    ensures forall h :: h in Appended(x, states).live && Appended(x, states).live[h].Player? ==>
              h in x.live && x.live[h] == Appended(x, states).live[h]
    decreases states
  {
    if states != [] {
      var h, s := x.nextHandle, Slot(states[0].id, x.nextHandle);
      var next := Index(x.slots + [s], x.boidCount + 1, x.nextId, x.live[h := Boid(states[0].id, x.boidCount)], h + 1);
      ListedElsewhere(x.slots, x.live, next.live, 0);
      ListBoid(x.slots, next.live, 0, s);
      AscendAppend(x.slots, 0, s);
      assert next.live.Keys == x.live.Keys + {h};
      AppendedKeeps(next, states[1..]);
    }
  }

  lemma AppendKeeps(x: Index, states: seq<BoidState>, inserted: bool)
    requires Inv(x)
    ensures Inv(AppendBoids(x, states, inserted).0)
  {
    var (next, report) := AppendBoids(x, states, inserted);
    if report.error.None? && states != [] {
      ValidatedAscend(states, 0, LastId(x.slots));
      AppendedKeeps(x, states);
      StatesLast(states, LastId(x.slots));
      forall h | h in x.live
        ensures x.live[h].id <= LastId(x.slots)
      {
        LiveUpToLast(x.slots, x.live, 0, 0, h);
      }
    }
  }

  lemma {:induction false} StatesLast(states: seq<BoidState>, least: int)
    requires StatesAscend(states, least) && states != []
    ensures states[|states| - 1].id > least
  {
    if |states| > 1 {
      StatesLast(states[1..], states[0].id);
    }
  }

  lemma {:induction false} LiveUpToLast(slots: seq<Slot>, live: map<Handle, Entity>, rank: nat, least: int, h: Handle)
    requires Ascend(slots, least) && Listed(slots, live, rank) && h in Handles(slots)
    ensures h in live && live[h].id <= LastId(slots)
  {
    if h in Handles(slots[1..]) {
      LiveUpToLast(slots[1..], live, rank + Step(live[slots[0].handle]), slots[0].id, h);
    } else if |slots| > 1 {
      AscendPair(slots, least, 0, |slots| - 1);
    }
  }

  // ---------------------------------------------------------------- runs

  datatype Operation = Append(states: seq<BoidState>, inserted: bool) | Spawn(created: bool) | Delete(id: u32)

  function Apply(x: Index, op: Operation): Index {
    match op
    case Append(states, inserted) => AppendBoids(x, states, inserted).0
    case Spawn(created) => Spawned(x, created).0
    case Delete(id) => Deleted(x, id).0
  }

  function Run(x: Index, ops: seq<Operation>): Index
    decreases ops
  {
    if ops == [] then x else Run(Apply(x, ops[0]), ops[1..])
  }

  lemma {:induction false} RunKeeps(x: Index, ops: seq<Operation>)
    requires Inv(x)
    ensures Inv(Run(x, ops))
    decreases ops
  {
    hide Inv, AppendBoids, Spawned, Deleted;
    if ops != [] {
      match ops[0] {
        case Append(states, inserted) => AppendKeeps(x, states, inserted);
        case Spawn(created) => SpawnKeeps(x, created);
        case Delete(id) => DeleteKeeps(x, id);
      }
      RunKeeps(Apply(x, ops[0]), ops[1..]);
    }
  }

  // ---------------------------------------------------------------- the capture pass

  /** The boids' ids in id order: what the capture must produce, row by row. */
  ghost function BoidIds(slots: seq<Slot>, live: map<Handle, Entity>): (ids: seq<u32>)
    ensures |ids| == Boids(slots, live)
  {
    if slots == [] then []
    else
      (if slots[0].handle in live && live[slots[0].handle].Boid? then [slots[0].id] else [])
      + BoidIds(slots[1..], live)
  }

  lemma {:induction false} RowHoldsId(slots: seq<Slot>, live: map<Handle, Entity>, rank: nat, h: Handle)
    requires Listed(slots, live, rank) && h in Handles(slots) && h in live && live[h].Boid?
    ensures var row := live[h].row;
      rank <= row < rank + Boids(slots, live) && BoidIds(slots, live)[row - rank] == live[h].id
  {
    if slots[0].handle != h || h in Handles(slots[1..]) {
      RowHoldsId(slots[1..], live, rank + Step(live[slots[0].handle]), h);
    }
  }

  lemma {:induction false} RowsTaken(slots: seq<Slot>, live: map<Handle, Entity>, rank: nat, row: nat)
    returns (h: Handle)
    requires Listed(slots, live, rank) && rank <= row < rank + Boids(slots, live)
    ensures h in Handles(slots) && h in live && live[h].Boid? && live[h].row == row
  {
    if live[slots[0].handle].Boid? && row == rank {
      h := slots[0].handle;
    } else {
      h := RowsTaken(slots[1..], live, rank + Step(live[slots[0].handle]), row);
    }
  }

  lemma {:induction false} RowsDiffer(slots: seq<Slot>, live: map<Handle, Entity>, rank: nat, g: Handle, h: Handle)
    requires DistinctHandles(slots) && Listed(slots, live, rank) && g in Handles(slots) && h in Handles(slots) && g != h
    requires g in live && h in live && live[g].Boid? && live[h].Boid?
    ensures live[g].row != live[h].row
  {
    var rest := slots[1..];
    var after := rank + Step(live[slots[0].handle]);
    if g in Handles(rest) && h in Handles(rest) {
      RowsDiffer(rest, live, after, g, h);
    } else {
      RowHoldsId(rest, live, after, if g in Handles(rest) then g else h);
    }
  }

  lemma {:induction false} BoidIdsAscend(slots: seq<Slot>, live: map<Handle, Entity>, least: int)
    requires Ascend(slots, least)
    ensures forall i :: 0 <= i < |BoidIds(slots, live)| ==> BoidIds(slots, live)[i] > least
    ensures forall i, j :: 0 <= i < j < |BoidIds(slots, live)| ==> BoidIds(slots, live)[i] < BoidIds(slots, live)[j]
  {
    if slots != [] {
      BoidIdsAscend(slots[1..], live, slots[0].id);
    }
  }

  /** The order in which the query visits the live boids is arbitrary; each is visited once. */
  ghost predicate Visits(order: seq<Handle>, live: map<Handle, Entity>) {
    && (forall i, j :: 0 <= i < j < |order| ==> order[i] != order[j])
    && (forall h :: h in order <==> h in live && live[h].Boid?)
  }

  lemma RowOfVisit(x: Index, order: seq<Handle>, k: nat)
    requires Inv(x) && Visits(order, x.live) && k < |order|
    ensures order[k] in x.live && x.live[order[k]].Boid?
    ensures var row := x.live[order[k]].row;
      row < x.boidCount && BoidIds(x.slots, x.live)[row] == x.live[order[k]].id != 0
      && forall i :: 0 <= i < k ==> order[i] in x.live && x.live[order[i]].Boid? && x.live[order[i]].row != row
  {
    assert order[k] in order;
    RowHoldsId(x.slots, x.live, 0, order[k]);
    BoidIdsAscend(x.slots, x.live, 0);
    forall i | 0 <= i < k
      ensures order[i] in x.live && x.live[order[i]].Boid? && x.live[order[i]].row != x.live[order[k]].row
    {
      assert order[i] in order;
      RowsDiffer(x.slots, x.live, 0, order[i], order[k]);
    }
  }

  lemma EveryRowVisited(x: Index, order: seq<Handle>, row: nat) returns (k: nat)
    requires Inv(x) && Visits(order, x.live) && row < x.boidCount
    ensures k < |order| && order[k] in x.live && x.live[order[k]].Boid? && x.live[order[k]].row == row
  {
    var h := RowsTaken(x.slots, x.live, 0, row);
    assert h in order;
    k :| 0 <= k < |order| && order[k] == h;
  }

  /** The capture of ids and rows cannot fail, in whatever order the boids are visited, and it fills
      row after row with the boids' ids in ascending order. */
  method Capture(x: Index, order: seq<Handle>, seen: array<bool>, ids: array<u32>) returns (valid: bool)
    requires Inv(x) && Visits(order, x.live)
    requires seen.Length == ids.Length == x.boidCount
    modifies seen, ids
    ensures valid && ids[..] == BoidIds(x.slots, x.live)
    ensures forall i, j :: 0 <= i < j < ids.Length ==> ids[i] < ids[j]
  {
    hide Inv, Visits;
    ghost var expected := BoidIds(x.slots, x.live);
    BoidCount(x);
    for i := 0 to seen.Length
      invariant forall r :: 0 <= r < i ==> !seen[r]
    {
      seen[i] := false;
    }
    for k := 0 to |order|
      invariant CapturedTo(x, order, k, seen[..], ids[..])
    {
      RowOfVisit(x, order, k);
      var row := x.live[order[k]].row;
      var id := x.live[order[k]].id;
      assert !seen[..][row];
      if row >= seen.Length || seen[row] || id == 0 {
        assert false;
        return false;
      }
      seen[row] := true;
      ids[row] := id;
    }
    forall r | 0 <= r < seen.Length
      ensures seen[r] && ids[r] == expected[r]
    {
      var k := EveryRowVisited(x, order, r);
      assert seen[..][r] && ids[..][r] == expected[r];
    }
    assert ids[..] == expected;
    IdsAscend(x);
    assert forall i, j :: 0 <= i < j < ids.Length ==> ids[..][i] < ids[..][j];
    valid := (forall r :: 0 <= r < seen.Length ==> seen[r])
             && (forall r :: 0 < r < ids.Length ==> ids[r - 1] <= ids[r]);
  }

  /** After `k` visits exactly the visited rows are seen, and they hold their ids. */
  ghost predicate CapturedTo(x: Index, order: seq<Handle>, k: nat, seen: seq<bool>, ids: seq<u32>) {
    && k <= |order|
    && |seen| == |ids| == |BoidIds(x.slots, x.live)|
    && (forall r :: 0 <= r < |seen| && seen[r] ==> ids[r] == BoidIds(x.slots, x.live)[r])
    && (forall r :: 0 <= r < |seen| && seen[r] ==>
          exists i :: 0 <= i < k && order[i] in x.live && x.live[order[i]].Boid? && x.live[order[i]].row == r)
    && (forall i :: 0 <= i < k && order[i] in x.live && x.live[order[i]].Boid? && x.live[order[i]].row < |seen| ==>
          seen[x.live[order[i]].row])
  }

  lemma BoidCount(x: Index)
    requires Inv(x)
    ensures x.boidCount == |BoidIds(x.slots, x.live)|
  {
  }

  lemma IdsAscend(x: Index)
    requires Inv(x)
    ensures forall i, j :: 0 <= i < j < |BoidIds(x.slots, x.live)| ==>
        BoidIds(x.slots, x.live)[i] < BoidIds(x.slots, x.live)[j]
  {
    BoidIdsAscend(x.slots, x.live, 0);
  }

  /** Every reachable index satisfies what later phases check. */
  lemma ReachableIndexes(ops: seq<Operation>)
    ensures var x := Run(EMPTY, ops);
      && Inv(x) && ValidIndex(x)
      && (forall i, j :: 0 <= i < j < |x.slots| ==> x.slots[i].id < x.slots[j].id)
      && (forall i :: 0 <= i < |x.slots| ==> x.slots[i].id != 0)
      && |BoidIds(x.slots, x.live)| == x.boidCount
  {
    hide Apply, Listed, DistinctHandles;
    assert Inv(EMPTY) by {
      EmptyInv();
    }
    RunKeeps(EMPTY, ops);
    var x := Run(EMPTY, ops);
    BoidsFit(x.slots, x.live);
    forall i, j | 0 <= i < j < |x.slots|
      ensures x.slots[i].id < x.slots[j].id
    {
      AscendPair(x.slots, 0, i, j);
    }
    forall i | 0 <= i < |x.slots|
      ensures x.slots[i].id != 0
    {
      AscendAt(x.slots, 0, i);
    }
  }

  lemma EmptyInv()
    ensures Inv(EMPTY)
  {
  }

  lemma {:induction false} BoidsFit(slots: seq<Slot>, live: map<Handle, Entity>)
    ensures Boids(slots, live) <= |slots|
  {
    if slots != [] {
      BoidsFit(slots[1..], live);
    }
  }

  // ---------------------------------------------------------------- the operations

  class AuthoritativeReplicationIndex {
    var slots: seq<Slot>
    var boidCount: nat
    var nextId: u32
    var live: map<Handle, Entity>
    var nextHandle: Handle

    function State(): Index
      reads this
    {
      Index(slots, boidCount, nextId, live, nextHandle)
    }

    constructor ()
      ensures State() == EMPTY
    {
      slots, boidCount, nextId, live, nextHandle := [], 0, 1, map[], 1;
    }

    /** `created` tells whether the world made the entity. */
    method SpawnAuthoritativePlayer(created: bool) returns (id: u32)
      requires Ascend(slots, 0)
      modifies this
      ensures (State(), id) == Spawned(old(State()), created)
    {
      if boidCount > |slots| || nextId == 0 {
        return 0;
      }
      id := nextId;
      var at: nat := FindIndex(slots, id);
      while at < |slots| && slots[at].id == id
        invariant id != 0 && Found(slots, id, at) && slots == old(slots) && State() == old(State())
        invariant HasId(slots, id) <==> at < |slots| && slots[at].id == id
        invariant FreeId(slots, id) == FreeId(slots, nextId)
        decreases U32_MAX - id
      {
        if id == U32_MAX {
          return 0;
        }
        id := id + 1;
        at := FindIndex(slots, id);
      }
      if !created {
        return 0;
      }
      var handle := nextHandle;
      InsertAt(slots, Slot(id, handle), at);
      live := live[handle := Player(id)];
      nextHandle := handle + 1;
      slots := slots[..at] + [Slot(id, handle)] + slots[at..];
      nextId := NextEntityId(id);
    }

    method DeleteAuthoritativePlayer(id: u32) returns (deleted: bool)
      requires Ascend(slots, 0)
      modifies this
      ensures (State(), deleted) == Deleted(old(State()), id)
    {
      if boidCount > |slots| || id == 0 {
        return false;
      }
      var at := FindIndex(slots, id);
      if at == |slots| || slots[at].id != id {
        return false;
      }
      RemoveAt(slots, id, at);
      var handle := slots[at].handle;
      if handle !in live || !live[handle].Player? {
        return false;
      }
      live := live - {handle};
      slots := slots[..at] + slots[at + 1..];
      deleted := true;
    }

    /** Nothing is changed unless every state is valid and the world took them all. */
    method AppendAuthoritativeBoids(states: seq<BoidState>, inserted: bool) returns (report: AppendReport)
      modifies this
      ensures (State(), report) == AppendBoids(old(State()), states, inserted)
    {
      if boidCount > |slots| {
        return AppendReport(0, Some(InvalidIndexState), 0);
      }
      if |states| > I32_MAX || |states| > U32_MAX - |slots| {
        return AppendReport(0, Some(CountOutOfRange), 0);
      }
      if states == [] {
        return AppendReport(0, None, 0);
      }
      var maximum := LastId(slots);
      for offset := 0 to |states|
        invariant Validate(states, 0, maximum) == Validate(states, offset, maximum)
        invariant State() == old(State())
      {
        if states[offset].id == 0 {
          return AppendReport(0, Some(ZeroId), offset);
        }
        if offset != 0 && states[offset].id <= states[offset - 1].id {
          return AppendReport(0, Some(NonAscendingIds), offset);
        }
        if states[offset].id <= maximum {
          return AppendReport(0, Some(ExistingIdOverlap), offset);
        }
        if !states[offset].valid {
          return AppendReport(0, Some(InvalidBoidState), offset);
        }
      }
      if !inserted {
        return AppendReport(0, Some(BulkInsertFailed), 0);
      }
      for offset := 0 to |states|
        invariant nextId == old(nextId)
        invariant Appended(State(), states[offset..]) == Appended(old(State()), states)
      {
        assert states[offset..][0] == states[offset] && states[offset..][1..] == states[offset + 1..];
        live := live[nextHandle := Boid(states[offset].id, boidCount)];
        slots := slots + [Slot(states[offset].id, nextHandle)];
        nextHandle := nextHandle + 1;
        boidCount := boidCount + 1;
      }
      nextId := Max(nextId, NextEntityId(states[|states| - 1].id));
      report := AppendReport(|states|, None, 0);
    }
  }
}
