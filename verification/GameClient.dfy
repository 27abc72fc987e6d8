/** The client's world of replicated entities and the application of updates to it: a three-cursor
    merge that edits the world in place and keeps the handle of every surviving entity.

    The two parallel arrays of ids and entity handles are one sequence of rows here; a handle is a
    number that is never handed out twice. Models src/game_client/src/game_client.cpp. */
module GameClient {
  import opened Bytes
  import opened Snapshot

  const BOID_CLASSIFICATION: byte := 1
  const PLAYER_CLASSIFICATION: byte := 2

  predicate Supported(e: EntityState) {
    e.classification == BOID_CLASSIFICATION || e.classification == PLAYER_CLASSIFICATION
  }

  type Handle = nat
  type Live = map<Handle, EntityState>
  datatype Row = Row(id: u32, handle: Handle)
  datatype ApplyReport = ApplyReport(previousEntities: nat, finalEntities: nat, valid: bool)

  // ---------------------------------------------------------------- rows and what they show

  ghost function Handles(rows: seq<Row>): set<Handle> {
    if rows == [] then {} else {rows[0].handle} + Handles(rows[1..])
  }

  ghost predicate DistinctHandles(rows: seq<Row>) {
    rows != [] ==> rows[0].handle !in Handles(rows[1..]) && DistinctHandles(rows[1..])
  }

  /** Every row's entity is alive and carries the row's id. */
  ghost predicate Agrees(rows: seq<Row>, live: Live) {
    rows != [] ==> rows[0].handle in live && live[rows[0].handle].id == rows[0].id && Agrees(rows[1..], live)
  }

  ghost function Shown(rows: seq<Row>, live: Live): (shown: seq<EntityState>)
    requires Agrees(rows, live)
    ensures |shown| == |rows|
  {
    if rows == [] then [] else [live[rows[0].handle]] + Shown(rows[1..], live)
  }

  /** The handle of each id. */
  ghost function HandleOf(rows: seq<Row>): map<u32, Handle> {
    if rows == [] then map[] else HandleOf(rows[1..])[rows[0].id := rows[0].handle]
  }

  /** The live entities are exactly the listed ones, each listed once, in id order. */
  ghost predicate Consistent(rows: seq<Row>, live: Live, next: Handle) {
    && DistinctHandles(rows)
    && Agrees(rows, live)
    && live.Keys == Handles(rows)
    && (forall h :: h in live ==> h < next)
    && Ascending(Shown(rows, live))
  }

  // ---------------------------------------------------------------- the merge

  datatype Outcome = Outcome(rows: seq<Row>, live: Live, next: Handle)

  function Prepend(row: Row, rest: Outcome): Outcome {
    rest.(rows := [row] + rest.rows)
  }

  /** What remains to happen when `rows` and `upserts` are still to be visited. */
  function Apply(rows: seq<Row>, upserts: seq<EntityState>, deletes: seq<u32>, live: Live, next: Handle): Outcome
    decreases |rows| + |upserts|
  {
    if upserts != [] && (rows == [] || upserts[0].id < rows[0].id) then
      Prepend(Row(upserts[0].id, next), Apply(rows, upserts[1..], deletes, live[next := upserts[0]], next + 1))
    else if rows == [] then Outcome([], live, next)
    else if rows[0].id in deletes then Apply(rows[1..], upserts, deletes, live - {rows[0].handle}, next)
    else if upserts != [] && upserts[0].id == rows[0].id then
      Prepend(rows[0], Apply(rows[1..], upserts[1..], deletes, live[rows[0].handle := upserts[0]], next))
    else Prepend(rows[0], Apply(rows[1..], upserts, deletes, live, next))
  }

  ghost predicate Below(live: Live, next: Handle) {
    forall h :: h in live ==> h < next
  }

  lemma {:induction false} AgreesUnchanged(rows: seq<Row>, live: Live, changed: Live)
    requires Agrees(rows, live)
    requires forall h :: h in Handles(rows) && h in live ==> h in changed && changed[h] == live[h]
    ensures Agrees(rows, changed) && Shown(rows, changed) == Shown(rows, live)
  {
    if rows != [] {
      AgreesUnchanged(rows[1..], live, changed);
    }
  }

  lemma {:induction false} HandlesAlive(rows: seq<Row>, live: Live)
    requires Agrees(rows, live)
    ensures Handles(rows) <= live.Keys
  {
    if rows != [] {
      HandlesAlive(rows[1..], live);
    }
  }

  /** What the visited rows and upserts leave to the rest of the merge. */
  ghost predicate Ready(rows: seq<Row>, live: Live, next: Handle) {
    DistinctHandles(rows) && Agrees(rows, live) && Below(live, next)
  }

  lemma ReadyInsert(rows: seq<Row>, live: Live, next: Handle, e: EntityState)
    requires Ready(rows, live, next)
    ensures Ready(rows, live[next := e], next + 1)
    ensures Shown(rows, live[next := e]) == Shown(rows, live)
    ensures next !in Handles(rows)
  {
    HandlesAlive(rows, live);
    AgreesUnchanged(rows, live, live[next := e]);
  }

  lemma ReadyUpdate(rows: seq<Row>, live: Live, next: Handle, e: EntityState)
    requires rows != [] && Ready(rows, live, next)
    ensures Ready(rows[1..], live[rows[0].handle := e], next)
    ensures Shown(rows[1..], live[rows[0].handle := e]) == Shown(rows, live)[1..]
  {
    AgreesUnchanged(rows[1..], live, live[rows[0].handle := e]);
  }

  lemma ReadyDelete(rows: seq<Row>, live: Live, next: Handle)
    requires rows != [] && Ready(rows, live, next)
    ensures Ready(rows[1..], live - {rows[0].handle}, next)
    ensures Shown(rows[1..], live - {rows[0].handle}) == Shown(rows, live)[1..]
  {
    AgreesUnchanged(rows[1..], live, live - {rows[0].handle});
  }

  /** Handles after the merge are old ones of the visited rows or new ones; entities that belong to
      neither are left alone; nothing is leaked. */
  lemma {:induction false} ApplyFrame(rows: seq<Row>, upserts: seq<EntityState>, deletes: seq<u32>, live: Live,
                                      next: Handle)
    requires Ready(rows, live, next)
    ensures var out := Apply(rows, upserts, deletes, live, next);
      && next <= out.next && Below(out.live, out.next)
      && DistinctHandles(out.rows)
      && (forall h :: h in Handles(out.rows) ==> h in Handles(rows) || next <= h)
      && out.live.Keys == (live.Keys - Handles(rows)) + Handles(out.rows)
      && (forall h :: h in live && h !in Handles(rows) ==> h in out.live && out.live[h] == live[h])
    decreases |rows| + |upserts|
  {
    hide Shown, Merge;
    HandlesAlive(rows, live);
    if upserts != [] && (rows == [] || upserts[0].id < rows[0].id) {
      ReadyInsert(rows, live, next, upserts[0]);
      ApplyFrame(rows, upserts[1..], deletes, live[next := upserts[0]], next + 1);
      PrependHandles(Row(upserts[0].id, next), Apply(rows, upserts[1..], deletes, live[next := upserts[0]], next + 1));
    } else if rows != [] {
      HandlesAlive(rows[1..], live);
      if rows[0].id in deletes {
        ReadyDelete(rows, live, next);
        ApplyFrame(rows[1..], upserts, deletes, live - {rows[0].handle}, next);
      } else {
        var matched := upserts != [] && upserts[0].id == rows[0].id;
        var e := if matched then upserts[0] else live[rows[0].handle];
        var left := if matched then upserts[1..] else upserts;
        assert live[rows[0].handle := live[rows[0].handle]] == live;
        ReadyUpdate(rows, live, next, e);
        ApplyFrame(rows[1..], left, deletes, live[rows[0].handle := e], next);
        PrependHandles(rows[0], Apply(rows[1..], left, deletes, live[rows[0].handle := e], next));
      }
    }
  }

  lemma PrependHandles(row: Row, rest: Outcome)
    ensures Handles(Prepend(row, rest).rows) == {row.handle} + Handles(rest.rows)
    ensures DistinctHandles(Prepend(row, rest).rows) <==>
      row.handle !in Handles(rest.rows) && DistinctHandles(rest.rows)
  {
    assert Prepend(row, rest).rows[1..] == rest.rows;
  }

  lemma PrependShown(row: Row, rest: Outcome)
    requires Agrees(rest.rows, rest.live) && row.handle in rest.live && rest.live[row.handle].id == row.id
    ensures Agrees(Prepend(row, rest).rows, rest.live)
    ensures Shown(Prepend(row, rest).rows, rest.live) == [rest.live[row.handle]] + Shown(rest.rows, rest.live)
  {
    assert Prepend(row, rest).rows[1..] == rest.rows;
  }

  /** What the world shows after the merge is the merge of what it showed. */
  lemma {:induction false} ApplyShows(rows: seq<Row>, upserts: seq<EntityState>, deletes: seq<u32>, live: Live,
                                      next: Handle)
    requires Ready(rows, live, next)
    ensures var out := Apply(rows, upserts, deletes, live, next);
      && Agrees(out.rows, out.live)
      && Shown(out.rows, out.live) == Merge(Shown(rows, live), upserts, deletes)
    decreases |rows| + |upserts|
  {
    var shown := Shown(rows, live);
    if upserts != [] && (rows == [] || upserts[0].id < rows[0].id) {
      var widened := live[next := upserts[0]];
      ReadyInsert(rows, live, next, upserts[0]);
      ApplyShows(rows, upserts[1..], deletes, widened, next + 1);
      ApplyFrame(rows, upserts[1..], deletes, widened, next + 1);
      PrependShown(Row(upserts[0].id, next), Apply(rows, upserts[1..], deletes, widened, next + 1));
      if rows == [] {
        assert Merge([], upserts[1..], deletes) == upserts[1..];
        assert upserts == [upserts[0]] + upserts[1..];
      }
    } else if rows != [] {
      if rows[0].id in deletes {
        ReadyDelete(rows, live, next);
        ApplyShows(rows[1..], upserts, deletes, live - {rows[0].handle}, next);
      } else {
        var matched := upserts != [] && upserts[0].id == rows[0].id;
        var e := if matched then upserts[0] else live[rows[0].handle];
        var left := if matched then upserts[1..] else upserts;
        assert live[rows[0].handle := live[rows[0].handle]] == live;
        ReadyUpdate(rows, live, next, e);
        ApplyShows(rows[1..], left, deletes, live[rows[0].handle := e], next);
        ApplyFrame(rows[1..], left, deletes, live[rows[0].handle := e], next);
        PrependShown(rows[0], Apply(rows[1..], left, deletes, live[rows[0].handle := e], next));
      }
    }
  }

  ghost predicate RowsAbove(rows: seq<Row>, least: int) {
    rows != [] ==> rows[0].id > least && RowsAbove(rows[1..], rows[0].id)
  }

  lemma {:induction false} AboveNotIn(rows: seq<Row>, least: int, id: u32)
    requires RowsAbove(rows, least) && id <= least
    ensures id !in HandleOf(rows)
  {
    if rows != [] {
      AboveNotIn(rows[1..], rows[0].id, id);
    }
  }

  /** An id that was there and is not deleted keeps its handle; every other id gets a new one. */
  lemma {:induction false} ApplyKeepsHandles(rows: seq<Row>, upserts: seq<EntityState>, deletes: seq<u32>, live: Live,
                                             next: Handle, least: int, id: u32)
    requires RowsAbove(rows, least) && Ascending(upserts)
    ensures var kept := HandleOf(Apply(rows, upserts, deletes, live, next).rows);
      id in kept ==> if id in HandleOf(rows) && id !in deletes then kept[id] == HandleOf(rows)[id] else kept[id] >= next
    decreases |rows| + |upserts|
  {
    if upserts != [] {
      AscendingTail(upserts);
    }
    if upserts != [] && (rows == [] || upserts[0].id < rows[0].id) {
      var rest := Apply(rows, upserts[1..], deletes, live[next := upserts[0]], next + 1);
      assert Prepend(Row(upserts[0].id, next), rest).rows[1..] == rest.rows;
      ApplyKeepsHandles(rows, upserts[1..], deletes, live[next := upserts[0]], next + 1, least, id);
      if rows != [] && id == upserts[0].id {
        AboveNotIn(rows[1..], rows[0].id, id);
      }
    } else if rows != [] {
      var row := rows[0];
      if row.id in deletes {
        ApplyKeepsHandles(rows[1..], upserts, deletes, live - {row.handle}, next, row.id, id);
      } else {
        var matched := upserts != [] && upserts[0].id == row.id;
        var left := if matched then upserts[1..] else upserts;
        var edited := if matched then live[row.handle := upserts[0]] else live;
        var rest := Apply(rows[1..], left, deletes, edited, next);
        assert Prepend(row, rest).rows[1..] == rest.rows;
        ApplyKeepsHandles(rows[1..], left, deletes, edited, next, row.id, id);
      }
    }
  }

  lemma {:induction false} ShownAbove(rows: seq<Row>, live: Live, least: int)
    requires Agrees(rows, live) && Ascending(Shown(rows, live))
    requires rows != [] ==> rows[0].id > least
    ensures RowsAbove(rows, least)
  {
    if rows != [] {
      var shown := Shown(rows, live);
      AscendingTail(shown);
      assert shown[1..] == Shown(rows[1..], live);
      assert shown[0] == live[rows[0].handle];
      if rows[1..] != [] {
        assert shown[1..][0] == live[rows[1].handle];
      }
      ShownAbove(rows[1..], live, rows[0].id);
    }
  }

  /** The merge keeps the world consistent, shows what reconstruction of the same update gives, and
      keeps the handle of every id that was there and is not deleted. */
  lemma ApplyMeaning(rows: seq<Row>, upserts: seq<EntityState>, deletes: seq<u32>, live: Live, next: Handle)
    requires Consistent(rows, live, next) && Ascending(upserts)
    ensures var out := Apply(rows, upserts, deletes, live, next);
      && Consistent(out.rows, out.live, out.next)
      && Shown(out.rows, out.live) == Merge(Shown(rows, live), upserts, deletes)
      && Table(Shown(out.rows, out.live)) == Table(Shown(rows, live)) - SetOf(deletes) + Table(upserts)
      && (forall id :: id in HandleOf(out.rows) ==>
            if id in HandleOf(rows) && id !in deletes then HandleOf(out.rows)[id] == HandleOf(rows)[id]
            else HandleOf(out.rows)[id] >= next)
  {
    hide Apply, DistinctHandles, Agrees, HandleOf, Handles, Shown, Merge, RowsAbove;
    ApplyFrame(rows, upserts, deletes, live, next);
    ApplyShows(rows, upserts, deletes, live, next);
    MergeMeaning(Shown(rows, live), upserts, deletes);
    ShownAbove(rows, live, -1);
    forall id | id in HandleOf(Apply(rows, upserts, deletes, live, next).rows) {
      ApplyKeepsHandles(rows, upserts, deletes, live, next, -1, id);
    }
  }

  // ---------------------------------------------------------------- whole updates

  datatype World = World(rows: seq<Row>, live: Live, nextHandle: Handle, latestTick: u64)

  const EMPTY_WORLD := World([], map[], 1, 0)

  predicate Applicable(w: World, patch: SnapshotUpdate) {
    patch.tick >= w.latestTick && forall i :: 0 <= i < |patch.upserts| ==> Supported(patch.upserts[i])
  }

  /** Stale ticks and unknown classifications change nothing. */
  function Applied(w: World, patch: SnapshotUpdate): World {
    if !Applicable(w, patch) then w
    else
      var out := if patch.kind == Patch then Apply(w.rows, patch.upserts, patch.deletes, w.live, w.nextHandle)
                 else Apply([], patch.upserts, [], map[], w.nextHandle);
      World(out.rows, out.live, out.next, patch.tick)
  }

  ghost predicate Sound(w: World) {
    Consistent(w.rows, w.live, w.nextHandle)
  }

  ghost function Contents(w: World): seq<EntityState>
    requires Sound(w)
  {
    Shown(w.rows, w.live)
  }

  /** An applied update leaves exactly the listed entities alive, none leaked, shows what
      reconstruction gives, and a patch keeps the handle of every id that survives. */
  lemma AppliedMeaning(w: World, patch: SnapshotUpdate)
    requires Sound(w) && Applicable(w, patch) && Ascending(patch.upserts)
    ensures var next := Applied(w, patch);
      && Sound(next) && next.latestTick == patch.tick
      && Contents(next)
         == (if patch.kind == Patch then Merge(Contents(w), patch.upserts, patch.deletes) else patch.upserts)
      && (forall id :: id in HandleOf(next.rows) ==>
            if patch.kind == Patch && id in HandleOf(w.rows) && id !in patch.deletes
            then HandleOf(next.rows)[id] == HandleOf(w.rows)[id]
            else HandleOf(next.rows)[id] >= w.nextHandle)
  {
    hide Apply, Consistent;
    if patch.kind == Patch {
      ApplyMeaning(w.rows, patch.upserts, patch.deletes, w.live, w.nextHandle);
    } else {
      assert Consistent([], map[], w.nextHandle) by {
        EmptyConsistent(w.nextHandle);
      }
      ApplyMeaning([], patch.upserts, [], map[], w.nextHandle);
    }
  }

  /** The ids that have a handle are those that are shown. */
  lemma {:induction false} HandleIds(rows: seq<Row>, live: Live, id: u32)
    requires Agrees(rows, live)
    ensures id in HandleOf(rows) <==> id in Table(Shown(rows, live))
  {
    if rows != [] {
      HandleIds(rows[1..], live, id);
      assert Shown(rows, live)[1..] == Shown(rows[1..], live);
      assert Shown(rows, live)[0] == live[rows[0].handle];
    }
  }

  /** A patch that deletes nothing it upserts keeps the handle of every id shown before and after. */
  lemma PatchKeepsHandles(w: World, patch: SnapshotUpdate, id: u32)
    requires Sound(w) && Applicable(w, patch) && Ascending(patch.upserts) && patch.kind == Patch
    requires forall e :: e in patch.upserts ==> e.id !in patch.deletes
    requires id in HandleOf(w.rows) && id in HandleOf(Applied(w, patch).rows)
    ensures HandleOf(Applied(w, patch).rows)[id] == HandleOf(w.rows)[id]
  {
    hide Apply, Shown, HandleOf, Ascending, DistinctHandles, Merge;
    SoundAscends(w);
    AppliedMeaning(w, patch);
    MergeMeaning(Contents(w), patch.upserts, patch.deletes);
    var next := Applied(w, patch);
    HandleIds(next.rows, next.live, id);
    if id in patch.deletes {
      var i := TableSound(patch.upserts, id);
      assert false;
    }
  }

  /** What becomes of any update: older ticks and classifications other than 1 and 2 change nothing; a patch edits
      the contents id by id; a full replacement leaves exactly its upserts. */
  lemma AppliedExactly(w: World, patch: SnapshotUpdate)
    requires Sound(w) && Ascending(patch.upserts)
    ensures var next := Applied(w, patch);
      var taken := patch.tick >= w.latestTick
                   && forall e :: e in patch.upserts ==> e.classification == 1 || e.classification == 2;
      && Sound(next)
      && (!taken ==> next == w)
      && (taken ==>
            && next.latestTick == patch.tick
            && Table(Contents(next))
                 == (if patch.kind == Patch then Table(Contents(w)) - SetOf(patch.deletes) else map[])
                    + Table(patch.upserts))
  {
    hide Apply, Consistent, Shown, Merge;
    TakenExactly(w, patch);
    SoundAscends(w);
    if Applicable(w, patch) {
      AppliedMeaning(w, patch);
      MergeMeaning(Contents(w), patch.upserts, patch.deletes);
    }
  }

  lemma SoundAscends(w: World)
    requires Sound(w)
    ensures Ascending(Contents(w))
  {
  }

  lemma TakenExactly(w: World, patch: SnapshotUpdate)
    ensures Applicable(w, patch) <==>
      patch.tick >= w.latestTick
      && forall e :: e in patch.upserts ==> e.classification == 1 || e.classification == 2
  {
    assert forall i :: 0 <= i < |patch.upserts| ==> patch.upserts[i] in patch.upserts;
  }

  lemma EmptyConsistent(next: Handle)
    ensures Consistent([], map[], next)
  {
  }

  // ---------------------------------------------------------------- the world

  class ClientWorld {
    var rows: seq<Row>
    var latestTick: u64
    var live: Live
    var nextHandle: Handle

    ghost predicate Valid()
      reads this
    {
      Consistent(rows, live, nextHandle)
    }

    constructor ()
      ensures Valid() && rows == [] && latestTick == 0
    {
      rows, latestTick, live, nextHandle := [], 0, map[], 1;
    }

    method MakeReplicatedEntity(e: EntityState) returns (handle: Handle)
      modifies this`live, this`nextHandle
      ensures handle == old(nextHandle) && nextHandle == handle + 1
      ensures live == old(live)[handle := e]
    {
      handle := nextHandle;
      nextHandle := nextHandle + 1;
      live := live[handle := e];
    }

    /** The entity keeps its id, which is the upsert's. */
    method UpdateReplicatedEntity(handle: Handle, e: EntityState)
      requires handle in live && live[handle].id == e.id
      modifies this`live
      ensures live == old(live)[handle := e]
    {
      live := live[handle := live[handle].(classification := e.classification, position := e.position,
                                           heading := e.heading, hue := e.hue)];
    }

    method DeleteEntityIfAlive(handle: Handle)
      modifies this`live
      ensures live == old(live) - {handle}
    {
      if handle in live {
        live := live - {handle};
      }
    }

    /** Whether the delete cursor, moved up to `id`, stands on it; it moves past a match. */
    static method DeleteMatches(deletes: seq<u32>, index: nat, id: u32) returns (matches: bool, next: nat)
      requires AscendingIds(deletes) && index <= |deletes|
      requires forall i :: 0 <= i < index ==> deletes[i] < id
      ensures index <= next <= |deletes|
      ensures matches <==> id in deletes
      ensures forall i :: 0 <= i < next ==> deletes[i] <= id
    {
      next := index;
      while next < |deletes| && deletes[next] < id
        invariant index <= next <= |deletes|
        invariant forall i :: 0 <= i < next ==> deletes[i] < id
      {
        next := next + 1;
      }
      matches := next < |deletes| && deletes[next] == id;
      if matches {
        next := next + 1;
      }
    }

    /** Three cursors over the old rows, the upserts and the deletes. */
    method ApplyPatchToWorld(patch: SnapshotUpdate)
      requires Valid() && Ascending(patch.upserts) && AscendingIds(patch.deletes)
      modifies this`rows, this`live, this`nextHandle
      ensures Outcome(rows, live, nextHandle)
           == Apply(old(rows), patch.upserts, patch.deletes, old(live), old(nextHandle))
    {
      var upserts, deletes := patch.upserts, patch.deletes;
      ghost var whole := Apply(rows, upserts, deletes, live, nextHandle);
      ShownAbove(rows, live, -1);
      RowsAscend(rows, -1);
      var nextRows: seq<Row> := [];
      var c, u, d := 0, 0, 0;
      while c < |rows|
        invariant rows == old(rows) && c <= |rows| && u <= |upserts| && d <= |deletes|
        invariant Ready(rows[c..], live, nextHandle)
        invariant Pending(nextRows, rows[c..], upserts[u..], deletes, live, nextHandle) == whole
        invariant forall i :: 0 <= i < d && c < |rows| ==> deletes[i] < rows[c].id
      {
        var currentId := rows[c].id;
        nextRows, u := InsertBefore(nextRows, rows[c..], upserts, u, deletes);
        assert rows[c..][0] == rows[c] && rows[c..][1..] == rows[c + 1..];
        assert u < |upserts| ==> upserts[u..][0] == upserts[u] && upserts[u..][1..] == upserts[u + 1..];
        var deleted;
        deleted, d := DeleteMatches(deletes, d, currentId);
        if deleted {
          ReadyDelete(rows[c..], live, nextHandle);
          DeleteEntityIfAlive(rows[c].handle);
        } else if u < |upserts| && upserts[u].id == currentId {
          ReadyUpdate(rows[c..], live, nextHandle, upserts[u]);
          PendingShift(nextRows, rows[c], Apply(rows[c + 1..], upserts[u + 1..], deletes,
                                                live[rows[c].handle := upserts[u]], nextHandle));
          UpdateReplicatedEntity(rows[c].handle, upserts[u]);
          nextRows := nextRows + [rows[c]];
          u := u + 1;
        } else {
          PendingShift(nextRows, rows[c], Apply(rows[c + 1..], upserts[u..], deletes, live, nextHandle));
          nextRows := nextRows + [rows[c]];
        }
        c := c + 1;
      }
      nextRows, u := InsertBefore(nextRows, [], upserts, u, deletes);
      rows := nextRows;
    }

    /** Makes new entities of the upserts that come before the first row of `rest`. */
    method InsertBefore(nextRows: seq<Row>, rest: seq<Row>, upserts: seq<EntityState>, u: nat, deletes: seq<u32>)
      returns (written: seq<Row>, v: nat)
      requires u <= |upserts| && Ready(rest, live, nextHandle)
      modifies this`live, this`nextHandle
      ensures u <= v <= |upserts| && Ready(rest, live, nextHandle)
      ensures v < |upserts| ==> rest != [] && upserts[v].id >= rest[0].id
      ensures Pending(written, rest, upserts[v..], deletes, live, nextHandle)
           == old(Pending(nextRows, rest, upserts[u..], deletes, live, nextHandle))
    {
      written, v := nextRows, u;
      while v < |upserts| && (rest == [] || upserts[v].id < rest[0].id)
        invariant u <= v <= |upserts| && Ready(rest, live, nextHandle)
        invariant Pending(written, rest, upserts[v..], deletes, live, nextHandle)
               == old(Pending(nextRows, rest, upserts[u..], deletes, live, nextHandle))
      {
        assert upserts[v..][0] == upserts[v] && upserts[v..][1..] == upserts[v + 1..];
        ReadyInsert(rest, live, nextHandle, upserts[v]);
        PendingShift(written, Row(upserts[v].id, nextHandle),
                     Apply(rest, upserts[v + 1..], deletes, live[nextHandle := upserts[v]], nextHandle + 1));
        var handle := MakeReplicatedEntity(upserts[v]);
        written := written + [Row(upserts[v].id, handle)];
        v := v + 1;
      }
    }

    /** Every old entity goes and every upsert is made anew. */
    method ApplyFullReplaceToWorld(patch: SnapshotUpdate)
      requires Valid() && Ascending(patch.upserts)
      modifies this`rows, this`live, this`nextHandle
      ensures Outcome(rows, live, nextHandle) == Apply([], patch.upserts, [], map[], old(nextHandle))
    {
      for i := 0 to |rows|
        invariant rows == old(rows) && nextHandle == old(nextHandle)
        invariant live.Keys <= Handles(rows[i..])
      {
        DeleteEntityIfAlive(rows[i].handle);
        assert rows[i..][0] == rows[i] && rows[i..][1..] == rows[i + 1..];
      }
      assert live == map[];
      assert patch.upserts[0..] == patch.upserts;
      ghost var whole := Apply([], patch.upserts, [], map[], nextHandle);
      assert [] + whole.rows == whole.rows;
      var written, v := InsertBefore([], [], patch.upserts, 0, []);
      assert patch.upserts[v..] == [] && written + [] == written;
      rows := written;
    }

    /** The entry point. */
    method ApplyClientSnapshotPatchUnchecked(patch: SnapshotUpdate) returns (report: ApplyReport)
      requires Valid() && Ascending(patch.upserts) && AscendingIds(patch.deletes)
      modifies this
      ensures var was := World(old(rows), old(live), old(nextHandle), old(latestTick));
        && World(rows, live, nextHandle, latestTick) == Applied(was, patch)
        && report == ApplyReport(|was.rows|, |rows|, Applicable(was, patch))
      ensures report.valid <==>
        patch.tick >= old(latestTick)
        && forall e :: e in patch.upserts ==> e.classification == 1 || e.classification == 2
      ensures Valid()
    {
      hide Apply, Consistent;
      TakenExactly(World(rows, live, nextHandle, latestTick), patch);
      report := ApplyReport(|rows|, |rows|, true);
      if patch.tick < latestTick {
        return report.(valid := false);
      }
      for i := 0 to |patch.upserts|
        invariant forall k :: 0 <= k < i ==> Supported(patch.upserts[k])
      {
        if !Supported(patch.upserts[i]) {
          return report.(valid := false);
        }
      }
      AppliedMeaning(World(rows, live, nextHandle, latestTick), patch);
      if patch.kind == Patch {
        ApplyPatchToWorld(patch);
      } else {
        ApplyFullReplaceToWorld(patch);
      }
      latestTick := patch.tick;
      report := report.(finalEntities := |rows|);
    }
  }

  /** The outcome of a merge of which `written` is done. */
  ghost function Pending(written: seq<Row>, rest: seq<Row>, upserts: seq<EntityState>, deletes: seq<u32>,
                         live: Live, next: Handle): Outcome {
    var out := Apply(rest, upserts, deletes, live, next);
    out.(rows := written + out.rows)
  }

  lemma PendingShift(written: seq<Row>, row: Row, rest: Outcome)
    ensures written + Prepend(row, rest).rows == (written + [row]) + rest.rows
  {
  }

  lemma {:induction false} RowsAscend(rows: seq<Row>, least: int)
    requires RowsAbove(rows, least)
    ensures forall i :: 0 <= i < |rows| ==> rows[i].id > least
    ensures forall i, j :: 0 <= i < j < |rows| ==> rows[i].id < rows[j].id
  {
    if rows != [] {
      RowsAscend(rows[1..], rows[0].id);
      assert forall i :: 1 <= i < |rows| ==> rows[i] == rows[1..][i - 1];
    }
  }
}
