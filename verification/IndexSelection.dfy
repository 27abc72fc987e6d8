/** Ascending index selections: sorting, removing repeats, and the entities at chosen indices.

    `Sort` and `Dedupe` stand for the library's sort and unique. Serves the selection loops of
    src/pipeline/private/pipeline_selection.cppm. */
module IndexSelection {
  import opened Bytes
  import opened Snapshot
  import opened PipelineEncode

  // ---------------------------------------------------------------- sorting

  function Insert(x: nat, xs: seq<nat>): seq<nat> {
    if xs == [] || x <= xs[0] then [x] + xs else [xs[0]] + Insert(x, xs[1..])
  }

  function Sort(xs: seq<nat>): seq<nat> {
    if xs == [] then [] else Insert(xs[0], Sort(xs[1..]))
  }

  /** Drops each element that equals its successor. */
  function Dedupe(xs: seq<nat>): seq<nat> {
    if |xs| < 2 then xs
    else if xs[0] == xs[1] then Dedupe(xs[1..])
    else [xs[0]] + Dedupe(xs[1..])
  }

  predicate Strict(xs: seq<nat>, least: int) {
    xs != [] ==> xs[0] > least && Strict(xs[1..], xs[0])
  }

  predicate Weak(xs: seq<nat>, least: int) {
    xs != [] ==> xs[0] >= least && Weak(xs[1..], xs[0])
  }

  predicate Distinct(xs: seq<nat>) {
    xs != [] ==> xs[0] !in xs[1..] && Distinct(xs[1..])
  }

  lemma {:induction false} InsertMember(x: nat, xs: seq<nat>, i: nat)
    ensures i in Insert(x, xs) <==> i == x || i in xs
  {
    if xs != [] && x > xs[0] {
      InsertMember(x, xs[1..], i);
    }
  }

  lemma {:induction false} SortMember(xs: seq<nat>, i: nat)
    ensures i in Sort(xs) <==> i in xs
  {
    if xs != [] {
      SortMember(xs[1..], i);
      InsertMember(xs[0], Sort(xs[1..]), i);
    }
  }

  lemma {:induction false} InsertWeak(x: nat, xs: seq<nat>, least: int)
    requires Weak(xs, least) && x >= least
    ensures Weak(Insert(x, xs), least)
  {
    if xs != [] && x > xs[0] {
      InsertWeak(x, xs[1..], xs[0]);
    } else {
      assert ([x] + xs)[1..] == xs;
    }
  }

  lemma {:induction false} SortWeak(xs: seq<nat>)
    ensures Weak(Sort(xs), 0)
  {
    if xs != [] {
      SortWeak(xs[1..]);
      InsertWeak(xs[0], Sort(xs[1..]), 0);
    }
  }

  lemma {:induction false} InsertStrict(x: nat, xs: seq<nat>, least: int)
    requires Strict(xs, least) && x > least && x !in xs
    ensures Strict(Insert(x, xs), least)
  {
    if xs != [] && x > xs[0] {
      InsertStrict(x, xs[1..], xs[0]);
    } else {
      assert ([x] + xs)[1..] == xs;
    }
  }

  /** Sorting numbers without repeats makes them strictly ascend. */
  lemma {:induction false} SortStrict(xs: seq<nat>)
    requires Distinct(xs)
    ensures Strict(Sort(xs), -1)
  {
    if xs != [] {
      SortStrict(xs[1..]);
      SortMember(xs[1..], xs[0]);
      InsertStrict(xs[0], Sort(xs[1..]), -1);
    }
  }

  lemma {:induction false} DedupeStrict(xs: seq<nat>, least: int)
    requires xs != [] ==> xs[0] > least && Weak(xs, xs[0])
    ensures Strict(Dedupe(xs), least)
    ensures xs != [] ==> Dedupe(xs) != [] && Dedupe(xs)[0] == xs[0]
  {
    if |xs| >= 2 {
      if xs[0] == xs[1] {
        DedupeStrict(xs[1..], least);
      } else {
        DedupeStrict(xs[1..], xs[0]);
        assert ([xs[0]] + Dedupe(xs[1..]))[1..] == Dedupe(xs[1..]);
      }
    }
  }

  lemma {:induction false} DedupeMember(xs: seq<nat>, i: nat)
    ensures i in Dedupe(xs) <==> i in xs
  {
    if |xs| >= 2 {
      DedupeMember(xs[1..], i);
      assert i in xs <==> i == xs[0] || i in xs[1..];
    }
  }

  // ---------------------------------------------------------------- enumeration

  /** The chosen indices below `count`, ascending. */
  function Enumerate(count: nat, chosen: set<nat>): (xs: seq<nat>)
    ensures forall i :: i in xs <==> i < count && i in chosen
  {
    if count == 0 then [] else Enumerate(count - 1, chosen) + if count - 1 in chosen then [count - 1] else []
  }

  lemma {:induction false} StrictAppend(xs: seq<nat>, least: int, x: nat)
    requires Strict(xs, least) && x > least && forall i :: i in xs ==> i < x
    ensures Strict(xs + [x], least)
  {
    if xs == [] {
      assert xs + [x] == [x];
    } else {
      assert forall i :: i in xs[1..] ==> i in xs;
      assert xs[0] in xs;
      StrictAppend(xs[1..], xs[0], x);
      assert (xs + [x])[1..] == xs[1..] + [x];
    }
  }

  lemma {:induction false} EnumerateStrict(count: nat, chosen: set<nat>)
    ensures Strict(Enumerate(count, chosen), -1)
  {
    if count > 0 {
      EnumerateStrict(count - 1, chosen);
      assert Enumerate(count - 1, chosen) + [] == Enumerate(count - 1, chosen);
      if count - 1 in chosen {
        StrictAppend(Enumerate(count - 1, chosen), -1, count - 1);
      }
    }
  }

  lemma {:induction false} StrictAbove(xs: seq<nat>, least: int, i: nat)
    requires Strict(xs, least) && i in xs
    ensures i > least
  {
    if i != xs[0] {
      StrictAbove(xs[1..], xs[0], i);
    }
  }

  /** A strictly ascending sequence is determined by its elements. */
  lemma {:induction false} StrictDetermines(a: seq<nat>, b: seq<nat>, least: int)
    requires Strict(a, least) && Strict(b, least) && forall i :: i in a <==> i in b
    ensures a == b
  {
    if a != [] {
      assert a[0] in a;
      assert b[0] in b;
      if a[0] != b[0] {
        var greater, less := if a[0] < b[0] then b else a, if a[0] < b[0] then a else b;
        StrictAbove(greater[1..], greater[0], less[0]);
        assert false;
      }
      forall i
        ensures i in a[1..] <==> i in b[1..]
      {
        assert i in a <==> i == a[0] || i in a[1..];
        assert i in b <==> i == b[0] || i in b[1..];
        if i in a[1..] { StrictAbove(a[1..], a[0], i); }
        if i in b[1..] { StrictAbove(b[1..], b[0], i); }
      }
      StrictDetermines(a[1..], b[1..], a[0]);
    } else if b != [] {
      SomeElement(b);
    }
  }

  lemma SomeElement(xs: seq<nat>)
    requires xs != []
    ensures exists i :: i in xs
  {
    assert xs[0] in xs;
  }

  // ---------------------------------------------------------------- entities at indices

  predicate Within(xs: seq<nat>, count: nat) {
    forall i :: i in xs ==> i < count
  }

  function At(entities: seq<EntityState>, xs: seq<nat>): (picked: seq<EntityState>)
    requires Within(xs, |entities|)
    ensures |picked| == |xs|
  {
    seq(|xs|, i requires 0 <= i < |xs| => assert xs[i] in xs; entities[xs[i]])
  }

  lemma AtPrefix(entities: seq<EntityState>, count: nat, xs: seq<nat>)
    requires count <= |entities| && Within(xs, count)
    ensures Within(xs, |entities|) && At(entities, xs) == At(entities[..count], xs)
  {
    forall k | 0 <= k < |xs|
      ensures xs[k] < count
    {
      assert xs[k] in xs;
    }
  }

  lemma AtAppend(entities: seq<EntityState>, xs: seq<nat>, x: nat)
    requires Within(xs, |entities|) && x < |entities|
    ensures Within(xs + [x], |entities|) && At(entities, xs + [x]) == At(entities, xs) + [entities[x]]
  {
  }

  /** Picking by a set of indices is visiting its ascending enumeration. */
  lemma {:induction false} PickIsAt(entities: seq<EntityState>, chosen: set<nat>)
    ensures Pick(entities, chosen) == At(entities, Enumerate(|entities|, chosen))
  {
    if entities != [] {
      var last := |entities| - 1;
      PickIsAt(entities[..last], chosen);
      var before := Enumerate(last, chosen);
      AtPrefix(entities, last, before);
      if last in chosen {
        AtAppend(entities, before, last);
      } else {
        assert before + [] == before;
      }
    }
  }

  /** Every strictly ascending list of the chosen indices picks the same entities. */
  lemma AnyListPicks(entities: seq<EntityState>, chosen: set<nat>, xs: seq<nat>)
    requires Strict(xs, -1) && Within(xs, |entities|)
    requires forall i :: i in xs <==> i < |entities| && i in chosen
    ensures At(entities, xs) == Pick(entities, chosen)
  {
    EnumerateStrict(|entities|, chosen);
    StrictDetermines(xs, Enumerate(|entities|, chosen), -1);
    PickIsAt(entities, chosen);
  }

  // ---------------------------------------------------------------- the round-robin slice

  lemma ModSmall(x: nat, n: nat)
    requires 0 < n && x < 2 * n
    ensures x % n == if x < n then x else x - n
  {
  }

  /** One round never visits an index twice. */
  lemma {:induction false} RoundFresh(count: nat, start: nat, taken: nat, later: nat)
    requires start < count && taken <= later < count
    ensures (start + later) % count !in RoundFrom(count, start, taken)
  {
    if taken > 0 {
      RoundFresh(count, start, taken - 1, later);
      ModSmall(start + later, count);
      ModSmall(start + taken - 1, count);
    }
  }

  lemma {:induction false} DistinctAppend(xs: seq<nat>, x: nat)
    requires Distinct(xs) && x !in xs
    ensures Distinct(xs + [x])
  {
    if xs != [] {
      DistinctAppend(xs[1..], x);
      assert (xs + [x])[1..] == xs[1..] + [x];
    }
  }
}
