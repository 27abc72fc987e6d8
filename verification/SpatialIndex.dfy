/** The built index as a value: sorted entries, the ranges of occupied cells, and statistics. The
    counting-sort form, the comparison-sort form and the merge of worker parts all describe the same
    index. `Sort` stands for the library's sort under the build's comparator.

    Models src/spatial/src/spatial_build.cpp. */
module SpatialIndex {
  import opened Bytes

  datatype Entry = Entry(key: nat, source: nat)
  datatype Range = Range(key: nat, begin: nat, count: nat)
  datatype Stats = Stats(entityCount: nat, occupiedCellCount: nat, maxCellOccupancy: nat, averageLoad: real)
  datatype Index = Index(entries: seq<Entry>, occupied: seq<Range>, stats: Stats)

  // ---------------------------------------------------------------- the order

  /** Without ids every source counts the same. */
  function IdAt(ids: seq<u32>, source: nat): nat {
    if source < |ids| then ids[source] else 0
  }

  predicate Before(a: Entry, b: Entry, ids: seq<u32>) {
    if a.key != b.key then a.key < b.key
    else if IdAt(ids, a.source) != IdAt(ids, b.source) then IdAt(ids, a.source) < IdAt(ids, b.source)
    else a.source < b.source
  }

  function Insert(e: Entry, entries: seq<Entry>, ids: seq<u32>): seq<Entry> {
    if entries == [] || !Before(entries[0], e, ids) then [e] + entries
    else [entries[0]] + Insert(e, entries[1..], ids)
  }

  function Sort(entries: seq<Entry>, ids: seq<u32>): seq<Entry> {
    if entries == [] then [] else Insert(entries[0], Sort(entries[1..], ids), ids)
  }

  ghost predicate Weakly(entries: seq<Entry>, ids: seq<u32>) {
    entries != [] ==>
      (forall e :: e in entries[1..] ==> !Before(e, entries[0], ids)) && Weakly(entries[1..], ids)
  }

  ghost predicate Ordered(entries: seq<Entry>, ids: seq<u32>) {
    entries != [] ==>
      (forall e :: e in entries[1..] ==> Before(entries[0], e, ids)) && Ordered(entries[1..], ids)
  }

  ghost predicate NoRepeats(entries: seq<Entry>) {
    entries != [] ==> entries[0] !in entries[1..] && NoRepeats(entries[1..])
  }

  lemma {:induction false} InsertPermutes(e: Entry, entries: seq<Entry>, ids: seq<u32>)
    ensures multiset(Insert(e, entries, ids)) == multiset(entries) + multiset{e}
  {
    if entries != [] && Before(entries[0], e, ids) {
      InsertPermutes(e, entries[1..], ids);
      assert entries == [entries[0]] + entries[1..];
    }
  }

  lemma {:induction false} SortPermutes(entries: seq<Entry>, ids: seq<u32>)
    ensures multiset(Sort(entries, ids)) == multiset(entries)
    ensures |Sort(entries, ids)| == |entries|
  {
    if entries != [] {
      SortPermutes(entries[1..], ids);
      InsertPermutes(entries[0], Sort(entries[1..], ids), ids);
      assert entries == [entries[0]] + entries[1..];
      assert |multiset(Sort(entries, ids))| == |Sort(entries, ids)|;
    }
  }

  lemma SortMember(entries: seq<Entry>, ids: seq<u32>, e: Entry)
    ensures e in Sort(entries, ids) <==> e in entries
  {
    SortPermutes(entries, ids);
    assert e in Sort(entries, ids) <==> e in multiset(Sort(entries, ids));
    assert e in entries <==> e in multiset(entries);
  }

  lemma InsertMember(e: Entry, entries: seq<Entry>, ids: seq<u32>, f: Entry)
    ensures f in Insert(e, entries, ids) <==> f == e || f in entries
  {
    InsertPermutes(e, entries, ids);
    assert f in Insert(e, entries, ids) <==> f in multiset(Insert(e, entries, ids));
    assert f in entries <==> f in multiset(entries);
  }

  lemma {:induction false} InsertWeakly(e: Entry, entries: seq<Entry>, ids: seq<u32>)
    requires Weakly(entries, ids)
    ensures Weakly(Insert(e, entries, ids), ids)
  {
    hide IdAt;
    if entries == [] || !Before(entries[0], e, ids) {
      assert ([e] + entries)[1..] == entries;
      forall f | f in entries
        ensures !Before(f, e, ids)
      {
        if f != entries[0] {
          assert f in entries[1..];
        }
      }
    } else {
      InsertWeakly(e, entries[1..], ids);
      var rest := Insert(e, entries[1..], ids);
      assert ([entries[0]] + rest)[1..] == rest;
      forall f | f in rest
        ensures !Before(f, entries[0], ids)
      {
        InsertMember(e, entries[1..], ids, f);
      }
    }
  }

  lemma {:induction false} SortWeakly(entries: seq<Entry>, ids: seq<u32>)
    ensures Weakly(Sort(entries, ids), ids)
  {
    if entries != [] {
      SortWeakly(entries[1..], ids);
      InsertWeakly(entries[0], Sort(entries[1..], ids), ids);
    }
  }

  // ---------------------------------------------------------------- repeats

  lemma {:induction false} RepeatsCounted(entries: seq<Entry>)
    ensures NoRepeats(entries) <==> forall e :: e in entries ==> multiset(entries)[e] == 1
  {
    if entries != [] {
      var e, rest := entries[0], entries[1..];
      RepeatsCounted(rest);
      assert entries == [e] + rest;
      assert multiset(entries) == multiset{e} + multiset(rest);
      assert e in entries && forall f :: f in rest ==> f in entries;
      assert e in rest <==> e in multiset(rest);
    }
  }

  lemma SortKeepsRepeats(entries: seq<Entry>, ids: seq<u32>)
    ensures NoRepeats(Sort(entries, ids)) <==> NoRepeats(entries)
  {
    SortPermutes(entries, ids);
    RepeatsCounted(entries);
    RepeatsCounted(Sort(entries, ids));
    forall e
      ensures e in Sort(entries, ids) <==> e in entries
    {
      SortMember(entries, ids, e);
    }
  }

  lemma {:induction false} WeaklyWithoutRepeats(entries: seq<Entry>, ids: seq<u32>)
    requires Weakly(entries, ids) && NoRepeats(entries)
    ensures Ordered(entries, ids)
  {
    if entries != [] {
      WeaklyWithoutRepeats(entries[1..], ids);
    }
  }

  lemma SortOrdered(entries: seq<Entry>, ids: seq<u32>)
    requires NoRepeats(entries)
    ensures Ordered(Sort(entries, ids), ids)
  {
    SortWeakly(entries, ids);
    SortKeepsRepeats(entries, ids);
    WeaklyWithoutRepeats(Sort(entries, ids), ids);
  }

  /** An ordered sequence is determined by its elements. */
  lemma {:induction false} OrderedDetermines(a: seq<Entry>, b: seq<Entry>, ids: seq<u32>)
    requires Ordered(a, ids) && Ordered(b, ids) && forall e :: e in a <==> e in b
    ensures a == b
  {
    hide IdAt;
    if a != [] && b != [] {
      assert a[0] in a && b[0] in b;
      HeadOrTail(a, b[0]);
      HeadOrTail(b, a[0]);
      assert a[0] == b[0];
      forall e
        ensures e in a[1..] <==> e in b[1..]
      {
        assert e in a <==> e == a[0] || e in a[1..];
        assert e in b <==> e == b[0] || e in b[1..];
      }
      OrderedDetermines(a[1..], b[1..], ids);
    } else if a != [] {
      HasElement(a);
    } else if b != [] {
      HasElement(b);
    }
  }

  lemma HeadOrTail(entries: seq<Entry>, e: Entry)
    requires e in entries
    ensures e == entries[0] || e in entries[1..]
  {
  }

  lemma HasElement(entries: seq<Entry>)
    requires entries != []
    ensures exists e :: e in entries
  {
    assert entries[0] in entries;
  }

  ghost predicate AllBefore(a: seq<Entry>, b: seq<Entry>, ids: seq<u32>) {
    forall e, f :: e in a && f in b ==> Before(e, f, ids)
  }

  lemma {:induction false} OrderedConcat(a: seq<Entry>, b: seq<Entry>, ids: seq<u32>)
    requires Ordered(a, ids) && Ordered(b, ids) && AllBefore(a, b, ids)
    ensures Ordered(a + b, ids)
  {
    if a == [] {
      assert a + b == b;
    } else {
      OrderedConcat(a[1..], b, ids);
      assert (a + b)[1..] == a[1..] + b;
    }
  }

  // ---------------------------------------------------------------- the two serial forms

  /** One entry per position, in source order. */
  function All(keys: seq<nat>): (entries: seq<Entry>)
    ensures |entries| == |keys|
  {
    if keys == [] then [] else All(keys[..|keys| - 1]) + [Entry(keys[|keys| - 1], |keys| - 1)]
  }

  /** The entries of one cell, in source order. */
  function CellEntries(keys: seq<nat>, cell: nat): (entries: seq<Entry>)
    ensures |entries| <= |keys|
  {
    if keys == [] then []
    else
      var last := |keys| - 1;
      CellEntries(keys[..last], cell) + if keys[last] == cell then [Entry(cell, last)] else []
  }

  /** Cell after cell, each sorted by itself. */
  function Dense(keys: seq<nat>, ids: seq<u32>, cells: nat): seq<Entry> {
    if cells == 0 then [] else Dense(keys, ids, cells - 1) + Sort(CellEntries(keys, cells - 1), ids)
  }

  /** How many keys are below a cell: where the cell's entries begin. */
  function Below(keys: seq<nat>, cells: nat): nat {
    if cells == 0 then 0 else Below(keys, cells - 1) + |CellEntries(keys, cells - 1)|
  }

  lemma {:induction false} AllMember(keys: seq<nat>, e: Entry)
    ensures e in All(keys) <==> e.source < |keys| && keys[e.source] == e.key
  {
    if keys != [] {
      AllMember(keys[..|keys| - 1], e);
    }
  }

  lemma {:induction false} CellMember(keys: seq<nat>, cell: nat, e: Entry)
    ensures e in CellEntries(keys, cell) <==> e.source < |keys| && keys[e.source] == e.key == cell
  {
    if keys != [] {
      CellMember(keys[..|keys| - 1], cell, e);
    }
  }

  lemma {:induction false} AppendRepeats(entries: seq<Entry>, e: Entry)
    ensures NoRepeats(entries + [e]) <==> NoRepeats(entries) && e !in entries
  {
    if entries == [] {
      assert entries + [e] == [e];
    } else {
      AppendRepeats(entries[1..], e);
      assert (entries + [e])[1..] == entries[1..] + [e];
    }
  }

  lemma {:induction false} AllDistinct(keys: seq<nat>)
    ensures NoRepeats(All(keys))
  {
    if keys != [] {
      var last := |keys| - 1;
      AllDistinct(keys[..last]);
      AllMember(keys[..last], Entry(keys[last], last));
      AppendRepeats(All(keys[..last]), Entry(keys[last], last));
    }
  }

  lemma {:induction false} CellDistinct(keys: seq<nat>, cell: nat)
    ensures NoRepeats(CellEntries(keys, cell))
  {
    if keys != [] {
      var last := |keys| - 1;
      CellDistinct(keys[..last], cell);
      if keys[last] == cell {
        CellMember(keys[..last], cell, Entry(cell, last));
        AppendRepeats(CellEntries(keys[..last], cell), Entry(cell, last));
      } else {
        assert CellEntries(keys[..last], cell) + [] == CellEntries(keys[..last], cell);
      }
    }
  }

  lemma {:induction false} DenseMember(keys: seq<nat>, ids: seq<u32>, cells: nat, e: Entry)
    ensures e in Dense(keys, ids, cells) <==> e.source < |keys| && keys[e.source] == e.key < cells
  {
    hide Sort, CellEntries;
    if cells > 0 {
      DenseMember(keys, ids, cells - 1, e);
      SortMember(CellEntries(keys, cells - 1), ids, e);
      CellMember(keys, cells - 1, e);
    }
  }

  lemma {:induction false} DenseLength(keys: seq<nat>, ids: seq<u32>, cells: nat)
    ensures |Dense(keys, ids, cells)| == Below(keys, cells)
  {
    hide Sort, CellEntries;
    if cells > 0 {
      DenseLength(keys, ids, cells - 1);
      SortPermutes(CellEntries(keys, cells - 1), ids);
    }
  }

  lemma CellAfterDense(keys: seq<nat>, ids: seq<u32>, cell: nat)
    ensures AllBefore(Dense(keys, ids, cell), Sort(CellEntries(keys, cell), ids), ids)
  {
    hide Sort, CellEntries, Dense;
    forall e, f | e in Dense(keys, ids, cell) && f in Sort(CellEntries(keys, cell), ids)
      ensures Before(e, f, ids)
    {
      DenseMember(keys, ids, cell, e);
      SortMember(CellEntries(keys, cell), ids, f);
      CellMember(keys, cell, f);
    }
  }

  lemma NoneOrdered(ids: seq<u32>)
    ensures Ordered([], ids)
  {
  }

  lemma {:induction false} DenseOrdered(keys: seq<nat>, ids: seq<u32>, cells: nat)
    ensures Ordered(Dense(keys, ids, cells), ids)
  {
    hide Sort, CellEntries, AllBefore, Ordered;
    if cells == 0 {
      NoneOrdered(ids);
    } else {
      DenseOrdered(keys, ids, cells - 1);
      CellDistinct(keys, cells - 1);
      SortOrdered(CellEntries(keys, cells - 1), ids);
      CellAfterDense(keys, ids, cells - 1);
      OrderedConcat(Dense(keys, ids, cells - 1), Sort(CellEntries(keys, cells - 1), ids), ids);
    }
  }

  ghost predicate KeysWithin(keys: seq<nat>, cells: nat) {
    forall i :: 0 <= i < |keys| ==> keys[i] < cells
  }

  /** The counting sort with per-cell sorting and the comparison sort give the same entries, whatever
      the ids: unsorted, repeated or absent. */
  lemma DenseIsComparison(keys: seq<nat>, ids: seq<u32>, cells: nat)
    requires KeysWithin(keys, cells)
    ensures Dense(keys, ids, cells) == Sort(All(keys), ids)
  {
    DenseOrdered(keys, ids, cells);
    AllDistinct(keys);
    SortOrdered(All(keys), ids);
    forall e
      ensures e in Dense(keys, ids, cells) <==> e in Sort(All(keys), ids)
    {
      DenseMember(keys, ids, cells, e);
      SortMember(All(keys), ids, e);
      AllMember(keys, e);
    }
    OrderedDetermines(Dense(keys, ids, cells), Sort(All(keys), ids), ids);
  }

  // ---------------------------------------------------------------- what the order is

  lemma {:induction false} OrderedPairs(entries: seq<Entry>, ids: seq<u32>, i: nat, j: nat)
    requires Ordered(entries, ids) && i < j < |entries|
    ensures Before(entries[i], entries[j], ids)
  {
    hide Before;
    if i == 0 {
      assert entries[j] in entries[1..];
    } else {
      OrderedPairs(entries[1..], ids, i - 1, j - 1);
    }
  }

  /** The sorted entries hold every source once, under its key. They stand by key; within a key by id, where ids
      are given, and entries of one id by source; without ids by source. */
  lemma SortedExactly(keys: seq<nat>, ids: seq<u32>)
    requires ids == [] || |ids| == |keys|
    ensures var entries := Sort(All(keys), ids);
      && |entries| == |keys|
      && (forall e :: e in entries ==> e.source < |keys| && e.key == keys[e.source])
      && (forall s :: 0 <= s < |keys| ==> Entry(keys[s], s) in entries)
      && (forall i, j :: 0 <= i < j < |entries| ==>
            var a, b := entries[i], entries[j];
            && a.source != b.source && a.key <= b.key
            && (a.key == b.key && ids == [] ==> a.source < b.source)
            && (a.key == b.key && ids != [] ==>
                  && a.source < |ids| && b.source < |ids|
                  && (ids[a.source] < ids[b.source] || (ids[a.source] == ids[b.source] && a.source < b.source))))
  {
    hide Sort, All, Ordered, Before, IdAt;
    var entries := Sort(All(keys), ids);
    SortPermutes(All(keys), ids);
    AllDistinct(keys);
    SortOrdered(All(keys), ids);
    forall e
      ensures e in entries <==> e.source < |keys| && keys[e.source] == e.key
    {
      SortMember(All(keys), ids, e);
      AllMember(keys, e);
    }
    forall i, j | 0 <= i < j < |entries|
      ensures var a, b := entries[i], entries[j];
        && a.source != b.source && a.key <= b.key
        && (a.key == b.key && ids == [] ==> a.source < b.source)
        && (a.key == b.key && ids != [] ==>
              && a.source < |ids| && b.source < |ids|
              && (ids[a.source] < ids[b.source] || (ids[a.source] == ids[b.source] && a.source < b.source)))
    {
      assert entries[i] in entries && entries[j] in entries;
      OrderedPairs(entries, ids, i, j);
      BeforeExactly(keys, entries[i], entries[j], ids);
    }
  }

  lemma BeforeExactly(keys: seq<nat>, a: Entry, b: Entry, ids: seq<u32>)
    requires ids == [] || |ids| == |keys|
    requires a.source < |keys| && b.source < |keys| && a.key == keys[a.source] && b.key == keys[b.source]
    requires Before(a, b, ids)
    ensures a.source != b.source && a.key <= b.key
    ensures a.key == b.key && ids == [] ==> a.source < b.source
    ensures a.key == b.key && ids != [] ==>
      ids[a.source] < ids[b.source] || (ids[a.source] == ids[b.source] && a.source < b.source)
  {
  }

  // ---------------------------------------------------------------- the skipped sort

  predicate AscendingIds(ids: seq<u32>) {
    forall i, j :: 0 <= i < j < |ids| ==> ids[i] <= ids[j]
  }

  lemma {:induction false} CellOrdered(keys: seq<nat>, ids: seq<u32>, cell: nat)
    requires ids == [] || (|ids| >= |keys| && AscendingIds(ids))
    ensures Ordered(CellEntries(keys, cell), ids)
  {
    if keys != [] {
      var last := |keys| - 1;
      CellOrdered(keys[..last], ids, cell);
      var before := CellEntries(keys[..last], cell);
      if keys[last] == cell {
        forall e | e in before
          ensures Before(e, Entry(cell, last), ids)
        {
          CellMember(keys[..last], cell, e);
        }
        var one := [Entry(cell, last)];
        assert one[1..] == [] && Ordered(one, ids);
        OrderedConcat(before, one, ids);
      } else {
        assert before + [] == before;
      }
    }
  }

  /** With no ids, or ids that ascend already, a cell's entries need no sorting. */
  lemma SortIsSkippable(keys: seq<nat>, ids: seq<u32>, cell: nat)
    requires ids == [] || (|ids| == |keys| && forall i, j :: 0 <= i < j < |ids| ==> ids[i] <= ids[j])
    ensures Sort(CellEntries(keys, cell), ids) == CellEntries(keys, cell)
  {
    var entries := CellEntries(keys, cell);
    CellOrdered(keys, ids, cell);
    CellDistinct(keys, cell);
    SortOrdered(entries, ids);
    forall e
      ensures e in Sort(entries, ids) <==> e in entries
    {
      SortMember(entries, ids, e);
    }
    OrderedDetermines(Sort(entries, ids), entries, ids);
  }

  // ---------------------------------------------------------------- occupied ranges

  function RunLength(entries: seq<Entry>, key: nat): (n: nat)
    ensures n <= |entries|
    ensures entries != [] && entries[0].key == key ==> n > 0
  {
    if entries == [] || entries[0].key != key then 0 else 1 + RunLength(entries[1..], key)
  }

  /** The maximal runs of equal keys. */
  function Runs(entries: seq<Entry>, begin: nat): seq<Range>
    decreases |entries|
  {
    if entries == [] then []
    else
      var n := RunLength(entries, entries[0].key);
      [Range(entries[0].key, begin, n)] + Runs(entries[n..], begin + n)
  }

  /** The nonempty cells with their offsets and counts. */
  function Occupied(keys: seq<nat>, cells: nat): seq<Range> {
    if cells == 0 then []
    else
      var count := |CellEntries(keys, cells - 1)|;
      Occupied(keys, cells - 1) + if count == 0 then [] else [Range(cells - 1, Below(keys, cells - 1), count)]
  }

  function MaxCount(ranges: seq<Range>): nat {
    if ranges == [] then 0
    else
      var last := |ranges| - 1;
      var before := MaxCount(ranges[..last]);
      if before < ranges[last].count then ranges[last].count else before
  }

  function StatsOf(entityCount: nat, ranges: seq<Range>): Stats {
    Stats(entityCount, |ranges|, MaxCount(ranges),
          if ranges == [] then 0.0 else entityCount as real / |ranges| as real)
  }

  function IndexOf(entries: seq<Entry>): Index {
    Index(entries, Runs(entries, 0), StatsOf(|entries|, Runs(entries, 0)))
  }

  ghost predicate KeysBelow(a: seq<Entry>, b: seq<Entry>) {
    forall e, f :: e in a && f in b ==> e.key < f.key
  }

  lemma {:induction false} RunStops(a: seq<Entry>, b: seq<Entry>, key: nat)
    requires forall f :: f in b ==> f.key != key
    ensures RunLength(a + b, key) == RunLength(a, key)
  {
    if a == [] {
      assert a + b == b;
      if b != [] {
        assert b[0] in b;
      }
    } else {
      assert (a + b)[1..] == a[1..] + b;
      if a[0].key == key {
        RunStops(a[1..], b, key);
      }
    }
  }

  lemma KeysBelowTail(a: seq<Entry>, b: seq<Entry>, n: nat)
    requires KeysBelow(a, b) && a != [] && n <= |a|
    ensures KeysBelow(a[n..], b) && forall f :: f in b ==> f.key != a[0].key
  {
    assert a[0] in a;
    assert forall e :: e in a[n..] ==> e in a;
  }

  lemma RunsUnfold(entries: seq<Entry>, begin: nat)
    ensures entries == [] ==> Runs(entries, begin) == []
    ensures entries != [] ==>
      var n := RunLength(entries, entries[0].key);
      Runs(entries, begin) == [Range(entries[0].key, begin, n)] + Runs(entries[n..], begin + n)
  {
    hide RunLength;
  }

  lemma RunsStep(a: seq<Entry>, b: seq<Entry>, begin: nat)
    requires KeysBelow(a, b) && a != []
    ensures var n := RunLength(a, a[0].key);
      && 0 < n <= |a| && KeysBelow(a[n..], b)
      && Runs(a, begin) == [Range(a[0].key, begin, n)] + Runs(a[n..], begin + n)
      && Runs(a + b, begin) == [Range(a[0].key, begin, n)] + Runs(a[n..] + b, begin + n)
  {
    hide RunLength, KeysBelow, Runs;
    var n := RunLength(a, a[0].key);
    KeysBelowTail(a, b, n);
    RunStops(a, b, a[0].key);
    assert (a + b)[0] == a[0];
    assert (a + b)[n..] == a[n..] + b;
    RunsUnfold(a, begin);
    RunsUnfold(a + b, begin);
  }

  lemma {:induction false} RunsConcat(a: seq<Entry>, b: seq<Entry>, begin: nat)
    requires KeysBelow(a, b)
    ensures Runs(a + b, begin) == Runs(a, begin) + Runs(b, begin + |a|)
    decreases |a|
  {
    hide RunLength, KeysBelow, Runs;
    if a == [] {
      assert a + b == b;
      RunsUnfold(a, begin);
    } else {
      RunsStep(a, b, begin);
      var n := RunLength(a, a[0].key);
      RunsConcat(a[n..], b, begin + n);
      assert begin + n + |a[n..]| == begin + |a|;
    }
  }

  lemma {:induction false} RunOfOneKey(entries: seq<Entry>, key: nat)
    requires forall e :: e in entries ==> e.key == key
    ensures RunLength(entries, key) == |entries|
  {
    if entries != [] {
      assert entries[0] in entries;
      RunOfOneKey(entries[1..], key);
    }
  }

  lemma RunsOfCell(entries: seq<Entry>, key: nat, begin: nat)
    requires forall e :: e in entries ==> e.key == key
    ensures Runs(entries, begin) == if entries == [] then [] else [Range(key, begin, |entries|)]
  {
    hide RunLength;
    RunOfOneKey(entries, key);
    if entries != [] {
      assert entries[0] in entries && entries[|entries|..] == [];
      assert [Range(key, begin, |entries|)] + [] == [Range(key, begin, |entries|)];
    }
  }

  /** Scanning the sorted entries and scanning the counts find the same occupied ranges. */
  lemma {:induction false} RunsOfDense(keys: seq<nat>, ids: seq<u32>, cells: nat)
    ensures Runs(Dense(keys, ids, cells), 0) == Occupied(keys, cells)
  {
    hide Sort, CellEntries, Below, Runs;
    if cells == 0 {
      RunsOfCell([], 0, 0);
    } else {
      RunsOfDense(keys, ids, cells - 1);
      DenseLength(keys, ids, cells - 1);
      var before, one := Dense(keys, ids, cells - 1), Sort(CellEntries(keys, cells - 1), ids);
      SortPermutes(CellEntries(keys, cells - 1), ids);
      forall e
        ensures e in before ==> e.key < cells - 1
        ensures e in one ==> e.key == cells - 1
      {
        DenseMember(keys, ids, cells - 1, e);
        SortMember(CellEntries(keys, cells - 1), ids, e);
        CellMember(keys, cells - 1, e);
      }
      RunsConcat(before, one, 0);
      RunsOfCell(one, cells - 1, |before|);
    }
  }

  /** The index of the bounded-key build is the index of the comparison-sort build. */
  lemma BuildsAgree(keys: seq<nat>, ids: seq<u32>, cells: nat)
    requires KeysWithin(keys, cells)
    ensures Index(Dense(keys, ids, cells), Occupied(keys, cells), StatsOf(|keys|, Occupied(keys, cells)))
         == IndexOf(Sort(All(keys), ids))
  {
    DenseIsComparison(keys, ids, cells);
    RunsOfDense(keys, ids, cells);
    SortPermutes(All(keys), ids);
  }

  ghost predicate KeysRise(entries: seq<Entry>) {
    forall i, j :: 0 <= i < j < |entries| ==> entries[i].key <= entries[j].key
  }

  lemma {:induction false} RunExactly(entries: seq<Entry>, key: nat, i: nat)
    requires KeysRise(entries) && i < |entries| && entries[0].key == key
    ensures entries[i].key == key <==> i < RunLength(entries, key)
  {
    if i > 0 {
      if entries[1].key == key {
        RunExactly(entries[1..], key, i - 1);
      }
    }
  }

  /** The range holds exactly the entries of its key. */
  ghost predicate HoldsKey(range: Range, entries: seq<Entry>, begin: nat) {
    && range.count > 0
    && begin <= range.begin && range.begin + range.count <= begin + |entries|
    && forall i :: 0 <= i < |entries| ==>
         (entries[i].key == range.key <==> range.begin <= begin + i < range.begin + range.count)
  }

  lemma RunTail(entries: seq<Entry>, n: nat, range: Range, begin: nat)
    requires KeysRise(entries) && entries != [] && n == RunLength(entries, entries[0].key)
    requires HoldsKey(range, entries[n..], begin + n)
    ensures HoldsKey(range, entries, begin)
  {
    hide RunLength;
    var tail := entries[n..];
    var k := range.begin - (begin + n);
    assert tail[k].key == range.key;
    assert entries[n + k].key == range.key;
    RunExactly(entries, entries[0].key, n + k);
    forall i | 0 <= i < |entries|
      ensures entries[i].key == range.key <==> range.begin <= begin + i < range.begin + range.count
    {
      RunExactly(entries, entries[0].key, i);
      if i >= n {
        assert tail[i - n] == entries[i];
      }
    }
  }

  /** Of entries in key order, the ranges hold exactly the entries of their keys, and every key has one. */
  lemma {:induction false} RunsExactly(entries: seq<Entry>, begin: nat)
    requires KeysRise(entries)
    ensures forall range :: range in Runs(entries, begin) ==> HoldsKey(range, entries, begin)
    ensures forall i :: 0 <= i < |entries| ==>
      exists range :: range in Runs(entries, begin) && range.key == entries[i].key
    decreases |entries|
  {
    hide RunLength, HoldsKey, Runs;
    RunsUnfold(entries, begin);
    if entries != [] {
      var key := entries[0].key;
      var n := RunLength(entries, key);
      var first := Range(key, begin, n);
      RunsExactly(entries[n..], begin + n);
      forall i | 0 <= i < |entries|
        ensures entries[i].key == key <==> i < n
      {
        RunExactly(entries, key, i);
      }
      assert HoldsKey(first, entries, begin) by {
        FirstHolds(entries, n, begin);
      }
      forall range | range in Runs(entries, begin)
        ensures HoldsKey(range, entries, begin)
      {
        if range != first {
          RunTail(entries, n, range, begin);
        }
      }
      forall i | 0 <= i < |entries|
        ensures exists range :: range in Runs(entries, begin) && range.key == entries[i].key
      {
        if i < n {
          assert first in Runs(entries, begin);
        } else {
          assert entries[n..][i - n] == entries[i];
          var range :| range in Runs(entries[n..], begin + n) && range.key == entries[i].key;
          assert range in Runs(entries, begin);
        }
      }
    }
  }

  lemma FirstHolds(entries: seq<Entry>, n: nat, begin: nat)
    requires 0 < n <= |entries| && forall i :: 0 <= i < |entries| ==> (entries[i].key == entries[0].key <==> i < n)
    ensures HoldsKey(Range(entries[0].key, begin, n), entries, begin)
  {
  }

  lemma {:induction false} MaxExactly(ranges: seq<Range>)
    ensures forall range :: range in ranges ==> range.count <= MaxCount(ranges)
    ensures ranges == [] ==> MaxCount(ranges) == 0
    ensures ranges != [] ==> exists range :: range in ranges && range.count == MaxCount(ranges)
  {
    if ranges != [] {
      var last := |ranges| - 1;
      var init := ranges[..last];
      MaxExactly(init);
      assert ranges == init + [ranges[last]];
      assert ranges[last] in ranges;
      if init != [] {
        var range :| range in init && range.count == MaxCount(init);
        assert range in ranges;
      }
    }
  }

  /** The statistics of an index: how many entries and cells, the fullest cell, and the load whose product with
      the number of cells is the number of entries. */
  lemma StatsExactly(entityCount: nat, ranges: seq<Range>)
    ensures var stats := StatsOf(entityCount, ranges);
      && stats.entityCount == entityCount && stats.occupiedCellCount == |ranges|
      && (forall range :: range in ranges ==> range.count <= stats.maxCellOccupancy)
      && (ranges == [] ==> stats.maxCellOccupancy == 0 && stats.averageLoad == 0.0)
      && (ranges != [] ==>
            && (exists range :: range in ranges && range.count == stats.maxCellOccupancy)
            && stats.averageLoad * stats.occupiedCellCount as real == entityCount as real)
  {
    MaxExactly(ranges);
  }

  // ---------------------------------------------------------------- workers

  datatype Span = Span(begin: nat, end: nat)

  predicate ValidSpans(spans: seq<Span>, count: nat) {
    forall i :: 0 <= i < |spans| ==> spans[i].begin <= spans[i].end <= count
  }

  /** Any ranges will do that lie within the positions. */
  lemma SpansExactly(spans: seq<Span>, count: nat)
    ensures ValidSpans(spans, count) <==> forall span :: span in spans ==> span.begin <= span.end && span.end <= count
  {
    assert forall i :: 0 <= i < |spans| ==> spans[i] in spans;
  }

  /** What one worker appends for its range. */
  function WorkerEntries(keys: seq<nat>, span: Span): seq<Entry>
    requires span.begin <= span.end <= |keys|
    decreases span.end
  {
    if span.begin == span.end then []
    else WorkerEntries(keys, Span(span.begin, span.end - 1)) + [Entry(keys[span.end - 1], span.end - 1)]
  }

  function MergedEntries(keys: seq<nat>, spans: seq<Span>): seq<Entry>
    requires ValidSpans(spans, |keys|)
  {
    if spans == [] then []
    else
      var last := |spans| - 1;
      MergedEntries(keys, spans[..last]) + WorkerEntries(keys, spans[last])
  }

  ghost predicate Covers(spans: seq<Span>, source: nat) {
    exists i :: 0 <= i < |spans| && spans[i].begin <= source < spans[i].end
  }

  lemma {:induction false} WorkerMember(keys: seq<nat>, span: Span, e: Entry)
    requires span.begin <= span.end <= |keys|
    ensures e in WorkerEntries(keys, span) <==> span.begin <= e.source < span.end && keys[e.source] == e.key
    decreases span.end
  {
    if span.begin < span.end {
      WorkerMember(keys, Span(span.begin, span.end - 1), e);
    }
  }

  lemma CoversLast(spans: seq<Span>, source: nat)
    requires spans != []
    ensures var last := |spans| - 1;
      Covers(spans, source) <==> Covers(spans[..last], source) || spans[last].begin <= source < spans[last].end
  {
    var last := |spans| - 1;
    if Covers(spans, source) {
      var i :| 0 <= i < |spans| && spans[i].begin <= source < spans[i].end;
      assert i < last ==> spans[..last][i] == spans[i];
    }
    if Covers(spans[..last], source) {
      var i :| 0 <= i < last && spans[..last][i].begin <= source < spans[..last][i].end;
      assert spans[i] == spans[..last][i];
    }
  }

  lemma {:induction false} MergedMember(keys: seq<nat>, spans: seq<Span>, e: Entry)
    requires ValidSpans(spans, |keys|)
    ensures e in MergedEntries(keys, spans) <==> Covers(spans, e.source) && e.source < |keys| && keys[e.source] == e.key
  {
    if spans == [] {
      assert !Covers(spans, e.source);
    } else {
      hide Covers, WorkerEntries;
      var last := |spans| - 1;
      MergedMember(keys, spans[..last], e);
      WorkerMember(keys, spans[last], e);
      CoversLast(spans, e.source);
    }
  }

  predicate AdjacentRepeat(entries: seq<Entry>) {
    exists i :: 0 < i < |entries| && entries[i - 1] == entries[i]
  }

  /** In a sorted sequence equal entries are neighbours. */
  lemma {:induction false} RepeatsAreAdjacent(entries: seq<Entry>, ids: seq<u32>)
    requires Weakly(entries, ids)
    ensures NoRepeats(entries) <==> !AdjacentRepeat(entries)
  {
    hide IdAt;
    if entries != [] {
      var rest := entries[1..];
      RepeatsAreAdjacent(rest, ids);
      if AdjacentRepeat(rest) {
        var i :| 0 < i < |rest| && rest[i - 1] == rest[i];
        assert entries[i + 1 - 1] == entries[i + 1];
      }
      if AdjacentRepeat(entries) {
        var i :| 0 < i < |entries| && entries[i - 1] == entries[i];
        assert if i > 1 then rest[i - 1 - 1] == rest[i - 1] else entries[0] == rest[0];
      }
      if entries[0] in rest {
        var k :| 0 <= k < |rest| && rest[k] == entries[0];
        assert rest[0] in rest;
        if k > 0 {
          assert rest[k] in rest[1..];
          assert !Before(rest[k], rest[0], ids);
        }
        assert rest[0] == entries[0];
        assert entries[1 - 1] == entries[1];
      }
    }
  }

  predicate InSpan(span: Span, source: nat) {
    span.begin <= source < span.end
  }

  /** No source belongs to two of the ranges. */
  ghost predicate Disjoint(spans: seq<Span>) {
    forall i, j, source: nat :: 0 <= i < j < |spans| ==> !(InSpan(spans[i], source) && InSpan(spans[j], source))
  }

  /** Adding a range keeps the ranges disjoint exactly when none of its sources is covered already. */
  lemma DisjointLast(spans: seq<Span>)
    requires spans != []
    ensures var last := |spans| - 1;
      Disjoint(spans) <==>
        Disjoint(spans[..last]) && forall source: nat :: InSpan(spans[last], source) ==> !Covers(spans[..last], source)
  {
    var last := |spans| - 1;
    var init := spans[..last];
    if Disjoint(spans) {
      forall source: nat | InSpan(spans[last], source)
        ensures !Covers(init, source)
      {
        assert forall i :: 0 <= i < |init| && init[i].begin <= source < init[i].end ==> InSpan(spans[i], source);
      }
    }
    if Disjoint(init) && forall source: nat :: InSpan(spans[last], source) ==> !Covers(init, source) {
      forall i, j, source: nat | 0 <= i < j < |spans|
        ensures !(InSpan(spans[i], source) && InSpan(spans[j], source))
      {
        assert spans[i] == init[i];
        if j < last {
          assert !(InSpan(init[i], source) && InSpan(init[j], source));
        }
      }
    }
  }

  /** Appending a worker's entries repeats none exactly when its range meets no covered source. */
  lemma {:induction false} WorkerAppends(keys: seq<nat>, entries: seq<Entry>, span: Span)
    requires span.begin <= span.end <= |keys|
    ensures NoRepeats(entries + WorkerEntries(keys, span)) <==>
      NoRepeats(entries) && forall source: nat :: InSpan(span, source) && source < |keys| ==>
        Entry(keys[source], source) !in entries
    decreases span.end
  {
    var all := entries + WorkerEntries(keys, span);
    if span.begin == span.end {
      assert all == entries;
    } else {
      var shorter := Span(span.begin, span.end - 1);
      var e := Entry(keys[span.end - 1], span.end - 1);
      var init := entries + WorkerEntries(keys, shorter);
      assert all == init + [e];
      WorkerAppends(keys, entries, shorter);
      WorkerMember(keys, shorter, e);
      AppendRepeats(init, e);
      assert forall source: nat :: InSpan(span, source) <==> InSpan(shorter, source) || source == span.end - 1;
    }
  }

  /** The merged entries repeat none exactly when the ranges share no source. */
  lemma {:induction false} DisjointExactly(keys: seq<nat>, spans: seq<Span>)
    requires ValidSpans(spans, |keys|)
    ensures NoRepeats(MergedEntries(keys, spans)) <==> Disjoint(spans)
  {
    if spans != [] {
      var last := |spans| - 1;
      var merged := MergedEntries(keys, spans[..last]);
      DisjointExactly(keys, spans[..last]);
      DisjointLast(spans);
      WorkerAppends(keys, merged, spans[last]);
      forall source: nat | source < |keys|
        ensures Entry(keys[source], source) in merged <==> Covers(spans[..last], source)
      {
        MergedMember(keys, spans[..last], Entry(keys[source], source));
      }
      hide Covers, NoRepeats, WorkerEntries, Disjoint;
      assert forall source: nat :: InSpan(spans[last], source) ==> source < |keys|;
    }
  }

  lemma {:induction false} FitsIn(entries: seq<Entry>, all: set<Entry>)
    requires NoRepeats(entries) && forall e :: e in entries ==> e in all
    ensures |entries| <= |all|
  {
    if entries != [] {
      FitsIn(entries[1..], all - {entries[0]});
    }
  }

  ghost function AllSet(keys: seq<nat>): (all: set<Entry>)
    ensures |all| <= |keys|
    ensures forall e :: e in All(keys) ==> e in all
  {
    if keys == [] then {} else AllSet(keys[..|keys| - 1]) + {Entry(keys[|keys| - 1], |keys| - 1)}
  }

  /** Disjoint ranges never make more entries than there are positions. */
  lemma DisjointFits(keys: seq<nat>, spans: seq<Span>)
    requires ValidSpans(spans, |keys|) && Disjoint(spans)
    ensures |MergedEntries(keys, spans)| <= |keys|
  {
    DisjointExactly(keys, spans);
    forall e | e in MergedEntries(keys, spans)
      ensures e in AllSet(keys)
    {
      MergedMember(keys, spans, e);
      AllMember(keys, e);
    }
    FitsIn(MergedEntries(keys, spans), AllSet(keys));
  }

  /** A source shared by two worker ranges always shows as equal neighbours after the sort, and nothing
      else does. */
  lemma OverlapsAreDetected(keys: seq<nat>, spans: seq<Span>)
    requires ValidSpans(spans, |keys|)
    ensures AdjacentRepeat(Sort(MergedEntries(keys, spans), [])) <==> !Disjoint(spans)
  {
    hide Disjoint;
    var merged := MergedEntries(keys, spans);
    DisjointExactly(keys, spans);
    SortWeakly(merged, []);
    SortKeepsRepeats(merged, []);
    RepeatsAreAdjacent(Sort(merged, []), []);
  }

  /** Ranges that hold every source exactly once, in whatever order and size, give the index of the serial
      build without ids. */
  lemma WorkersAgree(keys: seq<nat>, spans: seq<Span>)
    requires ValidSpans(spans, |keys|) && Disjoint(spans)
    requires forall i :: 0 <= i < |keys| ==> Covers(spans, i)
    ensures Sort(MergedEntries(keys, spans), []) == Sort(All(keys), [])
  {
    var merged := MergedEntries(keys, spans);
    DisjointExactly(keys, spans);
    AllDistinct(keys);
    SortOrdered(All(keys), []);
    SortOrdered(merged, []);
    forall e
      ensures e in Sort(merged, []) <==> e in Sort(All(keys), [])
    {
      SortMember(merged, [], e);
      SortMember(All(keys), [], e);
      MergedMember(keys, spans, e);
      AllMember(keys, e);
    }
    OrderedDetermines(Sort(merged, []), Sort(All(keys), []), []);
  }
}
