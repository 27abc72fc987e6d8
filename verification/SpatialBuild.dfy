/** The builds of the spatial grid as they are implemented: counting, prefix sums and filling over
    arrays, comparison sorting, and the merge of worker parts.

    Models src/spatial/src/spatial_build.cpp. */
module SpatialBuild {
  import opened Bytes
  import opened SpatialCells
  import opened SpatialIndex

  const MAX_DENSE_BUILD_CELLS: nat := 262_144

  function Keys(g: Grid, positions: seq<Vec>): (keys: seq<nat>)
    requires Ready(g)
    ensures |keys| == |positions|
    ensures forall i :: 0 <= i < |keys| ==> keys[i] == KeyFor(g, positions[i])
  {
    seq(|positions|, i requires 0 <= i < |positions| => KeyFor(g, positions[i]))
  }

  lemma KeysAreCells(g: Grid, positions: seq<Vec>)
    requires Ready(g)
    ensures KeysWithin(Keys(g, positions), CellCount(g))
  {
    hide Ready;
    forall i | 0 <= i < |positions|
      ensures KeyFor(g, positions[i]) < CellCount(g)
    {
      KeyThenCoord(g, CoordOf(g, positions[i]));
    }
  }

  // ---------------------------------------------------------------- counting

  ghost predicate Counted(counts: seq<nat>, keys: seq<nat>) {
    forall c :: 0 <= c < |counts| ==> counts[c] == |CellEntries(keys, c)|
  }

  lemma CountedNext(counts: seq<nat>, keys: seq<nat>, key: nat)
    requires Counted(counts, keys) && key < |counts|
    ensures Counted(counts[key := counts[key] + 1], keys + [key])
  {
    assert (keys + [key])[..|keys|] == keys;
  }

  lemma NothingCounted(counts: seq<nat>)
    requires forall c :: 0 <= c < |counts| ==> counts[c] == 0
    ensures Counted(counts, [])
  {
  }

  method CountBoundedCellEntries(g: Grid, positions: seq<Vec>, keys: array<nat>, counts: array<nat>)
    requires Ready(g) && keys.Length == |positions| && counts.Length == CellCount(g) && keys != counts
    requires forall c :: 0 <= c < counts.Length ==> counts[c] == 0
    modifies keys, counts
    ensures keys[..] == Keys(g, positions)
    ensures Counted(counts[..], Keys(g, positions))
  {
    hide Counted, Ready, KeyFor;
    ghost var all := Keys(g, positions);
    KeysAreCells(g, positions);
    NothingCounted(counts[..]);
    for index := 0 to |positions|
      invariant forall i :: 0 <= i < index ==> keys[i] == all[i]
      invariant Counted(counts[..], all[..index])
    {
      var key := KeyFor(g, positions[index]);
      CountedNext(counts[..], all[..index], key);
      assert all[..index] + [key] == all[..index + 1];
      keys[index] := key;
      counts[key] := counts[key] + 1;
    }
    assert all[..|positions|] == all;
  }

  // ---------------------------------------------------------------- prefix sums

  ghost predicate Offsets(offsets: seq<nat>, keys: seq<nat>, cells: nat) {
    |offsets| >= cells && forall c :: 0 <= c < cells ==> offsets[c] == Below(keys, c)
  }

  method BuildDenseCellOffsets(counts: array<nat>, offsets: array<nat>, ghost keys: seq<nat>)
    requires Counted(counts[..], keys) && offsets.Length == counts.Length + 1 && offsets != counts
    modifies offsets
    ensures Offsets(offsets[..], keys, counts.Length + 1)
  {
    var offset := 0;
    for cell := 0 to counts.Length
      invariant offset == Below(keys, cell)
      invariant Offsets(offsets[..], keys, cell)
      invariant Counted(counts[..], keys)
    {
      assert counts[cell] == counts[..][cell];
      offsets[cell] := offset;
      offset := offset + counts[cell];
    }
    offsets[counts.Length] := offset;
  }

  lemma {:induction false} BelowMonotone(keys: seq<nat>, a: nat, b: nat)
    requires a <= b
    ensures Below(keys, a) <= Below(keys, b)
  {
    hide CellEntries;
    if a < b {
      BelowMonotone(keys, a, b - 1);
    }
  }

  /** The cells' counts add up to the number of positions. */
  lemma BelowAll(keys: seq<nat>, cells: nat)
    requires KeysWithin(keys, cells)
    ensures Below(keys, cells) == |keys|
  {
    DenseLength(keys, [], cells);
    DenseIsComparison(keys, [], cells);
    SortPermutes(All(keys), []);
  }

  // ---------------------------------------------------------------- filling

  /** The part of the entries that belongs to a cell. */
  ghost predicate Segment(entries: seq<Entry>, keys: seq<nat>, cell: nat, part: seq<Entry>) {
    var begin := Below(keys, cell);
    begin + |part| <= |entries| && entries[begin..begin + |part|] == part
  }

  ghost predicate Filled(entries: seq<Entry>, keys: seq<nat>, cells: nat, count: nat)
    requires count <= |keys|
  {
    forall c :: 0 <= c < cells ==> Segment(entries, keys, c, CellEntries(keys[..count], c))
  }

  ghost predicate WriteOffsets(offsets: seq<nat>, keys: seq<nat>, count: nat)
    requires count <= |keys|
  {
    forall c :: 0 <= c < |offsets| ==> offsets[c] == Below(keys, c) + |CellEntries(keys[..count], c)|
  }

  lemma {:induction false} CellEntriesGrow(keys: seq<nat>, count: nat, cell: nat)
    requires count <= |keys|
    ensures CellEntries(keys[..count], cell) <= CellEntries(keys, cell)
  {
    if count == |keys| {
      assert keys[..count] == keys;
    } else {
      var init := keys[..|keys| - 1];
      assert keys[..count] == init[..count];
      CellEntriesGrow(init, count, cell);
    }
  }

  lemma NextCellEntry(keys: seq<nat>, count: nat, cell: nat)
    requires count < |keys|
    ensures CellEntries(keys[..count + 1], cell)
         == CellEntries(keys[..count], cell) + (if keys[count] == cell then [Entry(cell, count)] else [])
  {
    assert keys[..count + 1][..count] == keys[..count];
  }

  /** Where the next entry goes: behind its cell's earlier ones, before the next cell. */
  lemma SlotFits(keys: seq<nat>, cells: nat, count: nat)
    requires KeysWithin(keys, cells) && count < |keys|
    ensures var slot := Below(keys, keys[count]) + |CellEntries(keys[..count], keys[count])|;
      slot < Below(keys, keys[count] + 1) <= |keys|
  {
    hide CellEntries, Below;
    var key := keys[count];
    NextCellEntry(keys, count, key);
    CellEntriesGrow(keys, count + 1, key);
    BelowNext(keys, key);
    BelowMonotone(keys, key + 1, cells);
    BelowAll(keys, cells);
  }

  lemma FillStep(entries: seq<Entry>, keys: seq<nat>, cells: nat, count: nat)
    requires KeysWithin(keys, cells) && count < |keys| == |entries| && Filled(entries, keys, cells, count)
    ensures var slot := Below(keys, keys[count]) + |CellEntries(keys[..count], keys[count])|;
      slot < |entries| && Filled(entries[slot := Entry(keys[count], count)], keys, cells, count + 1)
  {
    hide CellEntries, Below;
    SlotFits(keys, cells, count);
    var slot := Below(keys, keys[count]) + |CellEntries(keys[..count], keys[count])|;
    var filled := entries[slot := Entry(keys[count], count)];
    var grown := keys[..count + 1];
    forall c | 0 <= c < cells
      ensures Segment(filled, keys, c, CellEntries(grown, c))
    {
      assert Segment(entries, keys, c, CellEntries(keys[..count], c));
      NextCellEntry(keys, count, c);
      SegmentStep(entries, keys, cells, count, c);
    }
  }

  lemma SegmentStep(entries: seq<Entry>, keys: seq<nat>, cells: nat, count: nat, c: nat)
    requires KeysWithin(keys, cells) && count < |keys| == |entries| && c < cells
    requires Segment(entries, keys, c, CellEntries(keys[..count], c))
    ensures var slot := Below(keys, keys[count]) + |CellEntries(keys[..count], keys[count])|;
      slot < |entries|
      && Segment(entries[slot := Entry(keys[count], count)], keys, c, CellEntries(keys[..count + 1], c))
  {
    hide CellEntries, KeysWithin;
    var key := keys[count];
    SlotFits(keys, cells, count);
    NextCellEntry(keys, count, c);
    var begin, part := Below(keys, c), CellEntries(keys[..count], c);
    var slot := Below(keys, key) + |CellEntries(keys[..count], key)|;
    var filled := entries[slot := Entry(key, count)];
    if c == key {
      assert slot == begin + |part|;
      assert filled[begin..slot + 1] == entries[begin..slot] + [Entry(key, count)];
    } else {
      if c < key {
        BelowMonotone(keys, c + 1, key);
        CellEntriesGrow(keys, count, c);
        assert begin + |part| <= Below(keys, c + 1);
      } else {
        BelowMonotone(keys, key + 1, c);
      }
      assert slot < begin || slot >= begin + |part|;
      assert filled[begin..begin + |part|] == entries[begin..begin + |part|];
      assert part + [] == part;
    }
  }

  lemma WriteOffsetsNext(offsets: seq<nat>, keys: seq<nat>, count: nat)
    requires count < |keys| && keys[count] < |offsets| && WriteOffsets(offsets, keys, count)
    ensures WriteOffsets(offsets[keys[count] := offsets[keys[count]] + 1], keys, count + 1)
  {
    hide CellEntries, Below;
    var next := offsets[keys[count] := offsets[keys[count]] + 1];
    forall c | 0 <= c < |next|
      ensures next[c] == Below(keys, c) + |CellEntries(keys[..count + 1], c)|
    {
      NextCellEntry(keys, count, c);
    }
  }

  lemma NothingFilled(entries: seq<Entry>, keys: seq<nat>, cells: nat)
    requires KeysWithin(keys, cells) && |entries| == |keys|
    ensures Filled(entries, keys, cells, 0)
  {
    BelowAll(keys, cells);
    var none := keys[..0];
    forall c | 0 <= c < cells
      ensures Segment(entries, keys, c, CellEntries(none, c))
    {
      BelowMonotone(keys, c, cells);
    }
  }

  method FillBoundedCellEntries(keys: array<nat>, writeOffsets: array<nat>, entries: array<Entry>)
    requires entries.Length == keys.Length && KeysWithin(keys[..], writeOffsets.Length) && keys != writeOffsets
    requires WriteOffsets(writeOffsets[..], keys[..], 0)
    modifies writeOffsets, entries
    ensures Filled(entries[..], keys[..], writeOffsets.Length, keys.Length)
  {
    hide Filled, WriteOffsets;
    ghost var all := keys[..];
    NothingFilled(entries[..], all, writeOffsets.Length);
    for source := 0 to keys.Length
      invariant keys[..] == all
      invariant WriteOffsets(writeOffsets[..], all, source)
      invariant Filled(entries[..], all, writeOffsets.Length, source)
    {
      var key := keys[source];
      assert key == all[source];
      FillStep(entries[..], all, writeOffsets.Length, source);
      WriteOffsetsNext(writeOffsets[..], all, source);
      OffsetAt(writeOffsets[..], all, source, key);
      var slot := writeOffsets[key];
      entries[slot] := Entry(key, source);
      writeOffsets[key] := slot + 1;
    }
  }

  lemma OffsetAt(offsets: seq<nat>, keys: seq<nat>, count: nat, c: nat)
    requires count <= |keys| && c < |offsets| && WriteOffsets(offsets, keys, count)
    ensures offsets[c] == Below(keys, c) + |CellEntries(keys[..count], c)|
  {
  }

  // ---------------------------------------------------------------- ordering within cells

  ghost predicate SortedUpTo(entries: seq<Entry>, keys: seq<nat>, ids: seq<u32>, cells: nat, done: nat) {
    forall c :: 0 <= c < cells ==>
      Segment(entries, keys, c, if c < done then Sort(CellEntries(keys, c), ids) else CellEntries(keys, c))
  }

  /** The library's sort on a part of the entries. */
  method SortCellEntries(entries: array<Entry>, begin: nat, count: nat, ids: seq<u32>)
    requires begin + count <= entries.Length
    modifies entries
    ensures entries[..]
        == old(entries[..begin]) + Sort(old(entries[begin..begin + count]), ids) + old(entries[begin + count..])
  {
    hide Sort;
    var sorted := Sort(entries[begin..begin + count], ids);
    SortPermutes(entries[begin..begin + count], ids);
    ghost var was := entries[..];
    ghost var all := was[..begin] + sorted + was[begin + count..];
    for i := 0 to count
      invariant forall k :: 0 <= k < entries.Length && k < begin + i ==> entries[k] == all[k]
      invariant forall k :: begin + i <= k < entries.Length ==> entries[k] == was[k]
    {
      entries[begin + i] := sorted[i];
    }
    assert forall k :: begin + count <= k < entries.Length ==> all[k] == was[k];
    assert entries[..] == all;
  }

  /** Replacing one cell's part by as many entries leaves the other cells' parts alone. */
  lemma OthersKept(entries: seq<Entry>, keys: seq<nat>, cell: nat, replacement: seq<Entry>, c: nat, part: seq<Entry>)
    requires c != cell && Segment(entries, keys, c, part) && |part| == |CellEntries(keys, c)|
    requires Below(keys, cell) + |replacement| == Below(keys, cell + 1) <= |entries|
    ensures Segment(entries[..Below(keys, cell)] + replacement + entries[Below(keys, cell + 1)..], keys, c, part)
  {
    hide CellEntries;
    var begin, end := Below(keys, cell), Below(keys, cell + 1);
    var at := Below(keys, c);
    BelowNext(keys, c);
    if c < cell {
      BelowMonotone(keys, c + 1, cell);
    } else {
      BelowMonotone(keys, cell + 1, c);
    }
    hide Below;
    var replaced := entries[..begin] + replacement + entries[end..];
    assert |replaced| == |entries|;
    forall k | at <= k < at + |part|
      ensures replaced[k] == entries[k]
    {
    }
    assert replaced[at..at + |part|] == entries[at..at + |part|];
  }

  lemma OneReplaced(entries: seq<Entry>, keys: seq<nat>, cell: nat, replacement: seq<Entry>)
    requires Below(keys, cell) + |replacement| == Below(keys, cell + 1) <= |entries|
    ensures Segment(entries[..Below(keys, cell)] + replacement + entries[Below(keys, cell + 1)..], keys, cell,
        replacement)
  {
  }

  lemma SortStep(entries: seq<Entry>, keys: seq<nat>, ids: seq<u32>, cells: nat, cell: nat)
    requires cell < cells && SortedUpTo(entries, keys, ids, cells, cell)
    ensures var begin, end := Below(keys, cell), Below(keys, cell + 1);
      begin <= end <= |entries| && entries[begin..end] == CellEntries(keys, cell)
      && SortedUpTo(entries[..begin] + Sort(entries[begin..end], ids) + entries[end..], keys, ids, cells, cell + 1)
  {
    BelowNext(keys, cell);
    assert Segment(entries, keys, cell, CellEntries(keys, cell));
    hide Sort, CellEntries, Below, Segment;
    var begin, end := Below(keys, cell), Below(keys, cell + 1);
    var sorted := Sort(CellEntries(keys, cell), ids);
    SegmentPart(entries, keys, cell, CellEntries(keys, cell));
    SortPermutes(CellEntries(keys, cell), ids);
    OneReplaced(entries, keys, cell, sorted);
    forall c | 0 <= c < cells
      ensures Segment(entries[..begin] + sorted + entries[end..], keys, c,
                      if c < cell + 1 then Sort(CellEntries(keys, c), ids) else CellEntries(keys, c))
    {
      if c != cell {
        SortPermutes(CellEntries(keys, c), ids);
        OthersKept(entries, keys, cell, sorted, c,
                   if c < cell then Sort(CellEntries(keys, c), ids) else CellEntries(keys, c));
      }
    }
  }

  lemma SegmentPart(entries: seq<Entry>, keys: seq<nat>, cell: nat, part: seq<Entry>)
    requires Segment(entries, keys, cell, part)
    ensures Below(keys, cell) + |part| <= |entries|
    ensures entries[Below(keys, cell)..Below(keys, cell) + |part|] == part
    ensures entries[..Below(keys, cell) + |part|] == entries[..Below(keys, cell)] + part
  {
  }

  method OrderBoundedCellEntries(entries: array<Entry>, offsets: array<nat>, counts: array<nat>, ids: seq<u32>,
                                 ghost keys: seq<nat>)
    requires offsets.Length == counts.Length + 1
    requires Counted(counts[..], keys) && Offsets(offsets[..], keys, counts.Length + 1)
    requires ids == [] || |ids| == |keys|
    requires SortedUpTo(entries[..], keys, ids, counts.Length, 0)
    modifies entries
    ensures SortedUpTo(entries[..], keys, ids, counts.Length, counts.Length)
  {
    hide SortedUpTo, Sort, CellEntries, Below, AscendingIds;
    if ids == [] || AscendingIds(ids) {
      NothingToSort(entries[..], keys, ids, counts.Length);
      return;
    }
    for cell := 0 to counts.Length
      invariant SortedUpTo(entries[..], keys, ids, counts.Length, cell)
    {
      assert counts[cell] == counts[..][cell] && offsets[cell] == offsets[..][cell];
      SortStep(entries[..], keys, ids, counts.Length, cell);
      BelowNext(keys, cell);
      SortCellEntries(entries, offsets[cell], counts[cell], ids);
    }
  }

  lemma BelowNext(keys: seq<nat>, cell: nat)
    ensures Below(keys, cell + 1) == Below(keys, cell) + |CellEntries(keys, cell)|
  {
  }

  lemma NothingToSort(entries: seq<Entry>, keys: seq<nat>, ids: seq<u32>, cells: nat)
    requires ids == [] || (|ids| == |keys| && AscendingIds(ids))
    requires SortedUpTo(entries, keys, ids, cells, 0)
    ensures SortedUpTo(entries, keys, ids, cells, cells)
  {
    hide Sort, CellEntries, Below;
    forall c | 0 <= c < cells
      ensures Sort(CellEntries(keys, c), ids) == CellEntries(keys, c)
    {
      SortIsSkippable(keys, ids, c);
    }
  }

  lemma FilledIsUnsorted(entries: seq<Entry>, keys: seq<nat>, ids: seq<u32>, cells: nat)
    requires Filled(entries, keys, cells, |keys|)
    ensures SortedUpTo(entries, keys, ids, cells, 0)
  {
    hide CellEntries, Below, Sort;
    assert keys[..|keys|] == keys;
  }

  /** Cell parts in their places are the dense order. */
  lemma {:induction false} SegmentsAreDense(entries: seq<Entry>, keys: seq<nat>, ids: seq<u32>, cells: nat, upTo: nat)
    requires upTo <= cells && SortedUpTo(entries, keys, ids, cells, cells)
    ensures Below(keys, upTo) <= |entries| && entries[..Below(keys, upTo)] == Dense(keys, ids, upTo)
  {
    hide CellEntries, Sort, Segment;
    if upTo > 0 {
      SegmentsAreDense(entries, keys, ids, cells, upTo - 1);
      var cell := upTo - 1;
      assert Segment(entries, keys, cell, Sort(CellEntries(keys, cell), ids));
      SortPermutes(CellEntries(keys, cell), ids);
      SegmentPart(entries, keys, cell, Sort(CellEntries(keys, cell), ids));
    }
  }

  // ---------------------------------------------------------------- compaction

  lemma MaxCountAppend(ranges: seq<Range>, range: Range)
    ensures MaxCount(ranges + [range]) == if MaxCount(ranges) < range.count then range.count else MaxCount(ranges)
  {
    assert (ranges + [range])[..|ranges|] == ranges;
  }

  method CompactBoundedCellEntries(counts: array<nat>, offsets: array<nat>, positionCount: nat, ghost keys: seq<nat>)
    returns (occupied: seq<Range>, stats: Stats)
    requires offsets.Length == counts.Length + 1
    requires Counted(counts[..], keys) && Offsets(offsets[..], keys, counts.Length + 1)
    ensures occupied == Occupied(keys, counts.Length) && stats == StatsOf(positionCount, occupied)
  {
    hide CellEntries, Below, MaxCount;
    occupied := [];
    var maxCellOccupancy := 0;
    MaxOfNone();
    for cell := 0 to counts.Length
      invariant occupied == Occupied(keys, cell) && maxCellOccupancy == MaxCount(occupied)
    {
      assert counts[cell] == counts[..][cell] && offsets[cell] == offsets[..][cell];
      var count := counts[cell];
      if count != 0 {
        MaxCountAppend(occupied, Range(cell, offsets[cell], count));
        occupied := occupied + [Range(cell, offsets[cell], count)];
        if maxCellOccupancy < count {
          maxCellOccupancy := count;
        }
      } else {
        assert occupied + [] == occupied;
      }
    }
    stats := Stats(positionCount, |occupied|, maxCellOccupancy,
                   if occupied == [] then 0.0 else positionCount as real / |occupied| as real);
  }

  lemma MaxOfNone()
    ensures MaxCount([]) == 0
  {
  }

  /** The occupied ranges of sorted entries; equal neighbours are refused. */
  method CompactCellEntries(entries: seq<Entry>) returns (unique: bool, occupied: seq<Range>, stats: Stats)
    ensures unique <==> !AdjacentRepeat(entries)
    ensures unique ==> occupied == Runs(entries, 0) && stats == StatsOf(|entries|, occupied)
  {
    hide MaxCount, RunLength, Runs;
    occupied := [];
    var maxCellOccupancy, begin := 0, 0;
    MaxOfNone();
    assert entries[0..] == entries;
    assert [] + Runs(entries, 0) == Runs(entries, 0);
    while begin < |entries|
      invariant begin <= |entries|
      invariant occupied + Runs(entries[begin..], begin) == Runs(entries, 0)
      invariant maxCellOccupancy == MaxCount(occupied)
      invariant forall i :: 0 < i < begin ==> entries[i - 1] != entries[i]
      invariant 0 < begin < |entries| ==> entries[begin - 1].key != entries[begin].key
    {
      var key := entries[begin].key;
      RunStart(entries, begin);
      var end := begin + 1;
      while end < |entries| && entries[end].key == key
        invariant begin < end <= |entries|
        invariant RunLength(entries[begin..], key) == end - begin + RunLength(entries[end..], key)
        invariant forall i :: begin <= i < end ==> entries[i].key == key
        invariant forall i :: 0 < i < end ==> entries[i - 1] != entries[i]
      {
        if entries[end - 1].source == entries[end].source {
          assert entries[end - 1] == entries[end];
          return false, [], Stats(0, 0, 0, 0.0);
        }
        RunStart(entries, end);
        end := end + 1;
      }
      RunEnd(entries, end, key);
      var count := end - begin;
      RunsUnfold(entries[begin..], begin);
      assert entries[begin..][count..] == entries[end..];
      MaxCountAppend(occupied, Range(key, begin, count));
      assert occupied + ([Range(key, begin, count)] + Runs(entries[end..], end))
          == occupied + [Range(key, begin, count)] + Runs(entries[end..], end);
      occupied := occupied + [Range(key, begin, count)];
      if maxCellOccupancy < count {
        maxCellOccupancy := count;
      }
      begin := end;
    }
    RunsUnfold(entries[begin..], begin);
    assert occupied + [] == occupied;
    unique := true;
    stats := Stats(|entries|, |occupied|, maxCellOccupancy,
                   if occupied == [] then 0.0 else |entries| as real / |occupied| as real);
  }

  lemma RunStart(entries: seq<Entry>, at: nat)
    requires at < |entries|
    ensures RunLength(entries[at..], entries[at].key) == 1 + RunLength(entries[at + 1..], entries[at].key)
  {
    assert entries[at..][0] == entries[at] && entries[at..][1..] == entries[at + 1..];
  }

  lemma RunEnd(entries: seq<Entry>, at: nat, key: nat)
    requires at <= |entries| && (at < |entries| ==> entries[at].key != key)
    ensures RunLength(entries[at..], key) == 0
  {
  }

  // ---------------------------------------------------------------- the grid

  /** What a serial build must produce, whichever path it takes. */
  function SerialIndex(g: Grid, positions: seq<Vec>, ids: seq<u32>): Index
    requires Ready(g)
  {
    IndexOf(Sort(All(Keys(g, positions)), ids))
  }

  /** Entries that hold every position once under its cell's key, by key, id and source. */
  ghost predicate ListsEntries(g: Grid, positions: seq<Vec>, ids: seq<u32>, entries: seq<Entry>)
    requires Ready(g) && (ids == [] || |ids| == |positions|)
  {
    && |entries| == |positions|
    && (forall e :: e in entries ==> e.source < |positions| && e.key == KeyFor(g, positions[e.source]))
    && (forall s :: 0 <= s < |positions| ==> Entry(KeyFor(g, positions[s]), s) in entries)
    && (forall i, j :: 0 <= i < j < |entries| ==>
          var a, b := entries[i], entries[j];
          && a.source != b.source && a.key <= b.key
          && (a.key == b.key && ids == [] ==> a.source < b.source)
          && (a.key == b.key && ids != [] ==>
                && a.source < |ids| && b.source < |ids|
                && (ids[a.source] < ids[b.source] || (ids[a.source] == ids[b.source] && a.source < b.source))))
  }

  /** Ranges that hold exactly the entries of their keys, one for every key there is. */
  ghost predicate ListsRanges(entries: seq<Entry>, occupied: seq<Range>) {
    && (forall range :: range in occupied ==> HoldsKey(range, entries, 0))
    && (forall e :: e in entries ==> exists range :: range in occupied && range.key == e.key)
  }

  /** The figures of that many entries in those ranges. */
  ghost predicate Tells(stats: Stats, count: nat, occupied: seq<Range>) {
    && stats.entityCount == count && stats.occupiedCellCount == |occupied|
    && (forall range :: range in occupied ==> range.count <= stats.maxCellOccupancy)
    && (occupied == [] ==> stats.maxCellOccupancy == 0 && stats.averageLoad == 0.0)
    && (occupied != [] ==>
          && (exists range :: range in occupied && range.count == stats.maxCellOccupancy)
          && stats.averageLoad * stats.occupiedCellCount as real == count as real)
  }

  ghost predicate Lists(g: Grid, positions: seq<Vec>, ids: seq<u32>, index: Index)
    requires Ready(g) && (ids == [] || |ids| == |positions|)
  {
    && ListsEntries(g, positions, ids, index.entries)
    && ListsRanges(index.entries, index.occupied)
    && Tells(index.stats, |positions|, index.occupied)
  }

  lemma EntriesExactly(g: Grid, positions: seq<Vec>, ids: seq<u32>)
    requires Ready(g) && (ids == [] || |ids| == |positions|)
    ensures ListsEntries(g, positions, ids, Sort(All(Keys(g, positions)), ids))
  {
    hide Ready, KeyFor, Sort, All;
    SortedExactly(Keys(g, positions), ids);
  }

  lemma RangesExactly(g: Grid, positions: seq<Vec>, ids: seq<u32>, entries: seq<Entry>)
    requires Ready(g) && (ids == [] || |ids| == |positions|) && ListsEntries(g, positions, ids, entries)
    ensures ListsRanges(entries, Runs(entries, 0))
  {
    hide Ready, KeyFor, Runs, HoldsKey;
    RunsExactly(entries, 0);
    forall e | e in entries
      ensures exists range :: range in Runs(entries, 0) && range.key == e.key
    {
      var i :| 0 <= i < |entries| && entries[i] == e;
    }
  }

  /** What a serial build ends with, whichever path it takes. */
  lemma SerialExactly(g: Grid, positions: seq<Vec>, ids: seq<u32>)
    requires Ready(g) && (ids == [] || |ids| == |positions|)
    ensures Lists(g, positions, ids, SerialIndex(g, positions, ids))
  {
    hide Ready, Keys, Sort, All, Runs, StatsOf, ListsRanges, ListsEntries;
    var entries := Sort(All(Keys(g, positions)), ids);
    EntriesExactly(g, positions, ids);
    RangesExactly(g, positions, ids, entries);
    StatsExactly(|entries|, Runs(entries, 0));
    assert |entries| == |positions| by {
      SortPermutes(All(Keys(g, positions)), ids);
    }
  }

  class SpatialGrid {
    const geometry: Grid
    var entries: seq<Entry>
    var occupiedCells: seq<Range>
    var stats: Stats

    ghost predicate Holds(index: Index)
      reads this
    {
      entries == index.entries && occupiedCells == index.occupied && stats == index.stats
    }

    constructor (geometry: Grid)
      ensures this.geometry == geometry && Holds(Index([], [], Stats(0, 0, 0, 0.0)))
    {
      this.geometry := geometry;
      entries, occupiedCells, stats := [], [], Stats(0, 0, 0, 0.0);
    }

    method CommitSpatialGrid(newEntries: seq<Entry>, newCells: seq<Range>, newStats: Stats)
      modifies this
      ensures Holds(Index(newEntries, newCells, newStats))
    {
      entries, occupiedCells, stats := newEntries, newCells, newStats;
    }

    /** The counting sort. */
    method BuildBoundedKey(positions: seq<Vec>, ids: seq<u32>)
      requires Ready(geometry) && (ids == [] || |ids| == |positions|)
      modifies this
      ensures Holds(SerialIndex(geometry, positions, ids))
    {
      hide Ready, Counted, Offsets, Filled, SortedUpTo, Below, CellEntries, Sort, Keys, All, IndexOf;
      var cells := CellCount(geometry);
      var keys := new nat[|positions|];
      var counts := new nat[cells](_ => 0);
      var offsets := new nat[cells + 1];
      CountBoundedCellEntries(geometry, positions, keys, counts);
      ghost var all := keys[..];
      KeysAreCells(geometry, positions);
      BuildDenseCellOffsets(counts, offsets, all);
      var writeOffsets := new nat[cells](i requires 0 <= i < cells reads offsets => offsets[i]);
      var filling := new Entry[|positions|](_ => Entry(0, 0));
      NothingWritten(writeOffsets[..], offsets[..], all);
      FillBoundedCellEntries(keys, writeOffsets, filling);
      FilledIsUnsorted(filling[..], all, ids, cells);
      OrderBoundedCellEntries(filling, offsets, counts, ids, all);
      var occupied, newStats := CompactBoundedCellEntries(counts, offsets, |positions|, all);
      SegmentsAreDense(filling[..], all, ids, cells, cells);
      BelowAll(all, cells);
      BuildsAgree(all, ids, cells);
      CommitSpatialGrid(filling[..], occupied, newStats);
    }

    /** One sort of everything by key, id and source. */
    method BuildComparisonSort(positions: seq<Vec>, ids: seq<u32>)
      requires Ready(geometry)
      modifies this
      ensures Holds(SerialIndex(geometry, positions, ids))
    {
      hide Ready, KeyFor, Sort, Runs;
      ghost var keys := Keys(geometry, positions);
      var appended: seq<Entry> := [];
      for index := 0 to |positions|
        invariant appended == All(keys[..index])
      {
        assert keys[..index + 1][..index] == keys[..index];
        appended := appended + [Entry(KeyFor(geometry, positions[index]), index)];
      }
      assert keys[..|positions|] == keys;
      var sorted := Sort(appended, ids);
      var unique, occupied, newStats := CompactCellEntries(sorted);
      AllDistinct(keys);
      SortKeepsRepeats(appended, ids);
      SortWeakly(appended, ids);
      RepeatsAreAdjacent(sorted, ids);
      CommitSpatialGrid(sorted, occupied, newStats);
    }

    /** `idsRequired` tells the overload that takes ids; it refuses a list of another length. */
    method BuildSpatialGridSerial(positions: seq<Vec>, ids: seq<u32>, idsRequired: bool) returns (built: bool)
      requires Ready(geometry) && (!idsRequired ==> ids == [])
      modifies this
      ensures built <==> |positions| <= U32_MAX && (idsRequired ==> |ids| == |positions|)
      ensures built ==> Holds(SerialIndex(geometry, positions, ids))
      ensures built ==>
        (ids == [] || |ids| == |positions|) && Lists(geometry, positions, ids, Index(entries, occupiedCells, stats))
      ensures built ==>
        && |entries| == |positions|
        && (forall e :: e in entries ==> e.source < |positions| && e.key == KeyFor(geometry, positions[e.source]))
        && (forall i, j :: 0 <= i < j < |entries| ==>
              entries[i].source != entries[j].source && entries[i].key <= entries[j].key)
        && (forall i, j :: 0 <= i < j < |entries| && entries[i].key == entries[j].key ==>
              var a, b := entries[i].source, entries[j].source;
              if ids == [] then a < b
              else a < |ids| && b < |ids| && (ids[a] < ids[b] || (ids[a] == ids[b] && a < b)))
      ensures !built ==> unchanged(this)
    {
      hide SerialIndex, Ready, ListsRanges, Tells, KeyFor;
      if |positions| > U32_MAX || (idsRequired && |ids| != |positions|) {
        return false;
      }
      if CellCount(geometry) > MAX_DENSE_BUILD_CELLS {
        BuildComparisonSort(positions, ids);
      } else {
        BuildBoundedKey(positions, ids);
      }
      SerialExactly(geometry, positions, ids);
      built := true;
    }

    /** One worker's part; workers may run in any order. */
    method BuildSpatialGridWorkerEntries(positions: seq<Vec>, span: Span) returns (part: seq<Entry>)
      requires Ready(geometry) && span.begin <= span.end <= |positions|
      ensures part == WorkerEntries(Keys(geometry, positions), span)
    {
      part := [];
      for index := span.begin to span.end
        invariant part == WorkerEntries(Keys(geometry, positions), Span(span.begin, index))
      {
        part := part + [Entry(KeyFor(geometry, positions[index]), index)];
      }
    }

    /** Merges the workers' parts; ranges that share a source are refused and change nothing. Source indices
        are 32 bits wide, so no other refusal is possible then. */
    method FinishSpatialGridBuild(ghost positions: seq<Vec>, ghost spans: seq<Span>, parts: seq<seq<Entry>>)
      returns (built: bool)
      requires Ready(geometry) && ValidSpans(spans, |positions|) && |parts| == |spans|
      requires forall i :: 0 <= i < |parts| ==> parts[i] == WorkerEntries(Keys(geometry, positions), spans[i])
      modifies this
      ensures var merged := MergedEntries(Keys(geometry, positions), spans);
        && (built <==> |merged| <= U32_MAX && Disjoint(spans))
        && (|positions| <= U32_MAX ==> (built <==> Disjoint(spans)))
        && (built ==> Holds(IndexOf(Sort(merged, []))))
        && (built && (forall i :: 0 <= i < |positions| ==> Covers(spans, i)) ==>
              && Holds(SerialIndex(geometry, positions, []))
              && Lists(geometry, positions, [], Index(entries, occupiedCells, stats)))
      ensures !built ==> unchanged(this)
    {
      hide Ready, Keys, Sort, Runs, Disjoint, WorkerEntries, Covers, All, AdjacentRepeat, Lists;
      SerialExactly(geometry, positions, []);
      ghost var keys := Keys(geometry, positions);
      if Disjoint(spans) {
        DisjointFits(keys, spans);
      }
      var merged := MergeWorkerEntries(keys, spans, parts);
      if |merged| > U32_MAX {
        return false;
      }
      var sorted := Sort(merged, []);
      OverlapsAreDetected(keys, spans);
      var unique := ValidateUniqueWorkerEntries(sorted);
      if !unique {
        return false;
      }
      var compacted, occupied, newStats := CompactCellEntries(sorted);
      if forall i :: 0 <= i < |positions| ==> Covers(spans, i) {
        WorkersAgree(keys, spans);
      }
      CommitSpatialGrid(sorted, occupied, newStats);
      built := true;
    }

    static method MergeWorkerEntries(ghost keys: seq<nat>, ghost spans: seq<Span>, parts: seq<seq<Entry>>)
      returns (merged: seq<Entry>)
      requires ValidSpans(spans, |keys|) && |parts| == |spans|
      requires forall i :: 0 <= i < |parts| ==> parts[i] == WorkerEntries(keys, spans[i])
      ensures merged == MergedEntries(keys, spans)
    {
      merged := [];
      for i := 0 to |parts|
        invariant merged == MergedEntries(keys, spans[..i])
      {
        assert spans[..i + 1][..i] == spans[..i];
        merged := merged + parts[i];
      }
      assert spans[..|parts|] == spans;
    }

    static method ValidateUniqueWorkerEntries(sorted: seq<Entry>) returns (unique: bool)
      ensures unique <==> !AdjacentRepeat(sorted)
    {
      if sorted == [] {
        return true;
      }
      for index := 1 to |sorted|
        invariant forall i :: 0 < i < index ==> sorted[i - 1] != sorted[i]
      {
        if sorted[index - 1].key == sorted[index].key && sorted[index - 1].source == sorted[index].source {
          assert sorted[index - 1] == sorted[index];
          return false;
        }
      }
      unique := true;
    }
  }

  lemma NothingWritten(writeOffsets: seq<nat>, offsets: seq<nat>, keys: seq<nat>)
    requires Offsets(offsets, keys, |offsets|) && |offsets| == |writeOffsets| + 1
    requires forall i :: 0 <= i < |writeOffsets| ==> writeOffsets[i] == offsets[i]
    ensures WriteOffsets(writeOffsets, keys, 0)
  {
  }
}
