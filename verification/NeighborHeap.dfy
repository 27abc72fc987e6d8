/** Selection of the nearest neighbours: a bounded heap whose front is the worst of those kept, fed in
    whatever order the grid is traversed, then sorted.

    Models `keep_neighbor` and the neighbour query of src/game_server/src/game_server.cpp. Distances
    are reals. */
module NeighborHeap {
  import opened Bytes

  datatype Neighbor = Neighbor(row: nat, id: u32, distanceSquared: real)

  predicate Better(a: Neighbor, b: Neighbor) {
    if a.distanceSquared != b.distanceSquared then a.distanceSquared < b.distanceSquared else a.id < b.id
  }

  // ---------------------------------------------------------------- the reference order

  function Insert(c: Neighbor, sorted: seq<Neighbor>): seq<Neighbor> {
    if sorted == [] || !Better(sorted[0], c) then [c] + sorted else [sorted[0]] + Insert(c, sorted[1..])
  }

  function Sort(candidates: seq<Neighbor>): seq<Neighbor> {
    if candidates == [] then []
    else Insert(candidates[|candidates| - 1], Sort(candidates[..|candidates| - 1]))
  }

  /** The best `maximum` candidates, best first. */
  function Best(maximum: nat, candidates: seq<Neighbor>): seq<Neighbor> {
    var sorted := Sort(candidates);
    if |sorted| <= maximum then sorted else sorted[..maximum]
  }

  ghost predicate Ordered(s: seq<Neighbor>) {
    s != [] ==> (forall x :: x in s[1..] ==> Better(s[0], x)) && Ordered(s[1..])
  }

  ghost predicate DistinctIds(candidates: seq<Neighbor>) {
    forall i, j :: 0 <= i < j < |candidates| ==> candidates[i].id != candidates[j].id
  }

  lemma {:induction false} InsertPermutes(c: Neighbor, sorted: seq<Neighbor>)
    ensures multiset(Insert(c, sorted)) == multiset(sorted) + multiset{c}
    ensures |Insert(c, sorted)| == |sorted| + 1
  {
    if sorted != [] && Better(sorted[0], c) {
      InsertPermutes(c, sorted[1..]);
      assert sorted == [sorted[0]] + sorted[1..];
    }
  }

  lemma {:induction false} SortPermutes(candidates: seq<Neighbor>)
    ensures multiset(Sort(candidates)) == multiset(candidates)
    ensures |Sort(candidates)| == |candidates|
  {
    if candidates != [] {
      var last := |candidates| - 1;
      SortPermutes(candidates[..last]);
      InsertPermutes(candidates[last], Sort(candidates[..last]));
      assert candidates == candidates[..last] + [candidates[last]];
    }
  }

  lemma InsertMember(c: Neighbor, sorted: seq<Neighbor>, x: Neighbor)
    ensures x in Insert(c, sorted) <==> x == c || x in sorted
  {
    InsertPermutes(c, sorted);
    assert x in Insert(c, sorted) <==> x in multiset(Insert(c, sorted));
    assert x in sorted <==> x in multiset(sorted);
  }

  lemma SortMember(candidates: seq<Neighbor>, x: Neighbor)
    ensures x in Sort(candidates) <==> x in candidates
  {
    SortPermutes(candidates);
    assert x in Sort(candidates) <==> x in multiset(Sort(candidates));
    assert x in candidates <==> x in multiset(candidates);
  }

  lemma HeadOrTail(s: seq<Neighbor>, x: Neighbor)
    requires x in s
    ensures x == s[0] || x in s[1..]
  {
  }

  lemma {:induction false} InsertOrdered(c: Neighbor, sorted: seq<Neighbor>)
    requires Ordered(sorted) && forall x :: x in sorted ==> x.id != c.id
    ensures Ordered(Insert(c, sorted))
  {
    if sorted == [] || !Better(sorted[0], c) {
      assert ([c] + sorted)[1..] == sorted;
      forall x | x in sorted
        ensures Better(c, x)
      {
        assert sorted[0] in sorted;
        HeadOrTail(sorted, x);
      }
    } else {
      InsertOrdered(c, sorted[1..]);
      var rest := Insert(c, sorted[1..]);
      assert ([sorted[0]] + rest)[1..] == rest;
      forall x | x in rest
        ensures Better(sorted[0], x)
      {
        InsertMember(c, sorted[1..], x);
      }
    }
  }

  lemma {:induction false} SortOrdered(candidates: seq<Neighbor>)
    requires DistinctIds(candidates)
    ensures Ordered(Sort(candidates))
  {
    if candidates != [] {
      var last := |candidates| - 1;
      SortOrdered(candidates[..last]);
      forall x | x in Sort(candidates[..last])
        ensures x.id != candidates[last].id
      {
        SortMember(candidates[..last], x);
      }
      InsertOrdered(candidates[last], Sort(candidates[..last]));
    }
  }

  lemma HasElement(s: seq<Neighbor>)
    requires s != []
    ensures exists x :: x in s
  {
    assert s[0] in s;
  }

  lemma {:induction false} OrderedDetermines(a: seq<Neighbor>, b: seq<Neighbor>)
    requires Ordered(a) && Ordered(b) && forall x :: x in a <==> x in b
    ensures a == b
  {
    if a != [] && b != [] {
      assert a[0] in a && b[0] in b;
      HeadOrTail(a, b[0]);
      HeadOrTail(b, a[0]);
      assert a[0] == b[0];
      forall x
        ensures x in a[1..] <==> x in b[1..]
      {
        assert x in a <==> x == a[0] || x in a[1..];
        assert x in b <==> x == b[0] || x in b[1..];
      }
      OrderedDetermines(a[1..], b[1..]);
    } else if a != [] {
      HasElement(a);
    } else if b != [] {
      HasElement(b);
    }
  }

  lemma {:induction false} OrderedTake(s: seq<Neighbor>, n: nat)
    requires Ordered(s) && n <= |s|
    ensures Ordered(s[..n])
    ensures 0 < n ==> forall x :: x in s[..n] ==> x == s[n - 1] || Better(x, s[n - 1])
  {
    if n > 0 {
      OrderedTake(s[1..], n - 1);
      assert s[..n][1..] == s[1..][..n - 1];
      assert forall x :: x in s[1..][..n - 1] ==> x in s[1..];
      if n > 1 {
        assert s[1..][n - 2] == s[n - 1];
        assert s[n - 1] in s[1..];
      }
      forall x | x in s[..n]
        ensures x == s[n - 1] || Better(x, s[n - 1])
      {
        HeadOrTail(s[..n], x);
      }
    }
  }

  /** The comparison is a strict order, and total on different ids. */
  lemma BetterOrders()
    ensures forall a, b :: Better(a, b) ==> !Better(b, a)
    ensures forall a, b, c :: Better(a, b) && Better(b, c) ==> Better(a, c)
    ensures forall a: Neighbor, b: Neighbor :: a.id != b.id ==> Better(a, b) || Better(b, a)
  {
  }

  /** A newcomer displaces the last of the best exactly when it is better. */
  lemma {:induction false} TakeInsert(c: Neighbor, sorted: seq<Neighbor>, n: nat)
    requires Ordered(sorted) && 0 < n <= |sorted| && forall x :: x in sorted ==> x.id != c.id
    ensures |Insert(c, sorted)| == |sorted| + 1
    ensures Insert(c, sorted)[..n] == if Better(c, sorted[n - 1]) then Insert(c, sorted[..n - 1]) else sorted[..n]
  {
    hide Better;
    BetterOrders();
    InsertPermutes(c, sorted);
    assert sorted[n - 1] in sorted;
    if Better(sorted[0], c) {
      if n == 1 {
        assert Insert(c, sorted)[..1] == [sorted[0]];
      } else {
        TakeInsert(c, sorted[1..], n - 1);
        assert Insert(c, sorted)[..n] == [sorted[0]] + Insert(c, sorted[1..])[..n - 1];
        assert sorted[..n - 1][1..] == sorted[1..][..n - 2];
        assert sorted[..n] == [sorted[0]] + sorted[1..][..n - 1];
      }
    } else {
      assert sorted[0] in sorted;
      if n > 1 {
        assert sorted[n - 1] in sorted[1..];
      }
      assert Insert(c, sorted)[..n] == [c] + sorted[..n - 1];
    }
  }

  /** The order in which candidates are visited does not matter. */
  lemma OrderIndependent(maximum: nat, a: seq<Neighbor>, b: seq<Neighbor>)
    requires DistinctIds(a) && DistinctIds(b) && multiset(a) == multiset(b)
    ensures Best(maximum, a) == Best(maximum, b)
  {
    SortOrdered(a);
    SortOrdered(b);
    forall x
      ensures x in Sort(a) <==> x in Sort(b)
    {
      SortMember(a, x);
      SortMember(b, x);
      assert x in a <==> x in multiset(a);
      assert x in b <==> x in multiset(b);
    }
    OrderedDetermines(Sort(a), Sort(b));
  }

  // ---------------------------------------------------------------- which are the best

  lemma {:induction false} OrderedPairs(s: seq<Neighbor>, i: nat, j: nat)
    requires Ordered(s) && i < j < |s|
    ensures Better(s[i], s[j])
  {
    hide Better;
    if i == 0 {
      assert s[j] in s[1..];
    } else {
      OrderedPairs(s[1..], i - 1, j - 1);
    }
  }

  lemma BestInOrder(maximum: nat, candidates: seq<Neighbor>)
    requires DistinctIds(candidates)
    ensures var best := Best(maximum, candidates);
      && |best| == (if maximum < |candidates| then maximum else |candidates|)
      && (forall x :: x in best ==> x in candidates)
      && (forall i, j :: 0 <= i < j < |best| ==> Better(best[i], best[j]))
      && (forall x, y :: x in best && y in candidates && y !in best ==> Better(x, y))
  {
    hide Better, Sort, Ordered;
    var sorted, best := Sort(candidates), Best(maximum, candidates);
    SortPermutes(candidates);
    SortOrdered(candidates);
    forall x | x in sorted
      ensures x in candidates
    {
      SortMember(candidates, x);
    }
    forall i, j | 0 <= i < j < |sorted|
      ensures Better(sorted[i], sorted[j])
    {
      OrderedPairs(sorted, i, j);
    }
    assert forall k :: 0 <= k < |best| ==> sorted[k] == best[k] && best[k] in best;
    forall x, y | x in best && y in candidates && y !in best
      ensures Better(x, y)
    {
      SortMember(candidates, y);
      var i :| 0 <= i < |best| && best[i] == x;
      var j :| 0 <= j < |sorted| && sorted[j] == y;
      assert best[i] == sorted[i];
    }
  }

  /** The best are as many as there are, up to the maximum, nearest first and equally near ones by id, and nearer
      than all that are left out, or as near with a smaller id. */
  lemma BestExactly(maximum: nat, candidates: seq<Neighbor>)
    requires DistinctIds(candidates)
    ensures var best := Best(maximum, candidates);
      && |best| == (if maximum < |candidates| then maximum else |candidates|)
      && (forall x :: x in best ==> x in candidates)
      && (forall i, j :: 0 <= i < j < |best| ==>
            best[i].distanceSquared < best[j].distanceSquared
            || (best[i].distanceSquared == best[j].distanceSquared && best[i].id < best[j].id))
      && (forall x, y :: x in best && y in candidates && y !in best ==>
            x.distanceSquared < y.distanceSquared || (x.distanceSquared == y.distanceSquared && x.id < y.id))
  {
    hide Best, DistinctIds;
    BestInOrder(maximum, candidates);
  }

  // ---------------------------------------------------------------- the heap

  function Parent(i: nat): nat
    requires i > 0
  {
    (i - 1) / 2
  }

  /** No parent is better than its child: the front is the worst. */
  ghost predicate IsHeap(h: seq<Neighbor>) {
    forall i :: 0 < i < |h| ==> !Better(h[Parent(i)], h[i])
  }

  lemma {:induction false} FrontIsWorst(h: seq<Neighbor>, i: nat)
    requires IsHeap(h) && i < |h|
    ensures !Better(h[0], h[i])
  {
    if i > 0 {
      FrontIsWorst(h, Parent(i));
      assert !Better(h[Parent(i)], h[i]);
    }
  }

  function Swapped(h: seq<Neighbor>, i: nat, j: nat): (swapped: seq<Neighbor>)
    requires i < |h| && j < |h|
    ensures |swapped| == |h|
    ensures multiset(swapped) == multiset(h)
  {
    h[i := h[j]][j := h[i]]
  }

  /** A heap but for the element at `i`, which may be worse than its parent. */
  ghost predicate HeapAbove(h: seq<Neighbor>, i: nat) {
    && i < |h|
    && (forall j :: 0 < j < |h| && j != i ==> !Better(h[Parent(j)], h[j]))
    && (i > 0 ==> forall j :: 0 < j < |h| && Parent(j) == i ==> !Better(h[Parent(i)], h[j]))
  }

  lemma SiftUpStep(h: seq<Neighbor>, i: nat)
    requires HeapAbove(h, i) && i > 0 && Better(h[Parent(i)], h[i])
    ensures HeapAbove(Swapped(h, Parent(i), i), Parent(i))
  {
    var p := Parent(i);
    var s := Swapped(h, p, i);
    forall j | 0 < j < |s| && j != p
      ensures !Better(s[Parent(j)], s[j])
    {
      assert j != i ==> !Better(h[Parent(j)], h[j]);
    }
    if p > 0 {
      assert !Better(h[Parent(p)], h[p]);
      forall j | 0 < j < |s| && Parent(j) == p
        ensures !Better(s[Parent(p)], s[j])
      {
        assert j != i ==> !Better(h[Parent(j)], h[j]);
      }
    }
  }

  /** A heap of the first `n` but for the element at `i`, which may be better than its children. */
  ghost predicate HeapBelow(h: seq<Neighbor>, n: nat, i: nat) {
    && n <= |h| && i < n
    && (forall j :: 0 < j < n && Parent(j) != i ==> !Better(h[Parent(j)], h[j]))
    && (i > 0 ==> forall j :: 0 < j < n && Parent(j) == i ==> !Better(h[Parent(i)], h[j]))
  }

  lemma SiftDownStep(h: seq<Neighbor>, n: nat, i: nat, child: nat)
    requires HeapBelow(h, n, i) && 0 < child < n && Parent(child) == i && Better(h[i], h[child])
    requires forall j :: 0 < j < n && Parent(j) == i ==> !Better(h[child], h[j])
    ensures HeapBelow(Swapped(h, i, child), n, child)
  {
    var s := Swapped(h, i, child);
    forall j | 0 < j < n && Parent(j) != child
      ensures !Better(s[Parent(j)], s[j])
    {
      if j == i {
        assert !Better(h[Parent(i)], h[child]);
      } else if Parent(j) != i {
        assert !Better(h[Parent(j)], h[j]);
      }
    }
    forall j | 0 < j < n && Parent(j) == child
      ensures !Better(s[Parent(child)], s[j])
    {
      assert j > child;
      assert !Better(h[Parent(j)], h[j]);
    }
  }

  lemma PopStart(h: seq<Neighbor>)
    requires IsHeap(h) && |h| > 1
    ensures HeapBelow(Swapped(h, 0, |h| - 1), |h| - 1, 0)
  {
  }

  method SiftDown(h: seq<Neighbor>, n: nat) returns (sifted: seq<Neighbor>)
    requires n < |h| && HeapBelow(h, n, 0)
    ensures |sifted| == |h| && multiset(sifted) == multiset(h) && sifted[n..] == h[n..]
    ensures IsHeap(sifted[..n])
  {
    sifted := h;
    var i: nat := 0;
    var child := Worse(sifted, n, i);
    while child != i
      invariant HeapBelow(sifted, n, i) && child == Worse(sifted, n, i)
      invariant |sifted| == |h| && multiset(sifted) == multiset(h) && sifted[n..] == h[n..]
      decreases n - i
    {
      SiftDownStep(sifted, n, i, child);
      sifted := Swapped(sifted, i, child);
      i := child;
      child := Worse(sifted, n, i);
    }
    assert forall j :: 0 < j < n ==> !Better(sifted[Parent(j)], sifted[j]);
    assert forall j :: 0 < j < n ==> sifted[..n][j] == sifted[j] && sifted[..n][Parent(j)] == sifted[Parent(j)];
  }

  class WorkerScratch {
    var neighbors: seq<Neighbor>

    constructor ()
      ensures neighbors == []
    {
      neighbors := [];
    }

    method PushHeap()
      requires neighbors != [] && IsHeap(neighbors[..|neighbors| - 1])
      modifies this
      ensures IsHeap(neighbors) && multiset(neighbors) == multiset(old(neighbors))
      ensures |neighbors| == |old(neighbors)|
    {
      var i: nat := |neighbors| - 1;
      ghost var init := neighbors[..i];
      assert forall j :: 0 < j < i ==> init[j] == neighbors[j] && init[Parent(j)] == neighbors[Parent(j)];
      while i > 0 && Better(neighbors[Parent(i)], neighbors[i])
        invariant HeapAbove(neighbors, i)
        invariant multiset(neighbors) == multiset(old(neighbors)) && |neighbors| == |old(neighbors)|
      {
        SiftUpStep(neighbors, i);
        neighbors := Swapped(neighbors, Parent(i), i);
        i := Parent(i);
      }
    }

    /** The front goes to the back; the rest is a heap again. */
    method PopHeap()
      requires neighbors != [] && IsHeap(neighbors)
      modifies this
      ensures |neighbors| == |old(neighbors)| && multiset(neighbors) == multiset(old(neighbors))
      ensures neighbors[|neighbors| - 1] == old(neighbors)[0]
      ensures IsHeap(neighbors[..|neighbors| - 1])
    {
      var n := |neighbors| - 1;
      if n == 0 {
        return;
      }
      PopStart(neighbors);
      neighbors := Swapped(neighbors, 0, n);
      neighbors := SiftDown(neighbors, n);
    }

    method KeepNeighbor(candidate: Neighbor, maximum: nat)
      requires 0 < maximum && |neighbors| <= maximum && IsHeap(neighbors)
      modifies this
      ensures IsHeap(neighbors)
      ensures multiset(neighbors) ==
        if |old(neighbors)| < maximum then multiset(old(neighbors)) + multiset{candidate}
        else if Better(candidate, old(neighbors)[0])
        then multiset(old(neighbors)) - multiset{old(neighbors)[0]} + multiset{candidate}
        else multiset(old(neighbors))
    {
      if |neighbors| < maximum {
        ghost var before := neighbors;
        neighbors := neighbors + [candidate];
        assert neighbors[..|neighbors| - 1] == before;
        PushHeap();
        return;
      }
      if !Better(candidate, neighbors[0]) {
        return;
      }
      PopHeap();
      ghost var popped := neighbors;
      var last := |neighbors| - 1;
      neighbors := neighbors[last := candidate];
      assert neighbors[..last] == popped[..last];
      assert popped == popped[..last] + [popped[last]];
      assert neighbors == popped[..last] + [candidate];
      PushHeap();
    }

    /** Feeds the candidates in the order they are visited, then sorts what was kept. */
    method SelectNeighbors(candidates: seq<Neighbor>, maximum: nat)
      requires maximum > 0 && DistinctIds(candidates)
      modifies this
      ensures neighbors == Best(maximum, candidates)
      ensures |neighbors| == if maximum < |candidates| then maximum else |candidates|
      ensures forall x :: x in neighbors ==> x in candidates
      ensures forall i, j :: 0 <= i < j < |neighbors| ==>
        neighbors[i].distanceSquared < neighbors[j].distanceSquared
        || (neighbors[i].distanceSquared == neighbors[j].distanceSquared && neighbors[i].id < neighbors[j].id)
      ensures forall x, y :: x in neighbors && y in candidates && y !in neighbors ==>
        x.distanceSquared < y.distanceSquared || (x.distanceSquared == y.distanceSquared && x.id < y.id)
    {
      hide Best, Better, IsHeap, Sort;
      BestExactly(maximum, candidates);
      NothingKept(maximum);
      neighbors := [];
      for i := 0 to |candidates|
        invariant IsHeap(neighbors) && multiset(neighbors) == multiset(Best(maximum, candidates[..i]))
      {
        KeptCount(neighbors, Best(maximum, candidates[..i]));
        SortPermutes(candidates[..i]);
        BestStep(maximum, candidates, i, neighbors);
        KeepNeighbor(candidates[i], maximum);
      }
      assert candidates[..|candidates|] == candidates;
      KeptSorts(maximum, candidates, neighbors);
      neighbors := Sort(neighbors);
    }
  }

  /** The child that an element must give way to, or the element itself. */
  function Worse(h: seq<Neighbor>, n: nat, i: nat): (child: nat)
    requires i < n <= |h|
    ensures child != i ==> 0 < child < n && Parent(child) == i && child > i && Better(h[i], h[child])
    ensures child != i ==> forall j :: 0 < j < n && Parent(j) == i ==> !Better(h[child], h[j])
    ensures child == i ==> forall j :: 0 < j < n && Parent(j) == i ==> !Better(h[i], h[j])
  {
    var left := 2 * i + 1;
    if left >= n then i
    else
      var child := if left + 1 < n && Better(h[left], h[left + 1]) then left + 1 else left;
      assert forall j :: 0 < j < n && Parent(j) == i ==> j == left || j == left + 1;
      if Better(h[i], h[child]) then child else i
  }

  lemma NothingKept(maximum: nat)
    ensures IsHeap([]) && Best(maximum, []) == []
  {
  }

  lemma KeptCount(kept: seq<Neighbor>, best: seq<Neighbor>)
    requires multiset(kept) == multiset(best)
    ensures |kept| == |best| && forall x :: x in kept <==> x in best
  {
    assert |multiset(kept)| == |kept| && |multiset(best)| == |best|;
    forall x
      ensures x in kept <==> x in best
    {
      assert x in kept <==> x in multiset(kept);
      assert x in best <==> x in multiset(best);
    }
  }

  function Take(maximum: nat, sorted: seq<Neighbor>): seq<Neighbor> {
    if |sorted| <= maximum then sorted else sorted[..maximum]
  }

  lemma TakeNext(maximum: nat, sorted: seq<Neighbor>, c: Neighbor)
    requires maximum > 0 && Ordered(sorted) && forall x :: x in sorted ==> x.id != c.id
    ensures multiset(Take(maximum, Insert(c, sorted))) ==
      if |sorted| < maximum then multiset(sorted) + multiset{c}
      else if Better(c, sorted[maximum - 1])
      then multiset(sorted[..maximum]) - multiset{sorted[maximum - 1]} + multiset{c}
      else multiset(sorted[..maximum])
  {
    hide Insert, Ordered;
    InsertPermutes(c, sorted);
    if |sorted| >= maximum {
      TakeInsert(c, sorted, maximum);
      InsertPermutes(c, sorted[..maximum - 1]);
      assert sorted[..maximum] == sorted[..maximum - 1] + [sorted[maximum - 1]];
    }
  }

  /** One more candidate changes the best as the heap step does. */
  lemma BestStep(maximum: nat, candidates: seq<Neighbor>, i: nat, kept: seq<Neighbor>)
    requires maximum > 0 && DistinctIds(candidates) && i < |candidates| && IsHeap(kept)
    requires multiset(kept) == multiset(Best(maximum, candidates[..i]))
    ensures |kept| <= maximum
    ensures multiset(Best(maximum, candidates[..i + 1])) ==
      if |kept| < maximum then multiset(kept) + multiset{candidates[i]}
      else if Better(candidates[i], kept[0]) then multiset(kept) - multiset{kept[0]} + multiset{candidates[i]}
      else multiset(kept)
  {
    var before, c := candidates[..i], candidates[i];
    var sorted, best := Sort(before), Best(maximum, before);
    assert candidates[..i + 1][..i] == before;
    assert Best(maximum, candidates[..i + 1]) == Take(maximum, Insert(c, sorted));
    hide Sort, Insert, Ordered, IsHeap;
    SortOrdered(before);
    KeptCount(kept, best);
    forall x | x in sorted
      ensures x.id != c.id
    {
      SortMember(before, x);
    }
    TakeNext(maximum, sorted, c);
    if |sorted| >= maximum {
      assert best == sorted[..maximum];
      WorstIsLast(kept, sorted, maximum);
    }
  }

  lemma WorstIsLast(kept: seq<Neighbor>, sorted: seq<Neighbor>, n: nat)
    requires 0 < n <= |sorted| && Ordered(sorted) && IsHeap(kept) && kept != []
    requires forall x :: x in kept <==> x in sorted[..n]
    ensures kept[0] == sorted[n - 1]
  {
    OrderedTake(sorted, n);
    assert sorted[n - 1] == sorted[..n][n - 1];
    assert sorted[n - 1] in sorted[..n] && kept[0] in kept;
    var i :| 0 <= i < |kept| && kept[i] == sorted[n - 1];
    FrontIsWorst(kept, i);
  }

  lemma KeptSorts(maximum: nat, candidates: seq<Neighbor>, kept: seq<Neighbor>)
    requires DistinctIds(candidates) && multiset(kept) == multiset(Best(maximum, candidates))
    ensures Sort(kept) == Best(maximum, candidates)
  {
    var best := Best(maximum, candidates);
    SortOrdered(candidates);
    OrderedTake(Sort(candidates), |best|);
    assert Sort(candidates)[..|best|] == best;
    KeptCount(kept, best);
    BestDistinct(best);
    PermutedDistinct(candidates, kept, best);
    SortOrdered(kept);
    forall x
      ensures x in Sort(kept) <==> x in best
    {
      SortMember(kept, x);
    }
    OrderedDetermines(Sort(kept), best);
  }

  lemma {:induction false} BestDistinct(best: seq<Neighbor>)
    requires Ordered(best)
    ensures forall x :: x in best ==> multiset(best)[x] == 1
  {
    if best != [] {
      BestDistinct(best[1..]);
      assert best == [best[0]] + best[1..];
      assert multiset(best) == multiset{best[0]} + multiset(best[1..]);
      assert best[0] !in best[1..];
      assert best[0] !in multiset(best[1..]);
    }
  }

  lemma PermutedDistinct(candidates: seq<Neighbor>, kept: seq<Neighbor>, best: seq<Neighbor>)
    requires DistinctIds(candidates) && best <= Sort(candidates)
    requires multiset(kept) == multiset(best) && forall x :: x in best ==> multiset(best)[x] == 1
    ensures DistinctIds(kept)
  {
    KeptCount(kept, best);
    forall i, j | 0 <= i < j < |kept|
      ensures kept[i].id != kept[j].id
    {
      FromCandidates(candidates, best, kept[i]);
      FromCandidates(candidates, best, kept[j]);
      if kept[i] == kept[j] {
        TwiceCounted(kept, i, j);
      }
    }
  }

  lemma TwiceCounted(s: seq<Neighbor>, i: nat, j: nat)
    requires i < j < |s| && s[i] == s[j]
    ensures multiset(s)[s[i]] >= 2
  {
    assert s == s[..j] + [s[j]] + s[j + 1..];
    assert s[i] in s[..j];
  }

  lemma FromCandidates(candidates: seq<Neighbor>, best: seq<Neighbor>, x: Neighbor)
    requires best <= Sort(candidates) && x in best
    ensures x in candidates
  {
    SortMember(candidates, x);
  }
}
