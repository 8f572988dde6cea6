/**
 The binary heap of 06-Min-Heap-Max-Heap/main.go: sifting in place, bottom-up construction with its
 linear bound on swaps, and draining in priority order. Permutation and swap bounds hold for any
 comparator; the heap order needs a strict weak one.
 */
module BinaryHeaps {
  import opened Options

  // ---------- The comparator ----------

  /** Irreflexive, transitive, and with transitive ties. */
  ghost predicate StrictWeakOrder<T(!new)>(higher: (T, T) -> bool) {
    && (forall a :: !higher(a, a))
    && (forall a, b, c :: higher(a, b) && higher(b, c) ==> higher(a, c))
    && (forall a, b, c :: !higher(a, b) && !higher(b, c) ==> !higher(a, c))
  }

  // ---------- How far an element can sink ----------

  /** How often `m` can be doubled without exceeding `n`. */
  ghost function Doublings(m: nat, n: nat): nat
    requires m > 0
    decreases n - m
  {
    if 2 * m > n then 0 else 1 + Doublings(2 * m, n)
  }

  lemma {:induction false} DoublingsAntitone(m: nat, k: nat, n: nat)
    requires 0 < m <= k
    ensures Doublings(k, n) <= Doublings(m, n)
    decreases n - m
  {
    if 2 * k <= n { DoublingsAntitone(2 * m, 2 * k, n); }
  }

  lemma {:induction false} DoublingsHalf(m: nat, n: nat)
    requires m > 0
    ensures Doublings(2 * m, n) == Doublings(m, n / 2)
    decreases n - m
  {
    if 4 * m <= n { DoublingsHalf(2 * m, n); }
  }

  ghost function Power2(k: nat): nat {
    if k == 0 then 1 else 2 * Power2(k - 1)
  }

  /** The number of doublings is the logarithm, rounded down. */
  lemma {:induction false} DoublingsIsLog(m: nat, n: nat)
    requires 0 < m <= n
    ensures m * Power2(Doublings(m, n)) <= n < m * Power2(Doublings(m, n) + 1)
    decreases n - m
  {
    if 2 * m <= n {
      DoublingsIsLog(2 * m, n);
      var d := Doublings(2 * m, n);
      assert Power2(d + 1) == 2 * Power2(d) && Power2(d + 2) == 2 * Power2(d + 1);
      assert 2 * m * Power2(d) == m * Power2(d + 1);
      assert 2 * m * Power2(d + 1) == m * Power2(d + 2);
    } else {
      assert Power2(1) == 2;
    }
  }

  /** All the sinking the positions before `k` can do together, counted from 1. */
  ghost function TotalDoublings(k: nat, n: nat): nat {
    if k == 0 then 0 else TotalDoublings(k - 1, n) + Doublings(k, n)
  }

  /** Positions in the upper half cannot sink, and the others sink one more than in half the heap. */
  lemma {:induction false} TotalHalves(k: nat, n: nat)
    requires k <= n / 2
    ensures TotalDoublings(k, n) == k + TotalDoublings(k, n / 2)
  {
    if k > 0 {
      TotalHalves(k - 1, n);
      DoublingsHalf(k, n);
    }
  }

  lemma {:induction false} UpperHalfIdle(k: nat, n: nat)
    requires n / 2 <= k
    ensures TotalDoublings(k, n) == TotalDoublings(n / 2, n)
  {
    if n / 2 < k { UpperHalfIdle(k - 1, n); }
  }

  /** Bottom-up construction sinks elements by fewer than `n` positions in total. */
  lemma {:induction false} TotalBelowSize(n: nat)
    requires n > 0
    ensures TotalDoublings(n, n) < n
    ensures TotalDoublings(n / 2, n) == TotalDoublings(n, n)
  {
    UpperHalfIdle(n, n);
    if n > 1 {
      TotalHalves(n / 2, n);
      TotalBelowSize(n / 2);
    }
  }

  // ---------- Heap order ----------

  /** The element at `p` need not give way to the one at `c`. */
  ghost predicate Above<T>(higher: (T, T) -> bool, s: seq<T>, p: nat, c: nat)
    requires p < |s| && c < |s|
  {
    !higher(s[c], s[p])
  }

  function Parent(c: nat): nat
    requires c > 0
  {
    (c - 1) / 2
  }

  /** From position `lo` on every parent is above its children, except the one at `hole`. */
  ghost predicate HeapExcept<T>(higher: (T, T) -> bool, s: seq<T>, lo: nat, hole: int) {
    forall c | 0 < c < |s| && lo <= Parent(c) != hole :: Above(higher, s, Parent(c), c)
  }

  ghost predicate IsHeap<T>(higher: (T, T) -> bool, s: seq<T>) {
    HeapExcept(higher, s, 0, -1)
  }

  /** The children of `i` lie below the parent of `i`. */
  ghost predicate Bridged<T>(higher: (T, T) -> bool, s: seq<T>, lo: nat, i: nat) {
    forall c | 0 < c < |s| && Parent(c) == i && i > 0 && lo <= Parent(i) :: Above(higher, s, Parent(i), c)
  }

  function Swap<T>(s: seq<T>, i: nat, j: nat): (r: seq<T>)
    requires i < |s| && j < |s|
    ensures |r| == |s| && multiset(r) == multiset(s)
  {
    SwapPermutes(s, i, j);
    s[i := s[j]][j := s[i]]
  }

  lemma SwapPermutes<T>(s: seq<T>, i: nat, j: nat)
    requires i < |s| && j < |s|
    ensures multiset(s[i := s[j]][j := s[i]]) == multiset(s)
  {
  }

  /** The first element of a heap has priority over every other. */
  lemma {:induction false} TopIsHighest<T(!new)>(higher: (T, T) -> bool, s: seq<T>, i: nat)
    requires StrictWeakOrder(higher) && IsHeap(higher, s) && i < |s|
    ensures !higher(s[i], s[0])
    decreases i
  {
    if i > 0 {
      TopIsHighest(higher, s, Parent(i));
      assert Above(higher, s, Parent(i), i);
    }
  }

  /** The position among `i` and its children that has priority, as the source picks it. */
  function Best<T>(higher: (T, T) -> bool, s: seq<T>, i: nat): (b: nat)
    requires i < |s|
    ensures b == i || (b < |s| && (b == 2 * i + 1 || b == 2 * i + 2))
  {
    var b := if 2 * i + 1 < |s| && higher(s[2 * i + 1], s[i]) then 2 * i + 1 else i;
    if 2 * i + 2 < |s| && higher(s[2 * i + 2], s[b]) then 2 * i + 2 else b
  }

  // ---------- Sifting ----------

  /** A sequence after some swaps, and how many there were. */
  datatype Sifted<+T> = Sifted(data: seq<T>, swaps: nat)

  /** The element at `i` swapped with its better child until neither child has priority over it. */
  function SunkFrom<T>(higher: (T, T) -> bool, s: seq<T>, i: nat): (r: Sifted<T>)
    requires i < |s|
    ensures |r.data| == |s|
    decreases |s| - i
  {
    var b := Best(higher, s, i);
    if b == i then Sifted(s, 0)
    else
      var rest := SunkFrom(higher, Swap(s, i, b), b);
      Sifted(rest.data, rest.swaps + 1)
  }

  /** The element at `i` swapped with its parent until that need not give way to it. */
  function RisenFrom<T>(higher: (T, T) -> bool, s: seq<T>, i: nat): (r: Sifted<T>)
    requires i < |s|
    ensures |r.data| == |s|
    decreases i
  {
    if i == 0 || !higher(s[i], s[Parent(i)]) then Sifted(s, 0)
    else
      var rest := RisenFrom(higher, Swap(s, i, Parent(i)), Parent(i));
      Sifted(rest.data, rest.swaps + 1)
  }

  /** The elements before `i` sunk one after the other, the last one first. */
  function HeapifiedFrom<T>(higher: (T, T) -> bool, s: seq<T>, i: nat): (r: Sifted<T>)
    requires i <= |s|
    ensures |r.data| == |s|
    decreases i
  {
    if i == 0 then Sifted(s, 0)
    else
      var sunk := SunkFrom(higher, s, i - 1);
      var rest := HeapifiedFrom(higher, sunk.data, i - 1);
      Sifted(rest.data, sunk.swaps + rest.swaps)
  }

  /** The last element in the place of the first. */
  function LastToTop<T>(s: seq<T>): (r: seq<T>)
    requires |s| > 1
    ensures |r| == |s| - 1
  {
    s[..|s| - 1][0 := s[|s| - 1]]
  }

  /** `now` is what is left to do of `whole` once `done` swaps have been made. */
  ghost predicate Remains<T>(whole: Sifted<T>, done: int, now: Sifted<T>) {
    now.data == whole.data && done + now.swaps == whole.swaps
  }

  lemma SinkStep<T>(higher: (T, T) -> bool, s: seq<T>, i: nat)
    requires i < |s|
    ensures var b := Best(higher, s, i);
      if b == i then SunkFrom(higher, s, i) == Sifted(s, 0)
      else Remains(SunkFrom(higher, s, i), 1, SunkFrom(higher, Swap(s, i, b), b))
  {
  }

  lemma RiseStep<T>(higher: (T, T) -> bool, s: seq<T>, i: nat)
    requires i < |s|
    ensures i == 0 || !higher(s[i], s[Parent(i)]) ==> RisenFrom(higher, s, i) == Sifted(s, 0)
    ensures i > 0 && higher(s[i], s[Parent(i)]) ==>
      Remains(RisenFrom(higher, s, i), 1, RisenFrom(higher, Swap(s, i, Parent(i)), Parent(i)))
  {
  }

  lemma NothingHeapified<T>(higher: (T, T) -> bool, s: seq<T>)
    ensures HeapifiedFrom(higher, s, 0) == Sifted(s, 0)
  {
  }

  lemma HeapifyStep<T>(higher: (T, T) -> bool, s: seq<T>, i: nat)
    requires i < |s|
    ensures var sunk := SunkFrom(higher, s, i);
      Remains(HeapifiedFrom(higher, s, i + 1), sunk.swaps, HeapifiedFrom(higher, sunk.data, i))
  {
  }

  class BinaryHeap<T(!new)> {
    var data: seq<T>
    const higherPriority: (T, T) -> bool

    ghost var swaps: nat  // how many swaps sifting has made so far

    ghost predicate Valid()
      reads this
    {
      StrictWeakOrder(higherPriority) ==> IsHeap(higherPriority, data)
    }

    /** Bottom-up construction: a heap of the given values, after fewer swaps than there are values. */
    constructor (higherPriority: (T, T) -> bool, values: seq<T>)
      ensures Valid() && multiset(data) == multiset(values) && |data| == |values|
      ensures values != [] ==> swaps < |values|
      ensures values == [] ==> swaps == 0
      ensures Sifted(data, swaps) == HeapifiedFrom(higherPriority, values, |values| / 2)
      ensures this.higherPriority == higherPriority
    {
      data, this.higherPriority, swaps := values, higherPriority, 0;
      new;
      hide StrictWeakOrder, TotalDoublings, HeapExcept, HeapifiedFrom;
      TotalStart(|data|);
      Heapify();
    }

    /** The loop of the construction: sinks every element that has a child, the last one first. */
    method Heapify()
      modifies `data, `swaps
      ensures multiset(data) == multiset(old(data)) && |data| == |old(data)|
      ensures StrictWeakOrder(higherPriority) ==> IsHeap(higherPriority, data)
      ensures swaps <= old(swaps) + TotalDoublings(|data| / 2, |data|)
      ensures Remains(HeapifiedFrom(higherPriority, old(data), |data| / 2), swaps - old(swaps), Sifted(data, 0))
    {
      hide StrictWeakOrder, TotalDoublings, HeapExcept, HeapifiedFrom;
      ghost var n, values := |data|, data;
      LeavesInOrder(higherPriority, data);
      for i := |data| / 2 downto 0
        invariant |data| == n && multiset(data) == multiset(values)
        invariant StrictWeakOrder(higherPriority) ==> HeapExcept(higherPriority, data, i, -1)
        invariant swaps + TotalDoublings(i, n) <= old(swaps) + TotalDoublings(n / 2, n)
        invariant Remains(HeapifiedFrom(higherPriority, values, n / 2), swaps - old(swaps),
                          HeapifiedFrom(higherPriority, data, i))
      {
        SinkOne(i);
      }
      NothingHeapified(higherPriority, data);
      TotalNothing(n);
    }

    /** One round of that loop. */
    method SinkOne(i: nat)
      requires i < |data| && (StrictWeakOrder(higherPriority) ==> HeapExcept(higherPriority, data, i + 1, -1))
      modifies `data, `swaps
      ensures multiset(data) == multiset(old(data)) && |data| == |old(data)|
      ensures StrictWeakOrder(higherPriority) ==> HeapExcept(higherPriority, data, i, -1)
      ensures swaps + TotalDoublings(i, |data|) <= old(swaps) + TotalDoublings(i + 1, |data|)
      ensures Remains(HeapifiedFrom(higherPriority, old(data), i + 1), swaps - old(swaps),
                      HeapifiedFrom(higherPriority, data, i))
    {
      hide StrictWeakOrder, TotalDoublings, HeapExcept, HeapifiedFrom, SunkFrom, Doublings, Sinking;
      HeapifyStep(higherPriority, data, i);
      HoleAt(higherPriority, data, i);
      TotalStep(i, |data|);
      SiftDown(i, i);
    }

    method Size() returns (n: nat)
      ensures n == |data|
    {
      n := |data|;
    }

    /** The element with priority over all others, if there is one. */
    method Peek() returns (r: Option<T>)
      requires Valid()
      ensures r == if data == [] then None else Some(data[0])
      ensures StrictWeakOrder(higherPriority) && data != [] ==>
        forall x | x in data :: !higherPriority(x, r.value)
    {
      if |data| == 0 {
        return None;
      }
      if StrictWeakOrder(higherPriority) { TopOfAll(higherPriority, data); }
      return Some(data[0]);
    }

    /** Adds a value with at most logarithmically many swaps. */
    method Insert(value: T)
      requires Valid()
      modifies this
      ensures Valid() && multiset(data) == multiset(old(data)) + multiset{value}
      ensures swaps <= old(swaps) + Doublings(1, |data|)
      ensures var r := RisenFrom(higherPriority, old(data) + [value], |old(data)|);
        data == r.data && swaps == old(swaps) + r.swaps
    {
      hide StrictWeakOrder, IsHeap, Rising, RisenFrom, Doublings;
      Appended(higherPriority, data, value);
      data := data + [value];
      SiftUp(|data| - 1);
    }

    /** Removes an element no other has priority over, with at most logarithmically many swaps. */
    method Extract() returns (r: Option<T>)
      requires Valid()
      modifies this
      ensures Valid()
      ensures old(data) == [] ==> r == None && data == [] && swaps == old(swaps)
      ensures old(data) != [] ==>
        && r == Some(old(data)[0]) && multiset(old(data)) == multiset(data) + multiset{r.value}
        && (StrictWeakOrder(higherPriority) ==> forall x | x in old(data) :: !higherPriority(x, r.value))
        && swaps <= old(swaps) + Doublings(1, |old(data)|)
      ensures |old(data)| == 1 ==> data == [] && swaps == old(swaps)
      ensures |old(data)| > 1 ==>
        var s := SunkFrom(higherPriority, LastToTop(old(data)), 0);
        data == s.data && swaps == old(swaps) + s.swaps
    {
      if |data| == 0 {
        return None;
      }
      hide StrictWeakOrder, Doublings, Sinking, SunkFrom, LastToTop, IsHeap, HeapExcept;
      if StrictWeakOrder(higherPriority) { TopOfAll(higherPriority, data); }
      var top, last := data[0], data[|data| - 1];
      ghost var before := data;
      data := data[..|data| - 1];
      if |data| > 0 {
        Refill(last, before);
      } else {
        assert before == [top];
      }
      return Some(top);
    }

    /** Puts the last element in the place of the first and sinks it. */
    method Refill(last: T, ghost before: seq<T>)
      requires |before| > 1 && data == before[..|before| - 1] && last == before[|before| - 1]
      requires StrictWeakOrder(higherPriority) ==> IsHeap(higherPriority, before)
      modifies `data, `swaps
      ensures Valid() && multiset(before) == multiset(data) + multiset{before[0]}
      ensures swaps <= old(swaps) + Doublings(1, |before|)
      ensures var s := SunkFrom(higherPriority, LastToTop(before), 0);
        data == s.data && swaps == old(swaps) + s.swaps
    {
      hide StrictWeakOrder, Doublings, Sinking, SunkFrom, HeapExcept;
      data := data[0 := last];
      assert data == LastToTop(before);
      Replaced(higherPriority, before);
      DoublingsMonotone(1, |data|, |before|);
      SiftDown(0, 0);
    }

    /** The loop of the demonstration that empties a heap: everything comes out, in priority order. */
    method Drain() returns (out: seq<T>)
      requires Valid()
      modifies this
      ensures data == [] && multiset(out) == multiset(old(data))
      ensures StrictWeakOrder(higherPriority) ==>
        forall i, j | 0 <= i < j < |out| :: !higherPriority(out[j], out[i])
    {
      hide StrictWeakOrder, IsHeap, SunkFrom, LastToTop, Doublings;
      out := [];
      while |data| > 0
        invariant Valid() && multiset(out) + multiset(data) == multiset(old(data))
        invariant StrictWeakOrder(higherPriority) ==>
          && (forall i, j | 0 <= i < j < |out| :: !higherPriority(out[j], out[i]))
          && (forall i, x | 0 <= i < |out| && x in data :: !higherPriority(x, out[i]))
        decreases |data|
      {
        ghost var before := data;
        var r := Extract();
        SizeDrops(before, data, r.value);
        Remaining(before, data, r.value);
        out := out + [r.value];
      }
    }

    /** Sifts an element up to where its parent need not give way to it. */
    method SiftUp(start: nat)
      requires start < |data|
      modifies `data, `swaps
      ensures |data| == |old(data)| && multiset(data) == multiset(old(data))
      ensures swaps <= old(swaps) + Doublings(1, start + 1)
      ensures var r := RisenFrom(higherPriority, old(data), start);
        data == r.data && swaps == old(swaps) + r.swaps
      ensures Rising(higherPriority, old(data), start) ==> IsHeap(higherPriority, data)
    {
      hide Rising, IsHeap, Swap, Doublings, RisenFrom;
      var index: nat := start;
      ghost var n, ordered := |data|, Rising(higherPriority, data, start);
      while index > 0
        invariant index < |data| == n && multiset(data) == multiset(old(data))
        invariant swaps + Doublings(1, index + 1) <= old(swaps) + Doublings(1, start + 1)
        invariant ordered ==> Rising(higherPriority, data, index)
        invariant Remains(RisenFrom(higherPriority, old(data), start), swaps - old(swaps),
                          RisenFrom(higherPriority, data, index))
      {
        RiseStep(higherPriority, data, index);
        var parent := (index - 1) / 2;
        if !higherPriority(data[index], data[parent]) {
          if ordered { Risen(higherPriority, data, index); }
          return;
        }
        if ordered { Rose(higherPriority, data, index); }
        RiseCost(index);
        data := Swap(data, index, parent);
        swaps := swaps + 1;
        index := parent;
      }
      RiseStep(higherPriority, data, index);
      if ordered { Risen(higherPriority, data, index); }
    }

    /** Sifts an element down to where neither child has priority over it. */
    method SiftDown(start: nat, ghost lo: nat)
      requires start < |data| && lo <= start
      modifies `data, `swaps
      ensures |data| == |old(data)| && multiset(data) == multiset(old(data))
      ensures swaps <= old(swaps) + Doublings(start + 1, |data|)
      ensures var r := SunkFrom(higherPriority, old(data), start);
        data == r.data && swaps == old(swaps) + r.swaps
      ensures Sinking(higherPriority, old(data), lo, start) ==> HeapExcept(higherPriority, data, lo, -1)
    {
      hide StrictWeakOrder, HeapExcept, Bridged, Sinking, Best, Swap, Doublings, SunkFrom;
      var index := start;
      ghost var n := |data|;
      ghost var ordered := Sinking(higherPriority, data, lo, start);
      while true
        invariant index < |data| == n && lo <= index && multiset(data) == multiset(old(data))
        invariant swaps + Doublings(index + 1, n) <= old(swaps) + Doublings(start + 1, n)
        invariant ordered ==> Sinking(higherPriority, data, lo, index)
        invariant Remains(SunkFrom(higherPriority, old(data), start), swaps - old(swaps),
                          SunkFrom(higherPriority, data, index))
        decreases n - index
      {
        var left, right, best := index * 2 + 1, index * 2 + 2, index;
        if left < |data| && higherPriority(data[left], data[best]) {
          best := left;
        }
        if right < |data| && higherPriority(data[right], data[best]) {
          best := right;
        }
        BestChosen(higherPriority, data, index, best);
        SinkStep(higherPriority, data, index);
        if best == index {
          if ordered { Settled(higherPriority, data, lo, index); }
          return;
        }
        if ordered { Sunk(higherPriority, data, lo, index); }
        SinkCost(index, best, n);
        data := Swap(data, index, best);
        swaps := swaps + 1;
        index := best;
      }
    }
  }

  lemma BestChosen<T>(higher: (T, T) -> bool, s: seq<T>, i: nat, best: nat)
    requires i < |s|
    requires var b := if 2 * i + 1 < |s| && higher(s[2 * i + 1], s[i]) then 2 * i + 1 else i;
             best == if 2 * i + 2 < |s| && higher(s[2 * i + 2], s[b]) then 2 * i + 2 else b
    ensures best == Best(higher, s, i)
  {
  }

  /** Sinking by one level uses up at least one doubling. */
  lemma SinkCost(i: nat, best: nat, n: nat)
    requires i < best < n && (best == 2 * i + 1 || best == 2 * i + 2)
    ensures 1 + Doublings(best + 1, n) <= Doublings(i + 1, n)
  {
    DoublingsAntitone(2 * (i + 1), best + 1, n);
  }

  /** The state of sifting down: heap order from `lo` on, but for the hole at `i`. */
  ghost predicate Sinking<T(!new)>(higher: (T, T) -> bool, s: seq<T>, lo: nat, i: nat) {
    StrictWeakOrder(higher) && HeapExcept(higher, s, lo, i) && Bridged(higher, s, lo, i)
  }

  /** Neither child has priority: the hole is closed. */
  lemma Settled<T(!new)>(higher: (T, T) -> bool, s: seq<T>, lo: nat, i: nat)
    requires i < |s| && Sinking(higher, s, lo, i) && Best(higher, s, i) == i
    ensures HeapExcept(higher, s, lo, -1)
  {
  }

  /** Swapping with the better child moves the hole down. */
  lemma Sunk<T(!new)>(higher: (T, T) -> bool, s: seq<T>, lo: nat, i: nat)
    requires lo <= i < |s| && Sinking(higher, s, lo, i) && Best(higher, s, i) != i
    ensures var best := Best(higher, s, i); Sinking(higher, Swap(s, i, best), lo, best)
  {
    var best := Best(higher, s, i);
    assert higher(s[best], s[i]);
    forall c | 0 < c < |s| && Parent(c) == i ensures !higher(s[c], s[best]) {
      assert c == 2 * i + 1 || c == 2 * i + 2;
    }
    var r := Swap(s, i, best);
    forall c | 0 < c < |r| && lo <= Parent(c) != best ensures Above(higher, r, Parent(c), c) {
      if c == i { assert Above(higher, s, Parent(i), best); }
      else if Parent(c) != i { assert Above(higher, s, Parent(c), c); }
    }
    forall c | 0 < c < |r| && Parent(c) == best ensures Above(higher, r, i, c) {
      assert Above(higher, s, best, c);
    }
  }

  /** Elements without children are in order. */
  lemma LeavesInOrder<T(!new)>(higher: (T, T) -> bool, s: seq<T>)
    ensures HeapExcept(higher, s, |s| / 2, -1)
  {
  }

  lemma TotalNothing(n: nat)
    ensures TotalDoublings(0, n) == 0
  {
  }

  lemma HoleAt<T(!new)>(higher: (T, T) -> bool, s: seq<T>, i: nat)
    requires StrictWeakOrder(higher) ==> HeapExcept(higher, s, i + 1, -1)
    ensures StrictWeakOrder(higher) ==> Sinking(higher, s, i, i)
  {
  }

  lemma TotalStep(i: nat, n: nat)
    ensures TotalDoublings(i + 1, n) == TotalDoublings(i, n) + Doublings(i + 1, n)
  {
  }

  lemma TotalStart(n: nat)
    ensures TotalDoublings(0, n) == 0 && (n > 0 ==> TotalDoublings(n / 2, n) < n)
  {
    if n > 0 { TotalBelowSize(n); }
  }

  lemma TopOfAll<T(!new)>(higher: (T, T) -> bool, s: seq<T>)
    requires StrictWeakOrder(higher) && IsHeap(higher, s) && s != []
    ensures forall x | x in s :: !higher(x, s[0])
  {
    forall x | x in s ensures !higher(x, s[0]) {
      var i :| 0 <= i < |s| && s[i] == x;
      TopIsHighest(higher, s, i);
    }
  }

  /** The state of sifting up: heap order but for the element at `i`, which may belong higher. */
  ghost predicate Rising<T(!new)>(higher: (T, T) -> bool, s: seq<T>, i: nat) {
    && StrictWeakOrder(higher) && i < |s| && Bridged(higher, s, 0, i)
    && (forall c | 0 < c < |s| && c != i :: Above(higher, s, Parent(c), c))
  }

  lemma Appended<T(!new)>(higher: (T, T) -> bool, s: seq<T>, x: T)
    requires StrictWeakOrder(higher) ==> IsHeap(higher, s)
    ensures StrictWeakOrder(higher) ==> Rising(higher, s + [x], |s|)
  {
    var r := s + [x];
    if StrictWeakOrder(higher) {
      forall c | 0 < c < |r| && c != |s| ensures Above(higher, r, Parent(c), c) {
        assert Above(higher, s, Parent(c), c);
      }
    }
  }

  lemma Risen<T(!new)>(higher: (T, T) -> bool, s: seq<T>, i: nat)
    requires Rising(higher, s, i) && (i > 0 ==> Above(higher, s, Parent(i), i))
    ensures IsHeap(higher, s)
  {
  }

  lemma Rose<T(!new)>(higher: (T, T) -> bool, s: seq<T>, i: nat)
    requires Rising(higher, s, i) && i > 0 && higher(s[i], s[Parent(i)])
    ensures Rising(higher, Swap(s, i, Parent(i)), Parent(i))
  {
    var p := Parent(i);
    var r := Swap(s, i, p);
    forall c | 0 < c < |r| && c != p ensures Above(higher, r, Parent(c), c) {
      if c != i { assert Above(higher, s, Parent(c), c); }
    }
    forall c | 0 < c < |r| && Parent(c) == p && p > 0 ensures Above(higher, r, Parent(p), c) {
      assert Above(higher, s, Parent(p), p);
      if c != i { assert Above(higher, s, p, c); }
    }
  }

  lemma RiseCost(i: nat)
    requires i > 0
    ensures Doublings(1, i + 1) == 1 + Doublings(1, Parent(i) + 1)
  {
    DoublingsHalf(1, i + 1);
    assert (i + 1) / 2 == Parent(i) + 1;
  }

  lemma {:induction false} DoublingsMonotone(m: nat, n: nat, n': nat)
    requires m > 0 && n <= n'
    ensures Doublings(m, n) <= Doublings(m, n')
    decreases n - m
  {
    if 2 * m <= n { DoublingsMonotone(2 * m, n, n'); }
  }

  /** Moving the last element to the top leaves a hole there, and takes the top out of the multiset. */
  lemma Replaced<T(!new)>(higher: (T, T) -> bool, s: seq<T>)
    requires |s| > 1 && (StrictWeakOrder(higher) ==> IsHeap(higher, s))
    ensures var r := s[..|s| - 1][0 := s[|s| - 1]];
            && multiset(s) == multiset(r) + multiset{s[0]}
            && (StrictWeakOrder(higher) ==> Sinking(higher, r, 0, 0))
  {
    var r := s[..|s| - 1][0 := s[|s| - 1]];
    assert s == [s[0]] + s[1..|s| - 1] + [s[|s| - 1]];
    assert r == [s[|s| - 1]] + s[1..|s| - 1];
    if StrictWeakOrder(higher) {
      forall c | 0 < c < |r| && Parent(c) != 0 ensures Above(higher, r, Parent(c), c) {
        assert Above(higher, s, Parent(c), c);
      }
    }
  }

  lemma SizeDrops<T>(before: seq<T>, after: seq<T>, x: T)
    requires multiset(before) == multiset(after) + multiset{x}
    ensures |after| < |before|
  {
    assert |multiset(before)| == |before| && |multiset(after)| == |after|;
  }

  lemma Remaining<T>(before: seq<T>, after: seq<T>, x: T)
    requires multiset(before) == multiset(after) + multiset{x}
    ensures x in before && forall y | y in after :: y in before
  {
    assert multiset(before)[x] > 0;
    forall y | y in after ensures y in before {
      assert multiset(after)[y] > 0;
      assert multiset(before)[y] > 0;
    }
  }

  // ---------- How many swaps ----------

  lemma {:induction false} SunkSwaps<T>(higher: (T, T) -> bool, s: seq<T>, i: nat)
    requires i < |s|
    ensures SunkFrom(higher, s, i).swaps <= Doublings(i + 1, |s|)
    decreases |s| - i
  {
    hide Doublings, SunkFrom;
    SinkStep(higher, s, i);
    var b := Best(higher, s, i);
    if b != i {
      SunkSwaps(higher, Swap(s, i, b), b);
      SinkCost(i, b, |s|);
    }
  }

  lemma {:induction false} HeapifiedSwaps<T>(higher: (T, T) -> bool, s: seq<T>, i: nat)
    requires i <= |s|
    ensures HeapifiedFrom(higher, s, i).swaps <= TotalDoublings(i, |s|)
    decreases i
  {
    hide Doublings, SunkFrom, HeapifiedFrom, TotalDoublings;
    NothingHeapified(higher, s);
    if i > 0 {
      HeapifyStep(higher, s, i - 1);
      SunkSwaps(higher, s, i - 1);
      HeapifiedSwaps(higher, SunkFrom(higher, s, i - 1).data, i - 1);
      TotalStep(i - 1, |s|);
    }
  }

  /** Floyd's bound: heapifying any n >= 1 elements under any comparator makes fewer than n swaps. */
  lemma FewerSwapsThanElements<T>(higher: (T, T) -> bool, s: seq<T>)
    requires s != []
    ensures HeapifiedFrom(higher, s, |s| / 2).swaps < |s|
  {
    HeapifiedSwaps(higher, s, |s| / 2);
    TotalStart(|s|);
  }
}
