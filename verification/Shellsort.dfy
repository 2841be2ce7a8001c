/** Shellsort, tos/lib/byte_radio/shellsort.h: sorted permutation, every earlier gap order kept,
    and no more swaps than inversions. */
module GapOrder {
  import opened Arithmetic

  /** Elements at distance g are in order. */
  ghost predicate GapSorted(s: seq<int>, g: nat) {
    forall i :: 0 <= i && i + g < |s| ==> s[i] <= s[i + g]
  }

  /** Elements r, r + g, r + 2g, ... */
  function Every(s: seq<int>, g: nat, r: nat): (c: seq<int>)
    requires g > 0
    decreases |s| - r
  {
    if r >= |s| then [] else [s[r]] + Every(s, g, r + g)
  }

  /** Element k of Every(s, g, r) is element r + k g of s. */
  lemma {:induction false} EveryAt(s: seq<int>, g: nat, r: nat, k: nat)
    requires g > 0
    ensures k < |Every(s, g, r)| <==> r + k * g < |s|
    ensures k < |Every(s, g, r)| ==> Every(s, g, r)[k] == s[r + k * g]
    decreases k
  {
    if r < |s| && k > 0 {
      EveryAt(s, g, r + g, k - 1);
      assert r + g + (k - 1) * g == r + k * g;
    } else if r >= |s| {
      assert k * g >= 0;
    }
  }

  // ---- Counting ----

  function CountUpTo(s: seq<int>, v: int): nat {
    if s == [] then 0 else (if s[0] <= v then 1 else 0) + CountUpTo(s[1..], v)
  }

  lemma {:induction false} CountConcat(s: seq<int>, t: seq<int>, v: int)
    ensures CountUpTo(s + t, v) == CountUpTo(s, v) + CountUpTo(t, v)
  {
    if s == [] {
      assert s + t == t;
    } else {
      assert (s + t)[1..] == s[1..] + t;
      CountConcat(s[1..], t, v);
    }
  }

  ghost predicate Sorted(s: seq<int>) { forall i, j :: 0 <= i < j < |s| ==> s[i] <= s[j] }

  lemma {:induction false} CountSome(s: seq<int>, n: nat, v: int)
    requires n <= |s| && forall i :: 0 <= i < n ==> s[i] <= v
    ensures CountUpTo(s, v) >= n
  {
    if n > 0 {
      CountSome(s[1..], n - 1, v);
    }
  }

  lemma {:induction false} CountFew(s: seq<int>, n: nat, v: int)
    requires n <= |s| && forall i :: n <= i < |s| ==> s[i] > v
    ensures CountUpTo(s, v) <= n
  {
    if s != [] {
      CountFew(s[1..], if n > 0 then n - 1 else 0, v);
    }
  }

  /** In a sorted sequence more than p elements are at most v exactly when element p is. */
  lemma SortedRank(s: seq<int>, p: nat, v: int)
    requires Sorted(s) && p < |s|
    ensures s[p] <= v <==> CountUpTo(s, v) > p
  {
    if s[p] <= v {
      CountSome(s, p + 1, v);
    } else {
      CountFew(s, p, v);
    }
  }

  /** If every element of x is at most the element of y that is d places further on, then no more
      than d elements of y up to v lack a partner in x up to v. */
  lemma {:induction false} DominatedCount(x: seq<int>, y: seq<int>, d: nat, v: int)
    requires |y| <= |x| + d
    requires forall k :: 0 <= k < |x| && k + d < |y| ==> x[k] <= y[k + d]
    ensures CountUpTo(y, v) <= CountUpTo(x, v) + d
    decreases d + |y|
  {
    if y == [] {
    } else if d > 0 {
      DominatedCount(x, y[1..], d - 1, v);
    } else {
      DominatedCount(x[1..], y[1..], 0, v);
    }
  }

  ghost predicate SameCounts(s: seq<int>, t: seq<int>) {
    |s| == |t| && forall v :: CountUpTo(s, v) == CountUpTo(t, v)
  }

  /** Sorting both sequences keeps the order between them. */
  lemma SortingKeepsDominance(x: seq<int>, y: seq<int>, x': seq<int>, y': seq<int>, d: nat, p: nat)
    requires |y| <= |x| + d
    requires forall k :: 0 <= k < |x| && k + d < |y| ==> x[k] <= y[k + d]
    requires SameCounts(x, x') && SameCounts(y, y') && Sorted(x') && Sorted(y')
    requires p < |x'| && p + d < |y'|
    ensures x'[p] <= y'[p + d]
  {
    var v := y'[p + d];
    SortedRank(y', p + d, v);
    DominatedCount(x, y, d, v);
    SortedRank(x', p, v);
  }

  // ---- A pass with one gap, as a relation between its input and its output ----

  /** Every class of positions modulo g holds the same elements in s and in t. */
  ghost predicate SameClasses(s: seq<int>, t: seq<int>, g: nat)
    requires g > 0
  {
    |s| == |t| && forall r: nat :: r < g ==> SameCounts(Every(s, g, r), Every(t, g, r))
  }

  lemma {:induction false} EveryAtLeast(s: seq<int>, g: nat, r: nat, v: int)
    requires g > 0 && GapSorted(s, g) && (r < |s| ==> v <= s[r])
    ensures forall k :: 0 <= k < |Every(s, g, r)| ==> v <= Every(s, g, r)[k]
    decreases |s| - r
  {
    if r < |s| {
      EveryAtLeast(s, g, r + g, v);
    }
  }

  lemma {:induction false} EverySorted(s: seq<int>, g: nat, r: nat)
    requires g > 0 && GapSorted(s, g)
    ensures Sorted(Every(s, g, r))
    decreases |s| - r
  {
    if r < |s| {
      EverySorted(s, g, r + g);
      EveryAtLeast(s, g, r + g, s[r]);
    }
  }

  lemma {:induction false} MulMonotone(a: nat, b: nat, g: nat)
    requires a <= b
    ensures a * g <= b * g
  {
    Distribute(a, b - a, g);
  }

  /** Positions i == r + p g and i + h == r2 + q g in their classes modulo g. */
  lemma Places(i: nat, h: nat, g: nat) returns (r: nat, p: nat, r2: nat, q: nat)
    requires g > 0
    ensures r < g && r2 < g && i == r + p * g && i + h == r2 + q * g && p <= q
  {
    r, p, r2, q := i % g, i / g, (i + h) % g, (i + h) / g;
    assert i == r + p * g && i + h == r2 + q * g;
    if q < p {
      MulMonotone(q + 1, p, g);
      Distribute(q, 1, g);
    }
  }

  /** Element k of the class of r is h places before element k + d of the class of r2. */
  lemma ClassDominance(s: seq<int>, g: nat, h: nat, r: nat, r2: nat, d: nat, k: nat)
    requires g > 0 && GapSorted(s, h) && r2 + d * g == r + h
    ensures k + d < |Every(s, g, r2)| ==> k < |Every(s, g, r)| && Every(s, g, r)[k] <= Every(s, g, r2)[k + d]
  {
    var i := r + k * g;
    PlaceAhead(g, h, r, r2, d, k, i);
    EveryAt(s, g, r, k);
    EveryAt(s, g, r2, k + d);
  }

  lemma PlaceAhead(g: nat, h: nat, r: nat, r2: nat, d: nat, k: nat, i: nat)
    requires r2 + d * g == r + h && i == r + k * g
    ensures r2 + (k + d) * g == i + h
  {
    Distribute(k, d, g);
  }

  lemma ClassLengths(s: seq<int>, g: nat, h: nat, r: nat, r2: nat, d: nat)
    requires g > 0 && r2 + d * g == r + h
    ensures |Every(s, g, r2)| <= |Every(s, g, r)| + d
  {
    var n := |Every(s, g, r)|;
    EveryAt(s, g, r, n);
    EveryAt(s, g, r2, n + d);
    Distribute(n, d, g);
  }

  /** The classical fact about Shellsort: sorting with gap g keeps an order with gap h. */
  lemma PassKeepsGap(s: seq<int>, t: seq<int>, g: nat, h: nat)
    requires g > 0 && SameClasses(s, t, g) && GapSorted(t, g) && GapSorted(s, h)
    ensures GapSorted(t, h)
  {
    forall i: nat | i + h < |t|
      ensures t[i] <= t[i + h]
    {
      var r, p, r2, q := Places(i, h, g);
      ClassesInOrder(s, t, g, h, i, r, p, r2, q);
    }
  }

  /** t is s with every class of places gap apart sorted. */
  ghost predicate PassOf(s: seq<int>, gap: nat, t: seq<int>) {
    gap > 0 && GapSorted(t, gap) && SameClasses(s, t, gap)
  }

  /** There is only one such sequence. */
  lemma PassOnce(s: seq<int>, gap: nat, t: seq<int>, t': seq<int>)
    requires PassOf(s, gap, t) && PassOf(s, gap, t')
    ensures t == t'
  {
    forall i: nat | i < |s|
      ensures t[i] == t'[i]
    {
      NoGreater(s, gap, t, t', i);
      NoGreater(s, gap, t', t, i);
    }
  }

  lemma NoGreater(s: seq<int>, gap: nat, t: seq<int>, t': seq<int>, i: nat)
    requires PassOf(s, gap, t) && PassOf(s, gap, t') && i < |s|
    ensures t[i] <= t'[i]
  {
    var r, p, r2, q := Places(i, 0, gap);
    EveryAt(t, gap, r, p);
    EveryAt(t', gap, r, p);
    EverySorted(t, gap, r);
    EverySorted(t', gap, r);
    var x := Every(s, gap, r);
    SortingKeepsDominance(x, x, Every(t, gap, r), Every(t', gap, r), 0, p);
  }

  lemma ClassesInOrder(s: seq<int>, t: seq<int>, g: nat, h: nat, i: nat, r: nat, p: nat, r2: nat, q: nat)
    requires g > 0 && SameClasses(s, t, g) && GapSorted(t, g) && GapSorted(s, h) && i + h < |t|
    requires r < g && r2 < g && i == r + p * g && i + h == r2 + q * g && p <= q
    ensures t[i] <= t[i + h]
  {
    var d := q - p;
    Distribute(p, d, g);
    var x, y := Every(s, g, r), Every(s, g, r2);
    forall k: nat
      ensures k + d < |y| ==> k < |x| && x[k] <= y[k + d]
    {
      ClassDominance(s, g, h, r, r2, d, k);
    }
    ClassLengths(s, g, h, r, r2, d);
    EverySorted(t, g, r);
    EverySorted(t, g, r2);
    EveryAt(t, g, r, p);
    EveryAt(t, g, r2, q);
    SortingKeepsDominance(x, y, Every(t, g, r), Every(t, g, r2), d, p);
  }

  // ---- One swap at distance g ----

  function Swapped(s: seq<int>, i: nat, j: nat): (t: seq<int>)
    requires i < j < |s|
    ensures multiset(t) == multiset(s)
  {
    s[i := s[j]][j := s[i]]
  }

  lemma {:induction false} EveryBeyond(s: seq<int>, t: seq<int>, g: nat, r: nat)
    requires g > 0 && |s| == |t| && forall k :: r <= k < |s| ==> s[k] == t[k]
    ensures Every(s, g, r) == Every(t, g, r)
    decreases |s| - r
  {
    if r < |s| {
      EveryBeyond(s, t, g, r + g);
    }
  }

  lemma {:induction false} SwapCounts(s: seq<int>, j: nat, g: nat, r: nat, v: int)
    requires g > 0 && j + g < |s| && r != j + g
    ensures var t := Swapped(s, j, j + g);
            |Every(s, g, r)| == |Every(t, g, r)| && CountUpTo(Every(s, g, r), v) == CountUpTo(Every(t, g, r), v)
    decreases |s| - r
  {
    var t := Swapped(s, j, j + g);
    if r == j {
      EveryBeyond(s, t, g, j + g + g);
      PairCounts(s, t, j, g, v, Every(s, g, j + g + g));
    } else if r < |s| {
      SwapCounts(s, j, g, r + g, v);
      NextCount(s, g, r, v);
      NextCount(t, g, r, v);
    }
  }

  lemma NextCount(s: seq<int>, g: nat, r: nat, v: int)
    requires g > 0 && r < |s|
    ensures Every(s, g, r) == [s[r]] + Every(s, g, r + g)
    ensures CountUpTo(Every(s, g, r), v) == (if s[r] <= v then 1 else 0) + CountUpTo(Every(s, g, r + g), v)
  {
    assert Every(s, g, r)[1..] == Every(s, g, r + g);
  }

  lemma NextTwoCounts(s: seq<int>, g: nat, r: nat, v: int, rest: seq<int>)
    requires g > 0 && r + g < |s| && rest == Every(s, g, r + g + g)
    ensures |Every(s, g, r)| == 2 + |rest|
    ensures CountUpTo(Every(s, g, r), v)
            == (if s[r] <= v then 1 else 0) + (if s[r + g] <= v then 1 else 0) + CountUpTo(rest, v)
  {
    NextCount(s, g, r, v);
    NextCount(s, g, r + g, v);
  }

  /** The class of a swapped pair from the pair on. */
  lemma PairCounts(s: seq<int>, t: seq<int>, j: nat, g: nat, v: int, rest: seq<int>)
    requires g > 0 && j + g < |s| == |t| && t[j] == s[j + g] && t[j + g] == s[j]
    requires rest == Every(s, g, j + g + g) == Every(t, g, j + g + g)
    ensures |Every(s, g, j)| == |Every(t, g, j)| && CountUpTo(Every(s, g, j), v) == CountUpTo(Every(t, g, j), v)
  {
    NextTwoCounts(s, g, j, v, rest);
    NextTwoCounts(t, g, j, v, rest);
  }

  lemma SwapSameClasses(s0: seq<int>, s: seq<int>, g: nat, j: nat)
    requires g > 0 && j + g < |s| && SameClasses(s0, s, g)
    ensures SameClasses(s0, Swapped(s, j, j + g), g)
  {
    forall r: nat | r < g
      ensures SameCounts(Every(s0, g, r), Every(Swapped(s, j, j + g), g, r))
    {
      assert SameCounts(Every(s0, g, r), Every(s, g, r));
      forall v
        ensures CountUpTo(Every(s0, g, r), v) == CountUpTo(Every(Swapped(s, j, j + g), g, r), v)
      {
        SwapCounts(s, j, g, r, v);
      }
      SwapCounts(s, j, g, r, 0);
    }
  }

  // ---- Inversions ----

  /** The number of pairs that are out of order. */
  function Inversions(s: seq<int>): nat {
    if s == [] then 0 else CountUpTo(s[1..], s[0] - 1) + Inversions(s[1..])
  }

  lemma {:induction false} CountMonotone(s: seq<int>, v: int, w: int)
    requires v <= w
    ensures CountUpTo(s, v) <= CountUpTo(s, w) <= |s|
  {
    if s != [] {
      CountMonotone(s[1..], v, w);
    }
  }

  lemma {:induction false} InversionsInsert(b: seq<int>, y: int, c: seq<int>)
    ensures Inversions(b + [y] + c) == Inversions(b + c) + |b| - CountUpTo(b, y) + CountUpTo(c, y - 1)
  {
    if b == [] {
      assert b + [y] + c == [y] + c && b + c == c;
      assert ([y] + c)[1..] == c;
    } else {
      InversionsInsert(b[1..], y, c);
      assert (b + [y] + c)[1..] == b[1..] + [y] + c && (b + c)[1..] == b[1..] + c;
      CountConcat(b[1..] + [y], c, b[0] - 1);
      CountConcat(b[1..], [y], b[0] - 1);
      CountConcat(b[1..], c, b[0] - 1);
    }
  }

  lemma {:induction false} InversionsPrefix(a: seq<int>, t: seq<int>, t': seq<int>)
    requires SameCounts(t, t')
    ensures Inversions(a + t) - Inversions(t) == Inversions(a + t') - Inversions(t')
  {
    if a == [] {
      assert a + t == t && a + t' == t';
    } else {
      InversionsPrefix(a[1..], t, t');
      assert (a + t)[1..] == a[1..] + t && (a + t')[1..] == a[1..] + t';
      CountConcat(a[1..], t, a[0] - 1);
      CountConcat(a[1..], t', a[0] - 1);
    }
  }

  lemma InversionsFirst(x: int, s: seq<int>)
    ensures Inversions([x] + s) == CountUpTo(s, x - 1) + Inversions(s)
  {
    assert ([x] + s)[1..] == s;
  }

  lemma InversionsPair(x: int, b: seq<int>, y: int, c: seq<int>)
    requires x > y
    ensures Inversions([y] + (b + [x] + c)) < Inversions([x] + (b + [y] + c))
  {
    InversionsFirst(x, b + [y] + c);
    InversionsFirst(y, b + [x] + c);
    InversionsInsert(b, y, c);
    InversionsInsert(b, x, c);
    CountMiddle(b, y, c, x - 1);
    CountMiddle(b, x, c, y - 1);
    CountMonotone(b, y - 1, x - 1);
    CountMonotone(b, y, x);
  }

  lemma PairSameCounts(x: int, b: seq<int>, y: int, c: seq<int>)
    ensures SameCounts([x] + (b + [y] + c), [y] + (b + [x] + c))
  {
    var s, t := b + [y] + c, b + [x] + c;
    assert ([x] + s)[1..] == s && ([y] + t)[1..] == t;
    forall v
      ensures CountUpTo([x] + s, v) == CountUpTo([y] + t, v)
    {
      CountMiddle(b, y, c, v);
      CountMiddle(b, x, c, v);
    }
  }

  lemma CountMiddle(b: seq<int>, y: int, c: seq<int>, v: int)
    ensures CountUpTo(b + [y] + c, v) == CountUpTo(b, v) + (if y <= v then 1 else 0) + CountUpTo(c, v)
  {
    CountConcat(b + [y], c, v);
    CountConcat(b, [y], v);
  }

  /** Swapping a pair that is out of order removes at least one inversion. */
  lemma SwapRemovesInversion(s: seq<int>, i: nat, j: nat)
    requires i < j < |s| && s[i] > s[j]
    ensures Inversions(Swapped(s, i, j)) < Inversions(s)
  {
    var a, b, c := s[..i], s[i + 1..j], s[j + 1..];
    var u, w := [s[i]] + (b + [s[j]] + c), [s[j]] + (b + [s[i]] + c);
    SwapParts(s, i, j, u, w);
    InversionsPair(s[i], b, s[j], c);
    PairSameCounts(s[i], b, s[j], c);
    InversionsPrefix(a, u, w);
  }

  lemma SwapParts(s: seq<int>, i: nat, j: nat, u: seq<int>, w: seq<int>)
    requires i < j < |s|
    requires u == [s[i]] + (s[i + 1..j] + [s[j]] + s[j + 1..]) && w == [s[j]] + (s[i + 1..j] + [s[i]] + s[j + 1..])
    ensures s == s[..i] + u && Swapped(s, i, j) == s[..i] + w
  {
    var t := Swapped(s, i, j);
    SplitAtPair(s, i, j);
    SplitAtPair(t, i, j);
    assert t[..i] == s[..i] && t[i + 1..j] == s[i + 1..j] && t[j + 1..] == s[j + 1..];
  }

  lemma SplitAtPair(s: seq<int>, i: nat, j: nat)
    requires i < j < |s|
    ensures s == s[..i] + ([s[i]] + (s[i + 1..j] + [s[j]] + s[j + 1..]))
  {
    assert s[i..] == [s[i]] + s[i + 1..];
    assert s[i + 1..] == s[i + 1..j] + s[j..];
    assert s[j..] == [s[j]] + s[j + 1..];
  }
}

module ByteRadioShellsort {
  import opened GapOrder

  /** The prefix up to position i is in order at distance g, but for the pair that starts at j. */
  ghost predicate SortedBut(s: seq<int>, g: nat, i: int, j: int) {
    && (forall k :: 0 <= k && k + g <= i && k + g < |s| && k != j ==> s[k] <= s[k + g])
    && (0 <= j && j + 2 * g <= i && j + 2 * g < |s| ==> s[j] <= s[j + 2 * g])
  }

  lemma SwapMovesGap(s: seq<int>, g: nat, i: int, j: nat)
    requires g > 0 && j + g <= i < |s| && SortedBut(s, g, i, j) && s[j] > s[j + g]
    ensures SortedBut(Swapped(s, j, j + g), g, i, j - g)
  {
  }

  /** s is s0 after some swaps of the inner loop: in order up to i but for the pair at j, with the
      classes of before, and every swap paid for. */
  ghost predicate Sinking(s0: seq<int>, s: seq<int>, before: seq<int>, gap: nat, i: int, j: int, swaps: nat)
    requires gap > 0
  {
    && SortedBut(s, gap, i, j) && SameClasses(before, s, gap)
    && multiset(s) == multiset(s0) && swaps + Inversions(s) <= Inversions(s0)
  }

  lemma SinkStep(s0: seq<int>, s: seq<int>, before: seq<int>, gap: nat, i: nat, j: nat, swaps: nat)
    requires 0 < gap && j + gap <= i < |s| && s[j] > s[j + gap] && Sinking(s0, s, before, gap, i, j, swaps)
    ensures Sinking(s0, Swapped(s, j, j + gap), before, gap, i, j - gap, swaps + 1)
  {
    SwapMovesGap(s, gap, i, j);
    SwapSameClasses(before, s, gap, j);
    SwapRemovesInversion(s, j, j + gap);
  }

  /** The body of the inner loop. */
  method Exchange(basis: array<int>, j: nat, gap: nat)
    requires 0 < gap && j + gap < basis.Length
    modifies basis
    ensures basis[..] == Swapped(old(basis[..]), j, j + gap)
  {
    ghost var s := basis[..];
    var temp := basis[j];
    basis[j] := basis[j + gap];
    basis[j + gap] := temp;
    assert basis[..] == Swapped(s, j, j + gap);
  }

  /** The inner loop: element i sinks to its place among those at distance gap before it. */
  method Insert(basis: array<int>, gap: nat, i: nat, ghost before: seq<int>) returns (ghost swaps: nat)
    requires 0 < gap <= i < basis.Length
    requires SortedBut(basis[..], gap, i - 1, -1) && SameClasses(before, basis[..], gap)
    modifies basis
    ensures SortedBut(basis[..], gap, i, -1) && SameClasses(before, basis[..], gap)
    ensures multiset(basis[..]) == old(multiset(basis[..]))
    ensures swaps + Inversions(basis[..]) <= old(Inversions(basis[..]))
  {
    swaps := 0;
    ghost var s0 := basis[..];
    var j: int := i - gap;
    SinkStarts(s0, gap, i);
    while j >= 0 && basis[j] > basis[j + gap]
      invariant 0 <= j + gap <= i && Sinking(s0, basis[..], before, gap, i, j, swaps)
      decreases j
    {
      SinkStep(s0, basis[..], before, gap, i, j, swaps);
      Exchange(basis, j, gap);
      swaps := swaps + 1;
      j := j - gap;
    }
    SinkEnds(basis[..], gap, i, j);
  }

  lemma SinkStarts(s: seq<int>, gap: nat, i: nat)
    requires 0 < gap <= i < |s| && SortedBut(s, gap, i - 1, -1)
    ensures SortedBut(s, gap, i, i - gap)
  {
  }

  lemma SinkEnds(s: seq<int>, gap: nat, i: nat, j: int)
    requires 0 < gap && 0 <= j + gap <= i < |s| && SortedBut(s, gap, i, j)
    requires j >= 0 ==> s[j] <= s[j + gap]
    ensures SortedBut(s, gap, i, -1)
  {
  }

  /** The gaps in turn: halves down to one. */
  function Gaps(gap: nat): seq<nat> {
    if gap == 0 then [] else [gap] + Gaps(gap / 2)
  }

  /** The array before the first pass and after each one. */
  ghost predicate Passes(states: seq<seq<int>>, gaps: seq<nat>) {
    |states| == |gaps| + 1 && forall k :: 0 <= k < |gaps| ==> PassOf(states[k], gaps[k], states[k + 1])
  }

  /** The middle loop: one pass with one gap. */
  method Pass(basis: array<int>, gap: nat) returns (ghost swaps: nat)
    requires gap > 0
    modifies basis
    ensures PassOf(old(basis[..]), gap, basis[..])
    ensures forall h: nat :: GapSorted(old(basis[..]), h) ==> GapSorted(basis[..], h)
    ensures multiset(basis[..]) == old(multiset(basis[..]))
    ensures swaps + Inversions(basis[..]) <= old(Inversions(basis[..]))
  {
    swaps := 0;
    ghost var before := basis[..];
    var i := gap;
    while i < basis.Length
      invariant gap <= i && (i <= basis.Length || i == gap)
      invariant SortedBut(basis[..], gap, i - 1, -1) && SameClasses(before, basis[..], gap)
      invariant multiset(basis[..]) == multiset(before)
      invariant swaps + Inversions(basis[..]) <= Inversions(before)
    {
      ghost var n := Insert(basis, gap, i, before);
      swaps := swaps + n;
      i := i + 1;
    }
    forall h: nat | GapSorted(before, h)
      ensures GapSorted(basis[..], h)
    {
      PassKeepsGap(before, basis[..], gap, h);
    }
  }

  /** s is s0 after passes with some first gaps, gap being the next one or 0. */
  ghost predicate Along(s0: seq<int>, s: seq<int>, states: seq<seq<int>>, gaps: seq<nat>, gap: nat, swaps: nat) {
    && gaps + Gaps(gap) == Gaps(|s0| / 2) && Passes(states, gaps) && states[0] == s0 && states[|gaps|] == s
    && multiset(s) == multiset(s0) && swaps + Inversions(s) <= Inversions(s0)
    && (gap == 0 && |s0| > 1 ==> GapSorted(s, 1))
  }

  lemma NextPass(s0: seq<int>, s: seq<int>, states: seq<seq<int>>, gaps: seq<nat>, gap: nat, swaps: nat, t: seq<int>,
                 more: nat)
    requires gap > 0 && Along(s0, s, states, gaps, gap, swaps) && PassOf(s, gap, t)
    requires multiset(t) == multiset(s) && more + Inversions(t) <= Inversions(s)
    ensures Along(s0, t, states + [t], gaps + [gap], gap / 2, swaps + more)
  {
    assert gaps + Gaps(gap) == gaps + [gap] + Gaps(gap / 2);
  }

  /** The outer loop: a pass for every gap from half the length down to one. */
  method Shellsort(basis: array<int>) returns (ghost swaps: nat, ghost states: seq<seq<int>>)
    modifies basis
    ensures Passes(states, Gaps(basis.Length / 2)) && states[0] == old(basis[..]) && states[|states| - 1] == basis[..]
    ensures Sorted(basis[..])
    ensures multiset(basis[..]) == old(multiset(basis[..]))
    ensures swaps <= old(Inversions(basis[..]))
  {
    ghost var s0 := basis[..];
    ghost var gaps: seq<nat> := [];
    swaps, states := 0, [s0];
    var gap := basis.Length / 2;
    while gap > 0
      invariant gap >= 0 && Along(s0, basis[..], states, gaps, gap, swaps)
    {
      ghost var s := basis[..];
      ghost var n := Pass(basis, gap);
      NextPass(s0, s, states, gaps, gap, swaps, basis[..], n);
      swaps, gaps, states := swaps + n, gaps + [gap], states + [basis[..]];
      gap := gap / 2;
    }
    GapOneSorted(basis[..]);
  }

  lemma {:induction false} GapOneSorted(s: seq<int>)
    requires |s| <= 1 || GapSorted(s, 1)
    ensures Sorted(s)
  {
    if |s| > 1 {
      GapOneSorted(s[1..]);
      forall k | 0 < k < |s|
        ensures s[0] <= s[k]
      {
        assert s[0] <= s[1] && s[1] == s[1..][0] && s[k] == s[1..][k - 1];
      }
    }
  }
}
