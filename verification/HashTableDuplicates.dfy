/** Duplicate keys: the order in which the entries for a key are retrieved, call by call and over
    runs of any calls. */
module HashTableDuplicates {
  import opened Options
  import opened HashTableSpec
  import opened HashTableProperties
  import opened Sequences

  /** The entries for k among those of its hash value. */
  function Matching<K, V>(c: seq<Item<K, V>>, ks: Keys<K>, k: K): seq<Item<K, V>> {
    if c == [] then []
    else if Matches(c[0], ks, k) then [c[0]] + Matching(c[1..], ks, k)
    else Matching(c[1..], ks, k)
  }

  /** All entries a table has for k, in the order in which searching and removing retrieve them. */
  function Retrieval<K, V>(b: Buckets<K, V>, ks: Keys<K>, k: K): seq<Item<K, V>>
    requires |b| > 0
  {
    Matching(Class(b, ks.hash(k)), ks, k)
  }

  lemma {:induction false} FirstOfMatching<K, V>(c: seq<Item<K, V>>, ks: Keys<K>, k: K)
    ensures var s := Matching(OfHash(c, ks.hash(k)), ks, k);
            var j := FirstMatch(c, ks, k);
            if j < |c| then s != [] && s[0] == c[j] && s[1..] == Matching(OfHash(Without(c, j), ks.hash(k)), ks, k)
            else s == []
  {
    if c != [] {
      var h := ks.hash(k);
      var j := FirstMatch(c, ks, k);
      if j == 0 {
        assert Without(c, 0) == c[1..];
        assert ([c[0]] + OfHash(c[1..], h))[1..] == OfHash(c[1..], h);
      } else {
        FirstOfMatching(c[1..], ks, k);
        if j < |c| {
          assert Without(c, j)[0] == c[0] && Without(c, j)[1..] == Without(c[1..], j - 1);
        }
        if c[0].h == h {
          assert ([c[0]] + OfHash(c[1..], h))[1..] == OfHash(c[1..], h);
          if j < |c| {
            var w := OfHash(Without(c[1..], j - 1), h);
            assert ([c[0]] + w)[1..] == w;
          }
        }
      }
    }
  }

  lemma {:induction false} MatchingConcat<K, V>(c: seq<Item<K, V>>, d: seq<Item<K, V>>, ks: Keys<K>, k: K)
    ensures Matching(c + d, ks, k) == Matching(c, ks, k) + Matching(d, ks, k)
  {
    if c == [] {
      assert c + d == d;
    } else {
      MatchingConcat(c[1..], d, ks, k);
      assert (c + d)[1..] == c[1..] + d;
    }
  }

  lemma {:induction false} MatchingReverse<K, V>(c: seq<Item<K, V>>, ks: Keys<K>, k: K)
    ensures Matching(Reverse(c), ks, k) == Reverse(Matching(c, ks, k))
  {
    if c != [] {
      MatchingReverse(c[1..], ks, k);
      MatchingConcat(Reverse(c[1..]), [c[0]], ks, k);
      if Matches(c[0], ks, k) {
        var rest := Matching(c[1..], ks, k);
        assert ([c[0]] + rest)[1..] == rest;
      }
    }
  }

  /** Growth into a new table reverses the order of every key; growth in place reverses it exactly
      for keys whose chain index changes. */
  lemma RetrievalGrows<K, V>(b: Buckets<K, V>, ks: Keys<K>, k: K, n: nat)
    requires 0 < |b| < n && WellPlaced(b)
    ensures var s := Retrieval(b, ks, k);
            && Retrieval(Fresh(b, n), ks, k) == Reverse(s)
            && Retrieval(InPlace(b, Empty(n - |b|)), ks, k)
               == if IndexFor(n, ks.hash(k)) == IndexFor(|b|, ks.hash(k)) then s else Reverse(s)
  {
    var h := ks.hash(k);
    FreshReverses(b, n, h);
    InPlaceOrder(b, n, h);
    MatchingReverse(Class(b, h), ks, k);
  }

  /** Search answers with the first entry in retrieval order, removal takes it away, and an entry
      put in front of its chain becomes the first. */
  lemma RetrievalOrder<K, V>(t: Table<K, V>, ks: Keys<K>, k: K, e: Item<K, V>)
    requires |t.buckets| > 0
    ensures var s, b := Retrieval(t.buckets, ks, k), t.buckets;
            && Search(t, ks, k) == (if s == [] then None else s[0].v)
            && (s != [] ==> Retrieval(Remove(t, ks, k).buckets, ks, k) == s[1..])
            && (s == [] ==> Remove(t, ks, k) == t)
            && (Matches(e, ks, k) ==> Retrieval(Push(b, e), ks, k) == [e] + s)
  {
    var h, b := ks.hash(k), t.buckets;
    var i := IndexFor(|b|, h);
    FirstOfMatching(b[i], ks, k);
    if Matches(e, ks, k) {
      assert ([e] + b[i])[1..] == b[i];
      assert ([e] + Class(b, h))[1..] == Class(b, h);
    }
  }

  lemma PairOrder<K(!new), V>(b: Buckets<K, V>, ks: Keys<K>, k: K, e1: Item<K, V>, e2: Item<K, V>)
    requires |b| > 0 && WellPlaced(b) && Retrieval(b, ks, k) == [] && Matches(e1, ks, k) && Matches(e2, ks, k)
    ensures var c := Push(Push(b, e1), e2);
            WellPlaced(c) && Retrieval(c, ks, k) == [e2, e1]
  {
    PushPlaced(b, e1);
    PushPlaced(Push(b, e1), e2);
    RetrievalOrder(Table(b, 0, 0, 0), ks, k, e1);
    RetrievalOrder(Table(Push(b, e1), 0, 0, 0), ks, k, e2);
    ReversePair(e2, e1);
  }

  lemma PairGrows<K(!new), V>(c: Buckets<K, V>, ks: Keys<K>, k: K, e1: Item<K, V>, e2: Item<K, V>, n: nat)
    requires 0 < |c| < n && WellPlaced(c) && Retrieval(c, ks, k) == [e2, e1]
    requires IndexFor(n, ks.hash(k)) == IndexFor(|c|, ks.hash(k))
    ensures Retrieval(InPlace(c, Empty(n - |c|)), ks, k) == [e2, e1] && Retrieval(Fresh(c, n), ks, k) == [e1, e2]
  {
    RetrievalGrows(c, ks, k, n);
    ReversePair(e2, e1);
  }

  lemma ReversePair<T>(x: T, y: T)
    ensures Reverse([x, y]) == [y, x] && [x] + [y] == [x, y] && [y] + [] == [y]
  {
    ReverseOne(y);
    assert [x, y][1..] == [y];
  }

  /** A table of 53 chains with two entries for one key: growth in place keeps the order that growth
      into a new table reverses. */
  lemma GrowthKeepsDuplicates(ks: Keys<nat>, e1: Item<nat, char>, e2: Item<nat, char>)
    requires ks == Keys(k => 0, (a, b) => a == b) && e1 == Item(7, Some('a'), 0) && e2 == Item(7, Some('b'), 0)
    ensures var n0, n := PRIMES[0], PRIMES[1];
            var b := Push(Push(Empty(n0), e1), e2);
            && Valid(Table(b, 2, LoadLimit(n0), 0)) && Retrieval(b, ks, 7) == [e2, e1]
            && Retrieval(InPlace(b, Empty(n - n0)), ks, 7) == [e2, e1] && Retrieval(Fresh(b, n), ks, 7) == [e1, e2]
  {
    var n0 := PRIMES[0];
    var none := Empty<nat, char>(n0);
    PairOrder(none, ks, 7, e1, e2);
    PairGrows(Push(Push(none, e1), e2), ks, 7, e1, e2, PRIMES[1]);
    BagEmpty(none);
    PushPlaced(none, e1);
    PushPlaced(Push(none, e1), e2);
  }

  // ---- Other keys ----

  /** Adding or taking an entry that does not match k leaves k's retrieval order alone. */
  lemma PushElsewhere<K, V>(b: Buckets<K, V>, ks: Keys<K>, k: K, e: Item<K, V>)
    requires |b| > 0 && !Matches(e, ks, k)
    ensures Retrieval(Push(b, e), ks, k) == Retrieval(b, ks, k)
  {
    var h := ks.hash(k);
    var i := IndexFor(|b|, h);
    if IndexFor(|b|, e.h) == i {
      assert ([e] + b[i])[1..] == b[i];
      assert ([e] + Class(b, h))[1..] == Class(b, h);
    }
  }

  lemma WithoutElsewhere<K, V>(b: Buckets<K, V>, ks: Keys<K>, k: K, i: nat, p: nat)
    requires i < |b| && p < |b[i]| && !Matches(b[i][p], ks, k)
    ensures Retrieval(b[i := Without(b[i], p)], ks, k) == Retrieval(b, ks, k)
  {
    var h, c := ks.hash(k), b[i];
    if IndexFor(|b|, h) == i {
      var one := if c[p].h == h then [c[p]] else [];
      OfHashWithout(c, p, h);
      MatchingConcat(OfHash(c[..p], h) + one, OfHash(c[p + 1..], h), ks, k);
      MatchingConcat(OfHash(c[..p], h), one, ks, k);
      MatchingConcat(OfHash(c[..p], h), OfHash(c[p + 1..], h), ks, k);
      assert Matching(one, ks, k) == [];
    }
  }

  /** Equal keys retrieve the same entries. */
  lemma {:induction false} MatchingSame<K(!new), V>(c: seq<Item<K, V>>, ks: Keys<K>, k: K, x: K)
    requires Lawful(ks) && ks.eq(k, x)
    ensures Matching(c, ks, k) == Matching(c, ks, x)
  {
    if c != [] {
      MatchingSame(c[1..], ks, k, x);
      assert Matches(c[0], ks, k) <==> Matches(c[0], ks, x);
    }
  }

  // ---- Runs of any calls ----

  /** What a caller can know of a table: for every key its values in retrieval order, the count, and
      how often the table grew. */
  datatype Lists<!K, V> = Lists(of: K -> seq<Option<V>>, count: int, primeindex: nat)

  ghost function Growing<K, V>(a: Lists<K, V>, ks: Keys<K>, mem: Memory): Lists<K, V>
    requires a.primeindex < |PRIMES|
  {
    if a.primeindex == |PRIMES| - 1 || !(mem.table || mem.regrow) then a
    else
      var n0, n := (NextLonger(a.primeindex); PRIMES[a.primeindex]), PRIMES[a.primeindex + 1];
      Lists(k => if mem.table || ks.hash(k) % n != ks.hash(k) % n0 then Reverse(a.of(k)) else a.of(k),
            a.count, a.primeindex + 1)
  }

  ghost function InFront<K, V>(a: Lists<K, V>, ks: Keys<K>, k: K, v: Option<V>): Lists<K, V> {
    Lists(x => if ks.eq(x, k) then [v] + a.of(x) else a.of(x), a.count + 1, a.primeindex)
  }

  ghost function FirstTaken<K, V>(a: Lists<K, V>, ks: Keys<K>, k: K): Lists<K, V> {
    Lists(x => if ks.eq(x, k) && a.of(x) != [] then a.of(x)[1..] else a.of(x), a.count - 1, a.primeindex)
  }

  /** The same calls on lists of values: insertion puts a value in front, removal takes the first one,
      and an insertion into a table that is 65 percent full makes it grow, which reverses lists. */
  ghost function ListStep<K, V>(a: Lists<K, V>, ks: Keys<K>, op: Op<K, V>): (Lists<K, V>, Reply<V>)
    requires a.primeindex < |PRIMES|
  {
    match op
    case InsertOp(k, v, mem) =>
      var g := if Full(a.count, a.primeindex) then Growing(a, ks, mem) else a;
      if mem.entry then (InFront(g, ks, k, v), Stored(true)) else (g, Stored(false))
    case SearchOp(k) => (a, Value(if a.of(k) == [] then None else a.of(k)[0]))
    case RemoveOp(k) =>
      if a.of(k) == [] then (a, Value(None)) else (FirstTaken(a, ks, k), Value(a.of(k)[0]))
    case CountOp => (a, Size(a.count))
  }

  function Values<K, V>(s: seq<Item<K, V>>): (r: seq<Option<V>>)
    ensures |r| == |s|
  {
    seq(|s|, j requires 0 <= j < |s| => s[j].v)
  }

  ghost predicate Tracks<K(!new), V(!new)>(t: Table<K, V>, a: Lists<K, V>, ks: Keys<K>) {
    && Valid(t) && a.count == t.count && a.primeindex == t.primeindex
    && forall k :: a.of(k) == Values(Retrieval(t.buckets, ks, k))
  }

  lemma ValuesConcat<K, V>(s: seq<Item<K, V>>, u: seq<Item<K, V>>)
    ensures Values(s + u) == Values(s) + Values(u)
  {
  }

  lemma {:induction false} ValuesReverse<K, V>(s: seq<Item<K, V>>)
    ensures Values(Reverse(s)) == Reverse(Values(s))
  {
    if s == [] {
      assert Values(s) == [];
    } else {
      ValuesReverse(s[1..]);
      ValuesConcat(Reverse(s[1..]), [s[0]]);
      assert Values([s[0]]) == [s[0].v] && Values(s)[1..] == Values(s[1..]);
    }
  }

  lemma GrownValues<K, V>(b: Buckets<K, V>, ks: Keys<K>, k: K, n: nat)
    requires 0 < |b| < n && WellPlaced(b)
    ensures var s := Values(Retrieval(b, ks, k));
            && Values(Retrieval(Fresh(b, n), ks, k)) == Reverse(s)
            && Values(Retrieval(InPlace(b, Empty(n - |b|)), ks, k))
               == if IndexFor(n, ks.hash(k)) == IndexFor(|b|, ks.hash(k)) then s else Reverse(s)
  {
    RetrievalGrows(b, ks, k, n);
    ValuesReverse(Retrieval(b, ks, k));
  }

  /** The outcomes of growth on lists, n being the next length. */
  lemma GrowingTo<K(!new), V>(a: Lists<K, V>, ks: Keys<K>, mem: Memory, k: K, n0: nat, n: nat)
    requires a.primeindex < |PRIMES| - 1 && n0 == PRIMES[a.primeindex] && n == PRIMES[a.primeindex + 1]
    ensures n > n0 > 0
    ensures mem.table ==> Growing(a, ks, mem).of(k) == Reverse(a.of(k))
    ensures !mem.table && mem.regrow ==>
      Growing(a, ks, mem).of(k)
      == if IndexFor(n, ks.hash(k)) == IndexFor(n0, ks.hash(k)) then a.of(k) else Reverse(a.of(k))
    ensures !mem.table && !mem.regrow ==> Growing(a, ks, mem) == a
  {
    NextLonger(a.primeindex);
  }

  lemma GrownList<K(!new), V(!new)>(t: Table<K, V>, a: Lists<K, V>, ks: Keys<K>, mem: Memory, k: K)
    requires Valid(t) && a.primeindex == t.primeindex && a.of(k) == Values(Retrieval(t.buckets, ks, k))
    ensures Growing(a, ks, mem).of(k) == Values(Retrieval(Expand(t, mem).buckets, ks, k))
  {
    if t.primeindex < |PRIMES| - 1 {
      var n, b := PRIMES[t.primeindex + 1], t.buckets;
      ExpandTo(t, mem, n);
      GrowingTo(a, ks, mem, k, |b|, n);
      GrownValues(b, ks, k, n);
      var r := Expand(t, mem).buckets;
      if mem.table {
        assert r == Fresh(b, n);
      } else if mem.regrow {
        assert r == InPlace(b, Empty(n - |b|));
      }
    }
  }

  lemma ExpandTracks<K(!new), V(!new)>(t: Table<K, V>, a: Lists<K, V>, ks: Keys<K>, mem: Memory)
    requires Tracks(t, a, ks)
    ensures Tracks(Expand(t, mem), Growing(a, ks, mem), ks)
  {
    ExpandKeeps(t, mem);
    forall k
      ensures Growing(a, ks, mem).of(k) == Values(Retrieval(Expand(t, mem).buckets, ks, k))
    {
      GrownList(t, a, ks, mem, k);
    }
  }

  /** An entry for k0 in front of its chain, as another key x sees it. */
  lemma PushedList<K(!new), V>(t: Table<K, V>, ks: Keys<K>, k0: K, v: Option<V>, x: K)
    requires Lawful(ks) && |t.buckets| > 0
    ensures var e := Item(k0, v, ks.hash(k0));
            var s := Values(Retrieval(t.buckets, ks, x));
            Values(Retrieval(Push(t.buckets, e), ks, x)) == if ks.eq(x, k0) then [v] + s else s
  {
    var e := Item(k0, v, ks.hash(k0));
    if ks.eq(x, k0) {
      RetrievalOrder(t, ks, x, e);
    } else {
      PushElsewhere(t.buckets, ks, x, e);
    }
  }

  /** The removal of k0, as another key x sees it. */
  lemma RemovedList<K(!new), V>(t: Table<K, V>, ks: Keys<K>, k0: K, x: K)
    requires Lawful(ks) && |t.buckets| > 0 && Retrieval(t.buckets, ks, k0) != []
    ensures var s := Values(Retrieval(t.buckets, ks, x));
            Values(Retrieval(Remove(t, ks, k0).buckets, ks, x)) == if ks.eq(x, k0) && s != [] then s[1..] else s
  {
    var i := IndexFor(|t.buckets|, ks.hash(k0));
    var j := FirstMatch(t.buckets[i], ks, k0);
    FirstOfMatching(t.buckets[i], ks, k0);
    if ks.eq(x, k0) {
      MatchingSame(Class(t.buckets, ks.hash(k0)), ks, x, k0);
      MatchingSame(Class(Remove(t, ks, k0).buckets, ks.hash(k0)), ks, x, k0);
      RetrievalOrder(t, ks, k0, t.buckets[i][j]);
    } else {
      var e := t.buckets[i][j];
      assert ks.eq(k0, e.k) && (ks.eq(x, e.k) ==> ks.eq(e.k, k0));
      WithoutElsewhere(t.buckets, ks, x, i, j);
    }
  }

  lemma PushTracks<K(!new), V(!new)>(t: Table<K, V>, a: Lists<K, V>, ks: Keys<K>, k: K, v: Option<V>)
    requires Lawful(ks) && Tracks(t, a, ks)
    ensures var r := t.(buckets := Push(t.buckets, Item(k, v, ks.hash(k))), count := t.count + 1);
            Tracks(r, InFront(a, ks, k, v), ks)
  {
    var e := Item(k, v, ks.hash(k));
    PushPlaced(t.buckets, e);
    forall x
      ensures InFront(a, ks, k, v).of(x) == Values(Retrieval(Push(t.buckets, e), ks, x))
    {
      PushedList(t, ks, k, v, x);
    }
  }

  lemma RemoveTracks<K(!new), V(!new)>(t: Table<K, V>, a: Lists<K, V>, ks: Keys<K>, k: K)
    requires Lawful(ks) && Tracks(t, a, ks) && a.of(k) != []
    ensures Tracks(Remove(t, ks, k), FirstTaken(a, ks, k), ks)
  {
    RemoveValid(t, ks, k);
    FirstOfMatching(t.buckets[IndexFor(|t.buckets|, ks.hash(k))], ks, k);
    forall x
      ensures FirstTaken(a, ks, k).of(x) == Values(Retrieval(Remove(t, ks, k).buckets, ks, x))
    {
      RemovedList(t, ks, k, x);
    }
  }

  lemma SearchTracks<K(!new), V(!new)>(t: Table<K, V>, a: Lists<K, V>, ks: Keys<K>, k: K)
    requires Tracks(t, a, ks)
    ensures Search(t, ks, k) == if a.of(k) == [] then None else a.of(k)[0]
    ensures a.of(k) == [] ==> Remove(t, ks, k) == t
  {
    RetrievalOrder(t, ks, k, Item(k, None, 0));
  }

  /** Insertion after the question of growth has been settled. */
  lemma LinkTracks<K(!new), V(!new)>(t: Table<K, V>, a: Lists<K, V>, ks: Keys<K>, k: K, v: Option<V>, entry: bool)
    requires Lawful(ks) && Tracks(t, a, ks)
    ensures var r := if entry then t.(buckets := Push(t.buckets, Item(k, v, ks.hash(k))), count := t.count + 1) else t;
            Tracks(r, if entry then InFront(a, ks, k, v) else a, ks)
  {
    PushTracks(t, a, ks, k, v);
  }

  /** Insertion, t1 and g being table and lists after any growth. */
  lemma InsertTracks<K(!new), V(!new)>(t: Table<K, V>, t1: Table<K, V>, g: Lists<K, V>, ks: Keys<K>, k: K, v: Option<V>,
                                       mem: Memory)
    requires Lawful(ks) && Shaped(t) && Tracks(t1, g, ks) && t1.count == t.count
    requires t1 == if t.count + 1 > t.loadlimit then Expand(t, mem) else t
    ensures Tracks(Insert(t, ks, k, v, mem).0, if mem.entry then InFront(g, ks, k, v) else g, ks)
  {
    LinkTracks(t1, g, ks, k, v, mem.entry);
  }

  /** Growth comes when the table is full. */
  lemma SettleTracks<K(!new), V(!new)>(t: Table<K, V>, a: Lists<K, V>, ks: Keys<K>, mem: Memory)
    requires Lawful(ks) && Tracks(t, a, ks)
    ensures var t1 := if t.count + 1 > t.loadlimit then Expand(t, mem) else t;
            t1.count == t.count
            && Tracks(t1, if Full(a.count, a.primeindex) then Growing(a, ks, mem) else a, ks)
  {
    LoadLimitIs(t.primeindex, t.count);
    if t.count + 1 > t.loadlimit {
      ExpandTracks(t, a, ks, mem);
      ExpandCount(t, mem);
    }
  }

  lemma ExpandCount<K, V>(t: Table<K, V>, mem: Memory)
    requires Shaped(t)
    ensures Expand(t, mem).count == t.count
  {
  }

  lemma ListStepTracks<K(!new), V(!new)>(t: Table<K, V>, a: Lists<K, V>, ks: Keys<K>, op: Op<K, V>)
    requires Lawful(ks) && Tracks(t, a, ks)
    ensures Tracks(Step(t, ks, op).0, ListStep(a, ks, op).0, ks) && Step(t, ks, op).1 == ListStep(a, ks, op).1
  {
    match op
    case InsertOp(k, v, mem) =>
      var t1 := if t.count + 1 > t.loadlimit then Expand(t, mem) else t;
      SettleTracks(t, a, ks, mem);
      InsertTracks(t, t1, if Full(a.count, a.primeindex) then Growing(a, ks, mem) else a, ks, k, v, mem);
    case SearchOp(k) =>
      SearchTracks(t, a, ks, k);
    case RemoveOp(k) =>
      SearchTracks(t, a, ks, k);
      if a.of(k) != [] {
        RemoveTracks(t, a, ks, k);
      }
    case CountOp =>
  }

  ghost function ListRun<K(!new), V(!new)>(a: Lists<K, V>, ks: Keys<K>, ops: seq<Op<K, V>>)
    : (Lists<K, V>, seq<Reply<V>>)
    requires a.primeindex < |PRIMES|
    decreases |ops|
  {
    if ops == [] then (a, [])
    else
      var (a1, r) := ListStep(a, ks, ops[0]);
      var (a2, rs) := ListRun(a1, ks, ops[1..]);
      (a2, [r] + rs)
  }

  /** Every run, with duplicate keys in any number: the table's replies are those of the lists. */
  lemma {:induction false} RunTracks<K(!new), V(!new)>(t: Table<K, V>, a: Lists<K, V>, ks: Keys<K>, ops: seq<Op<K, V>>)
    requires Lawful(ks) && Tracks(t, a, ks)
    ensures Run(t, ks, ops).1 == ListRun(a, ks, ops).1
    ensures Tracks(Run(t, ks, ops).0, ListRun(a, ks, ops).0, ks)
    decreases |ops|
  {
    if ops != [] {
      ListStepTracks(t, a, ks, ops[0]);
      RunTracks(Step(t, ks, ops[0]).0, ListStep(a, ks, ops[0]).0, ks, ops[1..]);
    }
  }

  lemma NewTracks<K(!new), V(!new)>(primeindex: nat, ks: Keys<K>)
    requires primeindex < |PRIMES|
    ensures Tracks(New<K, V>(primeindex), Lists(_ => [], 0, primeindex), ks)
  {
    NewRepresents<K, V>(primeindex, ks);
  }

  /** From creation on, whatever length the table was created with. */
  lemma CreatedRunTracks<K(!new), V(!new)>(primeindex: nat, ks: Keys<K>, ops: seq<Op<K, V>>)
    requires primeindex < |PRIMES| && Lawful(ks)
    ensures Run(New<K, V>(primeindex), ks, ops).1 == ListRun(Lists(_ => [], 0, primeindex), ks, ops).1
  {
    NewTracks<K, V>(primeindex, ks);
    RunTracks(New<K, V>(primeindex), Lists(_ => [], 0, primeindex), ks, ops);
  }
}
