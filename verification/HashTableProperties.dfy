/** What growth keeps and what it changes, and the finite map a table implements. */
module HashTableProperties {
  import opened Options
  import opened HashTableSpec
  import opened Sequences

  // ---- Entries of one hash value, in chain order ----

  /** The entries of a chain whose hash is h, in order. */
  function OfHash<K, V>(c: seq<Item<K, V>>, h: nat): seq<Item<K, V>> {
    if c == [] then []
    else if c[0].h == h then [c[0]] + OfHash(c[1..], h)
    else OfHash(c[1..], h)
  }

  /** The entries of hash h in a table: what can be retrieved under h, first one first. */
  function Class<K, V>(b: Buckets<K, V>, h: nat): seq<Item<K, V>>
    requires |b| > 0
  {
    OfHash(b[IndexFor(|b|, h)], h)
  }

  /** Every entry is in the chain its hash selects. */
  ghost predicate WellPlaced<K, V>(b: Buckets<K, V>) {
    forall i, j :: 0 <= i < |b| && 0 <= j < |b[i]| ==> IndexFor(|b|, b[i][j].h) == i
  }

  lemma {:induction false} OfHashConcat<K, V>(c: seq<Item<K, V>>, d: seq<Item<K, V>>, h: nat)
    ensures OfHash(c + d, h) == OfHash(c, h) + OfHash(d, h)
  {
    if c == [] {
      assert c + d == d;
    } else {
      OfHashConcat(c[1..], d, h);
      assert (c + d)[1..] == c[1..] + d;
    }
  }

  lemma {:induction false} OfHashAbsent<K, V>(c: seq<Item<K, V>>, h: nat)
    requires forall j :: 0 <= j < |c| ==> c[j].h != h
    ensures OfHash(c, h) == []
  {
    if c != [] {
      OfHashAbsent(c[1..], h);
    }
  }

  lemma OfHashWithout<K, V>(c: seq<Item<K, V>>, p: nat, h: nat)
    requires p < |c|
    ensures OfHash(c, h) == OfHash(c[..p], h) + (if c[p].h == h then [c[p]] else []) + OfHash(c[p + 1..], h)
    ensures OfHash(Without(c, p), h) == OfHash(c[..p], h) + OfHash(c[p + 1..], h)
  {
    OfHashConcat(c[..p], c[p + 1..], h);
    OfHashConcat(c[..p], [c[p]] + c[p + 1..], h);
    assert c == c[..p] + ([c[p]] + c[p + 1..]);
    assert ([c[p]] + c[p + 1..])[1..] == c[p + 1..];
  }

  // ---- Growth into a fresh table ----

  /** Chains from i on hold only entries that belong there. */
  ghost predicate PlacedFrom<K, V>(src: Buckets<K, V>, i: nat) {
    forall a, j :: i <= a < |src| && 0 <= j < |src[a]| ==> src[a][j].h % |src| == a
  }

  function Rest<K, V>(src: Buckets<K, V>, i: nat, h: nat): seq<Item<K, V>>
    requires |src| > 0
  {
    if i <= IndexFor(|src|, h) then Class(src, h) else []
  }

  lemma {:induction false} FreshFromClass<K, V>(src: Buckets<K, V>, i: nat, dst: Buckets<K, V>, h: nat)
    requires |src| > 0 && |dst| > 0 && PlacedFrom(src, i)
    ensures Class(FreshFrom(src, i, dst), h) == Reverse(Rest(src, i, h)) + Class(dst, h)
    decreases |src| - i, if i < |src| then |src[i]| else 0
  {
    if i >= |src| {
    } else if src[i] == [] {
      FreshFromClass(src, i + 1, dst, h);
    } else {
      var e := src[i][0];
      var src' := src[i := src[i][1..]];
      FreshFromClass(src', i, Push(dst, e), h);
      var t := IndexFor(|dst|, e.h);
      assert ([e] + dst[t])[1..] == dst[t];
      assert e.h % |src| == i;
      if e.h == h {
        assert Rest(src, i, h) == [e] + Rest(src', i, h);
        assert ([e] + Rest(src', i, h))[1..] == Rest(src', i, h);
      } else {
        assert Rest(src, i, h) == Rest(src', i, h);
      }
    }
  }

  /** Growth into a fresh table exactly reverses, for every hash value, the order of its entries. */
  lemma FreshReverses<K, V>(b: Buckets<K, V>, n: nat, h: nat)
    requires |b| > 0 && n > 0 && WellPlaced(b)
    ensures Class(Fresh(b, n), h) == Reverse(Class(b, h))
  {
    FreshFromClass(b, 0, Empty(n), h);
  }

  // ---- Growth in place ----

  /** Where the scan stands at place p of chain i: entries before it are where they belong, or
      were put where they belong; the rest are where the old length n0 placed them. */
  ghost predicate Scanned<K, V>(b: Buckets<K, V>, i: nat, p: nat, n0: nat)
    requires 0 < n0 <= |b|
  {
    && (i < n0 ==> p <= |b[i]|)
    && (forall a, j :: 0 <= a < |b| && 0 <= j < |b[a]| ==>
          || b[a][j].h % |b| == a
          || (b[a][j].h % n0 == a && (a > i || (a == i && j >= p))))
  }

  lemma {:induction false} InPlaceFromPlaced<K, V>(b: Buckets<K, V>, i: nat, p: nat, n0: nat)
    requires 0 < n0 <= |b| && i <= n0 && Scanned(b, i, p, n0)
    ensures WellPlaced(InPlaceFrom(b, i, p, n0))
    decreases n0 - i, if i < |b| then |b[i]| - p else 0
  {
    if i >= n0 {
    } else if p >= |b[i]| {
      InPlaceFromPlaced(b, i + 1, 0, n0);
    } else {
      var e := b[i][p];
      if IndexFor(|b|, e.h) == i {
        InPlaceFromPlaced(b, i, p + 1, n0);
      } else {
        InPlaceFromPlaced(Push(b[i := Without(b[i], p)], e), i, p, n0);
      }
    }
  }

  /** The entries of hash h that the scan has yet to move to another chain. */
  function Pending<K, V>(b: Buckets<K, V>, i: nat, p: nat, n0: nat, h: nat): seq<Item<K, V>>
    requires 0 < n0 <= |b| && (i < n0 ==> p <= |b[i]|)
  {
    if h % n0 == h % |b| || i > h % n0 then []
    else if i < h % n0 then OfHash(b[h % n0], h)
    else OfHash(b[i][p..], h)
  }

  /** The chains after one relinking. */
  lemma RelinkChains<K, V>(b: Buckets<K, V>, i: nat, p: nat)
    requires i < |b| && p < |b[i]| && IndexFor(|b|, b[i][p].h) != i
    ensures var e, t := b[i][p], IndexFor(|b|, b[i][p].h);
            var b' := Push(b[i := Without(b[i], p)], e);
            && b'[i] == Without(b[i], p) && b'[t] == [e] + b[t] && b'[t][1..] == b[t]
            && b'[i][p..] == b[i][p + 1..] == b[i][p..][1..]
            && forall a :: 0 <= a < |b| && a != i && a != t ==> b'[a] == b[a]
  {
  }

  lemma RelinkScanned<K, V>(b: Buckets<K, V>, i: nat, p: nat, n0: nat)
    requires 0 < n0 <= |b| && i < n0 && p < |b[i]| && Scanned(b, i, p, n0)
    requires IndexFor(|b|, b[i][p].h) != i
    ensures var b' := Push(b[i := Without(b[i], p)], b[i][p]);
            p <= |b'[i]| && Scanned(b', i, p, n0)
  {
    RelinkChains(b, i, p);
  }

  /** One relinking takes the entry from the pending ones of its hash value to the front of the
      retrievable ones, and changes nothing for other hash values. */
  lemma RelinkClass<K, V>(b: Buckets<K, V>, i: nat, p: nat, n0: nat, h: nat)
    requires 0 < n0 <= |b| && i < n0 && p < |b[i]| && Scanned(b, i, p, n0)
    requires IndexFor(|b|, b[i][p].h) != i
    ensures var e := b[i][p];
            var b' := Push(b[i := Without(b[i], p)], e);
            var one := if e.h == h then [e] else [];
            && p <= |b'[i]|
            && Class(b', h) == one + Class(b, h)
            && Pending(b, i, p, n0, h) == one + Pending(b', i, p, n0, h)
  {
    var e := b[i][p];
    RelinkChains(b, i, p);
    OfHashWithout(b[i], p, h);
    assert e.h % n0 == i;
    if h % n0 == h % |b| || i != h % n0 {
      assert e.h != h;
    }
  }

  lemma {:induction false} InPlaceFromClass<K, V>(b: Buckets<K, V>, i: nat, p: nat, n0: nat, h: nat)
    requires 0 < n0 <= |b| && i <= n0 && Scanned(b, i, p, n0)
    ensures Class(InPlaceFrom(b, i, p, n0), h) == Reverse(Pending(b, i, p, n0, h)) + Class(b, h)
    decreases n0 - i, if i < |b| then |b[i]| - p else 0
  {
    if i >= n0 {
    } else if p >= |b[i]| {
      InPlaceFromClass(b, i + 1, 0, n0, h);
      if i + 1 < n0 {
        assert b[i + 1][0..] == b[i + 1];
      }
    } else if IndexFor(|b|, b[i][p].h) == i {
      InPlaceFromClass(b, i, p + 1, n0, h);
      assert b[i][p..][1..] == b[i][p + 1..];
    } else {
      var e := b[i][p];
      var b' := Push(b[i := Without(b[i], p)], e);
      RelinkScanned(b, i, p, n0);
      RelinkClass(b, i, p, n0, h);
      InPlaceFromClass(b', i, p, n0, h);
      ReverseOnto(if e.h == h then [e] else [], Pending(b', i, p, n0, h), Class(b, h));
    }
  }

  /** Moving at most one element over while reversing. */
  lemma ReverseOnto<T>(one: seq<T>, rest: seq<T>, c: seq<T>)
    requires |one| <= 1
    ensures Reverse(rest) + (one + c) == Reverse(one + rest) + c
  {
    if one == [] {
      assert one + rest == rest && one + c == c;
    } else {
      assert (one + rest)[1..] == rest;
      assert Reverse(rest) + (one + c) == Reverse(rest) + one + c;
    }
  }

  /** Growth in place keeps the order of the entries of a hash value whose chain keeps its index,
      and reverses it otherwise. */
  lemma InPlaceOrder<K, V>(b: Buckets<K, V>, n: nat, h: nat)
    requires 0 < |b| < n && WellPlaced(b)
    ensures var r := InPlace(b, Empty(n - |b|));
            Class(r, h) == if h % n == h % |b| then Class(b, h) else Reverse(Class(b, h))
  {
    var w := b + Empty(n - |b|);
    assert Scanned(w, 0, 0, |b|);
    InPlaceFromClass(w, 0, 0, |b|, h);
    assert w[0][0..] == w[0];
    assert w[h % |b|] == b[h % |b|];
    if h % n == h % |b| {
      assert Class(w, h) == Class(b, h);
    } else {
      assert Pending(w, 0, 0, |b|, h) == Class(b, h);
      ClassElsewhere(w, |b|, h);
    }
  }

  lemma ClassElsewhere<K, V>(w: Buckets<K, V>, n0: nat, h: nat)
    requires 0 < n0 <= |w| && h % |w| != h % n0
    requires forall a, j :: 0 <= a < |w| && 0 <= j < |w[a]| ==> w[a][j].h % n0 == a
    ensures Class(w, h) == []
  {
    OfHashAbsent(w[h % |w|], h);
  }

  lemma GrowthPlaces<K, V>(b: Buckets<K, V>, n: nat)
    requires 0 < |b| < n && WellPlaced(b)
    ensures WellPlaced(Fresh(b, n)) && WellPlaced(InPlace(b, Empty(n - |b|)))
  {
    InPlaceFromPlaced(b + Empty(n - |b|), 0, 0, |b|);
    FreshFromPlaced(b, 0, Empty(n));
  }

  lemma {:induction false} FreshFromPlaced<K, V>(src: Buckets<K, V>, i: nat, dst: Buckets<K, V>)
    requires |dst| > 0 && WellPlaced(dst)
    ensures WellPlaced(FreshFrom(src, i, dst))
    decreases |src| - i, if i < |src| then |src[i]| else 0
  {
    if i < |src| {
      if src[i] == [] {
        FreshFromPlaced(src, i + 1, dst);
      } else {
        FreshFromPlaced(src[i := src[i][1..]], i, Push(dst, src[i][0]));
      }
    }
  }

  // ---- Conservation of entries ----

  /** All entries of a table, with multiplicity. */
  ghost function Bag<K, V>(b: Buckets<K, V>): multiset<Item<K, V>> {
    if b == [] then multiset{} else multiset(b[0]) + Bag(b[1..])
  }

  lemma {:induction false} BagUpdate<K, V>(b: Buckets<K, V>, i: nat, c: seq<Item<K, V>>)
    requires i < |b|
    ensures Bag(b[i := c]) + multiset(b[i]) == Bag(b) + multiset(c)
  {
    if i == 0 {
      assert b[i := c][1..] == b[1..];
    } else {
      BagUpdate(b[1..], i - 1, c);
      assert b[i := c][1..] == b[1..][i - 1 := c];
      BagSwaps(multiset(b[0]), Bag(b[1..][i - 1 := c]), multiset(b[i]), Bag(b[1..]), multiset(c));
    }
  }

  lemma BagSwaps<T>(h: multiset<T>, x: multiset<T>, p: multiset<T>, y: multiset<T>, q: multiset<T>)
    requires x + p == y + q
    ensures h + x + p == h + y + q
  {
    BagAssociates(h, x, p);
    BagAssociates(h, y, q);
  }

  lemma BagAssociates<T>(x: multiset<T>, y: multiset<T>, z: multiset<T>)
    ensures x + (y + z) == x + y + z
  {
  }

  lemma BagHead<K, V>(b: Buckets<K, V>, c: seq<Item<K, V>>, rest: Buckets<K, V>)
    requires b == [c] + rest
    ensures Bag(b) == multiset(c) + Bag(rest)
  {
    assert b[1..] == rest;
  }

  lemma {:induction false} BagConcat<K, V>(b: Buckets<K, V>, d: Buckets<K, V>)
    ensures Bag(b + d) == Bag(b) + Bag(d)
  {
    if b == [] {
      assert b + d == d;
    } else {
      BagConcat(b[1..], d);
      BagHead(b + d, b[0], b[1..] + d);
      BagAssociates(multiset(b[0]), Bag(b[1..]), Bag(d));
    }
  }

  lemma {:induction false} BagEmpty<K, V>(b: Buckets<K, V>)
    ensures Bag(b) == multiset{} <==> forall i :: 0 <= i < |b| ==> b[i] == []
  {
    if b != [] {
      BagEmpty(b[1..]);
      if b[0] != [] {
        assert b[0][0] in multiset(b[0]);
      } else if forall i :: 0 <= i < |b[1..]| ==> b[1..][i] == [] {
        assert forall i :: 0 <= i < |b| ==> b[i] == if i == 0 then b[0] else b[1..][i - 1];
      } else {
        var i :| 0 <= i < |b[1..]| && b[1..][i] != [];
        assert b[i + 1] != [];
      }
    }
  }

  lemma Cancel<T>(a: multiset<T>, b: multiset<T>, c: multiset<T>)
    requires a + c == b + c
    ensures a == b
  {
    assert a == (a + c) - c;
  }

  lemma BagPush<K, V>(b: Buckets<K, V>, e: Item<K, V>)
    requires |b| > 0
    ensures Bag(Push(b, e)) == Bag(b) + multiset{e}
  {
    var i := IndexFor(|b|, e.h);
    BagUpdate(b, i, [e] + b[i]);
    Cancel(Bag(Push(b, e)), Bag(b) + multiset{e}, multiset(b[i]));
  }

  lemma BagWithout<K, V>(b: Buckets<K, V>, i: nat, j: nat)
    requires i < |b| && j < |b[i]|
    ensures Bag(b[i := Without(b[i], j)]) + multiset{b[i][j]} == Bag(b)
  {
    BagUpdate(b, i, Without(b[i], j));
    assert b[i] == b[i][..j] + [b[i][j]] + b[i][j + 1..];
    var rest := multiset(Without(b[i], j));
    Cancel(Bag(b[i := Without(b[i], j)]) + multiset{b[i][j]}, Bag(b), rest);
  }

  lemma {:induction false} FreshFromBag<K, V>(src: Buckets<K, V>, i: nat, dst: Buckets<K, V>)
    requires |dst| > 0 && i <= |src| && forall a :: 0 <= a < i ==> src[a] == []
    ensures Bag(FreshFrom(src, i, dst)) == Bag(src) + Bag(dst)
    decreases |src| - i, if i < |src| then |src[i]| else 0
  {
    if i >= |src| {
      BagEmpty(src);
    } else if src[i] == [] {
      FreshFromBag(src, i + 1, dst);
    } else {
      assert Without(src[i], 0) == src[i][1..];
      FreshFromBag(src[i := src[i][1..]], i, Push(dst, src[i][0]));
      BagPush(dst, src[i][0]);
      BagWithout(src, i, 0);
    }
  }

  lemma {:induction false} InPlaceFromBag<K, V>(b: Buckets<K, V>, i: nat, p: nat, n0: nat)
    requires 0 < n0 <= |b|
    ensures Bag(InPlaceFrom(b, i, p, n0)) == Bag(b)
    decreases n0 - i, if i < |b| then |b[i]| - p else 0
  {
    if i >= n0 {
    } else if p >= |b[i]| {
      InPlaceFromBag(b, i + 1, 0, n0);
    } else if IndexFor(|b|, b[i][p].h) == i {
      InPlaceFromBag(b, i, p + 1, n0);
    } else {
      InPlaceFromBag(Push(b[i := Without(b[i], p)], b[i][p]), i, p, n0);
      BagWithout(b, i, p);
      BagPush(b[i := Without(b[i], p)], b[i][p]);
    }
  }

  /** Neither growth loses, adds or duplicates an entry. */
  lemma GrowthConserves<K, V>(b: Buckets<K, V>, n: nat)
    requires 0 < |b| < n
    ensures Bag(Fresh(b, n)) == Bag(b) && Bag(InPlace(b, Empty(n - |b|))) == Bag(b)
  {
    var none := Empty<K, V>(n);
    BagEmpty(none);
    FreshFromBag(b, 0, none);
    InPlaceNeedsEmptyTail(b, Empty(n - |b|));
  }

  /** The relinking loop alone, over any content of the added slots: it keeps exactly the old entries
      if and only if those slots hold empty chains. */
  lemma InPlaceNeedsEmptyTail<K, V>(b: Buckets<K, V>, tail: Buckets<K, V>)
    requires |b| > 0
    ensures Bag(InPlace(b, tail)) == Bag(b) <==> forall i :: 0 <= i < |tail| ==> tail[i] == []
  {
    InPlaceFromBag(b + tail, 0, 0, |b|);
    BagConcat(b, tail);
    BagEmpty(tail);
    assert Bag(b + tail) == Bag(b) ==> Bag(tail) == multiset{} by {
      assert (Bag(b) + Bag(tail)) - Bag(b) == Bag(tail);
    }
  }

  // ---- The finite map ----

  /** No two keys of m are equal for the table. */
  ghost predicate Distinct<K(!new), V(!new)>(m: map<K, Option<V>>, ks: Keys<K>) {
    forall a, b :: a in m && b in m && ks.eq(a, b) ==> a == b
  }

  ghost predicate Live<K(!new), V(!new)>(m: map<K, Option<V>>, ks: Keys<K>, k: K) {
    exists a :: a in m && ks.eq(k, a)
  }

  /** The key under which m holds k. */
  ghost function LiveKey<K(!new), V(!new)>(m: map<K, Option<V>>, ks: Keys<K>, k: K): (a: K)
    requires Live(m, ks, k)
    ensures a in m && ks.eq(k, a)
  {
    var a :| a in m && ks.eq(k, a); a
  }

  ghost function Find<K(!new), V(!new)>(m: map<K, Option<V>>, ks: Keys<K>, k: K): Option<V> {
    if Live(m, ks, k) then m[LiveKey(m, ks, k)] else None
  }

  ghost function Delete<K(!new), V(!new)>(m: map<K, Option<V>>, ks: Keys<K>, k: K): map<K, Option<V>> {
    if Live(m, ks, k) then m - {LiveKey(m, ks, k)} else m
  }

  /** The entries of the table are the bindings of m, each once. */
  ghost predicate Holds<K(!new), V(!new)>(b: Buckets<K, V>, m: map<K, Option<V>>, ks: Keys<K>) {
    forall e: Item<K, V> ::
      Bag(b)[e] == if e.k in m && m[e.k] == e.v && e.h == ks.hash(e.k) then 1 else 0
  }

  /** The table's own fields agree with each other. */
  ghost predicate Valid<K, V>(t: Table<K, V>) {
    Shaped(t) && WellPlaced(t.buckets) && t.count == |Bag(t.buckets)|
  }

  ghost predicate Represents<K(!new), V(!new)>(t: Table<K, V>, m: map<K, Option<V>>, ks: Keys<K>) {
    Valid(t) && Distinct(m, ks) && Holds(t.buckets, m, ks) && t.count == |m|
  }

  lemma {:induction false} BagHas<K, V>(b: Buckets<K, V>, e: Item<K, V>)
    ensures e in Bag(b) <==> exists i, j :: 0 <= i < |b| && 0 <= j < |b[i]| && b[i][j] == e
  {
    if b != [] {
      BagHas(b[1..], e);
      if e in b[0] {
        var j :| 0 <= j < |b[0]| && b[0][j] == e;
      } else if e in Bag(b[1..]) {
        var i, j :| 0 <= i < |b[1..]| && 0 <= j < |b[1..][i]| && b[1..][i][j] == e;
        assert b[i + 1][j] == e;
      } else if i, j :| 0 <= i < |b| && 0 <= j < |b[i]| && b[i][j] == e {
        assert i > 0 && b[1..][i - 1][j] == e;
      }
    }
  }

  /** In a table that holds m, the chain of k has an entry for k exactly when k is live, and that
      entry is m's binding. */
  lemma MatchIsBinding<K(!new), V(!new)>(t: Table<K, V>, m: map<K, Option<V>>, ks: Keys<K>, k: K)
    requires Lawful(ks) && Represents(t, m, ks)
    ensures var c := t.buckets[IndexFor(|t.buckets|, ks.hash(k))];
            var j := FirstMatch(c, ks, k);
            && (j < |c| <==> Live(m, ks, k))
            && (j < |c| ==> c[j] == (var a := LiveKey(m, ks, k); Item(a, m[a], ks.hash(a))))
  {
    var i := IndexFor(|t.buckets|, ks.hash(k));
    var c := t.buckets[i];
    var j := FirstMatch(c, ks, k);
    if j < |c| {
      BagHas(t.buckets, c[j]);
      assert Bag(t.buckets)[c[j]] == 1;
      assert c[j].k in m && ks.eq(k, c[j].k);
      var a := LiveKey(m, ks, k);
      assert ks.eq(a, c[j].k);
    } else if Live(m, ks, k) {
      var a := LiveKey(m, ks, k);
      var e := Item(a, m[a], ks.hash(a));
      assert Bag(t.buckets)[e] == 1;
      BagHas(t.buckets, e);
      var i', j' :| 0 <= i' < |t.buckets| && 0 <= j' < |t.buckets[i']| && t.buckets[i'][j'] == e;
      assert i' == i && Matches(c[j'], ks, k);
      assert false;
    }
  }

  lemma ExpandKeeps<K(!new), V(!new)>(t: Table<K, V>, mem: Memory)
    requires Valid(t)
    ensures Valid(Expand(t, mem)) && Bag(Expand(t, mem).buckets) == Bag(t.buckets)
  {
    if t.primeindex < |PRIMES| - 1 {
      NextLonger(t.primeindex);
      var n, b := PRIMES[t.primeindex + 1], t.buckets;
      GrowthPlaces(b, n);
      GrowthConserves(b, n);
      var r := Expand(t, mem);
      if mem.table {
        assert r.buckets == Fresh(b, n);
      } else if mem.regrow {
        assert r.buckets == InPlace(b, Empty(n - |b|));
      }
    }
  }

  lemma PushWellPlaced<K, V>(b: Buckets<K, V>, e: Item<K, V>)
    requires |b| > 0 && WellPlaced(b)
    ensures WellPlaced(Push(b, e))
  {
  }

  lemma PushPlaced<K, V>(b: Buckets<K, V>, e: Item<K, V>)
    requires |b| > 0 && WellPlaced(b)
    ensures WellPlaced(Push(b, e)) && Bag(Push(b, e)) == Bag(b) + multiset{e}
  {
    PushWellPlaced(b, e);
    BagPush(b, e);
  }

  lemma InsertValid<K(!new), V(!new)>(t: Table<K, V>, ks: Keys<K>, k: K, v: Option<V>, mem: Memory)
    requires Valid(t)
    ensures var (r, ok) := Insert(t, ks, k, v, mem);
            && Valid(r) && ok == mem.entry
            && Bag(r.buckets) == Bag(t.buckets) + if ok then multiset{Item(k, v, ks.hash(k))} else multiset{}
  {
    ExpandKeeps(t, mem);
    var t1 := if t.count + 1 > t.loadlimit then Expand(t, mem) else t;
    PushPlaced(t1.buckets, Item(k, v, ks.hash(k)));
  }

  lemma HoldsInsert<K(!new), V(!new)>(b: Buckets<K, V>, b': Buckets<K, V>, m: map<K, Option<V>>, ks: Keys<K>,
                                      k: K, v: Option<V>)
    requires k !in m && Holds(b, m, ks)
    requires Bag(b') == Bag(b) + multiset{Item(k, v, ks.hash(k))}
    ensures Holds(b', m[k := v], ks)
  {
    var e0 := Item(k, v, ks.hash(k));
    forall e: Item<K, V>
      ensures Bag(b')[e] == if e.k in m[k := v] && m[k := v][e.k] == e.v && e.h == ks.hash(e.k) then 1 else 0
    {
      assert Bag(b')[e] == Bag(b)[e] + if e == e0 then 1 else 0;
    }
  }

  lemma DistinctInsert<K(!new), V(!new)>(m: map<K, Option<V>>, ks: Keys<K>, k: K, v: Option<V>)
    requires Lawful(ks) && Distinct(m, ks) && !Live(m, ks, k)
    ensures k !in m && Distinct(m[k := v], ks) && |m[k := v]| == |m| + 1
  {
    assert ks.eq(k, k);
    assert m[k := v].Keys == m.Keys + {k};
  }

  /** Inserting a key that is not live adds its binding, whether or not the table grew. */
  lemma InsertRefines<K(!new), V(!new)>(t: Table<K, V>, m: map<K, Option<V>>, ks: Keys<K>,
                                        k: K, v: Option<V>, mem: Memory)
    requires Lawful(ks) && Represents(t, m, ks) && !Live(m, ks, k)
    ensures var (r, ok) := Insert(t, ks, k, v, mem);
            ok == mem.entry && Represents(r, if ok then m[k := v] else m, ks)
  {
    InsertValid(t, ks, k, v, mem);
    var (r, ok) := Insert(t, ks, k, v, mem);
    DistinctInsert(m, ks, k, v);
    if ok {
      HoldsInsert(t.buckets, r.buckets, m, ks, k, v);
    } else {
      SameBag(t.buckets, r.buckets, m, ks);
    }
    InsertCount(t, ks, k, v, mem);
  }

  lemma SameBag<K(!new), V(!new)>(b: Buckets<K, V>, b': Buckets<K, V>, m: map<K, Option<V>>, ks: Keys<K>)
    requires Holds(b, m, ks) && Bag(b') == Bag(b)
    ensures Holds(b', m, ks)
  {
  }

  lemma InsertCount<K, V>(t: Table<K, V>, ks: Keys<K>, k: K, v: Option<V>, mem: Memory)
    requires Shaped(t)
    ensures Insert(t, ks, k, v, mem).0.count == if mem.entry then t.count + 1 else t.count
  {
  }

  lemma BagSize<T>(a: multiset<T>, e: T, b: multiset<T>)
    requires a + multiset{e} == b
    ensures |a| == |b| - 1
  {
    assert |a + multiset{e}| == |a| + 1;
  }

  lemma WithoutPlaced<K, V>(b: Buckets<K, V>, i: nat, j: nat)
    requires i < |b| && j < |b[i]| && WellPlaced(b)
    ensures WellPlaced(b[i := Without(b[i], j)])
  {
  }

  lemma RemoveValid<K(!new), V(!new)>(t: Table<K, V>, ks: Keys<K>, k: K)
    requires Valid(t)
    ensures Valid(Remove(t, ks, k))
    ensures var c := t.buckets[IndexFor(|t.buckets|, ks.hash(k))];
            var j := FirstMatch(c, ks, k);
            var r := Remove(t, ks, k);
            if j < |c| then Bag(r.buckets) + multiset{c[j]} == Bag(t.buckets) && r.count == t.count - 1
            else r == t
  {
    var i, b := IndexFor(|t.buckets|, ks.hash(k)), t.buckets;
    var j := FirstMatch(b[i], ks, k);
    if j < |b[i]| {
      var after := b[i := Without(b[i], j)];
      BagWithout(b, i, j);
      BagSize(Bag(after), b[i][j], Bag(b));
      WithoutPlaced(b, i, j);
    }
  }

  lemma HoldsDelete<K(!new), V(!new)>(b: Buckets<K, V>, b': Buckets<K, V>, m: map<K, Option<V>>, ks: Keys<K>, a: K)
    requires a in m && Holds(b, m, ks)
    requires Bag(b') + multiset{Item(a, m[a], ks.hash(a))} == Bag(b)
    ensures Holds(b', m - {a}, ks)
  {
    var e0 := Item(a, m[a], ks.hash(a));
    forall e: Item<K, V>
      ensures Bag(b')[e] == if e.k in m - {a} && (m - {a})[e.k] == e.v && e.h == ks.hash(e.k) then 1 else 0
    {
      assert Bag(b)[e] == Bag(b')[e] + if e == e0 then 1 else 0;
    }
  }

  /** Search answers as the map does, and removal deletes exactly the binding it answers with. */
  lemma RemoveRefines<K(!new), V(!new)>(t: Table<K, V>, m: map<K, Option<V>>, ks: Keys<K>, k: K)
    requires Lawful(ks) && Represents(t, m, ks)
    ensures Search(t, ks, k) == Find(m, ks, k)
    ensures Represents(Remove(t, ks, k), Delete(m, ks, k), ks)
  {
    MatchIsBinding(t, m, ks, k);
    RemoveValid(t, ks, k);
    if Live(m, ks, k) {
      HoldsDelete(t.buckets, Remove(t, ks, k).buckets, m, ks, LiveKey(m, ks, k));
      assert (m - {LiveKey(m, ks, k)}).Keys == m.Keys - {LiveKey(m, ks, k)};
    }
  }

  // ---- Whole runs ----

  datatype Op<K, V> = InsertOp(k: K, v: Option<V>, mem: Memory) | SearchOp(k: K) | RemoveOp(k: K) | CountOp

  datatype Reply<V> = Stored(ok: bool) | Value(v: Option<V>) | Size(n: int)

  /** One call on the table. */
  function Step<K, V>(t: Table<K, V>, ks: Keys<K>, op: Op<K, V>): (r: (Table<K, V>, Reply<V>))
    requires Shaped(t)
    ensures Shaped(r.0)
  {
    match op
    case InsertOp(k, v, mem) => var (r, ok) := Insert(t, ks, k, v, mem); (r, Stored(ok))
    case SearchOp(k) => (t, Value(Search(t, ks, k)))
    case RemoveOp(k) => (Remove(t, ks, k), Value(Search(t, ks, k)))
    case CountOp => (t, Size(t.count))
  }

  /** The same call on a finite map; an insertion fails exactly when there is no memory for the entry. */
  ghost function MapStep<K(!new), V(!new)>(m: map<K, Option<V>>, ks: Keys<K>, op: Op<K, V>)
    : (map<K, Option<V>>, Reply<V>)
  {
    match op
    case InsertOp(k, v, mem) => (if mem.entry then m[k := v] else m, Stored(mem.entry))
    case SearchOp(k) => (m, Value(Find(m, ks, k)))
    case RemoveOp(k) => (Delete(m, ks, k), Value(Find(m, ks, k)))
    case CountOp => (m, Size(|m|))
  }

  /** No call of the run inserts a key that is live at that point. */
  ghost predicate Fair<K(!new), V(!new)>(m: map<K, Option<V>>, ks: Keys<K>, ops: seq<Op<K, V>>)
    decreases |ops|
  {
    ops == [] || ((ops[0].InsertOp? ==> !Live(m, ks, ops[0].k)) && Fair(MapStep(m, ks, ops[0]).0, ks, ops[1..]))
  }

  ghost function Run<K(!new), V(!new)>(t: Table<K, V>, ks: Keys<K>, ops: seq<Op<K, V>>): (Table<K, V>, seq<Reply<V>>)
    requires Shaped(t)
    decreases |ops|
  {
    if ops == [] then (t, [])
    else
      var (t1, r) := Step(t, ks, ops[0]);
      var (t2, rs) := Run(t1, ks, ops[1..]);
      (t2, [r] + rs)
  }

  ghost function MapRun<K(!new), V(!new)>(m: map<K, Option<V>>, ks: Keys<K>, ops: seq<Op<K, V>>)
    : (map<K, Option<V>>, seq<Reply<V>>)
    decreases |ops|
  {
    if ops == [] then (m, [])
    else
      var (m1, r) := MapStep(m, ks, ops[0]);
      var (m2, rs) := MapRun(m1, ks, ops[1..]);
      (m2, [r] + rs)
  }

  /** Every call keeps the fields in agreement, also one that inserts a live key or runs out of memory. */
  lemma StepValid<K(!new), V(!new)>(t: Table<K, V>, ks: Keys<K>, op: Op<K, V>)
    requires Valid(t)
    ensures Valid(Step(t, ks, op).0)
  {
    match op
    case InsertOp(k, v, mem) => InsertValid(t, ks, k, v, mem);
    case RemoveOp(k) => RemoveValid(t, ks, k);
    case _ =>
  }

  /** Main result: in any run without duplicate keys the table answers every call, and ends, as a
      finite map does. Growth, with added slots cleared, and failed allocations are not observable. */
  lemma {:induction false} RunRefines<K(!new), V(!new)>(t: Table<K, V>, m: map<K, Option<V>>, ks: Keys<K>,
                                                        ops: seq<Op<K, V>>)
    requires Lawful(ks) && Represents(t, m, ks) && Fair(m, ks, ops)
    ensures Run(t, ks, ops).1 == MapRun(m, ks, ops).1
    ensures Represents(Run(t, ks, ops).0, MapRun(m, ks, ops).0, ks)
    decreases |ops|
  {
    if ops != [] {
      StepValid(t, ks, ops[0]);
      match ops[0] {
        case InsertOp(k, v, mem) => InsertRefines(t, m, ks, k, v, mem);
        case SearchOp(k) => RemoveRefines(t, m, ks, k);
        case RemoveOp(k) => RemoveRefines(t, m, ks, k);
        case CountOp =>
      }
      RunRefines(Step(t, ks, ops[0]).0, MapStep(m, ks, ops[0]).0, ks, ops[1..]);
    }
  }

  /** A new table holds the empty map. */
  lemma NewRepresents<K(!new), V(!new)>(primeindex: nat, ks: Keys<K>)
    requires primeindex < |PRIMES|
    ensures Represents(New<K, V>(primeindex), map[], ks)
  {
    BagEmpty(Empty<K, V>(PRIMES[primeindex]));
  }

  /** From its creation on, whatever length it was created with, a table is a finite map. */
  lemma CreatedRunRefines<K(!new), V(!new)>(primeindex: nat, ks: Keys<K>, ops: seq<Op<K, V>>)
    requires primeindex < |PRIMES| && Lawful(ks) && Fair(map[], ks, ops)
    ensures Run(New<K, V>(primeindex), ks, ops).1 == MapRun(map[], ks, ops).1
  {
    NewRepresents<K, V>(primeindex, ks);
    RunRefines(New<K, V>(primeindex), map[], ks, ops);
  }

  // ---- The load factor ----

  /** The table is within its load limit, or cannot grow. */
  predicate Roomy<K, V>(t: Table<K, V>) { t.count <= t.loadlimit || t.primeindex == |PRIMES| - 1 }

  predicate Plenty<K, V>(op: Op<K, V>) { op.InsertOp? ==> op.mem.entry && (op.mem.table || op.mem.regrow) }

  lemma ExpandRoomy<K, V>(t: Table<K, V>, mem: Memory)
    requires Shaped(t) && t.primeindex < |PRIMES| - 1 && (mem.table || mem.regrow)
    ensures Expand(t, mem).count == t.count && Expand(t, mem).loadlimit > t.loadlimit
  {
    PrimesGrow(t.primeindex);
  }

  lemma StepRoomy<K, V>(t: Table<K, V>, ks: Keys<K>, op: Op<K, V>)
    requires Shaped(t) && Roomy(t) && Plenty(op)
    ensures Roomy(Step(t, ks, op).0)
  {
    if t.primeindex < |PRIMES| - 1 && op.InsertOp? {
      ExpandRoomy(t, op.mem);
    }
  }

  /** As long as growth finds memory, no call takes a table over its load limit while it can still grow. */
  lemma {:induction false} RunRoomy<K(!new), V(!new)>(t: Table<K, V>, ks: Keys<K>, ops: seq<Op<K, V>>)
    requires Valid(t) && Roomy(t)
    requires forall i :: 0 <= i < |ops| ==> Plenty(ops[i])
    ensures Roomy(Run(t, ks, ops).0)
    decreases |ops|
  {
    if ops != [] {
      StepValid(t, ks, ops[0]);
      StepRoomy(t, ks, ops[0]);
      RunRoomy(Step(t, ks, ops[0]).0, ks, ops[1..]);
    }
  }
}
