/** The chained hash table of tos/lib/tossim/hashtable.c on values: every operation as a
    function from table to table, and what those functions mean. HashTable.dfy ties the
    linked, in-place code to them. */
module HashTableSpec {
  import opened Options

  /** One entry of a chain. A value is a C pointer, so it may be NULL (None). */
  datatype Item<K, V> = Item(k: K, v: Option<V>, h: nat)

  type Buckets<K, V> = seq<seq<Item<K, V>>>

  /** The two functions a table is created with; hash is the caller's function after mixing. */
  datatype Keys<!K> = Keys(hash: K -> nat, eq: (K, K) -> bool)

  /** What a caller promises: eq is an equivalence and equal keys have equal hashes. */
  ghost predicate Lawful<K(!new)>(ks: Keys<K>) {
    && (forall a :: ks.eq(a, a))
    && (forall a, b :: ks.eq(a, b) ==> ks.eq(b, a) && ks.hash(a) == ks.hash(b))
    && (forall a, b, c :: ks.eq(a, b) && ks.eq(b, c) ==> ks.eq(a, c))
  }

  datatype Table<K, V> = Table(buckets: Buckets<K, V>, count: int, loadlimit: nat, primeindex: nat)

  /** Which of the allocations an operation may ask for succeed. */
  datatype Memory = Memory(table: bool, regrow: bool, entry: bool)

  const PRIMES: seq<nat> := [
    53, 97, 193, 389, 769, 1543, 3079, 6151, 12289, 24593, 49157, 98317, 196613, 393241, 786433,
    1572869, 3145739, 6291469, 12582917, 25165843, 50331653, 100663319, 201326611, 402653189,
    805306457, 1610612741]

  /** What single precision takes off the load limit of a length, see SinglePrecision. */
  function Shortfall(n: nat): nat {
    if n < 12582917 then 0
    else if n == 12582917 then 1
    else if n == 50331653 then 3
    else if n == 100663319 then 2
    else if n == 201326611 then 10
    else if n == 402653189 then 13
    else if n == 805306457 then 46
    else if n == 1610612741 then 42
    else 0
  }

  /** The load limit: 0.65 of the table length, rounded up, as single precision has it. */
  function LoadLimit(n: nat): nat { (65 * n + 99) / 100 - Shortfall(n) }

  /** The table of length PRIMES[primeindex] is 65 percent full with count entries, or lacks so few. */
  predicate Full(count: int, primeindex: nat)
    requires primeindex < |PRIMES|
  {
    var short :=
      if primeindex == 18 then 1
      else if primeindex == 20 then 3
      else if primeindex == 21 then 2
      else if primeindex == 22 then 10
      else if primeindex == 23 then 13
      else if primeindex == 24 then 46
      else if primeindex == 25 then 42
      else 0;
    20 * (count + short) >= 13 * PRIMES[primeindex]
  }

  /** With the shortfall the limit is the least integer not below 0.65 of the length, and one more entry
      passes the limit exactly when the table is full. */
  lemma LoadLimitIs(i: nat, count: int)
    requires i < |PRIMES|
    ensures var n := PRIMES[i];
            && 20 * (LoadLimit(n) + Shortfall(n) - 1) < 13 * n <= 20 * (LoadLimit(n) + Shortfall(n))
            && (count + 1 > LoadLimit(n) <==> Full(count, i))
  {
  }

  function IndexFor(n: nat, h: nat): (i: nat)
    requires n > 0
    ensures i < n
  {
    h % n
  }

  predicate Matches<K, V>(e: Item<K, V>, ks: Keys<K>, k: K) { ks.hash(k) == e.h && ks.eq(k, e.k) }

  /** The place of the first entry for k in a chain; the chain's length if there is none. */
  function FirstMatch<K, V>(c: seq<Item<K, V>>, ks: Keys<K>, k: K): (j: nat)
    ensures j <= |c|
    ensures j < |c| ==> Matches(c[j], ks, k)
    ensures forall i :: 0 <= i < j ==> !Matches(c[i], ks, k)
  {
    if c == [] || Matches(c[0], ks, k) then 0 else 1 + FirstMatch(c[1..], ks, k)
  }

  function Without<T>(s: seq<T>, j: nat): seq<T>
    requires j < |s|
  {
    s[..j] + s[j + 1..]
  }

  function Push<K, V>(b: Buckets<K, V>, e: Item<K, V>): (r: Buckets<K, V>)
    requires |b| > 0
    ensures |r| == |b|
  {
    var i := IndexFor(|b|, e.h);
    b[i := [e] + b[i]]
  }

  /** Growth into a fresh table: heads of the old chains i, i + 1, ... go to the front of their new chain. */
  function FreshFrom<K, V>(src: Buckets<K, V>, i: nat, dst: Buckets<K, V>): (r: Buckets<K, V>)
    requires |dst| > 0
    ensures |r| == |dst|
    decreases |src| - i, if i < |src| then |src[i]| else 0
  {
    if i >= |src| then dst
    else if src[i] == [] then FreshFrom(src, i + 1, dst)
    else FreshFrom(src[i := src[i][1..]], i, Push(dst, src[i][0]))
  }

  /** Growth in place: chain i is scanned from place p, and an entry that belongs elsewhere is
      unlinked and put at the front of its new chain. */
  function InPlaceFrom<K, V>(b: Buckets<K, V>, i: nat, p: nat, n0: nat): (r: Buckets<K, V>)
    requires 0 < n0 <= |b|
    ensures |r| == |b|
    decreases n0 - i, if i < |b| then |b[i]| - p else 0
  {
    if i >= n0 then b
    else if p >= |b[i]| then InPlaceFrom(b, i + 1, 0, n0)
    else
      var e := b[i][p];
      if IndexFor(|b|, e.h) == i then InPlaceFrom(b, i, p + 1, n0)
      else InPlaceFrom(Push(b[i := Without(b[i], p)], e), i, p, n0)
  }

  function Empty<K, V>(n: nat): Buckets<K, V> { seq(n, _ => []) }

  function Fresh<K, V>(b: Buckets<K, V>, n: nat): Buckets<K, V>
    requires n > 0
  {
    FreshFrom(b, 0, Empty(n))
  }

  function InPlace<K, V>(b: Buckets<K, V>, tail: Buckets<K, V>): Buckets<K, V>
    requires |b| > 0
  {
    InPlaceFrom(b + tail, 0, 0, |b|)
  }

  lemma NextLonger(i: nat)
    requires i + 1 < |PRIMES|
    ensures 0 < PRIMES[i] < PRIMES[i + 1]
  {
  }

  /** The lengths about double, and the load limits grow too. */
  lemma PrimesGrow(i: nat)
    requires i + 1 < |PRIMES|
    ensures 0 < PRIMES[i] < PRIMES[i + 1] && PRIMES[0] == 53 && |PRIMES| == 26
    ensures 2 * PRIMES[i] < PRIMES[i + 1] + 200 && PRIMES[i + 1] < 2 * PRIMES[i] + 100
    ensures LoadLimit(PRIMES[i]) < LoadLimit(PRIMES[i + 1])
  {
  }

  /** The index into PRIMES is in range and names the table length. */
  predicate Shaped<K, V>(t: Table<K, V>) {
    && t.primeindex < |PRIMES|
    && |t.buckets| > 0
    && |t.buckets| == PRIMES[t.primeindex]
    && t.loadlimit == LoadLimit(|t.buckets|)
  }

  /** Growth, with the slots that realloc adds cleared as line 108 of the code is meant to. */
  function Expand<K, V>(t: Table<K, V>, mem: Memory): (r: Table<K, V>)
    requires Shaped(t)
    ensures Shaped(r)
  {
    if t.primeindex == |PRIMES| - 1 then t
    else
      var n := (NextLonger(t.primeindex); PRIMES[t.primeindex + 1]);
      if mem.table then
        Table(Fresh(t.buckets, n), t.count, LoadLimit(n), t.primeindex + 1)
      else if mem.regrow then
        Table(InPlace(t.buckets, Empty(n - |t.buckets|)), t.count, LoadLimit(n), t.primeindex + 1)
      else t
  }

  /** The three outcomes, n being the next length. */
  lemma ExpandTo<K, V>(t: Table<K, V>, mem: Memory, n: nat)
    requires Shaped(t) && t.primeindex < |PRIMES| - 1 && n == PRIMES[t.primeindex + 1]
    ensures n > |t.buckets|
    ensures mem.table ==> Expand(t, mem).buckets == Fresh(t.buckets, n)
    ensures !mem.table && mem.regrow ==> Expand(t, mem).buckets == InPlace(t.buckets, Empty(n - |t.buckets|))
    ensures mem.table || mem.regrow ==>
      var r := Expand(t, mem);
      r.count == t.count && r.loadlimit == LoadLimit(n) && r.primeindex == t.primeindex + 1
    ensures !mem.table && !mem.regrow ==> Expand(t, mem) == t
  {
    NextLonger(t.primeindex);
  }

  /** Growth that finds memory, as one table. */
  lemma ExpandTable<K, V>(t: Table<K, V>, mem: Memory, n: nat) returns (b: Buckets<K, V>)
    requires Shaped(t) && t.primeindex < |PRIMES| - 1 && n == PRIMES[t.primeindex + 1] && (mem.table || mem.regrow)
    ensures n > |t.buckets|
    ensures b == if mem.table then Fresh(t.buckets, n) else InPlace(t.buckets, Empty(n - |t.buckets|))
    ensures Expand(t, mem) == Table(b, t.count, LoadLimit(n), t.primeindex + 1)
  {
    ExpandTo(t, mem, n);
    b := if mem.table then Fresh(t.buckets, n) else InPlace(t.buckets, Empty(n - |t.buckets|));
  }

  lemma ExpandIgnoresCount<K, V>(t: Table<K, V>, c: int, mem: Memory)
    requires Shaped(t)
    ensures Expand(t.(count := c), mem) == Expand(t, mem).(count := c)
  {
    if t.primeindex < |PRIMES| - 1 && (mem.table || mem.regrow) {
      var n := PRIMES[t.primeindex + 1];
      var b := ExpandTable(t, mem, n);
      var b' := ExpandTable(t.(count := c), mem, n);
    }
  }

  /** The empty table of length PRIMES[primeindex]. */
  function New<K, V>(primeindex: nat): Table<K, V>
    requires primeindex < |PRIMES|
  {
    Table(Empty(PRIMES[primeindex]), 0, LoadLimit(PRIMES[primeindex]), primeindex)
  }

  /** Insertion: grow first if one more entry would pass the load limit, then put the entry in
      front of its chain, unless there is no memory for it. */
  function Insert<K, V>(t: Table<K, V>, ks: Keys<K>, k: K, v: Option<V>, mem: Memory): (r: (Table<K, V>, bool))
    requires Shaped(t)
    ensures Shaped(r.0)
  {
    var t1 := if t.count + 1 > t.loadlimit then Expand(t, mem) else t;
    if mem.entry then (t1.(buckets := Push(t1.buckets, Item(k, v, ks.hash(k))), count := t.count + 1), true)
    else (t1, false)
  }

  function Search<K, V>(t: Table<K, V>, ks: Keys<K>, k: K): Option<V>
    requires |t.buckets| > 0
  {
    var c := t.buckets[IndexFor(|t.buckets|, ks.hash(k))];
    var j := FirstMatch(c, ks, k);
    if j < |c| then c[j].v else None
  }

  /** The table without its first entry for k; the value is Search's. */
  function Remove<K, V>(t: Table<K, V>, ks: Keys<K>, k: K): (r: Table<K, V>)
    requires |t.buckets| > 0
    ensures Shaped(t) ==> Shaped(r)
  {
    var i := IndexFor(|t.buckets|, ks.hash(k));
    var c := t.buckets[i];
    var j := FirstMatch(c, ks, k);
    if j < |c| then t.(buckets := t.buckets[i := Without(c, j)], count := t.count - 1) else t
  }

  /** Search and Remove when the first entry for k is at place j of chain i. */
  lemma FoundAt<K, V>(t: Table<K, V>, ks: Keys<K>, k: K, i: nat, j: nat)
    requires Shaped(t) && i == IndexFor(|t.buckets|, ks.hash(k)) && j == FirstMatch(t.buckets[i], ks, k)
    ensures var c, r := t.buckets[i], Remove(t, ks, k);
            if j < |c| then
              && Search(t, ks, k) == c[j].v && r.buckets == t.buckets[i := Without(c, j)]
              && r.count == t.count - 1 && r.loadlimit == t.loadlimit && r.primeindex == t.primeindex
            else Search(t, ks, k) == None && r == t
  {
  }
}
