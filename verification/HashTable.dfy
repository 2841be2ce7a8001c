/** The linked form of the table: an array of chain heads, entries joined by next, growth that
    relinks entries without copying them. Each method's effect is the function of the same name
    in HashTableSpec. */
module ChainedHashTable {
  import opened Options
  import opened HashTableSpec
  import opened SinglePrecision

  /** The mixing step applied to the caller's hash value, on 32-bit words. */
  function Mix(k: bv32): bv32 {
    var a := k + !(k << 9);
    var b := a ^ ((a >> 14) | (a << 18));
    var c := b + (b << 4);
    c ^ ((c >> 10) | (c << 22))
  }

  /** Some of its values; it is not one to one. */
  lemma MixValues()
    ensures Mix(1) == 0xfc5d_cee7 && Mix(0xdead_beef) == 0x51b6_cc4d && Mix(0) == Mix(0x0558_0156) == 0
  {
  }

  class Entry<K, V> {
    const k: K
    const v: Option<V>
    const h: nat
    var next: Entry?<K, V>

    constructor (k: K, v: Option<V>, h: nat, next: Entry?<K, V>)
      ensures this.k == k && this.v == v && this.h == h && this.next == next
    {
      this.k, this.v, this.h, this.next := k, v, h, next;
    }
  }

  // ---- Chains of linked entries, and the items they carry ----

  type Chains<K, V> = seq<seq<Entry<K, V>>>

  ghost function ItemOf<K, V>(e: Entry<K, V>): Item<K, V> { Item(e.k, e.v, e.h) }

  /** The chains carry exactly these items, entry by entry. */
  ghost predicate Carry<K, V>(cs: Chains<K, V>, b: Buckets<K, V>) {
    && |cs| == |b|
    && (forall i :: 0 <= i < |cs| ==> |cs[i]| == |b[i]|)
    && (forall i, j :: 0 <= i < |cs| && 0 <= j < |cs[i]| ==> ItemOf(cs[i][j]) == b[i][j])
  }

  ghost function Cells<K, V>(cs: Chains<K, V>): set<Entry<K, V>> {
    set i, j | 0 <= i < |cs| && 0 <= j < |cs[i]| :: cs[i][j]
  }

  /** The entry at place j of a chain; NULL past its end. */
  ghost function At<K, V>(c: seq<Entry<K, V>>, j: nat): Entry?<K, V> { if j < |c| then c[j] else null }

  /** The links in memory spell out exactly these chains. */
  ghost predicate Wired<K, V>(table: array<Entry?<K, V>>, cs: Chains<K, V>)
    reads table, Cells(cs)
  {
    && table.Length == |cs|
    && (forall i :: 0 <= i < |cs| ==> table[i] == At(cs[i], 0))
    && (forall i, j {:trigger cs[i][j].next} :: 0 <= i < |cs| && 0 <= j < |cs[i]| ==> cs[i][j].next == At(cs[i], j + 1))
  }

  /** No entry is in two places. */
  ghost predicate Distinct<K, V>(cs: Chains<K, V>) {
    forall i, j, i', j' ::
      (0 <= i < |cs| && 0 <= j < |cs[i]| && 0 <= i' < |cs| && 0 <= j' < |cs[i']| && cs[i][j] == cs[i'][j'])
      ==> i == i' && j == j'
  }

  /** The chains after the entry at place p of chain i has become the first of chain t. */
  ghost function Moved<K, V>(cs: Chains<K, V>, i: nat, p: nat, t: nat): Chains<K, V>
    requires i < |cs| && t < |cs| && i != t && p < |cs[i]|
  {
    cs[i := Without(cs[i], p)][t := [cs[i][p]] + cs[t]]
  }

  /** Where the entry at place j of chain a of Moved(cs, i, p, t) was before. */
  ghost function Origin<K, V>(cs: Chains<K, V>, i: nat, p: nat, t: nat, a: nat, j: nat): (r: (nat, nat))
    requires i < |cs| && t < |cs| && i != t && p < |cs[i]|
    requires a < |cs| && j < |Moved(cs, i, p, t)[a]|
    ensures r.0 < |cs| && r.1 < |cs[r.0]|
    ensures Moved(cs, i, p, t)[a][j] == cs[r.0][r.1]
  {
    if a == t then (if j == 0 then (i, p) else (t, j - 1))
    else if a == i then (i, if j < p then j else j + 1)
    else (a, j)
  }

  lemma MovedDistinct<K, V>(cs: Chains<K, V>, i: nat, p: nat, t: nat)
    requires i < |cs| && t < |cs| && i != t && p < |cs[i]| && Distinct(cs)
    ensures Distinct(Moved(cs, i, p, t)) && Cells(Moved(cs, i, p, t)) == Cells(cs)
  {
    var m := Moved(cs, i, p, t);
    forall a, j, a', j' | 0 <= a < |m| && 0 <= j < |m[a]| && 0 <= a' < |m| && 0 <= j' < |m[a']| && m[a][j] == m[a'][j']
      ensures a == a' && j == j'
    {
      var o, o' := Origin(cs, i, p, t, a, j), Origin(cs, i, p, t, a', j');
      assert cs[o.0][o.1] == cs[o'.0][o'.1];
    }
    forall e | e in Cells(m)
      ensures e in Cells(cs)
    {
      var a, j :| 0 <= a < |m| && 0 <= j < |m[a]| && m[a][j] == e;
      var o := Origin(cs, i, p, t, a, j);
    }
    forall e | e in Cells(cs)
      ensures e in Cells(m)
    {
      var a, j :| 0 <= a < |cs| && 0 <= j < |cs[a]| && cs[a][j] == e;
      var j' := if a == i && j > p then j - 1 else if a == i && j == p then 0 else if a == t then j + 1 else j;
      assert m[if a == i && j == p then t else a][j'] == e;
    }
  }

  lemma CarryWithout<K, V>(cs: Chains<K, V>, b: Buckets<K, V>, i: nat, p: nat)
    requires Carry(cs, b) && i < |cs| && p < |cs[i]|
    ensures Carry(cs[i := Without(cs[i], p)], b[i := Without(b[i], p)])
  {
  }

  lemma CarryPush<K, V>(cs: Chains<K, V>, b: Buckets<K, V>, e: Entry<K, V>)
    requires Carry(cs, b) && |b| > 0
    ensures var t := IndexFor(|b|, e.h); Carry(cs[t := [e] + cs[t]], Push(b, ItemOf(e)))
  {
  }

  lemma FirstMatchAt<K, V>(cs: Chains<K, V>, b: Buckets<K, V>, i: nat, ks: Keys<K>, k: K, p: nat)
    requires Carry(cs, b) && i < |cs|
    requires p <= |cs[i]| && (p < |cs[i]| ==> Matches(ItemOf(cs[i][p]), ks, k))
    requires forall j :: 0 <= j < p ==> !Matches(ItemOf(cs[i][j]), ks, k)
    ensures FirstMatch(b[i], ks, k) == p
  {
    assert p < |cs[i]| ==> b[i][p] == ItemOf(cs[i][p]);
    assert forall j :: 0 <= j < p ==> b[i][j] == ItemOf(cs[i][j]);
  }

  // ---- The two relinkings every operation is made of ----

  /** The entry at place p of chain i is nowhere else. */
  ghost predicate OnlyAt<K, V>(cs: Chains<K, V>, i: nat, p: nat)
    requires i < |cs| && p < |cs[i]|
  {
    forall a, j :: 0 <= a < |cs| && 0 <= j < |cs[a]| && cs[a][j] == cs[i][p] ==> a == i && j == p
  }

  /** Points the slot that leads to entry p of chain i past it: prev's next, or the head slot. */
  method Unlink<K, V>(table: array<Entry?<K, V>>, i: nat, prev: Entry?<K, V>, e: Entry<K, V>,
                      ghost cs: Chains<K, V>, ghost p: nat)
    requires Wired(table, cs) && i < |cs| && p < |cs[i]|
    requires e == cs[i][p] && prev == (if p == 0 then null else cs[i][p - 1])
    requires OnlyAt(cs, i, p) && (p > 0 ==> OnlyAt(cs, i, p - 1))
    modifies if prev == null then {table} else {prev}
    ensures Wired(table, cs[i := Without(cs[i], p)]) && e.next == old(e.next)
  {
    if prev == null {
      table[i] := e.next;
    } else {
      prev.next := e.next;
    }
    ghost var ds: Chains<K, V> := cs[i := Without(cs[i], p)];
    forall a, j | 0 <= a < |ds| && 0 <= j < |ds[a]|
      ensures ds[a][j].next == At(ds[a], j + 1)
    {
      ghost var j0 := if a == i && j >= p then j + 1 else j;
      assert ds[a][j] == cs[a][j0];
      assert a == i && j0 + 1 == p ==> cs[a][j0] == prev;
    }
  }

  /** Makes a loose entry the head of chain t. */
  method PushFront<K, V>(table: array<Entry?<K, V>>, t: nat, e: Entry<K, V>, ghost cs: Chains<K, V>)
    requires Wired(table, cs) && t < |cs| && e !in Cells(cs)
    modifies table, e`next
    ensures Wired(table, cs[t := [e] + cs[t]])
  {
    e.next := table[t];
    table[t] := e;
    ghost var ds: Chains<K, V> := cs[t := [e] + cs[t]];
    forall a, j | 0 <= a < |ds| && 0 <= j < |ds[a]|
      ensures ds[a][j].next == At(ds[a], j + 1)
    {
      assert a == t && j > 0 ==> ds[a][j] == cs[a][j - 1];
    }
  }

  lemma PushDistinct<K, V>(cs: Chains<K, V>, t: nat, e: Entry<K, V>)
    requires Distinct(cs) && t < |cs| && e !in Cells(cs)
    ensures var ds := cs[t := [e] + cs[t]]; Distinct(ds) && Cells(ds) == Cells(cs) + {e}
  {
    var ds := cs[t := [e] + cs[t]];
    assert ds[t][0] == e;
    assert forall a, j :: 0 <= a < |ds| && 0 <= j < |ds[a]| && (a != t || j != 0) ==>
      ds[a][j] == cs[a][if a == t then j - 1 else j];
    forall x | x in Cells(cs)
      ensures x in Cells(ds)
    {
      var a, j :| 0 <= a < |cs| && 0 <= j < |cs[a]| && cs[a][j] == x;
      assert ds[a][if a == t then j + 1 else j] == x;
    }
  }

  lemma DropShrinks<K, V>(cs: Chains<K, V>, i: nat, p: nat)
    requires Distinct(cs) && i < |cs| && p < |cs[i]|
    ensures var ds := cs[i := Without(cs[i], p)]; Distinct(ds) && Cells(ds) <= Cells(cs)
  {
    var ds := cs[i := Without(cs[i], p)];
    assert forall a, j :: 0 <= a < |ds| && 0 <= j < |ds[a]| ==>
      ds[a][j] == cs[a][if a == i && j >= p then j + 1 else j];
  }

  lemma DistinctOnlyAt<K, V>(cs: Chains<K, V>, i: nat, p: nat)
    requires Distinct(cs) && i < |cs| && p < |cs[i]|
    ensures OnlyAt(cs, i, p)
    ensures cs[i][p] !in Cells(cs[i := Without(cs[i], p)])
  {
    var ds: Chains<K, V> := cs[i := Without(cs[i], p)];
    forall a, j | 0 <= a < |ds| && 0 <= j < |ds[a]|
      ensures ds[a][j] != cs[i][p]
    {
      assert ds[a][j] == cs[a][if a == i && j >= p then j + 1 else j];
    }
  }

  /** The head of chain i of src is nowhere else. */
  lemma HeadOnly<K, V>(src: Chains<K, V>, dst: Chains<K, V>, i: nat)
    requires i < |src| && src[i] != [] && Distinct(src + dst)
    ensures OnlyAt(src, i, 0) && src[i][0] !in Cells(dst)
  {
    var all := src + dst;
    DistinctOnlyAt(all, i, 0);
    forall a, j | 0 <= a < |src| && 0 <= j < |src[a]| && src[a][j] == src[i][0]
      ensures a == i && j == 0
    {
      assert all[a][j] == all[i][0];
    }
    forall a, j | 0 <= a < |dst| && 0 <= j < |dst[a]|
      ensures dst[a][j] != src[i][0]
    {
      assert all[|src| + a][j] == dst[a][j];
    }
  }

  lemma OnlyHead<K, V>(src: Chains<K, V>, i: nat)
    requires i < |src| && src[i] != [] && OnlyAt(src, i, 0)
    ensures src[i][0] !in Cells(src[i := Without(src[i], 0)])
  {
    var src' := src[i := Without(src[i], 0)];
    forall a, j | 0 <= a < |src'| && 0 <= j < |src'[a]|
      ensures src'[a][j] != src[i][0]
    {
      assert src'[a][j] == src[a][if a == i then j + 1 else j];
    }
  }

  /** What taking the head of chain i of src to chain t of dst leaves true. */
  lemma HeadMoves<K, V>(src: Chains<K, V>, dst: Chains<K, V>, i: nat, t: nat)
    requires i < |src| && t < |dst| && src[i] != [] && Distinct(src + dst)
    ensures var src', dst' := src[i := Without(src[i], 0)], dst[t := [src[i][0]] + dst[t]];
            Distinct(src' + dst') && Cells(src' + dst') == Cells(src + dst)
  {
    var all := src + dst;
    var src', dst' := src[i := Without(src[i], 0)], dst[t := [src[i][0]] + dst[t]];
    MovedDistinct(all, i, 0, |src| + t);
    assert Moved(all, i, 0, |src| + t) == src' + dst';
  }

  /** Takes the head of chain i of the old table to the front of its chain in the new one. */
  method MoveHead<K, V>(table: array<Entry?<K, V>>, newtable: array<Entry?<K, V>>, i: nat,
                        ghost src: Chains<K, V>, ghost dst: Chains<K, V>,
                        ghost b: Buckets<K, V>, ghost d: Buckets<K, V>)
    returns (ghost src': Chains<K, V>, ghost dst': Chains<K, V>, ghost b': Buckets<K, V>, ghost d': Buckets<K, V>)
    requires Wired(table, src) && Wired(newtable, dst) && Distinct(src + dst)
    requires Carry(src, b) && Carry(dst, d)
    requires table != newtable && i < |src| && |dst| > 0 && src[i] != []
    modifies table, newtable, src[i][0]
    ensures Wired(table, src') && Wired(newtable, dst') && Distinct(src' + dst')
    ensures Carry(src', b') && Carry(dst', d')
    ensures |dst'| == |dst| && src' == src[i := Without(src[i], 0)] && Cells(src' + dst') == Cells(src + dst)
    ensures FreshFrom(b', i, d') == FreshFrom(b, i, d)
  {
    var e := table[i];
    var tindex := IndexFor(newtable.Length, e.h);
    HeadOnly(src, dst, i);
    OnlyHead(src, i);
    HeadMoves(src, dst, i, tindex);
    CarryWithout(src, b, i, 0);
    CarryPush(dst, d, e);
    Unlink(table, i, null, e, src, 0);
    PushFront(newtable, tindex, e, dst);
    src', dst' := src[i := Without(src[i], 0)], dst[tindex := [e] + dst[tindex]];
    b', d' := b[i := Without(b[i], 0)], Push(d, ItemOf(e));
    assert Without(b[i], 0) == b[i][1..] && b[i][0] == ItemOf(e);
  }

  /** Takes the entry at place p of chain i to the front of the chain it belongs to. */
  method MoveWithin<K, V>(table: array<Entry?<K, V>>, i: nat, prev: Entry?<K, V>, e: Entry<K, V>,
                          ghost n0: nat, ghost cs: Chains<K, V>, ghost b: Buckets<K, V>, ghost p: nat)
    returns (ghost cs': Chains<K, V>, ghost b': Buckets<K, V>)
    requires Wired(table, cs) && Distinct(cs) && Carry(cs, b)
    requires i < n0 <= |cs| && p < |cs[i]| && IndexFor(|cs|, e.h) != i
    requires e == cs[i][p] && prev == (if p == 0 then null else cs[i][p - 1])
    modifies table, if prev == null then {} else {prev}, e
    ensures Wired(table, cs') && Distinct(cs') && Carry(cs', b') && Cells(cs') == Cells(cs)
    ensures |cs'| == |cs| && cs'[i] == Without(cs[i], p)
    ensures InPlaceFrom(b', i, p, n0) == InPlaceFrom(b, i, p, n0)
  {
    var tindex := IndexFor(table.Length, e.h);
    MovedDistinct(cs, i, p, tindex);
    DistinctOnlyAt(cs, i, p);
    if prev != null {
      DistinctOnlyAt(cs, i, p - 1);
    }
    ghost var cut := cs[i := Without(cs[i], p)];
    CarryWithout(cs, b, i, p);
    CarryPush(cut, b[i := Without(b[i], p)], e);
    Unlink(table, i, prev, e, cs, p);
    PushFront(table, tindex, e, cut);
    assert b[i][p] == ItemOf(e);
    cs', b' := Moved(cs, i, p, tindex), Push(b[i := Without(b[i], p)], ItemOf(e));
  }

  lemma CellsOfParts<K, V>(src: Chains<K, V>, dst: Chains<K, V>)
    ensures Cells(src + dst) == Cells(src) + Cells(dst)
    ensures Distinct(src + dst) ==> Distinct(dst)
    ensures Distinct(src) && (forall i :: 0 <= i < |dst| ==> dst[i] == []) ==> Distinct(src + dst)
  {
    var all := src + dst;
    assert forall a :: 0 <= a < |dst| ==> all[|src| + a] == dst[a];
    assert forall a :: 0 <= a < |src| ==> all[a] == src[a];
  }

  /** Empties chain i of the old table into the new one. */
  method DrainChain<K, V>(table: array<Entry?<K, V>>, newtable: array<Entry?<K, V>>, i: nat,
                          ghost src0: Chains<K, V>, ghost dst0: Chains<K, V>,
                          ghost b0: Buckets<K, V>, ghost d0: Buckets<K, V>)
    returns (ghost src: Chains<K, V>, ghost dst: Chains<K, V>, ghost b: Buckets<K, V>, ghost d: Buckets<K, V>)
    requires Wired(table, src0) && Wired(newtable, dst0) && Distinct(src0 + dst0)
    requires Carry(src0, b0) && Carry(dst0, d0)
    requires table != newtable && i < |src0| && |dst0| > 0
    modifies table, newtable, Cells(src0 + dst0)
    ensures Wired(table, src) && Wired(newtable, dst) && Distinct(src + dst)
    ensures Carry(src, b) && Carry(dst, d)
    ensures |dst| == |dst0| && src == src0[i := []] && Cells(src + dst) == Cells(src0 + dst0)
    ensures FreshFrom(b, i, d) == FreshFrom(b0, i, d0)
  {
    src, dst, b, d := src0, dst0, b0, d0;
    while table[i] != null
      invariant |dst| == |dst0| && |src| == |src0|
      invariant Wired(table, src) && Wired(newtable, dst) && Distinct(src + dst)
      invariant Carry(src, b) && Carry(dst, d) && Cells(src + dst) == Cells(src0 + dst0)
      invariant src == src0[i := src[i]]
      invariant FreshFrom(b, i, d) == FreshFrom(b0, i, d0)
      decreases |src[i]|
    {
      assert (src + dst)[i][0] == src[i][0];
      src, dst, b, d := MoveHead(table, newtable, i, src, dst, b, d);
    }
    assert At(src[i], 0) == null;
  }

  lemma CarryConcat<K, V>(cs: Chains<K, V>, b: Buckets<K, V>, n: nat)
    requires Carry(cs, b)
    ensures Carry(cs + seq(n, _ => []), b + Empty(n))
  {
  }

  /** The nested loops of growth into a fresh table. */
  method RehashFresh<K, V>(table: array<Entry?<K, V>>, newtable: array<Entry?<K, V>>,
                           ghost cs: Chains<K, V>, ghost b0: Buckets<K, V>, ghost goal: Buckets<K, V>)
    returns (ghost dst: Chains<K, V>)
    requires newtable.Length > 0 && goal == Fresh(b0, newtable.Length)
    requires Wired(table, cs) && Distinct(cs) && Carry(cs, b0) && table != newtable
    requires forall i :: 0 <= i < newtable.Length ==> newtable[i] == null
    modifies table, newtable, Cells(cs)
    ensures Wired(newtable, dst) && Distinct(dst) && Cells(dst) == Cells(cs)
    ensures Carry(dst, goal)
  {
    ghost var src, b, d := cs, b0, Empty<K, V>(newtable.Length);
    dst := seq(newtable.Length, _ => []);
    CellsOfParts(src, dst);
    var i := 0;
    while i < table.Length
      invariant i <= table.Length && |dst| == newtable.Length
      invariant Wired(table, src) && Wired(newtable, dst) && Distinct(src + dst)
      invariant Carry(src, b) && Carry(dst, d) && Cells(src + dst) == Cells(cs)
      invariant forall a :: 0 <= a < i ==> |src[a]| == 0
      invariant FreshFrom(b, i, d) == goal
    {
      src, dst, b, d := DrainChain(table, newtable, i, src, dst, b, d);
      assert |b[i]| == |src[i]|;
      i := i + 1;
    }
    CellsOfParts(src, dst);
    assert Cells(src) == {};
  }

  /** Scans chain i and takes every entry that belongs elsewhere to its chain; n0 is the old length. */
  method ScanChain<K, V>(table: array<Entry?<K, V>>, i: nat, ghost n0: nat,
                         ghost cs0: Chains<K, V>, ghost b0: Buckets<K, V>)
    returns (ghost cs: Chains<K, V>, ghost b: Buckets<K, V>)
    requires Wired(table, cs0) && Distinct(cs0) && Carry(cs0, b0) && i < n0 <= |cs0|
    modifies table, Cells(cs0)
    ensures Wired(table, cs) && Distinct(cs) && Carry(cs, b) && Cells(cs) == Cells(cs0)
    ensures |cs| == |cs0| && InPlaceFrom(b, i + 1, 0, n0) == InPlaceFrom(b0, i, 0, n0)
  {
    cs, b := cs0, b0;
    // prev is the entry whose next is e's slot; NULL while that slot is table[i] itself
    var prev: Entry?<K, V> := null;
    var e := table[i];
    ghost var p := 0;
    while e != null
      invariant |cs| == |cs0| && p <= |cs[i]|
      invariant e == At(cs[i], p) && prev == (if p == 0 then null else cs[i][p - 1])
      invariant Wired(table, cs) && Distinct(cs) && Carry(cs, b) && Cells(cs) == Cells(cs0)
      invariant InPlaceFrom(b, i, p, n0) == InPlaceFrom(b0, i, 0, n0)
      decreases |cs[i]| - p
    {
      assert b[i][p] == ItemOf(e);
      if IndexFor(table.Length, e.h) == i {
        prev := e;
        p := p + 1;
      } else {
        cs, b := MoveWithin(table, i, prev, e, n0, cs, b, p);
      }
      assert p > 0 ==> prev == cs[i][p - 1];
      e := if prev == null then table[i] else prev.next;
    }
    assert p == |b[i]|;
  }

  /** The loop of growth in place over the old chains. */
  method RehashInPlace<K, V>(table: array<Entry?<K, V>>, n0: nat, ghost cs0: Chains<K, V>, ghost b0: Buckets<K, V>,
                             ghost goal: Buckets<K, V>)
    returns (ghost cs: Chains<K, V>)
    requires Wired(table, cs0) && Distinct(cs0) && Carry(cs0, b0)
    requires 0 < n0 <= table.Length && goal == InPlaceFrom(b0, 0, 0, n0)
    modifies table, Cells(cs0)
    ensures Wired(table, cs) && Distinct(cs) && Cells(cs) == Cells(cs0)
    ensures Carry(cs, goal)
  {
    ghost var b := b0;
    cs := cs0;
    for i := 0 to n0
      invariant |cs| == table.Length
      invariant Wired(table, cs) && Distinct(cs) && Carry(cs, b) && Cells(cs) == Cells(cs0)
      invariant InPlaceFrom(b, i, 0, n0) == goal
    {
      cs, b := ScanChain(table, i, n0, cs, b);
    }
    assert b == goal;
  }

  /** realloc to a longer array, with the added slots cleared. */
  method Regrown<K, V>(table: array<Entry?<K, V>>, newsize: nat, ghost cs: Chains<K, V>, ghost b: Buckets<K, V>)
    returns (newtable: array<Entry?<K, V>>, ghost longer: Chains<K, V>)
    requires Wired(table, cs) && Distinct(cs) && Carry(cs, b) && newsize > |cs|
    ensures fresh(newtable) && |longer| == newsize && Cells(longer) == Cells(cs)
    ensures Wired(newtable, longer) && Distinct(longer) && Carry(longer, b + Empty(newsize - |b|))
  {
    newtable := new Entry?<K, V>[newsize](_ => null);
    forall a | 0 <= a < table.Length {
      newtable[a] := table[a];
    }
    ghost var added: Chains<K, V> := seq(newsize - |cs|, _ => []);
    CellsOfParts(cs, added);
    CarryConcat(cs, b, newsize - |cs|);
    longer := cs + added;
  }

  /** Walks chain i to its first entry for k; prev is the entry before it, NULL at the head slot. */
  method Locate<K, V>(table: array<Entry?<K, V>>, i: nat, hashvalue: nat, eqfn: (K, K) -> bool, k: K,
                      ghost ks: Keys<K>, ghost cs: Chains<K, V>, ghost b: Buckets<K, V>)
    returns (prev: Entry?<K, V>, e: Entry?<K, V>, ghost p: nat)
    requires Wired(table, cs) && Carry(cs, b) && i < |cs| && hashvalue == ks.hash(k) && eqfn == ks.eq
    ensures p <= |cs[i]| && p == FirstMatch(b[i], ks, k)
    ensures e == At(cs[i], p) && prev == (if p == 0 then null else cs[i][p - 1])
    ensures e != null ==> ItemOf(e) == b[i][p]
  {
    prev, e, p := null, table[i], 0;
    while e != null && !(hashvalue == e.h && eqfn(k, e.k))
      invariant p <= |cs[i]| && e == At(cs[i], p) && prev == (if p == 0 then null else cs[i][p - 1])
      invariant forall j :: 0 <= j < p ==> !Matches(ItemOf(cs[i][j]), ks, k)
      decreases |cs[i]| - p
    {
      prev, e := e, e.next;
      p := p + 1;
    }
    FirstMatchAt(cs, b, i, ks, k, p);
  }

  /** The key functions of a table created with hashfn and eqfn. */
  ghost function KeysOf<K>(hashfn: K -> bv32, eqfn: (K, K) -> bool): Keys<K> {
    Keys(k => Mix(hashfn(k)) as nat, eqfn)
  }

  class HashTable<K(!new), V> {
    const hashfn: K -> bv32
    const eqfn: (K, K) -> bool
    var tablelength: nat
    var table: array<Entry?<K, V>>
    var entrycount: int
    var loadlimit: nat
    var primeindex: nat
    ghost var chains: Chains<K, V>
    ghost var buckets: Buckets<K, V>

    function Hash(k: K): nat { Mix(hashfn(k)) as nat }

    ghost function KeyFns(): Keys<K> { KeysOf(hashfn, eqfn) }

    /** The value this table stands for. */
    ghost function Model(): Table<K, V>
      reads this
    {
      Table(buckets, entrycount, loadlimit, primeindex)
    }

    ghost predicate Linked()
      reads this, table, Cells(chains)
    {
      tablelength == |chains| && Wired(table, chains) && Distinct(chains) && Carry(chains, buckets)
    }

    ghost predicate Valid()
      reads this, table, Cells(chains)
    {
      Linked() && Shaped(Model())
    }

    constructor Init(index: nat, hashfn: K -> bv32, eqfn: (K, K) -> bool)
      requires index < |PRIMES|
      ensures Valid() && Model() == New(index) && fresh(table)
      ensures this.hashfn == hashfn && this.eqfn == eqfn
    {
      NextLonger(if index + 1 < |PRIMES| then index else index - 1);
      var size := PRIMES[index];
      this.hashfn, this.eqfn := hashfn, eqfn;
      tablelength, primeindex, entrycount := size, index, 0;
      CodeLimits(index);
      loadlimit := CodeLimit(size);
      table := new Entry?<K, V>[size](_ => null);
      chains, buckets := seq(size, _ => []), Empty(size);
    }

    /** Creates a table whose length is the least prime above minsize; NULL if minsize is over 2^30
        or there is no memory. */
    static method Create(minsize: nat, hashfn: K -> bv32, eqfn: (K, K) -> bool, headerOk: bool, tableOk: bool)
      returns (h: HashTable?<K, V>)
      ensures h == null <==> minsize > 0x4000_0000 || !headerOk || !tableOk
      ensures h != null ==> fresh(h) && h.Valid() && fresh(h.table) && h.Model() == New(h.primeindex)
      ensures h != null ==> h.hashfn == hashfn && h.eqfn == eqfn
      ensures h != null ==>
        h.tablelength > minsize && forall i :: 0 <= i < h.primeindex ==> PRIMES[i] <= minsize
    {
      if minsize > 0x4000_0000 {
        return null;
      }
      var pindex := 0;
      while pindex < |PRIMES| && PRIMES[pindex] <= minsize
        invariant pindex <= |PRIMES|
        invariant forall i :: 0 <= i < pindex ==> PRIMES[i] <= minsize
      {
        pindex := pindex + 1;
      }
      assert PRIMES[25] > minsize;
      if !headerOk || !tableOk {
        return null;
      }
      h := new HashTable.Init(pindex, hashfn, eqfn);
    }

    /** Growth into a new array. */
    method ExpandFresh(newsize: nat, ghost goal: Buckets<K, V>)
      requires Linked() && newsize > 0 && goal == Fresh(buckets, newsize)
      modifies this`tablelength, this`table, this`chains, this`buckets, table, Cells(chains)
      ensures Linked() && fresh(table) && tablelength == newsize
      ensures buckets == goal && Cells(chains) == old(Cells(chains))
    {
      var newtable := new Entry?<K, V>[newsize](_ => null);
      chains := RehashFresh(table, newtable, chains, buckets, goal);
      buckets, table, tablelength := goal, newtable, newsize;
    }

    /** Growth in the old array, made longer by realloc; the added slots are cleared. */
    method ExpandInPlace(newsize: nat, ghost goal: Buckets<K, V>)
      requires Linked() && newsize > |buckets| > 0 && goal == InPlace(buckets, Empty(newsize - |buckets|))
      modifies this`tablelength, this`table, this`chains, this`buckets, Cells(chains)
      ensures Linked() && fresh(table) && tablelength == newsize
      ensures buckets == goal && Cells(chains) == old(Cells(chains))
    {
      var newtable, longer := Regrown(table, newsize, chains, buckets);
      chains := RehashInPlace(newtable, tablelength, longer, buckets + Empty(newsize - |buckets|), goal);
      buckets, table, tablelength := goal, newtable, newsize;
    }

    /** Growth along the path that has memory. */
    method Grow(newsize: nat, mem: Memory, ghost goal: Buckets<K, V>)
      requires Linked() && newsize > |buckets| > 0 && (mem.table || mem.regrow)
      requires goal == if mem.table then Fresh(buckets, newsize) else InPlace(buckets, Empty(newsize - |buckets|))
      modifies this`tablelength, this`table, this`chains, this`buckets, table, Cells(chains)
      ensures Linked() && fresh(table) && tablelength == newsize
      ensures buckets == goal && Cells(chains) == old(Cells(chains))
    {
      if mem.table {
        ExpandFresh(newsize, goal);
      } else {
        ExpandInPlace(newsize, goal);
      }
    }

    /** Takes the table to the next prime length, if there is one and memory for it. */
    method Expand(mem: Memory) returns (grew: bool)
      requires Valid()
      modifies this, table, Cells(chains)
      ensures Valid() && (table == old(table) || fresh(table))
      ensures Model() == HashTableSpec.Expand(old(Model()), mem)
      ensures Cells(chains) == old(Cells(chains))
      ensures grew <==> primeindex != old(primeindex)
    {
      if primeindex == |PRIMES| - 1 {
        return false;
      }
      var newsize := PRIMES[primeindex + 1];
      primeindex := primeindex + 1;
      if !mem.table && !mem.regrow {
        primeindex := primeindex - 1;
        return false;
      }
      GrowTo(newsize, mem);
      return true;
    }

    /** The rest of growth once primeindex has been raised. */
    method GrowTo(newsize: nat, mem: Memory)
      requires Linked() && (mem.table || mem.regrow)
      requires 0 < primeindex < |PRIMES| && newsize == PRIMES[primeindex]
      requires Shaped(Model().(primeindex := primeindex - 1))
      modifies this, table, Cells(chains)
      ensures Valid() && fresh(table) && primeindex == old(primeindex) && Cells(chains) == old(Cells(chains))
      ensures Model() == HashTableSpec.Expand(old(Model().(primeindex := primeindex - 1)), mem)
    {
      ghost var goal := ExpandTable(Model().(primeindex := primeindex - 1), mem, newsize);
      Resize(newsize, mem, goal);
    }

    /** The chains and the load limit for a new length. */
    method Resize(newsize: nat, mem: Memory, ghost goal: Buckets<K, V>)
      requires Linked() && newsize > |buckets| > 0 && (mem.table || mem.regrow)
      requires goal == if mem.table then Fresh(buckets, newsize) else InPlace(buckets, Empty(newsize - |buckets|))
      requires primeindex < |PRIMES| && newsize == PRIMES[primeindex]
      modifies this`tablelength, this`table, this`chains, this`buckets, this`loadlimit, table, Cells(chains)
      ensures Linked() && fresh(table) && Cells(chains) == old(Cells(chains))
      ensures buckets == goal && loadlimit == LoadLimit(newsize)
    {
      Grow(newsize, mem, goal);
      CodeLimits(primeindex);
      loadlimit := CodeLimit(newsize);
    }

    /** Counts one entry more, after growth if that passes the load limit. */
    method MakeRoom(mem: Memory)
      requires Valid()
      modifies this, table, Cells(chains)
      ensures Valid() && (table == old(table) || fresh(table))
      ensures Model() == (if old(entrycount) + 1 > old(loadlimit) then HashTableSpec.Expand(old(Model()), mem)
                          else old(Model())).(count := old(entrycount) + 1)
      ensures Cells(chains) == old(Cells(chains))
    {
      ghost var c := entrycount + 1;
      ghost var goal := HashTableSpec.Expand(Model().(count := c), mem);
      ExpandIgnoresCount(Model(), c, mem);
      entrycount := entrycount + 1;
      if entrycount > loadlimit {
        var _ := Expand(mem);
      }
    }

    /** Adds an entry for k in front of its chain; duplicates are not looked for. */
    method Insert(k: K, v: Option<V>, mem: Memory) returns (ok: bool)
      requires Valid()
      modifies this, table, Cells(chains)
      ensures Valid() && (table == old(table) || fresh(table))
      ensures Model() == HashTableSpec.Insert(old(Model()), KeyFns(), k, v, mem).0
      ensures ok == HashTableSpec.Insert(old(Model()), KeyFns(), k, v, mem).1
      ensures fresh(Cells(chains) - old(Cells(chains)))
    {
      MakeRoom(mem);
      if !mem.entry {
        entrycount := entrycount - 1;
        return false;
      }
      Link(k, v);
      return true;
    }

    /** Allocates the entry and makes it the head of its chain. */
    method Link(k: K, v: Option<V>)
      requires Linked() && tablelength > 0
      modifies this`chains, this`buckets, table
      ensures Linked() && fresh(Cells(chains) - old(Cells(chains)))
      ensures buckets == Push(old(buckets), Item(k, v, KeyFns().hash(k)))
    {
      var hashvalue := Hash(k);
      var tindex := IndexFor(tablelength, hashvalue);
      var e := new Entry(k, v, hashvalue, null);
      CarryPush(chains, buckets, e);
      PushFront(table, tindex, e, chains);
      PushDistinct(chains, tindex, e);
      chains := chains[tindex := [e] + chains[tindex]];
      buckets := Push(buckets, ItemOf(e));
    }

    method Count() returns (n: int)
      ensures n == entrycount
    {
      return entrycount;
    }

    /** The value of the first entry for k in its chain; NULL if there is none. */
    method Search(k: K) returns (v: Option<V>)
      requires Valid()
      ensures v == HashTableSpec.Search(Model(), KeyFns(), k)
    {
      var hashvalue := Hash(k);
      var tindex := IndexFor(tablelength, hashvalue);
      var e := table[tindex];
      ghost var c, p := chains[tindex], 0;
      while e != null
        invariant p <= |c| && e == At(c, p)
        invariant forall j :: 0 <= j < p ==> !Matches(ItemOf(c[j]), KeyFns(), k)
        decreases |c| - p
      {
        if hashvalue == e.h && eqfn(k, e.k) {
          FirstMatchAt(chains, buckets, tindex, KeyFns(), k, p);
          return e.v;
        }
        e := e.next;
        p := p + 1;
      }
      FirstMatchAt(chains, buckets, tindex, KeyFns(), k, p);
      return None;
    }

    /** Unlinks the entry at place p of chain tindex. */
    method Drop(tindex: nat, prev: Entry?<K, V>, e: Entry<K, V>, ghost p: nat, ghost goal: Buckets<K, V>)
      requires Linked() && tindex < |chains| && p < |chains[tindex]|
      requires e == chains[tindex][p] && prev == (if p == 0 then null else chains[tindex][p - 1])
      requires goal == buckets[tindex := Without(buckets[tindex], p)]
      modifies this`chains, this`buckets, table, Cells(chains)
      ensures Linked() && Cells(chains) <= old(Cells(chains)) && buckets == goal
    {
      DistinctOnlyAt(chains, tindex, p);
      if prev != null {
        DistinctOnlyAt(chains, tindex, p - 1);
      }
      CarryWithout(chains, buckets, tindex, p);
      DropShrinks(chains, tindex, p);
      Unlink(table, tindex, prev, e, chains, p);
      chains := chains[tindex := Without(chains[tindex], p)];
      buckets := goal;
    }

    /** Unlinks the first entry for k and returns its value; NULL if there is none. */
    method Remove(k: K) returns (v: Option<V>)
      requires Valid()
      modifies this`entrycount, this`chains, this`buckets, table, Cells(chains)
      ensures Valid()
      ensures Model() == HashTableSpec.Remove(old(Model()), KeyFns(), k)
      ensures v == HashTableSpec.Search(old(Model()), KeyFns(), k)
      ensures Cells(chains) <= old(Cells(chains))
    {
      var hashvalue := Hash(k);
      var tindex := IndexFor(tablelength, hashvalue);
      ghost var goal := HashTableSpec.Remove(Model(), KeyFns(), k);
      assert KeyFns().hash(k) == hashvalue;
      var prev, e, p := Locate(table, tindex, hashvalue, eqfn, k, KeyFns(), chains, buckets);
      FoundAt(Model(), KeyFns(), k, tindex, p);
      if e == null {
        return None;
      }
      v := e.v;
      Drop(tindex, prev, e, p, goal.buckets);
      entrycount := entrycount - 1;
    }
  }
}
