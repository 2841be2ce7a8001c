/** The 1-based array heap of apps/MCCTable/original/priority_queue.c on sequences: sifting up and
    down with a hole, as the code does it, and what each sift keeps. */
module HeapSpec {
  datatype Item<D> = Item(priority: int, data: D)

  /** Heap order on a[1..n]. */
  ghost predicate Ordered<D>(a: seq<Item<D>>, n: nat)
    requires n < |a|
  {
    forall k :: 2 <= k <= n ==> a[k / 2].priority <= a[k].priority
  }

  ghost function Bag<D>(a: seq<Item<D>>, n: nat): multiset<Item<D>>
    requires n < |a|
  {
    multiset(a[1..n + 1])
  }

  lemma SamePrefix<D>(a: seq<Item<D>>, b: seq<Item<D>>, n: nat)
    requires n < |a| && n < |b| && forall k :: 1 <= k <= n ==> a[k] == b[k]
    ensures Bag(a, n) == Bag(b, n) && (Ordered(a, n) ==> Ordered(b, n))
  {
    assert a[1..n + 1] == b[1..n + 1];
  }

  // ---- Push ----

  /** The hole at i rises past larger parents; x goes where it stops. */
  function SiftUp<D>(a: seq<Item<D>>, i: nat, x: Item<D>): (r: seq<Item<D>>)
    requires 1 <= i < |a|
    ensures |r| == |a| && forall k :: i < k < |a| ==> r[k] == a[k]
    decreases i
  {
    if i > 1 && a[i / 2].priority > x.priority then SiftUp(a[i := a[i / 2]], i / 2, x) else a[i := x]
  }

  /** a with x in the hole at i is in order, except perhaps between i and its parent. */
  ghost predicate OrderedButUp<D>(a: seq<Item<D>>, n: nat, i: nat, x: Item<D>)
    requires 1 <= i <= n < |a|
  {
    && (forall k :: 2 <= k <= n && k != i && k / 2 != i ==> a[k / 2].priority <= a[k].priority)
    && (forall k :: 2 <= k <= n && k / 2 == i ==> x.priority <= a[k].priority)
    && (forall k :: 2 <= k <= n && k / 2 == i && i > 1 ==> a[i / 2].priority <= a[k].priority)
  }

  lemma {:induction false} SiftUpOrders<D>(a: seq<Item<D>>, n: nat, i: nat, x: Item<D>)
    requires 1 <= i <= n < |a| && OrderedButUp(a, n, i, x)
    ensures Ordered(SiftUp(a, i, x), n)
    decreases i
  {
    if i > 1 && a[i / 2].priority > x.priority {
      var b := a[i := a[i / 2]];
      assert forall k :: 2 <= k <= n && k / 2 == i / 2 && k != i ==> a[k / 2].priority <= a[k].priority;
      SiftUpOrders(b, n, i / 2, x);
    }
  }

  lemma BagUpdate<D>(a: seq<Item<D>>, n: nat, i: nat, x: Item<D>)
    requires 1 <= i <= n < |a|
    ensures Bag(a[i := x], n) + multiset{a[i]} == Bag(a, n) + multiset{x}
  {
    var s := a[1..n + 1];
    assert a[i := x][1..n + 1] == s[i - 1 := x];
    assert s == s[..i - 1] + [s[i - 1]] + s[i..];
    assert s[i - 1 := x] == s[..i - 1] + [x] + s[i..];
  }

  /** Moving a[k] into a hole at i leaves the hole at k: the same items whatever fills it. */
  lemma BagMoveHole<D>(a: seq<Item<D>>, n: nat, i: nat, k: nat, x: Item<D>)
    requires 1 <= i <= n < |a| && 1 <= k <= n && i != k
    ensures Bag(a[i := a[k]][k := x], n) == Bag(a[i := x], n)
  {
    BagUpdate(a, n, i, x);
    BagUpdate(a, n, i, a[k]);
    BagUpdate(a[i := a[k]], n, k, x);
    SameSum(Bag(a[i := a[k]][k := x], n), Bag(a[i := x], n), Bag(a[i := a[k]], n), Bag(a, n), a[i], a[k], x);
  }

  lemma SameSum<T>(p: multiset<T>, q: multiset<T>, r: multiset<T>, s: multiset<T>, y: T, z: T, x: T)
    requires p + multiset{z} == r + multiset{x} && r + multiset{y} == s + multiset{z}
    requires q + multiset{y} == s + multiset{x}
    ensures p == q
  {
    forall e: T
      ensures p[e] == q[e]
    {
      assert (p + multiset{z})[e] == (r + multiset{x})[e];
      assert (r + multiset{y})[e] == (s + multiset{z})[e];
      assert (q + multiset{y})[e] == (s + multiset{x})[e];
    }
  }

  lemma {:induction false} SiftUpBag<D>(a: seq<Item<D>>, n: nat, i: nat, x: Item<D>)
    requires 1 <= i <= n < |a|
    ensures Bag(SiftUp(a, i, x), n) == Bag(a[i := x], n)
    decreases i
  {
    if i > 1 && a[i / 2].priority > x.priority {
      SiftUpBag(a[i := a[i / 2]], n, i / 2, x);
      BagMoveHole(a, n, i, i / 2, x);
    }
  }

  function Push<D>(a: seq<Item<D>>, len: nat, x: Item<D>): seq<Item<D>>
    requires len + 1 < |a|
  {
    SiftUp(a, len + 1, x)
  }

  /** A push adds its item and keeps heap order. */
  lemma PushCorrect<D>(a: seq<Item<D>>, len: nat, x: Item<D>)
    requires len + 1 < |a|
    ensures Bag(Push(a, len, x), len + 1) == Bag(a, len) + multiset{x}
    ensures Ordered(a, len) ==> Ordered(Push(a, len, x), len + 1)
  {
    SiftUpBag(a, len + 1, len + 1, x);
    BagAppend(a, len, x);
    if Ordered(a, len) {
      SiftUpOrders(a, len + 1, len + 1, x);
    }
  }

  lemma BagAppend<D>(a: seq<Item<D>>, len: nat, x: Item<D>)
    requires len + 1 < |a|
    ensures Bag(a[len + 1 := x], len + 1) == Bag(a, len) + multiset{x}
  {
    assert a[len + 1 := x][1..len + 2] == a[1..len + 1] + [x];
  }

  /** Slot k is i or above it. */
  predicate Above(k: nat, i: nat) {
    k == i || (k < i && Above(k, i / 2))
  }

  /** Exactly where a pushed item goes: it rises from slot len + 1 past strictly larger items only,
      each of which moves down one level, and rests at q below one that is not larger. */
  ghost predicate Raised<D>(a: seq<Item<D>>, len: nat, x: Item<D>, r: seq<Item<D>>, q: nat)
    requires len + 1 < |r| && (len == 0 || len < |a|)
  {
    && 1 <= q <= len + 1 && Above(q, len + 1) && r[q] == x && (q == 1 || a[q / 2].priority <= x.priority)
    && (forall k {:trigger r[k]} {:trigger Above(k, len + 1)} :: q < k <= len + 1 && Above(k, len + 1) ==>
          r[k] == a[k / 2] && a[k / 2].priority > x.priority)
    && (forall k {:trigger r[k]} :: 1 <= k <= len && k != q && !(q < k && Above(k, len + 1)) ==> r[k] == a[k])
  }

  lemma {:induction false} AboveBounds(k: nat, i: nat)
    requires Above(k, i)
    ensures k <= i && (k < i ==> k <= i / 2)
  {
    if k < i {
      AboveBounds(k, i / 2);
    }
  }

  lemma {:induction false} SiftUpPath<D>(a: seq<Item<D>>, i: nat, x: Item<D>) returns (q: nat)
    requires 1 <= i < |a|
    ensures 1 <= q <= i && Above(q, i)
    ensures var r := SiftUp(a, i, x);
      && r[q] == x && (q == 1 || a[q / 2].priority <= x.priority)
      && (forall k {:trigger r[k]} {:trigger Above(k, i)} :: q < k <= i && Above(k, i) ==>
            r[k] == a[k / 2] && a[k / 2].priority > x.priority)
      && (forall k {:trigger r[k]} :: 0 <= k < |a| && k != q && !(q < k <= i && Above(k, i)) ==> r[k] == a[k])
    decreases i
  {
    q := i;
    if i > 1 && a[i / 2].priority > x.priority {
      var b := a[i := a[i / 2]];
      q := SiftUpPath(b, i / 2, x);
      AboveBounds(q, i / 2);
      var r := SiftUp(a, i, x);
      assert r == SiftUp(b, i / 2, x);
      forall k | q < k <= i && Above(k, i)
        ensures r[k] == a[k / 2] && a[k / 2].priority > x.priority
      {
        AboveBounds(k, i);
        assert k < i ==> b[k / 2] == a[k / 2];
      }
      forall k {:trigger r[k]} | 0 <= k < |a| && k != q && !(q < k <= i && Above(k, i))
        ensures r[k] == a[k]
      {
        assert k != i;
      }
    }
  }

  /** A push puts its item where Raised says. */
  lemma PushRaises<D>(a: seq<Item<D>>, len: nat, x: Item<D>) returns (q: nat)
    requires len + 1 < |a|
    ensures Raised(a, len, x, Push(a, len, x), q)
  {
    q := SiftUpPath(a, len + 1, x);
  }

  /** The slots r hold the items of a and x, where a push puts it. */
  ghost predicate PushedTo<D>(a: seq<Item<D>>, len: nat, x: Item<D>, r: seq<Item<D>>) {
    len + 1 < |r| && (len == 0 || len < |a|) && exists q :: Raised(a, len, x, r, q)
  }

  /** Slots past the items do not matter. */
  lemma PushedAlike<D>(a: seq<Item<D>>, b: seq<Item<D>>, len: nat, x: Item<D>, r: seq<Item<D>>)
    requires PushedTo(a, len, x, r) && (len == 0 || len < |b|)
    requires forall k :: 1 <= k <= len ==> a[k] == b[k]
    ensures PushedTo(b, len, x, r)
  {
    var q :| Raised(a, len, x, r, q);
    assert Raised(b, len, x, r, q);
  }

  /** That leaves only one outcome. */
  lemma RaisedOnce<D>(a: seq<Item<D>>, len: nat, x: Item<D>, r: seq<Item<D>>, q: nat, r': seq<Item<D>>, q': nat)
    requires len + 1 < |r| && len + 1 < |r'| && (len == 0 || len < |a|)
    requires Raised(a, len, x, r, q) && Raised(a, len, x, r', q')
    ensures q == q' && forall k :: 1 <= k <= len + 1 ==> r[k] == r'[k]
  {
    if q < q' {
      Higher(a, len, x, r, q, r', q');
    } else if q' < q {
      Higher(a, len, x, r', q', r, q);
    }
    forall k | 1 <= k <= len + 1
      ensures r[k] == r'[k]
    {
      if k == len + 1 && k != q {
        assert Above(k, k);
      }
    }
  }

  lemma Higher<D>(a: seq<Item<D>>, len: nat, x: Item<D>, r: seq<Item<D>>, q: nat, r': seq<Item<D>>, q': nat)
    requires len + 1 < |r| && len + 1 < |r'| && (len == 0 || len < |a|)
    requires Raised(a, len, x, r, q) && Raised(a, len, x, r', q')
    ensures q' <= q
  {
    var passed := r[q'];
  }

  // ---- Pop ----

  /** Slot k is a child of slot i among the first n. */
  predicate Child(k: nat, i: nat, n: nat) {
    (k == 2 * i || k == 2 * i + 1) && k <= n
  }

  /** Slot k is the child of i that is least, the left one of two equals. */
  ghost predicate LeastChild<D>(a: seq<Item<D>>, i: nat, n: nat, k: nat)
    requires n < |a|
  {
    && Child(k, i, n)
    && forall c: nat :: Child(c, i, n) ==> a[k].priority <= a[c].priority && (c < k ==> a[k].priority < a[c].priority)
  }

  /** The slot among i and its children that the code picks, i being compared as priority p. */
  function Choose<D>(a: seq<Item<D>>, i: nat, n: nat, p: int): (k: nat)
    requires 1 <= i && n < |a|
    ensures k == i || (k / 2 == i && k <= n)
  {
    var j := 2 * i;
    var k := if j <= n && a[j].priority < p then j else i;
    if j + 1 <= n && a[j + 1].priority < (if k == i then p else a[k].priority) then j + 1 else k
  }

  /** A child only if it is smaller, then the least, and the left one of two equals. */
  lemma ChooseIs<D>(a: seq<Item<D>>, i: nat, n: nat, p: int)
    requires 1 <= i && n < |a|
    ensures var k := Choose(a, i, n, p);
            if k == i then forall c: nat :: Child(c, i, n) ==> p <= a[c].priority
            else LeastChild(a, i, n, k) && a[k].priority < p
  {
  }

  /** The sift as written: i is compared as the old content of its slot. */
  function SiftAsWritten<D>(a: seq<Item<D>>, i: nat, n: nat): (r: seq<Item<D>>)
    requires 1 <= i <= n + 1 < |a|
    ensures |r| == |a|
    decreases n + 1 - i
  {
    var k := Choose(a, i, n, a[i].priority);
    if k == i then a[i := a[n + 1]] else SiftAsWritten(a[i := a[k]], k, n)
  }

  /** The sift that was meant: i is compared as the displaced item a[n + 1], which will fill the hole. */
  function SiftAsMeant<D>(a: seq<Item<D>>, i: nat, n: nat): (r: seq<Item<D>>)
    requires 1 <= i <= n + 1 < |a|
    ensures |r| == |a|
    decreases n + 1 - i
  {
    var k := Choose(a, i, n, a[n + 1].priority);
    if k == i then a[i := a[n + 1]] else SiftAsMeant(a[i := a[k]], k, n)
  }

  function PopAsWritten<D>(a: seq<Item<D>>, len: nat): (r: seq<Item<D>>)
    requires 1 <= len < |a|
    ensures |r| == |a|
  {
    SiftAsWritten(a[1 := a[len]], 1, len - 1)
  }

  function PopAsMeant<D>(a: seq<Item<D>>, len: nat): (r: seq<Item<D>>)
    requires 1 <= len < |a|
    ensures |r| == |a|
  {
    SiftAsMeant(a[1 := a[len]], 1, len - 1)
  }

  // ---- Where either pop leaves the items, from any contents ----

  /** What the content of slot k is taken to be when its children are compared with it. */
  function Compared<D>(a: seq<Item<D>>, n: nat, meant: bool, k: nat): int
    requires k <= n + 1 < |a|
  {
    if meant then a[n + 1].priority else a[k].priority
  }

  /** The slot below k on the way to q. */
  function Toward(k: nat, q: nat): (t: nat)
    requires 1 <= k < q && Above(k, q)
    ensures t / 2 == k && k < t <= q && Above(t, q)
  {
    if q / 2 == k then q else (AboveBounds(k, q); Toward(k, q / 2))
  }

  /** Slot t is the least child of k, and smaller than what k is compared as. */
  ghost predicate Climbs<D>(a: seq<Item<D>>, n: nat, meant: bool, k: nat, t: nat)
    requires k <= n + 1 < |a|
  {
    LeastChild(a, k, n, t) && a[t].priority < Compared(a, n, meant, k)
  }

  /** No child of q is smaller than what q is compared as. */
  ghost predicate Rests<D>(a: seq<Item<D>>, n: nat, meant: bool, q: nat)
    requires q <= n + 1 < |a|
  {
    forall d: nat :: Child(d, q, n) ==> Compared(a, n, meant, q) <= a[d].priority
  }

  /** r is a after the item a[n + 1] sank from the hole at i to q: on the way the least child of each
      slot moves up into it, being smaller than what the slot was compared as; at q no child is. */
  ghost predicate Sunk<D>(a: seq<Item<D>>, i: nat, n: nat, meant: bool, r: seq<Item<D>>, q: nat)
    requires 1 <= i <= n + 1 < |a| && |r| == |a|
  {
    && i <= q <= n + 1 && Above(i, q) && r[q] == a[n + 1] && Rests(a, n, meant, q)
    && (forall k {:trigger r[k]} {:trigger Toward(k, q)} :: i <= k < q && Above(k, q) ==>
          Climbs(a, n, meant, k, Toward(k, q)) && r[k] == a[Toward(k, q)])
    && (forall k {:trigger r[k]} :: 0 <= k < |a| && !(i <= k && Above(k, q)) ==> r[k] == a[k])
  }

  /** Of two slots above a third the higher one is above the other. */
  lemma {:induction false} AboveChain(t: nat, k: nat, q: nat)
    requires t < k && Above(t, q) && Above(k, q)
    ensures t <= k / 2
  {
    AboveBounds(k, q);
    if k == q {
      AboveBounds(t, q);
    } else {
      AboveChain(t, k, q / 2);
    }
  }

  function Sift<D>(a: seq<Item<D>>, i: nat, n: nat, meant: bool): (r: seq<Item<D>>)
    requires 1 <= i <= n + 1 < |a|
    ensures |r| == |a|
  {
    if meant then SiftAsMeant(a, i, n) else SiftAsWritten(a, i, n)
  }

  lemma {:induction false} SiftSinks<D>(a: seq<Item<D>>, i: nat, n: nat, meant: bool) returns (q: nat)
    requires 1 <= i <= n + 1 < |a|
    ensures Sunk(a, i, n, meant, Sift(a, i, n, meant), q)
    decreases n + 1 - i
  {
    var k := Choose(a, i, n, Compared(a, n, meant, i));
    ChooseIs(a, i, n, Compared(a, n, meant, i));
    q := i;
    if k != i {
      var b := a[i := a[k]];
      q := SiftSinks(b, k, n, meant);
      SinksOn(a, i, n, meant, k, Sift(b, k, n, meant), q);
    }
  }

  /** One level, and then the rest. */
  lemma SinksOn<D>(a: seq<Item<D>>, i: nat, n: nat, meant: bool, k: nat, r: seq<Item<D>>, q: nat)
    requires 1 <= i < k <= n && n + 1 < |a| == |r| && k / 2 == i && Climbs(a, n, meant, i, k)
    requires Sunk(a[i := a[k]], k, n, meant, r, q)
    ensures Sunk(a, i, n, meant, r, q)
  {
    AboveTrans(i, k, q);
    Siblings(Toward(i, q), k, q);
    BelowSame(a, i, n, meant, a[k], q);
    forall j {:trigger r[j]} {:trigger Toward(j, q)} | i <= j < q && Above(j, q)
      ensures Climbs(a, n, meant, j, Toward(j, q)) && r[j] == a[Toward(j, q)]
    {
      if j != i {
        SinksBelow(a, i, n, meant, k, r, q, j);
      } else {
        assert r[i] == a[i := a[k]][i];
      }
    }
    forall j {:trigger r[j]} | 0 <= j < |a| && !(i <= j && Above(j, q))
      ensures r[j] == a[j]
    {
      assert j != i;
    }
  }

  lemma SinksBelow<D>(a: seq<Item<D>>, i: nat, n: nat, meant: bool, k: nat, r: seq<Item<D>>, q: nat, j: nat)
    requires 1 <= i < k <= n && n + 1 < |a| == |r| && k / 2 == i && i < j < q && Above(j, q)
    requires Sunk(a[i := a[k]], k, n, meant, r, q)
    ensures Climbs(a, n, meant, j, Toward(j, q)) && r[j] == a[Toward(j, q)]
  {
    var b, t := a[i := a[k]], Toward(j, q);
    Between(i, j, k, q);
    assert r[j] == b[t] && Climbs(b, n, meant, j, t);
    BelowSame(a, i, n, meant, a[k], j);
  }

  lemma Between(i: nat, j: nat, k: nat, q: nat)
    requires 1 <= i < j && k / 2 == i && Above(k, q) && Above(j, q)
    ensures k <= j
  {
    if j < k {
      AboveChain(j, k, q);
    }
  }

  /** What slot i holds does not matter below it. */
  lemma BelowSame<D>(a: seq<Item<D>>, i: nat, n: nat, meant: bool, x: Item<D>, j: nat)
    requires 1 <= i < j <= n + 1 < |a| && i <= n
    ensures Rests(a[i := x], n, meant, j) <==> Rests(a, n, meant, j)
    ensures forall t :: Climbs(a[i := x], n, meant, j, t) <==> Climbs(a, n, meant, j, t)
  {
    var b := a[i := x];
    assert forall d: nat :: Child(d, j, n) ==> b[d] == a[d];
  }

  lemma {:induction false} AboveTrans(i: nat, k: nat, q: nat)
    requires 1 <= i && k / 2 == i && Above(k, q)
    ensures Above(i, q)
  {
    AboveBounds(k, q);
    if k < q {
      AboveTrans(i, k, q / 2);
    }
  }

  lemma Siblings(t: nat, k: nat, q: nat)
    requires t / 2 == k / 2 >= 1 && Above(t, q) && Above(k, q)
    ensures t == k
  {
    if t < k {
      AboveChain(t, k, q);
    }
    if k < t {
      AboveChain(k, t, q);
    }
  }

  function Popped<D>(a: seq<Item<D>>, len: nat, meant: bool): (r: seq<Item<D>>)
    requires 1 <= len < |a|
    ensures |r| == |a| && r == if meant then PopAsMeant(a, len) else PopAsWritten(a, len)
  {
    Sift(a[1 := a[len]], 1, len - 1, meant)
  }

  /** Both pops put the last item where Sunk says, from any contents. */
  lemma PopSinks<D>(a: seq<Item<D>>, len: nat, meant: bool) returns (q: nat)
    requires 1 <= len < |a|
    ensures Sunk(a[1 := a[len]], 1, len - 1, meant, Popped(a, len, meant), q)
  {
    q := SiftSinks(a[1 := a[len]], 1, len - 1, meant);
  }

  /** The slots r are what is left of a when its root is taken and the last item sinks from there. */
  ghost predicate PoppedTo<D>(a: seq<Item<D>>, len: nat, meant: bool, r: seq<Item<D>>) {
    1 <= len < |a| && |r| == |a| && SinksTo(a[1 := a[len]], 1, len - 1, meant, r)
  }

  ghost predicate SinksTo<D>(a: seq<Item<D>>, i: nat, n: nat, meant: bool, r: seq<Item<D>>)
    requires 1 <= i <= n + 1 < |a| && |r| == |a|
  {
    exists q :: Sunk(a, i, n, meant, r, q)
  }

  /** That leaves only one outcome. */
  lemma SunkOnce<D>(a: seq<Item<D>>, i: nat, n: nat, meant: bool, r: seq<Item<D>>, q: nat, r': seq<Item<D>>, q': nat)
    requires 1 <= i <= n + 1 < |a| && |r| == |a| && |r'| == |a|
    requires Sunk(a, i, n, meant, r, q) && Sunk(a, i, n, meant, r', q')
    ensures q == q' && r == r'
  {
    SamePath(a, i, n, meant, r, q, r', q', q);
    SamePath(a, i, n, meant, r', q', r, q, q');
    AboveBounds(q, q');
    AboveBounds(q', q);
    forall k: nat | k < |a|
      ensures r[k] == r'[k]
    {
      if i <= k && Above(k, q) {
        AboveBounds(k, q);
      }
    }
  }

  lemma {:induction false} SamePath<D>(a: seq<Item<D>>, i: nat, n: nat, meant: bool, r: seq<Item<D>>, q: nat,
                                       r': seq<Item<D>>, q': nat, k: nat)
    requires 1 <= i <= n + 1 < |a| && |r| == |a| && |r'| == |a|
    requires Sunk(a, i, n, meant, r, q) && Sunk(a, i, n, meant, r', q')
    requires i <= k && Above(k, q)
    ensures Above(k, q')
    decreases k
  {
    AboveBounds(k, q);
    if k > i {
      AboveChain(i, k, q);
      AboveTrans(k / 2, k, q);
      SamePath(a, i, n, meant, r, q, r', q', k / 2);
      AboveBounds(k / 2, q');
      Siblings(Toward(k / 2, q), k, q);
      assert r[k / 2] == a[k];
      assert k / 2 != q';
      assert r'[k / 2] == a[Toward(k / 2, q')];
    }
  }

  // ---- Both pops remove exactly the root, from any contents ----

  lemma {:induction false} SiftAsWrittenBag<D>(a: seq<Item<D>>, i: nat, n: nat)
    requires 1 <= i <= n < n + 1 < |a|
    ensures Bag(SiftAsWritten(a, i, n), n) == Bag(a[i := a[n + 1]], n)
    decreases n + 1 - i
  {
    var k := Choose(a, i, n, a[i].priority);
    if k != i {
      SiftAsWrittenBag(a[i := a[k]], k, n);
      BagMoveHole(a, n, i, k, a[n + 1]);
    }
  }

  lemma {:induction false} SiftAsMeantBag<D>(a: seq<Item<D>>, i: nat, n: nat)
    requires 1 <= i <= n < n + 1 < |a|
    ensures Bag(SiftAsMeant(a, i, n), n) == Bag(a[i := a[n + 1]], n)
    decreases n + 1 - i
  {
    var k := Choose(a, i, n, a[n + 1].priority);
    if k != i {
      SiftAsMeantBag(a[i := a[k]], k, n);
      BagMoveHole(a, n, i, k, a[n + 1]);
    }
  }

  lemma PopBag<D>(a: seq<Item<D>>, len: nat)
    requires 1 <= len < |a|
    ensures Bag(PopAsWritten(a, len), len - 1) + multiset{a[1]} == Bag(a, len)
    ensures Bag(PopAsMeant(a, len), len - 1) + multiset{a[1]} == Bag(a, len)
  {
    var n := len - 1;
    if n == 0 {
      assert a[1..2] == [a[1]];
    } else {
      var b := a[1 := a[len]];
      SiftAsWrittenBag(b, 1, n);
      SiftAsMeantBag(b, 1, n);
      assert b[1 := b[n + 1]] == b;
      BagUpdate(a, n, 1, a[len]);
      assert a[1..len + 1] == a[1..n + 1] + [a[len]];
    }
  }

  // ---- The pop that was meant restores heap order ----

  /** a with the item v in the hole at i is in order, except perhaps between i and its children. */
  ghost predicate OrderedButDown<D>(a: seq<Item<D>>, n: nat, i: nat, v: int)
    requires 1 <= i <= n + 1 && n < |a|
  {
    && (forall k :: 2 <= k <= n && k != i && k / 2 != i ==> a[k / 2].priority <= a[k].priority)
    && (2 <= i <= n ==> a[i / 2].priority <= v)
    && (forall k :: 2 <= k <= n && k / 2 == i && i >= 2 ==> a[i / 2].priority <= a[k].priority)
  }

  lemma {:induction false} SiftAsMeantOrders<D>(a: seq<Item<D>>, i: nat, n: nat)
    requires 1 <= i <= n + 1 < |a| && OrderedButDown(a, n, i, a[n + 1].priority)
    ensures Ordered(SiftAsMeant(a, i, n), n)
    decreases n + 1 - i
  {
    var v := a[n + 1].priority;
    var k := Choose(a, i, n, v);
    if k == i {
      assert forall c :: 2 <= c <= n && c / 2 == i ==> c == 2 * i || c == 2 * i + 1;
    } else {
      var b := a[i := a[k]];
      assert forall c :: 2 <= c <= n && c / 2 == i ==> c == 2 * i || c == 2 * i + 1;
      assert OrderedButDown(b, n, k, v);
      SiftAsMeantOrders(b, k, n);
    }
  }

  lemma PopAsMeantOrders<D>(a: seq<Item<D>>, len: nat)
    requires 1 <= len < |a| && Ordered(a, len)
    ensures Ordered(PopAsMeant(a, len), len - 1)
  {
    var b := a[1 := a[len]];
    assert OrderedButDown(b, len - 1, 1, a[len].priority);
    SiftAsMeantOrders(b, 1, len - 1);
  }

  /** In heap order the root is least. */
  lemma {:induction false} RootLeast<D>(a: seq<Item<D>>, n: nat, k: nat)
    requires n < |a| && Ordered(a, n) && 1 <= k <= n
    ensures a[1].priority <= a[k].priority
    decreases k
  {
    if k > 1 {
      RootLeast(a, n, k / 2);
    }
  }

  // ---- What the pop as written does to a heap ----

  /** It moves at most one level: the least child of the root goes up, and the displaced last item
      takes that child's slot without being compared with the items below it. */
  lemma PopAsWrittenMoves<D>(a: seq<Item<D>>, len: nat)
    requires 1 <= len < |a| && Ordered(a, len)
    ensures var b := a[1 := a[len]];
            var k := Choose(b, 1, len - 1, a[len].priority);
            PopAsWritten(a, len) == if k == 1 then b else b[1 := a[k]][k := a[len]]
  {
    var n := len - 1;
    var b := a[1 := a[len]];
    var k := Choose(b, 1, n, a[len].priority);
    if k == 1 {
      assert b[1 := b[n + 1]] == b;
    } else {
      var c := b[1 := b[k]];
      assert forall j :: 2 <= j <= n && j / 2 == k ==> a[j / 2].priority <= a[j].priority;
      assert Choose(c, k, n, c[k].priority) == k;
      assert SiftAsWritten(c, k, n) == c[k := c[n + 1]];
      assert c[n + 1] == a[len] && b[k] == a[k];
    }
  }

  /** The slots below the root's least child hold nothing smaller than the last item. This can be
      read off the heap before the pop. */
  ghost predicate LastFits<D>(a: seq<Item<D>>, len: nat)
    requires 1 <= len < |a|
  {
    var k := Choose(a[1 := a[len]], 1, len - 1, a[len].priority);
    k == 1 || forall c :: 2 <= c <= len - 1 && c / 2 == k ==> a[len].priority <= a[c].priority
  }

  /** After a pop as written from a heap only the pairs below slot 2 or slot 3 can be out of order,
      and none is exactly when the last item fits there. The root is least in any case, so the
      following pop still returns the right item. */
  lemma PopAsWrittenOrder<D>(a: seq<Item<D>>, len: nat)
    requires 1 <= len < |a| && Ordered(a, len)
    ensures var r, n := PopAsWritten(a, len), len - 1;
            && (forall c :: 2 <= c <= n && c / 2 != 2 && c / 2 != 3 ==> r[c / 2].priority <= r[c].priority)
            && (Ordered(r, n) <==> LastFits(a, len))
            && (forall c :: 1 <= c <= n ==> r[1].priority <= r[c].priority)
  {
    PopAsWrittenMoves(a, len);
    var r, n := PopAsWritten(a, len), len - 1;
    var b := a[1 := a[len]];
    var k := Choose(b, 1, n, a[len].priority);
    assert k == 1 || k == 2 || k == 3;
    if k != 1 {
      assert r[k] == a[len] && r[1] == a[k];
      assert forall c :: 2 <= c <= n && c != k && c / 2 != k ==> r[c / 2].priority <= r[c].priority;
      assert forall c :: 2 <= c <= n && c / 2 == k ==> r[c] == a[c];
    }
    forall c | 1 <= c <= n
      ensures r[1].priority <= r[c].priority
    {
      LeastAfter(a, len, k, c);
    }
  }

  lemma LeastAfter<D>(a: seq<Item<D>>, len: nat, k: nat, c: nat)
    requires 1 <= c < len < |a| && Ordered(a, len) && k == Choose(a[1 := a[len]], 1, len - 1, a[len].priority)
    ensures var b := a[1 := a[len]];
            var r := if k == 1 then b else b[1 := a[k]][k := a[len]];
            r[1].priority <= r[c].priority
  {
    if c >= 2 {
      var top := ChildAbove(a, len, c);
    }
  }

  /** The child of the root above slot c. */
  lemma {:induction false} ChildAbove<D>(a: seq<Item<D>>, n: nat, c: nat) returns (top: nat)
    requires 2 <= c <= n < |a| && Ordered(a, n)
    ensures (top == 2 || top == 3) && top <= c && a[top].priority <= a[c].priority
    decreases c
  {
    if c <= 3 {
      top := c;
    } else {
      top := ChildAbove(a, n, c / 2);
    }
  }

  /** Eight slots into which the priorities 1 to k were pushed in order. */
  function Pushed(k: nat): (a: seq<Item<int>>)
    requires k <= 7
    ensures |a| == 8 && Ordered(a, k) && forall j :: 1 <= j <= k ==> a[j] == Item(j, j)
  {
    if k == 0 then seq(8, _ => Item(0, 0)) else Push(Pushed(k - 1), k - 1, Item(k, k))
  }

  /** Pushing 1 to 7 and popping as written gives 1, 2, 3 and then 5, with 4 still inside. */
  lemma PopAsWrittenOutOfOrder()
    ensures var b := PopAsWritten(Pushed(7), 7);
            var c := PopAsWritten(b, 6);
            var d := PopAsWritten(c, 5);
            && !Ordered(b, 6)
            && Pushed(7)[1].priority == 1 && b[1].priority == 2 && c[1].priority == 3 && d[1].priority == 5
            && d[4].priority == 4
  {
    var a := Pushed(7);
    var b := a[1 := a[2]][2 := a[7]];
    PopAsWrittenMoves(a, 7);
    assert PopAsWritten(a, 7) == b;
    assert b[4 / 2].priority > b[4].priority;
    var b' := b[1 := b[6]];
    var c := b'[1 := b[3]][3 := b[6]];
    assert Choose(b', 1, 5, 6) == 3 && Choose(b'[1 := b[3]], 3, 5, 3) == 3;
    assert PopAsWritten(b, 6) == c;
    var d := c[1 := c[5]];
    assert Choose(d, 1, 4, 5) == 1;
    assert PopAsWritten(c, 5) == d[1 := d[5]];
  }

  // ---- Whole runs of pops as written ----

  /** The priorities that n pops as written return. */
  function PopRun<D>(a: seq<Item<D>>, n: nat): (r: seq<int>)
    requires n < |a|
    ensures |r| == n
    decreases n
  {
    if n == 0 then [] else [a[1].priority] + PopRun(PopAsWritten(a, n), n - 1)
  }

  function Priorities<D>(items: seq<Item<D>>): (r: seq<int>)
    ensures |r| == |items|
  {
    seq(|items|, k requires 0 <= k < |items| => items[k].priority)
  }

  ghost predicate Nondecreasing(s: seq<int>) {
    forall i, j :: 0 <= i < j < |s| ==> s[i] <= s[j]
  }

  ghost predicate LeastFirst<D>(a: seq<Item<D>>, n: nat)
    requires n < |a|
  {
    forall k :: 1 <= k <= n ==> a[1].priority <= a[k].priority
  }

  ghost predicate Has<D>(m: multiset<Item<D>>, p: int) { exists e :: e in m && e.priority == p }

  lemma HasPlus<D>(m: multiset<Item<D>>, e: Item<D>, p: int)
    ensures Has(m + multiset{e}, p) <==> e.priority == p || Has(m, p)
  {
    assert e in m + multiset{e};
    if x :| x in m && x.priority == p {
      assert x in m + multiset{e};
    }
  }

  /** What the pops return are the priorities in the heap. */
  lemma {:induction false} PopRunHas<D>(a: seq<Item<D>>, n: nat, p: int)
    requires n < |a|
    ensures p in PopRun(a, n) <==> Has(Bag(a, n), p)
    decreases n
  {
    if n == 0 {
      assert a[1..1] == [];
    } else {
      var b := PopAsWritten(a, n);
      PopRunHas(b, n - 1, p);
      PopBag(a, n);
      HasPlus(Bag(b, n - 1), a[1], p);
    }
  }

  lemma InBag<D>(a: seq<Item<D>>, n: nat, k: nat)
    requires 1 <= k <= n < |a|
    ensures a[k] in Bag(a, n) && Has(Bag(a, n), a[k].priority)
  {
    assert a[1..n + 1][k - 1] == a[k];
  }

  lemma AtBag<D>(a: seq<Item<D>>, n: nat, e: Item<D>) returns (k: nat)
    requires n < |a| && e in Bag(a, n)
    ensures 1 <= k <= n && a[k] == e
  {
    assert e in a[1..n + 1];
    var j :| 0 <= j < n && a[1..n + 1][j] == e;
    k := j + 1;
  }

  /** A pop that finds the least item first is followed by nothing smaller. */
  lemma PopRunStarts<D>(a: seq<Item<D>>, n: nat)
    requires 1 <= n < |a| && LeastFirst(a, n) && Nondecreasing(PopRun(PopAsWritten(a, n), n - 1))
    ensures Nondecreasing(PopRun(a, n))
  {
    var rest := PopRun(PopAsWritten(a, n), n - 1);
    forall j | 0 <= j < |rest|
      ensures a[1].priority <= rest[j]
    {
      assert PopRun(a, n)[j + 1] == rest[j];
      PopRunHas(a, n, rest[j]);
      var e :| e in Bag(a, n) && e.priority == rest[j];
      var k := AtBag(a, n, e);
    }
  }

  /** Up to four items no slot has grandchildren that matter: the least stays first. */
  lemma SmallPop<D>(a: seq<Item<D>>, n: nat)
    requires 1 <= n <= 4 && n < |a|
    ensures LeastFirst(PopAsWritten(a, n), n - 1)
  {
    var m := n - 1;
    var b := a[1 := a[n]];
    var k := Choose(b, 1, m, b[1].priority);
    if k != 1 {
      var c := b[1 := b[k]];
      assert Choose(c, k, m, c[k].priority) == k;
      assert SiftAsWritten(c, k, m) == c[k := c[m + 1]];
    }
  }

  lemma {:induction false} SmallRun<D>(a: seq<Item<D>>, n: nat)
    requires n <= 4 && n < |a| && LeastFirst(a, n)
    ensures Nondecreasing(PopRun(a, n))
    decreases n
  {
    if n > 0 {
      SmallPop(a, n);
      SmallRun(PopAsWritten(a, n), n - 1);
      PopRunStarts(a, n);
    }
  }

  lemma FiveRun<D>(a: seq<Item<D>>, n: nat)
    requires n <= 5 && n < |a| && Ordered(a, n)
    ensures Nondecreasing(PopRun(a, n))
  {
    if n > 0 {
      forall k | 1 <= k <= n
        ensures a[1].priority <= a[k].priority
      {
        RootLeast(a, n, k);
      }
      PopAsWrittenOrder(a, n);
      SmallRun(PopAsWritten(a, n), n - 1);
      PopRunStarts(a, n);
    }
  }

  /** From six items on: 1, 2, 3, 4 in slots 1, 2, 4 and 5, and 10 elsewhere. */
  function Six<D>(n: nat, x: D): (a: seq<Item<D>>)
    requires n >= 6
    ensures |a| == n + 1 && Ordered(a, n)
  {
    seq(n + 1, k => Item(if k == 1 then 1 else if k == 2 then 2 else if k == 4 then 3 else if k == 5 then 4 else 10, x))
  }

  /** If p is inside but larger first, the pops are out of order. */
  lemma LargerFirst<D>(a: seq<Item<D>>, n: nat, k: nat)
    requires 1 <= k <= n < |a| && a[1].priority > a[k].priority
    ensures !Nondecreasing(PopRun(a, n))
  {
    InBag(a, n, k);
    PopRunHas(a, n, a[k].priority);
    var j :| 0 <= j < n && PopRun(a, n)[j] == a[k].priority;
    assert PopRun(a, n)[0] == a[1].priority;
  }

  lemma OutOfOrderLater<D>(a: seq<Item<D>>, n: nat)
    requires 1 <= n < |a| && !Nondecreasing(PopRun(PopAsWritten(a, n), n - 1))
    ensures !Nondecreasing(PopRun(a, n))
  {
    var rest := PopRun(PopAsWritten(a, n), n - 1);
    var i, j :| 0 <= i < j < |rest| && rest[i] > rest[j];
    assert PopRun(a, n)[i + 1] == rest[i] && PopRun(a, n)[j + 1] == rest[j];
  }

  /** The third pop returns something above 3, which is still inside. */
  lemma SixRun<D>(n: nat, x: D)
    requires n >= 6
    ensures !Nondecreasing(PopRun(Six(n, x), n))
  {
    var a := Six(n, x);
    PopAsWrittenMoves(a, n);
    var b := PopAsWritten(a, n);
    assert b == a[1 := a[2]][2 := a[n]];
    SecondPop(b, n - 1);
    LargerFirst(PopAsWritten(b, n - 1), n - 2, 4);
    OutOfOrderLater(b, n - 1);
    OutOfOrderLater(a, n);
  }

  /** The last item goes to the root when neither child is smaller. */
  lemma SecondPop<D>(b: seq<Item<D>>, m: nat)
    requires 5 <= m < |b| && b[m].priority > b[4].priority
    requires b[2].priority >= b[m].priority && b[3].priority >= b[m].priority
    ensures var c := PopAsWritten(b, m); c[1] == b[m] && c[4] == b[4]
  {
    var b' := b[1 := b[m]];
    assert Choose(b', 1, m - 1, b'[1].priority) == 1;
  }

  /** Pops as written return every heap of n items in nondecreasing order if and only if n is at most
      five. */
  lemma PopAsWrittenSorts<D>(n: nat, x: D)
    ensures (forall a: seq<Item<D>> :: n < |a| && Ordered(a, n) ==> Nondecreasing(PopRun(a, n))) <==> n <= 5
  {
    if n <= 5 {
      forall a: seq<Item<D>> | n < |a| && Ordered(a, n)
        ensures Nondecreasing(PopRun(a, n))
      {
        FiveRun(a, n);
      }
    } else {
      SixRun(n, x);
    }
  }
}
