/** Growth with line 108 of tos/lib/tossim/hashtable.c as it stands. After realloc the line should
    clear the added slots, but it hands memset the pointer read from the first of them. */
module HashTableAsWritten {
  import opened Options
  import opened HashTableSpec
  import opened HashTableProperties
  import opened HashTableDuplicates

  /** Growth takes the path through realloc. */
  predicate TakesRealloc<K, V>(t: Table<K, V>, mem: Memory) {
    t.primeindex < |PRIMES| - 1 && !mem.table && mem.regrow
  }

  /** What realloc added: whether the first added slot is other than NULL when line 108 reads it, and
      the chains that the added slots head once the line has been passed. */
  datatype Added<K, V> = Added(nonNull: bool, chains: nat -> seq<Item<K, V>>)

  /** The chains of slots n0 .. n - 1. */
  function Tail<K, V>(added: Added<K, V>, n0: nat, n: nat): (tail: Buckets<K, V>)
    requires n0 <= n
    ensures |tail| == n - n0
  {
    seq(n - n0, a requires 0 <= a => added.chains(n0 + a))
  }

  /** Growth as written; None stands for the write through NULL that line 108 makes when it reads NULL. */
  function Expand<K, V>(t: Table<K, V>, mem: Memory, added: Added<K, V>): (r: Option<Table<K, V>>)
    requires Shaped(t)
    ensures r.Some? ==> Shaped(r.value)
  {
    if !TakesRealloc(t, mem) then Some(HashTableSpec.Expand(t, mem))
    else if !added.nonNull then None
    else
      var n0, n := |t.buckets|, (NextLonger(t.primeindex); PRIMES[t.primeindex + 1]);
      Some(Table(InPlace(t.buckets, Tail(added, n0, n)), t.count, LoadLimit(n), t.primeindex + 1))
  }

  /** Line 108 survives and the added slots end up empty. That takes a first added slot that points into
      the added slots, so that the line clears them after all. */
  ghost predicate Lucky<K, V>(t: Table<K, V>, added: Added<K, V>)
    requires Shaped(t) && t.primeindex < |PRIMES| - 1
  {
    added.nonNull && forall a :: |t.buckets| <= a < PRIMES[t.primeindex + 1] ==> added.chains(a) == []
  }

  /** Growth goes through realloc and is not lucky. */
  ghost predicate Spoils<K, V>(t: Table<K, V>, mem: Memory, added: Added<K, V>)
    requires Shaped(t)
  {
    TakesRealloc(t, mem) && !Lucky(t, added)
  }

  /** Growth as written survives with exactly the old entries if and only if it does not go through
      realloc or is lucky there, and then it is the growth that was meant. */
  lemma ExpandRight<K, V>(t: Table<K, V>, mem: Memory, added: Added<K, V>)
    requires Valid(t)
    ensures var r := Expand(t, mem, added);
            && (r.Some? && Bag(r.value.buckets) == Bag(t.buckets) <==> !Spoils(t, mem, added))
            && (!Spoils(t, mem, added) ==> r == Some(HashTableSpec.Expand(t, mem)))
  {
    if !Spoils(t, mem, added) {
      ExpandBag(t, mem);
      NotSpoiled(t, mem, added);
    } else if Expand(t, mem, added).Some? {
      ExpandExcess(t, mem, added);
    }
  }

  lemma NotSpoiled<K, V>(t: Table<K, V>, mem: Memory, added: Added<K, V>)
    requires Shaped(t) && !Spoils(t, mem, added)
    ensures Expand(t, mem, added) == Some(HashTableSpec.Expand(t, mem))
  {
    if TakesRealloc(t, mem) {
      var n0, n := |t.buckets|, PRIMES[t.primeindex + 1];
      NextLonger(t.primeindex);
      assert Tail(added, n0, n) == Empty(n - n0);
    }
  }

  lemma ExpandBag<K, V>(t: Table<K, V>, mem: Memory)
    requires Shaped(t)
    ensures Bag(HashTableSpec.Expand(t, mem).buckets) == Bag(t.buckets)
  {
    if t.primeindex < |PRIMES| - 1 {
      NextLonger(t.primeindex);
      var n := PRIMES[t.primeindex + 1];
      GrowthConserves(t.buckets, n);
      ExpandTo(t, mem, n);
    }
  }

  /** How many entries more than its count a table holds. */
  ghost function Excess<K, V>(t: Table<K, V>): int {
    |Bag(t.buckets)| - t.count
  }

  lemma ExpandExcess<K, V>(t: Table<K, V>, mem: Memory, added: Added<K, V>)
    requires Shaped(t) && Expand(t, mem, added).Some?
    ensures var r := Expand(t, mem, added).value;
            r.count == t.count && if Spoils(t, mem, added) then Excess(r) > Excess(t) else Excess(r) == Excess(t)
  {
    if Spoils(t, mem, added) {
      var tail, a := SpoiledTail(t, mem, added);
      TailExcess(t.buckets, tail, a);
    } else {
      NotSpoiled(t, mem, added);
      ExpandBag(t, mem);
    }
  }

  lemma SpoiledTail<K, V>(t: Table<K, V>, mem: Memory, added: Added<K, V>) returns (tail: Buckets<K, V>, a: nat)
    requires Shaped(t) && Spoils(t, mem, added) && Expand(t, mem, added).Some?
    ensures a < |tail| && tail[a] != []
    ensures var r := Expand(t, mem, added).value; r.count == t.count && r.buckets == InPlace(t.buckets, tail)
  {
    NextLonger(t.primeindex);
    var n0, n := |t.buckets|, PRIMES[t.primeindex + 1];
    tail := Tail(added, n0, n);
    var c :| n0 <= c < n && added.chains(c) != [];
    a := c - n0;
  }

  lemma TailExcess<K, V>(b: Buckets<K, V>, tail: Buckets<K, V>, a: nat)
    requires |b| > 0 && a < |tail| && tail[a] != []
    ensures |Bag(InPlace(b, tail))| > |Bag(b)|
  {
    InPlaceFromBag(b + tail, 0, 0, |b|);
    BagConcat(b, tail);
    BagEmpty(tail);
  }

  // ---- Runs ----

  /** A call, and what memory added by realloc during it holds. */
  datatype Call<K, V> = Call(op: Op<K, V>, added: Added<K, V>)

  function Ops<K, V>(calls: seq<Call<K, V>>): (ops: seq<Op<K, V>>)
    ensures |ops| == |calls|
  {
    if calls == [] then [] else [calls[0].op] + Ops(calls[1..])
  }

  /** The call makes the table grow through realloc, unluckily. */
  ghost predicate SpoilsAt<K, V>(t: Table<K, V>, call: Call<K, V>)
    requires Shaped(t)
  {
    call.op.InsertOp? && t.count + 1 > t.loadlimit && Spoils(t, call.op.mem, call.added)
  }

  function Step<K, V>(t: Table<K, V>, ks: Keys<K>, call: Call<K, V>): (r: Option<(Table<K, V>, Reply<V>)>)
    requires Shaped(t)
    ensures r.Some? ==> Shaped(r.value.0)
  {
    match call.op
    case InsertOp(k, v, mem) =>
      var t1 := if t.count + 1 > t.loadlimit then Expand(t, mem, call.added) else Some(t);
      if t1.None? then None
      else if mem.entry then
        Some((t1.value.(buckets := Push(t1.value.buckets, Item(k, v, ks.hash(k))), count := t.count + 1), Stored(true)))
      else Some((t1.value, Stored(false)))
    case _ => Some(HashTableProperties.Step(t, ks, call.op))
  }

  ghost function Run<K(!new), V(!new)>(t: Table<K, V>, ks: Keys<K>, calls: seq<Call<K, V>>)
    : Option<(Table<K, V>, seq<Reply<V>>)>
    requires Shaped(t)
    decreases |calls|
  {
    if calls == [] then Some((t, []))
    else
      var s := Step(t, ks, calls[0]);
      if s.None? then None
      else
        var rest := Run(s.value.0, ks, calls[1..]);
        if rest.None? then None else Some((rest.value.0, [s.value.1] + rest.value.1))
  }

  /** No growth of the run goes through realloc, except luckily. */
  ghost predicate NeverSpoiled<K(!new), V(!new)>(t: Table<K, V>, ks: Keys<K>, calls: seq<Call<K, V>>)
    requires Shaped(t)
    decreases |calls|
  {
    calls == []
    || (!SpoilsAt(t, calls[0]) && NeverSpoiled(HashTableProperties.Step(t, ks, calls[0].op).0, ks, calls[1..]))
  }

  lemma PushExcess<K, V>(t: Table<K, V>, e: Item<K, V>)
    requires |t.buckets| > 0
    ensures Excess(t.(buckets := Push(t.buckets, e), count := t.count + 1)) == Excess(t)
  {
    BagPush(t.buckets, e);
    assert |Bag(t.buckets) + multiset{e}| == |Bag(t.buckets)| + 1;
  }

  lemma StepExcess<K, V>(t: Table<K, V>, ks: Keys<K>, call: Call<K, V>)
    requires Shaped(t) && Step(t, ks, call).Some?
    ensures var r := Step(t, ks, call).value.0;
            if SpoilsAt(t, call) then Excess(r) > Excess(t) else Excess(r) == Excess(t)
  {
    match call.op
    case InsertOp(k, v, mem) =>
      var t1 := if t.count + 1 > t.loadlimit then Expand(t, mem, call.added) else Some(t);
      if t.count + 1 > t.loadlimit {
        ExpandExcess(t, mem, call.added);
      }
      PushExcess(t1.value, Item(k, v, ks.hash(k)));
    case RemoveOp(k) =>
      RemoveExcess(t, ks, k);
    case _ =>
  }

  lemma RemoveExcess<K, V>(t: Table<K, V>, ks: Keys<K>, k: K)
    requires Shaped(t)
    ensures Excess(Remove(t, ks, k)) == Excess(t)
  {
    var i := IndexFor(|t.buckets|, ks.hash(k));
    var j := FirstMatch(t.buckets[i], ks, k);
    if j < |t.buckets[i]| {
      BagWithout(t.buckets, i, j);
      assert |Bag(Remove(t, ks, k).buckets) + multiset{t.buckets[i][j]}| == |Bag(t.buckets)|;
    }
  }

  /** Entries that were never inserted cannot all be got rid of. */
  lemma {:induction false} RunExcess<K(!new), V(!new)>(t: Table<K, V>, ks: Keys<K>, calls: seq<Call<K, V>>)
    requires Shaped(t) && Run(t, ks, calls).Some?
    ensures Excess(Run(t, ks, calls).value.0) >= Excess(t)
    decreases |calls|
  {
    if calls != [] {
      StepExcess(t, ks, calls[0]);
      RunExcess(Step(t, ks, calls[0]).value.0, ks, calls[1..]);
    }
  }

  lemma StepAsMeant<K, V>(t: Table<K, V>, ks: Keys<K>, call: Call<K, V>)
    requires Shaped(t) && !SpoilsAt(t, call)
    ensures Step(t, ks, call) == Some(HashTableProperties.Step(t, ks, call.op))
  {
    if call.op.InsertOp? && t.count + 1 > t.loadlimit {
      NotSpoiled(t, call.op.mem, call.added);
    }
  }

  lemma {:induction false} RunAsMeant<K(!new), V(!new)>(t: Table<K, V>, ks: Keys<K>, calls: seq<Call<K, V>>)
    requires Shaped(t) && NeverSpoiled(t, ks, calls)
    ensures Run(t, ks, calls) == Some(HashTableProperties.Run(t, ks, Ops(calls)))
    decreases |calls|
  {
    if calls != [] {
      StepAsMeant(t, ks, calls[0]);
      RunAsMeant(HashTableProperties.Step(t, ks, calls[0].op).0, ks, calls[1..]);
    }
  }

  lemma {:induction false} SpoiledRun<K(!new), V(!new)>(t: Table<K, V>, ks: Keys<K>, calls: seq<Call<K, V>>)
    requires Shaped(t) && Excess(t) >= 0 && !NeverSpoiled(t, ks, calls) && Run(t, ks, calls).Some?
    ensures Excess(Run(t, ks, calls).value.0) > 0
    decreases |calls|
  {
    StepExcess(t, ks, calls[0]);
    var t1 := Step(t, ks, calls[0]).value.0;
    if SpoilsAt(t, calls[0]) {
      RunExcess(t1, ks, calls[1..]);
    } else {
      StepAsMeant(t, ks, calls[0]);
      SpoiledRun(t1, ks, calls[1..]);
    }
  }

  /** The code as written, over any run without duplicate keys and whatever realloc's memory holds:
      it reaches the end with the table of the finite map if and only if no growth went through
      realloc, except luckily, and then all its replies are the map's too. */
  lemma RunRight<K(!new), V(!new)>(t: Table<K, V>, m: map<K, Option<V>>, ks: Keys<K>, calls: seq<Call<K, V>>)
    requires Lawful(ks) && Represents(t, m, ks) && Fair(m, ks, Ops(calls))
    ensures var r := Run(t, ks, calls);
            && (r.Some? && Represents(r.value.0, MapRun(m, ks, Ops(calls)).0, ks) <==> NeverSpoiled(t, ks, calls))
            && (NeverSpoiled(t, ks, calls) ==> r.Some? && r.value.1 == MapRun(m, ks, Ops(calls)).1)
  {
    if NeverSpoiled(t, ks, calls) {
      RunAsMeant(t, ks, calls);
      RunRefines(t, m, ks, Ops(calls));
    } else if Run(t, ks, calls).Some? {
      SpoiledRun(t, ks, calls);
    }
  }

  /** The same from creation on. */
  lemma CreatedRunRight<K(!new), V(!new)>(primeindex: nat, ks: Keys<K>, calls: seq<Call<K, V>>)
    requires primeindex < |PRIMES| && Lawful(ks) && Fair(map[], ks, Ops(calls))
    ensures var t, m := New<K, V>(primeindex), MapRun(map[], ks, Ops(calls));
            var r := Run(t, ks, calls);
            && (r.Some? && Represents(r.value.0, m.0, ks) <==> NeverSpoiled(t, ks, calls))
            && (NeverSpoiled(t, ks, calls) ==> r.Some? && r.value.1 == m.1)
  {
    NewRepresents<K, V>(primeindex, ks);
    RunRight(New<K, V>(primeindex), map[], ks, calls);
  }

  /** The same with duplicate keys, against lists of values. */
  lemma ListRunRight<K(!new), V(!new)>(t: Table<K, V>, a: Lists<K, V>, ks: Keys<K>, calls: seq<Call<K, V>>)
    requires Lawful(ks) && Tracks(t, a, ks)
    ensures var r := Run(t, ks, calls);
            && (r.Some? && Tracks(r.value.0, ListRun(a, ks, Ops(calls)).0, ks) <==> NeverSpoiled(t, ks, calls))
            && (NeverSpoiled(t, ks, calls) ==> r.Some? && r.value.1 == ListRun(a, ks, Ops(calls)).1)
  {
    if NeverSpoiled(t, ks, calls) {
      RunAsMeant(t, ks, calls);
      RunTracks(t, a, ks, Ops(calls));
    } else if Run(t, ks, calls).Some? {
      SpoiledRun(t, ks, calls);
    }
  }

  // ---- A run that fails ----

  /** 36 insertions of different keys while malloc finds no memory for a table but realloc does, and
      gives cleared memory. */
  function Filling(i: nat): (calls: seq<Call<nat, ()>>)
    requires i <= 36
    decreases 36 - i
  {
    if i == 36 then [] else [Call(InsertOp(i, None, Memory(false, true, true)), Added(false, _ => []))] + Filling(i + 1)
  }

  lemma {:induction false} FillingFails(t: Table<nat, ()>, ks: Keys<nat>, i: nat)
    requires i <= 35 && Shaped(t) && t.primeindex == 0 && t.count == i
    ensures Run(t, ks, Filling(i)) == None
    decreases 36 - i
  {
    assert LoadLimit(53) == 35 && |t.buckets| == 53;
    var calls := Filling(i);
    assert calls[1..] == Filling(i + 1);
    if i < 35 {
      FillingFails(Step(t, ks, calls[0]).value.0, ks, i + 1);
    }
  }

  /** In a new table of 53 chains the last of those insertions writes through NULL. */
  lemma NewTableFails(ks: Keys<nat>)
    ensures Run(New<nat, ()>(0), ks, Filling(0)) == None
  {
    FillingFails(New(0), ks, 0);
  }
}
