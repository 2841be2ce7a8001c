/** Whole runs of calls on the linked table: the object answers as the finite map does. */
module HashTableRuns {
  import opened Options
  import opened HashTableSpec
  import opened ChainedHashTable
  import P = HashTableProperties

  method Serve<K(!new), V(!new)>(h: HashTable<K, V>, op: P.Op<K, V>) returns (reply: P.Reply<V>)
    requires h.Valid()
    modifies h, h.table, Cells(h.chains)
    ensures h.Valid() && (h.table == old(h.table) || fresh(h.table)) && fresh(Cells(h.chains) - old(Cells(h.chains)))
    ensures (h.Model(), reply) == P.Step(old(h.Model()), h.KeyFns(), op)
  {
    match op
    case InsertOp(k, v, mem) =>
      var ok := h.Insert(k, v, mem);
      reply := P.Stored(ok);
    case SearchOp(k) =>
      var v := h.Search(k);
      reply := P.Value(v);
    case RemoveOp(k) =>
      var v := h.Remove(k);
      reply := P.Value(v);
    case CountOp =>
      var n := h.Count();
      reply := P.Size(n);
  }

  method ServeAll<K(!new), V(!new)>(h: HashTable<K, V>, ops: seq<P.Op<K, V>>) returns (replies: seq<P.Reply<V>>)
    requires h.Valid()
    modifies h, h.table, Cells(h.chains)
    ensures h.Valid() && (h.table == old(h.table) || fresh(h.table)) && fresh(Cells(h.chains) - old(Cells(h.chains)))
    ensures (h.Model(), replies) == P.Run(old(h.Model()), h.KeyFns(), ops)
    decreases |ops|
  {
    if ops == [] {
      return [];
    }
    var first := Serve(h, ops[0]);
    var rest := ServeAll(h, ops[1..]);
    replies := [first] + rest;
  }

  /** From creation on, the object answers any calls that never insert a live key as a finite map. */
  method CreateAndServe<K(!new), V(!new)>(minsize: nat, hashfn: K -> bv32, eqfn: (K, K) -> bool,
                                          headerOk: bool, tableOk: bool, ops: seq<P.Op<K, V>>)
    returns (replies: Option<seq<P.Reply<V>>>)
    requires Lawful(KeysOf(hashfn, eqfn)) && P.Fair(map[], KeysOf(hashfn, eqfn), ops)
    ensures replies == if minsize > 0x4000_0000 || !headerOk || !tableOk then None
                       else Some(P.MapRun(map[], KeysOf(hashfn, eqfn), ops).1)
  {
    var h := HashTable.Create(minsize, hashfn, eqfn, headerOk, tableOk);
    if h == null {
      return None;
    }
    P.CreatedRunRefines(h.primeindex, KeysOf(hashfn, eqfn), ops);
    var given := ServeAll(h, ops);
    replies := Some(given);
  }
}
