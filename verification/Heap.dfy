/** The heap object of apps/MCCTable/original/priority_queue.c: an array that doubles, a push that
    is right, the pop as the code has it, and the pop it was meant to be. */
module PriorityQueue {
  import opened Options
  import opened HeapSpec

  /** realloc to a larger array. */
  method Grown<D(0)>(nodes: array<Item<D>>, size: nat, ghost len: nat) returns (grown: array<Item<D>>)
    requires nodes.Length <= size && len < nodes.Length
    ensures fresh(grown) && grown.Length == size && forall k :: 0 <= k < nodes.Length ==> grown[k] == nodes[k]
    ensures Bag(grown[..], len) == Bag(nodes[..], len) && (Ordered(nodes[..], len) ==> Ordered(grown[..], len))
  {
    grown := new Item<D>[size];
    forall k | 0 <= k < nodes.Length {
      grown[k] := nodes[k];
    }
    SamePrefix(nodes[..], grown[..], len);
  }

  /** The loop of push: moves larger parents down and puts the new item where the hole stops. */
  method RaiseHole<D>(nodes: array<Item<D>>, start: nat, priority: int, data: D)
    requires 1 <= start < nodes.Length
    modifies nodes
    ensures nodes[..] == SiftUp(old(nodes[..]), start, Item(priority, data))
  {
    ghost var goal := SiftUp(nodes[..], start, Item(priority, data));
    var i, j := start, start / 2;
    while i > 1 && nodes[j].priority > priority
      invariant 1 <= i <= start && j == i / 2
      invariant SiftUp(nodes[..], i, Item(priority, data)) == goal
    {
      ghost var a := nodes[..];
      nodes[i] := nodes[j];
      assert nodes[..] == a[i := a[j]];
      i := j;
      j := j / 2;
    }
    ghost var a := nodes[..];
    nodes[i] := Item(priority, data);
    assert nodes[..] == a[i := Item(priority, data)];
  }

  /** The loop of pop as written, over slots 1 .. n. */
  method SinkAsWritten<D>(nodes: array<Item<D>>, n: nat)
    requires n + 1 < nodes.Length
    modifies nodes
    ensures nodes[..] == SiftAsWritten(old(nodes[..]), 1, n)
  {
    ghost var goal := SiftAsWritten(nodes[..], 1, n);
    var i := 1;
    while true
      invariant 1 <= i <= n + 1 && SiftAsWritten(nodes[..], i, n) == goal
      decreases n + 1 - i
    {
      ghost var a := nodes[..];
      var k, j := i, 2 * i;
      if j <= n && nodes[j].priority < nodes[k].priority {
        k := j;
      }
      if j + 1 <= n && nodes[j + 1].priority < nodes[k].priority {
        k := j + 1;
      }
      assert k == Choose(a, i, n, a[i].priority);
      if k == i {
        break;
      }
      nodes[i] := nodes[k];
      assert nodes[..] == a[i := a[k]];
      i := k;
    }
    ghost var a := nodes[..];
    nodes[i] := nodes[n + 1];
    assert nodes[..] == a[i := a[n + 1]];
  }

  /** The same loop with i compared as the displaced item nodes[n + 1]. */
  method SinkAsMeant<D>(nodes: array<Item<D>>, n: nat)
    requires n + 1 < nodes.Length
    modifies nodes
    ensures nodes[..] == SiftAsMeant(old(nodes[..]), 1, n)
  {
    ghost var goal := SiftAsMeant(nodes[..], 1, n);
    var i := 1;
    while true
      invariant 1 <= i <= n + 1 && SiftAsMeant(nodes[..], i, n) == goal
      decreases n + 1 - i
    {
      ghost var a := nodes[..];
      var k, j, p := i, 2 * i, nodes[n + 1].priority;
      if j <= n && nodes[j].priority < p {
        k, p := j, nodes[j].priority;
      }
      if j + 1 <= n && nodes[j + 1].priority < p {
        k := j + 1;
      }
      assert k == Choose(a, i, n, a[n + 1].priority);
      if k == i {
        break;
      }
      nodes[i] := nodes[k];
      assert nodes[..] == a[i := a[k]];
      i := k;
    }
    ghost var a := nodes[..];
    nodes[i] := nodes[n + 1];
    assert nodes[..] == a[i := a[n + 1]];
  }

  /** The end of push, on the array. */
  method Insert<D>(nodes: array<Item<D>>, len: nat, priority: int, data: D)
    requires len + 1 < nodes.Length
    modifies nodes
    ensures Bag(nodes[..], len + 1) == Bag(old(nodes[..]), len) + multiset{Item(priority, data)}
    ensures Ordered(old(nodes[..]), len) ==> Ordered(nodes[..], len + 1)
    ensures nodes[..] == HeapSpec.Push(old(nodes[..]), len, Item(priority, data))
  {
    PushCorrect(nodes[..], len, Item(priority, data));
    RaiseHole(nodes, len + 1, priority, data);
  }

  /** The pop that was meant, on the array. */
  method TakeRoot<D>(nodes: array<Item<D>>, len: nat) returns (root: Item<D>)
    requires 1 <= len < nodes.Length
    modifies nodes
    ensures root == old(nodes[1]) && PoppedTo(old(nodes[..]), len, true, nodes[..])
    ensures Bag(nodes[..], len - 1) + multiset{root} == Bag(old(nodes[..]), len)
    ensures Ordered(old(nodes[..]), len) ==> Ordered(nodes[..], len - 1)
    ensures Ordered(old(nodes[..]), len) ==> forall e :: e in Bag(old(nodes[..]), len) ==> root.priority <= e.priority
  {
    TakenRoot(nodes[..], len, HeapSpec.PopAsMeant(nodes[..], len));
    root := nodes[1];
    SinkLast(nodes, len);
  }

  /** The slots of the pop that was meant. */
  method SinkLast<D>(nodes: array<Item<D>>, len: nat)
    requires 1 <= len < nodes.Length
    modifies nodes
    ensures nodes[..] == HeapSpec.PopAsMeant(old(nodes[..]), len)
  {
    ghost var a := nodes[..];
    nodes[1] := nodes[len];
    assert nodes[..] == a[1 := a[len]];
    SinkAsMeant(nodes, len - 1);
  }

  lemma TakenRoot<D>(a: seq<Item<D>>, len: nat, r: seq<Item<D>>)
    requires 1 <= len < |a| && r == HeapSpec.PopAsMeant(a, len)
    ensures PoppedTo(a, len, true, r)
    ensures Bag(r, len - 1) + multiset{a[1]} == Bag(a, len)
    ensures Ordered(a, len) ==> Ordered(r, len - 1) && forall e :: e in Bag(a, len) ==> a[1].priority <= e.priority
  {
    var q := PopSinks(a, len, true);
    PopBag(a, len);
    if Ordered(a, len) {
      PopAsMeantOrders(a, len);
      RootOfBag(a, len);
    }
  }

  class Heap<D(0)> {
    var nodes: array?<Item<D>>
    var len: nat
    var size: nat

    ghost predicate Valid()
      reads this
    {
      && (nodes == null <==> size == 0)
      && (nodes != null ==> nodes.Length == size)
      && (len == 0 || len < size)
    }

    /** The slots as a sequence. */
    ghost function Slots(): seq<Item<D>>
      reads this, nodes
    {
      if nodes == null then [] else nodes[..]
    }

    ghost predicate InOrder()
      requires Valid()
      reads this, nodes
    {
      nodes == null || Ordered(Slots(), len)
    }

    ghost function Items(): multiset<Item<D>>
      requires Valid()
      reads this, nodes
    {
      if nodes == null then multiset{} else Bag(Slots(), len)
    }

    constructor ()
      ensures Valid() && nodes == null && len == 0 && InOrder() && Items() == multiset{}
    {
      nodes, len, size := null, 0, 0;
    }

    /** Doubles the array when the next slot would not fit. */
    method Reserve()
      requires Valid()
      modifies this`nodes, this`size
      ensures Valid() && nodes != null && len + 1 < size && (nodes == old(nodes) || fresh(nodes))
      ensures Items() == old(Items()) && (old(InOrder()) ==> InOrder())
      ensures forall k :: 1 <= k <= len ==> Slots()[k] == old(Slots())[k]
      ensures size == if len + 1 < old(size) then old(size) else if old(size) != 0 then old(size) * 2 else 4
    {
      if len + 1 >= size {
        size := if size != 0 then size * 2 else 4;
        if nodes == null {
          nodes := new Item<D>[size];
          assert nodes[..][1..1] == [];
        } else {
          nodes := Grown(nodes, size, len);
        }
      }
    }

    /** Puts an item into the next slot and lets it rise. */
    method Append(priority: int, data: D)
      requires Valid() && nodes != null && len + 1 < size
      modifies this`len, nodes
      ensures Valid() && len == old(len) + 1 && Items() == old(Items()) + multiset{Item(priority, data)}
      ensures old(InOrder()) ==> InOrder()
      ensures PushedTo(old(Slots()), old(len), Item(priority, data), Slots())
    {
      ghost var q := PushRaises(Slots(), len, Item(priority, data));
      Insert(nodes, len, priority, data);
      len := len + 1;
    }

    /** Adds an item; the code does not check that realloc succeeds. */
    method Push(priority: int, data: D)
      requires Valid()
      modifies this, nodes
      ensures Valid() && nodes != null && (nodes == old(nodes) || fresh(nodes)) && len == old(len) + 1
      ensures Items() == old(Items()) + multiset{Item(priority, data)}
      ensures old(InOrder()) ==> InOrder()
      ensures PushedTo(old(Slots()), old(len), Item(priority, data), Slots())
      ensures size == if len < old(size) then old(size) else if old(size) != 0 then old(size) * 2 else 4
    {
      ghost var before, n, x := Slots(), len, Item(priority, data);
      Reserve();
      ghost var a := Slots();
      Append(priority, data);
      PushedAlike(a, before, n, x, Slots());
    }

    /** Pop with the comparisons of the code. */
    method PopAsWritten() returns (data: Option<D>)
      requires Valid()
      modifies this`len, nodes
      ensures Valid() && (data == None <==> old(len) == 0)
      ensures old(len) == 0 ==> len == 0 && Slots() == old(Slots())
      ensures old(len) > 0 ==>
        && len == old(len) - 1 && data == Some(old(nodes[1].data))
        && Slots() == HeapSpec.PopAsWritten(old(Slots()), old(len))
    {
      if len == 0 {
        return None;
      }
      data := Some(nodes[1].data);
      ghost var a := nodes[..];
      nodes[1] := nodes[len];
      assert nodes[..] == a[1 := a[len]];
      len := len - 1;
      SinkAsWritten(nodes, len);
    }

    /** Pop with children compared to the displaced item, which is what fills the hole. */
    method PopAsMeant() returns (item: Option<Item<D>>)
      requires Valid()
      modifies this`len, nodes
      ensures Valid() && nodes == old(nodes) && (item == None <==> old(len) == 0)
      ensures old(len) == 0 ==> len == 0
      ensures old(len) > 0 ==>
        && len == old(len) - 1 && Items() + multiset{item.value} == old(Items())
        && item == Some(old(nodes[1])) && PoppedTo(old(Slots()), old(len), true, Slots())
        && (old(InOrder()) ==> InOrder() && forall e :: e in old(Items()) ==> item.value.priority <= e.priority)
    {
      if len == 0 {
        return None;
      }
      var root := TakeRoot(nodes, len);
      item := Some(root);
      len := len - 1;
    }
  }

  lemma RootOfBag<D>(a: seq<Item<D>>, n: nat)
    requires 1 <= n < |a| && Ordered(a, n)
    ensures forall e :: e in Bag(a, n) ==> a[1].priority <= e.priority
  {
    forall e | e in Bag(a, n)
      ensures a[1].priority <= e.priority
    {
      assert e in a[1..n + 1];
      var k :| 0 <= k < n && a[1..n + 1][k] == e;
      RootLeast(a, n, k + 1);
    }
  }

  method PushAll<D(0)>(given: seq<Item<D>>) returns (h: Heap<D>)
    ensures fresh(h) && h.Valid() && (h.nodes != null ==> fresh(h.nodes))
    ensures h.InOrder() && h.Items() == multiset(given)
  {
    h := new Heap<D>();
    assert given[..0] == [];
    for k := 0 to |given|
      invariant fresh(h) && h.Valid() && (h.nodes != null ==> fresh(h.nodes))
      invariant h.InOrder() && h.Items() == multiset(given[..k])
    {
      h.Push(given[k].priority, given[k].data);
      NextGiven(given, k);
    }
    assert given[..|given|] == given;
  }

  lemma NextGiven<T>(given: seq<T>, k: nat)
    requires k < |given|
    ensures multiset(given[..k + 1]) == multiset(given[..k]) + multiset{given[k]}
  {
    assert given[..k + 1] == given[..k] + [given[k]];
  }

  method PopAll<D(0)>(h: Heap<D>) returns (out: seq<Item<D>>)
    requires h.Valid() && h.InOrder()
    modifies h, h.nodes
    ensures multiset(out) == old(h.Items())
    ensures forall i, j :: 0 <= i < j < |out| ==> out[i].priority <= out[j].priority
  {
    out := [];
    ghost var all, rest := h.Items(), h.Items();
    while h.len > 0
      invariant h.Valid() && h.InOrder() && h.nodes == old(h.nodes) && h.Items() == rest
      invariant InSequence(out, rest, all)
      decreases h.len
    {
      var item := h.PopAsMeant();
      NextInSequence(out, rest, all, item.value, h.Items());
      out, rest := out + [item.value], h.Items();
    }
    EmptyItems(h);
  }

  /** out is by priority, nothing in rest comes before it, and nothing was lost. */
  ghost predicate InSequence<D>(out: seq<Item<D>>, rest: multiset<Item<D>>, all: multiset<Item<D>>) {
    && multiset(out) + rest == all
    && (forall i, j :: 0 <= i < j < |out| ==> out[i].priority <= out[j].priority)
    && (forall i, e :: 0 <= i < |out| && e in rest ==> out[i].priority <= e.priority)
  }

  lemma NextInSequence<D>(out: seq<Item<D>>, rest: multiset<Item<D>>, all: multiset<Item<D>>,
                          x: Item<D>, rest': multiset<Item<D>>)
    requires InSequence(out, rest, all) && rest' + multiset{x} == rest
    requires forall e :: e in rest ==> x.priority <= e.priority
    ensures InSequence(out + [x], rest', all)
  {
    assert x in rest;
    assert forall e :: e in rest' ==> e in rest;
  }

  lemma EmptyItems<D(0)>(h: Heap<D>)
    requires h.Valid() && h.len == 0
    ensures h.Items() == multiset{}
  {
    if h.nodes != null {
      assert h.nodes[..][1..1] == [];
    }
  }

  /** Pushing everything and popping everything, as the program's main does: with the pop that was
      meant the items come out by priority. */
  method PushAllPopAll<D(0)>(given: seq<Item<D>>) returns (out: seq<Item<D>>)
    ensures multiset(out) == multiset(given)
    ensures forall i, j :: 0 <= i < j < |out| ==> out[i].priority <= out[j].priority
  {
    var h := PushAll(given);
    out := PopAll(h);
  }

  function DataOf<D>(items: seq<Item<D>>): (r: seq<D>)
    ensures |r| == |items|
  {
    seq(|items|, k requires 0 <= k < |items| => items[k].data)
  }

  /** out are the data of the items popped so far; with the pops to come they make all and run. */
  ghost predicate Popped<D>(out: seq<D>, items: seq<Item<D>>, a: seq<Item<D>>, n: nat,
                            all: multiset<Item<D>>, run: seq<int>)
    requires n < |a|
  {
    out == DataOf(items) && multiset(items) + Bag(a, n) == all && Priorities(items) + PopRun(a, n) == run
  }

  lemma BagCarried<D>(items: seq<Item<D>>, x: Item<D>, before: multiset<Item<D>>, after: multiset<Item<D>>)
    requires after + multiset{x} == before
    ensures multiset(items + [x]) + after == multiset(items) + before
  {
    assert multiset(items + [x]) == multiset(items) + multiset{x};
  }

  lemma RunCarried<D>(items: seq<Item<D>>, x: Item<D>, before: seq<int>, after: seq<int>)
    requires before == [x.priority] + after
    ensures Priorities(items + [x]) + after == Priorities(items) + before
  {
    assert Priorities(items + [x]) == Priorities(items) + [x.priority];
  }

  lemma DataCarried<D>(items: seq<Item<D>>, x: Item<D>)
    ensures DataOf(items + [x]) == DataOf(items) + [x.data]
  {
  }

  lemma NextPopped<D>(out: seq<D>, items: seq<Item<D>>, a: seq<Item<D>>, n: nat, all: multiset<Item<D>>, run: seq<int>)
    requires 1 <= n < |a| && Popped(out, items, a, n, all, run)
    ensures Popped(out + [a[1].data], items + [a[1]], HeapSpec.PopAsWritten(a, n), n - 1, all, run)
  {
    var b := HeapSpec.PopAsWritten(a, n);
    PopBag(a, n);
    BagCarried(items, a[1], Bag(a, n), Bag(b, n - 1));
    RunCarried(items, a[1], PopRun(a, n), PopRun(b, n - 1));
    DataCarried(items, a[1]);
  }

  lemma AllPopped<D>(out: seq<D>, items: seq<Item<D>>, a: seq<Item<D>>, all: multiset<Item<D>>, run: seq<int>)
    requires 0 < |a| && Popped(out, items, a, 0, all, run)
    ensures multiset(items) == all && Priorities(items) == run
  {
    assert a[1..1] == [];
  }

  method PopNext<D(0)>(h: Heap<D>, given: seq<D>, ghost before: seq<Item<D>>,
                       ghost all: multiset<Item<D>>, ghost run: seq<int>)
    returns (out: seq<D>, ghost items: seq<Item<D>>)
    requires h.Valid() && h.nodes != null && h.len > 0 && Popped(given, before, h.Slots(), h.len, all, run)
    modifies h`len, h.nodes
    ensures h.Valid() && h.len == old(h.len) - 1 && Popped(out, items, h.Slots(), h.len, all, run)
  {
    ghost var first := h.nodes[1];
    NextPopped(given, before, h.Slots(), h.len, all, run);
    var data := h.PopAsWritten();
    out, items := given + [data.value], before + [first];
  }

  /** Pops everything as written. The data come out in the order of items, whose priorities are those
      of the run of pops. */
  method PopAllAsWritten<D(0)>(h: Heap<D>) returns (out: seq<D>, ghost items: seq<Item<D>>)
    requires h.Valid() && h.nodes != null
    modifies h, h.nodes
    ensures out == DataOf(items)
    ensures multiset(items) == old(h.Items()) && Priorities(items) == PopRun(old(h.Slots()), old(h.len))
  {
    out, items := [], [];
    ghost var all, run := h.Items(), PopRun(h.Slots(), h.len);
    while h.len > 0
      invariant h.Valid() && h.nodes == old(h.nodes) && Popped(out, items, h.Slots(), h.len, all, run)
      decreases h.len
    {
      out, items := PopNext(h, out, items, all, run);
    }
    AllPopped(out, items, h.Slots(), all, run);
  }

  lemma BagSize<D>(a: seq<Item<D>>, n: nat)
    requires n < |a|
    ensures |Bag(a, n)| == n
  {
    assert |a[1..n + 1]| == n;
  }

  /** The items come out in this order: they are those given, and up to five come by priority. */
  ghost predicate ComesOut<D>(items: seq<Item<D>>, given: seq<Item<D>>) {
    multiset(items) == multiset(given) && (|given| <= 5 ==> Nondecreasing(Priorities(items)))
  }

  /** The program's main as it stands. */
  method PushAllPopAllAsWritten<D(0)>(given: seq<Item<D>>) returns (out: seq<D>)
    ensures exists items: seq<Item<D>> :: ComesOut(items, given) && out == DataOf(items)
  {
    var h := PushAll(given);
    ghost var items: seq<Item<D>> := [];
    if h.nodes == null {
      out := [];
    } else {
      BagSize(h.Slots(), h.len);
      if h.len <= 5 {
        FiveRun(h.Slots(), h.len);
      }
      out, items := PopAllAsWritten(h);
    }
    assert ComesOut(items, given);
  }
}
