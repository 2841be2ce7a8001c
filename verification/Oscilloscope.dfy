/** The objects of the oscilloscope display, apps/Oscilloscope/java: the growable index of stores, the
    mote table, the viewport, and the object that joins them. Each operation is proved against the
    step of ScopeSpec it performs. */
module OscilloscopeDisplay {
  import opened Options
  import opened SampleHistory
  import opened SampleStore
  import opened ScopeSpec

  /** Window.MoteTableModel: motes in order, and their colors beside them. */
  class MoteTable {
    var motes: seq<nat>
    var colors: seq<Color>
    var cycleIndex: nat

    ghost function Model(): Table
      reads this
    {
      Table(motes, colors, cycleIndex)
    }

    constructor ()
      ensures Model() == Table([], [], 0)
    {
      motes, colors, cycleIndex := [], [], 0;
    }

    /** Inserts a mote before the first greater one, with the next color. */
    method NewNode(nodeId: nat)
      requires Parallel(Model())
      modifies this
      ensures Model() == Listed(old(Model()), nodeId)
    {
      var i := 0;
      while !(i == |motes| || nodeId < motes[i])
        invariant i <= |motes| && i + Place(motes[i..], nodeId) == Place(motes, nodeId)
      {
        assert motes[i..][1..] == motes[i + 1..];
        i := i + 1;
      }
      motes := motes[..i] + [nodeId] + motes[i..];
      colors := colors[..i] + [CYCLE[cycleIndex % |CYCLE|]] + colors[i..];
      cycleIndex := cycleIndex + 1;
    }

    method Clear()
      modifies this`motes, this`colors
      ensures Model() == Table([], [], old(cycleIndex))
    {
      motes, colors := [], [];
    }

    method SetValueAt(color: Color, row: nat)
      requires row < |colors|
      modifies this`colors
      ensures Model() == Recolored(old(Model()), row, color)
    {
      colors := colors[row := color];
    }
  }

  /** Graph: the sample numbers at the left and right edge, and the scale. */
  class Graph {
    var gx0: int
    var gx1: int
    var scale: nat

    ghost function Model(): View
      reads this
    {
      View(gx0, gx1, scale)
    }

    constructor ()
      ensures Model() == View(0, Width(2), 2)
    {
      scale := 2;
      gx0 := 0;
      gx1 := Width(2);
    }

    method Recentered(max: int)
      requires gx1 >= gx0
      modifies this
      ensures Model() == Recenter(old(Model()), max)
    {
      var scrollby := (gx1 - gx0) / 4 + (max - gx1);
      gx0 := gx0 + scrollby;
      gx1 := gx1 + scrollby;
      if gx0 < 0 {
        gx1 := gx1 - gx0;
        gx0 := 0;
      }
    }

    method NewDataShown(max: int)
      requires gx1 >= gx0
      modifies this
      ensures Model() == NewData(old(Model()), max)
    {
      if max > gx1 || max < gx0 {
        Recentered(max);
      }
    }

    method ScaleChanged(newScale: nat, max: int)
      requires newScale <= 8
      modifies this
      ensures Model() == SetScale(old(Model()), newScale, max)
    {
      gx1 := gx0 + Width(newScale);
      scale := newScale;
      Recentered(max);
    }
  }

  ghost predicate Extends(h: seq<Message>, h': seq<Message>, m: Message) {
    |h'| == |h| + 1 && h'[..|h|] == h && h'[|h|] == m
  }

  lemma Extended(h: seq<Message>, h': seq<Message>, m: Message)
    requires Extends(h, h', m)
    ensures h' == h + [m]
  {
    assert h' == h'[..|h|] + [h'[|h|]];
  }

  /** Passes a message to one store. */
  method Feed(node: Node, messageId: int, readings: array<int>)
    requires node.Valid() && node.nReadings > 0 && readings.Length == node.nReadings && readings != node.data
    modifies node, if node.data == null then {} else {node.data}
    ensures node.Valid() && node.data != null && (node.data == old(node.data) || fresh(node.data))
    ensures Extends(old(node.history), node.history, Message(messageId * node.nReadings, readings[..]))
  {
    node.Update(messageId, readings);
  }

  /** Data: the stores of all motes, in an array indexed by mote. */
  class Data {
    const nReadings: nat
    var nodes: array<Node?>
    ghost var histories: Histories
    ghost var Repr: set<object>
    /** The mote to whose store a data array belongs; no two stores share one. */
    ghost var owner: map<array<int>, nat>

    /** The store in slot i is that of mote i, with its history. */
    ghost predicate Holds(i: nat)
      requires i < nodes.Length
      reads this, nodes, Repr
    {
      var n := nodes[i];
      && (n != null <==> i in histories)
      && (n != null ==>
            && n in Repr && (n.data != null ==> n.data in Repr && n.data in owner && owner[n.data] == i)
            && n.Valid()
            && n.id == i && n.nReadings == nReadings && n.history == histories[i])
    }

    ghost predicate Valid()
      reads this, Repr
    {
      && this in Repr && nodes in Repr && nReadings > 0
      && (forall id :: id in histories ==> id < nodes.Length)
      && (forall i :: 0 <= i < nodes.Length ==> Holds(i))
    }

    constructor (nReadings: nat)
      requires nReadings > 0
      ensures Valid() && fresh(Repr) && histories == map[] && this.nReadings == nReadings
    {
      this.nReadings := nReadings;
      nodes := new Node?[256](_ => null);
      histories, owner := map[], map[];
      new;
      Repr := {this, nodes};
    }

    /** Moves the index to a longer array. */
    method Lengthen(newLength: nat)
      requires Valid() && nodes.Length <= newLength
      modifies this`nodes, this`Repr
      ensures Valid() && nodes.Length == newLength && fresh(Repr - old(Repr))
    {
      var newNodes := new Node?[newLength](_ => null);
      forall k | 0 <= k < nodes.Length {
        newNodes[k] := nodes[k];
      }
      nodes := newNodes;
      Repr := Repr + {newNodes};
      forall i | 0 <= i < nodes.Length
        ensures Holds(i)
      {
        assert i < old(nodes).Length ==> old(Holds(i));
      }
    }

    /** Makes the index reach nodeId. */
    method Reach(nodeId: nat)
      requires Valid()
      modifies this`nodes, this`Repr
      ensures Valid() && nodeId < nodes.Length && fresh(Repr - old(Repr))
      ensures nodes.Length == if nodeId < old(nodes.Length) then old(nodes.Length)
                              else if nodeId < 2 * old(nodes.Length) then 2 * old(nodes.Length) else nodeId + 1
    {
      if nodeId >= nodes.Length {
        var newLength := nodes.Length * 2;
        if nodeId >= newLength {
          newLength := nodeId + 1;
        }
        Lengthen(newLength);
      }
    }

    /** Enters an empty store in its free slot. */
    method Enter(node: Node)
      requires Valid() && 0 <= node.id < nodes.Length && nodes[node.id] == null
      requires node !in Repr && node.Valid() && node.data == null && node.nReadings == nReadings
      modifies this`histories, this`Repr, nodes
      ensures Valid() && Repr == old(Repr) + {node} && nodes == old(nodes)
      ensures histories == old(histories)[node.id := []]
    {
      nodes[node.id] := node;
      histories := histories[node.id := []];
      Repr := Repr + {node};
      forall i | 0 <= i < nodes.Length
        ensures Holds(i)
      {
        assert old(Holds(i));
      }
    }

    /** Gives a mote not known before an empty store, and reports it to the table. */
    method Open(nodeId: nat, table: MoteTable)
      requires Valid() && nodeId < nodes.Length && table !in Repr && Parallel(table.Model())
      modifies this`histories, this`Repr, nodes, table
      ensures Valid() && fresh(Repr - old(Repr)) && nodes == old(nodes)
      ensures histories == if nodeId in old(histories) then old(histories) else old(histories)[nodeId := []]
      ensures table.Model()
              == if nodeId in old(histories) then old(table.Model()) else Listed(old(table.Model()), nodeId)
    {
      assert Holds(nodeId);
      if nodes[nodeId] == null {
        var node := new Node(nodeId, nReadings);
        Enter(node);
        table.NewNode(nodeId);
      }
    }

    /** Notes the data and history of a store that has changed. */
    ghost method Note(node: Node)
      requires this in Repr && nodes in Repr && nReadings > 0 && node in Repr && node.Valid() && node.data != null
      requires 0 <= node.id < nodes.Length && nodes[node.id] == node && node.nReadings == nReadings
      requires node.data in Repr ==> node.data in owner && owner[node.data] == node.id
      requires forall id :: id in histories ==> id < nodes.Length
      requires forall i :: 0 <= i < nodes.Length && i != node.id ==> Holds(i)
      modifies this`Repr, this`owner, this`histories
      ensures Valid() && Repr == old(Repr) + {node.data}
      ensures histories == old(histories)[node.id := node.history]
    {
      owner := owner[node.data := node.id];
      Repr := Repr + {node.data};
      histories := histories[node.id := node.history];
      forall i | 0 <= i < nodes.Length && i != node.id
        ensures Holds(i)
      {
        assert old(Holds(i));
      }
    }

    /** Passes a message to the store of its mote. */
    method Deliver(nodeId: nat, messageId: nat, readings: array<int>)
      requires Valid() && nodeId < nodes.Length && nodeId in histories
      requires readings.Length == nReadings && readings !in Repr
      modifies Repr
      ensures Valid() && fresh(Repr - old(Repr))
      ensures histories
              == old(histories)[nodeId := old(histories[nodeId]) + [Message(messageId * nReadings, readings[..])]]
    {
      assert Holds(nodeId);
      var node := nodes[nodeId];
      Feed(node, messageId, readings);
      forall i | 0 <= i < nodes.Length && i != nodeId
        ensures Holds(i)
      {
        assert old(Holds(i));
      }
      Note(node);
      Extended(old(histories[nodeId]), node.history, Message(messageId * nReadings, readings[..]));
    }

    /** Receives a message; a mote not known before is reported to the table. */
    method Update(nodeId: nat, messageId: nat, readings: array<int>, table: MoteTable)
      requires Valid() && readings.Length == nReadings && readings !in Repr && table !in Repr
      requires Parallel(table.Model())
      modifies Repr, table
      ensures Valid() && fresh(Repr - old(Repr))
      ensures var before := if nodeId in old(histories) then old(histories[nodeId]) else [];
              histories == old(histories)[nodeId := before + [Message(messageId * nReadings, readings[..])]]
      ensures table.Model()
              == if nodeId in old(histories) then old(table.Model()) else Listed(old(table.Model()), nodeId)
    {
      Reach(nodeId);
      Open(nodeId, table);
      Deliver(nodeId, messageId, readings);
    }

    /** The value of sample x of a mote, or -1 for missing data. */
    function GetData(nodeId: nat, x: int): (r: int)
      requires Valid()
      reads this, Repr
      ensures r == if nodeId in histories then Shown(histories[nodeId], nReadings, x) else -1
    {
      assert nodeId < nodes.Length ==> Holds(nodeId);
      if nodeId >= nodes.Length || nodes[nodeId] == null then -1 else nodes[nodeId].GetData(x)
    }

    /** The number of the last known sample of a mote, 0 for an unknown one. */
    function NodeMaxX(nodeId: nat): (r: int)
      requires Valid()
      reads this, Repr
      ensures r == if nodeId in histories then NodeMax(histories[nodeId], nReadings) else 0
    {
      assert nodeId < nodes.Length ==> Holds(nodeId);
      if nodeId >= nodes.Length || nodes[nodeId] == null then 0 else nodes[nodeId].MaxX()
    }

    /** The largest sample number of all motes. */
    method MaxX() returns (max: int)
      requires Valid()
      ensures max == LargestX(histories, nReadings)
    {
      max := 0;
      for i := 0 to nodes.Length
        invariant max >= 0 && (max == 0 || exists id :: id in histories && NodeMax(histories[id], nReadings) == max)
        invariant forall id :: id in histories && id < i ==> NodeMax(histories[id], nReadings) <= max
      {
        assert Holds(i);
        if nodes[i] != null {
          var nmax := nodes[i].MaxX();
          if nmax > max {
            max := nmax;
          }
        }
      }
      LargestUnique(histories, nReadings, max);
    }
  }

  /** Oscilloscope and Window: every operation is one step of the run of events so far. */
  class Oscilloscope {
    const nReadings: nat
    var data: Data
    const table: MoteTable
    const graph: Graph
    ghost var events: seq<Event>

    ghost predicate Separate()
      reads this, data
    {
      && this !in data.Repr && table !in data.Repr && graph !in data.Repr && data.nReadings == nReadings
    }

    ghost function Model(): Scope
      reads this, data, table, graph
    {
      Scope(data.histories, table.Model(), graph.Model())
    }

    /** The objects are well formed and together in the state that the events lead to. */
    ghost predicate Valid()
      reads this, data, data.Repr, table, graph
    {
      Separate() && data.Valid() && Run(events, nReadings) == Some(Model())
    }

    constructor (nReadings: nat)
      requires nReadings > 0
      ensures Valid() && events == [] && this.nReadings == nReadings
    {
      this.nReadings := nReadings;
      data := new Data(nReadings);
      table := new MoteTable();
      graph := new Graph();
      events := [];
      new;
      var max := data.MaxX();
      LargestUnique(map[], nReadings, 0);
      graph.ScaleChanged(graph.scale, max);
    }

    /** Graph.newData. */
    method NewDataShown()
      requires Separate() && data.Valid() && graph.gx1 >= graph.gx0
      modifies graph
      ensures data.Valid() && graph.Model() == NewData(old(graph.Model()), LargestX(data.histories, nReadings))
    {
      var max := data.MaxX();
      graph.NewDataShown(max);
    }

    /** Graph.setScale. */
    method Rescale(scale: nat)
      requires Separate() && data.Valid() && scale <= 8
      modifies graph
      ensures data.Valid()
      ensures graph.Model() == ScopeSpec.SetScale(old(graph.Model()), scale, LargestX(data.histories, nReadings))
    {
      var max := data.MaxX();
      graph.ScaleChanged(scale, max);
    }

    /** Notes an event whose work is done. */
    ghost method Done(e: Event)
      requires Separate() && data.Valid() && Run(events + [e], nReadings) == Some(Model())
      modifies this`events
      ensures Valid() && events == old(events) + [e]
    {
      events := events + [e];
    }

    method MessageReceived(id: nat, count: nat, readings: array<int>)
      requires Valid() && readings.Length == nReadings && readings !in data.Repr
      modifies this`events, data.Repr, table, graph
      ensures Valid() && events == old(events) + [Received(id, Message(count * nReadings, readings[..]))]
    {
      ghost var m := Message(count * nReadings, readings[..]);
      ViewHasWidth(events, nReadings);
      NextReceived(events, Model(), id, m, nReadings);
      data.Update(id, count, readings, table);
      NewDataShown();
      Done(Received(id, m));
    }

    method ClearData()
      requires Valid()
      modifies this`events, this`data, table, graph
      ensures Valid() && events == old(events) + [Cleared]
    {
      ViewHasWidth(events, nReadings);
      NextCleared(events, Model(), nReadings);
      table.Clear();
      data := new Data(nReadings);
      NewDataShown();
      Done(Cleared);
    }

    method SetScale(scale: nat)
      requires Valid() && scale <= 8
      modifies this`events, graph
      ensures Valid() && events == old(events) + [ScaleSet(scale)]
    {
      NextScale(events, Model(), scale, nReadings);
      Rescale(scale);
      Done(ScaleSet(scale));
    }

    method PickColor(row: nat, color: Color)
      requires Valid() && row < |table.colors|
      modifies this`events, table
      ensures Valid() && events == old(events) + [ColorPicked(row, color)]
    {
      NextStep(events, ColorPicked(row, color), nReadings);
      table.SetValueAt(color, row);
      Done(ColorPicked(row, color));
    }

    /** What the graph draws of a mote at x: what a store of the messages since the last clear
        answers, and from the left edge on exactly what they say of every sample since the mote's last
        reboot. */
    method Drawn(id: nat, x: int) returns (y: int)
      requires Valid()
      ensures y == Shown(Heard(events, id), nReadings, x)
      ensures graph.gx0 <= x && (Current(Heard(events, id), x) || Kept(Heard(events, id), nReadings, x))
              && (nReadings == 1 ==> graph.scale <= 7)
              ==> y == Sample(Heard(events, id), x)
    {
      RunShows(events, nReadings);
      if graph.gx0 <= x && (Current(Heard(events, id), x) || Kept(Heard(events, id), nReadings, x))
         && (nReadings == 1 ==> graph.scale <= 7) {
        OnScreenIsExact(events, nReadings, id, x);
      }
      y := data.GetData(id, x);
    }
  }

  lemma ViewHasWidth(events: seq<Event>, nReadings: nat)
    requires Run(events, nReadings).Some?
    ensures var v := Run(events, nReadings).value.view; v.gx1 >= v.gx0
  {
    RunShows(events, nReadings);
  }

  lemma NextReceived(events: seq<Event>, s: Scope, id: nat, m: Message, nReadings: nat)
    requires Run(events, nReadings) == Some(s) && |m.readings| == nReadings && m.start >= 0
    ensures Run(events + [Received(id, m)], nReadings) == Some(Receive(s, id, m, nReadings))
  {
    NextStep(events, Received(id, m), nReadings);
  }

  lemma NextCleared(events: seq<Event>, s: Scope, nReadings: nat)
    requires Run(events, nReadings) == Some(s)
    ensures Run(events + [Cleared], nReadings)
            == Some(Scope(map[], Table([], [], s.table.cycleIndex), NewData(s.view, LargestX(map[], nReadings))))
  {
    NextStep(events, Cleared, nReadings);
  }

  lemma NextScale(events: seq<Event>, s: Scope, scale: nat, nReadings: nat)
    requires Run(events, nReadings) == Some(s) && scale <= 8
    ensures Run(events + [ScaleSet(scale)], nReadings)
            == Some(s.(view := ScopeSpec.SetScale(s.view, scale, LargestX(s.histories, nReadings))))
  {
    NextStep(events, ScaleSet(scale), nReadings);
  }
}
