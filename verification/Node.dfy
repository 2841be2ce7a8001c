/** The sample store of one mote, apps/Oscilloscope/java/Node.java: an array window that grows,
    slides and restarts as messages arrive. */
module SampleStore {
  import opened Options
  import opened SampleHistory

  /** System.arraycopy; the two ranges may overlap. */
  method ArrayCopy(src: array<int>, srcPos: nat, dest: array<int>, destPos: nat, length: nat)
    requires srcPos + length <= src.Length && destPos + length <= dest.Length
    modifies dest
    ensures forall k {:trigger dest[k]} :: 0 <= k < dest.Length ==>
      dest[k] == if destPos <= k < destPos + length then old(src[k - destPos + srcPos]) else old(dest[k])
  {
    forall k | destPos <= k < destPos + length {
      dest[k] := src[k - destPos + srcPos];
    }
  }

  /** The fill loop: marks slots from .. to - 1 as missing. */
  method MarkMissing(a: array<int>, from: nat, to: nat)
    requires to <= a.Length
    modifies a
    ensures forall k :: 0 <= k < a.Length ==> a[k] == if from <= k < to then -1 else old(a[k])
  {
    var i := from;
    while i < to
      invariant from <= i && (i <= to || i == from)
      invariant forall k :: 0 <= k < a.Length ==> a[k] == if from <= k < i then -1 else old(a[k])
    {
      a[i] := -1;
      i := i + 1;
    }
  }

  /** The store loop: writes the readings from slot at on. */
  method Store(a: array<int>, at: nat, readings: array<int>)
    requires at + readings.Length <= a.Length && a != readings
    modifies a
    ensures forall k :: 0 <= k < at + readings.Length ==> a[k] == if k < at then old(a[k]) else readings[k - at]
  {
    for i := 0 to readings.Length
      invariant forall k :: 0 <= k < at + i ==> a[k] == if k < at then old(a[k]) else readings[k - at]
    {
      a[at + i] := readings[i];
    }
  }

  class Node {
    const id: int
    const nReadings: nat
    var data: array?<int>
    var dataStart: int
    var dataEnd: int
    /** The messages received so far. */
    ghost var history: seq<Message>

    ghost predicate Valid()
      reads this, data
    {
      && WellFormed(history, nReadings)
      && (data == null <==> history == [])
      && (data == null ==> dataStart == 0 && dataEnd == 0)
      && (data != null ==>
            && WindowOf(history, nReadings) == Some(Window(dataStart, data.Length))
            && dataEnd == history[|history| - 1].start + nReadings
            && dataEnd <= dataStart + data.Length
            && forall x {:trigger Sample(history, x)} ::
                 dataStart <= x < dataEnd ==> data[x - dataStart] == Sample(history, x))
    }

    constructor (id: int, nReadings: nat)
      requires nReadings > 0
      ensures Valid() && history == [] && this.id == id && this.nReadings == nReadings && data == null
    {
      this.id, this.nReadings := id, nReadings;
      data, dataStart, dataEnd, history := null, 0, 0, [];
    }

    /** The slots hold the right samples up to number limit, as far as dataEnd. */
    ghost predicate Faithful(limit: int)
      requires data != null
      reads this, data
    {
      forall x {:trigger Sample(history, x)} ::
        dataStart <= x < dataEnd && x < dataStart + data.Length && x < limit ==>
          data[x - dataStart] == Sample(history, x)
    }

    /** Moves the data to a longer array. */
    method Extend(newLength: nat, ghost limit: int)
      requires data != null && dataEnd <= dataStart + data.Length <= dataStart + newLength && Faithful(limit)
      modifies this`data
      ensures data != null && fresh(data) && data.Length == newLength && Faithful(limit)
    {
      var newData := new int[newLength];
      ArrayCopy(data, 0, newData, 0, data.Length);
      data := newData;
    }

    /** Moves the window forward to newStart in the same array. */
    method Squish(newStart: int, ghost limit: int)
      requires data != null && dataStart <= newStart && dataEnd <= dataStart + data.Length && Faithful(limit)
      modifies this`dataStart, data
      ensures dataStart == newStart && Faithful(limit)
    {
      if dataStart + data.Length > newStart {
        ArrayCopy(data, newStart - dataStart, data, 0, data.Length - (newStart - dataStart));
      }
      dataStart := newStart;
    }

    /** Extends or slides the window to reach newEnd. */
    method Reserve(newDataIndex: int, newEnd: int)
      requires data != null && newEnd == newDataIndex + nReadings && dataStart <= newDataIndex
      requires newEnd > dataStart + data.Length >= dataEnd
      requires Shaped(Window(dataStart, data.Length), nReadings) && Faithful(newDataIndex)
      modifies this`data, this`dataStart, data
      ensures data != null && (data == old(data) || fresh(data)) && Faithful(newDataIndex)
      ensures Window(dataStart, data.Length)
              == Slide(Some(Window(old(dataStart), old(data.Length))), newDataIndex, nReadings)
    {
      var increment, maxSize := Increment(nReadings), MaxSize(nReadings);
      if data.Length < maxSize {
        var newLength := RoundUp(newEnd - dataStart, increment);
        RoundUpBounds(newEnd - dataStart, increment);
        if newLength >= maxSize {
          newLength := maxSize;
        }
        Extend(newLength, newDataIndex);
      }
      if newEnd > dataStart + data.Length {
        Squish(newDataIndex + increment - data.Length, newDataIndex);
      }
    }

    /** Extends, slides or restarts the window so that samples newDataIndex .. newEnd - 1 fit. */
    method MakeRoom(newDataIndex: int, newEnd: int)
      requires Valid() && nReadings > 0 && newEnd == newDataIndex + nReadings
      modifies this`data, this`dataStart, data
      ensures data != null && (data == old(data) || fresh(data))
      ensures Window(dataStart, data.Length) == Slide(WindowOf(history, nReadings), newDataIndex, nReadings)
      ensures dataStart <= newDataIndex && newEnd <= dataStart + data.Length
      ensures Faithful(newDataIndex)
    {
      if history != [] {
        WindowShape(history, nReadings);
      }
      SlideKeeps(WindowOf(history, nReadings), newDataIndex, nReadings);
      if newDataIndex < dataStart || data == null {
        dataStart := newDataIndex;
        data := new int[Increment(nReadings)];
      }
      if newEnd > dataStart + data.Length {
        Reserve(newDataIndex, newEnd);
      }
    }

    /** Marks the samples between the last known one and newDataIndex as missing. */
    method MarkGap(newDataIndex: int)
      requires data != null && dataStart <= newDataIndex <= dataStart + data.Length && Faithful(newDataIndex)
      requires forall x {:trigger Sample(history, x)} :: x >= dataEnd ==> Sample(history, x) == -1
      modifies data
      ensures forall x {:trigger Sample(history, x)} ::
                dataStart <= x < newDataIndex ==> data[x - dataStart] == Sample(history, x)
    {
      var i := if dataEnd < dataStart then dataStart else dataEnd;
      if i < newDataIndex {
        MarkMissing(data, i - dataStart, newDataIndex - dataStart);
      }
    }

    /** Makes room for samples newDataIndex .. newEnd - 1, and marks the missing ones before them.
        Data from newDataIndex on is invalid afterwards. */
    method SetEnd(newDataIndex: int, newEnd: int)
      requires Valid() && nReadings > 0 && newEnd == newDataIndex + nReadings
      modifies this`data, this`dataStart, this`dataEnd, data
      ensures data != null && (data == old(data) || fresh(data))
      ensures Window(dataStart, data.Length) == Slide(WindowOf(history, nReadings), newDataIndex, nReadings)
      ensures dataStart <= newDataIndex && newEnd <= dataStart + data.Length && dataEnd == newEnd
      ensures forall x {:trigger Sample(history, x)} ::
                dataStart <= x < newDataIndex ==> data[x - dataStart] == Sample(history, x)
    {
      MakeRoom(newDataIndex, newEnd);
      forall x | x >= dataEnd
        ensures Sample(history, x) == -1
      {
        NothingAfterEnd(history, nReadings, x);
      }
      MarkGap(newDataIndex);
      dataEnd := newEnd;
    }

    /** Stores the readings of the samples from start on, for which there is room. */
    method Accept(start: int, readings: array<int>)
      requires data != null && readings != data && WellFormed(history, nReadings) && readings.Length == nReadings
      requires Window(dataStart, data.Length) == Slide(WindowOf(history, nReadings), start, nReadings)
      requires dataStart <= start && start + nReadings <= dataStart + data.Length && dataEnd == start + nReadings
      requires forall x {:trigger Sample(history, x)} ::
                 dataStart <= x < start ==> data[x - dataStart] == Sample(history, x)
      modifies this`history, data
      ensures Valid() && history == old(history) + [Message(start, readings[..])]
    {
      Store(data, start - dataStart, readings);
      history := history + [Message(start, readings[..])];
      assert history[..|history| - 1] == old(history);
    }

    /** Receives message messageId, with readings for samples messageId * nReadings onwards. */
    method Update(messageId: int, readings: array<int>)
      requires Valid() && nReadings > 0 && readings.Length == nReadings && readings != data
      modifies this`data, this`dataStart, this`dataEnd, this`history, data
      ensures Valid() && data != null && (data == old(data) || fresh(data))
      ensures history == old(history) + [Message(messageId * nReadings, readings[..])]
    {
      var start := messageId * nReadings;
      SetEnd(start, start + nReadings);
      Accept(start, readings);
    }

    /** The value of sample x, or -1 for missing data. */
    function GetData(x: int): (r: int)
      requires Valid()
      reads this, data
      ensures r == if x < dataStart then -1 else Sample(history, x)
    {
      NothingAfterEnd(history, nReadings, x);
      if x < dataStart || x >= dataEnd then -1 else data[x - dataStart]
    }

    /** The number of the last known sample. */
    function MaxX(): (r: int)
      requires Valid()
      reads this, data
      ensures r == if history == [] then -1 else history[|history| - 1].start + nReadings - 1
    {
      dataEnd - 1
    }
  }

  lemma NothingAfterEnd(h: seq<Message>, nReadings: nat, x: int)
    requires WellFormed(h, nReadings)
    ensures h == [] ==> Sample(h, x) == -1
    ensures h != [] && x >= h[|h| - 1].start + nReadings ==> Sample(h, x) == -1
  {
  }
}
