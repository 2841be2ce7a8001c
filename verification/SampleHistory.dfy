/** What a mote's store should answer, as a function of the messages received. */
module SampleHistory {
  import opened Arithmetic
  import opened Options

  /** A message: its first sample number and its readings, always nReadings of them. */
  datatype Message = Message(start: int, readings: seq<int>)

  ghost predicate WellFormed(h: seq<Message>, nReadings: nat) {
    nReadings > 0 && forall i :: 0 <= i < |h| ==> |h[i].readings| == nReadings
  }

  /** Sample x after the messages h: that of the last message that starts at or before x, if it
      reaches x; -1 if it does not or there is none. */
  function Sample(h: seq<Message>, x: int): int {
    if h == [] then -1
    else
      var m := h[|h| - 1];
      if x < m.start then Sample(h[..|h| - 1], x)
      else if x < m.start + |m.readings| then m.readings[x - m.start]
      else -1
  }

  /** The same said without recursion. */
  lemma {:induction false} SampleIsLast(h: seq<Message>, x: int, i: nat)
    requires i < |h| && h[i].start <= x
    requires forall j :: i < j < |h| ==> x < h[j].start
    ensures Sample(h, x) == if x < h[i].start + |h[i].readings| then h[i].readings[x - h[i].start] else -1
  {
    if i < |h| - 1 {
      SampleIsLast(h[..|h| - 1], x, i);
    }
  }

  lemma {:induction false} SampleBeforeAll(h: seq<Message>, x: int)
    requires forall j :: 0 <= j < |h| ==> x < h[j].start
    ensures Sample(h, x) == -1
  {
    if h != [] {
      SampleBeforeAll(h[..|h| - 1], x);
    }
  }

  // ---- The window of samples a store has room for ----

  function Increment(nReadings: nat): nat { 100 * nReadings }

  function MaxSize(nReadings: nat): nat { 100 * Increment(nReadings) }

  datatype Window = Window(start: int, length: nat)

  /** x rounded up to a multiple of inc. */
  function RoundUp(x: nat, inc: nat): (r: nat)
    requires inc > 0
  {
    (x + inc - 1) / inc * inc
  }

  lemma RoundUpBounds(x: nat, inc: nat)
    requires inc > 0
    ensures x <= RoundUp(x, inc) < x + inc && Multiple(RoundUp(x, inc), inc)
  {
    var q := (x + inc - 1) / inc;
    assert x + inc - 1 == q * inc + (x + inc - 1) % inc;
  }

  /** The window after room was made for samples start up to start + nReadings. */
  function Slide(before: Option<Window>, start: int, nReadings: nat): Window
    requires nReadings > 0
  {
    var inc := Increment(nReadings);
    var w := if before.None? || start < before.value.start then Window(start, inc) else before.value;
    var end := start + nReadings;
    if end <= w.start + w.length then w
    else
      var length := if w.length >= MaxSize(nReadings) then w.length
                    else if RoundUp(end - w.start, inc) >= MaxSize(nReadings) then MaxSize(nReadings)
                    else RoundUp(end - w.start, inc);
      if end <= w.start + length then Window(w.start, length) else Window(start + inc - length, length)
  }

  function WindowOf(h: seq<Message>, nReadings: nat): Option<Window>
    requires nReadings > 0
  {
    if h == [] then None
    else Some(Slide(WindowOf(h[..|h| - 1], nReadings), h[|h| - 1].start, nReadings))
  }

  ghost predicate Shaped(w: Window, nReadings: nat) {
    && nReadings > 0
    && Increment(nReadings) <= w.length <= MaxSize(nReadings)
    && Multiple(w.length, Increment(nReadings))
  }

  /** One slide: the window keeps its shape, holds the new samples, and drops nothing that lies
      within MaxSize - Increment before them unless it starts over. */
  lemma SlideKeeps(before: Option<Window>, start: int, nReadings: nat)
    requires nReadings > 0 && (before.Some? ==> Shaped(before.value, nReadings))
    ensures var w := Slide(before, start, nReadings);
            && Shaped(w, nReadings)
            && w.start <= start && start + nReadings <= w.start + w.length
            && (before.Some? && start >= before.value.start ==>
                  || (w.start == before.value.start && w.length >= before.value.length)
                  || (w.length == MaxSize(nReadings) && w.start + w.length - Increment(nReadings) == start
                      && w.start > before.value.start))
            && (before.None? || start < before.value.start ==> w == Window(start, Increment(nReadings)))
  {
    var inc := Increment(nReadings);
    assert MaxSize(nReadings) == 100 * inc && inc == 1 * inc;
    var w := if before.None? || start < before.value.start then Window(start, inc) else before.value;
    var end := start + nReadings;
    if end > w.start + w.length {
      RoundUpBounds(end - w.start, inc);
    }
  }

  /** Exactly what one message does to the window: it starts over when the message lies before it; it
      stays where it is, and grows by no more than it must, when the new samples end within MaxSize of
      its start; and otherwise it moves so that one increment from the message on is left. */
  lemma SlideExactly(before: Option<Window>, start: int, nReadings: nat)
    requires nReadings > 0 && (before.Some? ==> Shaped(before.value, nReadings))
    ensures var w, inc, max := Slide(before, start, nReadings), Increment(nReadings), MaxSize(nReadings);
            if before.None? || start < before.value.start then w == Window(start, inc)
            else if start + nReadings <= before.value.start + max then
              && w.start == before.value.start && w.length >= before.value.length
              && (w.length == before.value.length || start + nReadings > w.start + w.length - inc)
            else w == Window(start + inc - max, max)
  {
    var inc := Increment(nReadings);
    assert MaxSize(nReadings) == 100 * inc;
    if before.Some? && start >= before.value.start && start + nReadings > before.value.start + before.value.length {
      var need := start + nReadings - before.value.start;
      RoundUpBounds(need, inc);
      if need <= MaxSize(nReadings) {
        MultipleBelow(RoundUp(need, inc), inc, 100);
      }
    }
  }

  lemma MultipleBelow(r: nat, inc: nat, k: nat)
    requires inc > 0 && Multiple(r, inc) && r < k * inc + inc
    ensures r <= k * inc
  {
    var q: nat :| r == q * inc;
    Multiples(q, k, inc);
  }

  lemma Multiples(q: nat, k: nat, inc: nat)
    ensures if q > k then q * inc >= k * inc + inc else q * inc <= k * inc
  {
    if q > k {
      assert (q - k - 1) * inc >= 0;
    } else {
      assert (k - q) * inc >= 0;
    }
  }

  lemma {:induction false} WindowShape(h: seq<Message>, nReadings: nat)
    requires nReadings > 0 && h != []
    ensures var w := WindowOf(h, nReadings).value;
            && Shaped(w, nReadings)
            && w.start <= h[|h| - 1].start && h[|h| - 1].start + nReadings <= w.start + w.length
  {
    if |h| > 1 {
      WindowShape(h[..|h| - 1], nReadings);
    }
    SlideKeeps(WindowOf(h[..|h| - 1], nReadings), h[|h| - 1].start, nReadings);
  }

  /** Message j squishes: its samples end more than MaxSize after the start of the window before it. */
  ghost predicate Squishes(h: seq<Message>, nReadings: nat, j: nat)
    requires nReadings > 0
  {
    0 < j < |h| && h[j].start + nReadings > WindowOf(h[..j], nReadings).value.start + MaxSize(nReadings)
  }

  /** Message i starts at or before x, and no message that squishes since then leaves x too far behind. */
  ghost predicate StoredSince(h: seq<Message>, nReadings: nat, x: int, i: nat)
    requires nReadings > 0
  {
    && i < |h| && h[i].start <= x
    && forall j :: i < j < |h| && Squishes(h, nReadings, j) ==>
         h[j].start <= x + MaxSize(nReadings) - Increment(nReadings)
  }

  ghost predicate Stored(h: seq<Message>, nReadings: nat, x: int)
    requires nReadings > 0
  {
    exists i :: StoredSince(h, nReadings, x, i)
  }

  lemma StoredNext(h: seq<Message>, nReadings: nat, x: int, i: nat)
    requires nReadings > 0 && i < |h| - 1
    ensures StoredSince(h, nReadings, x, i) <==>
      && StoredSince(h[..|h| - 1], nReadings, x, i)
      && (Squishes(h, nReadings, |h| - 1) ==>
            h[|h| - 1].start <= x + MaxSize(nReadings) - Increment(nReadings))
  {
    var init := h[..|h| - 1];
    forall j | 0 <= j < |init|
      ensures Squishes(init, nReadings, j) <==> Squishes(h, nReadings, j)
    {
      assert init[..j] == h[..j];
    }
  }

  /** The window over any run, exactly: x is not before its start if and only if Stored says so. */
  lemma {:induction false} StoredExactly(h: seq<Message>, nReadings: nat, x: int)
    requires nReadings > 0 && h != []
    ensures WindowOf(h, nReadings).value.start <= x <==> Stored(h, nReadings, x)
  {
    var init, last := h[..|h| - 1], |h| - 1;
    SlideExactly(WindowOf(init, nReadings), h[last].start, nReadings) by { ShapeOf(init, nReadings); }
    WindowShape(h, nReadings);
    if h[last].start <= x {
      assert StoredSince(h, nReadings, x, last);
    } else if init != [] {
      StoredExactly(init, nReadings, x);
      if i :| StoredSince(h, nReadings, x, i) {
        StoredNext(h, nReadings, x, i);
      }
      if i :| StoredSince(init, nReadings, x, i) {
        StoredNext(h, nReadings, x, i);
      }
    }
  }

  lemma ShapeOf(h: seq<Message>, nReadings: nat)
    requires nReadings > 0
    ensures WindowOf(h, nReadings).Some? ==> Shaped(WindowOf(h, nReadings).value, nReadings)
  {
    if h != [] {
      WindowShape(h, nReadings);
    }
  }

  /** Exactly which stored samples one message drops. */
  lemma DroppedExactly(h: seq<Message>, m: Message, nReadings: nat, x: int)
    requires nReadings > 0 && h != [] && WindowOf(h, nReadings).value.start <= x
    ensures x < WindowOf(h + [m], nReadings).value.start <==>
      && m.start + nReadings > WindowOf(h, nReadings).value.start + MaxSize(nReadings)
      && m.start > x + MaxSize(nReadings) - Increment(nReadings)
  {
    assert (h + [m])[..|h|] == h;
    WindowShape(h, nReadings);
    SlideExactly(WindowOf(h, nReadings), m.start, nReadings);
  }

  /** Retention over a whole run: x is still inside the window if some message started at or before
      x, and no message since then started more than MaxSize - Increment after x. */
  lemma {:induction false} Retained(h: seq<Message>, nReadings: nat, x: int, i: nat)
    requires nReadings > 0 && i < |h| && h[i].start <= x
    requires forall j :: i <= j < |h| ==> h[j].start <= x + MaxSize(nReadings) - Increment(nReadings)
    ensures WindowOf(h, nReadings).value.start <= x
  {
    var init := h[..|h| - 1];
    if init != [] {
      WindowShape(init, nReadings);
    }
    SlideKeeps(WindowOf(init, nReadings), h[|h| - 1].start, nReadings);
    if i < |init| {
      Retained(init, nReadings, x, i);
    }
  }

  /** Retention over one message: a sample in the window that is before the message by no more than
      MaxSize - Increment stays in the window with its value. */
  lemma UpdateKeeps(h: seq<Message>, m: Message, nReadings: nat, x: int)
    requires nReadings > 0 && h != [] && WindowOf(h, nReadings).value.start <= x
    requires m.start - (MaxSize(nReadings) - Increment(nReadings)) <= x < m.start
    ensures WindowOf(h + [m], nReadings).value.start <= x && Sample(h + [m], x) == Sample(h, x)
  {
    assert (h + [m])[..|h|] == h;
    WindowShape(h, nReadings);
    SlideKeeps(WindowOf(h, nReadings), m.start, nReadings);
  }
}
