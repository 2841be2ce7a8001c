/** The oscilloscope display of apps/Oscilloscope/java as a state machine: what its mote table, its
    sample stores and its viewport are after any run of messages and user operations. */
module ScopeSpec {
  import opened Arithmetic
  import opened Options
  import opened SampleHistory

  // ---- The viewport (Graph.java) ----

  const MIN_WIDTH: nat := 50

  datatype View = View(gx0: int, gx1: int, scale: nat)

  /** MIN_WIDTH << scale */
  function Width(scale: nat): (w: nat)
    ensures w >= MIN_WIDTH
  {
    MIN_WIDTH * Pow2(scale)
  }

  function Recenter(v: View, max: int): View {
    var scrollby := (v.gx1 - v.gx0) / 4 + (max - v.gx1);
    var gx0, gx1 := v.gx0 + scrollby, v.gx1 + scrollby;
    if gx0 < 0 then View(0, gx1 - gx0, v.scale) else View(gx0, gx1, v.scale)
  }

  function NewData(v: View, max: int): View {
    if max > v.gx1 || max < v.gx0 then Recenter(v, max) else v
  }

  function SetScale(v: View, scale: nat, max: int): View {
    Recenter(View(v.gx0, v.gx0 + Width(scale), scale), max)
  }

  /** The view has the width of its scale, shows no negative sample numbers, and shows max. */
  ghost predicate Framed(v: View, max: int) {
    0 <= v.gx0 <= max <= v.gx1 && v.gx1 - v.gx0 == Width(v.scale)
  }

  /** Recentering frames max whatever was shown before, at the three-quarter point unless that would
      show negative numbers. */
  lemma RecenterFrames(v: View, max: int)
    requires v.gx1 - v.gx0 == Width(v.scale) && max >= 0
    ensures var r := Recenter(v, max);
            Framed(r, max) && r.scale == v.scale && (r.gx0 == 0 || r.gx1 - max == Width(v.scale) / 4)
  {
  }

  /** The view with max at the three-quarter point, or the one from 0 where that would show negative
      sample numbers. */
  function Centered(scale: nat, max: int): View {
    var left := max + Width(scale) / 4 - Width(scale);
    if left < 0 then View(0, Width(scale), scale) else View(left, left + Width(scale), scale)
  }

  /** Recentering gets there from any view. */
  lemma RecenterIs(v: View, max: int)
    requires v.gx1 - v.gx0 == Width(v.scale)
    ensures Recenter(v, max) == Centered(v.scale, max)
  {
  }

  // ---- The mote table (Window.java) ----

  datatype Color = Red | White | Green | Magenta | Yellow | Gray | Picked(rgb: int)

  const CYCLE: seq<Color> := [Red, White, Green, Magenta, Yellow, Gray, Yellow]

  datatype Table = Table(motes: seq<nat>, colors: seq<Color>, cycleIndex: nat)

  ghost predicate Increasing(s: seq<nat>) {
    forall i, j :: 0 <= i < j < |s| ==> s[i] < s[j]
  }

  /** The position where a new mote goes: that of the first greater one, or the end. */
  function Place(motes: seq<nat>, id: nat): (k: nat)
    ensures k <= |motes| && (k < |motes| ==> id < motes[k]) && forall j :: 0 <= j < k ==> motes[j] <= id
  {
    if motes == [] || id < motes[0] then 0 else 1 + Place(motes[1..], id)
  }

  function InsertAt<T>(s: seq<T>, k: nat, x: T): (r: seq<T>)
    requires k <= |s|
    ensures |r| == |s| + 1
    ensures forall j :: 0 <= j < |r| ==> r[j] == if j < k then s[j] else if j == k then x else s[j - 1]
  {
    s[..k] + [x] + s[k..]
  }

  ghost predicate Parallel(t: Table) {
    |t.colors| == |t.motes|
  }

  function Listed(t: Table, id: nat): (r: Table)
    requires Parallel(t)
    ensures Parallel(r)
  {
    var k := Place(t.motes, id);
    Table(InsertAt(t.motes, k, id), InsertAt(t.colors, k, CYCLE[t.cycleIndex % |CYCLE|]), t.cycleIndex + 1)
  }

  function Recolored(t: Table, row: nat, color: Color): Table
    requires row < |t.colors|
  {
    t.(colors := t.colors[row := color])
  }

  /** Row k shows mote id in color. */
  predicate Row(t: Table, k: int, id: nat, color: Color) {
    0 <= k < |t.motes| && k < |t.colors| && t.motes[k] == id && t.colors[k] == color
  }

  /** color is that of mote id. */
  ghost predicate Shows(t: Table, id: nat, color: Color) {
    exists k :: Row(t, k, id, color)
  }

  /** Listing a new mote keeps the order. */
  lemma ListedOrder(t: Table, id: nat)
    requires Parallel(t) && Increasing(t.motes) && id !in t.motes
    ensures var r := Listed(t, id);
            Increasing(r.motes) && forall other :: other in r.motes <==> other == id || other in t.motes
  {
    InOrder(t.motes, id);
    forall other
      ensures other in Listed(t, id).motes <==> other == id || other in t.motes
    {
      Inserted(t.motes, Place(t.motes, id), id, other);
    }
  }

  lemma PlaceParts(motes: seq<nat>, id: nat)
    requires Increasing(motes) && id !in motes
    ensures forall j :: 0 <= j < Place(motes, id) ==> motes[j] < id
    ensures forall j :: Place(motes, id) <= j < |motes| ==> id < motes[j]
  {
    forall j | 0 <= j < Place(motes, id)
      ensures motes[j] < id
    {
      assert motes[j] in motes;
    }
  }

  lemma InOrder(motes: seq<nat>, id: nat)
    requires Increasing(motes) && id !in motes
    ensures Increasing(InsertAt(motes, Place(motes, id), id))
  {
    PlaceParts(motes, id);
    InsertedInOrder(motes, Place(motes, id), id);
  }

  lemma InsertedInOrder(motes: seq<nat>, k: nat, id: nat)
    requires Increasing(motes) && k <= |motes|
    requires (forall j :: 0 <= j < k ==> motes[j] < id) && forall j :: k <= j < |motes| ==> id < motes[j]
    ensures Increasing(InsertAt(motes, k, id))
  {
  }

  lemma Inserted<T>(s: seq<T>, k: nat, x: T, y: T)
    requires k <= |s|
    ensures y in InsertAt(s, k, x) <==> y == x || y in s
  {
    assert s == s[..k] + s[k..];
  }

  /** The rows after listing: the old ones, moved down from the new one's place on, ... */
  lemma RowMoves(t: Table, id: nat, j: int, i: nat, c: Color)
    requires Parallel(t) && Row(t, j, i, c)
    ensures Row(Listed(t, id), if j < Place(t.motes, id) then j else j + 1, i, c)
  {
  }

  /** ... and nothing else but the new one. */
  lemma ListedRow(t: Table, id: nat, j: int, i: nat, c: Color)
    requires Parallel(t) && Row(Listed(t, id), j, i, c)
    ensures var k := Place(t.motes, id);
            if j == k then i == id && c == CYCLE[t.cycleIndex % |CYCLE|] else Row(t, if j < k then j else j - 1, i, c)
  {
  }

  /** A new mote gets the next color of the cycle, and every other mote keeps its own. */
  lemma ListedShows(t: Table, id: nat, other: nat, color: Color)
    requires Parallel(t) && id !in t.motes
    ensures var r := Listed(t, id);
            && (Shows(r, id, color) <==> color == CYCLE[t.cycleIndex % |CYCLE|])
            && (other != id ==> (Shows(r, other, color) <==> Shows(t, other, color)))
  {
    var r, k := Listed(t, id), Place(t.motes, id);
    assert Row(r, k, id, CYCLE[t.cycleIndex % |CYCLE|]);
    if j :| Row(t, j, other, color) {
      RowMoves(t, id, j, other, color);
    }
    if j :| Row(r, j, other, color) {
      ListedRow(t, id, j, other, color);
    }
    if j :| Row(r, j, id, color) {
      ListedRow(t, id, j, id, color);
    }
  }

  /** Recoloring a row changes the color of its mote and of no other. */
  lemma RecoloredShows(t: Table, row: nat, c: Color, other: nat, color: Color)
    requires Parallel(t) && Increasing(t.motes) && row < |t.motes|
    ensures var r := Recolored(t, row, c);
            && r.motes == t.motes
            && (Shows(r, t.motes[row], color) <==> color == c)
            && (other != t.motes[row] ==> (Shows(r, other, color) <==> Shows(t, other, color)))
  {
    var r := Recolored(t, row, c);
    assert Row(r, row, t.motes[row], c);
    forall j, i, d | j != row
      ensures Row(r, j, i, d) <==> Row(t, j, i, d)
    {
    }
  }

  // ---- The largest sample number (Data.java) ----

  type Histories = map<nat, seq<Message>>

  /** The number of the last sample of a mote, going by its last message. */
  function NodeMax(h: seq<Message>, nReadings: nat): int {
    if h == [] then -1 else h[|h| - 1].start + nReadings - 1
  }

  ghost predicate IsLargest(hs: Histories, nReadings: nat, m: int) {
    && 0 <= m
    && (forall id :: id in hs ==> NodeMax(hs[id], nReadings) <= m)
    && (m == 0 || exists id :: id in hs && NodeMax(hs[id], nReadings) == m)
  }

  lemma {:induction false} LargestExists(hs: Histories, nReadings: nat)
    ensures exists m :: IsLargest(hs, nReadings, m)
    decreases |hs|
  {
    if hs.Keys == {} {
      assert IsLargest(hs, nReadings, 0);
    } else {
      var id :| id in hs.Keys;
      var rest := hs - {id};
      assert rest.Keys == hs.Keys - {id};
      LargestExists(rest, nReadings);
      var m :| IsLargest(rest, nReadings, m);
      var top := NodeMax(hs[id], nReadings);
      assert forall i :: i in hs ==> i == id || (i in rest && rest[i] == hs[i]);
      if top > m {
        assert IsLargest(hs, nReadings, top);
      } else {
        if m != 0 {
          var i :| i in rest && NodeMax(rest[i], nReadings) == m;
          assert i in hs && NodeMax(hs[i], nReadings) == m;
        }
        assert IsLargest(hs, nReadings, m);
      }
    }
  }

  ghost function LargestX(hs: Histories, nReadings: nat): (m: int)
    ensures IsLargest(hs, nReadings, m)
  {
    LargestExists(hs, nReadings);
    var m :| IsLargest(hs, nReadings, m);
    m
  }

  lemma LargestUnique(hs: Histories, nReadings: nat, m: int)
    requires IsLargest(hs, nReadings, m)
    ensures m == LargestX(hs, nReadings)
  {
  }

  // ---- Runs ----

  datatype Scope = Scope(histories: Histories, table: Table, view: View)

  datatype Event =
    | Received(id: nat, message: Message)
    | Cleared
    | ColorPicked(row: nat, color: Color)
    | ScaleSet(scale: nat)

  /** The display when it is set up with a scale: nothing received. */
  function SetUp(scale: nat): Scope {
    Scope(map[], Table([], [], 0), SetScale(View(0, Width(scale), scale), scale, 0))
  }

  function Start(): Scope {
    SetUp(2)
  }

  /** What the program's parts guarantee of an event: messages have nReadings readings and start at
      multiples from 0 on, rows exist, and the slider goes from 0 to 8. */
  ghost predicate Allowed(s: Scope, e: Event, nReadings: nat) {
    match e
    case Received(_, m) => |m.readings| == nReadings && m.start >= 0
    case Cleared => true
    case ColorPicked(row, _) => row < |s.table.colors|
    case ScaleSet(scale) => scale <= 8
  }

  ghost function Receive(s: Scope, id: nat, m: Message, nReadings: nat): Scope
    requires Parallel(s.table)
  {
    var before := if id in s.histories then s.histories[id] else [];
    var hs := s.histories[id := before + [m]];
    var table := if id in s.histories then s.table else Listed(s.table, id);
    Scope(hs, table, NewData(s.view, LargestX(hs, nReadings)))
  }

  ghost function Step(s: Scope, e: Event, nReadings: nat): (r: Scope)
    requires Parallel(s.table) && Allowed(s, e, nReadings)
    ensures Parallel(r.table)
  {
    match e
    case Received(id, m) => Receive(s, id, m, nReadings)
    case Cleared => Scope(map[], Table([], [], s.table.cycleIndex), NewData(s.view, LargestX(map[], nReadings)))
    case ColorPicked(row, color) => s.(table := Recolored(s.table, row, color))
    case ScaleSet(scale) => s.(view := SetScale(s.view, scale, LargestX(s.histories, nReadings)))
  }

  /** The state after a run, or none if some event of it was not allowed where it came. */
  ghost function Run(events: seq<Event>, nReadings: nat): (s: Option<Scope>)
    ensures s.Some? ==> Parallel(s.value.table)
  {
    if events == [] then Some(Start())
    else
      var s := Run(events[..|events| - 1], nReadings);
      var e := events[|events| - 1];
      if s.Some? && Allowed(s.value, e, nReadings) then Some(Step(s.value, e, nReadings)) else None
  }

  lemma NextStep(events: seq<Event>, e: Event, nReadings: nat)
    requires Run(events, nReadings).Some? && Allowed(Run(events, nReadings).value, e, nReadings)
    ensures Run(events + [e], nReadings) == Some(Step(Run(events, nReadings).value, e, nReadings))
  {
    assert (events + [e])[..|events|] == events;
  }

  /** The messages of a mote since the data was last cleared. */
  function Heard(events: seq<Event>, id: nat): seq<Message> {
    if events == [] then []
    else
      var init := Heard(events[..|events| - 1], id);
      match events[|events| - 1]
      case Received(i, m) => if i == id then init + [m] else init
      case Cleared => []
      case _ => init
  }

  ghost predicate Invariant(s: Scope, nReadings: nat) {
    && Parallel(s.table) && Increasing(s.table.motes)
    && (forall id :: id in s.table.motes <==> id in s.histories)
    && Framed(s.view, LargestX(s.histories, nReadings)) && s.view.scale <= 8
  }

  lemma StepInvariant(s: Scope, e: Event, nReadings: nat)
    requires Invariant(s, nReadings) && Allowed(s, e, nReadings)
    ensures Invariant(Step(s, e, nReadings), nReadings)
  {
    var r := Step(s, e, nReadings);
    match e
    case Received(id, m) =>
      if id !in s.histories {
        ListedOrder(s.table, id);
      }
      ViewFollows(s.view, LargestX(r.histories, nReadings));
    case Cleared =>
      ViewFollows(s.view, LargestX(r.histories, nReadings));
    case ColorPicked(row, color) =>
    case ScaleSet(scale) =>
      RecenterFrames(View(s.view.gx0, s.view.gx0 + Width(scale), scale), LargestX(s.histories, nReadings));
  }

  lemma ViewFollows(v: View, max: int)
    requires v.gx1 - v.gx0 == Width(v.scale) && v.gx0 >= 0 && max >= 0
    ensures Framed(NewData(v, max), max) && NewData(v, max).scale == v.scale
  {
    if max > v.gx1 || max < v.gx0 {
      RecenterFrames(v, max);
    }
  }

  /** The state has a history for exactly the motes heard from, and it is what was heard. */
  ghost predicate Recorded(s: Scope, events: seq<Event>) {
    forall id ::
      && (id in s.histories <==> Heard(events, id) != [])
      && (id in s.histories ==> s.histories[id] == Heard(events, id))
  }

  lemma StepRecorded(s: Scope, events: seq<Event>, e: Event, nReadings: nat)
    requires Parallel(s.table) && Allowed(s, e, nReadings) && Recorded(s, events)
    ensures Recorded(Step(s, e, nReadings), events + [e])
  {
    var r := Step(s, e, nReadings);
    assert (events + [e])[..|events|] == events;
    forall id
      ensures Heard(events + [e], id) == if id in r.histories then r.histories[id] else []
    {
      assert Heard(events, id) == if id in s.histories then s.histories[id] else [];
    }
  }

  lemma NothingRecorded(s: Scope)
    requires forall id :: id !in s.histories
    ensures Recorded(s, [])
  {
  }

  lemma EmptyInvariant(s: Scope, nReadings: nat)
    requires (forall id :: id !in s.histories) && s.table.motes == [] && s.table.colors == []
    requires Framed(s.view, 0) && s.view.scale <= 8
    ensures Invariant(s, nReadings)
  {
    NothingLargest(s.histories, nReadings);
  }

  lemma SetUpInvariant(scale: nat, nReadings: nat)
    requires scale <= 8
    ensures Invariant(SetUp(scale), nReadings) && Recorded(SetUp(scale), [])
  {
    var s := SetUp(scale);
    RecenterFrames(View(0, Width(scale), scale), 0);
    EmptyInvariant(s, nReadings);
    NothingRecorded(s);
  }

  lemma NothingLargest(hs: Histories, nReadings: nat)
    requires forall id :: id !in hs
    ensures LargestX(hs, nReadings) == 0
  {
  }

  /** After any run: the table lists, in increasing order and each with a color, exactly the motes
      heard from since the last clear; their histories are what was heard; and the view has the width
      of its scale and contains the newest sample. */
  lemma {:induction false} RunShows(events: seq<Event>, nReadings: nat)
    requires Run(events, nReadings).Some?
    ensures Invariant(Run(events, nReadings).value, nReadings) && Recorded(Run(events, nReadings).value, events)
  {
    if events == [] {
      SetUpInvariant(2, nReadings);
    } else {
      var init, e := events[..|events| - 1], events[|events| - 1];
      RunShows(init, nReadings);
      StepInvariant(Run(init, nReadings).value, e, nReadings);
      StepRecorded(Run(init, nReadings).value, init, e, nReadings);
      assert init + [e] == events;
    }
  }

  // ---- The viewport over runs ----

  lemma Widths(scale: nat)
    requires scale <= 8
    ensures Width(scale) == [50, 100, 200, 400, 800, 1600, 3200, 6400, 12800][scale]
  {
    assert Pow2(3) == 8 && Pow2(6) == 2 * 2 * 2 * Pow2(3);
    assert Pow2(8) == 2 * Pow2(7) == 2 * 2 * Pow2(6);
  }

  /** max is the number of the newest sample heard since the last clear, 0 without any. */
  ghost predicate Newest(events: seq<Event>, nReadings: nat, max: int) {
    && 0 <= max
    && (forall id: nat :: NodeMax(Heard(events, id), nReadings) <= max)
    && (max == 0 || exists id: nat :: NodeMax(Heard(events, id), nReadings) == max)
  }

  lemma NewestIsLargest(events: seq<Event>, nReadings: nat, max: int)
    requires Run(events, nReadings).Some?
    ensures Newest(events, nReadings, max) <==> max == LargestX(Run(events, nReadings).value.histories, nReadings)
  {
    RunShows(events, nReadings);
    var hs := Run(events, nReadings).value.histories;
    forall id: nat
      ensures NodeMax(Heard(events, id), nReadings) == if id in hs then NodeMax(hs[id], nReadings) else -1
    {
    }
    if Newest(events, nReadings, max) {
      LargestUnique(hs, nReadings, max);
    }
  }

  /** The view from the start and after every event: a change of scale always recenters, a message or a
      clear only when the newest sample is not on the screen, and nothing else moves it. */
  lemma RunView(events: seq<Event>, e: Event, nReadings: nat, max: int)
    requires Run(events, nReadings).Some? && Allowed(Run(events, nReadings).value, e, nReadings)
    requires Newest(events + [e], nReadings, max)
    ensures Run([], nReadings).value.view == View(0, 200, 2)
    ensures var v, r := Run(events, nReadings).value.view, Run(events + [e], nReadings).value.view;
            match e
            case ScaleSet(scale) => r == Centered(scale, max)
            case ColorPicked(_, _) => r == v
            case _ => r == if v.gx0 <= max <= v.gx1 then v else Centered(v.scale, max)
  {
    RunShows(events, nReadings);
    NextStep(events, e, nReadings);
    NewestIsLargest(events + [e], nReadings, max);
    var v := Run(events, nReadings).value.view;
    RecenterIs(v, max);
    if e.ScaleSet? {
      RecenterIs(View(v.gx0, v.gx0 + Width(e.scale), e.scale), max);
    }
  }

  // ---- The colors over runs ----

  function InitialColor(n: nat): Color {
    match n % 7
    case 0 => Red
    case 1 => White
    case 2 => Green
    case 3 => Magenta
    case 4 => Yellow
    case 5 => Gray
    case _ => Yellow
  }

  /** How many motes were listed since the start, clears or not. */
  function Listings(events: seq<Event>): nat {
    if events == [] then 0
    else
      var init, e := events[..|events| - 1], events[|events| - 1];
      Listings(init) + if e.Received? && Heard(init, e.id) == [] then 1 else 0
  }

  /** The color of a mote: the next initial one when it is listed, and then what the user picks for the
      row it is in, until the data is cleared. */
  ghost function ColorOf(events: seq<Event>, nReadings: nat, id: nat): Option<Color> {
    if events == [] then None
    else
      var init, e := events[..|events| - 1], events[|events| - 1];
      match e
      case Received(i, _) =>
        if i == id && Heard(init, id) == [] then Some(InitialColor(Listings(init))) else ColorOf(init, nReadings, id)
      case Cleared => None
      case ColorPicked(row, color) =>
        if InRow(init, nReadings, row, id) then Some(color) else ColorOf(init, nReadings, id)
      case ScaleSet(_) => ColorOf(init, nReadings, id)
  }

  ghost predicate InRow(events: seq<Event>, nReadings: nat, row: nat, id: nat) {
    var s := Run(events, nReadings);
    s.Some? && row < |s.value.table.motes| && s.value.table.motes[row] == id
  }

  /** After every run each mote is shown in its color and in no other. */
  lemma {:induction false} RunColors(events: seq<Event>, nReadings: nat, id: nat, color: Color)
    requires Run(events, nReadings).Some?
    ensures var t := Run(events, nReadings).value.table;
            t.cycleIndex == Listings(events) && (Shows(t, id, color) <==> ColorOf(events, nReadings, id) == Some(color))
  {
    if events != [] {
      var init, e := events[..|events| - 1], events[|events| - 1];
      var s := Run(init, nReadings).value;
      RunColors(init, nReadings, id, color);
      RunShows(init, nReadings);
      match e
      case Received(i, m) =>
        assert i in s.table.motes <==> Heard(init, i) != [];
        if i !in s.table.motes {
          NextColor(s.table.cycleIndex);
          ListedShows(s.table, i, id, color);
        }
      case Cleared =>
      case ColorPicked(row, c) =>
        RecoloredShows(s.table, row, c, id, color);
      case ScaleSet(_) =>
    }
  }

  lemma NextColor(n: nat)
    ensures CYCLE[n % |CYCLE|] == InitialColor(n)
  {
  }

  // ---- What is on the screen ----

  /** What a mote's store answers for sample x. */
  function Shown(h: seq<Message>, nReadings: nat, x: int): int
    requires nReadings > 0
  {
    if h == [] || x < WindowOf(h, nReadings).value.start then -1 else Sample(h, x)
  }

  /** Sample x was not dropped: no message starts at or before it, or one does that no later message
      leaves more than the store keeps behind. */
  ghost predicate Kept(h: seq<Message>, nReadings: nat, x: int) {
    || (forall j :: 0 <= j < |h| ==> x < h[j].start)
    || exists i :: 0 <= i < |h| && KeptSince(h, nReadings, x, i)
  }

  ghost predicate KeptSince(h: seq<Message>, nReadings: nat, x: int, i: nat) {
    && i < |h| && h[i].start <= x
    && forall j :: i <= j < |h| ==> h[j].start <= x + MaxSize(nReadings) - Increment(nReadings)
  }

  /** A store answers every sample that was not dropped as the messages say, in whatever order they
      came. */
  lemma KeptIsExact(h: seq<Message>, nReadings: nat, x: int)
    requires nReadings > 0 && Kept(h, nReadings, x)
    ensures Shown(h, nReadings, x) == Sample(h, x)
  {
    if i :| 0 <= i < |h| && KeptSince(h, nReadings, x, i) {
      Retained(h, nReadings, x, i);
    } else {
      SampleBeforeAll(h, x);
    }
  }

  /** And a sample is answered otherwise exactly when the messages say something of it and it was
      dropped: no message at or before it is without a later one that squishes past it. */
  lemma LostExactly(h: seq<Message>, nReadings: nat, x: int)
    requires nReadings > 0
    ensures Shown(h, nReadings, x) == Sample(h, x) <==> Sample(h, x) == -1 || Stored(h, nReadings, x)
  {
    if h != [] {
      StoredExactly(h, nReadings, x);
    }
  }

  /** The message that begins the last stretch without a reboot: the last one that starts before the
      one it follows. */
  function LastReboot(h: seq<Message>): (i: nat)
    requires h != []
    ensures i < |h|
  {
    if |h| == 1 then 0
    else if h[|h| - 1].start < h[|h| - 2].start then |h| - 1
    else LastReboot(h[..|h| - 1])
  }

  lemma {:induction false} SinceReboot(h: seq<Message>)
    requires h != []
    ensures forall j :: LastReboot(h) <= j < |h| ==> h[LastReboot(h)].start <= h[j].start <= h[|h| - 1].start
  {
    if |h| > 1 {
      SinceReboot(h[..|h| - 1]);
    }
  }

  /** x belongs to what a mote sent since its last reboot; a mote that never rebooted sent nothing else. */
  ghost predicate Current(h: seq<Message>, x: int) {
    h == [] || LastReboot(h) == 0 || h[LastReboot(h)].start <= x
  }

  /** With the newest sample no further from x than the store keeps, nothing current was dropped. */
  lemma CurrentIsKept(h: seq<Message>, nReadings: nat, x: int)
    requires nReadings > 0 && Current(h, x)
    requires NodeMax(h, nReadings) <= x + MaxSize(nReadings) - Increment(nReadings)
    ensures Kept(h, nReadings, x)
  {
    if h != [] {
      var i := LastReboot(h);
      SinceReboot(h);
      if h[i].start <= x {
        assert KeptSince(h, nReadings, x, i);
      }
    }
  }

  /** The view is no wider than what a store keeps, except with one reading a message at scale 8. */
  lemma SliderFits(scale: nat, nReadings: nat)
    requires scale <= 8 && nReadings >= 1 && (nReadings == 1 ==> scale <= 7)
    ensures Width(scale) <= MaxSize(nReadings) - Increment(nReadings)
  {
    assert MaxSize(nReadings) - Increment(nReadings) == 9900 * nReadings;
    PowersGrow(scale, 8);
    PowersGrow(scale, if nReadings == 1 then 7 else 8);
    assert Pow2(7) == 2 * 2 * 2 * Pow2(4) == 128;
    assert Pow2(8) == 2 * Pow2(7);
  }

  lemma {:induction false} PowersGrow(m: nat, n: nat)
    requires m <= n
    ensures Pow2(m) <= Pow2(n)
  {
    if m < n {
      PowersGrow(m, n - 1);
    }
  }

  /** Nothing on the screen has been lost: from the left edge of the view on, the store answers every
      sample a mote sent since its last reboot, and any other that was not dropped, with what the
      messages say. The one exception is the widest view, scale 8, with one reading a message. */
  lemma OnScreenIsExact(events: seq<Event>, nReadings: nat, id: nat, x: int)
    requires nReadings > 0 && Run(events, nReadings).Some?
    requires Run(events, nReadings).value.view.gx0 <= x
    requires Current(Heard(events, id), x) || Kept(Heard(events, id), nReadings, x)
    requires nReadings == 1 ==> Run(events, 1).value.view.scale <= 7
    ensures Shown(Heard(events, id), nReadings, x) == Sample(Heard(events, id), x)
  {
    RunShows(events, nReadings);
    var s, h := Run(events, nReadings).value, Heard(events, id);
    assert id in s.histories ==> s.histories[id] == h;
    assert NodeMax(h, nReadings) <= LargestX(s.histories, nReadings);
    SliderFits(s.view.scale, nReadings);
    if Current(h, x) {
      CurrentIsKept(h, nReadings, x);
    }
    KeptIsExact(h, nReadings, x);
  }

  /** Sample numbers go forward, except that a mote that reboots is heard from 0 on. */
  ghost predicate ForwardOrReboot(h: seq<Message>) {
    forall j :: 0 < j < |h| ==> h[j - 1].start <= h[j].start || h[j].start == 0
  }

  /** Then the whole screen is current. */
  lemma {:induction false} RebootToZero(h: seq<Message>, x: int)
    requires ForwardOrReboot(h) && x >= 0
    ensures Current(h, x)
  {
    if |h| > 1 {
      RebootToZero(h[..|h| - 1], x);
    }
  }

  // ---- When the screen is exact ----

  /** A sample on the screen that its mote sent since its last reboot is answered as the messages say. */
  ghost predicate Exact(events: seq<Event>, nReadings: nat, scale: nat, id: nat, x: int)
    requires nReadings > 0
  {
    var s, h := Run(events, nReadings), Heard(events, id);
    s.Some? && s.value.view.scale == scale && s.value.view.gx0 <= x && Current(h, x) ==>
      Shown(h, nReadings, x) == Sample(h, x)
  }

  /** Exactly one setting of the slider goes wrong: scale 8 with one reading a message. */
  lemma ScreenExactly(nReadings: nat, scale: nat)
    requires nReadings > 0 && scale <= 8
    ensures (forall events, id, x :: Exact(events, nReadings, scale, id, x)) <==> nReadings > 1 || scale <= 7
  {
    if nReadings > 1 || scale <= 7 {
      forall events, id, x
        ensures Exact(events, nReadings, scale, id, x)
      {
        if Run(events, nReadings).Some? && Run(events, nReadings).value.view.scale == scale
           && Run(events, nReadings).value.view.gx0 <= x && Current(Heard(events, id), x) {
          OnScreenIsExact(events, nReadings, id, x);
        }
      }
    } else {
      var events := WidestViewLoses();
      assert !Exact(events, nReadings, scale, 0, 0);
    }
  }

  /** With the view at its widest, sample 0 is dropped while it is on the screen. */
  lemma WidestViewLoses() returns (events: seq<Event>)
    ensures Run(events, 1).Some? && Run(events, 1).value.view == View(0, 12800, 8)
    ensures Current(Heard(events, 0), 0) && Shown(Heard(events, 0), 1, 0) == -1 && Sample(Heard(events, 0), 0) == 7
  {
    var m := Message(12000, [8]);
    var first := FirstKept();
    var h := Heard(first, 0) + [m];
    Hears(first, m);
    DropsFirst(h);
    events := first + [Received(0, m)];
  }

  lemma FirstKept() returns (events: seq<Event>)
    ensures OnlyMote0(events) && Run(events, 1).value.view == View(0, 12800, 8)
    ensures Heard(events, 0) == [Message(0, [7])]
  {
    var m := Message(0, [7]);
    var wide := Widened();
    Hears(wide, m);
    events := wide + [Received(0, m)];
  }

  /** No other mote was heard from. */
  ghost predicate OnlyMote0(events: seq<Event>) {
    var s, h := Run(events, 1), Heard(events, 0);
    s.Some? && s.value.histories == if h == [] then map[] else map[0 := h]
  }

  /** A message from mote 0 whose sample is on the screen: the view stays. */
  lemma Hears(events: seq<Event>, m: Message)
    requires OnlyMote0(events) && |m.readings| == 1 && m.start >= 0
    requires var v := Run(events, 1).value.view; v.gx0 <= m.start <= v.gx1
    ensures var events' := events + [Received(0, m)];
            && OnlyMote0(events') && Run(events', 1).value.view == Run(events, 1).value.view
            && Heard(events', 0) == Heard(events, 0) + [m]
  {
    assert (events + [Received(0, m)])[..|events|] == events;
    NextStep(events, Received(0, m), 1);
    var h := Heard(events, 0) + [m];
    var hs: Histories := map[0 := h];
    assert NodeMax(hs[0], 1) == m.start;
    LargestUnique(hs, 1, m.start);
  }

  lemma Widened() returns (events: seq<Event>)
    ensures OnlyMote0(events) && Heard(events, 0) == [] && Run(events, 1).value.view == View(0, 12800, 8)
  {
    events := [ScaleSet(8)];
    assert Run([], 1) == Some(Start()) && [] + events == events;
    LargestUnique(map[], 1, 0);
    NextStep([], ScaleSet(8), 1);
    PowersGrow(2, 8);
    assert Pow2(4) == 16 && Pow2(8) == 2 * 2 * 2 * 2 * Pow2(4);
  }

  lemma DropsFirst(h: seq<Message>)
    requires h == [Message(0, [7]), Message(12000, [8])]
    ensures Current(h, 0) && Shown(h, 1, 0) == -1 && Sample(h, 0) == 7
  {
    assert h[..1] == [Message(0, [7])];
    assert WindowOf(h[..1], 1) == Some(Window(0, 100));
    assert WindowOf(h, 1) == Some(Window(12000 + 100 - 10000, 10000));
  }
}
