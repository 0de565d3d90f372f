/**
  ShakePlatform's bars (platform.js): a row of bars, ten empty ones to begin
  with; `addBar(data)` puts the data into the first bar that has none, or
  appends a new bar; the left and right arrow keys append an empty bar;
  `removeBar` does nothing.
 */
module Platform {
  import opened Wrappers

  /** The data a bar is given; the platform reads only its `name` */
  datatype Data = Data(name: string)

  /**
    A bar: `getData()` is `data`, where `None` stands for every falsy value,
    and `name` is what `setName` last set, if anything.
   */
  datatype Bar = Bar(data: Option<Data>, name: Option<string>)

  datatype Platform = Platform(bars: seq<Bar>)

  /** `new ShakeBar({}, data)`: a bar holding `data`, not yet named */
  function NewBar(data: Option<Data>): Bar {
    Bar(data, None)
  }

  /** The lowest position of a bar without data */
  function FirstEmpty(bars: seq<Bar>): (r: Option<nat>)
    ensures r.Some? ==> r.value < |bars| && bars[r.value].data.None?
    ensures r.Some? ==> forall j :: 0 <= j < r.value ==> bars[j].data.Some?
    ensures r.None? ==> forall j :: 0 <= j < |bars| ==> bars[j].data.Some?
    decreases |bars|
  {
    if |bars| == 0 then None
    else if bars[0].data.None? then Some(0)
    else
      match FirstEmpty(bars[1..])
      case None => None
      case Some(k) => Some(k + 1)
  }

  /**
    `addBar(data)`: truthy data goes into the first bar without data, which
    also takes its name; without data, or with no empty bar, a new bar holding
    `data` is appended.
   */
  function AddBar(p: Platform, data: Option<Data>): (r: Platform)
    ensures data.Some? && (exists j :: 0 <= j < |p.bars| && p.bars[j].data.None?) ==>
      && |r.bars| == |p.bars|
      && exists k :: 0 <= k < |p.bars|
           && p.bars[k].data.None?
           && (forall j :: 0 <= j < k ==> p.bars[j].data.Some?)
           && r.bars[k] == Bar(data, Some(data.value.name))
           && (forall j :: 0 <= j < |p.bars| && j != k ==> r.bars[j] == p.bars[j])
    ensures data.None? || (forall j :: 0 <= j < |p.bars| ==> p.bars[j].data.Some?) ==>
      r.bars == p.bars + [Bar(data, None)]
  {
    var slot := if data.Some? then FirstEmpty(p.bars) else None;
    match slot
    case Some(k) =>
      Platform(p.bars[k := Bar(data, Some(data.value.name))])
    case None =>
      Platform(p.bars + [NewBar(data)])
  }

  /** `createPlaceholders()`: `addBar()` ten times, for `i` from 0 to 9 */
  method CreatePlaceholders(p: Platform) returns (r: Platform)
    ensures |r.bars| == |p.bars| + 10
    ensures r.bars[..|p.bars|] == p.bars
    ensures forall j :: |p.bars| <= j < |r.bars| ==> r.bars[j] == Bar(None, None)
  {
    r := p;
    var i := 0;
    while i <= 9
      invariant 0 <= i <= 10
      invariant |r.bars| == |p.bars| + i
      invariant r.bars[..|p.bars|] == p.bars
      invariant forall j :: |p.bars| <= j < |r.bars| ==> r.bars[j] == Bar(None, None)
    {
      r := AddBar(r, None);
      i := i + 1;
    }
  }

  /** The constructor: no bars, then the placeholders */
  method New() returns (r: Platform)
    ensures |r.bars| == 10
    ensures forall j :: 0 <= j < |r.bars| ==> r.bars[j].data.None?
  {
    r := CreatePlaceholders(Platform([]));
  }

  /** `keyDown(event)`: key codes 37 and 39 (left and right arrow) add an empty bar */
  function KeyDown(p: Platform, which: int): (r: Platform)
    ensures which == 37 || which == 39 ==> r.bars == p.bars + [Bar(None, None)]
    ensures which != 37 && which != 39 ==> r == p
  {
    if which == 37 || which == 39 then AddBar(p, None) else p
  }

  /** `removeBar(data)` has an empty body */
  function RemoveBar(p: Platform, data: Option<Data>): (r: Platform)
    ensures r == p
  {
    p
  }

  datatype Event = AddBarEvent(data: Option<Data>) | KeyDownEvent(which: int) | RemoveBarEvent(removed: Option<Data>)

  function Apply(p: Platform, e: Event): Platform {
    match e
    case AddBarEvent(data) => AddBar(p, data)
    case KeyDownEvent(which) => KeyDown(p, which)
    case RemoveBarEvent(data) => RemoveBar(p, data)
  }

  function Run(p: Platform, events: seq<Event>): Platform
    decreases |events|
  {
    if |events| == 0 then p else Run(Apply(p, events[0]), events[1..])
  }

  lemma ApplyKeeps(p: Platform, e: Event)
    ensures |Apply(p, e).bars| >= |p.bars|
    ensures forall j :: 0 <= j < |p.bars| && p.bars[j].data.Some? ==> Apply(p, e).bars[j] == p.bars[j]
  {
    match e
    case AddBarEvent(data) =>
      if data.Some? && exists j :: 0 <= j < |p.bars| && p.bars[j].data.None? {
      } else {
        assert forall j :: 0 <= j < |p.bars| ==> (p.bars + [Bar(data, None)])[j] == p.bars[j];
      }
    case KeyDownEvent(which) =>
      assert forall j :: 0 <= j < |p.bars| ==> (p.bars + [Bar(None, None)])[j] == p.bars[j];
    case RemoveBarEvent(_) =>
  }

  /**
    Whatever happens, the number of bars never goes down and a bar that holds
    data keeps it, with its name, at its position.
   */
  lemma {:induction false} RunKeeps(p: Platform, events: seq<Event>)
    ensures |Run(p, events).bars| >= |p.bars|
    ensures forall j :: 0 <= j < |p.bars| && p.bars[j].data.Some? ==> Run(p, events).bars[j] == p.bars[j]
    decreases |events|
  {
    if |events| > 0 {
      var q := Apply(p, events[0]);
      ApplyKeeps(p, events[0]);
      RunKeeps(q, events[1..]);
    }
  }

  /** Adding data to a fresh platform fills the first placeholder and nothing else. */
  lemma FirstDataFillsFirstSlot(p: Platform, data: Data)
    requires |p.bars| == 10 && forall j :: 0 <= j < |p.bars| ==> p.bars[j].data.None?
    ensures AddBar(p, Some(data)).bars == [Bar(Some(data), Some(data.name))] + p.bars[1..]
  {
    assert p.bars[0].data.None?;
  }
}
