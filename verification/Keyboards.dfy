// Several keyboards and one consumer, interleaved in any way: the queue shuffles what the
// devices emit but keeps each device's order, and no device sees another's modifiers.
module Keyboards {
  import opened Events
  import opened Timeline
  import opened Evdev

  // One device's reader between two records.
  datatype Device = Device(unread: seq<InputRecord>, mods: Mods)

  // The queue holds the newest event first.
  datatype System = System(devices: seq<Device>, queue: seq<Event>, popped: seq<Event>)

  datatype Turn = Read(device: nat) | Pop

  function Start(streams: seq<seq<InputRecord>>): System {
    System(seq(|streams|, i requires 0 <= i < |streams| => Device(streams[i], NoMods)), [], [])
  }

  predicate CanRead(s: System, d: nat) { d < |s.devices| && s.devices[d].unread != [] }

  // What the device whose turn it is emits.
  function Emitted(l: Layout, s: System, t: Turn): seq<Event> {
    if t.Read? && CanRead(s, t.device) then
      var dev := s.devices[t.device];
      Emission(l, ModsStep(dev.mods, dev.unread[0]), dev.unread[0])
    else []
  }

  function Take(l: Layout, s: System, t: Turn): System {
    match t
    case Read(d) =>
      if !CanRead(s, d) then s
      else
        var dev := s.devices[d];
        s.(devices := s.devices[d := Device(dev.unread[1..], ModsStep(dev.mods, dev.unread[0]))],
           queue := Emitted(l, s, t) + s.queue)
    case Pop =>
      if s.queue == [] then s
      else s.(popped := s.popped + [Last(s.queue)], queue := Init(s.queue))
  }

  function TakeAll(l: Layout, s: System, turns: seq<Turn>): System {
    if turns == [] then s else Take(l, TakeAll(l, s, Init(turns)), Last(turns))
  }

  // Every event so far in the order the consumer gets them.
  function Delivered(s: System): seq<Event> { s.popped + Reversed(s.queue) }

  // The events that carry one device's tag.
  function Select(events: seq<Event>, tags: seq<nat>, d: nat): seq<Event>
    requires |tags| == |events|
  {
    if events == [] then []
    else Select(Init(events), Init(tags), d) + if Last(tags) == d then [Last(events)] else []
  }

  // The records a device has consumed.
  function Consumed(streams: seq<seq<InputRecord>>, s: System, d: nat): seq<InputRecord>
    requires d < |streams| == |s.devices| && |s.devices[d].unread| <= |streams[d]|
  {
    streams[d][..|streams[d]| - |s.devices[d].unread|]
  }

  ghost predicate Progress(streams: seq<seq<InputRecord>>, s: System) {
    && |s.devices| == |streams|
    && forall d: nat :: d < |streams| ==>
         && |s.devices[d].unread| <= |streams[d]|
         && streams[d] == Consumed(streams, s, d) + s.devices[d].unread
         && s.devices[d].mods == ModsAfter(Consumed(streams, s, d))
  }

  // A tagging of the delivered events by device under which each device's events are exactly
  // what its consumed records emit on their own, in order.
  ghost predicate Shuffle(l: Layout, streams: seq<seq<InputRecord>>, s: System, tags: seq<nat>)
    requires Progress(streams, s)
  {
    && |tags| == |Delivered(s)|
    && (forall k :: 0 <= k < |tags| ==> tags[k] < |streams|)
    && forall d: nat :: d < |streams| ==>
         Select(Delivered(s), tags, d) == Emissions(l, Consumed(streams, s, d))
  }

  lemma ReadProgress(l: Layout, streams: seq<seq<InputRecord>>, s: System, d: nat)
    requires Progress(streams, s) && CanRead(s, d)
    ensures var s' := Take(l, s, Read(d));
            && Progress(streams, s')
            && Consumed(streams, s', d) == Consumed(streams, s, d) + [s.devices[d].unread[0]]
            && forall e: nat :: e < |streams| && e != d ==> Consumed(streams, s', e) == Consumed(streams, s, e)
  {
    var s' := Take(l, s, Read(d));
    var before, r := Consumed(streams, s, d), s.devices[d].unread[0];
    assert Consumed(streams, s', d) == before + [r];
    assert Init(before + [r]) == before;
  }

  lemma ReadDelivers(l: Layout, s: System, d: nat)
    requires CanRead(s, d)
    ensures Delivered(Take(l, s, Read(d))) == Delivered(s) + Emitted(l, s, Read(d))
  {
    var e := Emitted(l, s, Read(d));
    if e != [] {
      ReversedPrepend(e[0], s.queue);
      assert e == [e[0]];
    } else {
      assert e + s.queue == s.queue;
      assert Delivered(s) + [] == Delivered(s);
    }
  }

  lemma PopDelivers(l: Layout, s: System)
    ensures Delivered(Take(l, s, Pop)) == Delivered(s)
  {
  }

  lemma SelectAppend(events: seq<Event>, tags: seq<nat>, e: Event, t: nat, d: nat)
    requires |tags| == |events|
    ensures Select(events + [e], tags + [t], d) == Select(events, tags, d) + if t == d then [e] else []
  {
    assert Init(events + [e]) == events && Init(tags + [t]) == tags;
  }

  lemma ReadShuffles(l: Layout, streams: seq<seq<InputRecord>>, s: System, d: nat, tags: seq<nat>)
    returns (tags': seq<nat>)
    requires Progress(streams, s) && CanRead(s, d) && Shuffle(l, streams, s, tags)
    ensures Progress(streams, Take(l, s, Read(d))) && Shuffle(l, streams, Take(l, s, Read(d)), tags')
  {
    var s', e, r := Take(l, s, Read(d)), Emitted(l, s, Read(d)), s.devices[d].unread[0];
    ReadProgress(l, streams, s, d);
    ReadDelivers(l, s, d);
    tags' := if e == [] then tags else tags + [d];
    assert Init(Consumed(streams, s', d)) == Consumed(streams, s, d);
    forall k: nat | k < |streams|
      ensures Select(Delivered(s'), tags', k) == Emissions(l, Consumed(streams, s', k))
    {
      if e != [] {
        assert e == [e[0]];
        SelectAppend(Delivered(s), tags, e[0], d, k);
      } else {
        assert Delivered(s) + [] == Delivered(s);
      }
      if k != d {
        assert Select(Delivered(s), tags, k) + [] == Select(Delivered(s), tags, k);
      }
    }
  }

  // Under every schedule, what was popped followed by what is still queued is a shuffle of the
  // devices' own emissions.
  lemma {:induction false} AnyScheduleShuffles(l: Layout, streams: seq<seq<InputRecord>>, turns: seq<Turn>)
    returns (tags: seq<nat>)
    ensures var s := TakeAll(l, Start(streams), turns);
            Progress(streams, s) && Shuffle(l, streams, s, tags)
    decreases |turns|
  {
    if turns == [] {
      tags := [];
    } else {
      tags := AnyScheduleShuffles(l, streams, Init(turns));
      var s := TakeAll(l, Start(streams), Init(turns));
      match Last(turns)
      case Pop =>
        PopDelivers(l, s);
      case Read(d) =>
        if CanRead(s, d) {
          tags := ReadShuffles(l, streams, s, d, tags);
        }
    }
  }

  // An event's modifier flags say which keys its own device holds down; other devices, and the
  // schedule, have no part in it.
  lemma FlagsAreOwn(l: Layout, streams: seq<seq<InputRecord>>, turns: seq<Turn>, d: nat)
    requires var s := TakeAll(l, Start(streams), turns); CanRead(s, d)
    requires Emitted(l, TakeAll(l, Start(streams), turns), Read(d)) != []
    ensures var s := TakeAll(l, Start(streams), turns);
            && Progress(streams, s)
            && d < |streams|
            && var e := Emitted(l, s, Read(d))[0];
               var seen := Consumed(streams, s, d) + [s.devices[d].unread[0]];
               && e.KeyDown?
               && e.control == (Held(seen, KEY_LEFT_CTRL) || Held(seen, KEY_RIGHT_CTRL))
               && e.shift == (Held(seen, KEY_LEFT_SHIFT) || Held(seen, KEY_RIGHT_SHIFT))
               && e.special == (Held(seen, KEY_LEFT_META) || Held(seen, KEY_RIGHT_META))
  {
    var _ := AnyScheduleShuffles(l, streams, turns);
    var s := TakeAll(l, Start(streams), turns);
    ReadProgress(l, streams, s, d);
    ModsAreHeldKeys(Consumed(streams, s, d) + [s.devices[d].unread[0]]);
  }
}
