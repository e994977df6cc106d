// The signature recorder: one byte per four-second window (version 0), or the same with silent
// gaps collapsed (version 1).
module Signatures {
  import opened Words
  import opened Events

  const VERSION0: uint64 := 0
  const VERSION1: uint64 := 1

  datatype Sig = Sig(version: uint64, start: int64, current: int64, data: seq<byte>)

  datatype WriteError = UnwritableSignature | UnknownVersion

  // One call of Write: the clock it read, in seconds, and the event it was given.
  datatype Tick = Tick(now: int64, event: Event)

  // second >> 2: an arithmetic shift, so it floors for seconds before 1970 too.
  function Window(second: int): int { second / 4 }

  // Windows are four seconds long, before 1970 too.
  lemma FourSeconds(second: int, window: int)
    ensures Window(second) == window <==> 4 * window <= second < 4 * window + 4
  {
  }

  function Fresh(version: uint64, start: int64): Sig { Sig(version, start, start, [0]) }

  // How many windows the clock has moved past the current one; a clock gone back counts zero.
  function Jump(current: int, now: int): nat { Max(0, Window(now) - Window(current)) }

  function Later(current: int64, now: int64): int64 {
    if Jump(current, now) > 0 then now else current
  }

  // Folds an event into the last window.
  function Bump(data: seq<byte>, e: Event): (bumped: seq<byte>)
    requires data != []
    ensures |bumped| == |data|
  {
    data[|data| - 1 := ApplyEvent(data[|data| - 1], e)]
  }

  function GapBytes(jump: nat): seq<byte> {
    if jump == 0 then [] else if jump == 1 then [0] else [0, Min(jump, 255), 0]
  }

  function StepV0(s: Sig, t: Tick): Sig
    requires s.data != []
  {
    s.(data := Bump(s.data + Zeros(Jump(s.current, t.now)), t.event),
       current := Later(s.current, t.now))
  }

  function StepV1(s: Sig, t: Tick): Sig
    requires s.data != []
  {
    s.(data := Bump(s.data + GapBytes(Jump(s.current, t.now)), t.event),
       current := Later(s.current, t.now))
  }

  function WriteFailure(s: Sig): Option<WriteError> {
    if s.current == 0 then Some(UnwritableSignature)
    else if s.version != VERSION0 && s.version != VERSION1 then Some(UnknownVersion)
    else None
  }

  // A refused write changes nothing.
  function Step(s: Sig, t: Tick): (r: Sig)
    requires s.data != []
    ensures r.data != []
  {
    if WriteFailure(s).Some? then s
    else if s.version == VERSION1 then StepV1(s, t)
    else StepV0(s, t)
  }

  // A write is refused when the current second is zero, and else when the version is neither 0
  // nor 1; then it changes nothing.
  lemma WriteMeaning(s: Sig, t: Tick)
    requires s.data != []
    ensures WriteFailure(s)
         == if s.current == 0 then Some(UnwritableSignature) else if s.version > 1 then Some(UnknownVersion) else None
    ensures WriteFailure(s).Some? ==> Step(s, t) == s
  {
  }

  function Run(s: Sig, ticks: seq<Tick>): (r: Sig)
    requires s.data != []
    ensures r.data != []
  {
    if ticks == [] then s else Step(Run(s, ticks[..|ticks| - 1]), ticks[|ticks| - 1])
  }

  class Asig {
    var Data: seq<byte>
    var Version: uint64
    var StartSecond: int64
    var CurrentSecond: int64

    ghost predicate Valid()
      reads this
    {
      Data != []
    }

    ghost function Value(): Sig
      reads this
    {
      Sig(Version, StartSecond, CurrentSecond, Data)
    }

    constructor NewCustom(version: uint64, startSecond: int64)
      ensures Valid() && Value() == Fresh(version, startSecond)
    {
      Version := version;
      StartSecond := startSecond;
      CurrentSecond := startSecond;
      Data := [0];
    }

    method WriteV0(now: int64, ev: Event)
      requires Valid()
      modifies this
      ensures Valid() && Value() == StepV0(old(Value()), Tick(now, ev))
    {
      var newBytes := Window(now) - Window(CurrentSecond);
      if newBytes > 0 {
        Data := Data + Zeros(newBytes);
        CurrentSecond := now;
      }
      var last := |Data| - 1;
      Data := Data[last := ApplyEvent(Data[last], ev)];
      assert newBytes <= 0 ==> old(Data) + Zeros(0) == old(Data);
    }

    method WriteV1(now: int64, ev: Event)
      requires Valid()
      modifies this
      ensures Valid() && Value() == StepV1(old(Value()), Tick(now, ev))
    {
      var pauseLength := Window(now) - Window(CurrentSecond);
      if pauseLength > 0 {
        Data := Data + [0];
        if pauseLength > 1 {
          Data := Data + [Min(pauseLength, 255)];
          Data := Data + [0];
        }
        CurrentSecond := now;
      }
      assert Data == old(Data) + GapBytes(Jump(old(CurrentSecond), now));
      var last := |Data| - 1;
      Data := Data[last := ApplyEvent(Data[last], ev)];
    }

    method Write(now: int64, ev: Event) returns (err: Option<WriteError>)
      requires Valid()
      modifies this
      ensures Valid() && Value() == Step(old(Value()), Tick(now, ev))
      ensures err == WriteFailure(old(Value()))
    {
      if CurrentSecond == 0 {
        return Some(UnwritableSignature);
      }
      if Version == VERSION1 {
        WriteV1(now, ev);
      } else if Version == VERSION0 {
        WriteV0(now, ev);
      } else {
        return Some(UnknownVersion);
      }
      return None;
    }
  }
}
