// Which sessions record every silence: exactly which writes lose one, and why an undisturbed
// session has none that is long enough.
module Silences {
  import opened Words
  import opened Events
  import opened Signatures
  import opened Timeline
  import opened Records
  import opened Sessions
  import opened Histories
  import opened Guarantees
  import opened Failures
  import GapCode

  // A write after a pause of more than n windows that does not start a new signature.
  ghost predicate Overruns(w: World, call: Call, n: nat)
    requires w.episodes != []
  {
    && call.action.Write?
    && Jump(High(Now(w).start, Now(w).log), Unix(call.now)) > n
    && !(Idle(w.session, call.now) && Replaces(w.session, call.faults))
  }

  ghost predicate NeverOverruns(c: Config, files: Files, since: Clock, calls: seq<Call>, n: nat) {
    calls == [] ||
    (AfterTracked(c, files, since, Init(calls));
     NeverOverruns(c, files, since, Init(calls), n)
     && !Overruns(After(c, files, since, Init(calls)), Last(calls), n))
  }

  ghost predicate AllWithin(episodes: seq<Episode>, n: nat) {
    forall i :: 0 <= i < |episodes| ==> JumpsWithin(episodes[i].start, episodes[i].log, n)
  }

  lemma LoggedWithin(episodes: seq<Episode>, t: Tick, n: nat)
    requires episodes != []
    ensures AllWithin(Logged(episodes, t), n)
       <==> AllWithin(episodes, n) && Jump(High(Last(episodes).start, Last(episodes).log), t.now) <= n
  {
    var last, r := Last(episodes), Logged(episodes, t);
    var log := last.log + [t];
    assert Init(log) == last.log && Last(log) == t;
    assert r[|r| - 1] == last.(log := log);
    assert forall i :: 0 <= i < |r| - 1 ==> r[i] == episodes[i];
    if AllWithin(r, n) {
      assert JumpsWithin(last.start, log, n);
      forall i | 0 <= i < |episodes|
        ensures JumpsWithin(episodes[i].start, episodes[i].log, n)
      {
        assert i < |r| - 1 ==> JumpsWithin(r[i].start, r[i].log, n);
      }
    }
  }

  lemma ReplacedWithin(episodes: seq<Episode>, start: int64, created: bool, n: nat)
    ensures AllWithin(episodes + [Episode(start, created, [])], n) <==> AllWithin(episodes, n)
  {
    var r := episodes + [Episode(start, created, [])];
    assert forall i :: 0 <= i < |episodes| ==> r[i] == episodes[i];
  }

  lemma StepWithin(c: Config, w: World, call: Call, n: nat)
    requires Tracked(w)
    ensures AllWithin(StepWorld(c, w, call).episodes, n) <==> AllWithin(w.episodes, n) && !Overruns(w, call, n)
  {
    var now, f := call.now, call.faults;
    ReplacedWithin(w.episodes, Unix(now), !f.create, n);
    if call.action.Write? {
      ReadyTracked(c, w, now, f);
      LoggedWithin(Ready(c, w, now, f).episodes, Tick(Unix(now), call.action.event), n);
    }
  }

  lemma {:induction false} RunWithin(c: Config, files: Files, since: Clock, calls: seq<Call>, n: nat)
    ensures AllWithin(After(c, files, since, calls).episodes, n) <==> NeverOverruns(c, files, since, calls, n)
  {
    if calls != [] {
      RunWithin(c, files, since, Init(calls), n);
      AfterTracked(c, files, since, Init(calls));
      StepWithin(c, After(c, files, since, Init(calls)), Last(calls), n);
    }
  }

  ghost predicate Lossless(e: Episode) {
    GapCode.Decode(RecordOf(e).sig.data) == Some(Run(Fresh(VERSION0, e.start), e.log).data)
  }

  lemma LosslessWithin(e: Episode)
    requires e.start > 0
    ensures Lossless(e) <==> JumpsWithin(e.start, e.log, 255)
  {
    RecordSignature(e);
    PositiveWritable(e.start, e.log);
    LosslessExactly(e.start, e.log);
  }

  // After any run, whatever failed and wherever the clocks went: every signature decodes to what
  // version 0 would record exactly when no write met a silence over 255 windows without starting
  // a new signature.
  lemma LosslessRunsExactly(c: Config, files: Files, since: Clock, calls: seq<Call>)
    ensures (forall i :: 0 <= i < |After(c, files, since, calls).episodes| ==>
               Lossless(After(c, files, since, calls).episodes[i]))
       <==> NeverOverruns(c, files, since, calls, 255)
  {
    var episodes := After(c, files, since, calls).episodes;
    StartsPositive(c, files, since, calls);
    RunWithin(c, files, since, calls, 255);
    forall i | 0 <= i < |episodes|
      ensures Lossless(episodes[i]) <==> JumpsWithin(episodes[i].start, episodes[i].log, 255)
    {
      LosslessWithin(episodes[i]);
    }
  }

  // ----- Ways to lose a silence -----

  lemma OneWriteLoses(c: Config, files: Files, since: Clock, call: Call)
    requires Overruns(Opened(c, files, since), call, 255)
    ensures var r := After(c, files, since, [call]);
            |r.episodes| == 1 && !Lossless(r.episodes[0])
  {
    var w0 := Opened(c, files, since);
    OpenedTracked(c, files, since);
    assert Init([call]) == [];
    assert NeverOverruns(c, files, since, [], 255);
    OneCall(c, w0, call);
    LosslessRunsExactly(c, files, since, [call]);
    ReadyTracked(c, w0, call.now, call.faults);
  }

  // One refused seek, during the first write after the pause, is enough: the session is not
  // stuck, but the silence is gone.
  lemma TransientErrorLoses(c: Config, files: Files, since: Clock, later: Clock, e: Event)
    requires later.wall == since.wall + 2_000_000_000_000 && later.mono == since.mono + 2_000_000_000_000
    ensures var r := After(c, files, since, [Call(later, Write(e), Faults(true, None, false, false))]);
            && !Stuck(r)
            && |r.episodes| == 1 && !Lossless(r.episodes[0])
  {
    var call := Call(later, Write(e), Faults(true, None, false, false));
    var w0 := Opened(c, files, since);
    OpenedTracked(c, files, since);
    assert Overruns(w0, call, 255);
    OneWriteLoses(c, files, since, call);
    OneCall(c, w0, call);
    StepSticks(c, w0, call);
  }

  // So is a wall clock that runs on while the monotonic one stands still, as while a machine is
  // suspended: nothing failed, but the pause does not count as idle.
  lemma SuspendLoses(c: Config, files: Files, since: Clock, later: Clock, e: Event)
    requires later.wall == since.wall + 2_000_000_000_000 && later.mono == since.mono
    ensures var r := After(c, files, since, [Call(later, Write(e), NoFaults)]);
            && !Stuck(r)
            && |r.episodes| == 1 && !Lossless(r.episodes[0])
  {
    var call, w0 := Call(later, Write(e), NoFaults), Opened(c, files, since);
    OpenedTracked(c, files, since);
    assert Overruns(w0, call, 255);
    OneWriteLoses(c, files, since, call);
    OneCall(c, w0, call);
    StepSticks(c, w0, call);
  }

  lemma LongSilence(e: Episode, t: Tick)
    requires e.start > 0 && Jump(High(e.start, e.log), t.now) > 255
    ensures !Lossless(e.(log := e.log + [t]))
  {
    assert Init(e.log + [t]) == e.log;
    LosslessWithin(e.(log := e.log + [t]));
  }

  lemma StuckLogs(c: Config, w: World, call: Call)
    requires Stuck(w) && call.action.Write?
    ensures var w' := StepWorld(c, w, call);
            Tracked(w') && Now(w') == Now(w).(log := Now(w).log + [Tick(Unix(call.now), call.action.event)])
  {
    StepTracked(c, w, call);
    ReadyTracked(c, w, call.now, call.faults);
  }

  // A stuck session loses every silence over 255 windows that is still to come.
  lemma StuckLosesSilence(c: Config, w: World, call: Call)
    requires Stuck(w) && Now(w).start > 0 && call.action.Write?
    requires Jump(High(Now(w).start, Now(w).log), Unix(call.now)) > 255
    ensures Tracked(StepWorld(c, w, call)) && !Lossless(Now(StepWorld(c, w, call)))
  {
    StuckLogs(c, w, call);
    LongSilence(Now(w), Tick(Unix(call.now), call.action.event));
  }

  // ----- Undisturbed sessions -----

  function LatestClock(since: Clock, calls: seq<Call>): Clock {
    if calls == [] then since else Last(calls).now
  }

  // The monotonic clock does what it is called, and the wall clock is never set ahead of it.
  predicate Steady(since: Clock, calls: seq<Call>) {
    calls == [] ||
    (var last, now := LatestClock(since, Init(calls)), Last(calls).now;
     && Steady(since, Init(calls))
     && last.mono <= now.mono
     && now.wall - last.wall <= now.mono - last.mono)
  }

  // Every write after an idle pause starts a new signature.
  ghost predicate IdleResetsWork(c: Config, files: Files, since: Clock, calls: seq<Call>) {
    calls == [] ||
    (IdleResetsWork(c, files, since, Init(calls))
     && var w := After(c, files, since, Init(calls));
        Last(calls).action.Write? && Idle(w.session, Last(calls).now) ==>
          Replaces(w.session, Last(calls).faults))
  }

  // Five minutes are 75 windows.
  const LONGEST_PAUSE := 75

  // The last event, on the wall clock, is no later than the current window.
  ghost predicate Attentive(w: World, last: Clock) {
    && w.episodes != []
    && w.session.lastEventAt <= last.mono
    && Window((w.session.lastEventAt + last.wall - last.mono) / 1_000_000_000)
       <= Window(High(Now(w).start, Now(w).log))
  }

  lemma PauseFits(lastEventAt: int, last: Clock, now: Clock, current: int)
    requires Window((lastEventAt + last.wall - last.mono) / 1_000_000_000) <= Window(current)
    requires now.mono - lastEventAt <= IDLE_TIMEOUT
    requires now.wall - last.wall <= now.mono - last.mono
    ensures Jump(current, Unix(now)) <= LONGEST_PAUSE
  {
    var before := lastEventAt + last.wall - last.mono;
    assert now.wall <= before + IDLE_TIMEOUT;
    assert Unix(now) <= before / 1_000_000_000 + 300;
  }

  lemma HighAppend(start: int64, log: seq<Tick>, t: Tick)
    ensures High(start, log + [t]) == Later(High(start, log), t.now)
    ensures Window(t.now) <= Window(High(start, log + [t]))
  {
    assert Init(log + [t]) == log;
  }

  lemma StepAttentive(c: Config, w: World, last: Clock, call: Call)
    requires Tracked(w) && Attentive(w, last) && Steady(last, [call])
    requires call.action.Write? && Idle(w.session, call.now) ==> Replaces(w.session, call.faults)
    ensures Attentive(StepWorld(c, w, call), call.now) && !Overruns(w, call, LONGEST_PAUSE)
  {
    var now := call.now;
    assert LatestClock(last, Init([call])) == last && Last([call]) == call;
    var moved := w.session.lastEventAt + now.wall - now.mono;
    assert moved <= w.session.lastEventAt + last.wall - last.mono;
    if call.action.Write? {
      ReadyTracked(c, w, now, call.faults);
      var e := Now(Ready(c, w, now, call.faults));
      HighAppend(e.start, e.log, Tick(Unix(now), call.action.event));
      if !Idle(w.session, now) {
        PauseFits(w.session.lastEventAt, last, now, High(e.start, e.log));
      }
    }
  }

  lemma {:induction false} RunAttentive(c: Config, files: Files, since: Clock, calls: seq<Call>)
    requires Steady(since, calls) && IdleResetsWork(c, files, since, calls)
    ensures Attentive(After(c, files, since, calls), LatestClock(since, calls))
    ensures NeverOverruns(c, files, since, calls, LONGEST_PAUSE)
  {
    if calls != [] {
      var last := LatestClock(since, Init(calls));
      RunAttentive(c, files, since, Init(calls));
      AfterTracked(c, files, since, Init(calls));
      assert Init([Last(calls)]) == [] && Last([Last(calls)]) == Last(calls);
      StepAttentive(c, After(c, files, since, Init(calls)), last, Last(calls));
    }
  }

  lemma {:induction false} JumpsWithinMore(start: int64, ticks: seq<Tick>, m: nat, n: nat)
    requires m <= n && JumpsWithin(start, ticks, m)
    ensures JumpsWithin(start, ticks, n)
  {
    if ticks != [] {
      JumpsWithinMore(start, Init(ticks), m, n);
    }
  }

  // Because five idle minutes end a signature, with steady clocks and working idle resets no
  // signature, current or retired, pauses for more than 75 windows, and none loses anything.
  lemma SessionsAreLossless(c: Config, files: Files, since: Clock, calls: seq<Call>, i: nat)
    requires Steady(since, calls) && IdleResetsWork(c, files, since, calls)
    requires i < |After(c, files, since, calls).episodes|
    ensures var e := After(c, files, since, calls).episodes[i];
            JumpsWithin(e.start, e.log, 75) && Lossless(e)
  {
    RunAttentive(c, files, since, calls);
    RunWithin(c, files, since, calls, LONGEST_PAUSE);
    StartsPositive(c, files, since, calls);
    var e := After(c, files, since, calls).episodes[i];
    JumpsWithinMore(e.start, e.log, LONGEST_PAUSE, 255);
    LosslessWithin(e);
  }

  // Nothing is refused, except perhaps to flushes asked for by hand. Then idle resets work.
  predicate FaultFree(calls: seq<Call>) {
    forall i :: 0 <= i < |calls| ==> calls[i].action.Refresh? || calls[i].faults == NoFaults
  }

  lemma {:induction false} FaultFreeResetsWork(c: Config, files: Files, since: Clock, calls: seq<Call>)
    requires FaultFree(calls)
    ensures IdleResetsWork(c, files, since, calls) && NeverJams(c, files, since, calls)
  {
    if calls != [] {
      assert forall i :: 0 <= i < |Init(calls)| ==> Init(calls)[i] == calls[i];
      FaultFreeResetsWork(c, files, since, Init(calls));
      AfterTracked(c, files, since, Init(calls));
      StuckExactly(c, files, since, Init(calls));
    }
  }

  // And every retired file that reads back tells everything: the score of exactly the events of
  // each window, with every silence at its full length.
  lemma HistoryTellsEverything(c: Config, files: Files, since: Clock, calls: seq<Call>, i: nat)
    requires |calls| <= MAX_INT64 && Steady(since, calls) && IdleResetsWork(c, files, since, calls)
    ensures var r := After(c, files, since, calls);
            Retired(c, r, i) && NEWLINE !in RecordOf(r.episodes[i]).firstCharacters ==>
              var e, read := r.episodes[i], ParseRecord(SavedText(c, r, i));
              && read.Ok?
              && read.value.totalActions == |e.log|
              && read.value.sig.start == e.start
              && GapCode.Decode(read.value.sig.data) == Some(Windows(e.start, e.log, Unlimited))
  {
    var r := After(c, files, since, calls);
    HistoryDecodes(c, files, since, calls, i);
    if i < |r.episodes| {
      SessionsAreLossless(c, files, since, calls, i);
      JumpsWithinMore(r.episodes[i].start, r.episodes[i].log, LONGEST_PAUSE, 255);
    }
  }
}
