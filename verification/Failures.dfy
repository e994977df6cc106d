// What a refused reset costs: exactly which refusals leave a session with a closed file, and that
// nothing it does later gets it out of there.
module Failures {
  import opened Words
  import opened Timeline
  import opened Records
  import opened Sessions
  import opened Histories
  import opened Guarantees

  ghost predicate Stuck(w: World) {
    Tracked(w) && w.session.cur.Some? && !w.session.cur.value.isOpen
  }

  // A reset of a session with an open file closes it for good exactly when the flush goes well
  // and closing the old file or creating the new one does not.
  lemma ResetSticksExactly(c: Config, w: World, now: Clock, f: Faults)
    requires Tracked(w) && w.session.cur.Some? && w.session.cur.value.isOpen
    ensures Stuck(AfterReset(c, w, now, f)) <==> !f.seek && f.write.None? && (f.close || f.create)
  {
    ResetTracked(c, w, now, f);
  }

  // A reset that gets past its flush but is refused closing or creating.
  predicate Jams(w: World, call: Call) {
    && TriesReset(w, call)
    && Refreshed(w.session, call.faults).1.None?
    && (call.faults.close || call.faults.create)
  }

  ghost predicate NeverJams(c: Config, files: Files, since: Clock, calls: seq<Call>) {
    calls == [] ||
    (NeverJams(c, files, since, Init(calls)) && !Jams(After(c, files, since, Init(calls)), Last(calls)))
  }

  lemma StepSticks(c: Config, w: World, call: Call)
    requires Tracked(w) && w.session.cur.Some?
    ensures StepWorld(c, w, call).session.cur.Some?
    ensures Stuck(StepWorld(c, w, call)) <==> Stuck(w) || Jams(w, call)
  {
    StepTracked(c, w, call);
    if TriesReset(w, call) && w.session.cur.value.isOpen {
      ResetSticksExactly(c, w, call.now, call.faults);
    }
    if call.action.Write? {
      ReadyTracked(c, w, call.now, call.faults);
    }
  }

  // After any run, the session is stuck exactly when some attempted reset got past its flush and
  // was then refused closing or creating a file.
  lemma {:induction false} StuckExactly(c: Config, files: Files, since: Clock, calls: seq<Call>)
    ensures After(c, files, since, calls).session.cur.Some?
    ensures Stuck(After(c, files, since, calls)) <==> !NeverJams(c, files, since, calls)
  {
    if calls == [] {
      OpenedTracked(c, files, since);
    } else {
      StuckExactly(c, files, since, Init(calls));
      AfterTracked(c, files, since, Init(calls));
      StepSticks(c, After(c, files, since, Init(calls)), Last(calls));
    }
  }

  // A stuck session writes no file and starts no signature again, idle or not: every flush and
  // every reset fails.
  lemma {:induction false} StuckForever(c: Config, w: World, calls: seq<Call>)
    requires Stuck(w)
    ensures var r := RunWorld(c, w, calls);
            && Stuck(r)
            && r.session.files == w.session.files
            && |r.episodes| == |w.episodes| && Now(r).start == Now(w).start
            && Now(w).log <= Now(r).log
            && forall f :: Refreshed(r.session, f).1 == Some(Rewinding)
    decreases |calls|
  {
    if calls != [] {
      StuckForever(c, w, Init(calls));
      StuckStep(c, RunWorld(c, w, Init(calls)), Last(calls));
    }
  }

  lemma StuckStep(c: Config, w: World, call: Call)
    requires Stuck(w)
    ensures var r := StepWorld(c, w, call);
            && Stuck(r)
            && r.session.files == w.session.files
            && |r.episodes| == |w.episodes| && Now(r).start == Now(w).start
            && Now(w).log <= Now(r).log
  {
    StepTracked(c, w, call);
    ReadyTracked(c, w, call.now, call.faults);
  }

  lemma {:induction false} RunInTwo(c: Config, w: World, a: seq<Call>, b: seq<Call>)
    ensures RunWorld(c, w, a + b) == RunWorld(c, RunWorld(c, w, a), b)
    decreases |b|
  {
    if b == [] {
      assert a + b == a;
    } else {
      RunInTwo(c, w, a, Init(b));
      assert Init(a + b) == a + Init(b) && Last(a + b) == Last(b);
      assert RunWorld(c, w, a + b) == StepWorld(c, RunWorld(c, w, a + Init(b)), Last(b));
    }
  }

  // Two such runs: one refusal during the first reset, by hand, and whatever follows is never
  // saved. A refused close keeps the old signature, a refused create the new one.
  lemma OneRefusalSticks(c: Config, files: Files, since: Clock, now: Clock, f: Faults, rest: seq<Call>)
    requires f == Faults(false, None, true, false) || f == Faults(false, None, false, true)
    ensures var r := After(c, files, since, [Call(now, Reset, f)] + rest);
            && Stuck(r)
            && |r.episodes| == (if f.close then 1 else 2)
            && Content(r.session.files, c.fileName(Unix(since))) == FinalText(Opened(c, files, since), 0)
            && (f.create && c.fileName(Unix(now)) != c.fileName(Unix(since)) ==>
                  Content(r.session.files, c.fileName(Unix(now))) == Content(files, c.fileName(Unix(now))))
  {
    var call, w0 := Call(now, Reset, f), Opened(c, files, since);
    OpenedTracked(c, files, since);
    OneCall(c, w0, call);
    ResetSticksExactly(c, w0, now, f);
    RunInTwo(c, w0, [call], rest);
    StuckForever(c, StepWorld(c, w0, call), rest);
    OverwriteExact([], FinalText(w0, 0));
  }

  // ----- What is left on file -----

  // A stuck run has a first call that jammed it.
  lemma {:induction false} FindJam(c: Config, files: Files, since: Clock, calls: seq<Call>) returns (k: nat)
    requires Stuck(After(c, files, since, calls))
    ensures k < |calls|
    ensures !Stuck(After(c, files, since, calls[..k])) && Jams(After(c, files, since, calls[..k]), calls[k])
    decreases |calls|
  {
    StuckExactly(c, files, since, calls);
    StuckExactly(c, files, since, Init(calls));
    if Stuck(After(c, files, since, Init(calls))) {
      k := FindJam(c, files, since, Init(calls));
      assert Init(calls)[..k] == calls[..k];
    } else {
      k := |calls| - 1;
    }
  }

  // A jam that was refused the close leaves the string of its own flush on file.
  lemma JamStores(c: Config, w: World, jam: Call)
    requires Kept(c, w) && !Stuck(w) && Jams(w, jam) && jam.faults.close
    ensures var w' := AfterReset(c, w, jam.now, jam.faults);
            && w'.episodes == w.episodes
            && Content(w'.session.files, SavedAs(c, Now(w)).name) == SavedAs(c, Now(w)).content
  {
    FlushExact(w.session, jam.faults, SavedAs(c, Now(w)));
  }

  lemma JamStep(c: Config, w: World, jam: Call)
    requires Kept(c, w) && !Stuck(w) && Jams(w, jam) && jam.faults.close
    ensures var w' := StepWorld(c, w, jam);
            && Stuck(w')
            && |w'.episodes| == |w.episodes| && Now(w').start == Now(w).start && Now(w).log <= Now(w').log
            && Content(w'.session.files, SavedAs(c, Now(w)).name) == SavedAs(c, Now(w)).content
  {
    StepSticks(c, w, jam);
    JamStores(c, w, jam);
    if jam.action.Write? {
      ReadyTracked(c, w, jam.now, jam.faults);
    }
  }

  // For good: the file of a session stuck by a refused close holds the string of that flush, which
  // is still the current one exactly when no event was written since.
  lemma StuckFileHolds(c: Config, files: Files, since: Clock, calls: seq<Call>, jam: Call, rest: seq<Call>)
    requires |calls + [jam] + rest| <= MAX_INT64
    requires var w := After(c, files, since, calls); !Stuck(w) && Jams(w, jam) && jam.faults.close
    ensures var w, r := After(c, files, since, calls), After(c, files, since, calls + [jam] + rest);
            && Tracked(w) && Stuck(r)
            && |r.episodes| == |w.episodes|
            && var file := Content(r.session.files, c.fileName(Now(r).start));
               && file == RecordString(RecordOf(Now(w)))
               && (file == RecordString(RecordOf(Now(r))) <==> |Now(r).log| == |Now(w).log|)
  {
    var w := After(c, files, since, calls);
    RunKeeps(c, files, since, calls);
    JamStep(c, w, jam);
    OneCall(c, w, jam);
    RunInTwo(c, Opened(c, files, since), calls, [jam]);
    RunInTwo(c, Opened(c, files, since), calls + [jam], rest);
    StuckForever(c, StepWorld(c, w, jam), rest);
    RunKeeps(c, files, since, calls + [jam] + rest);
    LogShows(Now(w), Now(After(c, files, since, calls + [jam] + rest)));
  }

  lemma LogShows(e: Episode, e': Episode)
    requires e.start == e'.start && e.log <= e'.log && |e'.log| <= MAX_INT64
    ensures RecordString(RecordOf(e)) == RecordString(RecordOf(e')) <==> |e'.log| == |e.log|
  {
    if |e'.log| == |e.log| {
      assert e.log == e'.log;
      assert RecordOf(e) == RecordOf(e');
    } else {
      LongerLogShows(e, e');
    }
  }

  lemma LongerLogShows(e: Episode, e': Episode)
    requires |e.log| < |e'.log| <= MAX_INT64
    ensures RecordString(RecordOf(e)) != RecordString(RecordOf(e'))
  {
    var r, r' := RecordOf(e), RecordOf(e');
    RunRecParts(e.start, e.log);
    RunRecParts(e'.start, e'.log);
    if RecordString(r) == RecordString(r') {
      ActionsShow(r, r');
    }
  }
}
