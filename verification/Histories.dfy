// Whole sessions: what every run of calls keeps, whatever the operating system refuses.
module Histories {
  import opened Words
  import opened Events
  import opened Signatures
  import opened Timeline
  import opened Records
  import opened Sessions

  datatype Action = Write(event: Event) | Refresh | Reset

  datatype Call = Call(now: Clock, action: Action, faults: Faults)

  // One signature of the session: when it started, whether its file was created then, and what
  // was written to it since.
  datatype Episode = Episode(start: int64, created: bool, log: seq<Tick>)

  // A session and the signatures it has kept so far, the current one last.
  datatype World = World(session: Session, episodes: seq<Episode>)

  function RecordOf(e: Episode): (r: Rec)
    ensures r.sig.data != []
  {
    RunRec(FreshRec(e.start), e.log)
  }

  // Whether a reset gets as far as replacing the current record.
  predicate Replaces(s: Session, f: Faults) {
    Refreshed(s, f).1.None? && !CloseFails(Refreshed(s, f).0, f)
  }

  function Logged(episodes: seq<Episode>, t: Tick): (r: seq<Episode>)
    requires episodes != []
    ensures |r| == |episodes|
  {
    Init(episodes) + [Last(episodes).(log := Last(episodes).log + [t])]
  }

  ghost predicate Tracked(w: World) {
    w.episodes != [] && w.session.sig == Some(RecordOf(Last(w.episodes)))
  }

  // A reset that fails early keeps the current signature.
  function AfterReset(c: Config, w: World, now: Clock, f: Faults): World {
    World(ResetTo(c, w.session, FreshRec(Unix(now)), now, f).0,
          if Replaces(w.session, f) then w.episodes + [Episode(Unix(now), !f.create, [])] else w.episodes)
  }

  // The world in which the event itself is recorded.
  function Ready(c: Config, w: World, now: Clock, f: Faults): World {
    if Idle(w.session, now) then AfterReset(c, w, now, f) else w
  }

  ghost function StepWorld(c: Config, w: World, call: Call): World {
    var s, now, f := w.session, call.now, call.faults;
    if !Tracked(w) then w else
    match call.action
    case Refresh => w.(session := Refreshed(s, f).0)
    case Reset => AfterReset(c, w, now, f)
    case Write(e) =>
      ReadyTracked(c, w, now, f);
      World(Written(c, s, now, e, f), Logged(Ready(c, w, now, f).episodes, Tick(Unix(now), e)))
  }

  lemma ResetTracked(c: Config, w: World, now: Clock, f: Faults)
    requires Tracked(w)
    ensures Tracked(AfterReset(c, w, now, f))
  {
    var next := Episode(Unix(now), !f.create, []);
    assert RecordOf(next) == FreshRec(Unix(now));
    assert Last(w.episodes + [next]) == next;
  }

  lemma ReadyTracked(c: Config, w: World, now: Clock, f: Faults)
    requires Tracked(w)
    ensures Tracked(Ready(c, w, now, f))
    ensures Prepared(c, w.session, now, f) == Ready(c, w, now, f).session.(lastEventAt := now.mono)
  {
    ResetTracked(c, w, now, f);
  }

  ghost function RunWorld(c: Config, w: World, calls: seq<Call>): World {
    if calls == [] then w else StepWorld(c, RunWorld(c, w, Init(calls)), Last(calls))
  }

  // A session just opened, over any files.
  function Opened(c: Config, files: Files, since: Clock): World {
    World(ResetTo(c, Session(files, None, None, since.mono, 0, 0), FreshRec(Unix(since)), since, NoFaults).0,
          [Episode(Unix(since), true, [])])
  }

  // A session after any sequence of calls.
  ghost function After(c: Config, files: Files, since: Clock, calls: seq<Call>): World {
    RunWorld(c, Opened(c, files, since), calls)
  }

  lemma OpenedTracked(c: Config, files: Files, since: Clock)
    ensures Tracked(Opened(c, files, since))
  {
    assert RecordOf(Episode(Unix(since), true, [])) == FreshRec(Unix(since));
  }

  // The current record is always the one its log makes.
  lemma {:induction false} AfterTracked(c: Config, files: Files, since: Clock, calls: seq<Call>)
    ensures Tracked(After(c, files, since, calls))
  {
    if calls == [] {
      OpenedTracked(c, files, since);
    } else {
      AfterTracked(c, files, since, Init(calls));
      StepTracked(c, After(c, files, since, Init(calls)), Last(calls));
    }
  }

  lemma StepTracked(c: Config, w: World, call: Call)
    requires Tracked(w)
    ensures Tracked(StepWorld(c, w, call))
  {
    var now, f := call.now, call.faults;
    match call.action
    case Refresh =>
    case Reset => ResetTracked(c, w, now, f);
    case Write(e) =>
      ReadyTracked(c, w, now, f);
      LoggedRecord(Ready(c, w, now, f).episodes, Tick(Unix(now), e));
  }

  lemma LoggedRecord(episodes: seq<Episode>, t: Tick)
    requires episodes != []
    ensures RecordOf(Last(Logged(episodes, t))) == StepRec(RecordOf(Last(episodes)), t)
  {
    var log := Last(episodes).log;
    assert Init(log + [t]) == log;
  }

  // A signature's file, whether it was created for it, and what it should hold.
  datatype Saved = Saved(name: Text, created: bool, content: Text)

  function SavedAs(c: Config, e: Episode): Saved {
    Saved(c.fileName(e.start), e.created, RecordString(RecordOf(e)))
  }

  function Archive(c: Config, episodes: seq<Episode>): (a: seq<Saved>)
    ensures |a| == |episodes|
  {
    if episodes == [] then [] else Archive(c, Init(episodes)) + [SavedAs(c, Last(episodes))]
  }

  lemma {:induction false} ArchiveAt(c: Config, episodes: seq<Episode>, i: nat)
    requires i < |episodes|
    ensures Archive(c, episodes)[i] == SavedAs(c, episodes[i])
  {
    if i < |episodes| - 1 {
      ArchiveAt(c, Init(episodes), i);
    }
  }

  // Nothing later in the archive was created under the same name.
  ghost predicate Unshared(a: seq<Saved>, i: nat)
    requires i < |a|
  {
    forall j :: i < j < |a| && a[j].created ==> a[j].name != a[i].name
  }

  // Every retired signature's file holds its final string, unless a later one took its name.
  ghost predicate HistoryKept(files: Files, a: seq<Saved>) {
    forall i :: 0 <= i < |a| - 1 && Unshared(a, i) ==> Content(files, a[i].name) == a[i].content
  }

  // An open handle is the current signature's, whose file is never longer than its string.
  ghost predicate HandleFits(files: Files, cur: Option<Handle>, last: Saved) {
    && cur.Some?
    && (cur.value.isOpen ==>
          last.created && cur.value.name == last.name && |Content(files, last.name)| <= |last.content|)
  }

  lemma OthersKept(files: Files, files': Files, a: seq<Saved>)
    requires a != [] && HistoryKept(files, a)
    requires forall n :: n != Last(a).name || !Last(a).created ==> Content(files', n) == Content(files, n)
    ensures HistoryKept(files', a)
  {
    forall i | 0 <= i < |a| - 1 && Unshared(a, i)
      ensures Content(files', a[i].name) == a[i].content
    {
      assert a[|a| - 1].created ==> a[|a| - 1].name != a[i].name;
    }
  }

  lemma RetiringKeeps(files: Files, files': Files, a: seq<Saved>, next: Saved)
    requires a != [] && HistoryKept(files, a) && Content(files, Last(a).name) == Last(a).content
    requires forall n :: n != next.name || !next.created ==> Content(files', n) == Content(files, n)
    ensures HistoryKept(files', a + [next])
  {
    var b := a + [next];
    forall i | 0 <= i < |a| && Unshared(b, i)
      ensures Content(files', b[i].name) == b[i].content
    {
      assert b[|a|].created ==> b[|a|].name != b[i].name;
      if i < |a| - 1 {
        assert forall j :: i < j < |a| ==> b[j] == a[j];
        assert Unshared(a, i);
      }
    }
  }

  lemma RewritingKeeps(files: Files, a: seq<Saved>, b: seq<Saved>)
    requires a != [] && |b| == |a| && Init(b) == Init(a)
    requires Last(b).name == Last(a).name && Last(b).created == Last(a).created
    requires HistoryKept(files, a)
    ensures HistoryKept(files, b)
  {
    assert forall i :: 0 <= i < |a| - 1 ==> b[i] == Init(b)[i] == a[i];
    forall i | 0 <= i < |a| - 1 && Unshared(b, i)
      ensures Content(files, b[i].name) == b[i].content
    {
      assert forall j :: i < j < |a| ==> a[j].name == b[j].name && a[j].created == b[j].created;
      assert Unshared(a, i);
    }
  }

  // Writing without truncating leaves a stale tail exactly when the file was longer.
  lemma OverwriteExact(before: Text, content: Text)
    ensures Overwrite(before, content) == content <==> |before| <= |content|
  {
    assert |Overwrite(before, content)| == Max(|before|, |content|);
  }

  // Flushing without truncation touches one file only, and is exact whenever it reports success.
  lemma FlushExact(s: Session, f: Faults, last: Saved)
    requires s.sig.Some? && last.content == RecordString(s.sig.value)
    requires HandleFits(s.files, s.cur, last)
    ensures var (s', err) := Refreshed(s, f);
            && HandleFits(s'.files, s'.cur, last)
            && (forall n :: n != last.name || !last.created ==> Content(s'.files, n) == Content(s.files, n))
            && (err.None? ==> Content(s'.files, last.name) == last.content)
  {
    if s.cur.value.isOpen {
      OverwriteExact(Content(s.files, last.name), last.content);
    }
  }

  ghost predicate Kept(c: Config, w: World) {
    && Tracked(w)
    && (forall i :: 0 <= i < |w.episodes| - 1 ==> w.episodes[i].created)
    && HandleFits(w.session.files, w.session.cur, SavedAs(c, Last(w.episodes)))
    && HistoryKept(w.session.files, Archive(c, w.episodes))
  }

  ghost predicate LogsWithin(episodes: seq<Episode>, n: nat) {
    forall i :: 0 <= i < |episodes| ==> |episodes[i].log| <= n
  }

  lemma FlushKeeps(c: Config, w: World, f: Faults)
    requires Kept(c, w)
    ensures Kept(c, w.(session := Refreshed(w.session, f).0))
  {
    FlushExact(w.session, f, SavedAs(c, Last(w.episodes)));
    ArchiveLast(c, w.episodes);
    OthersKept(w.session.files, Refreshed(w.session, f).0.files, Archive(c, w.episodes));
  }

  // A signature is retired only once its last string is safely in its file.
  lemma ResetKeeps(c: Config, w: World, now: Clock, f: Faults)
    requires Kept(c, w)
    ensures Kept(c, AfterReset(c, w, now, f))
  {
    FlushKeeps(c, w, f);
    if Replaces(w.session, f) {
      ResetTracked(c, w, now, f);
      assert HandleFits(w.session.files, w.session.cur, SavedAs(c, Last(w.episodes))) && w.session.cur.value.isOpen;
      RetiredSafely(c, w, now, f);
    }
  }

  lemma RetiredSafely(c: Config, w: World, now: Clock, f: Faults)
    requires Kept(c, w) && Replaces(w.session, f)
    ensures var w' := AfterReset(c, w, now, f); HistoryKept(w'.session.files, Archive(c, w'.episodes))
  {
    FlushKeeps(c, w, f);
    var last, next := SavedAs(c, Last(w.episodes)), Episode(Unix(now), !f.create, []);
    var flushed, files' := Refreshed(w.session, f).0.files, AfterReset(c, w, now, f).session.files;
    FlushExact(w.session, f, last);
    ArchiveLast(c, w.episodes);
    ArchiveAppend(c, w.episodes, next);
    RetiringKeeps(flushed, files', Archive(c, w.episodes), SavedAs(c, next));
  }

  lemma ArchiveLast(c: Config, episodes: seq<Episode>)
    requires episodes != []
    ensures Last(Archive(c, episodes)) == SavedAs(c, Last(episodes))
  {
  }

  lemma ArchiveAppend(c: Config, episodes: seq<Episode>, next: Episode)
    ensures Archive(c, episodes + [next]) == Archive(c, episodes) + [SavedAs(c, next)]
  {
    assert Init(episodes + [next]) == episodes;
  }

  // Logging an event leaves the retired signatures and every file alone.
  lemma LogKeeps(c: Config, w: World, w': World, t: Tick)
    requires Kept(c, w) && Tracked(w')
    requires |Last(w.episodes).log| < MAX_INT64
    requires w'.episodes == Logged(w.episodes, t)
    requires w'.session.files == w.session.files && w'.session.cur == w.session.cur
    ensures Kept(c, w')
  {
    var last := Last(w.episodes);
    RunRecParts(last.start, last.log);
    RecordGrows(RecordOf(last), t);
    LoggedRecord(w.episodes, t);
    var a, b := Archive(c, w.episodes), Archive(c, w'.episodes);
    assert Init(w'.episodes) == Init(w.episodes);
    assert Init(a) == Archive(c, Init(w.episodes)) == Init(b);
    RewritingKeeps(w.session.files, a, b);
  }

  lemma ReadyKeeps(c: Config, w: World, now: Clock, f: Faults)
    requires Kept(c, w) && LogsWithin(w.episodes, MAX_INT64 - 1)
    ensures Kept(c, Ready(c, w, now, f)) && LogsWithin(Ready(c, w, now, f).episodes, MAX_INT64 - 1)
  {
    if Idle(w.session, now) {
      ResetKeeps(c, w, now, f);
    }
  }

  lemma WriteKeeps(c: Config, w: World, now: Clock, e: Event, f: Faults)
    requires Kept(c, w) && LogsWithin(w.episodes, MAX_INT64 - 1)
    ensures Kept(c, StepWorld(c, w, Call(now, Write(e), f)))
  {
    var ready, after := Ready(c, w, now, f), StepWorld(c, w, Call(now, Write(e), f));
    ReadyKeeps(c, w, now, f);
    ReadyTracked(c, w, now, f);
    StepTracked(c, w, Call(now, Write(e), f));
    assert after.session.files == ready.session.files && after.session.cur == ready.session.cur;
    LogKeeps(c, ready, after, Tick(Unix(now), e));
  }

  lemma StepKeeps(c: Config, w: World, call: Call)
    requires Kept(c, w) && LogsWithin(w.episodes, MAX_INT64 - 1)
    ensures Kept(c, StepWorld(c, w, call))
  {
    match call.action
    case Refresh => FlushKeeps(c, w, call.faults);
    case Reset => ResetKeeps(c, w, call.now, call.faults);
    case Write(e) => WriteKeeps(c, w, call.now, e, call.faults);
  }

  lemma LogsStep(c: Config, w: World, call: Call, n: nat)
    requires Tracked(w) && LogsWithin(w.episodes, n)
    ensures LogsWithin(StepWorld(c, w, call).episodes, n + 1)
  {
    if call.action.Write? {
      ReadyTracked(c, w, call.now, call.faults);
      var episodes := Ready(c, w, call.now, call.faults).episodes;
      assert LogsWithin(episodes, n);
      LoggedWithin(episodes, Tick(Unix(call.now), call.action.event), n);
    }
  }

  lemma LoggedWithin(episodes: seq<Episode>, t: Tick, n: nat)
    requires episodes != [] && LogsWithin(episodes, n)
    ensures LogsWithin(Logged(episodes, t), n + 1)
  {
    var r := Logged(episodes, t);
    assert forall i :: 0 <= i < |r| - 1 ==> r[i] == episodes[i];
  }

  // Over any run, whatever fails: the open file never outgrows the current string, so that every
  // reported flush is exact, and every retired signature's file still holds its final string
  // unless a later one took its name.
  lemma {:induction false} RunKeeps(c: Config, files: Files, since: Clock, calls: seq<Call>)
    requires |calls| <= MAX_INT64
    ensures Kept(c, After(c, files, since, calls))
    ensures LogsWithin(After(c, files, since, calls).episodes, |calls|)
  {
    if calls == [] {
      OpenedTracked(c, files, since);
      assert Content(Opened(c, files, since).session.files, c.fileName(Unix(since))) == [];
    } else {
      RunKeeps(c, files, since, Init(calls));
      var before := After(c, files, since, Init(calls));
      StepKeeps(c, before, Last(calls));
      LogsStep(c, before, Last(calls), |calls| - 1);
    }
  }
}
