// What a session's files promise over its whole life, whatever the operating system refuses and
// whatever the clocks do.
module Guarantees {
  import opened Words
  import opened Events
  import opened Signatures
  import opened Timeline
  import opened Records
  import opened Recents
  import opened Sessions
  import opened Histories
  import GapCode

  function Now(w: World): Episode
    requires w.episodes != []
  {
    Last(w.episodes)
  }

  // After any run, a flush that reports success leaves exactly the current string in the current
  // file.
  lemma FlushedFileIsExact(c: Config, files: Files, since: Clock, calls: seq<Call>, f: Faults)
    requires |calls| <= MAX_INT64
    ensures var r := After(c, files, since, calls);
            var (s, err) := Refreshed(r.session, f);
            && Tracked(r)
            && (err.None? ==> Content(s.files, c.fileName(Now(r).start)) == RecordString(RecordOf(Now(r))))
  {
    RunKeeps(c, files, since, calls);
    var r := After(c, files, since, calls);
    FlushExact(r.session, f, SavedAs(c, Now(r)));
  }

  // A signature that has been replaced and whose file name has not been taken again.
  ghost predicate Retired(c: Config, w: World, i: nat) {
    i < |w.episodes| - 1 && Unshared(Archive(c, w.episodes), i)
  }

  function NameOf(c: Config, w: World, i: nat): Text
    requires i < |w.episodes|
  {
    c.fileName(w.episodes[i].start)
  }

  function FinalText(w: World, i: nat): Text
    requires i < |w.episodes|
  {
    RecordString(RecordOf(w.episodes[i]))
  }

  function SavedText(c: Config, w: World, i: nat): Text
    requires i < |w.episodes|
  {
    Content(w.session.files, NameOf(c, w, i))
  }

  lemma RetiredSaved(c: Config, w: World, i: nat)
    requires Kept(c, w) && Retired(c, w, i)
    ensures SavedText(c, w, i) == FinalText(w, i)
  {
    ArchiveAt(c, w.episodes, i);
  }

  // After any run, every retired signature whose file name was not taken again can be read back:
  // its record parses to what it was exactly when its first characters stay on one line.
  lemma RetiredReadsBack(c: Config, files: Files, since: Clock, calls: seq<Call>, i: nat)
    requires |calls| <= MAX_INT64
    ensures var r := After(c, files, since, calls);
            Retired(c, r, i) ==>
              var e := r.episodes[i];
              && (ParseRecord(SavedText(c, r, i)) == Ok(PrintedRec(RecordOf(e)))
                  <==> NEWLINE !in RecordOf(e).firstCharacters)
              && RecordOf(e).totalActions == |e.log|
              && RecordOf(e).sig == Run(Fresh(VERSION1, e.start), e.log)
  {
    RunKeeps(c, files, since, calls);
    var r := After(c, files, since, calls);
    if Retired(c, r, i) {
      var e := r.episodes[i];
      RetiredSaved(c, r, i);
      RecordRoundTrip(RecordOf(e));
      RunRecParts(e.start, e.log);
    }
  }

  // ----- Shared file names -----

  lemma FinalTextNotEmpty(w: World, i: nat)
    requires i < |w.episodes|
    ensures FinalText(w, i) != []
  {
    RecordLines(RecordOf(w.episodes[i]));
  }

  // A reset costs a retired signature its file exactly when it goes all the way and creates a
  // file of the same name.
  lemma ResetErasesExactly(c: Config, w: World, i: nat, now: Clock, f: Faults)
    requires Kept(c, w) && Retired(c, w, i)
    ensures Content(AfterReset(c, w, now, f).session.files, NameOf(c, w, i)) == FinalText(w, i)
       <==> !(Replaces(w.session, f) && !f.create && c.fileName(Unix(now)) == NameOf(c, w, i))
  {
    RetiredSaved(c, w, i);
    FinalTextNotEmpty(w, i);
    FlushExact(w.session, f, SavedAs(c, Now(w)));
    ArchiveAt(c, w.episodes, i);
    ArchiveAt(c, w.episodes, |w.episodes| - 1);
  }

  // Nothing after signature j was created under the name it shares with signature i.
  ghost predicate LastSharer(c: Config, w: World, i: nat, j: nat) {
    && i <= j < |w.episodes| && w.episodes[j].created
    && NameOf(c, w, j) == NameOf(c, w, i)
    && Unshared(Archive(c, w.episodes), j)
  }

  lemma FindLastSharer(c: Config, w: World, i: nat, k: nat) returns (j: nat)
    requires i <= k < |w.episodes| && w.episodes[k].created && NameOf(c, w, k) == NameOf(c, w, i)
    ensures LastSharer(c, w, i, j)
    decreases |w.episodes| - k
  {
    var a := Archive(c, w.episodes);
    ArchiveAt(c, w.episodes, k);
    if Unshared(a, k) {
      j := k;
    } else {
      var m: nat :| k < m < |a| && a[m].created && a[m].name == a[k].name;
      ArchiveAt(c, w.episodes, m);
      j := FindLastSharer(c, w, i, m);
    }
  }

  // A call that tries a reset, by hand or after an idle pause.
  predicate TriesReset(w: World, call: Call) {
    call.action.Reset? || (call.action.Write? && Idle(w.session, call.now))
  }

  // What a call leaves in the current file, where it held this before: the string it flushed,
  // whole or cut short over it, or nothing if the file is new.
  function StoredBy(w: World, call: Call, before: Text): Text
    requires w.episodes != []
  {
    var cur, f := w.session.cur, call.faults;
    if !(call.action.Refresh? || TriesReset(w, call)) || cur.None? || !cur.value.isOpen || f.seek then before
    else
      var content := RecordString(RecordOf(Now(w)));
      match f.write
      case Some(n) => Overwrite(before, content[..Min(n, |content|)])
      case None => if TriesReset(w, call) && !f.close && !f.create then [] else content
  }

  // What the flushes of a run have left in the current file.
  ghost function LastStored(c: Config, files: Files, since: Clock, calls: seq<Call>): Text {
    if calls == [] then []
    else
      AfterTracked(c, files, since, Init(calls));
      StoredBy(After(c, files, since, Init(calls)), Last(calls), LastStored(c, files, since, Init(calls)))
  }

  ghost predicate FileIs(c: Config, w: World, content: Text)
    requires w.episodes != []
  {
    Now(w).created ==> Content(w.session.files, c.fileName(Now(w).start)) == content
  }

  lemma ResetStores(c: Config, w: World, call: Call, before: Text)
    requires Kept(c, w) && FileIs(c, w, before) && TriesReset(w, call)
    ensures FileIs(c, AfterReset(c, w, call.now, call.faults), StoredBy(w, call, before))
  {
    FlushExact(w.session, call.faults, SavedAs(c, Now(w)));
  }

  lemma StepStores(c: Config, w: World, call: Call, before: Text)
    requires Kept(c, w) && FileIs(c, w, before)
    ensures StepWorld(c, w, call).episodes != []
    ensures FileIs(c, StepWorld(c, w, call), StoredBy(w, call, before))
  {
    if TriesReset(w, call) {
      ResetStores(c, w, call, before);
    } else {
      FlushExact(w.session, call.faults, SavedAs(c, Now(w)));
    }
    if call.action.Write? {
      ReadyTracked(c, w, call.now, call.faults);
    }
  }

  lemma {:induction false} FileHoldsLastStored(c: Config, files: Files, since: Clock, calls: seq<Call>)
    requires |calls| <= MAX_INT64
    ensures Tracked(After(c, files, since, calls))
    ensures FileIs(c, After(c, files, since, calls), LastStored(c, files, since, calls))
  {
    AfterTracked(c, files, since, calls);
    if calls != [] {
      FileHoldsLastStored(c, files, since, Init(calls));
      RunKeeps(c, files, since, Init(calls));
      StepStores(c, After(c, files, since, Init(calls)), Last(calls), LastStored(c, files, since, Init(calls)));
    }
  }

  // What the file of signature i holds, where j was the last created under its name.
  ghost predicate HeldBy(c: Config, w: World, i: nat, j: nat)
    requires i < |w.episodes| && j < |w.episodes|
  {
    if j < |w.episodes| - 1 then
      && SavedText(c, w, i) == FinalText(w, j)
      && (SavedText(c, w, i) == FinalText(w, i) <==> FinalText(w, i) == FinalText(w, j))
    else
      forall f :: Refreshed(w.session, f).1.None? ==>
        Content(Refreshed(w.session, f).0.files, NameOf(c, w, i)) == FinalText(w, j)
  }

  lemma KeptShared(c: Config, w: World, i: nat, j: nat)
    requires Kept(c, w) && LastSharer(c, w, i, j)
    ensures HeldBy(c, w, i, j)
  {
    if j < |w.episodes| - 1 {
      RetiredSaved(c, w, j);
    } else {
      forall f | Refreshed(w.session, f).1.None?
        ensures Content(Refreshed(w.session, f).0.files, NameOf(c, w, i)) == FinalText(w, j)
      {
        FlushExact(w.session, f, SavedAs(c, Now(w)));
      }
    }
  }

  // After any run, what the file of a replaced signature holds: the last signature created under
  // its name decides. If that one is retired too, the file holds its final text, and the earlier
  // text survives exactly when the two are equal; if it is the current one, the file holds what
  // the last flushes stored, and a further one makes it the current string.
  lemma SharedFileHolds(c: Config, files: Files, since: Clock, calls: seq<Call>, i: nat) returns (j: nat)
    requires |calls| <= MAX_INT64 && i < |After(c, files, since, calls).episodes| - 1
    ensures LastSharer(c, After(c, files, since, calls), i, j)
    ensures HeldBy(c, After(c, files, since, calls), i, j)
    ensures j == |After(c, files, since, calls).episodes| - 1 ==>
              SavedText(c, After(c, files, since, calls), i) == LastStored(c, files, since, calls)
  {
    RunKeeps(c, files, since, calls);
    var r := After(c, files, since, calls);
    j := FindLastSharer(c, r, i, i);
    KeptShared(c, r, i, j);
    FileHoldsLastStored(c, files, since, calls);
    SharedIs(c, r, i, j, LastStored(c, files, since, calls));
  }

  lemma SharedIs(c: Config, w: World, i: nat, j: nat, content: Text)
    requires LastSharer(c, w, i, j) && FileIs(c, w, content)
    ensures j == |w.episodes| - 1 ==> SavedText(c, w, i) == content
  {
  }

  lemma WriteThenReset(c: Config, files: Files, since: Clock, later: Clock, e: Event)
    ensures var r := After(c, files, since, [Call(since, Write(e), NoFaults), Call(later, Reset, NoFaults)]);
            && r.episodes == [Episode(Unix(since), true, [Tick(Unix(since), e)]), Episode(Unix(later), true, [])]
            && Content(r.session.files, c.fileName(Unix(later))) == []
  {
    var write, reset := Call(since, Write(e), NoFaults), Call(later, Reset, NoFaults);
    var w0 := Opened(c, files, since);
    OpenedTracked(c, files, since);
    TwoCalls(c, w0, write, reset);
    StepTracked(c, w0, write);
    var w1 := StepWorld(c, w0, write);
    assert w1.episodes == [Episode(Unix(since), true, [Tick(Unix(since), e)])];
    assert w1.session.cur == Some(Handle(c.fileName(Unix(since)), true));
  }

  // Such a loss takes no more than an event and a reset in the second the session was opened.
  lemma SameSecondErases(c: Config, files: Files, since: Clock, e: Event)
    ensures var r := After(c, files, since, [Call(since, Write(e), NoFaults), Call(since, Reset, NoFaults)]);
            && |r.episodes| == 2 && |r.episodes[0].log| == 1
            && SavedText(c, r, 0) == []
            && ParseRecord(SavedText(c, r, 0)).Err?
  {
    WriteThenReset(c, files, since, since, e);
  }

  // Typing a newline and resetting later, under another name, is enough for a retired file that
  // does not read back.
  lemma NewlineSpoils(c: Config, files: Files, since: Clock, later: Clock, e: Event)
    requires e.KeyDown? && e.text == [NEWLINE] && c.fileName(Unix(later)) != c.fileName(Unix(since))
    ensures var r := After(c, files, since, [Call(since, Write(e), NoFaults), Call(later, Reset, NoFaults)]);
            && Retired(c, r, 0) && |r.episodes[0].log| == 1
            && ParseRecord(SavedText(c, r, 0)) == Err(BadActionCount)
  {
    var calls := [Call(since, Write(e), NoFaults), Call(later, Reset, NoFaults)];
    WriteThenReset(c, files, since, later, e);
    RunKeeps(c, files, since, calls);
    NewlineRetired(c, After(c, files, since, calls));
  }

  lemma NewlineRetired(c: Config, w: World)
    requires Kept(c, w) && |w.episodes| == 2 && NameOf(c, w, 1) != NameOf(c, w, 0)
    requires var log := w.episodes[0].log; |log| == 1 && log[0].event.KeyDown? && log[0].event.text == [NEWLINE]
    ensures Retired(c, w, 0) && ParseRecord(SavedText(c, w, 0)) == Err(BadActionCount)
  {
    ArchiveAt(c, w.episodes, 0);
    ArchiveAt(c, w.episodes, 1);
    RetiredSaved(c, w, 0);
    NewlineTyped(w.episodes[0]);
    NewlineUnreadable(RecordOf(w.episodes[0]));
  }

  lemma NewlineTyped(e: Episode)
    requires |e.log| == 1 && e.log[0].event.KeyDown? && e.log[0].event.text == [NEWLINE]
    ensures RecordOf(e).firstCharacters == [NEWLINE]
  {
    assert Init(e.log) == [] && RunRec(FreshRec(e.start), []) == FreshRec(e.start);
    assert [] + [NEWLINE] == [NEWLINE];
  }

  lemma OneCall(c: Config, w: World, call: Call)
    ensures RunWorld(c, w, [call]) == StepWorld(c, w, call)
  {
    assert Init([call]) == [];
    assert RunWorld(c, w, []) == w;
  }

  lemma TwoCalls(c: Config, w: World, first: Call, second: Call)
    ensures RunWorld(c, w, [first, second]) == StepWorld(c, StepWorld(c, w, first), second)
  {
    assert Init([first, second]) == [first];
    OneCall(c, w, first);
  }

  // ----- Contents -----

  lemma {:induction false} StartsPositive(c: Config, files: Files, since: Clock, calls: seq<Call>)
    ensures forall i :: 0 <= i < |After(c, files, since, calls).episodes| ==>
              After(c, files, since, calls).episodes[i].start > 0
  {
    if calls != [] {
      StartsPositive(c, files, since, Init(calls));
      StepStarts(c, After(c, files, since, Init(calls)), Last(calls));
    }
  }

  lemma StepStarts(c: Config, w: World, call: Call)
    requires forall i :: 0 <= i < |w.episodes| ==> w.episodes[i].start > 0
    ensures forall i :: 0 <= i < |StepWorld(c, w, call).episodes| ==> StepWorld(c, w, call).episodes[i].start > 0
  {
    if Tracked(w) && call.action.Write? {
      ReadyTracked(c, w, call.now, call.faults);
    }
  }

  lemma {:induction false} RecordSignature(e: Episode)
    ensures RecordOf(e).sig == Run(Fresh(VERSION1, e.start), e.log)
    decreases |e.log|
  {
    if e.log != [] {
      RecordSignature(e.(log := Init(e.log)));
    }
  }

  // After any run, a write is never refused, whatever fails during it.
  lemma WritesSucceed(c: Config, files: Files, since: Clock, calls: seq<Call>, now: Clock, f: Faults)
    ensures var p := Prepared(c, After(c, files, since, calls).session, now, f);
            p.sig.Some? && WriteFailure(p.sig.value.sig) == None
  {
    var r := After(c, files, since, calls);
    AfterTracked(c, files, since, calls);
    StartsPositive(c, files, since, calls);
    ReadyTracked(c, r, now, f);
    var e := Now(Ready(c, r, now, f));
    RecordSignature(e);
    PositiveWritable(e.start, e.log);
    Version1Decodes(e.start, e.log);
  }

  // The whole chain, after any run: the file of a retired signature, read back and decoded, gives
  // the score of exactly the events that landed in each of its windows, silences over 255 windows
  // clamped; it gives the unclamped timeline exactly when there is no such silence.
  lemma HistoryDecodes(c: Config, files: Files, since: Clock, calls: seq<Call>, i: nat)
    requires |calls| <= MAX_INT64
    ensures var r := After(c, files, since, calls);
            Retired(c, r, i) && NEWLINE !in RecordOf(r.episodes[i]).firstCharacters ==>
              var e, read := r.episodes[i], ParseRecord(SavedText(c, r, i));
              && read.Ok?
              && read.value.totalActions == |e.log|
              && read.value.sig.start == e.start
              && GapCode.Decode(read.value.sig.data) == Some(Windows(e.start, e.log, Clamped))
              && (GapCode.Decode(read.value.sig.data) == Some(Windows(e.start, e.log, Unlimited))
                  <==> JumpsWithin(e.start, e.log, 255))
  {
    RetiredReadsBack(c, files, since, calls, i);
    StartsPositive(c, files, since, calls);
    var r := After(c, files, since, calls);
    if Retired(c, r, i) {
      var e := r.episodes[i];
      PositiveWritable(e.start, e.log);
      Version1Decodes(e.start, e.log);
      LimitedWindows(e.start, e.log, 255);
    }
  }

  // ----- Idle pauses -----

  // An event that comes within five minutes of the one before touches no file and starts no
  // signature; one that comes later, nothing being refused, saves the current string and starts
  // exactly one.
  lemma FiveMinutes(c: Config, w: World, call: Call)
    requires Tracked(w) && call.action.Write?
    ensures var s, w' := w.session, StepWorld(c, w, call);
            && w'.session.lastEventAt == call.now.mono
            && (call.now.mono - s.lastEventAt <= 300_000_000_000 ==>
                  && w'.session.files == s.files && w'.session.cur == s.cur
                  && w'.session.startTime == s.startTime && w'.session.resetAt == s.resetAt
                  && |w'.episodes| == |w.episodes| && Now(w').start == Now(w).start)
            && (call.now.mono - s.lastEventAt > 300_000_000_000
                && s.cur.Some? && s.cur.value.isOpen && call.faults == NoFaults ==>
                  && w'.session.cur == Some(Handle(c.fileName(Unix(call.now)), true))
                  && Content(w'.session.files, c.fileName(Unix(call.now))) == []
                  && w'.session.startTime == call.now.wall
                  && w'.session.resetAt == call.now.wall + c.resetDuration
                  && |w'.episodes| == |w.episodes| + 1
                  && Now(w') == Episode(Unix(call.now), true, [Tick(Unix(call.now), call.action.event)]))
  {
    ReadyTracked(c, w, call.now, call.faults);
    assert [] + [Tick(Unix(call.now), call.action.event)] == [Tick(Unix(call.now), call.action.event)];
  }

  // From the opening on: the first event starts a second signature exactly after five minutes.
  lemma FirstPause(c: Config, files: Files, since: Clock, later: Clock, e: Event)
    ensures |After(c, files, since, [Call(later, Write(e), NoFaults)]).episodes|
         == if later.mono - since.mono <= 300_000_000_000 then 1 else 2
  {
    OpenedTracked(c, files, since);
    OneCall(c, Opened(c, files, since), Call(later, Write(e), NoFaults));
    FiveMinutes(c, Opened(c, files, since), Call(later, Write(e), NoFaults));
  }

  // ----- Listing -----

  // Whatever failed during the session, a listing shows every retired signature that reads back,
  // unless it is full of signatures at least as new.
  lemma HistoryListed(c: Config, files: Files, since: Clock, calls: seq<Call>, i: nat,
                      names: seq<Text>, limit: nat, listing: seq<Rec>)
    requires |calls| <= MAX_INT64 && Retired(c, After(c, files, since, calls), i)
    requires NEWLINE !in RecordOf(After(c, files, since, calls).episodes[i]).firstCharacters
    ensures var r := After(c, files, since, calls);
            var e := r.episodes[i];
            (forall n :: n in names <==> n in r.session.files)
            && IsListing(Parsed(r.session.files, names), limit, listing) ==>
              || PrintedRec(RecordOf(e)) in listing
              || (|listing| == limit && forall shown :: shown in listing ==> shown.sig.start >= e.start)
  {
    RetiredReadsBack(c, files, since, calls, i);
    var r := After(c, files, since, calls);
    var e := r.episodes[i];
    if (forall n :: n in names <==> n in r.session.files)
       && IsListing(Parsed(r.session.files, names), limit, listing) {
      var name, saved := c.fileName(e.start), PrintedRec(RecordOf(e));
      assert name in r.session.files by {
        assert ParseRecord([]).Err?;
      }
      ParsedMember(r.session.files, names, name);
      RunKeepsStart(VERSION1, e.start, e.log);
      if saved !in listing {
        ShownOrDisplaced(Parsed(r.session.files, names), limit, listing, saved);
      }
    }
  }

  lemma ShownOrDisplaced(found: seq<Rec>, limit: nat, listing: seq<Rec>, r: Rec)
    requires IsListing(found, limit, listing) && r in found && r !in listing
    ensures |listing| == limit && forall shown :: shown in listing ==> shown.sig.start >= r.sig.start
  {
    ListingMeaning(found, limit, listing);
    assert r in multiset(found) - multiset(listing);
    if listing == [] {
      assert |found| > 0 && |listing| == Min(limit, |found|);
    }
  }

  lemma {:induction false} RunKeepsStart(version: uint64, start: int64, ticks: seq<Tick>)
    ensures Run(Fresh(version, start), ticks).start == start
  {
    if ticks != [] {
      RunKeepsStart(version, start, Init(ticks));
    }
  }
}
