// What overlapping flushes leave in the program's own files: the exact conditions, and runs in
// which a completed flush or a reset does not save what it should.
module Overlaps {
  import opened Words
  import opened Events
  import opened Signatures
  import opened SigCodec
  import opened Splitting
  import opened Timeline
  import opened Records
  import opened Sessions
  import opened Histories
  import opened Races
  import Base64
  import Decimal

  function Affiro(c: Config): Program { Program(c.fileName, e => RecordString(RecordOf(e))) }

  lemma WithEventGrows(e: Episode, t: Tick)
    requires |e.log| < MAX_INT64
    ensures |RecordString(RecordOf(e))| <= |RecordString(RecordOf(WithEvent(e, t)))|
  {
    RunRecParts(e.start, e.log);
    RecordGrows(RecordOf(e), t);
    assert Init(e.log + [t]) == e.log;
  }

  lemma AffiroGrows(c: Config)
    ensures Grows(Affiro(c))
  {
    var p := Affiro(c);
    forall e: Episode, t: Tick | |e.log| < MAX_INT64
      ensures |p.show(e)| <= |p.show(WithEvent(e, t))|
    {
      WithEventGrows(e, t);
    }
  }

  // ----- Undisturbed flushes -----

  // Whatever overlapped before, a flush that nothing interrupts leaves exactly the current string
  // if and only if the file has not outgrown it, which takes a string stored in a later
  // signature's file.
  lemma UndisturbedFlush(c: Config, files: Files, start: int64, moves: seq<Move>)
    requires |moves| <= MAX_INT64 && MakeAll(Affiro(c), Begin(Affiro(c), files, start), moves).isOpen
    ensures var p := Affiro(c);
            var s := MakeAll(p, Begin(p, files, start), moves);
            var content := RecordString(RecordOf(Current(s)));
            && (CurrentFile(p, Flushed(p, s)) == content <==> |CurrentFile(p, s)| <= |content|)
            && (NeverStale(p, Begin(p, files, start), moves) ==> CurrentFile(p, Flushed(p, s)) == content)
  {
    var p := Affiro(c);
    AffiroGrows(c);
    if NeverStale(p, Begin(p, files, start), moves) {
      OverlapsFit(p, files, start, moves);
    }
    FlushedExactly(p, MakeAll(p, Begin(p, files, start), moves));
  }

  // ----- The last store decides -----

  // A signature's string tells how many events it has, so a later one never prints the same.
  lemma PrefixShows(c: Config, e: Episode, n: nat)
    requires n <= |e.log| <= MAX_INT64
    ensures Affiro(c).show(Prefix(e, n)) == Affiro(c).show(e) <==> n == |e.log|
  {
    if n == |e.log| {
      assert Prefix(e, n) == e;
    } else if Affiro(c).show(Prefix(e, n)) == Affiro(c).show(e) {
      RunRecParts(e.start, e.log);
      RunRecParts(e.start, e.log[..n]);
      ActionsShow(RecordOf(Prefix(e, n)), RecordOf(e));
    }
  }

  // While a file is left alone it stays exact exactly as long as no event reaches its signature.
  lemma LateEventsUnsaved(c: Config, s: Shared, i: nat, moves: seq<Move>)
    requires i < |s.entries| && LeftAlone(Affiro(c), s, i, moves)
    requires |moves| <= MAX_INT64 && Short(s.entries, MAX_INT64 - |moves|)
    ensures var p, s' := Affiro(c), MakeAll(Affiro(c), s, moves);
            && Extends(s.entries, s'.entries)
            && FileOf(p, s', i) == FileOf(p, s, i)
            && (FileOf(p, s, i) == p.show(s.entries[i].episode) ==>
                  (FileOf(p, s', i) == p.show(s'.entries[i].episode)
                   <==> |s'.entries[i].episode.log| == |s.entries[i].episode.log|))
  {
    WhileLeftAlone(Affiro(c), s, i, moves);
    RunShort(Affiro(c), s, moves, MAX_INT64 - |moves|);
    var e, e' := s.entries[i].episode, MakeAll(Affiro(c), s, moves).entries[i].episode;
    assert Prefix(e', |e.log|) == e;
    PrefixShows(c, e', |e.log|);
  }

  lemma AffiroTells(c: Config)
    ensures Tells(Affiro(c))
  {
    forall e: Episode, n: nat | n <= |e.log| <= MAX_INT64
      ensures Affiro(c).show(Prefix(e, n)) == Affiro(c).show(e) <==> n == |e.log|
    {
      PrefixShows(c, e, n);
    }
  }

  lemma AffiroDecides(c: Config, s: Shared, k: nat, f: Faults, moves: seq<Move>, n: nat)
    requires AllHonest(Affiro(c), s) && LastStore(Affiro(c), s, k, f, moves)
    requires Short(s.entries, n) && n + 1 + |moves| <= MAX_INT64
    ensures DecidedBy(Affiro(c), s, k, f, MakeAll(Affiro(c), MakeMove(Affiro(c), s, Store(k, f)), moves))
  {
    AffiroGrows(c);
    AffiroTells(c);
    StoreDecides(Affiro(c), s, k, f, moves, n);
  }

  // What a signature's file is worth once the last string was stored in it, after any run: it is
  // exact exactly when the final string starts with what was stored and goes on like the file
  // before. If the file had not outgrown what was stored, this means that the string was written
  // whole and no event reached the signature after it was taken.
  lemma LastStoreDecides(c: Config, files: Files, start: int64, before: seq<Move>, k: nat, f: Faults,
                         moves: seq<Move>)
    requires |before| + 1 + |moves| <= MAX_INT64
    ensures var p := Affiro(c);
            var s := MakeAll(p, Begin(p, files, start), before);
            LastStore(p, s, k, f, moves) ==>
              DecidedBy(p, s, k, f, MakeAll(p, MakeMove(p, s, Store(k, f)), moves))
  {
    var s := MakeAll(Affiro(c), Begin(Affiro(c), files, start), before);
    RunSound(Affiro(c), files, start, before);
    if LastStore(Affiro(c), s, k, f, moves) {
      AffiroDecides(c, s, k, f, moves, |before|);
    }
  }

  // Over any run whose stores come in order, each into its own signature's file, whatever else is
  // refused or cut short: a file whose name was not taken again is exact if and only if no event
  // reached its signature after the string last stored in it was taken, provided that one was
  // stored whole; a file nothing was stored in is empty.
  lemma RetiredExactly(c: Config, files: Files, start: int64, moves: seq<Move>, i: nat)
    requires |moves| <= MAX_INT64
    requires NeverDisorderly(Affiro(c), Begin(Affiro(c), files, start), moves)
    ensures var p := Affiro(c);
            var s := MakeAll(p, Begin(p, files, start), moves);
            i < |s.entries| && s.entries[i].episode.created && Alone(p, s.entries, i) ==>
              var e, save := s.entries[i].episode, s.entries[i].save;
              && (save.Nothing? ==> FileOf(p, s, i) == [])
              && (save.Upto? && save.whole ==>
                    (FileOf(p, s, i) == RecordString(RecordOf(e)) <==> save.count == |e.log|))
  {
    var p := Affiro(c);
    AffiroGrows(c);
    StoresBack(p, files, start, moves);
    RunShort(p, Begin(p, files, start), moves, 0);
    var s := MakeAll(p, Begin(p, files, start), moves);
    if i < |s.entries| && s.entries[i].episode.created && Alone(p, s.entries, i) && s.entries[i].save.Upto? {
      PrefixShows(c, s.entries[i].episode, s.entries[i].save.count);
    }
  }

  // ----- An event in between -----

  // An event between a flush's two halves, then a reset: every store is in order and no event came
  // after it, but the retired file has none of the signature's one event.
  lemma EventInBetweenUnsaved(c: Config, files: Files, start: int64, t: Tick, next: int64)
    requires c.fileName(next) != c.fileName(start)
    ensures var p := Affiro(c);
            var moves := InBetween(t) + [Replace(next, NoFaults)];
            var s := MakeAll(p, Begin(p, files, start), moves);
            && NeverDisorderly(p, Begin(p, files, start), moves)
            && |s.entries| == 2 && s.entries[0].episode.log == [t]
            && FileOf(p, s, 0) == RecordString(FreshRec(start))
            && FileOf(p, s, 0) != RecordString(RecordOf(s.entries[0].episode))
  {
    var p, e := Affiro(c), WithEvent(Episode(start, true, []), t);
    InBetweenLeaves(p, files, start, t);
    ReplacedKeeps(p, Begin(p, files, start), InBetween(t), next);
    assert [] + [t] == [t];
    assert Prefix(e, 0) == Episode(start, true, []);
    PrefixShows(c, e, 0);
  }

  // ----- Older strings -----

  lemma SignatureLength(s: Sig)
    ensures |StringOf(s)| == |Decimal.FormatUint(s.version)| + 14 + (4 * |s.data| + 2) / 3
  {
    FieldsJoined(s);
    Base64.EncodedLength(SecondsField(s.start));
    Base64.EncodedLength(s.data);
  }

  lemma OneKey(start: int64, t: Tick, x: byte)
    requires t.now == start && t.event.KeyDown? && t.event.text == [x] && x != 0
    ensures var r := RecordOf(WithEvent(Episode(start, true, []), t));
            |r.sig.data| == 1 && r.sig.version == VERSION1 && r.firstCharacters == [x] && r.totalActions == 1
  {
    var blank := FreshRec(start);
    assert Init([t]) == [] && [] + [t] == [t];
    assert RunRec(blank, []) == blank;
    assert [] + [x] == [x];
  }

  // The record of one key is one character longer than a blank one, and ends in its count.
  lemma FirstKey(start: int64, t: Tick, x: byte, next: int64)
    requires t.now == start && t.event.KeyDown? && t.event.text == [x] && x != 0
    ensures var s := RecordString(RecordOf(WithEvent(Episode(start, true, []), t)));
            |s| == |RecordString(FreshRec(next))| + 1 && Last(s) == ZERO_DIGIT + 1
  {
    var r := RecordOf(WithEvent(Episode(start, true, []), t));
    OneKey(start, t, x);
    SignatureLength(r.sig);
    SignatureLength(Fresh(VERSION1, next));
    RecordLines(r);
    BlankString(next);
  }

  lemma BlankString(start: int64)
    ensures RecordString(FreshRec(start))
         == StringOf(Fresh(VERSION1, start)) + [NEWLINE] + ([] + [NEWLINE] + [ZERO_DIGIT])
  {
    RecordLines(FreshRec(start));
  }

  lemma ThreeLines(first: Text, sig: Sig, chars: Text, count: Text, n: int64)
    requires NEWLINE !in first && NEWLINE !in chars && NEWLINE !in count
    requires ParseString(first) == Ok(sig) && Decimal.Atoi(count) == Some(n)
    ensures ParseRecord(first + [NEWLINE] + (chars + [NEWLINE] + count)) == Ok(Rec(sig, chars, n, 0))
  {
    SplitAtFirst(first, NEWLINE, chars + [NEWLINE] + count);
    SplitAtFirst(chars, NEWLINE, count);
    SplitWithout(count, NEWLINE);
  }

  lemma Appended(a: Text, b: Text, c: Text, d: Text)
    ensures a + b + ([] + b + c) + d == a + b + ([] + b + (c + d))
  {
  }

  lemma MisreadBlank(next: int64)
    ensures ParseRecord(RecordString(FreshRec(next)) + [ZERO_DIGIT + 1])
         == Ok(PrintedRec(FreshRec(next).(totalActions := 1)))
  {
    var sig, count := Fresh(VERSION1, next), [ZERO_DIGIT] + [ZERO_DIGIT + 1];
    BlankString(next);
    SplitString(sig);
    TextRoundTrip(sig);
    CountOfOne();
    ThreeLines(StringOf(sig), Printed(sig), [], count, 1);
    Appended(StringOf(sig), [NEWLINE], [ZERO_DIGIT], [ZERO_DIGIT + 1]);
  }

  lemma CountOfOne()
    ensures Decimal.Atoi([ZERO_DIGIT] + [ZERO_DIGIT + 1]) == Some(1)
  {
    var s: Text := [ZERO_DIGIT] + [ZERO_DIGIT + 1];
    assert s[..1] == [ZERO_DIGIT] && s[..1][..0] == [];
    assert Decimal.DigitsValue(s[..1]) == 0;
  }

  // A blank string over that of one key.
  lemma BlankOverKey(start: int64, t: Tick, x: byte, next: int64)
    requires t.now == start && t.event.KeyDown? && t.event.text == [x] && x != 0
    ensures var key := RecordString(RecordOf(WithEvent(Episode(start, true, []), t)));
            ParseRecord(Overwrite(key, RecordString(FreshRec(next))))
            == Ok(PrintedRec(FreshRec(next).(totalActions := 1)))
  {
    var key, blank := RecordString(RecordOf(WithEvent(Episode(start, true, []), t))), RecordString(FreshRec(next));
    FirstKey(start, t, x, next);
    assert key[|blank|..] == [ZERO_DIGIT + 1];
    MisreadBlank(next);
  }

  // A key that was flushed undisturbed, and nothing after it: the string a slower flush of the
  // same signature had taken before is stored over it, and in the retired file the character
  // typed is gone.
  lemma OlderStringMisleads(c: Config, files: Files, start: int64, t: Tick, x: byte, next: int64)
    requires t.now == start && t.event.KeyDown? && t.event.text == [x] && x != 0
    requires c.fileName(next) != c.fileName(start)
    ensures var p := Affiro(c);
            var moves := OlderLast(t) + [Replace(next, NoFaults)];
            var s := MakeAll(p, Begin(p, files, start), moves);
            && NeverStale(p, Begin(p, files, start), moves)
            && |s.entries| == 2 && s.entries[0].episode == WithEvent(Episode(start, true, []), t)
            && ParseRecord(FileOf(p, s, 0)) == Ok(PrintedRec(FreshRec(start).(totalActions := 1)))
  {
    var p := Affiro(c);
    OlderLastLeaves(p, files, start, t);
    ReplacedKeeps(p, Begin(p, files, start), OlderLast(t), next);
    BlankOverKey(start, t, x, start);
  }

  // After a single key, that is enough: the longer old string shows through the next flush,
  // which nothing disturbs, and the new record reads back with an action that never happened.
  lemma StaleStoreMisleads(c: Config, files: Files, start: int64, t: Tick, x: byte, next: int64)
    requires t.now == start && t.event.KeyDown? && t.event.text == [x] && x != 0
    ensures var p := Affiro(c);
            var s := MakeAll(p, Begin(p, files, start), Overtaken([] + [Record(0, t)], next));
            && Current(s) == Episode(next, true, [])
            && ParseRecord(CurrentFile(p, Flushed(p, s))) == Ok(PrintedRec(FreshRec(next).(totalActions := 1)))
  {
    var p, s0, none: seq<Move> := Affiro(c), Begin(Affiro(c), files, start), [];
    OneMove(p, s0, none, Record(0, t));
    var s1 := MakeAll(p, s0, none + [Record(0, t)]);
    OvertakenLeaves(p, s0, none + [Record(0, t)], s1, next);
    BlankOverKey(start, t, x, next);
    FlushedHolds(p, MakeAll(p, s0, Overtaken(none + [Record(0, t)], next)), RecordString(FreshRec(next)));
  }

  lemma FlushedHolds(p: Program, s: Shared, content: Text)
    requires s.entries != [] && s.isOpen && CurrentString(p, s) == content
    ensures CurrentFile(p, Flushed(p, s)) == Overwrite(CurrentFile(p, s), content)
  {
  }

  // ----- Older strings that do no harm -----

  lemma {:induction false} ClicksRecord(start: int64, n: nat)
    requires start != 0 && n <= MAX_INT64
    ensures RunRec(FreshRec(start), Copies(Tick(start, MouseUp), n))
         == Rec(Sig(VERSION1, start, start, [Min(2 * n, 126)]), [], n, CHAR_LIMIT)
  {
    if n > 0 {
      ClicksRecord(start, n - 1);
      var clicks := Copies(Tick(start, MouseUp), n);
      assert Init(clicks) == Copies(Tick(start, MouseUp), n - 1);
      var data: seq<byte> := [Min(2 * (n - 1), 126)];
      assert data + [] == data;
    }
  }

  function ClicksString(start: int64, n: nat): Text
    requires n <= MAX_INT64
  {
    RecordString(Rec(Sig(VERSION1, start, start, [126]), [], n, CHAR_LIMIT))
  }

  lemma DigitMore(n: nat)
    requires n > 0 && 10 * n <= MAX_INT64
    ensures Decimal.Itoa(10 * n) == Decimal.Itoa(n) + [ZERO_DIGIT]
  {
  }

  lemma LongerCount(start: int64, n: nat)
    requires n > 0 && 10 * n <= MAX_INT64
    ensures ClicksString(start, 10 * n) == ClicksString(start, n) + [ZERO_DIGIT]
  {
    var r := Rec(Sig(VERSION1, start, start, [126]), [], n, CHAR_LIMIT);
    RecordLines(r);
    RecordLines(r.(totalActions := 10 * n));
    DigitMore(n);
    Appended(StringOf(r.sig), [NEWLINE], Decimal.Itoa(n), [ZERO_DIGIT]);
  }

  // Once a window of clicks is full, ten times as many print as the same with a digit more.
  lemma TenTimesAsMany(start: int64, n: nat)
    requires start != 0 && 63 <= n && 10 * n <= MAX_INT64
    ensures var clicks := Episode(start, true, Copies(Tick(start, MouseUp), n));
            RecordString(RecordOf(clicks.(log := Copies(Tick(start, MouseUp), 10 * n))))
            == RecordString(RecordOf(clicks)) + [ZERO_DIGIT]
  {
    ClicksRecord(start, n);
    ClicksRecord(start, 10 * n);
    LongerCount(start, n);
  }

  // So an older string can be stored last and the file be exact all the same: that no event came
  // since is not necessary once the file is longer than what is stored.
  lemma OlderStringHarmless(c: Config, files: Files, start: int64, n: nat)
    requires start != 0 && 63 <= n && 10 * n <= MAX_INT64
    ensures var p, click := Affiro(c), Record(0, Tick(start, MouseUp));
            var moves := FlushedTwice([] + Copies(click, n) + [Take] + Copies(click, 9 * n));
            var s := MakeAll(p, Begin(p, files, start), moves);
            && NeverStale(p, Begin(p, files, start), moves)
            && |Current(s).log| == 10 * n && Last(s.entries).save == Upto(n, true)
            && CurrentFile(p, s) == RecordString(RecordOf(Current(s)))
  {
    var p, t := Affiro(c), Tick(start, MouseUp);
    var s := ManyClicksTaken(p, files, start, n);
    var moves := [] + Copies(Record(0, t), n) + [Take] + Copies(Record(0, t), 9 * n);
    FlushedTwiceLeaves(p, Begin(p, files, start), moves, s, s.pending[0]);
    TenTimesAsMany(start, n);
    var older, all := s.pending[0].content, CurrentString(p, s);
    OverwriteExact([], all);
    OverwriteLeaves(all, older, all);
  }

  lemma ManyClicksTaken(p: Program, files: Files, start: int64, n: nat) returns (s: Shared)
    ensures var t := Tick(start, MouseUp);
            var moves := [] + Copies(Record(0, t), n) + [Take] + Copies(Record(0, t), 9 * n);
            var clicks := Episode(start, true, Copies(t, n));
            && s == MakeAll(p, Begin(p, files, start), moves) && NeverStale(p, Begin(p, files, start), moves)
            && s.isOpen && s.entries == [Entry(clicks.(log := Copies(t, 10 * n)), Nothing)]
            && s.pending == [Snapshot(0, n, p.show(clicks))]
            && CurrentFile(p, s) == []
  {
    var t, s0, none: seq<Move> := Tick(start, MouseUp), Begin(p, files, start), [];
    RecordedOften(p, s0, none, s0, t, n);
    RecordsNeverStale(p, s0, none, t, n);
    assert [] + Copies(t, n) == Copies(t, n);
    var typed := none + Copies(Record(0, t), n);
    OneMove(p, s0, typed, Take);
    var s1 := MakeAll(p, s0, typed + [Take]);
    RecordedOften(p, s0, typed + [Take], s1, t, 9 * n);
    RecordsNeverStale(p, s0, typed + [Take], t, 9 * n);
    assert Copies(t, n) + Copies(t, 9 * n) == Copies(t, 10 * n);
    s := MakeAll(p, s0, typed + [Take] + Copies(Record(0, t), 9 * n));
  }
}
