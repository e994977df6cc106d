// Flushes that overlap: a flush takes the current string first and writes it into whatever file
// is current later; events, other flushes and resets can come in between, and every step can be
// refused. What a signature prints as is left open here.
module Races {
  import opened Words
  import opened Signatures
  import opened Timeline
  import opened Sessions
  import opened Histories

  // What was last stored in a signature's file: the string of its first events, whole or cut
  // short.
  datatype Save = Nothing | Upto(count: nat, whole: bool)

  datatype Entry = Entry(episode: Episode, save: Save)

  // A string taken to be flushed, the signature it was taken from, and how many events that had.
  datatype Snapshot = Snapshot(of: nat, count: nat, content: Text)

  // The files, whether the current one is still open, the signatures so far, the current one last,
  // and the flushes under way.
  datatype Shared = Shared(files: Files, isOpen: bool, entries: seq<Entry>, pending: seq<Snapshot>)

  // An event may still go to the signature that was current when its write began.
  datatype Move =
    | Record(of: nat, tick: Tick)
    | Take
    | Store(pending: nat, faults: Faults)
    | Replace(start: int64, faults: Faults)

  // Where a signature's file is and what it should hold.
  datatype Program = Program(fileName: int64 -> Text, show: Episode -> Text)

  function Current(s: Shared): Episode
    requires s.entries != []
  {
    Last(s.entries).episode
  }

  function CurrentString(p: Program, s: Shared): Text
    requires s.entries != []
  {
    p.show(Current(s))
  }

  function FileOf(p: Program, s: Shared, i: nat): Text
    requires i < |s.entries|
  {
    Content(s.files, p.fileName(s.entries[i].episode.start))
  }

  function CurrentFile(p: Program, s: Shared): Text
    requires s.entries != []
  {
    FileOf(p, s, |s.entries| - 1)
  }

  function WithEvent(e: Episode, t: Tick): Episode { e.(log := e.log + [t]) }

  // A signature as it was after its first n events.
  function Prefix(e: Episode, n: nat): Episode
    requires n <= |e.log|
  {
    e.(log := e.log[..n])
  }

  function Recorded(s: Shared, i: nat, t: Tick): Shared
    requires i < |s.entries|
  {
    s.(entries := s.entries[i := s.entries[i].(episode := WithEvent(s.entries[i].episode, t))])
  }

  function Taken(p: Program, s: Shared): Shared
    requires s.entries != []
  {
    s.(pending := s.pending + [Snapshot(|s.entries| - 1, |Current(s).log|, CurrentString(p, s))])
  }

  // What a store writes: everything, or the part before it was cut short.
  function WrittenPart(x: Snapshot, f: Faults): Text {
    match f.write
    case None => x.content
    case Some(n) => x.content[..Min(n, |x.content|)]
  }

  function Stored(p: Program, s: Shared, x: Snapshot, f: Faults): Shared
    requires s.entries != []
  {
    if !s.isOpen || f.seek then s
    else
      s.(files := s.files[p.fileName(Current(s).start) := Overwrite(CurrentFile(p, s), WrittenPart(x, f))],
         entries := Init(s.entries) + [Last(s.entries).(save := Upto(x.count, f.write.None?))])
  }

  // A handle that was closed, well or not, is not closed again without an error.
  function Replaced(p: Program, s: Shared, start: int64, f: Faults): Shared {
    if !s.isOpen || f.close then s.(isOpen := false)
    else
      var next := s.(isOpen := !f.create,
                     entries := s.entries + [Entry(Episode(start, !f.create, []), Nothing)]);
      if f.create then next else next.(files := s.files[p.fileName(start) := []])
  }

  function MakeMove(p: Program, s: Shared, m: Move): (s': Shared)
    requires s.entries != []
    ensures s'.entries != []
  {
    match m
    case Record(i, t) => if i < |s.entries| then Recorded(s, i, t) else s
    case Take => Taken(p, s)
    case Store(k, f) =>
      if k >= |s.pending| then s
      else Stored(p, s, s.pending[k], f).(pending := s.pending[..k] + s.pending[k + 1..])
    case Replace(start, f) => Replaced(p, s, start, f)
  }

  function Begin(p: Program, files: Files, start: int64): Shared {
    Shared(files[p.fileName(start) := []], true, [Entry(Episode(start, true, []), Nothing)], [])
  }

  function MakeAll(p: Program, s: Shared, moves: seq<Move>): (s': Shared)
    requires s.entries != []
    ensures s'.entries != []
  {
    if moves == [] then s else MakeMove(p, MakeAll(p, s, Init(moves)), Last(moves))
  }

  // ----- Snapshots -----

  // A snapshot is the string that its signature had.
  ghost predicate Honest(p: Program, entries: seq<Entry>, x: Snapshot) {
    && x.of < |entries| && x.count <= |entries[x.of].episode.log|
    && x.content == p.show(Prefix(entries[x.of].episode, x.count))
  }

  ghost predicate AllHonest(p: Program, s: Shared) {
    s.entries != [] && forall k :: 0 <= k < |s.pending| ==> Honest(p, s.entries, s.pending[k])
  }

  // Every signature is an extension of what it was.
  ghost predicate Extends(before: seq<Entry>, after: seq<Entry>) {
    && |before| <= |after|
    && forall i :: 0 <= i < |before| ==>
         var e, e' := before[i].episode, after[i].episode;
         e.start == e'.start && e.created == e'.created && e.log <= e'.log
  }

  lemma MoveExtends(p: Program, s: Shared, m: Move)
    requires s.entries != []
    ensures Extends(s.entries, MakeMove(p, s, m).entries)
  {
  }

  lemma StaysHonest(p: Program, before: seq<Entry>, after: seq<Entry>, x: Snapshot)
    requires Honest(p, before, x) && Extends(before, after)
    ensures Honest(p, after, x)
  {
    var e, e' := before[x.of].episode, after[x.of].episode;
    assert e.log[..x.count] == e'.log[..x.count];
  }

  lemma MoveHonest(p: Program, s: Shared, m: Move)
    requires AllHonest(p, s)
    ensures AllHonest(p, MakeMove(p, s, m))
  {
    var s' := MakeMove(p, s, m);
    MoveExtends(p, s, m);
    forall k | 0 <= k < |s'.pending|
      ensures Honest(p, s'.entries, s'.pending[k])
    {
      if s'.pending[k] in s.pending {
        StaysHonest(p, s.entries, s'.entries, s'.pending[k]);
      } else {
        assert Prefix(Current(s), |Current(s).log|) == Current(s);
      }
    }
  }

  lemma {:induction false} RunHonest(p: Program, files: Files, start: int64, moves: seq<Move>)
    ensures AllHonest(p, MakeAll(p, Begin(p, files, start), moves))
  {
    if moves != [] {
      RunHonest(p, files, start, Init(moves));
      MoveHonest(p, MakeAll(p, Begin(p, files, start), Init(moves)), Last(moves));
    }
  }

  // No signature has more than n events.
  ghost predicate Short(entries: seq<Entry>, n: nat) {
    forall i :: 0 <= i < |entries| ==> |entries[i].episode.log| <= n
  }

  lemma MoveShort(p: Program, s: Shared, m: Move, n: nat)
    requires s.entries != [] && Short(s.entries, n)
    ensures Short(MakeMove(p, s, m).entries, n + 1)
  {
  }

  lemma {:induction false} RunShort(p: Program, s: Shared, moves: seq<Move>, n: nat)
    requires s.entries != [] && Short(s.entries, n)
    ensures Short(MakeAll(p, s, moves).entries, n + |moves|)
  {
    if moves != [] {
      RunShort(p, s, Init(moves), n);
      MoveShort(p, MakeAll(p, s, Init(moves)), Last(moves), n + |moves| - 1);
    }
  }

  lemma BeginShort(p: Program, files: Files, start: int64)
    ensures Short(Begin(p, files, start).entries, 0)
  {
  }

  lemma RunSound(p: Program, files: Files, start: int64, moves: seq<Move>)
    ensures AllHonest(p, MakeAll(p, Begin(p, files, start), moves))
    ensures Short(MakeAll(p, Begin(p, files, start), moves).entries, |moves|)
  {
    RunHonest(p, files, start, moves);
    BeginShort(p, files, start);
    RunShort(p, Begin(p, files, start), moves, 0);
  }

  // An event never makes the string shorter.
  ghost predicate Grows(p: Program) {
    forall e: Episode, t: Tick :: |e.log| < MAX_INT64 ==> |p.show(e)| <= |p.show(WithEvent(e, t))|
  }

  lemma {:induction false} PrefixGrows(p: Program, e: Episode, m: nat, n: nat)
    requires Grows(p) && m <= n <= |e.log| <= MAX_INT64
    ensures |p.show(Prefix(e, m))| <= |p.show(Prefix(e, n))|
  {
    if m < n {
      PrefixGrows(p, e, m, n - 1);
      assert Prefix(e, n) == WithEvent(Prefix(e, n - 1), e.log[n - 1]);
    }
  }

  // ----- Strings in the wrong file -----

  // Whether a move writes to a file.
  predicate Reaches(s: Shared, m: Move) {
    m.Store? && m.pending < |s.pending| && s.isOpen && !m.faults.seek
  }

  // Whether a move writes a string into the file of another signature than it was taken from.
  predicate Stale(s: Shared, m: Move) { Reaches(s, m) && s.pending[m.pending].of != |s.entries| - 1 }

  predicate NeverStale(p: Program, s: Shared, moves: seq<Move>)
    requires s.entries != []
  {
    moves == [] || (NeverStale(p, s, Init(moves)) && !Stale(MakeAll(p, s, Init(moves)), Last(moves)))
  }

  // An open file is never longer than the current string.
  ghost predicate Fits(p: Program, s: Shared) {
    s.entries != [] && (s.isOpen ==> |CurrentFile(p, s)| <= |CurrentString(p, s)|)
  }

  lemma RecordFits(p: Program, s: Shared, i: nat, t: Tick)
    requires Grows(p) && Fits(p, s) && i < |s.entries| && |s.entries[i].episode.log| < MAX_INT64
    ensures Fits(p, Recorded(s, i, t))
  {
    var last, last' := Current(s), Current(Recorded(s, i, t));
    assert last' == if i == |s.entries| - 1 then WithEvent(last, t) else last;
  }

  lemma StoreFits(p: Program, s: Shared, x: Snapshot, f: Faults)
    requires Grows(p) && Fits(p, s) && |Current(s).log| <= MAX_INT64
    requires s.isOpen && !f.seek ==> Honest(p, s.entries, x) && x.of == |s.entries| - 1
    ensures Fits(p, Stored(p, s, x, f))
  {
    if s.isOpen && !f.seek {
      PrefixGrows(p, Current(s), x.count, |Current(s).log|);
      assert Prefix(Current(s), |Current(s).log|) == Current(s);
      assert Current(Stored(p, s, x, f)) == Current(s);
    }
  }

  lemma MoveFits(p: Program, s: Shared, m: Move)
    requires Grows(p) && Fits(p, s) && AllHonest(p, s) && Short(s.entries, MAX_INT64 - 1)
    requires !Stale(s, m)
    ensures Fits(p, MakeMove(p, s, m))
  {
    match m
    case Record(i, t) =>
      if i < |s.entries| {
        RecordFits(p, s, i, t);
      }
    case Take =>
    case Store(k, f) =>
      if k < |s.pending| {
        StoreFits(p, s, s.pending[k], f);
      }
    case Replace(_, _) =>
  }

  // However flushes, events and resets overlap and fail, as long as no string is written into the
  // file of a later signature, an open file never outgrows the current string.
  lemma {:induction false} OverlapsFit(p: Program, files: Files, start: int64, moves: seq<Move>)
    requires Grows(p) && |moves| <= MAX_INT64 && NeverStale(p, Begin(p, files, start), moves)
    ensures Fits(p, MakeAll(p, Begin(p, files, start), moves))
  {
    if moves != [] {
      OverlapsFit(p, files, start, Init(moves));
      RunSound(p, files, start, Init(moves));
      MoveFits(p, MakeAll(p, Begin(p, files, start), Init(moves)), Last(moves));
    }
  }

  function Flushed(p: Program, s: Shared): (s': Shared)
    requires s.entries != []
    ensures s'.entries != []
  {
    MakeMove(p, MakeMove(p, s, Take), Store(|s.pending|, NoFaults))
  }

  // A flush that nothing interrupts or refuses is exact exactly when the file had not outgrown
  // the string.
  lemma FlushedExactly(p: Program, s: Shared)
    requires s.entries != [] && s.isOpen
    ensures Current(Flushed(p, s)) == Current(s) && Flushed(p, s).pending == s.pending
    ensures CurrentFile(p, Flushed(p, s)) == CurrentString(p, s) <==> |CurrentFile(p, s)| <= |CurrentString(p, s)|
  {
    OverwriteExact(CurrentFile(p, s), CurrentString(p, s));
  }

  // ----- The last store -----

  // Nothing is stored in signature i's file any more, and no new one takes its name.
  predicate LeftAlone(p: Program, s: Shared, i: nat, moves: seq<Move>)
    requires i < |s.entries|
  {
    moves == [] ||
    (var before, m, name := MakeAll(p, s, Init(moves)), Last(moves), p.fileName(s.entries[i].episode.start);
     && LeftAlone(p, s, i, Init(moves))
     && (Reaches(before, m) ==> p.fileName(Current(before).start) != name)
     && (Creates(before, m) ==> p.fileName(m.start) != name))
  }

  // Whether a move creates a file.
  predicate Creates(s: Shared, m: Move) { m.Replace? && s.isOpen && !m.faults.close && !m.faults.create }

  lemma {:induction false} WhileLeftAlone(p: Program, s: Shared, i: nat, moves: seq<Move>)
    requires i < |s.entries| && LeftAlone(p, s, i, moves)
    ensures var s' := MakeAll(p, s, moves);
            Extends(s.entries, s'.entries) && FileOf(p, s', i) == FileOf(p, s, i)
  {
    if moves != [] {
      var before := MakeAll(p, s, Init(moves));
      WhileLeftAlone(p, s, i, Init(moves));
      MoveExtends(p, before, Last(moves));
      OtherFile(p, before, Last(moves), s.entries[i].episode.start);
    }
  }

  lemma OtherFile(p: Program, s: Shared, m: Move, start: int64)
    requires s.entries != []
    requires Reaches(s, m) ==> p.fileName(Current(s).start) != p.fileName(start)
    requires Creates(s, m) ==> p.fileName(m.start) != p.fileName(start)
    ensures Content(MakeMove(p, s, m).files, p.fileName(start)) == Content(s.files, p.fileName(start))
  {
  }

  // Writing x over b without truncating leaves y exactly when y starts with x and goes on like b.
  lemma OverwriteLeaves(b: Text, x: Text, y: Text)
    ensures Overwrite(b, x) == y <==> x <= y && y[|x|..] == b[Min(|x|, |b|)..]
  {
    if x <= y {
      assert y == x + y[|x|..];
    }
  }

  // The string tells how many events there were.
  ghost predicate Tells(p: Program) {
    forall e: Episode, n: nat :: n <= |e.log| <= MAX_INT64 ==>
      (p.show(Prefix(e, n)) == p.show(e) <==> n == |e.log|)
  }

  // A store that is refused nothing but perhaps the end of its string, and the last into its file.
  predicate LastStore(p: Program, s: Shared, k: nat, f: Faults, moves: seq<Move>)
    requires s.entries != []
  {
    && Reaches(s, Store(k, f))
    && var s' := MakeMove(p, s, Store(k, f));
       |s'.entries| == |s.entries| && LeftAlone(p, s', |s.entries| - 1, moves)
  }

  // What the file of signature i is worth in the end: it is exact exactly when the final string
  // starts with what was stored and goes on like the file before; if that was no longer, exactly
  // when the string was stored whole and no event came after it was taken.
  ghost predicate DecidedBy(p: Program, s: Shared, k: nat, f: Faults, s': Shared)
    requires s.entries != [] && k < |s.pending|
  {
    var i, x, b := |s.entries| - 1, s.pending[k], CurrentFile(p, s);
    && i < |s'.entries|
    && var final, part := s'.entries[i].episode, WrittenPart(x, f);
       && (FileOf(p, s', i) == p.show(final)
           <==> part <= p.show(final) && p.show(final)[|part|..] == b[Min(|part|, |b|)..])
       && (x.of == i && |b| <= |part| ==>
             (FileOf(p, s', i) == p.show(final) <==> part == x.content && |final.log| == x.count))
  }

  lemma StoreDecides(p: Program, s: Shared, k: nat, f: Faults, moves: seq<Move>, n: nat)
    requires Grows(p) && Tells(p) && AllHonest(p, s) && LastStore(p, s, k, f, moves)
    requires Short(s.entries, n) && n + 1 + |moves| <= MAX_INT64
    ensures DecidedBy(p, s, k, f, MakeAll(p, MakeMove(p, s, Store(k, f)), moves))
  {
    var stored, i := MakeMove(p, s, Store(k, f)), |s.entries| - 1;
    var s' := MakeAll(p, stored, moves);
    MoveShort(p, s, Store(k, f), n);
    RunShort(p, stored, moves, n + 1);
    WhileLeftAlone(p, stored, i, moves);
    MoveExtends(p, s, Store(k, f));
    var e, final, x, b := s.entries[i].episode, s'.entries[i].episode, s.pending[k], CurrentFile(p, s);
    assert FileOf(p, s', i) == Overwrite(b, WrittenPart(x, f));
    OverwriteLeaves(b, WrittenPart(x, f), p.show(final));
    if x.of == i && |b| <= |WrittenPart(x, f)| {
      assert Honest(p, s.entries, x);
      StoredExactly(p, final, e, x, f, b);
    }
  }

  lemma StoredExactly(p: Program, final: Episode, e: Episode, x: Snapshot, f: Faults, b: Text)
    requires Grows(p) && Tells(p)
    requires x.count <= |e.log| <= |final.log| <= MAX_INT64
    requires e.start == final.start && e.created == final.created && e.log <= final.log
    requires x.content == p.show(Prefix(e, x.count))
    requires |b| <= |WrittenPart(x, f)|
    ensures Overwrite(b, WrittenPart(x, f)) == p.show(final)
       <==> WrittenPart(x, f) == x.content && |final.log| == x.count
  {
    assert e.log[..x.count] == final.log[..x.count];
    assert Prefix(final, x.count) == Prefix(e, x.count);
    PrefixGrows(p, final, x.count, |final.log|);
    assert Prefix(final, |final.log|) == final;
    OverwriteExact(b, WrittenPart(x, f));
    assert |WrittenPart(x, f)| == |x.content| ==> WrittenPart(x, f) == x.content;
  }

  // ----- Stores in order -----

  // Whether a move stores a string in another signature's file, or one that was taken when the
  // signature had fewer events than the string stored last.
  predicate Disorderly(s: Shared, m: Move)
    requires s.entries != []
  {
    && Reaches(s, m)
    && var x, save := s.pending[m.pending], Last(s.entries).save;
       x.of != |s.entries| - 1 || (save.Upto? && x.count < save.count)
  }

  predicate NeverDisorderly(p: Program, s: Shared, moves: seq<Move>)
    requires s.entries != []
  {
    moves == [] ||
    (NeverDisorderly(p, s, Init(moves)) && !Disorderly(MakeAll(p, s, Init(moves)), Last(moves)))
  }

  // No signature after i was created under its name.
  ghost predicate Alone(p: Program, entries: seq<Entry>, i: nat)
    requires i < |entries|
  {
    forall j :: i < j < |entries| && entries[j].episode.created ==>
      p.fileName(entries[j].episode.start) != p.fileName(entries[i].episode.start)
  }

  // A file holds the string that was last stored in it, or no more than that if it was cut short.
  ghost predicate HoldsSave(p: Program, e: Entry, file: Text) {
    match e.save
    case Nothing => file == []
    case Upto(n, whole) =>
      && n <= |e.episode.log|
      && |file| <= |p.show(Prefix(e.episode, n))|
      && (whole ==> file == p.show(Prefix(e.episode, n)))
  }

  ghost predicate Backed(p: Program, s: Shared) {
    && s.entries != []
    && (s.isOpen ==> Last(s.entries).episode.created)
    && forall i :: 0 <= i < |s.entries| && s.entries[i].episode.created && Alone(p, s.entries, i) ==>
         HoldsSave(p, s.entries[i], FileOf(p, s, i))
  }

  lemma RecordHolds(p: Program, e: Entry, t: Tick, file: Text)
    requires HoldsSave(p, e, file)
    ensures HoldsSave(p, e.(episode := WithEvent(e.episode, t)), file)
  {
    if e.save.Upto? {
      assert Prefix(WithEvent(e.episode, t), e.save.count).log == e.episode.log[..e.save.count];
    }
  }

  lemma RecordBacked(p: Program, s: Shared, k: nat, t: Tick)
    requires Backed(p, s) && k < |s.entries|
    ensures Backed(p, Recorded(s, k, t))
  {
    var s' := Recorded(s, k, t);
    forall i | 0 <= i < |s'.entries| && s'.entries[i].episode.created && Alone(p, s'.entries, i)
      ensures HoldsSave(p, s'.entries[i], FileOf(p, s', i))
    {
      assert Extends(s.entries, s'.entries);
      assert forall j :: i < j < |s.entries| ==> s'.entries[j].episode.start == s.entries[j].episode.start;
      assert Alone(p, s.entries, i);
      if i == k {
        RecordHolds(p, s.entries[i], t, FileOf(p, s, i));
      }
    }
  }

  // Storing a string over what the file holds of an earlier one.
  lemma StoreHolds(p: Program, e: Entry, file: Text, x: Snapshot, f: Faults)
    requires Grows(p) && HoldsSave(p, e, file) && |e.episode.log| <= MAX_INT64
    requires x.count <= |e.episode.log| && x.content == p.show(Prefix(e.episode, x.count))
    requires e.save.Upto? ==> e.save.count <= x.count
    ensures HoldsSave(p, e.(save := Upto(x.count, f.write.None?)), Overwrite(file, WrittenPart(x, f)))
  {
    if e.save.Upto? {
      PrefixGrows(p, e.episode, e.save.count, x.count);
    }
    OverwriteExact(file, x.content);
  }

  lemma StoreBacked(p: Program, s: Shared, x: Snapshot, f: Faults)
    requires Grows(p) && Backed(p, s) && s.isOpen && !f.seek && |Current(s).log| <= MAX_INT64
    requires Honest(p, s.entries, x) && x.of == |s.entries| - 1
    requires Last(s.entries).save.Upto? ==> Last(s.entries).save.count <= x.count
    ensures Backed(p, Stored(p, s, x, f))
  {
    var s', n := Stored(p, s, x, f), |s.entries| - 1;
    assert Alone(p, s.entries, n);
    StoreHolds(p, s.entries[n], CurrentFile(p, s), x, f);
    forall i | 0 <= i < n && s'.entries[i].episode.created && Alone(p, s'.entries, i)
      ensures HoldsSave(p, s'.entries[i], FileOf(p, s', i))
    {
      assert s'.entries[n].episode == s.entries[n].episode;
      assert forall j :: 0 <= j < n ==> s'.entries[j] == s.entries[j];
      assert Alone(p, s.entries, i);
    }
  }

  lemma ReplaceBacked(p: Program, s: Shared, start: int64, f: Faults)
    requires Backed(p, s)
    ensures Backed(p, Replaced(p, s, start, f))
  {
    var s', n := Replaced(p, s, start, f), |s.entries|;
    if |s'.entries| > n {
      forall i | 0 <= i < n && s'.entries[i].episode.created && Alone(p, s'.entries, i)
        ensures HoldsSave(p, s'.entries[i], FileOf(p, s', i))
      {
        assert forall j :: 0 <= j < n ==> s'.entries[j] == s.entries[j];
        assert Alone(p, s.entries, i);
        assert s'.entries[n].episode.created ==> p.fileName(start) != p.fileName(s.entries[i].episode.start);
      }
    }
  }

  // Over any run whose stores come in order, each into its own signature's file, every file whose
  // name was not taken again holds the string last stored in it.
  lemma {:induction false} StoresBack(p: Program, files: Files, start: int64, moves: seq<Move>)
    requires Grows(p) && |moves| <= MAX_INT64 && NeverDisorderly(p, Begin(p, files, start), moves)
    ensures Backed(p, MakeAll(p, Begin(p, files, start), moves))
  {
    if moves != [] {
      var s := MakeAll(p, Begin(p, files, start), Init(moves));
      StoresBack(p, files, start, Init(moves));
      RunSound(p, files, start, Init(moves));
      match Last(moves)
      case Record(i, t) =>
        if i < |s.entries| {
          RecordBacked(p, s, i, t);
        }
      case Take =>
      case Store(k, f) =>
        if k < |s.pending| && s.isOpen && !f.seek {
          StoreBacked(p, s, s.pending[k], f);
        }
      case Replace(next, f) => ReplaceBacked(p, s, next, f);
    }
  }

  // ----- Short runs -----

  lemma OneMove(p: Program, s: Shared, moves: seq<Move>, m: Move)
    requires s.entries != []
    ensures MakeAll(p, s, moves + [m]) == MakeMove(p, MakeAll(p, s, moves), m)
    ensures NeverStale(p, s, moves + [m]) <==> NeverStale(p, s, moves) && !Stale(MakeAll(p, s, moves), m)
    ensures NeverDisorderly(p, s, moves + [m])
       <==> NeverDisorderly(p, s, moves) && !Disorderly(MakeAll(p, s, moves), m)
  {
    assert Init(moves + [m]) == moves;
  }

  // An event comes between a flush's taking its string and storing it.
  function InBetween(t: Tick): seq<Move> { [] + [Take] + [Record(0, t)] + [Store(0, NoFaults)] }

  lemma InBetweenLeaves(p: Program, files: Files, start: int64, t: Tick)
    ensures var s, blank := MakeAll(p, Begin(p, files, start), InBetween(t)), Episode(start, true, []);
            && NeverDisorderly(p, Begin(p, files, start), InBetween(t))
            && s.isOpen && s.entries == [Entry(WithEvent(blank, t), Upto(0, true))]
            && CurrentFile(p, s) == p.show(blank)
  {
    var s0, none: seq<Move> := Begin(p, files, start), [];
    OneMove(p, s0, none, Take);
    OneMove(p, s0, none + [Take], Record(0, t));
    OneMove(p, s0, none + [Take] + [Record(0, t)], Store(0, NoFaults));
    OverwriteExact([], p.show(Episode(start, true, [])));
  }

  // With one flush under way: another one goes through undisturbed, then its string is stored.
  function FlushedTwice(moves: seq<Move>): seq<Move> {
    moves + [Take] + [Store(1, NoFaults)] + [Store(0, NoFaults)]
  }

  lemma FlushedTwiceLeaves(p: Program, s0: Shared, moves: seq<Move>, s: Shared, x: Snapshot)
    requires s0.entries != [] && NeverStale(p, s0, moves) && s == MakeAll(p, s0, moves)
    requires s.isOpen && s.pending == [x] && x.of == |s.entries| - 1
    ensures var s' := MakeAll(p, s0, FlushedTwice(moves));
            && NeverStale(p, s0, FlushedTwice(moves))
            && s'.isOpen && |s'.entries| == |s.entries| && Current(s') == Current(s)
            && Last(s'.entries).save == Upto(x.count, true)
            && CurrentFile(p, s') == Overwrite(Overwrite(CurrentFile(p, s), CurrentString(p, s)), x.content)
  {
    OneMove(p, s0, moves, Take);
    OneMove(p, s0, moves + [Take], Store(1, NoFaults));
    OneMove(p, s0, moves + [Take] + [Store(1, NoFaults)], Store(0, NoFaults));
    var y := Snapshot(|s.entries| - 1, |Current(s).log|, CurrentString(p, s));
    assert [x, y][..1] + [x, y][2..] == [x];
  }

  // A flush takes its string, an event comes and is flushed undisturbed, and then the first string
  // is stored.
  function OlderLast(t: Tick): seq<Move> { FlushedTwice([] + [Take] + [Record(0, t)]) }

  lemma OlderLastLeaves(p: Program, files: Files, start: int64, t: Tick)
    ensures var s, blank := MakeAll(p, Begin(p, files, start), OlderLast(t)), Episode(start, true, []);
            && NeverStale(p, Begin(p, files, start), OlderLast(t))
            && s.isOpen && |s.entries| == 1 && Current(s) == WithEvent(blank, t)
            && CurrentFile(p, s) == Overwrite(p.show(WithEvent(blank, t)), p.show(blank))
  {
    var s0, none: seq<Move> := Begin(p, files, start), [];
    OneMove(p, s0, none, Take);
    OneMove(p, s0, none + [Take], Record(0, t));
    var s := MakeAll(p, s0, none + [Take] + [Record(0, t)]);
    FlushedTwiceLeaves(p, s0, none + [Take] + [Record(0, t)], s, s.pending[0]);
    OverwriteExact([], p.show(WithEvent(Episode(start, true, []), t)));
  }

  // A flush takes its string, a reset runs from start to end, and then the string is stored, in
  // the new file.
  function Overtaken(moves: seq<Move>, next: int64): seq<Move> {
    moves + [Take] + [Take] + [Store(1, NoFaults)] + [Replace(next, NoFaults)] + [Store(0, NoFaults)]
  }

  lemma BothTaken(p: Program, s: Shared, x: Snapshot)
    requires s.entries != [] && s.isOpen && s.pending == []
    requires x == Snapshot(|s.entries| - 1, |Current(s).log|, CurrentString(p, s))
    ensures var s' := MakeMove(p, MakeMove(p, MakeMove(p, s, Take), Take), Store(1, NoFaults));
            s'.isOpen && s'.pending == [x]
  {
    assert MakeMove(p, s, Take).pending == [x];
    assert MakeMove(p, MakeMove(p, s, Take), Take).pending == [x, x];
    assert [x, x][..1] + [x, x][2..] == [x];
  }

  lemma StoredAnew(p: Program, s: Shared, next: int64, x: Snapshot)
    requires s.entries != [] && s.isOpen && s.pending == [x]
    ensures var s' := MakeMove(p, MakeMove(p, s, Replace(next, NoFaults)), Store(0, NoFaults));
            s'.isOpen && Current(s') == Episode(next, true, []) && CurrentFile(p, s') == x.content
  {
    assert CurrentFile(p, Replaced(p, s, next, NoFaults)) == [];
    OverwriteExact([], x.content);
  }

  lemma TwoMoves(p: Program, s0: Shared, moves: seq<Move>, a: Move, b: Move)
    requires s0.entries != []
    ensures MakeAll(p, s0, moves + [a] + [b]) == MakeMove(p, MakeMove(p, MakeAll(p, s0, moves), a), b)
  {
    OneMove(p, s0, moves, a);
    OneMove(p, s0, moves + [a], b);
  }

  lemma OvertakenLeaves(p: Program, s0: Shared, moves: seq<Move>, s: Shared, next: int64)
    requires s0.entries != [] && s == MakeAll(p, s0, moves) && s.isOpen && s.pending == []
    ensures var s' := MakeAll(p, s0, Overtaken(moves, next));
            && s'.isOpen && Current(s') == Episode(next, true, [])
            && CurrentFile(p, s') == CurrentString(p, s)
  {
    var x := Snapshot(|s.entries| - 1, |Current(s).log|, CurrentString(p, s));
    var taken := moves + [Take] + [Take];
    BothTaken(p, s, x);
    TwoMoves(p, s0, moves, Take, Take);
    OneMove(p, s0, taken, Store(1, NoFaults));
    StoredAnew(p, MakeAll(p, s0, taken + [Store(1, NoFaults)]), next, x);
    TwoMoves(p, s0, taken + [Store(1, NoFaults)], Replace(next, NoFaults), Store(0, NoFaults));
  }

  // A signature just replaced keeps the file it had.
  lemma ReplacedKeeps(p: Program, s0: Shared, moves: seq<Move>, next: int64)
    requires s0.entries != [] && MakeAll(p, s0, moves).isOpen
    requires p.fileName(next) != p.fileName(Current(MakeAll(p, s0, moves)).start)
    ensures var s, s' := MakeAll(p, s0, moves), MakeAll(p, s0, moves + [Replace(next, NoFaults)]);
            && |s'.entries| == |s.entries| + 1
            && s'.entries[|s.entries| - 1] == Last(s.entries)
            && FileOf(p, s', |s.entries| - 1) == CurrentFile(p, s)
            && (NeverStale(p, s0, moves + [Replace(next, NoFaults)]) <==> NeverStale(p, s0, moves))
            && (NeverDisorderly(p, s0, moves + [Replace(next, NoFaults)]) <==> NeverDisorderly(p, s0, moves))
  {
    OneMove(p, s0, moves, Replace(next, NoFaults));
  }

  // ----- Many events -----

  function Copies<T>(x: T, n: nat): seq<T> { seq(n, _ => x) }

  lemma {:induction false} RecordedOften(p: Program, s0: Shared, moves: seq<Move>, s: Shared, t: Tick, n: nat)
    requires s0.entries != [] && s == MakeAll(p, s0, moves) && |s.entries| == 1
    ensures MakeAll(p, s0, moves + Copies(Record(0, t), n)) == Typed(s, t, n)
  {
    if n == 0 {
      assert moves + Copies(Record(0, t), 0) == moves;
      assert s.entries[0].episode.log + Copies(t, 0) == s.entries[0].episode.log;
    } else {
      var fewer := moves + Copies(Record(0, t), n - 1);
      RecordedOften(p, s0, moves, s, t, n - 1);
      OneMove(p, s0, fewer, Record(0, t));
      assert moves + Copies(Record(0, t), n) == fewer + [Record(0, t)];
      OneMoreTyped(s, t, n);
    }
  }

  function Typed(s: Shared, t: Tick, n: nat): Shared
    requires |s.entries| == 1
  {
    var e := s.entries[0].episode;
    s.(entries := [s.entries[0].(episode := e.(log := e.log + Copies(t, n)))])
  }

  lemma OneMoreTyped(s: Shared, t: Tick, n: nat)
    requires |s.entries| == 1 && n > 0
    ensures Recorded(Typed(s, t, n - 1), 0, t) == Typed(s, t, n)
  {
    var log := s.entries[0].episode.log;
    assert log + Copies(t, n - 1) + [t] == log + Copies(t, n);
  }

  lemma {:induction false} RecordsNeverStale(p: Program, s0: Shared, moves: seq<Move>, t: Tick, n: nat)
    requires s0.entries != [] && NeverStale(p, s0, moves)
    ensures NeverStale(p, s0, moves + Copies(Record(0, t), n))
  {
    if n == 0 {
      assert moves + Copies(Record(0, t), 0) == moves;
    } else {
      var fewer := moves + Copies(Record(0, t), n - 1);
      RecordsNeverStale(p, s0, moves, t, n - 1);
      OneMove(p, s0, fewer, Record(0, t));
      assert moves + Copies(Record(0, t), n) == fewer + [Record(0, t)];
    }
  }
}
