// The recording session: events go into the current record, which is flushed to its file from
// time to time and retired, for a new record in a new file, by a timer, by hand or after five
// idle minutes.
module Sessions {
  import opened Words
  import opened Events
  import opened Signatures
  import opened Records
  import opened Recents

  const IDLE_TIMEOUT := 300_000_000_000

  // One reading of the clock: the wall clock, which signatures record, and the monotonic clock,
  // which measures idleness.
  datatype Clock = Clock(wall: instant, mono: int)

  function Unix(now: Clock): (second: int64)
    ensures second > 0
  {
    Seconds(now.wall)
  }

  // An open file is always written from its first byte on.
  datatype Handle = Handle(name: Text, isOpen: bool)

  datatype IoError = Rewinding | Writing | Closing | Creating

  // What the operating system refuses during one call; a failed write may still have written
  // some bytes.
  datatype Faults = Faults(seek: bool, write: Option<nat>, close: bool, create: bool)

  const NoFaults := Faults(false, None, false, false)

  type Files = map<Text, Text>

  datatype Session = Session(
    files: Files, cur: Option<Handle>, sig: Option<Rec>,
    lastEventAt: int, startTime: int, resetAt: int)

  // Where and how long: the file name of a signature's start second, in the directory and time
  // zone the program runs in, and the time between timed resets.
  datatype Config = Config(fileName: int64 -> Text, resetDuration: int)

  function Content(files: Files, name: Text): Text { if name in files then files[name] else [] }

  // Writing from the start without truncating.
  function Overwrite(before: Text, content: Text): Text {
    content + before[Min(|content|, |before|)..]
  }

  function Refreshed(s: Session, f: Faults): (Session, Option<IoError>) {
    match (s.sig, s.cur)
    case (None, _) => (s, None)
    case (_, None) => (s, Some(Rewinding))
    case (Some(r), Some(h)) =>
      if !h.isOpen || f.seek then (s, Some(Rewinding))
      else
        var content := RecordString(r);
        match f.write
        case None => (s.(files := s.files[h.name := Overwrite(Content(s.files, h.name), content)]), None)
        case Some(n) =>
          var part := content[..Min(n, |content|)];
          (s.(files := s.files[h.name := Overwrite(Content(s.files, h.name), part)]), Some(Writing))
  }

  // A handle is spent even when closing it reports an error.
  function Closed(s: Session): Session {
    match s.cur
    case None => s
    case Some(h) => s.(cur := Some(h.(isOpen := false)))
  }

  function CloseFails(s: Session, f: Faults): bool {
    s.cur.Some? && (!s.cur.value.isOpen || f.close)
  }

  function ResetTo(c: Config, s: Session, r: Rec, now: Clock, f: Faults): (Session, Option<IoError>) {
    var (flushed, err) := Refreshed(s, f);
    if err.Some? then (flushed, err)
    else if CloseFails(flushed, f) then (Closed(flushed), Some(Closing))
    else
      var retired := Closed(flushed).(sig := Some(r));
      var name := c.fileName(r.sig.start);
      if f.create then (retired, Some(Creating))
      else
        (retired.(files := retired.files[name := []], cur := Some(Handle(name, true)),
                  startTime := now.wall, resetAt := now.wall + c.resetDuration), None)
  }

  predicate Idle(s: Session, now: Clock) { now.mono - s.lastEventAt > IDLE_TIMEOUT }

  // The session just before the event itself is recorded.
  function Prepared(c: Config, s: Session, now: Clock, f: Faults): Session {
    (if Idle(s, now) then ResetTo(c, s, FreshRec(Unix(now)), now, f).0 else s).(lastEventAt := now.mono)
  }

  ghost predicate Started(s: Session) { s.sig.Some? && s.sig.value.sig.data != [] }

  function Written(c: Config, s: Session, now: Clock, ev: Event, f: Faults): Session
    requires Started(s)
  {
    var p := Prepared(c, s, now, f);
    p.(sig := Some(StepRec(p.sig.value, Tick(Unix(now), ev))))
  }

  class Disk {
    var files: Files

    // os.Create: an existing file is truncated.
    method Create(name: Text, refused: bool) returns (h: Option<Handle>)
      modifies this
      ensures h == if refused then None else Some(Handle(name, true))
      ensures files == if refused then old(files) else old(files)[name := []]
    {
      if refused {
        return None;
      }
      files := files[name := []];
      h := Some(Handle(name, true));
    }

    // os.ReadDir: every file once.
    method ReadDir() returns (names: seq<Text>)
      ensures forall n :: n in names <==> n in files
      ensures Distinct(names)
    {
      names := [];
      var rest := files.Keys;
      while rest != {}
        invariant rest <= files.Keys && Distinct(names)
        invariant forall n :: n in names <==> n in files.Keys - rest
      {
        var n :| n in rest;
        assert n !in names;
        names := names + [n];
        rest := rest - {n};
      }
    }

    // Seek to the start and Write.
    method WriteFromStart(h: Handle, content: Text)
      modifies this
      ensures files == old(files)[h.name := Overwrite(Content(old(files), h.name), content)]
    {
      files := files[h.name := Overwrite(Content(files, h.name), content)];
    }
  }

  datatype Listing = Unreadable | Crashed | Listed(records: seq<Rec>)

  class State {
    const config: Config
    const disk: Disk
    var lastEventAt: int
    var StartTime: int
    var ResetAt: int
    var sig: Record?
    var cur: Option<Handle>

    ghost predicate Valid()
      reads this, sig, if sig == null then {} else {sig.Inner}
    {
      sig != null ==> sig.Valid()
    }

    ghost function Value(): Session
      reads this, disk, sig, if sig == null then {} else {sig.Inner}
    {
      Session(disk.files, cur, if sig == null then None else Some(sig.Value()),
              lastEventAt, StartTime, ResetAt)
    }

    constructor Blank(config: Config, disk: Disk, now: Clock)
      ensures Valid() && sig == null && this.config == config && this.disk == disk
      ensures Value() == Session(disk.files, None, None, now.mono, 0, 0)
    {
      this.config := config;
      this.disk := disk;
      lastEventAt := now.mono;
      StartTime, ResetAt := 0, 0;
      sig := null;
      cur := None;
    }

    // On failure the caller gets no session.
    static method New(config: Config, disk: Disk, now: Clock, f: Faults)
      returns (s: State, err: Option<IoError>)
      modifies disk
      ensures s.Valid() && s.config == config && s.disk == disk && fresh(s) && s.sig != null
      ensures (s.Value(), err)
           == ResetTo(config, Session(old(disk.files), None, None, now.mono, 0, 0),
                      FreshRec(Unix(now)), now, f)
    {
      s := new State.Blank(config, disk, now);
      var sig := new Record.New(now.wall);
      err := s.Reset(sig, now, f);
    }

    method Refresh(f: Faults) returns (err: Option<IoError>)
      requires Valid()
      modifies disk
      ensures Valid() && (Value(), err) == Refreshed(old(Value()), f)
    {
      if sig == null {
        return None;
      }
      var content := sig.String();
      if cur.None? || !cur.value.isOpen || f.seek {
        return Some(Rewinding);
      }
      if f.write.Some? {
        disk.WriteFromStart(cur.value, content[..Min(f.write.value, |content|)]);
        return Some(Writing);
      }
      disk.WriteFromStart(cur.value, content);
      return None;
    }

    method Reset(newSig: Record, now: Clock, f: Faults) returns (err: Option<IoError>)
      requires Valid() && newSig.Valid()
      modifies this, disk
      ensures Valid() && (Value(), err) == ResetTo(config, old(Value()), old(newSig.Value()), now, f)
      ensures sig == old(sig) || sig == newSig
      ensures old(sig) == null && old(cur).None? ==> sig == newSig
    {
      err := Refresh(f);
      if err.Some? {
        return;
      }
      if cur.Some? {
        var wasOpen := cur.value.isOpen;
        cur := Some(cur.value.(isOpen := false));
        if !wasOpen || f.close {
          return Some(Closing);
        }
      }
      sig := newSig;
      var h := disk.Create(config.fileName(newSig.Inner.StartSecond), f.create);
      if h.None? {
        return Some(Creating);
      }
      cur := h;
      StartTime := now.wall;
      ResetAt := StartTime + config.resetDuration;
    }

    method Write(ev: Event, now: Clock, f: Faults) returns (err: Option<WriteError>)
      requires Valid() && sig != null
      modifies this, disk, sig, sig.Inner
      ensures Valid() && sig != null && (sig == old(sig) || fresh(sig))
      ensures Value() == Written(config, old(Value()), now, ev, f)
      ensures err == WriteFailure(Prepared(config, old(Value()), now, f).sig.value.sig)
    {
      if now.mono - lastEventAt > IDLE_TIMEOUT {
        var newSig := new Record.New(now.wall);
        var _ := Reset(newSig, now, f);
      }
      lastEventAt := now.mono;
      err := sig.Write(Unix(now), ev);
    }

    // A file that cannot be read spoils the listing; one that does not parse is skipped. Nothing
    // checks the limit before it is used to slice.
    method ListRecent(limit: int, unlistable: bool, unreadable: set<Text>)
      returns (out: Listing, ghost names: seq<Text>)
      ensures forall n :: n in names <==> n in disk.files
      ensures Distinct(names)
      ensures out.Unreadable? <==> unlistable || exists n :: n in unreadable && n in disk.files
      ensures out.Crashed? <==> !out.Unreadable? && limit < 0
      ensures out.Listed? ==> limit >= 0 && IsListing(Parsed(disk.files, names), limit, out.records)
      ensures out.Listed? ==> ShowsEach(disk.files, limit, out.records)
    {
      var entries := disk.ReadDir();
      names := entries;
      if unlistable {
        return Unreadable, entries;
      }
      var found := ParseAll(disk.files, entries, unreadable);
      if found.None? {
        return Unreadable, entries;
      }
      if limit < 0 {
        return Crashed, entries;
      }
      var newest := Newest(found.value, limit);
      ListsEach(disk.files, entries, limit, newest);
      return Listed(newest), entries;
    }
  }
}
