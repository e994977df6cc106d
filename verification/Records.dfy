// The record the program keeps for one signature: the signature, the first characters typed and
// the number of actions, and the three lines it is saved as.
module Records {
  import opened Words
  import opened Events
  import opened Signatures
  import opened SigCodec
  import opened Splitting
  import opened Timeline
  import Base64
  import Decimal

  datatype Rec = Rec(sig: Sig, firstCharacters: Text, totalActions: int64, charLimit: int)

  const CHAR_LIMIT := 15

  // Timekeeping is in nanoseconds; a signature keeps whole seconds, of which there is at least
  // one, because a current second of zero marks a signature as not writable.
  type instant = n: int | 1_000_000_000 <= n < 0x8000_0000_0000_0000 * 1_000_000_000
    witness 1_000_000_000

  function Seconds(now: instant): (s: int64)
    ensures s > 0
  {
    now / 1_000_000_000
  }

  function FreshRec(start: int64): Rec { Rec(Fresh(VERSION1, start), [], 0, CHAR_LIMIT) }

  function Noted(chars: Text, limit: int, e: Event): Text {
    if |chars| < limit && e.KeyDown? && e.text != [] && e.text != [0] then chars + e.text else chars
  }

  // An int wraps around.
  function Incremented(n: int64): int64 { if n == MAX_INT64 then -MAX_INT64 - 1 else n + 1 }

  function StepRec(r: Rec, t: Tick): Rec
    requires r.sig.data != []
  {
    r.(firstCharacters := Noted(r.firstCharacters, r.charLimit, t.event),
       totalActions := Incremented(r.totalActions),
       sig := Step(r.sig, t))
  }

  function RunRec(r: Rec, ticks: seq<Tick>): (r': Rec)
    requires r.sig.data != []
    ensures r'.sig.data != []
  {
    if ticks == [] then r else StepRec(RunRec(r, Init(ticks)), Last(ticks))
  }

  function RecordString(r: Rec): Text {
    Join([StringOf(r.sig), r.firstCharacters, Decimal.Itoa(r.totalActions)], NEWLINE)
  }

  datatype RecordError = BadSignature(cause: ParseError) | BadActionCount

  function ParseRecord(s: Text): Result<Rec, RecordError> {
    var lines := Split(s, NEWLINE);
    match ParseString(lines[0])
    case Err(e) => Err(BadSignature(e))
    case Ok(sig) =>
      if |lines| == 1 then Ok(Rec(sig, [], 0, 0))
      else if |lines| == 2 then Ok(Rec(sig, lines[1], 0, 0))
      else
        match Decimal.Atoi(lines[2])
        case None => Err(BadActionCount)
        case Some(actions) => Ok(Rec(sig, lines[1], actions, 0))
  }

  function PrintedRec(r: Rec): Rec { r.(sig := Printed(r.sig), charLimit := 0) }

  class Record {
    const Inner: Asig
    var FirstCharacters: Text
    var TotalActions: int64
    var CharLimit: int

    ghost predicate Valid()
      reads this, Inner
    {
      Inner.Valid()
    }

    ghost function Value(): Rec
      reads this, Inner
    {
      Rec(Inner.Value(), FirstCharacters, TotalActions, CharLimit)
    }

    constructor New(now: instant)
      ensures Valid() && fresh(Inner) && Value() == FreshRec(Seconds(now))
    {
      Inner := new Asig.NewCustom(VERSION1, Seconds(now));
      FirstCharacters := [];
      TotalActions := 0;
      CharLimit := CHAR_LIMIT;
    }

    method Write(now: int64, ev: Event) returns (err: Option<WriteError>)
      requires Valid()
      modifies this, Inner
      ensures Valid() && Value() == StepRec(old(Value()), Tick(now, ev))
      ensures err == WriteFailure(old(Value()).sig)
    {
      if |FirstCharacters| < CharLimit {
        if ev.KeyDown? {
          if ev.text != [] && ev.text != [0] {
            FirstCharacters := FirstCharacters + ev.text;
          }
        }
      }
      TotalActions := Incremented(TotalActions);
      err := Inner.Write(now, ev);
    }

    method String() returns (s: Text)
      ensures s == RecordString(Value())
    {
      var signature := SigCodec.String(Inner);
      s := Join([signature, FirstCharacters, Decimal.Itoa(TotalActions)], NEWLINE);
    }
  }

  lemma RecordLines(r: Rec)
    ensures RecordString(r)
         == StringOf(r.sig) + [NEWLINE] + (r.firstCharacters + [NEWLINE] + Decimal.Itoa(r.totalActions))
  {
    var lines := [StringOf(r.sig), r.firstCharacters, Decimal.Itoa(r.totalActions)];
    assert lines[1..][1..] == [lines[2]];
    assert Join(lines[1..], NEWLINE) == lines[1] + [NEWLINE] + lines[2];
  }

  // A record parses back to itself exactly when its first characters stay on one line.
  lemma RecordRoundTrip(r: Rec)
    ensures ParseRecord(RecordString(r)) == Ok(PrintedRec(r)) <==> NEWLINE !in r.firstCharacters
  {
    var rest := r.firstCharacters + [NEWLINE] + Decimal.Itoa(r.totalActions);
    RecordLines(r);
    SplitString(r.sig);
    SplitAtFirst(StringOf(r.sig), NEWLINE, rest);
    TextRoundTrip(r.sig);
    JoinSplit(rest, NEWLINE);
    if NEWLINE !in r.firstCharacters {
      SplitAtFirst(r.firstCharacters, NEWLINE, Decimal.Itoa(r.totalActions));
      SplitWithout(Decimal.Itoa(r.totalActions), NEWLINE);
      Decimal.AtoiItoa(r.totalActions);
    } else {
      assert Split(RecordString(r), NEWLINE)[1] == Split(rest, NEWLINE)[0];
    }
  }

  // No write makes the saved form shorter, short of wrapping the action count around.
  lemma RecordGrows(r: Rec, t: Tick)
    requires r.sig.data != [] && 0 <= r.totalActions < MAX_INT64
    ensures |RecordString(r)| <= |RecordString(StepRec(r, t))|
  {
    RecordLines(r);
    RecordLines(StepRec(r, t));
    SignatureGrows(r.sig, t);
    Decimal.FormatUintGrows(r.totalActions, r.totalActions + 1);
  }

  lemma SignatureGrows(s: Sig, t: Tick)
    requires s.data != []
    ensures |StringOf(s)| <= |StringOf(Step(s, t))|
  {
    FieldsJoined(s);
    FieldsJoined(Step(s, t));
    Base64.EncodedLength(s.data);
    Base64.EncodedLength(Step(s, t).data);
  }

  // Texts are noted until there are fifteen bytes or more, but not a lone NUL.
  lemma NotedMeaning(start: int64, ticks: seq<Tick>, t: Tick)
    ensures var before := RunRec(FreshRec(start), ticks).firstCharacters;
            RunRec(FreshRec(start), ticks + [t]).firstCharacters
            == if |before| < 15 && t.event.KeyDown? && t.event.text != [0] then before + t.event.text else before
  {
    var before := RunRec(FreshRec(start), ticks).firstCharacters;
    CharLimitStays(start, ticks);
    assert Init(ticks + [t]) == ticks;
    assert before + [] == before;
  }

  // ----- The last line -----

  lemma LastLine(p: Text, d: Text, p': Text, d': Text)
    requires NEWLINE !in d && NEWLINE !in d' && p + [NEWLINE] + d == p' + [NEWLINE] + d'
    ensures d == d'
  {
    var s := p + [NEWLINE] + d;
    assert s[|p|] == NEWLINE && s[|p'|] == NEWLINE;
    assert forall j :: |p| < j < |s| ==> s[j] == d[j - |p| - 1] != NEWLINE;
    assert forall j :: |p'| < j < |s| ==> s[j] == d'[j - |p'| - 1] != NEWLINE;
    assert s[|p| + 1..] == d;
    assert s[|p'| + 1..] == d';
  }

  // Records that print the same have the same number of actions.
  lemma ActionsShow(r: Rec, r': Rec)
    requires RecordString(r) == RecordString(r')
    ensures r.totalActions == r'.totalActions
  {
    var s, s' := StringOf(r.sig) + [NEWLINE] + r.firstCharacters, StringOf(r'.sig) + [NEWLINE] + r'.firstCharacters;
    RecordLines(r);
    RecordLines(r');
    assert RecordString(r) == s + [NEWLINE] + Decimal.Itoa(r.totalActions);
    assert RecordString(r') == s' + [NEWLINE] + Decimal.Itoa(r'.totalActions);
    LastLine(s, Decimal.Itoa(r.totalActions), s', Decimal.Itoa(r'.totalActions));
    Decimal.AtoiItoa(r.totalActions);
    Decimal.AtoiItoa(r'.totalActions);
  }

  // A lone newline for first characters leaves the count on the fourth line, where it is not
  // looked for.
  lemma NewlineUnreadable(r: Rec)
    requires r.firstCharacters == [NEWLINE]
    ensures ParseRecord(RecordString(r)) == Err(BadActionCount)
  {
    var count := Decimal.Itoa(r.totalActions);
    RecordLines(r);
    SplitString(r.sig);
    TextRoundTrip(r.sig);
    SplitAtFirst(StringOf(r.sig), NEWLINE, [NEWLINE] + [NEWLINE] + count);
    SplitAtFirst([], NEWLINE, [NEWLINE] + count);
    SplitAtFirst([], NEWLINE, count);
    assert [] + [NEWLINE] + ([NEWLINE] + count) == [NEWLINE] + [NEWLINE] + count;
    assert [] + [NEWLINE] + count == [NEWLINE] + count;
  }

  // A record follows its signature and counts every write.
  lemma {:induction false} RunRecParts(start: int64, ticks: seq<Tick>)
    requires |ticks| <= MAX_INT64
    ensures var r := RunRec(FreshRec(start), ticks);
            && r.sig == Run(Fresh(VERSION1, start), ticks)
            && r.totalActions == |ticks|
            && r.charLimit == CHAR_LIMIT
  {
    if ticks != [] {
      RunRecParts(start, Init(ticks));
    }
  }

  // Only the first line need be there: without a second the first characters are empty, without
  // a third no actions are counted, and from the fourth on nothing is looked at.
  lemma ParseLines(first: Text, chars: Text, count: Text, more: Text)
    requires NEWLINE !in first && NEWLINE !in chars && NEWLINE !in count
    ensures ParseString(first).Err? ==>
              && ParseRecord(first) == Err(BadSignature(ParseString(first).error))
              && ParseRecord(first + [10] + more) == ParseRecord(first)
    ensures ParseString(first).Ok? ==>
              var sig := ParseString(first).value;
              && ParseRecord(first) == Ok(Rec(sig, [], 0, 0))
              && ParseRecord(first + [10] + chars) == Ok(Rec(sig, chars, 0, 0))
              && ParseRecord(first + [10] + (chars + [10] + count))
                 == (if Decimal.Atoi(count).Some? then Ok(Rec(sig, chars, Decimal.Atoi(count).value, 0))
                     else Err(BadActionCount))
              && ParseRecord(first + [10] + (chars + [10] + (count + [10] + more)))
                 == ParseRecord(first + [10] + (chars + [10] + count))
  {
    SplitWithout(first, 10);
    SplitWithout(chars, 10);
    SplitWithout(count, 10);
    SplitAtFirst(first, 10, more);
    SplitAtFirst(first, 10, chars);
    SplitAtFirst(first, 10, chars + [10] + count);
    SplitAtFirst(chars, 10, count);
    SplitAtFirst(first, 10, chars + [10] + (count + [10] + more));
    SplitAtFirst(chars, 10, count + [10] + more);
    SplitAtFirst(count, 10, more);
  }

  // ----- First characters -----

  function ShownText(e: Event): Text {
    if e.KeyDown? && e.text != [0] then e.text else []
  }

  // Everything typed, without the texts that are a lone NUL.
  function Typed(ticks: seq<Tick>): Text {
    if ticks == [] then [] else Typed(Init(ticks)) + ShownText(Last(ticks).event)
  }

  // Enough has been typed by tick m, and not before.
  ghost predicate EnoughAt(ticks: seq<Tick>, m: nat)
    requires m <= |ticks|
  {
    && (m == |ticks| || |Typed(ticks[..m])| >= CHAR_LIMIT)
    && forall k :: 0 <= k < m ==> |Typed(ticks[..k])| < CHAR_LIMIT
  }

  // The first characters are what was typed up to the event that brought it to the limit.
  lemma {:induction false} FirstCharactersMeaning(start: int64, ticks: seq<Tick>) returns (m: nat)
    ensures m <= |ticks| && EnoughAt(ticks, m)
    ensures RunRec(FreshRec(start), ticks).firstCharacters == Typed(ticks[..m])
    decreases |ticks|
  {
    if ticks == [] {
      m := 0;
    } else {
      var n := FirstCharactersMeaning(start, Init(ticks));
      CharLimitStays(start, Init(ticks));
      var before := RunRec(FreshRec(start), Init(ticks)).firstCharacters;
      NotedText(before, Last(ticks).event);
      m := if |before| >= CHAR_LIMIT then n else |ticks|;
      EnoughExtends(ticks, n);
      assert ticks[..|ticks|] == ticks && Init(ticks)[..n] == ticks[..n];
    }
  }

  lemma NotedText(chars: Text, e: Event)
    ensures Noted(chars, CHAR_LIMIT, e) == if |chars| < CHAR_LIMIT then chars + ShownText(e) else chars
  {
    assert chars + [] == chars;
  }

  lemma EnoughExtends(ticks: seq<Tick>, n: nat)
    requires ticks != [] && n < |ticks| && EnoughAt(Init(ticks), n)
    ensures var enough := |Typed(Init(ticks)[..n])| >= CHAR_LIMIT;
            && (enough ==> EnoughAt(ticks, n))
            && (!enough ==> Init(ticks)[..n] == Init(ticks) && EnoughAt(ticks, |ticks|))
  {
    assert forall k :: 0 <= k < |ticks| ==> Init(ticks)[..k] == ticks[..k];
  }

  lemma {:induction false} CharLimitStays(start: int64, ticks: seq<Tick>)
    ensures RunRec(FreshRec(start), ticks).charLimit == CHAR_LIMIT
  {
    if ticks != [] {
      CharLimitStays(start, Init(ticks));
    }
  }
}
