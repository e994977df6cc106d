// Reading a signature off the front of a stream: everything up to the first newline is the
// signature, everything after it is the document.
module Framing {
  import opened Words
  import opened Signatures
  import opened SigCodec
  import opened Splitting
  import Base64

  datatype ReadError = NoNewline | Malformed(cause: ParseError)

  // A buffered reader over bytes that have all arrived.
  class Reader {
    var unread: Text

    constructor (content: Text)
      ensures unread == content
    {
      unread := content;
    }

    // Consumes through the delimiter, or everything when there is none.
    method ReadThrough(delimiter: byte) returns (line: Text, found: bool)
      modifies this
      ensures old(unread) == line + unread
      ensures found <==> delimiter in old(unread)
      ensures found ==> |line| > 0 && line[|line| - 1] == delimiter && delimiter !in line[..|line| - 1]
      ensures !found ==> unread == []
    {
      var i := 0;
      while i < |unread|
        invariant i <= |unread| && unread == old(unread)
        invariant delimiter !in unread[..i]
      {
        if unread[i] == delimiter {
          line, unread := unread[..i + 1], unread[i + 1..];
          return line, true;
        }
        i := i + 1;
      }
      line, unread := unread, [];
      return line, false;
    }
  }

  function Cause(r: Result<Sig, ParseError>): Result<Sig, ReadError> {
    match r
    case Ok(s) => Ok(s)
    case Err(e) => Err(Malformed(e))
  }

  function FirstIndex(t: Text, c: byte): (n: nat)
    ensures n <= |t| && c !in t[..n] && (n < |t| ==> t[n] == c)
  {
    if t == [] || t[0] == c then 0 else 1 + FirstIndex(t[1..], c)
  }

  // What Read returns and what it leaves unread: the first line parsed, and the rest.
  function ReadOutcome(stream: Text): (Result<Sig, ReadError>, Text) {
    var n := FirstIndex(stream, NEWLINE);
    if n == |stream| then (Err(NoNewline), []) else (Cause(ParseString(stream[..n])), stream[n + 1..])
  }

  // The newline goes to the parser with the line: the base64 decoder skips it.
  method Read(r: Reader) returns (signature: Result<Sig, ReadError>)
    modifies r
    ensures (signature, r.unread) == ReadOutcome(old(r.unread))
  {
    var candidate, found := r.ReadThrough(NEWLINE);
    if !found {
      return Err(NoNewline);
    }
    signature := Cause(ParseString(candidate));
    ghost var line := candidate[..|candidate| - 1];
    assert candidate == line + [NEWLINE];
    NewlineIgnored(line);
    FirstLineReads(line, r.unread);
  }

  function Extended(f: seq<Text>, c: byte): seq<Text>
    requires f != []
  {
    f[|f| - 1 := f[|f| - 1] + [c]]
  }

  // Appending to the last field commutes with putting something before the first.
  lemma ExtendFirst(b: byte, f: seq<Text>, c: byte)
    requires f != []
    ensures Extended([[]] + f, c) == [[]] + Extended(f, c)
    ensures Extended([[b] + f[0]] + f[1..], c) == [[b] + Extended(f, c)[0]] + Extended(f, c)[1..]
  {
    assert |f| == 1 ==> ([b] + f[0]) + [c] == [b] + (f[0] + [c]);
  }

  lemma {:induction false} SplitTrailing(t: Text, c: byte)
    requires c != DOT
    ensures Split(t + [c], DOT) == Extended(Split(t, DOT), c)
  {
    if t == [] {
      SplitWithout([c], DOT);
      assert t + [c] == [c];
    } else {
      SplitTrailing(t[1..], c);
      assert (t + [c])[1..] == t[1..] + [c];
      ExtendFirst(t[0], Split(t[1..], DOT), c);
    }
  }

  lemma NewlineIgnored(t: Text)
    ensures ParseString(t + [NEWLINE]) == ParseString(t)
  {
    SplitTrailing(t, NEWLINE);
    var f := Split(t, DOT);
    Base64.SkipTrailing(f[|f| - 1], NEWLINE);
  }

  // The first line is read whatever follows it, further lines included.
  lemma FirstLineReads(line: Text, document: Text)
    requires NEWLINE !in line
    ensures ReadOutcome(line + [NEWLINE] + document) == (Cause(ParseString(line)), document)
  {
    FirstIndexAfter(line, NEWLINE, document);
    var stream := line + [NEWLINE] + document;
    assert stream[..|line|] == line && stream[|line| + 1..] == document;
  }

  lemma {:induction false} FirstIndexAfter(line: Text, c: byte, rest: Text)
    requires c !in line
    ensures FirstIndex(line + [c] + rest, c) == |line|
  {
    if line != [] {
      FirstIndexAfter(line[1..], c, rest);
      assert (line + [c] + rest)[1..] == line[1..] + [c] + rest;
    }
  }

  // A signature sent ahead of any document, newlines and dots included, is read back whole, and
  // exactly the document is left.
  lemma SignatureThenDocument(s: Sig, document: Text)
    ensures ReadOutcome(StringOf(s) + [NEWLINE] + document) == (Ok(Printed(s)), document)
  {
    SplitString(s);
    TextRoundTrip(s);
    FirstLineReads(StringOf(s), document);
  }

  // The same, run through the two programs.
  method SendAndReceive(a: Asig, document: Text) returns (signature: Result<Sig, ReadError>, remaining: Text)
    ensures signature == Ok(Printed(a.Value())) && remaining == document
  {
    var prefix := String(a);
    prefix := prefix + [NEWLINE];
    var body := new Reader(prefix + document);
    signature := Read(body);
    remaining := body.unread;
    SignatureThenDocument(a.Value(), document);
  }
}
