// Listing saved records, newest first.
module Recents {
  import opened Words
  import opened Records
  import opened Timeline

  // The records among the named files that parse; the others are skipped.
  function Parsed(files: map<Text, Text>, names: seq<Text>): seq<Rec>
    requires forall n :: n in names ==> n in files
  {
    if names == [] then [] else Parsed(files, Init(names)) + ParsedFile(files[Last(names)])
  }

  function ParsedFile(content: Text): seq<Rec> {
    match ParseRecord(content)
    case Ok(r) => [r]
    case Err(_) => []
  }

  lemma ParsedStep(files: map<Text, Text>, names: seq<Text>, i: nat)
    requires forall n :: n in names ==> n in files
    requires i < |names|
    ensures Parsed(files, names[..i + 1]) == Parsed(files, names[..i]) + ParsedFile(files[names[i]])
  {
    assert Init(names[..i + 1]) == names[..i];
  }

  // Reads the files in turn; one that cannot be read ends the listing.
  method ParseAll(files: map<Text, Text>, names: seq<Text>, unreadable: set<Text>)
    returns (found: Option<seq<Rec>>)
    requires forall n :: n in names ==> n in files
    ensures found.None? <==> exists n :: n in names && n in unreadable
    ensures found.Some? ==> found.value == Parsed(files, names)
  {
    var out: seq<Rec> := [];
    for i := 0 to |names|
      invariant out == Parsed(files, names[..i])
      invariant forall n :: n in names[..i] ==> n !in unreadable
    {
      if names[i] in unreadable {
        return None;
      }
      ParsedStep(files, names, i);
      out := out + ParsedFile(files[names[i]]);
    }
    assert names[..|names|] == names;
    return Some(out);
  }

  predicate NewestFirst(rs: seq<Rec>) {
    forall i, j :: 0 <= i < j < |rs| ==> rs[i].sig.start >= rs[j].sig.start
  }

  // The newest records, up to a limit, in some order that sorts them.
  ghost predicate IsListing(found: seq<Rec>, limit: nat, listing: seq<Rec>) {
    exists sorted: seq<Rec> ::
      multiset(sorted) == multiset(found) && NewestFirst(sorted) && listing == sorted[..Min(limit, |sorted|)]
  }

  method Insert(sorted: seq<Rec>, r: Rec) returns (out: seq<Rec>)
    requires NewestFirst(sorted)
    ensures NewestFirst(out) && multiset(out) == multiset(sorted) + multiset{r}
  {
    var i := 0;
    while i < |sorted| && sorted[i].sig.start >= r.sig.start
      invariant i <= |sorted|
      invariant forall k :: 0 <= k < i ==> sorted[k].sig.start >= r.sig.start
    {
      i := i + 1;
    }
    out := sorted[..i] + [r] + sorted[i..];
    InsertedMultiset(sorted, i, r);
  }

  lemma InsertedMultiset(s: seq<Rec>, i: nat, r: Rec)
    requires i <= |s|
    ensures multiset(s[..i] + [r] + s[i..]) == multiset(s) + multiset{r}
  {
    assert s == s[..i] + s[i..];
  }

  // Stands for the library's sort, which promises no particular order among equal starts.
  method SortNewestFirst(rs: seq<Rec>) returns (out: seq<Rec>)
    ensures NewestFirst(out) && multiset(out) == multiset(rs)
  {
    out := [];
    for i := 0 to |rs|
      invariant NewestFirst(out) && multiset(out) == multiset(rs[..i])
    {
      assert rs[..i + 1] == rs[..i] + [rs[i]];
      out := Insert(out, rs[i]);
    }
    assert rs[..|rs|] == rs;
  }

  method Newest(found: seq<Rec>, limit: nat) returns (out: seq<Rec>)
    ensures IsListing(found, limit, out)
  {
    var sorted := SortNewestFirst(found);
    out := if |sorted| > limit then sorted[..limit] else sorted;
    assert out == sorted[..Min(limit, |sorted|)];
  }

  lemma SameLength<T>(a: seq<T>, b: seq<T>)
    requires multiset(a) == multiset(b)
    ensures |a| == |b|
  {
    assert |multiset(a)| == |a| && |multiset(b)| == |b|;
  }

  // A listing is as long as the limit allows, in order, drawn from what was found, and leaves
  // out nothing newer than what it shows.
  lemma ListingMeaning(found: seq<Rec>, limit: nat, listing: seq<Rec>)
    requires IsListing(found, limit, listing)
    ensures |listing| == Min(limit, |found|) && NewestFirst(listing)
    ensures multiset(listing) <= multiset(found)
    ensures forall r, shown :: r in multiset(found) - multiset(listing) && shown in listing ==>
              |listing| == limit && shown.sig.start >= r.sig.start
  {
    var sorted: seq<Rec> :| multiset(sorted) == multiset(found) && NewestFirst(sorted)
                         && listing == sorted[..Min(limit, |sorted|)];
    SameLength(sorted, found);
    LeftOut(sorted, |listing|);
    forall r, shown | r in multiset(found) - multiset(listing) && shown in listing
      ensures |listing| == limit && shown.sig.start >= r.sig.start
    {
      Outranked(sorted, |listing|, r, shown);
    }
  }

  lemma LeftOut(sorted: seq<Rec>, n: nat)
    requires n <= |sorted|
    ensures multiset(sorted) == multiset(sorted[..n]) + multiset(sorted[n..])
  {
    assert sorted == sorted[..n] + sorted[n..];
  }

  lemma Outranked(sorted: seq<Rec>, n: nat, r: Rec, shown: Rec)
    requires NewestFirst(sorted) && n <= |sorted|
    requires r in sorted[n..] && shown in sorted[..n]
    ensures n < |sorted| && shown.sig.start >= r.sig.start
  {
    var i :| 0 <= i < |sorted| - n && sorted[n..][i] == r;
    var j :| 0 <= j < n && sorted[..n][j] == shown;
    assert sorted[n + i] == r && sorted[j] == shown;
  }

  lemma {:induction false} ParsedMember(files: map<Text, Text>, names: seq<Text>, name: Text)
    requires forall n :: n in names ==> n in files
    requires name in names && ParseRecord(files[name]).Ok?
    ensures ParseRecord(files[name]).value in Parsed(files, names)
  {
    if name != Last(names) {
      assert names == Init(names) + [Last(names)];
      ParsedMember(files, Init(names), name);
    }
  }

  // ----- Every parseable file once -----

  predicate Distinct<T(==)>(s: seq<T>) { forall i, j :: 0 <= i < j < |s| ==> s[i] != s[j] }

  // The named files that read as this record.
  ghost function ReadingAs(files: map<Text, Text>, names: seq<Text>, r: Rec): set<Text>
    requires forall n :: n in names ==> n in files
  {
    set n | n in names && ParseRecord(files[n]) == Ok(r)
  }

  lemma OneMoreName(files: map<Text, Text>, names: seq<Text>, r: Rec)
    requires names != [] && Distinct(names) && forall n :: n in names ==> n in files
    ensures forall n :: n in Init(names) ==> n in files
    ensures |ReadingAs(files, names, r)|
         == |ReadingAs(files, Init(names), r)| + if ParseRecord(files[Last(names)]) == Ok(r) then 1 else 0
  {
    var last := Last(names);
    assert names == Init(names) + [last];
    var before := ReadingAs(files, Init(names), r);
    assert last !in before;
    if ParseRecord(files[last]) == Ok(r) {
      assert ReadingAs(files, names, r) == before + {last};
    } else {
      assert ReadingAs(files, names, r) == before;
    }
  }

  // A record is found exactly as often as there are files that read as it.
  lemma {:induction false} FoundExactly(files: map<Text, Text>, names: seq<Text>, r: Rec)
    requires Distinct(names) && forall n :: n in names ==> n in files
    ensures multiset(Parsed(files, names))[r] == |ReadingAs(files, names, r)|
  {
    if names == [] {
      assert ReadingAs(files, names, r) == {};
    } else {
      OneMoreName(files, names, r);
      FoundExactly(files, Init(names), r);
      assert multiset(ParsedFile(files[Last(names)]))[r]
          == if ParseRecord(files[Last(names)]) == Ok(r) then 1 else 0;
    }
  }

  // The named files that read at all.
  ghost function Readable(files: map<Text, Text>, names: seq<Text>): set<Text>
    requires forall n :: n in names ==> n in files
  {
    set n | n in names && ParseRecord(files[n]).Ok?
  }

  lemma OneMoreReadable(files: map<Text, Text>, names: seq<Text>)
    requires names != [] && Distinct(names) && forall n :: n in names ==> n in files
    ensures forall n :: n in Init(names) ==> n in files
    ensures |Readable(files, names)| == |Readable(files, Init(names))| + |ParsedFile(files[Last(names)])|
  {
    var last := Last(names);
    assert names == Init(names) + [last];
    var before := Readable(files, Init(names));
    assert last !in before;
    if ParseRecord(files[last]).Ok? {
      assert Readable(files, names) == before + {last};
    } else {
      assert Readable(files, names) == before;
    }
  }

  // And as many records are found as there are files that read as any.
  lemma {:induction false} FoundCount(files: map<Text, Text>, names: seq<Text>)
    requires Distinct(names) && forall n :: n in names ==> n in files
    ensures |Parsed(files, names)| == |Readable(files, names)|
  {
    if names == [] {
      assert Readable(files, names) == {};
    } else {
      OneMoreReadable(files, names);
      FoundCount(files, Init(names));
    }
  }

  lemma CompleteListing(found: seq<Rec>, limit: nat, listing: seq<Rec>)
    requires IsListing(found, limit, listing) && |found| <= limit
    ensures multiset(listing) == multiset(found)
  {
    var sorted: seq<Rec> :| multiset(sorted) == multiset(found) && NewestFirst(sorted)
                         && listing == sorted[..Min(limit, |sorted|)];
    SameLength(sorted, found);
    assert listing == sorted;
  }

  lemma ListedExactly(files: map<Text, Text>, names: seq<Text>, limit: nat, listing: seq<Rec>, r: Rec)
    requires Distinct(names) && forall n :: n in names ==> n in files
    requires IsListing(Parsed(files, names), limit, listing)
    ensures multiset(listing)[r] <= |ReadingAs(files, names, r)|
    ensures |Parsed(files, names)| <= limit ==> multiset(listing)[r] == |ReadingAs(files, names, r)|
  {
    var found := Parsed(files, names);
    FoundExactly(files, names, r);
    ListingMeaning(found, limit, listing);
    if |found| <= limit {
      CompleteListing(found, limit, listing);
    }
  }

  // A listing of the files: no record is shown more often than there are files that read as it,
  // and unless more files can be read than the limit allows, each is shown exactly that often.
  ghost predicate ShowsEach(files: map<Text, Text>, limit: nat, listing: seq<Rec>) {
    forall r: Rec ::
      var readings := |set n | n in files && ParseRecord(files[n]) == Ok(r)|;
      && multiset(listing)[r] <= readings
      && (|set n | n in files && ParseRecord(files[n]).Ok?| <= limit ==> multiset(listing)[r] == readings)
  }

  lemma ListsEach(files: map<Text, Text>, names: seq<Text>, limit: nat, listing: seq<Rec>)
    requires Distinct(names) && forall n :: n in names <==> n in files
    requires IsListing(Parsed(files, names), limit, listing)
    ensures ShowsEach(files, limit, listing)
  {
    FoundCount(files, names);
    assert Readable(files, names) == (set n | n in files && ParseRecord(files[n]).Ok?);
    forall r: Rec
      ensures var readings := |set n | n in files && ParseRecord(files[n]) == Ok(r)|;
              && multiset(listing)[r] <= readings
              && (|Parsed(files, names)| <= limit ==> multiset(listing)[r] == readings)
    {
      ListedExactly(files, names, limit, listing, r);
      AllReadings(files, names, r);
    }
  }

  lemma AllReadings(files: map<Text, Text>, names: seq<Text>, r: Rec)
    requires forall n :: n in names <==> n in files
    ensures ReadingAs(files, names, r) == set n | n in files && ParseRecord(files[n]) == Ok(r)
  {
  }
}
