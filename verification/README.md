# Affiro: signatures, their files and their inputs

Affiro records how a text was typed. Every key press and mouse release is folded into the byte of
the four-second window it happened in; the resulting byte string, with its start second and
version, is the *signature*. This project models the recorder and everything that has to agree
with it, and proves what the parts promise each other.

- **Recorder** (`Events`, `Signatures`, `Timeline`, `GapCode`, `Scoring`). The `Asig` object with
  its two recorders: version 0 writes one byte a window, version 1 replaces silences by two bytes.
  `Timeline` defines what a signature means without mentioning either (which events landed in
  which window), and `GapCode` holds the decoder the repository does not have. Version 1 is proved
  to be the canonical encoding of the timeline with silences clamped to 255 windows, hence
  lossless exactly when no silence is longer. `Scoring` accounts for every event of a run.
- **Printed forms** (`Words`, `Decimal`, `Base64`, `Base64Bits`, `Splitting`, `SigCodec`, `Framing`,
  `Records`). The text and packed forms, reading a signature off a stream, and the three-line record.
- **Session** (`Sessions`, `Histories`, `Guarantees`, `Failures`, `Silences`, `Races`, `Overlaps`,
  `Recents`). Flush, rotation and idle reset over a file map, with every refusal the operating
  system can answer, and listing. Runs are sequences of calls, each with its readings of the wall
  clock and the monotonic clock and its faults; every result about runs holds for all of them, or
  says exactly for which. `Races` takes flushes apart and lets events, flushes and resets overlap
  and fail; `Overlaps` says what that leaves in the program's files.
- **Inputs** (`Evdev`, `RawRecords`, `Keyboards`, `Paste`, `Inotify`, `Pipe`, `Connections`,
  `Overtaking`). Raw keyboard records, the shared queue under any interleaving, the hot-plug record
  walk, and the background worker's events: their twelve bytes, and their way through a channel
  and one connection each.
- **Pictures** (`Randomart`, `Bishop`, `Circle`). The clamped walk over the grid and the circle
  outline.

`Vectors` computes examples, most of them from the repository's tests. Where a format or a constant
matters, some lemma states it in plain numbers, apart from the definitions that implement it.
`dafny verify dfyconfig.toml` checks the whole project.

Objects that the source updates in place are classes here, loops are loops, and each method is
proved against a function of its old state; the lemmas are about those functions. A Go string is
a sequence of bytes, and the clock is an argument of every call that reads it. Machine integers
are ranges of `int`, with wrap-around and two's complement written out where they happen.

## What turned out not to hold

- A record whose first characters contain a newline does not read back: `RecordRoundTrip` gives
  the exact condition, `RetiredReadsBack` carries it to files, and `NewlineSpoils` is a run of two
  calls that ends in such a file.
- Two signatures started under the same file name (the same second, or the same local time twice)
  share one file. `ResetErasesExactly` says exactly which resets cost a retired signature its file,
  `SharedFileHolds` what a shared file holds after any run, and `SameSecondErases` is a run of two
  calls that loses an event this way.
- A reset that gets past its flush and is then refused closing the old file or creating the new one
  leaves the session with a closed file for good, and nothing is saved any more. `StuckExactly`
  says for all runs that nothing else does; `OneRefusalSticks` gives a run for either refusal, and
  `StuckFileHolds` what stays on file.
- Silences of more than 255 windows are lost by exactly the writes that meet one without starting a
  new signature (`LosslessRunsExactly`). A single refused seek during such a write is enough, in a
  session that works again afterwards (`TransientErrorLoses`); so is a wall clock that ran on while
  the monotonic clock stood still, with nothing failing at all (`SuspendLoses`); and so is every
  write of a stuck session (`StuckLosesSilence`).
- A flush takes its string before it locks the session, so events, other flushes and resets can come
  between its two halves, and then a flush that succeeds need not leave the current string, nor a
  retired file the final one. `LastStoreDecides` says exactly when it does, whatever happened before:
  the final string must start with what was stored last and go on like the file before. As long as
  the file had not outgrown what was stored, that means that the string was stored whole and no event
  reached its signature after it was *taken*; past that it does not (`OlderStringHarmless`). Over
  runs whose stores come in order, each into its own signature's file, a retired file is exact if and
  only if no event came after the last string stored in it was taken (`RetiredExactly`). Inputs: an
  event in between (`EventInBetweenUnsaved`); a slower flush of the same signature storing its older
  string last, which makes a typed character vanish from a file that had it (`OlderStringMisleads`);
  a flush overtaken by a reset, whose string in the new file shows through the next flush as an
  action that never happened (`StaleStoreMisleads`).
- Events that come over the pipe leave signatures alone but can change a record's first characters:
  these agree throughout a run if and only if every noted text has four bytes
  (`FirstCharactersAffected`); having parted they may still meet again (`TheyMayMeetAgain`).
- The background worker's events can be dropped and can come out of order, since each travels on a
  connection of its own. `AnyScheduleConserves` says what is kept under every schedule, and
  `WhatSurvives` what of a window's byte. Events are dropped by exactly the offers to a full channel
  and the sends that are refused or cut short (`DropsExactly`); those that look different are passed
  on in order if and only if no reader overtakes an earlier connection (`OrderExactly`), and all
  arrive in order if and only if neither happens (`EverythingExactly`). `OrderCanChange` gives a
  schedule that swaps two events without dropping any.
- A signature whose start, or a clock reading that opens a window, is second zero refuses every
  later write: `RefusedFromZeroOn`, and `ZeroStartRefuses` for a start of zero. Starting at the
  current time, as the program does, it never happens (`WritesSucceed`).

Where comments and code disagree the model follows the code: a window is four seconds, not five
(`asig/asig.go:18`); keys count when pressed, not released (`asig/alg-v0.go:30`); gap byte k
stands for k - 1 empty windows, since the window that ends the silence has its own byte
(`asig/alg-v1.go:27`); and `ErrEmptyString` in `asigx.go` is never returned, because splitting
never yields nothing.

## Model

| member | source | states |
|---|---|---|
| `Events.ApplyEventMeaning` | asig/alg_common.go:15-43 | an event sets the paste bit or advances the seven-bit count, which stops short of carrying into the paste bit |
| `Events.ScorePasted` | asig/alg_common.go:26-29 | a window has its paste bit if and only if some event in it was a paste |
| `Events.ScoreCounts` | asig/alg_common.go:15-43 | a window counts keys plus twice the mouse releases, in any order, up to 127; past that it reads 126 or 127 |
| `Events.ScoreInNumbers` | asig/alg_common.go:15-43 | for any events, the bit 128 says whether one is key 25 with control or special, and the low bits count the other keys and twice the releases up to 127 |
| `Signatures.Asig.NewCustom` | asig/asig.go:38-45 | a new signature has one empty window and its clock at the start |
| `Signatures.Asig.WriteV0` | asig/alg-v0.go:7-25 | the whole new state of a version 0 write: one byte for each window passed, the event in the last |
| `Signatures.Asig.WriteV1` | asig/alg-v1.go:7-24 | the whole new state of a version 1 write: a gap of two bytes for longer silences, clamped at 255 |
| `Signatures.Asig.Write` | asig/asig.go:54-69 | which writes are refused, with which error, and that a refused write changes nothing |
| `Signatures.WriteMeaning` | asig/asig.go:54-69 | a current second of zero is refused before a version over 1, and a refused write changes nothing |
| `Signatures.FourSeconds` | asig/alg-v0.go:9-10 | a window is the four seconds from a multiple of four on, before 1970 too |
| `Timeline.WindowsStep` | asig/alg-v0.go:16-24 | one more event opens exactly the windows the clock jumped over and rescores only the last |
| `Timeline.SlotIsClockWindow` | asig/alg-v0.go:9-10 | the current window is that of the highest clock reading so far, so a clock gone back changes nothing |
| `Timeline.RefusedFromZeroOn` | asig/asig.go:54-69 | whatever the start and the clock, a run is that of the writes before the first that meets a current second of zero; all later ones change nothing |
| `Timeline.ZeroStartRefuses` | asig/asig.go:38-62 | a signature started at second zero refuses every write and never changes |
| `Timeline.Version0Meaning` | asig/alg-v0.go:7-25 | after any run of accepted writes, clock going back and starts before 1970 included, byte i scores exactly the events that landed in window i |
| `Timeline.Version0Final` | asig/alg-v0.go:22-24 | bytes before the last never change again |
| `Timeline.Version1Decodes` | asig/alg-v1.go:7-24 | decoding the version 1 signature of any run of accepted writes gives the timeline with every silence clamped to 255 windows |
| `Timeline.Version1Meaning` | asig/alg-v1.go:11-23 | a version 1 signature is exactly the canonical encoding of its clamped timeline |
| `Timeline.UniquelyDecodable` | asig/alg-v1.go:11-23 | two runs leave the same bytes if and only if their clamped timelines agree |
| `Timeline.LosslessExactly` | asig/alg-v1.go:14-17 | version 1 decodes to what version 0 records if and only if no silence exceeds 255 windows |
| `GapCode.RoundTrip` | asig/README.md:7 | every encodable window sequence survives encoding and decoding |
| `GapCode.DecodeEncodes` | asig/alg-v1.go:26-27 | every decodable byte string is the one encoding of what it decodes to |
| `Scoring.Conservation` | asig/alg_common.go:25-43 | the counts of a run never exceed what was written, and equal it if and only if no window saturates |
| `Scoring.RunConservation` | asig/alg-v1.go:21-23 | both recorders account for the same total over any run |
| `Scoring.OrderIrrelevant` | asig/alg_common.go:15-43 | permuting a window's events keeps the paste bit and, short of saturation, the byte |
| `Vectors.Version1Example` | asig/asig_test.go:66-99 | the version 1 example of the tests has the bytes and the whole printed string its test expects |
| `Vectors.ParsedExample` | asig/encoding_string_test.go:94-99 | 0.CHBGagAAAAA..aaabbb parses to second 1783001096 and the bytes 105 166 155 109 |
| `Vectors.BadDataExample` | asig/encoding_string_test.go:87-92 | nine letters of data are refused |
| `Vectors.RefusedExamples` | asig/encoding_string_test.go:41-55 | too few fields and a version that is no number are refused as the tests expect |
| `Vectors.BadStartExamples` | asig/encoding_string_test.go:57-71 | a start that is not eight bytes is refused |
| `Vectors.UnpackedExamples` | asig/encoding_byte_test.go:28-51 | the packed examples of the tests, with data and without |
| `Vectors.PackedExample` | asig/encoding_byte.go:8-18 | one packed signature byte by byte |
| `Vectors.RecordExample` | cmd/affiro/internal/asigx/asigx.go:33-60 | one record, with a NUL and an empty text among its keys, byte by byte |
| `Vectors.PipedExample` | cmd/affiro/internal/keylogx/keylogx_windows.go:92-103 | one piped event byte by byte |
| `Base64.RoundTrip` | asig/encoding_string.go:20-24 | unpadded base64url decodes to what was encoded for every length residue |
| `Base64.DecodeEncodeCanonical` | asig/encoding_string.go:78-91 | text that decodes is re-encoded to itself if and only if it has no line breaks and clear trailing bits |
| `Base64.EncodedLength` | asig/encoding_string.go:24 | the encoded length is the number of bytes times four thirds, rounded up |
| `Base64Bits.DecodeMeaning` | asig/encoding_string.go:78-91 | letters of the alphabet, line breaks anywhere among them, decode if and only if they are not one more than a multiple of four, to the whole bytes of their bits, whatever is left over |
| `Base64Bits.DecodeRefuses` | asig/encoding_string.go:78-91 | a text with any other byte is refused |
| `Base64Bits.EveryText` | asig/encoding_string.go:78-91 | every text is of one kind or the other |
| `Decimal.ParseFormatUint` | asig/encoding_string.go:74-77 | every unsigned 64-bit version survives printing and parsing |
| `Decimal.FormatUintCanonical` | asig/encoding_string.go:74-77 | a digit string is the printed form of its value if and only if it has no superfluous zero |
| `Decimal.AtoiItoa` | cmd/affiro/internal/asigx/asigx.go:57-86 | every action count, negative ones included, survives printing and parsing |
| `Decimal.DigitMeaning` | asig/encoding_string.go:13-26 | a number prints as its quotient by ten and one more digit |
| `Decimal.ParseUintLimit` | asig/encoding_string.go:74-77 | a printed number is read back if and only if it is below 2^64 |
| `Decimal.ParseUintMeaning` | asig/encoding_string.go:74-77 | leading zeros change nothing; an empty version or one with another byte is refused |
| `Decimal.AtoiLimits` | cmd/affiro/internal/asigx/asigx.go:82-86 | which action counts are read, with a sign or without |
| `SigCodec.String` | asig/encoding_string.go:13-26 | the builder produces version, start, empty placeholder and data, joined by dots |
| `SigCodec.Bytes` | asig/encoding_byte.go:8-18 | the appends produce version, start, four zero bytes and data |
| `SigCodec.ParseBytes` | asig/encoding_byte.go:25-46 | the cursor reads those fields back, refuses fewer than 20 bytes and never yields empty data |
| `SigCodec.ParseMeaning` | asig/encoding_string.go:69-100 | what any dot-joined fields parse to: four are needed, the data is in the last, and which error comes first |
| `SigCodec.TextRoundTrip` | asig/encoding_string.go:13-100 | every version, start and data survive the text form |
| `SigCodec.CodecsAgree` | asig/encoding_byte.go:8-46 | the packed form parses to the same signature as the text form |
| `SigCodec.BytesNormalForm` | asig/encoding_byte.go:13-39 | packing what was unpacked returns the bytes if and only if there was data and the reserved bytes were zero |
| `SigCodec.ReparseStable` | asig/encoding_string.go:69-100 | printing and parsing again changes nothing, for any accepted text however irregular |
| `SigCodec.PrintedExactly` | asig/encoding_string.go:69-100 | an accepted text is what would be printed if and only if it is canonical |
| `Framing.Reader.ReadThrough` | asig/encoding_read.go:12-13 | reading to a delimiter takes the first line and leaves the rest, or takes everything |
| `Framing.Read` | asig/encoding_read.go:11-19 | the first line, newline removed, is what is parsed; the rest stays unread; no newline is an error |
| `Framing.NewlineIgnored` | asig/encoding_read.go:17 | a trailing newline never changes what a text parses to, errors included |
| `Framing.SignatureThenDocument` | client/client.go:114-115 | a signature, a newline and any document read back as that signature with exactly the document left |
| `Framing.SendAndReceive` | client/client.go:114-115 | the same through the printing and reading programs |
| `Records.Record.New` | cmd/affiro/internal/asigx/asigx.go:21-27 | a new record is empty, version 1, with room for 15 characters |
| `Records.Record.Write` | cmd/affiro/internal/asigx/asigx.go:33-49 | the whole new record after an event, counted even when the signature refuses it |
| `Records.Record.String` | cmd/affiro/internal/asigx/asigx.go:51-60 | the record prints as three lines |
| `Records.RecordRoundTrip` | cmd/affiro/internal/asigx/asigx.go:51-95 | a record parses back to itself if and only if its first characters contain no newline |
| `Records.ParseLines` | cmd/affiro/internal/asigx/asigx.go:65-95 | what one, two, three and more lines parse to |
| `Records.NotedMeaning` | cmd/affiro/internal/asigx/asigx.go:36-43 | after any run, one more text is noted if and only if there are fewer than fifteen bytes and it is not a lone NUL |
| `Records.ActionsShow` | cmd/affiro/internal/asigx/asigx.go:51-60 | records that print the same have the same number of actions |
| `Records.RecordGrows` | cmd/affiro/internal/asigx/asigx.go:33-60 | no write shortens the printed record |
| `Records.RunRecParts` | cmd/affiro/internal/asigx/asigx.go:44-45 | a record holds the signature of its writes and their number |
| `Records.FirstCharactersMeaning` | cmd/affiro/internal/asigx/asigx.go:36-43 | the first characters are everything typed up to the event that reached the limit |
| `Sessions.State.New` | cmd/affiro/internal/state/state.go:33-61 | a session starts with a reset to a fresh signature |
| `Sessions.State.Reset` | cmd/affiro/internal/state/state.go:64-86 | the state and files after a reset, for every point where it can fail |
| `Sessions.State.Refresh` | cmd/affiro/internal/state/state.go:88-102 | the file after an overwrite without truncation, complete or cut short, when nothing comes between taking the string and writing it |
| `Sessions.State.Write` | cmd/affiro/internal/state/state.go:142-160 | an event after more than five idle minutes is recorded after a reset, whether the reset worked or not |
| `Sessions.State.ListRecent` | cmd/affiro/internal/state/state.go:104-128 | the listing is the newest parseable files up to the limit, each shown as often as there are files that read as it unless there are more than the limit; an error if any file cannot be read, a crash on a negative limit |
| `Recents.FoundExactly` | cmd/affiro/internal/state/state.go:110-120 | a record is found exactly as often as there are files that read as it |
| `Recents.ListsEach` | cmd/affiro/internal/state/state.go:104-128 | no record is listed more often than that, and exactly that often if the limit leaves nothing out |
| `Recents.ListingMeaning` | cmd/affiro/internal/state/state.go:121-127 | a listing is in order, as long as the limit allows, and omits nothing newer than what it shows |
| `Histories.OverwriteExact` | cmd/affiro/internal/state/state.go:95-98 | overwriting leaves no stale tail if and only if the file was not longer |
| `Histories.FlushExact` | cmd/affiro/internal/state/state.go:88-102 | a flush touches the current file only, never makes it outgrow its string, and is exact when it succeeds |
| `Histories.ResetKeeps` | cmd/affiro/internal/state/state.go:64-86 | under any fault, a signature is retired only once its last string is in its file |
| `Histories.AfterTracked` | cmd/affiro/internal/state/state.go:142-160 | after any run under any faults, the current record is exactly the record of the events since it was started |
| `Histories.RunKeeps` | cmd/affiro/internal/state/state.go:64-160 | after any run under any faults, every retired signature whose name was not reused has its final string on file |
| `Guarantees.FlushedFileIsExact` | cmd/affiro/internal/state/state.go:88-102 | after any run under any faults, a successful flush leaves exactly the current string on file |
| `Guarantees.FiveMinutes` | cmd/affiro/internal/state/state.go:142-160 | an event within 300 seconds of the last touches no file and starts no signature; a later one, nothing refused, starts exactly one, with its file, start and reset times |
| `Guarantees.FirstPause` | cmd/affiro/internal/state/state.go:38-38 | after opening, a first event starts a second signature if and only if more than 300 seconds have passed |
| `Guarantees.RetiredReadsBack` | cmd/affiro/internal/state/state.go:64-86 | after any run under any faults, a retired record reads back if and only if its first characters contain no newline |
| `Guarantees.ResetErasesExactly` | cmd/affiro/internal/state/state.go:64-86 | a reset costs a retired signature its saved text if and only if it goes all the way and creates a file of the same name |
| `Guarantees.SharedFileHolds` | cmd/affiro/internal/state/state.go:64-102 | after any run, a shared file holds the final text of the last signature created under its name, so an earlier text survives if and only if it is the same; if that signature is current, the file holds what its flushes stored so far, and a further one makes it the current string |
| `Guarantees.FileHoldsLastStored` | cmd/affiro/internal/state/state.go:64-102 | after any run under any faults, the current file holds exactly the string of the last successful flush, with those cut short since written over it, and nothing if it is new |
| `Guarantees.SameSecondErases` | cmd/affiro/internal/state/state.go:76-81 | an event and a reset in the opening second leave the event's file empty |
| `Guarantees.NewlineSpoils` | cmd/affiro/internal/asigx/asigx.go:57-86 | a newline typed and a later reset leave a retired file that does not parse |
| `Guarantees.HistoryDecodes` | cmd/affiro/internal/state/state.go:64-160 | after any run under any faults and clocks, a retired file that reads back decodes to the score of exactly the events of each window, silences clamped; unclamped if and only if none exceeds 255 windows |
| `Silences.LosslessRunsExactly` | cmd/affiro/internal/state/state.go:142-160 | after any run under any faults and clocks, no signature has lost a silence if and only if no write met one over 255 windows without starting a new signature |
| `Silences.TransientErrorLoses` | cmd/affiro/internal/state/state.go:144-151 | one refused seek during an idle write loses the silence, in a session that is not stuck |
| `Silences.SuspendLoses` | cmd/affiro/internal/state/state.go:144 | so does a wall clock that ran on while the monotonic clock, which measures idleness, stood still |
| `Silences.SessionsAreLossless` | cmd/affiro/internal/state/state.go:142-160 | with steady clocks and working idle resets no signature pauses over 75 windows, so version 1 loses nothing |
| `Silences.HistoryTellsEverything` | cmd/affiro/internal/state/state.go:64-160 | then a retired file, parsed and decoded, gives the score of exactly the events of each window, every silence at full length |
| `Silences.FaultFreeResetsWork` | cmd/affiro/internal/state/state.go:64-86 | when nothing but flushes is refused, every idle reset works and no reset jams |
| `Guarantees.WritesSucceed` | cmd/affiro/internal/state/state.go:156-158 | after any run under any faults and clocks, no write is refused |
| `Failures.ResetSticksExactly` | cmd/affiro/internal/state/state.go:64-86 | a reset with an open file leaves a closed one if and only if its flush succeeds and closing or creating is refused |
| `Failures.StuckExactly` | cmd/affiro/internal/state/state.go:64-160 | after any run, the session is stuck if and only if some attempted reset, by hand or idle, met such a refusal |
| `Failures.OneRefusalSticks` | cmd/affiro/internal/state/state.go:70-81 | a single such refusal, and whatever follows is never saved |
| `Failures.StuckFileHolds` | cmd/affiro/internal/state/state.go:70-74 | after a refused close, and whatever follows, the file holds the string of that last flush, which is current if and only if no event was written since |
| `Failures.FindJam` | cmd/affiro/internal/state/state.go:64-86 | every stuck session has a call that made it so |
| `Failures.StuckForever` | cmd/affiro/internal/state/state.go:65-97 | once stuck, no call writes a file or starts a signature, and every flush fails |
| `Silences.StuckLosesSilence` | cmd/affiro/internal/state/state.go:144-156 | a stuck session records every silence over 255 windows as a shorter one |
| `Races.OverlapsFit` | cmd/affiro/internal/state/state.go:64-102 | however flushes, events and resets overlap and whatever they are refused, unless a string is stored in a later signature's file, an open file never outgrows its string |
| `Races.StoresBack` | cmd/affiro/internal/state/state.go:88-102 | over any run whose stores come in order, each into its own signature's file, every file whose name was not taken again holds the string stored last, or no more than its length if that was cut short |
| `Overlaps.UndisturbedFlush` | cmd/affiro/internal/state/state.go:88-102 | after any overlapping, a flush with nothing between its halves leaves exactly the current string if and only if the file has not outgrown it, as it never does unless a string was stored in a later signature's file |
| `Overlaps.LastStoreDecides` | cmd/affiro/internal/state/state.go:88-102 | after any run, the last store into a file makes it exact in the end if and only if the final string starts with what was stored and goes on like the file before; where the file was no longer than that, if and only if the string was stored whole and no event came after it was taken |
| `Overlaps.RetiredExactly` | cmd/affiro/internal/state/state.go:64-102 | over any run whose stores come in order, each into its own signature's file, a file is exact if and only if no event reached its signature after the take of the string last stored whole in it |
| `Overlaps.LateEventsUnsaved` | cmd/affiro/internal/state/state.go:64-86 | a file left alone does not change, and if it was exact stays so if and only if no event reaches its signature |
| `Overlaps.EventInBetweenUnsaved` | cmd/affiro/internal/state/state.go:92-93 | an event between a flush's two halves is missing from the retired file, though every store is in order |
| `Overlaps.OlderStringMisleads` | cmd/affiro/internal/state/state.go:92-97 | an older string of the same signature, stored after a newer one, leaves a retired file that parses without the character typed |
| `Overlaps.OlderStringHarmless` | cmd/affiro/internal/state/state.go:92-97 | an older string stored last can leave the file exact all the same, when it is a prefix of the newer one |
| `Overlaps.StaleStoreMisleads` | cmd/affiro/internal/state/state.go:92-97 | a flush overtaken by a reset leaves, even after the next flush, a file that parses with an action that never happened |
| `Guarantees.HistoryListed` | cmd/affiro/internal/state/state.go:104-128 | a listing shows every retired record that reads back, unless it is full of ones at least as new |
| `Evdev.ModifierState.Apply` | asig/keylog/internal/evdevdriver/modifiers.go:22-37 | the modifier fields after a press or release |
| `Evdev.ModsAreHeldKeys` | asig/keylog/internal/evdevdriver/modifiers.go:14-41 | each modifier flag says whether the latest record of its key was not a release |
| `Evdev.DecodeKeyEvent` | asig/keylog/internal/evdevdriver/reader.go:44-67 | modifiers first, then an event for presses and repeats of known keys only |
| `Evdev.ReadEvents` | asig/keylog/internal/evdevdriver/reader.go:73-89 | a reader queues exactly what the complete records of its stream emit, in order, and consumes it all |
| `RawRecords.RawRecordReads` | asig/keylog/internal/evdevdriver/reader.go:32-39 | a 16-byte timestamp and little-endian type, code and two's-complement value are read back as those three, whatever the timestamp |
| `RawRecords.RawStreamReads` | asig/keylog/internal/evdevdriver/reader.go:73-89 | raw records, and less than one more, are read back as exactly those records |
| `RawRecords.EmissionMeaning` | asig/keylog/internal/evdevdriver/reader.go:44-67 | by key codes in numbers: which records emit an event, and that its flags are the keys down |
| `Evdev.TrailingBytes` | asig/keylog/internal/evdevdriver/reader.go:76-78 | bytes short of a record add nothing |
| `Evdev.Queue.Emit` | asig/keylog/internal/evdevdriver/driver.go:18-22 | an emitted event becomes the newest pending one |
| `Evdev.Queue.Pop` | asig/keylog/internal/evdevdriver/driver.go:26-35 | the oldest pending event is returned and removed |
| `Keyboards.AnyScheduleShuffles` | asig/keylog/internal/evdevdriver/driver.go:18-96 | under every schedule, popped then pending events are a shuffle of the devices' own emissions, each in order |
| `Keyboards.FlagsAreOwn` | asig/keylog/internal/evdevdriver/driver.go:89-91 | an event's modifier flags are the keys its own device holds, whatever other devices do |
| `Paste.PasteEndToEnd` | asig/keylog/internal/evdevdriver/reader.go:44-67 | from raw bytes, a window has its paste bit if and only if V was pressed or repeated in it with a control or meta key held |
| `Paste.PasteFromBytes` | asig/keylog/internal/evdevdriver/reader.go:32-89 | the same from raw records byte by byte, whatever their timestamps, with all key codes in numbers |
| `Paste.TicksAreEmissions` | asig/keylog/internal/evdevdriver/reader.go:85-87 | what reaches the recorder is what the device's reader emits, in order |
| `Paste.PartialRecordIgnored` | asig/keylog/internal/evdevdriver/reader.go:76-78 | a trailing partial record changes nothing of that |
| `Inotify.DispatchInotifyEvents` | asig/keylog/internal/evdevdriver/discovery.go:90-112 | the loop stays inside the buffer, ends, and makes the calls of the walk |
| `Inotify.WalkInvertsEncoding` | asig/keylog/internal/evdevdriver/discovery.go:87-112 | on whole records and part of one more, exactly the calls of the whole records, in order |
| `Inotify.RecordCalls` | asig/keylog/internal/evdevdriver/discovery.go:90-111 | byte by byte: a record naming "event" and digits calls for an addition if bit 8 of its mask is set, else for a removal if bit 9 is; nothing else calls for anything |
| `Inotify.ProperPrefixIsPartial` | asig/keylog/internal/evdevdriver/discovery.go:96-98 | a record cut anywhere is recognised as incomplete |
| `Inotify.EveryBufferDecodes` | asig/keylog/internal/evdevdriver/discovery.go:90-100 | every buffer is whole records followed by part of one more |
| `Pipe.StrTo4Bytes` | cmd/affiro/internal/keylogx/keylogx_windows.go:118-131 | text is cut to four bytes or padded with NULs |
| `Pipe.SendEvent` | cmd/affiro/internal/keylogx/keylogx_windows.go:92-103 | the buffer filled in place is the event's twelve bytes |
| `Pipe.EventRoundTrip` | cmd/affiro/internal/keylogx/keylogx_windows.go:92-159 | an event arrives with its key and flags, and whole if and only if its text is four bytes long |
| `Pipe.TwelveBytes` | cmd/affiro/internal/keylogx/keylogx_windows.go:140-159 | what any twelve bytes are read as |
| `Pipe.HandleConn` | cmd/affiro/internal/keylogx/keylogx_windows.go:54-69 | a connection yields the events of its whole twelve-byte groups and drops the rest |
| `Pipe.StreamRoundTrip` | cmd/affiro/internal/keylogx/keylogx_windows.go:54-69 | within one connection, events arrive in order and a cut-off last one is dropped |
| `Pipe.SignatureUnchanged` | cmd/affiro/internal/keylogx/keylogx_windows.go:140-159 | forcing texts to four bytes changes no signature |
| `Pipe.FirstCharactersAffected` | cmd/affiro/internal/asigx/asigx.go:36-43 | over any run, a record's first characters agree throughout with those of the forced events if and only if every text noted below the limit has four bytes |
| `Pipe.TheyMayMeetAgain` | cmd/affiro/internal/asigx/asigx.go:36-43 | having parted they can end up equal: a long text followed by its own tail in pieces of four bytes |
| `Connections.ArrivedIsReceived` | cmd/affiro/internal/keylogx/keylogx_windows.go:54-114 | a connection yields its one event if it was written whole, and nothing otherwise |
| `Connections.AnyScheduleConserves` | cmd/affiro/internal/keylogx/keylogx_windows.go:39-116 | under every schedule and any refusals, what was written whole is a subsequence of what was offered, short of exactly the drops, and what was received or is in flight is a permutation of it, texts forced to four bytes |
| `Connections.DropsExactly` | cmd/affiro/main.go:262-265 | nothing is lost if and only if no event is offered to a full channel or sent undialed or short |
| `Connections.TwentyHeld` | cmd/affiro/internal/keylogx/keylogx_windows.go:83-83 | of events offered in a row, those past the twentieth are dropped |
| `Connections.WhatSurvives` | cmd/affiro/internal/keylogx/keylogx_windows.go:39-116 | in the end a window's paste bit and weight are those of the events that got through, which are all events if and only if nothing was dropped |
| `Connections.NothingInvented` | cmd/affiro/internal/keylogx/keylogx_windows.go:39-116 | at any moment and whatever the receive times, the recorded counts never exceed what was offered |
| `Connections.OrderCanChange` | cmd/affiro/internal/keylogx/keylogx_windows.go:41-49 | two events can swap without any being dropped |
| `Overtaking.QueuedUnlessOvertaken` | cmd/affiro/internal/keylogx/keylogx_windows.go:39-69 | as long as no reader passes on an event while an earlier connection holds one, what was passed on and is in flight is what was written, in order |
| `Overtaking.OrderExactly` | cmd/affiro/internal/keylogx/keylogx_windows.go:39-69 | under every schedule, events that look different are passed on in the order they were written if and only if no reader overtakes another |
| `Overtaking.EverythingExactly` | cmd/affiro/internal/keylogx/keylogx_windows.go:39-116 | in the end all events have arrived in order if nothing was dropped or overtaken, and for events that look different only then |
| `Randomart.Randomart` | asig/encoding_randomart.go:32-90 | the grid loop draws the picture that the walk's visit counts define |
| `Randomart.PictureShape` | asig/encoding_randomart.go:70-87 | the picture has height + 2 lines of width + 2 characters, each cell from the character set |
| `Randomart.WalkStaysInside` | asig/encoding_randomart.go:57-58 | the walk never leaves the grid |
| `Randomart.VisitsAddUp` | asig/encoding_randomart.go:43-65 | the visits of all cells add up to the steps of the walk |
| `Bishop.StepMeaning` | asig/encoding_randomart.go:41-58 | the walk starts in the middle and the k-th step of a byte goes right if and only if bit 2k is set and down if and only if bit 2k + 1 is, stopped at the walls, for all three sizes |
| `Bishop.FreeRunEnds` | asig/encoding_randomart.go:43-58 | a walk that meets no wall ends at the middle plus set minus clear bits |
| `Bishop.CharacterMeaning` | asig/encoding_randomart.go:34-81 | every cell's character: S at the end, L in the middle, else by the number of steps that ended there, up to twelve |
| `Bishop.PictureExample` | asig/encoding_randomart_test.go:19-23 | the whole small picture of an empty signature |
| `Circle.DrawCircleOutline` | cmd/affiro/internal/oakx/render.go:59-79 | exactly the four turns of the arc are painted, and the error term returned is 2r + 1 (0 when r is 1, 2 when r is 0) |
| `Circle.ArcOnCircle` | cmd/affiro/internal/oakx/render.go:60-74 | every plotted point is within half a pixel of the circle |
| `Circle.PaintedOnCircle` | cmd/affiro/internal/oakx/render.go:59-79 | every painted pixel is within half a pixel of the circle about the center |
| `Circle.CompassPainted` | cmd/affiro/internal/oakx/render.go:61-65 | the pixels at distance r straight ahead of the center are painted |
| `Circle.OutlineCloses` | cmd/affiro/internal/oakx/render.go:61-77 | the four arcs join into one closed line of single-pixel steps |

## Left out

- Network, browser, clipboard, update and authentication code; windows, buttons and text input; circle fill; QR images.
- Capture from the operating system: device opening and capability probing, polling, the X11, macOS and Windows hooks. The model starts from byte buffers and record lists.
- Device hot-plug bookkeeping: the map of active devices is not kept consistent by the source either.
- The key tables: a parameter, of which only "the V key alone types a V" is used.
- Sessions.State.Refresh: takes its string and writes it in one step, as every run of `Histories` does; what may come between the two in the source is the subject of `Races` and `Overlaps`.
- Sessions.State.Write: reads each clock once, where the source reads them several times within one call.
- Signatures.Asig.WriteV0: has all the memory a clock jump asks for.
- SigCodec.ParseBytes: returns data as a value, where the source shares its input slice.
- Pipe.HandleConn: ends when the connection does; the source would retry after other read errors.
- Histories.RunKeeps: covers runs of up to 2^63 - 1 calls; past that an action count can wrap around and the printed record get shorter.
- The 30-second flush, which as written fires once (`cmd/affiro/main.go:202`), and the reset timer: a flush or reset may happen at any time.
- The background worker's waiting after a refused dial, and when each event is received: a window of the receiver is whatever its clock says then.
- Files changed by other programs while a session runs.
- Circle.DrawCircleOutline: takes a radius that is not negative.
- Byte order: raw keyboard and inotify fields are read as little-endian, as on the machines the program is built for.
