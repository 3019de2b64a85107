# A verified model of the web tier's cores

The repository is the Rust web tier of a camera system. This project models the parts of it that carry
state or parse text by hand, and proves what they are relied on for. Everything is stated for all inputs,
all runs or all reachable states; there is one module per component, and helper modules (`Decimal`, `Sets`,
`Wrappers`, `Bytes`) hold what several of them share.

Text and bytes

- **JSON** (`JsonGrammar`, `JsonScanner`, `JsonDecoder`, `JsonTheorems`, `JsonAcceptance`, `JsonErrors`,
  `JsonErrorMeaning`, `JsonPrinter`, `JsonUnique`). The grammar is a type of trees with a function that writes them
  out; the scanner is proved to accept exactly what trees write, both ways, a text to have one tree only, and the
  printer to write trees that mean what was printed. What an error says is stated by the grammar too: which
  beginnings of the text some document begins with (`JsonErrors.Viable`), and what could have come next
  (`JsonErrorMeaning.Explains`).
- **UTF-8** (`Utf8`). The encoding is defined on characters and the validator is compared with it.
- **Base64** (`Base64`). The encoding is also stated as section 4 of RFC 4648 puts it, as bits in groups of six.
- **Timestamps** (`PyDateTime`, `IsoAcceptance`, `IsoRoundTrip`, `IsoUtc`), with the proleptic Gregorian calendar and ISO weeks.
- **CSV** (`CsvExport`), against a character-at-a-time reader for section 2 of RFC 4180.
- **Integers** (`PyInt`, `PyIntTheorems`, `PyIntAcceptance`), against the integer a string denotes and a grammar of what is accepted.

State

- **The segment cache** (`SegmentName`, `SegmentBucket`, `SegmentStore`): a class with its running byte total,
  whose validity says that the total is the walked one.
- **The auth cache** (`AuthCache`, `AuthProtocol`): the class, and a step machine of readers, writers and lookups
  built from the class's own specification functions.
- **Viewer seconds** (`ViewerUsage`): a step machine at the grain of lock sections and SQL statements.
- **The email outbox** (`EmailOutbox`, `OutboxTick`, `OutboxRefinement`): a step machine with crashes, lost
  answers, reclaims and retention, the tick as a class method, and a proof that a tick is a run of the machine.
- **The motion cooldown** (`MotionCooldown`, `MotionEmails`, `MotionDigests`): the immediate-email path and the
  digest loop, one SQL statement a step, any of which may fail.
- **The run cap** (`RunCap`): transactions under read-committed visibility and a per-organisation lock.
- **The rate limiter** (`RateLimiter`): a class and its runs.

A step machine's runs are pairs of sequences, states and steps, each state following from the one before by
its step. Clocks, network answers and scheduling are inputs. Loops of the program are loops here, proved
against specification functions; lemmas speak about those functions. `hide` only keeps a proof from
unfolding what it does not need.

## What turned out differently

Nine things do not hold as one would first put them. Each is stated with the condition under which it does
and with a lemma that reaches a failure; for the two motion properties every violation of the condition is
shown to lead to one.

1. *Motion emails closer than the cooldown.* `MotionEmails.Harms` lists what brings two emails together. A claim
   decides while an anchor stands that it could not read (a failed read counts as no anchor, `BlindByFailedRead`),
   or it could not read the cooldown and by the fifteen minutes used instead the window is over; those are exactly
   the claims that go ahead wrongly (`OverridesExactly`). The row that `settings::set` looked up is gone when its
   update by id comes (`backend-rs/src/settings.rs:58-98`), which the digest's conditional delete can bring about
   with no statement failing; the write fails; or a delete hits an anchor that stands, by id after an unreadable
   value was re-armed, or by a shorter fallback cooldown. Without such a step emails are spaced
   (`EmailsAreSpaced`); after any such step two can come too close (`HarmShows`); `LossHappens` and
   `FailedReadHappens` are runs that do.
2. *A motion event in two digests.* `MotionDigests.Repeats`: a tick ends after its report and before its delete,
   by a failed statement or a crash, or it reports a window into which a newer anchor was already set or claimed.
   Without it events are counted once (`EventCountedOnce`), after it one can be counted twice (`RepeatShows`),
   and `FailedDeleteHappens` is a run. While no read fails only the first kind remains, and of item 1 only the
   missed update, the failed write and the drop of a re-armed value (`FaultsWithoutFailedReads`).
3. *Settled outbox rows never change.* A delivery report turns a sent row into a suppressed one
   (`backend-rs/src/api/webhooks.rs:181`), and retention deletes old ones. A settled row changes or goes in those
   steps and no other (`EmailOutbox.SettledRowChangesOnlyByWebhook`); `ReportHappens` is a run.
4. *`str_as_int` reads what the string says.* Zeros before a minus are dropped and the minus kept, so `0-5` is
   read as -5. An accepted string denotes an integer exactly when it is not of that form
   (`PyIntTheorems.CoercionIsDenotation`); `ZeroThenNegativeIsAccepted` gives the family, and
   `PyIntAcceptance.AcceptedExactly` everything that is accepted.
5. *The two integer coercions agree.* They differ on one value, -2^63, which `python_int` reports as too big
   (`PyIntTheorems.CoercionsAgree`, `LeastIsTooBig`).
6. *The viewer figure never exceeds what was watched.* A warm-up works out the month three times, for its cache
   test, its query and its store (`backend-rs/src/hls.rs:604-633`), so one that spans a month's end caches the old
   month's seconds under the new month. The report exceeds the true count exactly when the last figure cached was
   such a one and is more than what is stored, on its way and lost together (`ViewerUsage.ExceedsExactly`); in
   every run without such a warm-up it does not (`ReportNeverExceeds`), and `MonthEndHappens` is a run. An
   organisation that was over its cap is then refused before anything is recorded
   (`backend-rs/src/api/hls.rs:416-431`), so no flush puts the figure right.
7. *The viewer figure is exact after a flush.* It is while the flush's own total is the last figure put into the
   cache and no later write loses its answer (`ViewerUsage.ExactAfterFlush`); in general exactly when the last figure
   was the table's own then and none did (`ViewerUsage.ExactBetweenFlushes`). `OldWarmUpHappens` and
   `LostAnswerHappens` are runs that end short.
8. *A window admits at most twice the limit.* The counter is 32 bits wide. The bound holds in all runs whose
   windows hold at most m requests of the bucket exactly when m < 2^32 (`RateLimiter.ThresholdExactly`);
   `WrappingAdmitsMore` is a run with 2^32 in one window, and no more in any, that exceeds it.
9. *Where a comma is missed or data is extra, no document goes on with what stands there.* After a number it may:
   in `[1.x` the comma is missed at the point, and `[1.0]` goes on with it (`JsonErrorMeaning.NumberCutShort`). A
   document goes on with the character at the reported position exactly when it follows a number directly and is a
   point or an exponent letter the number could have had (`JsonErrorMeaning.Complete`, part of what
   `ErrorExplained` proves); what stands there is then never a whole fraction or exponent. And a `\u` escape that is
   complete but ends the text is reported as invalid, not as an open string.

The look-ahead for surrogate pairs in the JSON scanner changes nothing that can be observed
(`JsonTheorems.PairingIsUnobservable`), and the recomputed byte total of the stale sweep is the only thing that
takes the swept bytes off; the running total had not drifted.

## Model

| member | source | states |
|---|---|---|
| `JsonDecoder.PythonDecodeError` | backend-rs/src/pyjson.rs:38-60 | no error exactly when the text is a document of the grammar (RFC 8259 with `NaN` and infinities) nested at most 900 deep; every reported error says, against the grammar, what is wrong and where |
| `JsonErrorMeaning.ErrorExplained` | backend-rs/src/pyjson.rs:38-300 | every error is explained by the grammar: up to its position the text begins some document, outside or inside a string as the message has it; a value, name, colon, comma or bracket could have come there as the message says; and no document goes on with what did come, or no value or literal begins there; nesting is too deep exactly where the 901st container opens |
| `JsonErrorMeaning.NumberCutShort` | backend-rs/src/pyjson.rs:130-172 | the comma missed in `[1.x` stands where a document could have gone on |
| `JsonErrors.ValueSpotPlaced` | backend-rs/src/pyjson.rs:92-300 | where a scan stops, everything before is in place: after it any value, member or closing bracket of that depth could stand, and a document would come of it |
| `JsonErrors.ValueStays` | backend-rs/src/pyjson.rs:92-300 | a text that agrees up to that spot and fails there fails as a whole, so no document continues it |
| `JsonDecoder.Decoder.ScanOnce` | backend-rs/src/pyjson.rs:92-127 | one value, with the depth counter restored on success |
| `JsonDecoder.Decoder.Number` | backend-rs/src/pyjson.rs:130-172 | the index loops compute the number scan whose soundness and completeness are proved |
| `JsonDecoder.Decoder.ScanStringFrom` | backend-rs/src/pyjson.rs:178-250 | the string loop, surrogate look-ahead included, computes the string scan |
| `JsonDecoder.Decoder.ObjectFrom` | backend-rs/src/pyjson.rs:253-281 | the member loop computes the object scan at the current depth |
| `JsonDecoder.Decoder.ArrayFrom` | backend-rs/src/pyjson.rs:284-300 | the element loop computes the array scan at the current depth |
| `JsonTheorems.PairingIsUnobservable` | backend-rs/src/pyjson.rs:214-248 | reading an escaped surrogate pair together gives the same result and position as reading its halves |
| `JsonTheorems.QuotedComplete` | backend-rs/src/pyjson.rs:178-250 | every well-formed string literal is scanned to its end |
| `JsonTheorems.QuotedSound` | backend-rs/src/pyjson.rs:178-250 | whatever the string scan accepts is a well-formed literal |
| `JsonTheorems.NumberComplete` | backend-rs/src/pyjson.rs:130-172 | every number of the grammar is scanned to its end |
| `JsonTheorems.NumberSound` | backend-rs/src/pyjson.rs:130-172 | whatever the number scan accepts is a number of the grammar |
| `JsonAcceptance.ValueComplete` | backend-rs/src/pyjson.rs:92-300 | the text of any tree within the depth is scanned, stopping exactly at its end |
| `JsonAcceptance.ValueSound` | backend-rs/src/pyjson.rs:92-300 | whatever is scanned is the text of a tree within the depth |
| `JsonAcceptance.AcceptsExactlyTheGrammar` | backend-rs/src/pyjson.rs:38-300 | acceptance is membership in the grammar, both ways |
| `JsonPrinter.PythonJsonString` | backend-rs/src/audit.rs:136-168 | the escaping loop writes the literal of the string |
| `JsonPrinter.LiteralIsPrintable` | backend-rs/src/audit.rs:136-168 | a literal is printable ASCII whatever the string |
| `JsonPrinter.LiteralRoundTrip` | backend-rs/src/audit.rs:136-168 | undoing the escapes by section 7 of RFC 8259, surrogate pairs included, gives the string back |
| `JsonPrinter.PrintThen` | backend-rs/src/audit.rs:87-121 | both printings of a value are the text of a tree of the grammar |
| `JsonPrinter.PrintedIsScannedWhole` | backend-rs/src/audit.rs:87-121 | the scanner stops exactly at the end of a printed value, whatever may follow it |
| `JsonPrinter.PrintedIsAccepted` | backend-rs/src/audit.rs:87-121 | a printed value nested at most 900 deep is accepted by the scanner |
| `JsonPrinter.PythonJson` | backend-rs/src/audit.rs:67-81 | the loop over ordered pairs prints the object they make |
| `JsonPrinter.CharWritten` | backend-rs/src/audit.rs:136-168 | printable ASCII is written as itself, a quote, a backslash and five controls by their short escapes, everything else by its number in four small hexadecimal digits, once or as a pair |
| `JsonPrinter.Separators` | backend-rs/src/audit.rs:87-121 | commas and colons are followed by one space in the default style and by none in the compact one |
| `JsonUnique.DocumentUnique` | backend-rs/src/pyjson.rs:38-300 | a document is the text of one tree only, so it is read in one way |
| `JsonUnique.TreeUnique` | backend-rs/src/pyjson.rs:92-300 | two trees with the same text before a lawful follower are the same tree |
| `JsonUnique.PrintedMeans` | backend-rs/src/audit.rs:87-168 | however a printed value is read, it is read as that value, in both styles |
| `Utf8.FindError` | backend-rs/src/pycodec.rs:56-106 | no error exactly for concatenations of encoded characters; a report's start ends the longest well-formed prefix, truncation is reported exactly when more bytes could repair the input, and a bad continuation's span is the longest viable prefix |
| `Utf8.CompleteIsEncoded` | backend-rs/src/pycodec.rs:56-106 | every sequence the lead-byte table allows is the encoding of a character |
| `Utf8.EncodedIsComplete` | backend-rs/src/pycodec.rs:56-106 | the encoding of every character is a sequence the table allows |
| `Base64.Encode` | backend-rs/src/crypto.rs:92-121 | the loop over chunks of three writes the encoding in either alphabet, padded or not |
| `Base64.SextetsCarryBits` | backend-rs/src/crypto.rs:92-121 | the six-bit groups are the bytes' bits in order, then fewer than six zeros |
| `Base64.TopIsCompleted` | backend-rs/src/crypto.rs:74-89 | the byte taken from the wrapping accumulator depends on the last two groups only |
| `Base64.StrictDecode` | backend-rs/src/crypto.rs:74-89 | the accumulator loop, in either alphabet, computes the regrouping of the symbols before the padding, or fails on a foreign one |
| `Base64.StrictRoundTrip` | backend-rs/src/ratelimit.rs:349-367 | strict decoding of an encoding returns the bytes, in both alphabets |
| `Base64.LenientDecode` | backend-rs/src/crypto.rs:132-168 | discards foreign characters, reports the two padding errors, and regroups the rest |
| `Base64.LenientNeedsPadding` | backend-rs/src/crypto.rs:132-168 | the symbols of a byte string with any number of padding bytes are read as it exactly if there are enough of them, and otherwise refused for the padding |
| `Base64.LenientOneTooMany` | backend-rs/src/crypto.rs:132-168 | one symbol more than whole groups is the other error, however much padding follows |
| `Base64.NoiseIsInvisible` | backend-rs/src/crypto.rs:132-168 | foreign characters inserted anywhere change nothing |
| `Base64.LenientRoundTrip` | backend-rs/src/crypto.rs:132-168 | lenient decoding of a padded encoding, foreign characters strewn through it, returns the bytes |
| `PyDateTime.ParseDigits` | backend-rs/src/pydatetime.rs:73-83 | the digits' number and the place after them, or nothing |
| `PyDateTime.WeekDate` | backend-rs/src/pydatetime.rs:98-135 | a date of the calendar whose ordinal is that day of that week, counted from the Monday of week 1 |
| `PyDateTime.Week1HasJanuary4` | backend-rs/src/pydatetime.rs:98-135 | week 1 starts on a Monday and has January 4th in it |
| `PyDateTime.EpochIsThursday` | backend-rs/src/pydatetime.rs:98-135 | the weekdays are those of the calendar |
| `PyDateTime.LongYears` | backend-rs/src/pydatetime.rs:102-111 | the weekday test for week 53 holds exactly when the next year's week 1 is 53 weeks later |
| `PyDateTime.WeekDateExactly` | backend-rs/src/pydatetime.rs:98-135 | the week dates accepted are exactly those of the ISO calendar |
| `PyDateTime.FindSeparator` | backend-rs/src/pydatetime.rs:289-324 | the place of the separator, between 7 and 10, or -1 |
| `PyDateTime.NoSeparatorNoDate` | backend-rs/src/pydatetime.rs:289-332 | when the separator is -1 the date is refused, so -1 is never used as a position |
| `PyDateTime.ParseDate` | backend-rs/src/pydatetime.rs:139-185 | the moving position computes the date fields, week form included |
| `PyDateTime.ParseClock` | backend-rs/src/pydatetime.rs:189-231 | the field loop and the fraction, with no underflow in `end - p` and no table index out of range |
| `PyDateTime.CorrectionIsThePower` | backend-rs/src/pydatetime.rs:216-226 | the correction table scales a short fraction to microseconds |
| `PyDateTime.FractionIsWorth` | backend-rs/src/pydatetime.rs:213-231 | a fraction of n digits is worth that many n-th powers of a tenth of a second |
| `PyDateTime.SkipsOneCharacter` | backend-rs/src/pydatetime.rs:341-356 | the separator skipped is exactly one character, whatever its width in bytes |
| `PyDateTime.ParseTime` | backend-rs/src/pydatetime.rs:241-286 | the clock, the zone mark found by the do/while, and the signed offset |
| `PyDateTime.FromIsoFormat` | backend-rs/src/pydatetime.rs:327-405 | the whole reader, for every string |
| `PyDateTime.Read` | backend-rs/src/pydatetime.rs:327-405 | what is returned is a real date and time of years 1 to 9999 with an offset strictly inside a day |
| `IsoAcceptance.ReadExactly` | backend-rs/src/pydatetime.rs:327-405 | a text is accepted, and as what, exactly by where its digits and marks stand: date form, separator, clock, zone |
| `IsoAcceptance.DateExactly` | backend-rs/src/pydatetime.rs:139-185 | the dates read are exactly the calendar and week forms, and the separator found is where they end |
| `IsoAcceptance.ClockExactly` | backend-rs/src/pydatetime.rs:189-231 | a clock is read exactly as one to three fields, all with colons or none, and an ending |
| `IsoAcceptance.TimeExactly` | backend-rs/src/pydatetime.rs:241-286 | a time is a clock up to the first zone mark and nothing, `Z` or a signed clock after it; a byte between the clocks is ignored |
| `IsoRoundTrip.RoundTrip` | backend-rs/src/models.rs:85-93 | reading a written timestamp, with any whole-second zone appended, returns it and that offset |
| `IsoRoundTrip.NaiveRoundTrip` | backend-rs/src/models.rs:85-93 | reading a written timestamp returns it with no offset |
| `IsoRoundTrip.IsoShape` | backend-rs/src/models.rs:85-93 | nineteen characters, or twenty-six with microseconds, with the dashes, the `T`, the colons and the point in their places |
| `IsoRoundTrip.EveryOffsetIsWritten` | backend-rs/src/pydatetime.rs:273-286 | every whole-second offset strictly inside a day has such a zone |
| `IsoUtc.Earlier` | backend-rs/src/pydatetime.rs:414-424 | the date and time whose instant is the given one less the offset |
| `IsoUtc.InstantInjective` | backend-rs/src/pydatetime.rs:414-430 | a timestamp is determined by its instant |
| `IsoUtc.MovesToUtc` | backend-rs/src/pydatetime.rs:407-430 | the result is the one timestamp at the instant less the offset, and overflow exactly when that is outside years 1 to 9999 |
| `CsvExport.Rendered` | backend-rs/src/csv_export.rs:82-102 | a text cell never begins with a formula character; an apostrophe is put before exactly those that would |
| `CsvExport.WriteRow` | backend-rs/src/csv_export.rs:218-246 | the nested loops append the row's text |
| `CsvExport.QuotedOnlyWhenNeeded` | backend-rs/src/csv_export.rs:225-244 | a field is quoted exactly when it has a comma, a quote or a line break in it, or is empty and alone |
| `CsvExport.RoundTrip` | backend-rs/src/csv_export.rs:218-246 | a file reads back as the rows written, whatever an empty line stands for if rows are non-empty, and empty rows too where it stands for them |
| `CsvExport.Chunker.Next` | backend-rs/src/csv_export.rs:282-324 | one item: the fewest rows that reach the target, or the rest, or the failure |
| `CsvExport.Download` | backend-rs/src/csv_export.rs:254-324 | the chunks concatenate to the unchunked file; after a failure the client holds exactly the whole chunks before it, the rows not delivered are less than a chunk, and it is told |
| `PyInt.StripLeadingZeros` | backend-rs/src/pyint.rs:149-166 | the character loop computes the stripped suffix |
| `PyInt.CleanIntStr` | backend-rs/src/pyint.rs:180-219 | the slice, reassigned step by step, is the cleaned text |
| `PyInt.PythonInt` | backend-rs/src/pyint.rs:246-293 | exactly the strings of a sign and digits with single underscores between them, with their value |
| `PyIntTheorems.JiterReads` | backend-rs/src/pyint.rs:102-144 | what is accepted is a minus and digits, and the value is theirs, or its sign beyond 64 bits |
| `PyIntTheorems.JiterExactly` | backend-rs/src/pyint.rs:102-144 | accepted are exactly an optional minus and digits with no zero in front, at most 4300 characters |
| `PyIntTheorems.CoercionIsDenotation` | backend-rs/src/pyint.rs:149-230 | an accepted string denotes an integer exactly when it has no zeros before a minus, and then that integer is returned |
| `PyIntTheorems.ZeroThenNegativeIsAccepted` | backend-rs/src/pyint.rs:149-166 | a zero before any negative 64-bit number is accepted as that number |
| `PyIntAcceptance.AcceptedExactly` | backend-rs/src/pyint.rs:149-230 | a string is accepted exactly when it is in the grammar: sign, digits with single underscores between them and any among zeros in front, a point and zeros, spaces around, at most 4300 characters that count; or the misread family |
| `PyIntAcceptance.CleanedIsPiped` | backend-rs/src/pyint.rs:180-230 | refusing an unchanged text loses nothing that would be read |
| `PyIntAcceptance.IntIsAccepted` | backend-rs/src/pyint.rs:222-293 | what `int()` reads is read as what it denotes, while its digits are not too many |
| `PyIntTheorems.PrintRoundTrip` | backend-rs/src/pyint.rs:222-230 | the decimal printing of every 64-bit integer is read back |
| `PyIntTheorems.PythonIsDenotation` | backend-rs/src/pyint.rs:246-293 | what `int()` accepts denotes an integer, and only -2^63 comes back as too big though it fits |
| `PyIntTheorems.CoercionsAgree` | backend-rs/src/pyint.rs:222-293 | a string both accept gives the same result exactly when it does not denote -2^63 |
| `PyIntTheorems.LeastIsTooBig` | backend-rs/src/pyint.rs:222-293 | both accept the printing of -2^63 and answer differently |
| `SegmentName.CompareAntisymmetric` | backend-rs/src/hls.rs:93-107 | swapping the names flips the order, and only equal names compare equal |
| `SegmentName.CompareTransitive` | backend-rs/src/hls.rs:93-107 | the order is transitive |
| `SegmentName.NamesOrderAsNumbers` | backend-rs/src/hls.rs:61-107 | zero-padded segment names order as their numbers, at any width |
| `SegmentBucket.InsertMembers` | backend-rs/src/hls.rs:349-360 | an insert replaces the entry of that name, keeps every other and keeps the order |
| `SegmentBucket.NumberedIsSorted` | backend-rs/src/hls.rs:61-107 | segments named by increasing numbers are in name order |
| `SegmentStore.Store.EvictPerCamera` | backend-rs/src/hls.rs:762-777 | the camera keeps as many as it may, whatever it drops comes before whatever it keeps, others are untouched, and the total stays the walked one |
| `SegmentBucket.LastIsNewest` | backend-rs/src/hls.rs:762-777 | dropping from the front of a bucket in name order keeps the newest |
| `SegmentBucket.OneNewest` | backend-rs/src/hls.rs:762-777 | there is only one choice of the newest so many |
| `SegmentStore.Store.EvictGlobalOldest` | backend-rs/src/hls.rs:787-830 | what is evicted is the shortest prefix, in order of time, camera and name, that reaches the low-water mark; nothing evicted is newer than anything kept |
| `SegmentStore.OneListing` | backend-rs/src/hls.rs:787-830 | that order lists any set of segments in one way only |
| `SegmentStore.Store.PushSegment` | backend-rs/src/hls.rs:349-372 | insert, trim the camera to its newest with the new one among them, evict the oldest of all; the total stays the walked one and ends within the cap |
| `SegmentStore.Store.Segment` | backend-rs/src/hls.rs:375-384 | the body held under that name, or nothing |
| `SegmentStore.Store.SnapshotRecent` | backend-rs/src/hls.rs:416-432 | the bodies of the newest segments, oldest first: whatever is left out comes before them |
| `SegmentStore.Store.CleanupCamera` | backend-rs/src/hls.rs:436-447 | the camera is gone and the total stays the walked one |
| `SegmentStore.Store.RecomputeBytes` | backend-rs/src/hls.rs:833-840 | the walk computes the sum of all bodies |
| `SegmentStore.Store.EvictStaleCameras` | backend-rs/src/hls.rs:465-496 | exactly the cameras with nothing from the last minute go, and the recomputed total takes off exactly what was swept |
| `SegmentStore.LiveStream` | backend-rs/src/hls.rs:349-372 | in any interleaving of pushes to any cameras, a camera whose names arrive in order holds the newest of what it held and was pushed |
| `SegmentStore.NewestIsHeld` | backend-rs/src/hls.rs:349-372 | the last push to such a camera is held, as its last, and everything that went came before everything that is held |
| `SegmentStore.LiveSnapshot` | backend-rs/src/hls.rs:416-432 | a snapshot of such a camera is the newest of those, oldest first |
| `SegmentStore.PushAll` | backend-rs/src/hls.rs:349-372 | a sequence of `push_segment` calls whose total stays within the cap has exactly that effect, and leaves every camera the newest of what it was pushed |
| `AuthCache.Cache.Sync` | backend-rs/src/hls.rs:210-221 | the maps are dropped when the generation has moved |
| `AuthCache.Cache.CachedPushNode` | backend-rs/src/hls.rs:274-281 | a fresh answer filed under the current generation, or nothing; the lookups of the other two maps are the same |
| `AuthCache.Cache.CachePushNode` | backend-rs/src/hls.rs:283-294 | an answer is stored only if its generation is still the current one and the map has room or has been cleared; the stores of the other two maps are the same |
| `AuthProtocol.StepKeepsInv` | backend-rs/src/hls.rs:156-242 | every step of readers, writers and lookups keeps every cached answer as new as the generation it is filed under |
| `AuthProtocol.NoStaleAnswer` | backend-rs/src/hls.rs:156-339 | in every interleaving, a lookup that synced after a writer's bump never returns an answer queried before that writer's commit, and no map exceeds its cap |
| `AuthProtocol.HitExactly` | backend-rs/src/hls.rs:223-339 | in every interleaving, a lookup returns an answer exactly if it was filed for that question under the generation the lookup's sync loaded, less than the lifetime before, and no later put of the question and no put into the full map has pushed it out |
| `ViewerUsage.NothingDisappears` | backend-rs/src/hls.rs:596-694 | the starting total plus recorded seconds is stored plus pending plus in flight plus lost, in every interleaving, failed and half-failed writes included |
| `ViewerUsage.ReportNeverExceeds` | backend-rs/src/hls.rs:604-645 | in every run in which no warm-up stores another month's figure for the key, neither the report nor the answer to a warm-up exceeds the true count |
| `ViewerUsage.ReportDiffersBy` | backend-rs/src/hls.rs:604-645 | the report falls short by exactly what is in flight, lost, or newer in the table than in the cache |
| `ViewerUsage.ExceedsExactly` | backend-rs/src/hls.rs:604-645 | it exceeds exactly when the last figure cached was another month's and is more than stored, in flight and lost together |
| `ViewerUsage.AnswerExceedsExactly` | backend-rs/src/hls.rs:613-645 | so does the answer to a warm-up |
| `ViewerUsage.MonthEndHappens` | backend-rs/src/hls.rs:613-645 | a run in which a warm-up queries one month and stores under the next, which begins with the last one's seconds |
| `ViewerUsage.ExactBetweenFlushes` | backend-rs/src/hls.rs:613-694 | between flushes the report misses only what was lost exactly when the last figure cached was a flush's total, or a warm-up's reading that was still the table's own, and no write lost its answer since; or was another month's that the table happens to hold |
| `ViewerUsage.ExactAfterFlush` | backend-rs/src/hls.rs:652-694 | once a flush has posted its total, and while no write loses its answer, the report misses only what was lost |
| `ViewerUsage.CleanRunIsExact` | backend-rs/src/hls.rs:652-694 | in a run whose writes all succeed the report after a flush is the true count |
| `ViewerUsage.WriteCarries` | backend-rs/src/hls.rs:669-691 | a write stores what the statement can carry and loses only what is above it |
| `ViewerUsage.WarmWasRead` | backend-rs/src/hls.rs:613-633 | every warm-up holds what the table held when it asked, or zero if the query failed |
| `ViewerUsage.LastSetExists` | backend-rs/src/hls.rs:613-694 | a cached key has a step that last set it |
| `ViewerUsage.OldWarmUpHappens` | backend-rs/src/hls.rs:625-645 | a run in which a warm-up stores, after a flush, what it read before it, and the report is short |
| `ViewerUsage.LostAnswerHappens` | backend-rs/src/hls.rs:669-691 | a run in which a write goes through, its answer does not come back, and the report is short |
| `EmailOutbox.KeyInjective` | backend-rs/src/email_worker.rs:205-222 | rows have different idempotency keys |
| `EmailOutbox.StepKeepsInv` | backend-rs/src/email_worker.rs:104-331 | every step of worker, provider and database, crashes included, keeps the outbox invariant |
| `EmailOutbox.DeliverySafety` | backend-rs/src/email_worker.rs:104-331 | in every run no row is delivered twice, a confirmed row was delivered, and no row has two log entries, whose status is the one its row settled in |
| `EmailOutbox.SettledRowChangesOnlyByWebhook` | backend-rs/src/email_worker.rs:240-297 | a settled row goes exactly when retention finds it old, and until then changes exactly in the step of a delivery report on it |
| `EmailOutbox.ReportHappens` | backend-rs/src/api/webhooks.rs:179-185 | a run in which a sent and logged row is re-marked by such a report |
| `EmailOutbox.SettledRowsStay` | backend-rs/src/loops.rs:337-346 | over any stretch of a run, retention included, a settled row is kept as it was, or re-marked |
| `EmailOutbox.AttemptsBounded` | backend-rs/src/email_worker.rs:240-297 | attempts never exceed max(1, max_attempts), a row in play is strictly below it, and a row given up on has used them all |
| `EmailOutbox.ReclaimedInTime` | backend-rs/src/email_worker.rs:111-122 | whatever became of the worker that claimed a row, a reclaim puts it back exactly when more than sixty seconds have passed since that claim |
| `OutboxTick.SelectBatch` | backend-rs/src/email_worker.rs:129-138 | the oldest pending rows, in order, up to the limit; what is left out was created no earlier, or at an unknown time |
| `OutboxTick.Outbox.WorkThrough` | backend-rs/src/email_worker.rs:154-178 | every row of the batch is dealt with once, logged when it settles, and counted |
| `OutboxTick.Outbox.RunOneTick` | backend-rs/src/email_worker.rs:104-178 | reclaim, select, claim and work through; the summary counts what settled and what was reclaimed; the attempts left drop by at least the size of the batch |
| `OutboxRefinement.TickIsRun` | backend-rs/src/email_worker.rs:104-178 | everything a tick does, log lines included, is a run of the outbox machine from an idle worker to an idle worker |
| `OutboxTick.TickUsesAttempts` | backend-rs/src/email_worker.rs:129-178 | a tick uses at least one attempt of every row of its batch and keeps the attempt bounds |
| `OutboxTick.BatchRowAfter` | backend-rs/src/email_worker.rs:240-297 | a row of the batch has one attempt more and is sent, suppressed, pending again while attempts are left, or failed at the cap, by its outcome |
| `OutboxTick.OtherRowAfter` | backend-rs/src/email_worker.rs:111-152 | a tick does nothing to any other row, except that a stuck one waits again |
| `OutboxTick.RetriedUntilTheCap` | backend-rs/src/email_worker.rs:278-293 | over any ticks, a row whose every try failed is pending with the attempts it has used, and is failed only once it has used them all |
| `OutboxTick.SentAtLast` | backend-rs/src/email_worker.rs:240-293 | failures and then a success within the cap: the row ends sent, and later ticks leave it so |
| `OutboxTick.BatchTakesWhatItCan` | backend-rs/src/email_worker.rs:129-140 | a batch is as large as the limit and the pending rows allow |
| `OutboxTick.Drains` | backend-rs/src/email_worker.rs:104-178 | with nothing new enqueued, among one tick more than the attempts left one finds nothing waiting, and every row settled unless a claim is too recent to reclaim |
| `OutboxTick.SummaryCountsTheSettled` | backend-rs/src/email_worker.rs:154-178 | a summary counts exactly the rows that settled in its tick, by status |
| `MotionCooldown.CooldownIsTheSetting` | backend-rs/src/notifications.rs:325-337 | the cooldown is the integer the setting denotes, brought between one and the largest 64-bit one, or fifteen if it denotes none |
| `MotionCooldown.OpenExactly` | backend-rs/src/notifications.rs:378-383 | comparing whole seconds does not move the end of a window |
| `MotionCooldown.StepKeepsInv` | backend-rs/src/loops.rs:664-796 | every statement of a claim and of a digest tick, failing or not, keeps the anchor invariant |
| `MotionDigests.EventCountedOnce` | backend-rs/src/loops.rs:714-731 | in every run in which no tick ends between report and delete or reports past a newer anchor, at most one digest counts an event |
| `MotionDigests.RepeatShows` | backend-rs/src/loops.rs:707-791 | after every such step a run goes on to count an event twice |
| `MotionDigests.FailedDeleteHappens` | backend-rs/src/loops.rs:779-786 | a run in which the delete fails after the report went out and the next tick reports again |
| `MotionDigests.FaultsWithoutFailedReads` | backend-rs/src/notifications.rs:362-383 | while no read fails, emails are harmed only by a failed write, a row gone before its update or the drop of a re-armed unreadable value, and counts only by a tick that ended in between |
| `MotionCooldown.ErasedAnchorIsOver` | backend-rs/src/loops.rs:771-804 | the conditional delete erases only an anchor whose window, as the tick measured it, is over; only a drop by id can erase a re-armed one |
| `MotionEmails.OverridesExactly` | backend-rs/src/notifications.rs:362-383 | the claims that go ahead while an anchor stands are exactly those that could not read it, or could not read the setting and find the window over by the fallback |
| `MotionEmails.SilencedExactly` | backend-rs/src/notifications.rs:369-386 | a claim is silenced exactly when it read a timestamp whose window is not over, and the digest of that window counts the event unless it fell on the anchor's own instant |
| `MotionEmails.DecidedEmails` | backend-rs/src/notifications.rs:388-392 | a claim that goes ahead emails, whatever becomes of its writes |
| `MotionEmails.BlindByFailedRead` | backend-rs/src/notifications.rs:362-365 | a claim that knows of no anchor while there is one failed to read it |
| `MotionEmails.EmailsAreSpaced` | backend-rs/src/notifications.rs:348-392 | in every run without a harmful step, immediate emails of a camera are at least the cooldown apart |
| `MotionEmails.HarmShows` | backend-rs/src/notifications.rs:348-392 | every harmful step, whoever else is at work, can be followed to two emails too close together |
| `MotionEmails.LossHappens` | backend-rs/src/settings.rs:58-98 | a run in which the digest's delete falls between a claim's lookup and update, and no statement fails |
| `MotionEmails.FailedReadHappens` | backend-rs/src/notifications.rs:362-365 | a run in which a claim cannot read the anchor that stands |
| `RunCap.CapHolds` | backend-rs/src/sentinel_dispatch.rs:484-528 | no schedule lets inserts take an organisation past its cap |
| `RunCap.ExactlyTheRoomIsTaken` | backend-rs/src/sentinel_dispatch.rs:484-528 | when all of an organisation's transactions finish without error, exactly min(transactions, room) commit |
| `RunCap.LoserLeavesNothing` | backend-rs/src/sentinel_dispatch.rs:520-524 | a transaction that did not commit has no row in the table |
| `RunCap.StepAdds` | backend-rs/src/sentinel_dispatch.rs:500-528 | a step changes an organisation's count only by committing within the cap |
| `RunCap.RecountAloneOvershoots` | backend-rs/src/db.rs:105-121 | without the lock two transactions that both recount pass a cap with one place left |
| `RateLimiter.Limiter.Check` | backend-rs/src/ratelimit.rs:165-199 | counts the request in its window, decides, and sweeps when due |
| `RateLimiter.SweepIsInvisible` | backend-rs/src/ratelimit.rs:165-199 | with windows of at most an hour for its bucket, a request is decided as if nothing were ever swept |
| `RateLimiter.LightTrafficPasses` | backend-rs/src/ratelimit.rs:165-199 | a request is allowed if it and those of its bucket in the window before it are within the limit |
| `RateLimiter.OldBucketsGo` | backend-rs/src/ratelimit.rs:183-197 | whenever more than ten thousand buckets are held, none of their windows began more than an hour and ten seconds ago |
| `RateLimiter.AtMostTwiceTheLimit` | backend-rs/src/ratelimit.rs:165-199 | while no window of the bucket holds 2^32 requests, an interval as long as the window, both ends included, admits at most twice the limit |
| `RateLimiter.WrappingAdmitsMore` | backend-rs/src/ratelimit.rs:177-181 | a run with 2^32 requests in one window, and no more in any, lets one more than twice the limit through |
| `RateLimiter.ThresholdExactly` | backend-rs/src/ratelimit.rs:165-199 | all runs whose windows hold at most m requests keep the bound exactly when m < 2^32 |

## Left out

- HTTP routing, extractors, headers, static files, tracing, the frontend, plan tables, health probes and configuration.
- SQL text and the choice of database: tables are maps and sequences, and each statement is one atomic step.
- SHA-256, HMAC, JWT verification, random tokens, the Redis branch of the limiter and its error path.
- The wording of error messages and log lines, and which of its errors a refused date gets.
- Floating point: a JSON number is printed as the text it carries, and the low-water mark is a parameter of the eviction, any integer.
- The other maps of the live cache (playlists, first-push marks, access log), which the cleanups also empty.
- Wrap-around of the 64-bit generation counter and byte total.
- Erasure of an organisation's viewer usage; more than one flush, one email worker or one digest loop at a time; overlapping motion claims for one camera.
- The provider's expiry of idempotency keys: it is taken to remember them for the whole run. Retention of the email log, and erasure of an organisation's rows.
- Motion anchors as text: they are instants here; `IsoRoundTrip.NaiveRoundTrip` is why writing and reading them changes nothing. An anchor with an offset, which only a person could write, is not modelled, nor is a cooldown so long that `cooldown_min * 60` overflows.
- RunCap.ExactlyTheRoomIsTaken: takes one month and one cap; a commit whose answer is lost is not modelled.
- OutboxTick.Outbox.RunOneTick: takes rows whose attempts are within the cap, as rows enqueued with none always are (`EmailOutbox.AttemptsBounded`), and no failing statement; failures are steps of `EmailOutbox`.
- IsoRoundTrip.RoundTrip: writes zones with hours below 24 and minutes and seconds below 60; the reader takes others, such as `+05:99`, by their total.
- RateLimiter.SweepIsInvisible: takes windows of at most an hour for the bucket, as every route has, and a clock that does not go back.
- MotionEmails.EmailsAreSpaced: takes one value of the cooldown setting for the whole run.
