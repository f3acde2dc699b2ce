# One Billion Rows: a verified model of the worker loop

The program reads a file of lines `station;temperature\n` and reports, for
each station, the minimum, mean and maximum temperature. Several workers
share one `Program` object. Each worker runs `Process`:

- It claims numbered sections of the file, each `WindowsSize` (32 MiB) bytes long.
- It trims every section so that it starts and ends on a line boundary.
- It tokenizes the lines of the section into a local dictionary keyed by
  station bytes. Every key maps to a statistics bag (`BagItem`).
- It adds its line count to a shared total.
- At the end it merges the local dictionary into the shared one.

The dictionaries compare keys with `BagKeyComparer`. `BagItemSSE` is an
unused variant of the bag that batches readings into vector lanes.

Every member that depends on a choice the findings below correct takes a
`Variant`. `AsWritten` behaves as Program.cs does. `Corrected` is the
evidently intended program:

- Its window scan runs on to the next `'\n'` whenever any byte of the file
  follows the window.
- Its view reaches one byte further, so that the longest line (`'\n'`
  included) ends inside it.
- Its comparer calls two keys equal only when they are the same key, up to
  the zero padding of the station buffer.

The model is organised as follows.

- `Windows` (windows.dfy): section numbering and the nominal windows. It
  covers the trimmed start (skip past the first `'\n'`) and the trimmed end.
- `Tokenizer` (tokenizer.dfy): one record read as two field copies into the
  100-byte and 16-byte buffers, and the tokens of a range.
- `Tables` (tables.dfy): a dictionary as an insertion-ordered list of entries.
  - A lookup walks the entries from the newest and matches on equal hash
    codes plus `Equals`.
  - The dictionary step uses `TryGetValue`/`Add`, then `float.Parse`, then
    `bag.Add`. The final merge uses `GetOrAdd`/`Append`.
  - A reading is neither lost nor counted twice (tallies).
- `Grouping` (grouping.dfy): when station names are told apart by the
  comparer, the local dictionary of a list of records has exactly one bag per
  station, holding exactly that station's readings. Merging preserves this.
  Absorbing records then fails exactly when a number does not parse.
- `Sections` (sections.dfy): a section pass and the worker's `while (true)`
  loop as functions. It also proves a fold principle for the loop.
- `FileScan` (file_scan.dfy): a file built from a list of valid records.
  - Every window reads exactly the records from its own first one up to the
    next window's first one.
  - So the worker loop reads every record once, counts every line, and groups
    the readings by station.
- `BoundaryGap` (boundary_gap.dfy): a concrete file on which the scan end as
  written loses a record (see Findings).
- `LongLine` (long_line.dfy): a concrete file with a 107-byte line on a
  window boundary, on which the loop as written reads past its view.
- `PrefixKeys` (prefix_keys.dfy): two concrete files, "abcd;1\nabcde;2\n"
  and "abcde;1\nabcd;2\n", on which the comparer as written merges two
  stations or throws on a duplicate key.
- `Processing` (program.dfy): class `Program` with the shared fields and its
  `variant`. Its methods implement `Process` imperatively over the station
  and number buffers, and each is proved equal to the functional model.
- `KeyComparer` (key_comparer.dfy): `Equals` and `GetHashCode`, including
  32-bit wrap-around, and the corrected comparison with its hash contract.
- `Aggregate`, `Bags`, `BatchedBags` (aggregate.dfy, bag_item.dfy,
  bag_item_sse.dfy): the bag statistics, and the two bag classes.
- `BagsAgree` (bags_agree.dfy): both bag classes fed the same readings
  report the same statistics.

Temperatures are integers (tenths of a degree, say). The parse is a parameter
`parse: seq<byte> -> Option<int>` that stands for `float.Parse`. `None`
stands for its `FormatException`, which the model reports as the error
`BadNumber`.

## Model

| member | source | states |
|---|---|---|
| Windows.WindowCount | OneBillionRows/Program.cs:71-77 | a claimed section is processed exactly when its start lies before the file size |
| Windows.StartStep | OneBillionRows/Program.cs:75 | consecutive sections start one window apart, on multiples of the window size |
| Windows.Reach | OneBillionRows/Program.cs:12-14 | how far past the window the view reaches: `Overlap` as written, and under the corrected variant the longest line, `'\n'` included |
| Windows.NominalTiling | OneBillionRows/Program.cs:91-93 | the nominal windows are non-empty and tile the file: each ends where the next starts, and the last ends at the file size |
| Windows.OffsetInOneWindow | OneBillionRows/Program.cs:75-93 | every byte of the file lies in exactly one nominal window |
| Windows.ViewEnd | OneBillionRows/Program.cs:79-82 | the view never reaches past the end of the file |
| Windows.FindByte | OneBillionRows/Program.cs:98-99 | a byte search that succeeds stops on the byte sought, inside the view; otherwise it fails with a read past the view |
| Windows.FindByteFirst | OneBillionRows/Program.cs:98-105 | the search finds the first occurrence, and fails exactly when the rest of the view holds none |
| Windows.ScanStart | OneBillionRows/Program.cs:96-101 | the first window starts at 0; a later one starts just after a `'\n'` past its start, inside the view; only a later window can fail |
| Windows.ScanStartFirst | OneBillionRows/Program.cs:96-101 | a later window skips exactly the bytes up to its first `'\n'`, and fails exactly when the view holds none |
| Windows.ScanEnd | OneBillionRows/Program.cs:79-105 | when the scan runs on (as written: the view carries the overlap; corrected: any byte follows the window), the scan end is a `'\n'` at or past the nominal end, inside the view; otherwise it is the nominal end; only the first case can fail |
| Windows.ScanEndFirst | OneBillionRows/Program.cs:103-105 | running on, the end is the first `'\n'` from the nominal end, and the search fails exactly when the view holds none |
| Windows.ScanEndShort | OneBillionRows/Program.cs:80-93 | not running on, the scan ends at the nominal end |
| Windows.ScanEndExtended | OneBillionRows/Program.cs:103-105 | running on, the scan ends on the `'\n'` the search finds |
| Windows.ScanEndInFile | OneBillionRows/Program.cs:79-105 | a scan range never reaches past the view or the file |
| Tokenizer.FieldEnd | OneBillionRows/Program.cs:109-118 | a field copy ends on its delimiter, inside the view and the buffer; it fails as too long only when the buffer fills inside the view, and as a read past the view only when the view ends first |
| Tokenizer.FieldEndFirst | OneBillionRows/Program.cs:111-118 | a field ends on the first delimiter; too long means the buffer is full with no delimiter; past the view means the view holds none |
| Tokenizer.ReadRecord | OneBillionRows/Program.cs:109-120 | one loop pass moves the cursor forward over exactly the line of the token it yields, whose key and number fit their buffers and hold no delimiter |
| Tokenizer.ReadRecordOfFields | OneBillionRows/Program.cs:109-120 | a record is read when both of its field copies succeed; the token is the bytes between the delimiters |
| Tokenizer.ReadRecordOfLine | OneBillionRows/Program.cs:109-120 | tokenizing the line of a valid token gives that token back and moves past its line (the tokenizer inverts the line format) |
| Tokenizer.LineOfFields | OneBillionRows/Program.cs:111-120 | the bytes up to a `'\n'` with a first `';'` are the line of the token they hold |
| Tokenizer.FieldEndAt | OneBillionRows/Program.cs:111-118 | a field ends on the first delimiter when it lies inside the view and the buffer |
| Tokenizer.Tokens | OneBillionRows/Program.cs:107-132 | every token read from a range fits the station and number buffers |
| Tokenizer.TokensStep | OneBillionRows/Program.cs:107-120 | the tokens of a range are the first record followed by the tokens after it |
| Sections.Pad | OneBillionRows/Program.cs:109-112 | the cleared station buffer after a copy holds the key followed by zeros |
| Sections.Turn | OneBillionRows/Program.cs:109-131 | a successful loop pass moves the cursor forward, inside the view |
| Sections.RunStep | OneBillionRows/Program.cs:107-132 | a failed pass ends the loop with its error; a successful one continues from its cursor and table |
| Sections.TurnAt | OneBillionRows/Program.cs:107-132 | every successful pass advances the cursor, so the loop terminates |
| Sections.ScanFromStep | OneBillionRows/Program.cs:107-132 | one pass of the tokenizer loop: a failure fails the loop, a success continues it and counts one line |
| Sections.ScanFromTokens | OneBillionRows/Program.cs:107-132 | over a range whose tokens can be read, the loop absorbs exactly those tokens into the dictionary in order and counts one line per token |
| Sections.SectionOfBounds | OneBillionRows/Program.cs:91-107 | a section runs the tokenizer loop over exactly its trimmed range |
| Sections.SectionOfTokens | OneBillionRows/Program.cs:91-132 | a section whose trimmed range tokenizes to `ts` reads exactly `ts` |
| Sections.ScanOfSection | OneBillionRows/Program.cs:74-77 | a section before the end of the file is scanned |
| Sections.SweepFold | OneBillionRows/Program.cs:71-140 | the worker loop is a fold: it reports the work left after the last claim (its error, or the final counter, line total and table) |
| Sections.DrainFold | OneBillionRows/Program.cs:71-140 | the fold principle for the worker loop over a file |
| Sections.ReportsStep | OneBillionRows/Program.cs:71-140 | a successful section passes its report on to the rest of the loop |
| Sections.SweepSections | OneBillionRows/Program.cs:71-77 | the loop claims sections in order; it ends on the first one past the last section, or earlier on a failed scan |
| Sections.SweepStep | OneBillionRows/Program.cs:71-140 | one claim of the loop: a failed scan ends it, a successful one adds its lines and goes on |
| Sections.DrainStop | OneBillionRows/Program.cs:74-77 | a claim past the end of the file ends the loop with the counter on that claim and nothing else changed |
| Sections.DrainStep | OneBillionRows/Program.cs:74-139 | a claim before the end of the file scans that section, then adds its lines and goes on, or ends with its error |
| Sections.SweepKeeps | OneBillionRows/Program.cs:71-140 | the loop keeps the local dictionary sound when every scan does |
| Sections.ScanFromKeeps | OneBillionRows/Program.cs:107-132 | the tokenizer loop keeps the dictionary sound: keys pairwise distinct under the comparer and non-empty |
| Sections.SectionKeeps | OneBillionRows/Program.cs:79-132 | every section scan keeps the dictionary sound |
| Sections.SectionKeepsAt | OneBillionRows/Program.cs:79-132 | scanning one section keeps the dictionary sound |
| Sections.DrainKeeps | OneBillionRows/Program.cs:71-140 | the worker loop leaves a sound local dictionary |
| Tables.FindLatest | OneBillionRows/Program.cs:122 | a lookup finds the newest entry whose key matches the probe (equal hash codes and `Equals`), and finds nothing exactly when no key matches |
| Tables.FindBelow | OneBillionRows/Program.cs:122 | the newest matching entry among the first `n` |
| Tables.DistinctSnoc | OneBillionRows/Program.cs:126 | a key that no stored key matches can be added without breaking distinctness |
| Tables.Record | OneBillionRows/Program.cs:122-130 | a hit adds the reading to the bag found and leaves the keys alone; a miss appends the copied key with a bag of the reading; a miss with an empty key fails, and so does a miss whose key matches an existing key (`Add` throws); no other entry changes |
| Tables.RecordKeepsDistinct | OneBillionRows/Program.cs:122-127 | recording keeps the keys distinct and non-empty |
| Tables.RecordTally | OneBillionRows/Program.cs:122-130 | recording adds exactly that one reading to the table's total statistics |
| Tables.TallyUpdate | OneBillionRows/Program.cs:130 | appending to one bag appends to the table's tally |
| Tables.TallyConcat | OneBillionRows/Program.cs:142-149 | the tally of two tables is their tallies appended |
| Tables.MergeEntry | OneBillionRows/Program.cs:144-147 | `GetOrAdd` keeps the keys on a hit and appends the local key on a miss; afterwards a lookup of the key finds an entry |
| Tables.MergeEntryTally | OneBillionRows/Program.cs:144-147 | merging one entry appends its bag to the shared tally |
| Tables.MergeTally | OneBillionRows/Program.cs:142-149 | the merge keeps every reading: the shared tally after is the shared tally before with the local tally appended |
| Tables.MergeEntryKeeps | OneBillionRows/Program.cs:144 | merging one entry keeps the shared keys distinct and non-empty |
| Tables.MergeKeeps | OneBillionRows/Program.cs:142-149 | the merge keeps the shared keys distinct and non-empty |
| Tables.MergeCovers | OneBillionRows/Program.cs:142-149 | after the merge, a lookup of every local key finds a shared entry |
| Tables.MergePrefix | OneBillionRows/Program.cs:142-149 | the merge only adds keys, after the shared ones |
| Grouping.MatchesExactly | OneBillionRows/Program.cs:174-195 | with station names the comparer tells apart, a stored key matches the padded station buffer, or the key itself, exactly when the two are equal |
| Grouping.NoFalseMatch | OneBillionRows/Program.cs:122 | with such names, a lookup finds the station's own entry or nothing |
| Grouping.StepFound | OneBillionRows/Program.cs:122-130 | a reading of a known station goes into that station's bag |
| Grouping.StepNew | OneBillionRows/Program.cs:122-130 | a reading of a new station gets a new entry whose bag holds that reading |
| Grouping.StepGroups | OneBillionRows/Program.cs:122-130 | the dictionary step succeeds and keeps the dictionary equal to the grouping of the records read so far |
| Grouping.AbsorbGroups | OneBillionRows/Program.cs:107-132 | absorbing records succeeds and yields the grouping of all records read |
| Grouping.EmptyGroups | OneBillionRows/Program.cs:67 | the new dictionary is the grouping of no records |
| Grouping.MergeEntryBags | OneBillionRows/Program.cs:144-147 | one merge iteration appends the local bag to the shared bag of that station, or stores it under a new entry; other stations are unchanged |
| Grouping.MergeKeySet | OneBillionRows/Program.cs:142-149 | the merge keeps the shared keys unique, and its keys are the shared keys plus the local ones |
| Grouping.MergeBags | OneBillionRows/Program.cs:142-149 | after the merge, each local station's shared bag is its old shared bag with the local bag appended; the other bags are unchanged |
| Grouping.MergeBagsAt | OneBillionRows/Program.cs:142-149 | the same, for one station |
| Grouping.MergeGroups | OneBillionRows/Program.cs:142-149 | merging the grouping of records `b` into the grouping of records `a` gives the grouping of `a + b`, whichever worker read which records |
| Grouping.RecordAccepts | OneBillionRows/Program.cs:122-130 | when the comparer tells the names apart, recording a reading of one of them never fails |
| Grouping.StepFailsOnNumber | OneBillionRows/Program.cs:122-130 | when the comparer tells the names apart, the dictionary step succeeds exactly when `float.Parse` accepts the number, and otherwise fails with `BadNumber` |
| Grouping.AbsorbFails | OneBillionRows/Program.cs:107-132 | absorbing records under such a comparer succeeds exactly when every number parses, and otherwise fails with `BadNumber` |
| FileScan.Encode | OneBillionRows/Program.cs:107-120 | the file of a list of records is their lines one after another |
| FileScan.LineAt | OneBillionRows/Program.cs:107-120 | each record's line sits between its offset and the next one |
| FileScan.FindNewline | OneBillionRows/Program.cs:98-105 | from any byte of a valid record, the scan for `'\n'` stops on that record's last byte |
| FileScan.ScanStartOfRecords | OneBillionRows/Program.cs:96-101 | a window's trimmed start is the offset of the first record after the one holding its first byte (0 for the first window) |
| FileScan.StartInRecord | OneBillionRows/Program.cs:96-101 | a later window starts inside the record before its first one, and the view holds the rest of that record |
| FileScan.LineFits | OneBillionRows/Program.cs:14 | a valid record's line, `'\n'` included, is at most one byte longer than the overlap, so it ends inside a view that reaches the longest line past the window |
| FileScan.SectionOfRecords | OneBillionRows/Program.cs:79-132 | a window reads exactly the records from its first one up to its last one |
| FileScan.TrimmedEnd | OneBillionRows/Program.cs:91-105 | the trimmed range of a window fits its records, inside the view |
| FileScan.ExtendedEnd | OneBillionRows/Program.cs:103-105 | running on, a window ends on the `'\n'` of the record holding the byte after it |
| FileScan.ExtendedRange | OneBillionRows/Program.cs:103-105 | that record ends inside the view |
| FileScan.ShortRange | OneBillionRows/Program.cs:91-107 | not running on, a window reads the records that start before its nominal end |
| FileScan.SectionOfRange | OneBillionRows/Program.cs:107-132 | a window whose trimmed range fits records `a` to `b` reads exactly those records |
| FileScan.WindowsJoin | OneBillionRows/Program.cs:79-105 | where one window stops reading, the next one starts: always under the corrected variant, and as written when no record starts on a boundary in the last overlap of the file and no line longer than the overlap starts on a boundary |
| FileScan.JoinExtended | OneBillionRows/Program.cs:103-105 | a window that runs on stops where the next one starts |
| FileScan.JoinInside | OneBillionRows/Program.cs:80-101 | as written, a window without the overlap that is not the last stops where the next one starts, provided no record starts on that boundary |
| FileScan.EndInside | OneBillionRows/Program.cs:80-93 | as written, such a window stops on the first record at or past the next window's start |
| FileScan.JoinLast | OneBillionRows/Program.cs:91-93 | the last window stops after the last record |
| FileScan.ChunkOfWindow | OneBillionRows/Program.cs:79-132 | a window absorbs the records from its own first one up to the next window's first one, and counts them |
| FileScan.WindowFolds | OneBillionRows/Program.cs:79-132 | each window does the first piece of the work left from it |
| FileScan.DrainOfRecords | OneBillionRows/Program.cs:71-140 | over a file of valid records, under the corrected variant (or as written when no record starts on a boundary in the last overlap and no line longer than the overlap starts on a boundary), the worker loop fails exactly when absorbing all records in file order fails, with that error; otherwise its line count is the number of records and its dictionary is the result |
| FileScan.ProcessFile | OneBillionRows/Program.cs:65-149 | when every number parses and the comparer tells the station names apart, under the same conditions, the worker loop ends without error, counts every record, and its dictionary (and its merge into the empty shared dictionary) has exactly one bag per station holding that station's readings |
| FileScan.BadNumberStops | OneBillionRows/Program.cs:107-140 | under the same conditions, a file with a number `float.Parse` rejects ends the worker loop with `BadNumber` |
| FileScan.ValidSeparated | OneBillionRows/Program.cs:174-187 | the corrected comparer tells any set of valid station names apart |
| FileScan.LineInView | OneBillionRows/Program.cs:79-105 | the line of a record that starts at or before a window boundary ends within the variant's reach of it, under the corrected variant or when no long line starts on a boundary |
| FileScan.ProcessFileCorrected | OneBillionRows/Program.cs:65-149 | under the corrected variant, over any file of valid records, the worker loop fails exactly when some number does not parse, and then with `BadNumber`; otherwise it counts every record and its dictionary (and its merge) has exactly one bag per station holding that station's readings |
| BoundaryGap.FirstWindow | OneBillionRows/Program.cs:79-105 | as written, window 0 of the gap file reads every record but the last |
| BoundaryGap.SecondWindow | OneBillionRows/Program.cs:96-101 | as written, window 1 of the gap file skips the record that starts on its first byte and reads none |
| BoundaryGap.WrittenLosesOne | OneBillionRows/Program.cs:71-140 | as written, the worker loop on the gap file ends without error but counts one line fewer than the file holds |
| BoundaryGap.CorrectedCountsAll | OneBillionRows/Program.cs:71-140 | under the corrected variant, the loop on the gap file counts every line |
| BoundaryGap.LostRecord | OneBillionRows/Program.cs:79-105 | the gap file is valid and has a record on the boundary; the loop as written loses it, while under the corrected variant it counts every line |
| LongLine.LongFileShape | OneBillionRows/Program.cs:14 | the long-line file is valid, has no record at a boundary the overlap misses, and has a line longer than the overlap on a window boundary |
| LongLine.LongLineStops | OneBillionRows/Program.cs:79-105 | as written, window 0 of the long-line file runs its scan end through the whole view without meeting a `'\n'`, and the worker loop stops on `ReadPastView` |
| LongLine.LongLineLost | OneBillionRows/Program.cs:79-105 | the long-line file is valid; the loop as written fails on it, while under the corrected variant it counts every line |
| PrefixKeys.SameHash | OneBillionRows/Program.cs:189-195 | "abcd", "abcde" and their station buffers all hash alike |
| PrefixKeys.PrefixMatches | OneBillionRows/Program.cs:174-187 | as written, stored "abcd" matches the buffer of "abcde", and stored "abcde" does not match the buffer of "abcd" but matches the key "abcd"; corrected, neither matches |
| PrefixKeys.ShortFirstMerged | OneBillionRows/Program.cs:122-130 | as written, on "abcd;1\nabcde;2\n" the loop ends without error with one entry, "abcd", holding both readings |
| PrefixKeys.LongFirstClash | OneBillionRows/Program.cs:122-127 | as written, on "abcde;1\nabcd;2\n" the `Add` of "abcd" finds "abcde" equal and the loop stops on `DuplicateKey` |
| PrefixKeys.PrefixKeysConfused | OneBillionRows/Program.cs:174-187 | as written, one file merges the two stations and the other throws; corrected, both files end without error with one bag per station holding exactly its readings |
| Processing.Program.constructor | OneBillionRows/Program.cs:16-30 | a new program over the file, as written or corrected, has claimed no section, counted no line, and has an empty shared dictionary |
| Processing.Program.Process | OneBillionRows/Program.cs:65-150 | the shared counter and line count end as the worker loop leaves them, under the program's variant; without a failure the local dictionary is merged into `_aggregate`, and after a failure (an exception) the shared dictionary is unchanged |
| Processing.Program.ClaimSections | OneBillionRows/Program.cs:71-140 | the `while (true)` loop leaves the counter, the line total and the dictionary as the worker loop does; the dictionary stays sound, and `_aggregate` is untouched |
| Processing.Program.MergeLocal | OneBillionRows/Program.cs:142-149 | the `foreach` merges the local dictionary into `_aggregate` entry by entry and touches nothing else |
| Processing.Program.ScanSection | OneBillionRows/Program.cs:79-132 | one pass of the loop body, with the scan end chosen by the program's variant, computes the section's result: its new dictionary and line count, or its error |
| Processing.Program.SkipTo | OneBillionRows/Program.cs:98-105 | the pointer loop computes the byte search |
| Processing.Program.Tokenize | OneBillionRows/Program.cs:107-132 | the tokenizer loop computes the functional tokenizer loop |
| Processing.Program.ReadAndRecord | OneBillionRows/Program.cs:109-131 | one pass reads a record and takes the dictionary step for it: a failed `Add` is reported first, then a number `float.Parse` rejects (`BadNumber`) |
| Processing.Program.ReadFields | OneBillionRows/Program.cs:109-120 | the two copies read the record, and the station buffer ends as the padded key |
| Processing.Program.CopyField | OneBillionRows/Program.cs:109-118 | a cleared buffer copy ends where the field ends and leaves the field followed by zeros in the buffer |
| KeyComparer.Equals | OneBillionRows/Program.cs:174-187 | true exactly when the arrays are the same reference, or both present and agreeing on every index both have |
| KeyComparer.PrefixAgreeSymmetric | OneBillionRows/Program.cs:182-186 | the comparer is symmetric |
| KeyComparer.PrefixAgreeReflexive | OneBillionRows/Program.cs:182-186 | the comparer is reflexive |
| KeyComparer.PrefixAgreeExtension | OneBillionRows/Program.cs:182-186 | a key equals every extension of itself |
| KeyComparer.PrefixAgreeSameLength | OneBillionRows/Program.cs:182-186 | keys of equal length are equal under the comparer only when they are identical |
| KeyComparer.PrefixAgreeNotTransitive | OneBillionRows/Program.cs:182-186 | the comparer is not transitive |
| KeyComparer.KeyPart | OneBillionRows/Program.cs:109-112 | the key a zero-padded buffer holds is a non-empty prefix of it, without zero bytes after the first, followed by a zero or the end |
| KeyComparer.KeyPartOfPadded | OneBillionRows/Program.cs:109-112 | the padded station buffer of a key without zero bytes holds exactly that key |
| KeyComparer.SameKeyHash | OneBillionRows/Program.cs:174-195 | keys the corrected comparison calls equal have equal hash codes |
| KeyComparer.PrefixBreaksHash | OneBillionRows/Program.cs:174-195 | the comparer as written calls "a" and "ab" equal although their hash codes differ |
| KeyComparer.ToInt32 | OneBillionRows/Program.cs:193 | the signed 32-bit reading of a value is congruent to it modulo 2^32 and is the identity on non-negative 31-bit values |
| KeyComparer.HashLength | OneBillionRows/Program.cs:191-193 | the hash folds the first byte, then further bytes up to the fourth, stopping before a zero byte |
| KeyComparer.Hash | OneBillionRows/Program.cs:189-195 | the hash of an empty key fails; otherwise it is a 32-bit signed value |
| KeyComparer.GetHashCode | OneBillionRows/Program.cs:189-195 | the loop computes the big-endian number of the hashed bytes, wrapped to 32 bits |
| KeyComparer.ShiftInStep | OneBillionRows/Program.cs:193 | shifting a byte into the hash of fewer than four bytes appends it to their big-endian number |
| KeyComparer.HashOfPadded | OneBillionRows/Program.cs:189-195 | the zero-padded station buffer of a non-empty key hashes like the key |
| Aggregate.Add | OneBillionRows/Program.cs:268-274 | one more reading: the count grows by one, the total by the reading, and the max and min cover it |
| Aggregate.Append | OneBillionRows/Program.cs:276-282 | counts and totals add up, and the max and min are those of either side |
| Aggregate.OfValues | OneBillionRows/Program.cs:261-274 | a bag built from readings counts them and totals them exactly |
| Aggregate.OfValuesExtremes | OneBillionRows/Program.cs:264-271 | max and min bound every reading and are readings themselves, or the sentinels when there is none |
| Aggregate.Avg | OneBillionRows/Program.cs:294-297 | the mean times the count is the total; an empty bag has none (NaN in the source) |
| Aggregate.AppendEmpty | OneBillionRows/Program.cs:144-147 | appending a new bag changes nothing |
| Aggregate.AppendCommutative | OneBillionRows/Program.cs:276-282 | the order in which two bags are appended does not matter |
| Aggregate.AppendAssociative | OneBillionRows/Program.cs:276-282 | the grouping of appends does not matter |
| Aggregate.AppendOfValues | OneBillionRows/Program.cs:268-282 | appending two bags gives the bag of all their readings |
| Aggregate.MoveToEnd | OneBillionRows/Program.cs:268-274 | a reading counts the same whenever it arrives |
| Aggregate.OfValuesPermutation | OneBillionRows/Program.cs:268-274 | the order of the readings does not matter to the statistics |
| Aggregate.TotalBounds | OneBillionRows/Program.cs:268-274 | the total lies between count times min and count times max |
| Aggregate.AvgBetween | OneBillionRows/Program.cs:294-297 | for a station read at least once, min <= avg <= max |
| Bags.BagItem.constructor | OneBillionRows/Program.cs:261-266 | a new bag has no readings and the sentinel extremes |
| Bags.BagItem.Add | OneBillionRows/Program.cs:268-274 | the bag receives one more reading |
| Bags.BagItem.Append | OneBillionRows/Program.cs:276-282 | the bag receives all of the other bag's readings |
| Bags.BagItem.Max | OneBillionRows/Program.cs:284-287 | the largest reading received, bounding every reading |
| Bags.BagItem.Min | OneBillionRows/Program.cs:289-292 | the smallest reading received, bounding every reading |
| Bags.BagItem.Avg | OneBillionRows/Program.cs:294-297 | the mean of the readings received, between min and max |
| BatchedBags.LaneMax | OneBillionRows/Program.cs:213-221 | `Vector.Max` is the lane-wise maximum |
| BatchedBags.LaneMin | OneBillionRows/Program.cs:214-222 | `Vector.Min` is the lane-wise minimum |
| BatchedBags.LaneSum | OneBillionRows/Program.cs:215-223 | `Vector.Add` is the lane-wise sum |
| BatchedBags.LaneAdd | OneBillionRows/Program.cs:212-215 | folding a batch adds each reading to its own lane's statistics |
| BatchedBags.Lanes | OneBillionRows/Program.cs:202-204 | there is one lane of statistics per vector lane |
| BatchedBags.LanesBounded | OneBillionRows/Program.cs:202-203 | every lane's max and min stay within the float range |
| BatchedBags.ReduceEmptyLanes | OneBillionRows/Program.cs:202-204 | the reduction of fresh lanes is the empty bag |
| BatchedBags.ReduceAddBatch | OneBillionRows/Program.cs:210-216 | folding a batch adds its statistics to the reduction |
| BatchedBags.ReduceLanes | OneBillionRows/Program.cs:231-258 | the reduced lanes are the statistics of every batched reading |
| BatchedBags.LanesAddBatch | OneBillionRows/Program.cs:210-216 | a full batch adds each of its readings to its own lane |
| BatchedBags.LanesAppend | OneBillionRows/Program.cs:221-223 | merging two lane layouts lane by lane gives the lanes of both batch lists |
| BatchedBags.FlattenLength | OneBillionRows/Program.cs:225 | the batched readings are the batches times the width |
| BatchedBags.PendingAfterAdd | OneBillionRows/Program.cs:208-210 | after one reading, the count is a multiple of the width exactly when the pending batch is full |
| BatchedBags.LaneTotals | OneBillionRows/Program.cs:253 | `Vector.Sum` of the total vector is the reduced total |
| BatchedBags.LanesHoldFold | OneBillionRows/Program.cs:212-215 | folding a full batch keeps the three vectors in step with the lanes |
| BatchedBags.LanesHoldMerge | OneBillionRows/Program.cs:221-223 | merging two bags' vectors keeps them in step with both batch lists |
| BatchedBags.PendingThenLanes | OneBillionRows/Program.cs:233-237 | the pending readings first, then the reduced lanes, give the statistics of all readings |
| BatchedBags.Interleave | OneBillionRows/Program.cs:219-229 | after `Append`, the bag holds the readings of both bags, and their statistics |
| BatchedBags.BagItemSSE.PendingIsRemainder | OneBillionRows/Program.cs:208-234 | `_count % Vector<float>.Count` is the number of pending readings, and `_count` the number of readings |
| BatchedBags.BagItemSSE.constructor | OneBillionRows/Program.cs:198-204 | a new bag has no readings |
| BatchedBags.BagItemSSE.Add | OneBillionRows/Program.cs:206-217 | the reading is stored in the buffer slot `count % width`; when the buffer fills, it is folded lane-wise into the three vectors, and otherwise they are unchanged |
| BatchedBags.BagItemSSE.FoldPending | OneBillionRows/Program.cs:210-216 | the full buffer is folded into the vectors lane by lane, and no reading is lost |
| BatchedBags.BagItemSSE.Append | OneBillionRows/Program.cs:219-229 | the bag ends up with exactly the readings of both bags (as a multiset), and the statistics of both appended |
| BatchedBags.BagItemSSE.AddPending | OneBillionRows/Program.cs:227-228 | the other bag's pending readings are added in turn |
| BatchedBags.BagItemSSE.MergeBatches | OneBillionRows/Program.cs:221-225 | the vectors are merged lane-wise and the other bag's batches join this bag's, ahead of its pending readings |
| BatchedBags.BagItemSSE.Max | OneBillionRows/Program.cs:231-239 | the maximum of every reading received |
| BatchedBags.BagItemSSE.PendingMax | OneBillionRows/Program.cs:233-235 | the maximum of the pending readings |
| BatchedBags.BagItemSSE.LanesMax | OneBillionRows/Program.cs:236-237 | the maximum of the pending readings and every lane |
| BatchedBags.BagItemSSE.Min | OneBillionRows/Program.cs:241-249 | the minimum of every reading received |
| BatchedBags.BagItemSSE.PendingMin | OneBillionRows/Program.cs:243-245 | the minimum of the pending readings |
| BatchedBags.BagItemSSE.LanesMin | OneBillionRows/Program.cs:246-247 | the minimum of the pending readings and every lane |
| BatchedBags.BagItemSSE.Avg | OneBillionRows/Program.cs:251-258 | the mean of every reading received, or none for an empty bag |
| BagsAgree.SameStatistics | OneBillionRows/Program.cs:198-297 | a `BagItem` and a `BagItemSSE` fed the same readings report the same maximum, minimum and mean, which are those of the readings |

## Left out

- `Main` (Program.cs:34-63) is not modelled. It covers the path, the
  stopwatch, starting one task per core, and writing the output.
- `GetResult` (Program.cs:152-170) is not modelled. It covers the
  formatting, the `F1` rounding and the ordinal sort.
- The memory-mapped file, the view accessor and the raw pointers are not
  modelled. The file is a byte sequence. The view is the range up to
  `ViewEnd`, which is where the opened accessor ends.
- Reads past the end of the view are not modelled as undefined behaviour.
  They become the error `ReadPastView`. So do a station longer than 100
  bytes or a number longer than 16 bytes (`KeyTooLong`, `NumberTooLong`,
  the index exceptions), an empty key at `b[0]` (`EmptyKey`), and a
  duplicate `Add` (`DuplicateKey`).
- Processing.Program.Process, Aggregate.Add: the line counters and the bag
  counts are unbounded integers. In C#, `_allLines`, `lines` and `_count`
  (Program.cs:22, 73, 201, 263) are `int` and wrap after 2^31 - 1
  increments, so files of more than 2^31 - 1 lines, or stations with more
  than 2^31 - 1 readings, are not modelled.
- Concurrency is not modelled. `Interlocked.Increment` and `Interlocked.Add`
  are read as plain updates of one worker. Several workers interleaving,
  `ConcurrentDictionary` and `lock` are left out. What survives is the
  merge lemma: merging the groupings of two record lists gives the grouping
  of both.
- `Count` (Program.cs:32) is the field `allLines` of `Processing.Program`.
- `float` is modelled as exact integers. `float.Parse` is the parameter
  `parse`, so rounding, `NaN` and infinities are not modelled. A number it
  rejects (`FormatException`) is `None`, and the worker stops with
  `BadNumber`. Which byte strings it accepts is left to the parameter. The mean is
  a `real`, and an empty bag has no mean in place of `NaN`.
- `Vector<float>.Count` is the constructor parameter `width` of
  `BagItemSSE`. It is not fixed to any hardware lane count.
- `BatchedBags.BagItemSSE.Append`: the receiver must differ from the other
  bag. The self-append case is not modelled.
- The dictionaries' bucket layout is not modelled. A lookup returns the
  newest entry that matches on both the hash and the comparer, which is
  the order in which a bucket chain is walked. Resizing and the hash's
  bucket index are left out.
- `BagItem.Append` and the dictionaries' reference semantics (a bag is
  shared by reference between the lookup and the table) are modelled on
  values. The table entry is replaced by the updated bag.

## Findings

| source | as written | input that shows it | evidently intended | confidence | as-written member | corrected member |
|---|---|---|---|---|---|---|
| OneBillionRows/Program.cs:79-105 | the scan end runs on to the next `'\n'` only when the view holds `WindowsSize + Overlap` bytes; a window with fewer than `Overlap` bytes after its nominal end stops at the boundary, and when a record starts exactly there, the next window skips that record as the tail of the previous one | the file of `WindowsSize / 4 + 1` records `a;0\n` (`WindowsSize + 4` bytes): the last record starts at offset `WindowsSize`, and the line count is one short | a window runs on to the next `'\n'` whenever any byte of the file follows its nominal end, so every record is read exactly once | not executed | BoundaryGap.LostRecord | FileScan.DrainOfRecords |
| OneBillionRows/Program.cs:79-105 | the view of a window reaches `Overlap` (106) bytes past the window, counting the station, the `';'` and five number bytes but not the `'\n'`; a 107-byte line (a 100-byte station, `-99.9`) starting on the next window's first byte has its `'\n'` one byte past the view, and the scan end reads past the view | `LongFile`: `WindowsSize / 4` records `a;0\n`, then a 100-byte station `bb…b` with `-99.9` on offset `WindowsSize` | the view reaches the longest line, `'\n'` included, past the window, so that line ends inside it | not executed | LongLine.LongLineLost | FileScan.ProcessFileCorrected |
| OneBillionRows/Program.cs:174-187 | `Equals` compares only the shorter length, so a key equals every extension of itself; the lookup probes with the zero-padded buffer, the `Add` with the bare key | "abcd;1\nabcde;2\n" puts both readings into the bag of "abcd"; "abcde;1\nabcd;2\n" misses the lookup of "abcd" and then throws on its `Add` | two keys are equal only when they are the same station name | not executed | PrefixKeys.PrefixKeysConfused | FileScan.ProcessFileCorrected |
