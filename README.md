# QtRaskLogger in Dafny

This is a model of the core of QtRaskLogger, a file logger for Qt applications. It has two parts.

- **The façade, `QtRaskLogger`.** It classifies each Qt message, formats it into one line, and keeps it if its level is enabled. It also loads its settings from built-in defaults overridden by a JSON file (`QtRaskLoggerConfig`).
- **The writer, `QtRaskLoggerWriter`.** It buffers lines and, on each pass of its loop, drains the buffer into the active log file. It then rotates the file:
  - by size, renumbering `name.1`, `name.2`, … and optionally gzipping;
  - by day, renaming yesterday's file and its segments to dated names.

## Modules

| module | file | contents |
|---|---|---|
| `Strings` | strings.dfy | decimal rendering of integers (as `QString::arg` prints them), prefix/suffix tests, lexicographic order |
| `Calendar` | calendar.dfy | day numbers from 1970-01-01 and the `YYYY-MM-DD` text of `Qt::ISODate` (extended calendar date of section 4.1.2.2 of ISO 8601:2004) |
| `Collation` | collation.dfy | the numeric-aware collation of segment names, the descending sort, and the segment names `base.N[.gz]` |
| `FileSystem` | filesystem.dfy | the log directory as a map from names to files (content, day last modified, gzipped); rename, gzip and append on it; class `Disk` |
| `Writer` | writer.dfy | class `LoggerWriter` with the writer's fields and operations, and the functions that specify rotation |
| `RotationProofs` | rotation_proofs.dfy | size rotation of a contiguous history of segments |
| `DayRotationProofs` | day_rotation_proofs.dfy | day rotation file by file, and the case of a dated name that is already taken |
| `WriterProperties` | writer_properties.dfy | buffer accounting, line splitting, content conservation, day-rotation settling, worked scenarios |
| `Json` | json.dfy | JSON values and the `QJsonValue` conversions `toBool`, `toDouble`, `toString`, `toArray`, `toObject`, `toInt` |
| `Config` | config.dfy | the defaults and the key-by-key merge; class `LoggerConfig` |
| `Logger` | logger.dfy | level parsing, message-type mapping, line layout; class `Logger` |

## Modelling notes

- **Directory and names.** The log directory is a single `map<string, File>`. Names are file names within that directory. The writer's active file is the last component of its configured path.
- **Rename.** Renaming fails and changes nothing when the source is missing or the target exists, as `QFile::rename` does.
- **Compression.** `gzip -9 f` replaces `f` by `f.gz` with the same payload and day. gzip refuses when `f` is missing, already ends in `.gz`, or `f.gz` exists.
- **Parameters instead of I/O.**
  - The directory listing a rotation reads is a parameter. The `Lists` precondition ties it to the disk: every matching entry, once each, in any order.
  - Today's day number, the current time in milliseconds, whether the log directory exists or could be made, and whether the open for append succeeded are also parameters.
  - The outcome of reading and parsing the configuration file is an input, `ConfigFile`.
- **Integer widths.** The `quint16` renumbering counter wraps modulo 65536. The `uint` interval field is stored modulo 2^32.
- **Size rotation and directory order.** Size rotation sorts the listing highest first under the order `Before`, so the directory order does not matter (`SortDescListingIndependent`).
- **Day rotation naming.** The code renames the active file to `<date>-<baseName>.log` and each segment to `<date>-<segment name>`. The model follows the code.
- **The "Warn" default.** The default level list is `Debug, Info, Error, Warn`. The constructor recognises only `Warning`, so with the defaults the Warning level is off (`DefaultLevelsEnabled`). The all-levels fallback applies only when no name at all is recognised.
- **Levels as a set.** The `QFlags<Level>` mask `m_level` is a `set<Level>`. The enum values 0x1, 0x2, 0x4 and 0x8 are distinct single bits, so `m_level & type` is non-zero exactly when `type` is in the set.
- **Merge order.** The merge loop visits the document's keys in an arbitrary order, chosen with `:|`. The proof shows that every order gives the same result, `Merged`.

## Model

| member | source | states |
|---|---|---|
| Writer.LoggerWriter.constructor | src/qtraskloggerwriter.cpp:14-25 | a new writer has no file name, maximum size 0 (so it never rotates by size), compression and day rotation off, an empty buffer and interval 0 |
| Writer.LoggerWriter.SetFilename | src/qtraskloggerwriter.h:20 | sets the configured path and nothing else |
| Writer.LoggerWriter.SetMaxFileSize | src/qtraskloggerwriter.h:22 | sets the maximum size and nothing else |
| Writer.LoggerWriter.SetCompression | src/qtraskloggerwriter.h:24 | sets the compression flag and nothing else |
| Writer.LoggerWriter.SetRotateByDay | src/qtraskloggerwriter.h:26 | sets the day-rotation flag and nothing else |
| Writer.LoggerWriter.Enqueue | src/qtraskloggerwriter.cpp:43-47 | appends exactly the one message at the end of the buffer; no other field changes |
| Writer.LoggerWriter.Drain | src/qtraskloggerwriter.cpp:71-78 | returns the whole buffer in order and leaves it empty |
| Writer.LoggerWriter.Write | src/qtraskloggerwriter.cpp:61-65 | the active file gains the message followed by one '\n'; every other file is unchanged |
| Writer.LoggerWriter.WriteBatch | src/qtraskloggerwriter.cpp:80-84 | after opening for append and writing each message, the active file's content is its old content (empty if new) followed by every message of the batch, each with its '\n', in order |
| Writer.LoggerWriter.RunOnce | src/qtraskloggerwriter.cpp:67-91 | the buffer always ends empty; an empty drain touches no file; a failed open is fatal and writes nothing; otherwise the batch is appended, and size rotation follows exactly when the threshold holds for the new size |
| Writer.LoggerWriter.RotateBySize | src/qtraskloggerwriter.cpp:129-162 | the directory becomes `SizeRotation` of the old one: segments renumbered highest first with a decreasing 16-bit counter, gzipped when compression is on, then the active file moved to `.1` |
| Writer.LoggerWriter.RotateByDay | src/qtraskloggerwriter.cpp:93-127 | the directory becomes `DayRotation` of the old one (file by file in `DayRotationProofs.DayRotationShape`); the stored interval is the 32-bit distance between now and today's 23:59:59 |
| Writer.LoggerWriter.DateSegments | src/qtraskloggerwriter.cpp:107-118 | the directory becomes `SegmentsDated` of the old one over the listing; when the dated names are free, `DayRotationProofs.SegmentsDatedShape` gives each segment's new name and entry |
| Writer.LoggerWriter.Configure | src/qtraskloggerwriter.cpp:30-41 | reports whether the log directory is usable; when it is and day rotation is on, rotates by day and sets the interval; otherwise nothing changes |
| Writer.FileName | src/qtraskloggerwriter.cpp:131-133 | the file name of a path has no '/' and is no longer than the path |
| Writer.FileNameIsLastPart | src/qtraskloggerwriter.cpp:131-133 | the file name is the path's tail after its last '/' |
| Writer.BaseName | src/qtraskloggerwriter.cpp:100-103 | the base name is the file name's prefix before its first '.', with no '.' in it |
| Writer.AppendAfterOpen | src/qtraskloggerwriter.cpp:80-83 | opening for append, which creates a missing file empty, and then appending equals appending to the file as it was |
| Writer.AppendTwice | src/qtraskloggerwriter.cpp:82-83 | two appends to the same file equal one append of the concatenation |
| Writer.WrittenStep | src/qtraskloggerwriter.cpp:82-83 | writing message i after the first i messages gives the first i+1 |
| Writer.Decrement | src/qtraskloggerwriter.cpp:149-151 | the post-decrement of the 16-bit counter gives rotate − 1, and 0 wraps to 65535 |
| RotationProofs.SizeRotationShift | src/qtraskloggerwriter.cpp:129-162 | after size rotation of a history `base.1 … base.k` (each possibly `.gz`): segment i becomes segment i+1 with the same content, gzipped when compression is on; the active file becomes `.1` (gzipped when on); and every unrelated file is untouched |
| RotationProofs.SizeRotationKeepsHistory | src/qtraskloggerwriter.cpp:129-162 | size rotation of a contiguous k-segment history is a contiguous (k+1)-segment history |
| RotationProofs.RenumberContiguous | src/qtraskloggerwriter.cpp:144-156 | walking the segments from k down to 1 with the counter starting at k+1 moves each to the next number |
| RotationProofs.ListingSorted | src/qtraskloggerwriter.cpp:135-142 | whatever order the listing of a contiguous history comes in, the sort gives `base.k` … `base.1` |
| RotationProofs.ListingLength | src/qtraskloggerwriter.cpp:135-136 | the listing of a k-segment history has k entries, so the counter starts at k+1 |
| RotationProofs.WalkResult | src/qtraskloggerwriter.cpp:135-156 | the renumbering loop leaves the unrelated files and the shifted segments |
| RotationProofs.RetireActive | src/qtraskloggerwriter.cpp:158-161 | moving the active file to `.1`, and gzipping it when compression is on, completes the shifted history |
| WriterProperties.ReplayNoLoss | src/qtraskloggerwriter.cpp:71-78 | over any sequence of enqueues and drains, the drained batches in order, followed by what is still buffered, are exactly the enqueued messages in order |
| WriterProperties.LinesRoundTrip | src/qtraskloggerwriter.cpp:61-65 | splitting the written text at '\n' gives back the batch, for messages without '\n' |
| WriterProperties.LinesAppend | src/qtraskloggerwriter.cpp:82-83 | the text written for two batches in a row is the texts of each, concatenated |
| WriterProperties.LinesEndInBreak | src/qtraskloggerwriter.cpp:64 | what a drain writes ends in '\n' |
| WriterProperties.RenumberedPayloads | src/qtraskloggerwriter.cpp:144-156 | renumbering keeps the multiset of (content, day) payloads, so no content is lost or duplicated, and the number of files |
| WriterProperties.SizeRotationPayloads | src/qtraskloggerwriter.cpp:129-162 | size rotation keeps the multiset of (content, day) payloads, so no content is lost or duplicated, and the number of files |
| WriterProperties.SegmentsDatedPayloads | src/qtraskloggerwriter.cpp:107-118 | renaming segments to dated names keeps the multiset of (content, day) payloads and the number of files |
| WriterProperties.DayRotationPayloads | src/qtraskloggerwriter.cpp:93-123 | day rotation keeps the multiset of (content, day) payloads, so no content is lost or duplicated, and the number of files |
| WriterProperties.DatedActiveIsNew | src/qtraskloggerwriter.cpp:100-103 | the dated name (and its `.gz`) differs from the active file's name |
| WriterProperties.DatedNotBase | src/qtraskloggerwriter.cpp:110-113 | a dated segment name is never the active file's name |
| WriterProperties.SegmentsDatedKeepsAbsent | src/qtraskloggerwriter.cpp:107-118 | dating the segments never recreates an absent active file |
| WriterProperties.DayRotationSettles | src/qtraskloggerwriter.cpp:98-122 | when rotation is due and `<date>-<baseName>.log` is not already taken, the active file is gone afterwards, so a rotation is no longer due (`DayRotationProofs.StaleDatedActive` shows the taken case) |
| WriterProperties.DayRotationIdempotent | src/qtraskloggerwriter.cpp:98-122 | when `<date>-<baseName>.log` is not already taken, a second day rotation on the same day changes nothing, whatever listing it reads |
| DayRotationProofs.DatedNameNotGz | src/qtraskloggerwriter.cpp:110-117 | `<date>-<name>` has no gzip suffix when the name has none, so the compression after the rename applies |
| DayRotationProofs.StepShape | src/qtraskloggerwriter.cpp:108-117 | one walk step whose new names are free removes the segment and adds it under its final name (dated, plus `.gz` and gzipped when compressed), and changes nothing else |
| DayRotationProofs.WalkFreshRest | src/qtraskloggerwriter.cpp:107-118 | after one step the rest of the walk still has free, distinct names and finds its segments unchanged |
| DayRotationProofs.SegmentsDatedShape | src/qtraskloggerwriter.cpp:107-118 | when every listed segment is present once and the names the walk creates are free and distinct, each segment leaves its name for `<its date>-<its name>`, with `.gz` and gzipped when compression is on and its name is not gzip; every other entry stays; no other name appears |
| DayRotationProofs.DatedActiveNotGz | src/qtraskloggerwriter.cpp:120-121 | `<date>-<baseName>.log` never has the gzip suffix, so with compression on it is always gzipped |
| DayRotationProofs.DatedActiveNotSegment | src/qtraskloggerwriter.cpp:100-107 | the dated active name, with or without `.gz`, never matches the filter `<fileName>.*`, so the segment walk never renames it |
| DayRotationProofs.RetiredShape | src/qtraskloggerwriter.cpp:105-107 | when the dated name is free, the first rename moves only the active file, and the segments the walk then lists are those of the old directory, unchanged |
| DayRotationProofs.DatedShape | src/qtraskloggerwriter.cpp:105-118 | after the rename and the walk, the old active entry sits at its dated name, every segment at its final name, every other entry where it was, and nothing else exists |
| DayRotationProofs.DayRotationShape | src/qtraskloggerwriter.cpp:93-123 | with no rotation due nothing changes; when one is due and the dated names are free, the active file is gone and its entry sits at `<date>-<baseName>.log` (at that name plus `.gz`, gzipped, when compression is on), each `<fileName>.*` segment sits at its final name with its entry, every other entry is unchanged, and no other name appears |
| DayRotationProofs.StaleDatedActive | src/qtraskloggerwriter.cpp:98-122 | when `<date>-<baseName>.log` already exists and compression is on, the rename fails but the stale file is gzipped; the active file stays and is due again, and the next call on the same day retires it, so the two calls differ |
| DayRotationProofs.StaleDatedActiveExample | src/qtraskloggerwriter.cpp:98-122 | a concrete directory, `x.log` from day 3 beside a stale dated file, checked on day 5, where two calls in a row differ |
| WriterProperties.IntervalIsDistance | src/qtraskloggerwriter.cpp:125-126 | the interval is the absolute distance between now and 23:59:59, reduced modulo 2^32; when now lies within today it is that distance exactly, and below one day |
| WriterProperties.ShiftedSegment | src/qtraskloggerwriter.cpp:144-156 | under size rotation, each segment i of a history is found under its shifted name with its content |
| WriterProperties.TwelveSegments | src/qtraskloggerwriter.cpp:137-156 | with twelve plain segments, `.10` sorts numerically and becomes `.11`, and `.12` becomes `.13` |
| WriterProperties.TwoFlushCycles | src/qtraskloggerwriter.cpp:82-89 | with a 1 MB limit, a first flush that crosses it is rotated to `.1`, which still holds the old and new text after the next flush; the next small flush starts a fresh file that holds only its own lines and is below the limit |
| WriterProperties.YesterdayRetired | src/qtraskloggerwriter.cpp:98-105 | a file last written yesterday is moved to `<yesterday>-<baseName>.log`, and the next write creates a fresh active file stamped today |
| Collation.BeforeIrreflexive | src/qtraskloggerwriter.cpp:137-142 | no name collates before itself |
| Collation.BeforeTransitive | src/qtraskloggerwriter.cpp:137-142 | the collation is transitive |
| Collation.BeforeTotal | src/qtraskloggerwriter.cpp:137-142 | any two distinct names are ordered one way or the other |
| Collation.BeforeAsymmetric | src/qtraskloggerwriter.cpp:137-142 | no two names each collate before the other |
| Collation.Insert | src/qtraskloggerwriter.cpp:139-142 | insertion adds exactly one occurrence of the new name |
| Collation.SortDescPermutation | src/qtraskloggerwriter.cpp:139-142 | the sort is a permutation of the listing |
| Collation.InsertDescending | src/qtraskloggerwriter.cpp:139-142 | inserting a new name into a highest-first sequence keeps it highest first |
| Collation.SortDescSorted | src/qtraskloggerwriter.cpp:139-142 | the sort of distinct names is highest first |
| Collation.DescendingHeadIsMax | src/qtraskloggerwriter.cpp:139-142 | the first name of a highest-first sequence collates after all the others |
| Collation.DescendingUnique | src/qtraskloggerwriter.cpp:139-142 | two highest-first sequences with the same members are equal |
| Collation.SortDescMembers | src/qtraskloggerwriter.cpp:139-142 | the sort has exactly the listing's members |
| Collation.SortDescListingIndependent | src/qtraskloggerwriter.cpp:135-142 | listings with the same names sort to the same sequence, so the directory order does not matter |
| Collation.SegmentSuffix | src/qtraskloggerwriter.cpp:149-151 | after `base.`, a segment name starts with its number and ends in `.gz` exactly when gzipped |
| Collation.SegmentShape | src/qtraskloggerwriter.cpp:149-151 | a segment name starts with `base.`, and its `.gz` form is the plain name plus `.gz` |
| Collation.SegmentBefore | src/qtraskloggerwriter.cpp:137-142 | a lower-numbered segment collates before a higher-numbered one, gzip or not (numeric mode: `.2` before `.10`) |
| Collation.SegmentInjective | src/qtraskloggerwriter.cpp:149-151 | different numbers or gzip flags give different names |
| Collation.ContiguousDescending | src/qtraskloggerwriter.cpp:137-142 | the contiguous history from k down to 1 is highest first |
| Collation.SortContiguous | src/qtraskloggerwriter.cpp:137-142 | any listing of the contiguous history sorts to `base.k` … `base.1` |
| Strings.DigitChar | src/qtraskloggerwriter.cpp:149-151 | a digit value renders as the digit character of that value |
| Strings.NatToStringDigits | src/qtraskloggerwriter.cpp:149-151 | a number renders as a non-empty run of digits with no leading zero |
| Strings.ParseNatToString | src/qtraskloggerwriter.cpp:149-151 | reading a rendered number back gives the number |
| Strings.NatToStringInjective | src/qtraskloggerwriter.cpp:149-151 | different numbers render differently |
| Strings.ParseNat | src/qtraskloggerwriter.cpp:149-151 | a text reads as a number exactly when it is a non-empty run of digits |
| Strings.ParseIntToString | src/qtrasklogger.cpp:97 | a rendered line number, negative or not, reads back as itself |
| Strings.DigitRun | src/qtraskloggerwriter.cpp:137-138 | the leading digit run is all digits and is followed by a non-digit or the end |
| Strings.StrLessIrreflexive | src/qtraskloggerwriter.cpp:137-142 | the text order is irreflexive |
| Strings.StrLessTransitive | src/qtraskloggerwriter.cpp:137-142 | the text order is transitive |
| Strings.StrLessTotal | src/qtraskloggerwriter.cpp:137-142 | the text order is total |
| Strings.StrLessAsymmetric | src/qtraskloggerwriter.cpp:137-142 | the text order is asymmetric |
| Calendar.DaysInYearValue | src/qtraskloggerwriter.cpp:102 | a year has 366 days when it is a Gregorian leap year, else 365 |
| Calendar.FromDays | src/qtraskloggerwriter.cpp:102 | every day number is a valid calendar date from 1970 on |
| Calendar.FromDaysToDays | src/qtraskloggerwriter.cpp:102 | the date of a day number converts back to that day number |
| Calendar.FromDaysInjective | src/qtraskloggerwriter.cpp:102 | different days have different dates |
| Calendar.IsoDateShape | src/qtraskloggerwriter.cpp:102 | a date up to year 9999 renders as ten characters `YYYY-MM-DD` |
| Calendar.IsoDateNoDot | src/qtraskloggerwriter.cpp:102 | a date text holds no '.' |
| Calendar.IsoDateRoundTrip | src/qtraskloggerwriter.cpp:102 | reading a rendered date back gives the date |
| Calendar.IsoDateInjective | src/qtraskloggerwriter.cpp:112 | different days up to year 9999 have different date texts, so dated names differ per day |
| FileSystem.Renamed | src/qtraskloggerwriter.cpp:153 | a rename moves the file only when the source exists and the target does not, otherwise changes nothing; other names are untouched |
| FileSystem.RenameInverse | src/qtraskloggerwriter.cpp:153 | renaming back undoes a rename |
| FileSystem.CompressIdempotent | src/qtraskloggerwriter.cpp:173-183 | gzip leaves `.gz` names alone, and a second gzip of the same name changes nothing |
| FileSystem.DecompressUndoesCompress | src/qtraskloggerwriter.cpp:173-183 | decompressing a freshly gzipped file gives back the directory |
| FileSystem.Appended | src/qtraskloggerwriter.cpp:61-65 | appending extends the file's content by the text, creating it empty if missing, and stamps it with today |
| FileSystem.RenamedPayloads | src/qtraskloggerwriter.cpp:153 | rename keeps the multiset of (content, day) payloads and the number of files |
| FileSystem.CompressedPayloads | src/qtraskloggerwriter.cpp:173-183 | gzip keeps the multiset of (content, day) payloads and the number of files |
| FileSystem.Disk.Rename | src/qtraskloggerwriter.cpp:153 | reports success exactly when the source exists and the target does not, and applies the rename |
| FileSystem.Disk.Gzip | src/qtraskloggerwriter.cpp:173-183 | applies gzip to the directory |
| FileSystem.Disk.Open | src/qtraskloggerwriter.h:32 | opening for append creates a missing file empty, stamped today, and changes nothing else |
| FileSystem.Disk.Append | src/qtraskloggerwriter.cpp:61-65 | applies the append to the directory |
| Json.ZeroOf | src/qtrasklogger.cpp:154-165 | the fallback of each type has that type, and an empty slot's fallback is a number |
| Json.ToInt | src/qtrasklogger.cpp:49 | the result fits 32 bits; it is the number itself when the value is a whole number in range, and 0 otherwise |
| Json.Coerce | src/qtrasklogger.cpp:154-165 | a merged slot keeps its type: it takes the file's value when the types agree, the type's fallback when they differ, and the number 0 when the slot was empty |
| Config.Defaults | src/qtrasklogger.cpp:109-118 | the defaults define exactly the six keys |
| Config.Merged | src/qtrasklogger.cpp:153-166 | after the merge, keys the file lacks keep their values; keys present are coerced to the existing value's type (verbatim when the type matches, the fallback otherwise); and a key with no prior value becomes the number 0 |
| Config.PartialStep | src/qtrasklogger.cpp:153-166 | merging one more key reads the slot as the merge found it before and coerces that key alone |
| Config.PartialNone | src/qtrasklogger.cpp:153 | before any key is merged, the settings are unchanged |
| Config.Loaded | src/qtrasklogger.cpp:106-169 | the loaded settings still have every default key, each with its default's type; with no file name, or a missing, unreadable, malformed or non-object file, they are the defaults |
| Config.LoggerConfig.constructor | src/qtrasklogger.cpp:106-122 | the configuration starts from the defaults and loads the file only when a name is given |
| Config.LoggerConfig.LoadJsonFile | src/qtrasklogger.cpp:124-169 | a parsed object is merged; any other outcome leaves the settings as they were |
| Config.LoggerConfig.MergeDocument | src/qtrasklogger.cpp:153-166 | the loop over the document's keys, in any order, merges every key |
| Config.LoggerConfig.MergeOne | src/qtrasklogger.cpp:153-166 | one iteration of the loop merges one more key |
| Config.LoggerConfig.MergeKey | src/qtrasklogger.cpp:154-165 | the six type tests set the key to the file's value coerced to the slot's type and change no other key |
| Logger.NameLevels | src/qtrasklogger.cpp:37-44 | a level name enables exactly the level of that name |
| Logger.Names | src/qtrasklogger.cpp:36-37 | each level-list entry is read with toString |
| Logger.LevelsOfNames | src/qtrasklogger.cpp:36-45 | a level is enabled by the list exactly when its exact name occurs in it |
| Logger.LevelsOfStep | src/qtrasklogger.cpp:36-45 | each list entry adds the levels it names |
| Logger.Effective | src/qtrasklogger.cpp:55-56 | never empty; when no level is recognised every one of Info, Debug, Error and Warning is enabled, and otherwise exactly the recognised ones |
| Logger.AllLevelsComplete | src/qtrasklogger.cpp:56 | the fallback mask of Info, Debug, Error and Warning holds every level |
| Logger.DefaultLevelsEnabled | src/qtrasklogger.cpp:114-116 | the defaults enable Debug, Info and Error, and not Warning, since "Warn" is not a recognised name |
| Logger.Classify | src/qtrasklogger.cpp:65-89 | QtDebugMsg is ("Debug", Debug), QtWarningMsg ("Warning", Warning), QtCriticalMsg ("Error", Error), QtInfoMsg ("Info", Info), QtFatalMsg ("Fatal", Error), and any other type ("Debug", Debug); only Fatal is labelled "Fatal" |
| Logger.LabelEnablesItsLevel | src/qtrasklogger.cpp:65-89 | every label other than "Fatal" names, in the level list, exactly the level it is logged at |
| Logger.ForwardedIffListed | src/qtrasklogger.cpp:36-56 | a message is kept exactly when the level list recognised nothing or names its level |
| Logger.FormatLine | src/qtrasklogger.cpp:91-101 | the line starts with the timestamp and the bracketed label and ends with the message; it is the short form exactly when the file or the function is missing; the long form's middle part is read back by `ContextRoundTrip` |
| Logger.LabelRoundTrip | src/qtrasklogger.cpp:91-101 | the label can be read back from either layout |
| Logger.ContextRoundTrip | src/qtrasklogger.cpp:93-99 | in the long layout, when the file name holds no ':' and the function no ']', the part after the timestamp and label reads back as exactly the file, the line number, the function and the message |
| Logger.Logger.constructor | src/qtrasklogger.cpp:31-58 | the logger loads its configuration, enables the parsed levels (all when none is recognised), takes showStd from the settings, and wires the writer from the settings; it halts when the log directory cannot be made, and day-rotates when configured |
| Logger.Logger.SetUpWriter | src/qtrasklogger.cpp:47-52 | the writer gets the file name, maximum size, compression and day rotation from the settings, converted as Qt converts them, and then runs its configure step |
| Logger.Logger.ParseLevels | src/qtrasklogger.cpp:36-45 | the loop over the level list computes exactly the levels the list names |
| Logger.Logger.EnqueueMessage | src/qtrasklogger.cpp:23-29 | the message is queued exactly when its level is enabled; the echo to the console depends only on showStd |
| Logger.Logger.Log | src/qtrasklogger.cpp:60-104 | the formatted line of a message is queued exactly when its classified level is enabled |

## Left out

- DayRotationProofs.DayRotationShape, WriterProperties.DayRotationSettles, WriterProperties.DayRotationIdempotent: only when `<date>-<baseName>.log` (and its `.gz`) is free. When that name is already taken, the code's rename fails and leaves the active file, yet the compression step gzips the stale file under that name; the next call then retires the active file. `StaleDatedActive` states this case.
- Threads, the mutex, the 5 ms sleep, the endless loop and `QThread::start`: the model describes one pass of the loop (`RunOnce`) and single calls.
- The `QTimer` set up by `configure`: it only re-invokes `rotateByDay` after the computed interval. The interval itself is modelled.
- `checkLogFileDir`: whether the directory exists or could be made is the `dirOk` parameter. A failure ends the process (`qFatal`), shown as `halted` or `ok == false`.
- `qFatal` on a failed open: shown as the `Fatal` outcome of `RunOnce`, with nothing written.
- `compress` runs an external `gzip -9` process. It is modelled by its effect on the directory. The start and finish failures that `qFatal` are not modelled.
- `isGzip` sniffs the MIME type of the file. The model tests for the `.gz` suffix instead, which gives the same answer for the names the writer produces.
- Collation.Before: approximates `QCollator` in numeric mode, which depends on the locale. It compares the part after `base.` by its leading number first and then as text. It agrees with `QCollator` on the names `base.N` and `base.N.gz` that rotation produces.
- Writer.IntervalMs: midnight is taken as today's 23:59:59 in the model's own time scale. The locale-dependent text round trip at src/qtraskloggerwriter.cpp:96 is not modelled, and neither are time zones or daylight saving.
- The clock: today's day number and the current time in milliseconds are parameters.
- Dates after the year 9999, which `Qt::ISODate` renders as empty text: these are modelled, but the naming lemmas assume years up to 9999.
- Writer.Matching, Writer.Lists: the listing is a case-sensitive prefix test for `<fileName>.` over every entry. Qt's name filters behind `QDir::entryList` (src/qtraskloggerwriter.cpp:133-135) and `QDirIterator` (:107) differ in three ways. They match case-insensitively, so `APP.LOG.1` would be listed for `app.log`. They skip hidden entries, so a log file named `.app.log` has no segments listed. They treat `*`, `?` and `[` inside the file name as wildcards. The model's rotations follow the plain prefix test.
- Full paths: names are resolved within one directory. The absolute-path prefixes in the rename targets are not modelled.
- File sizes are counted in characters, not in UTF-8 bytes.
- Writer.SizeRotationDue: `maxFileSize * 1000000` is computed exactly. The `qint64` overflow of that product, for sizes above about 9.2 million MB, is not modelled.
- Reading and parsing the JSON text: the outcome is the `ConfigFile` input (missing, unreadable, malformed, or parsed to a value). The warning messages printed on those paths are left out.
- JSON numbers are exact reals, not IEEE doubles.
- `getInstance`, the process-wide singleton: the model works with one explicitly constructed `Logger`.
- The `qDebug` echo: `EnqueueMessage` and `Log` return whether the line is echoed.
- The ISO timestamp of each line is a parameter of `Log`.
- Logger.FormatLine: `QString::arg` substitutes markers again when an argument itself contains `%1`…`%9`. The model inserts the arguments verbatim.
- Config.Loaded: the type and value of keys outside the defaults are stated by `Config.Merged`, not by `Loaded`.
