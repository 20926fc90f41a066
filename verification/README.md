# Quickshell core logic, modelled and verified in Dafny

Quickshell is a toolkit for desktop shells. This project models the parts of its core
that keep state by rules of their own, and proves what those rules are for:

- `LogFormat`, `RingBuf`, `LogCodec`, `LogCategories`, `LogMachines`, `LogReader`,
  `LogRoundTrip`, `LogSession`, `LogTruncation`, `LogLimits`, `LogExample`: the compressed
  detailed log. A writer finds repeated messages in a window of 256, numbers categories by
  order of appearance and stores gaps between seconds; a reader rebuilds all of that from
  the bytes, and a session prints what its filters let through. The main theorems relate
  these machines over whole runs.
- `RowOps`, `ListDiff`, `KeyedDiff`, `KeyEconomy`, `ScriptModel`, `ObjectModel`: list models that turn an old list into a new
  one in place while announcing row operations to views.
- `TransformWatcher`: the path between two items over their lowest common ancestor.
- `Scan`, `Preproc`: the walk of the QML import graph, and the `//@ if` preprocessor.
- `Locale`, `DesktopEntries`: localized keys, and the merge of a scan into live entries.
- `FileView`, `FileSlots`, `FileWrites`: asynchronous reads and writes of one path, with at most one
  owner, and what a reported save is worth.
- `SplitParser`: splitting a byte stream at a marker, across chunks.
- `IpcSystem`, `IpcRegistry`: IPC handlers by target.
- `ColorQuantizer`: median cut.
- `Basics`: what the others share.

Objects that the program updates in place are classes. Each method is tied by its
`ensures` to a function of the old state or to the property it establishes, and the
lemmas are about those functions. Where a module has a datatype named like its state
(`WriterState`, `System`, `View`, `Work`), that is the state as a value.

## What the code does where its promise fails

Each of these is part of the model.  For each there is the exact condition under which
the promise holds, in terms of what is there before the call, and a small input that fails.

- A new non-fatal message exactly 65535 seconds after the one before carries the tag of an
  absolute time and the payload of a gap (src/core/logging.cpp:691 against 698-702). The
  record cannot be read back, whatever follows: `RecordRoundTrip`, `RunInStepExactly`;
  `LongGapIsLost`.
- A negative gap is shifted into the type field (src/core/logging.cpp:694). Some are read back
  as other gaps, those that hit the two escape tags lose the record: `Encodable` in the same
  theorems; `BackwardGapIsLost`, `BackwardGapIsMisread`.
- The reader adds an absolute time to its clock instead of replacing it
  (src/core/logging.cpp:773-777), so times stay right exactly if absolute times come only
  while the clock is at 0: `RunClocks`, and from the run alone `TimelyIsExact`;
  `SecondAbsoluteIsAdded`.
- A log that was cut inside the category id of its next message is taken for a clean end,
  because the failing peek consumes nothing (src/core/logging.cpp:809-828 and 948). The end
  of a faithful log counts as clean exactly if the cut is at the end of a record or inside
  the id of a new message of a known category (`CutRunEnds`); of any bytes, exactly if
  nothing or the beginning of an integer is left (`EndsCleanlyExactly`). `UnnoticedCuts`,
  and `LossCanGoUnnoticed` for a log of 256 messages that loses its last.
- With `objectProp` set, a row that is moved keeps its old value even if the new value
  differs (src/core/scriptmodel.cpp:88-110). The result is the new list exactly if every
  block that is moved holds the new values already (`FreshExactly`, a walk over the two
  lists). Simpler: it is if values of one key never differ (`SharpIsFresh`); with distinct
  keys it is if no changed value is wanted before one that preceded it (`OrderlyIsFresh`),
  it is not if the first changed value is (`OvertakenIsStale`), and with one changed value
  that is exact (`OneChangeExactly`). `StaleRow` fails.
- With `objectProp` set, a replace run goes on as long as values differ and does not look
  at keys (src/core/scriptmodel.cpp:141-146), so it can overwrite a row that is wanted
  later, which is then inserted as new or simply changes places. With distinct keys no key
  that both lists hold is inserted, removed or overwritten by another exactly if every
  replace run is in place: of each row and value it touches, the partner of the same key,
  if there is one, is at the same row (`KeyEconomyExactly`, a walk over the two lists like
  the one before). It is if keys keep their rows (`SameKeysInPlace`) or no value changes
  (`SharpIsInPlace`). `RowOverwritten` and `RowsExchanged` fail; `ChangedWhereItIs` does not.
- `diffUpdate` assumes each value occurs once (src/core/model.hpp:131). Otherwise surplus
  old rows stay behind the new list: `DiffUpdate` says which, and when there are none;
  `SurplusStays`.
- A `commonParent` that is above only one of the two items is refused or cuts the second
  chain. It changes nothing exactly if it is above both items, above neither, or above b
  only with nothing above it, or just a's root: `HintIsHarmless`; `HintAboveOneItem`.
- The splitter goes on one position after the end of a match (src/io/datastream.cpp:67 and 83),
  so two ways of cutting a stream into chunks can differ exactly if a marker directly
  follows another one: `ChunkingIsIrrelevant`; `AdjacentMarkers`.
- The lowercase index of desktop entries forgets an id when a result with another spelling
  of it masks it: `ById` gives the exact answer, `LowerIsComplete` when it is complete;
  `MaskedSpelling`.
- A blocking save that finds a live write waits for it, which blanks the data it is about to
  write (src/io/fileview.cpp:385 reached from 422, used at 425): `SaveSyncWritesItsData`;
  `OverlappingSaveLosesData`.
- A write that is cancelled stops without an error (src/io/fileview.cpp:205-216) and is still
  waited for and reported as saved (src/io/fileview.cpp:350-355 and 381-399). A running write
  is lost like that exactly if a call starts another operation over it and the worker sees
  the flag in time: `LostExactly`, with the calls in `CancelsWrite`; over runs
  `ReportedIsStored`; `UnwrittenIsSaved`. A file that cannot be replaced at the end of an
  atomic write is only warned about (src/io/fileview.cpp:287-291), and counts as saved too.
- Imports that end in `.js` are looked at only after everything that is not a directory was
  skipped (src/core/scan.cpp:270 before 275), so of what they name exactly the directories
  are recorded, and no script is: `ScanQmlRoot`; `ScanScripted`.

## Model

| member | source | states |
|---|---|---|
| LogFormat.LittleEndianRoundTrip | src/core/logging.cpp:586-601 | reading the little-endian bytes of any value that fits the width gives the value |
| LogFormat.UnsignedRoundTrip | src/core/logging.cpp:586-601 | writing the value of any bytes gives the bytes |
| LogFormat.ReadU64RoundTrip | src/core/logging.cpp:598-601 | eight written bytes read back as the same 64-bit value and leave what follows |
| LogFormat.VarIntRoundTrip | src/core/logging.cpp:796-828 | every 32-bit value written in one, three or seven bytes reads back, whatever follows and however little of it |
| LogFormat.VarIntShortest | src/core/logging.cpp:809-828 | no input that the reader accepts for a value, canonical or not, is shorter than what the writer emits for it |
| LogFormat.VarIntFailsExactly | src/core/logging.cpp:809-828 | reading an integer fails, consuming nothing, exactly at the end of the data or where only the beginning of a written integer is left |
| LogFormat.VarIntExtends | src/core/logging.cpp:809-828 | what reads as an integer reads the same with more bytes behind it |
| LogFormat.StringRoundTrip | src/core/logging.cpp:830-842 | every string below 2^32 bytes reads back and leaves what follows |
| LogFormat.StringShortest | src/core/logging.cpp:830-842 | reading a string consumes at least as many bytes as writing it produces |
| RingBuf.RunIsNewest | src/core/ringbuf.hpp:43-82 | after any history of emplace and clear the size is min(pushes since the last clear, capacity) and element i is the i-th newest push |
| RingBuf.PushAllIsNewest | src/core/logging.cpp:932-944 | a ring filled from empty holds the newest pushes, newest first |
| RingBuf.Search | src/core/ringbuf.hpp:127-139 | the least index whose element equals the value, -1 exactly if there is none |
| RingBuf.RingBuffer.constructor | src/core/ringbuf.hpp:20-22 | an empty ring over raw storage |
| RingBuf.RingBuffer.Construct | src/core/ringbuf.hpp:50-51 | an object is only ever constructed in a raw slot, and no other slot changes |
| RingBuf.RingBuffer.Destroy | src/core/ringbuf.hpp:46-48 | an object is only ever destroyed where one lives, and no other slot changes |
| RingBuf.RingBuffer.Emplace | src/core/ringbuf.hpp:42-57 | the contents, newest first, are the old ones behind the new element, cut at the capacity; live slots are exactly those below the size |
| RingBuf.RingBuffer.Rewrite | src/core/ringbuf.hpp:153-154 | assigning through the returned reference changes the newest element only |
| RingBuf.RingBuffer.Clear | src/core/ringbuf.hpp:59-71 | destroys every live object exactly once and leaves an empty ring with all storage raw |
| RingBuf.RingBuffer.At | src/core/ringbuf.hpp:73-78 | index i is the i-th newest element, through the wrap-around with a truncating remainder |
| RingBuf.HashBuffer.constructor | src/core/ringbuf.hpp:115 | an empty buffer of the given capacity |
| RingBuf.HashBuffer.IndexOf | src/core/ringbuf.hpp:126-139 | equals a plain search for the least equal index, for every hash that respects equality |
| RingBuf.HashBuffer.Emplace | src/core/ringbuf.hpp:145-155 | pushes the element; every stored hash stays the hash of its element |
| RingBuf.HashBuffer.Clear | src/core/ringbuf.hpp:157 | empties the buffer |
| RingBuf.HashBuffer.At | src/core/ringbuf.hpp:160 | index i is the i-th newest element |
| LogCodec.CompressedTypeOf | src/core/logging.cpp:549-571 | fits the type bits, and all types but fatal are recovered from it |
| LogCodec.FlagsRoundTrip | src/core/logging.cpp:855-878 | the four filter flags of a category survive the flag byte |
| LogCodec.InitialLockstep | src/core/logging_p.hpp:84-107 | a new writer and a new reader are in lockstep |
| LogCodec.RegistrationKeepsLockstep | src/core/logging.cpp:844-881 | implicit numbering: registering keeps both category tables equal, and the id written is in range and names the category |
| LogCodec.StampRoundTrip | src/core/logging.cpp:681-705 | type and time field read back through packed, varint and absolute form, for every encodable gap |
| LogCodec.StampOverrun | src/core/logging.cpp:691-702 | for every other gap the reader consumes more than the stamp |
| LogCodec.RepeatRoundTrip | src/core/logging.cpp:660-670 | index and gap of a back-reference read back in the short and the long form, gaps modulo their field width |
| LogCodec.RepeatReadsBack | src/core/logging.cpp:652-672 | a back-reference is in range, names the repeated message, consumes its bytes and keeps the windows and categories equal |
| LogCodec.RepeatDecodes | src/core/logging.cpp:725-743 | a back-reference is read as the window's entry, category id and all, with the advanced clock as its time |
| LogCodec.NewDecodes | src/core/logging.cpp:674-708 | the record of a new message, with the registration it may carry, decodes to that message under the advanced clock |
| LogCodec.UnfaithfulDoesNotReadBack | src/core/logging.cpp:688-702 | the record of a message with an unencodable gap does not read back, whatever comes after it |
| LogCodec.RecordRoundTrip | src/core/logging.cpp:649-788 | one record reads back (content, clock, consumed bytes, lockstep) if and only if the message is a repeat or its gap encodable |
| LogCodec.FaithfulForward | src/core/logging.cpp:685-702 | for time that does not run backwards the only lost messages are new, non-fatal and 65535 s after the one before |
| LogCodec.SteadyIsFaithful | src/core/logging.cpp:685-702 | a run whose seconds never decrease and in which only fatal messages come 65535 s after the one before is faithful, from any earlier state |
| LogCodec.RunInStepExactly | src/core/logging.cpp:649-788 | over a whole run every read gives its message and stops at the next record if and only if every message is faithful |
| LogCodec.RunRoundTrip | src/core/logging.cpp:649-788 | repeated reads on the concatenated writes return the run's types, categories and bodies in order, consume every byte and then fail; the dictionaries are in lockstep through all evictions |
| LogCodec.ClockStep | src/core/logging.cpp:736-777 | the reader's next clock is the message's time floored to seconds if and only if the clock guard holds |
| LogCodec.RunClocks | src/core/logging.cpp:736-777 | every time of a run is read back floored to seconds if and only if the clock guard holds at every message |
| LogCodec.TimelyIsExact | src/core/logging.cpp:736-777 | the clock guard holds along every run that goes forward by less than 2^32 s and has fatal messages and gaps above 65535 s only while the clock is at 0 |
| LogCategories.FirstFilterOfBoth | src/core/logging.cpp:844-865 | the filter a category first comes with is the one of the earlier part of a run if it occurs there |
| LogCategories.RecordFollows | src/core/logging.cpp:716-788 | reading one record gives a message that carries the id of its own category, repeat or not, and keeps the window, the categories and their first filters in step with the run so far |
| LogCategories.RunIds | src/core/logging.cpp:716-788 | over any further run, from states in step with what was written, every message read is under the id of its category, and names and filters of the table are those of the run |
| LogCategories.MessagesCarryIds | src/core/logging.cpp:725-786 | reading back any faithful run, the i-th message carries the number the writer gave the category of the i-th message, less the first free id, and under it the reader holds that category's name and the filter it first came with |
| LogMachines.EncodedLogWriter.constructor | src/core/logging_p.hpp:82-88 | starts with no categories, the first id, clock 0 and an empty window |
| LogMachines.EncodedLogWriter.Flush | src/core/logging.cpp:575-580 | the buffer goes to the device and is emptied |
| LogMachines.EncodedLogWriter.WriteHeader | src/core/logging.cpp:637-640 | the device gets the version byte |
| LogMachines.EncodedLogWriter.WriteVarInt | src/core/logging.cpp:796-807 | appends the variable-length integer that reads back |
| LogMachines.EncodedLogWriter.WriteString | src/core/logging.cpp:830-833 | appends the length-prefixed string that reads back |
| LogMachines.EncodedLogWriter.GetOrCreateCategory | src/core/logging.cpp:844-865 | a known category keeps its id and writes nothing; a new one gets the next id and a registration record |
| LogMachines.EncodedLogWriter.WriteStamp | src/core/logging.cpp:681-705 | appends the type and time of a new message |
| LogMachines.EncodedLogWriter.WriteGap | src/core/logging.cpp:684-705 | appends type and gap of a message that is not fatal, packed, as a varint or as an absolute time |
| LogMachines.EncodedLogWriter.WriteRepeat | src/core/logging.cpp:661-670 | appends a short or long back-reference |
| LogMachines.EncodedLogWriter.WriteNew | src/core/logging.cpp:674-708 | appends category, stamp and body of a new message and registers its category |
| LogMachines.EncodedLogWriter.Recall | src/core/logging.cpp:652-658 | the index is that of the newest equal message in the window, and the message enters the window either way |
| LogMachines.EncodedLogWriter.WriteRecord | src/core/logging.cpp:652-712 | appends the message's record to the buffer and advances the state |
| LogMachines.EncodedLogWriter.Write | src/core/logging.cpp:649-714 | without a device nothing changes; otherwise the device grows by exactly the message's record and the state advances as in the run theorems |
| LogMachines.EncodedLogReader.constructor | src/core/logging_p.hpp:104-107 | starts with no categories, clock 0 and an empty window |
| LogMachines.EncodedLogReader.Take | src/core/logging.cpp:606-616 | takes exactly the bytes asked for, or fails and swallows what is left |
| LogMachines.EncodedLogReader.ReadHeader | src/core/logging.cpp:642-647 | fails on an empty log, and is readable exactly for the right version |
| LogMachines.EncodedLogReader.ReadNextVarInt | src/core/logging.cpp:809-828 | the peeking reader accepts and skips exactly what the specification does, also near the end of data |
| LogMachines.EncodedLogReader.ReadNextString | src/core/logging.cpp:835-842 | reads a string, with the same failures and consumption as the specification |
| LogMachines.EncodedLogReader.RegisterCategory | src/core/logging.cpp:867-881 | a category is appended only after both its name and its flags were read |
| LogMachines.EncodedLogReader.ReadRepeatField | src/core/logging.cpp:728-737 | reads index and gap of a short or long back-reference |
| LogMachines.EncodedLogReader.ReadStampField | src/core/logging.cpp:748-775 | reads type and gap in all three forms |
| LogMachines.EncodedLogReader.ReadRecent | src/core/logging.cpp:725-743 | an index beyond the window fails; otherwise the entry is returned whole, category id included, under the advanced clock and enters the window again |
| LogMachines.EncodedLogReader.ReadNew | src/core/logging.cpp:744-786 | returns the message, or fails having advanced the clock exactly if the stamp was readable |
| LogMachines.EncodedLogReader.Read | src/core/logging.cpp:716-788 | one call absorbs registrations and ends with the outcome, message with its category id, state and unread bytes of the specification, failures included |
| LogRoundTrip.WriteLog | src/core/logging.cpp:637-714 | writing a run through the writer object gives the header and the concatenation of the records |
| LogRoundTrip.ReadLog | src/core/logging.cpp:716-788 | reading through the reader object until it fails gives the messages of the file, and only files of the right version are read |
| LogRoundTrip.WriteAndRead | src/core/logging.cpp:649-788 | for every faithful run and every hash the reader object returns the run the writer object was given, and all its times exactly if the clock guard holds |
| LogTruncation.DecodeExtends | src/core/logging.cpp:716-788 | a message that is read is read the same way, to the same byte, with more bytes behind it |
| LogTruncation.CutGivesPrefix | src/core/logging.cpp:716-788 | for any bytes whatever, cutting a log off takes messages away from the end and changes none of the others |
| LogTruncation.CutRecordFails | src/core/logging.cpp:649-788 | no record of a faithful message can be read before its last byte is there |
| LogTruncation.CutRun | src/core/logging.cpp:649-788 | however a faithful log is cut, exactly the messages whose records are whole are read |
| LogTruncation.CutRecordEnds | src/core/logging.cpp:716-828 | a cut record ends the log cleanly exactly if nothing of it is there, or some but not all bytes of the id of a new message in a known category |
| LogTruncation.CutRunEnds | src/core/logging.cpp:905-952 | however a faithful log is cut, the reader takes it for complete exactly if the cut is at the end of a record or inside such an id |
| LogTruncation.RunThenMore | src/core/logging.cpp:716-788 | after the records of a faithful run the reader goes on with whatever follows, in lockstep with the writer |
| LogTruncation.CutInsideId | src/core/logging.cpp:809-828 | a log cut inside the category id of its next message ends cleanly although the message is lost |
| LogTruncation.UnnoticedCuts | src/core/logging.cpp:809-828 | the failing inputs: one byte of three, six of seven |
| LogLimits.LongGapIsLost | src/core/logging.cpp:691-702 | the failing input: a first message 65535 s after the epoch does not read back, whatever follows |
| LogLimits.SecondIsLost | src/core/logging.cpp:649-788 | whenever only the first of two messages is faithful, it is read back up to the second record, and the second is not, whatever follows |
| LogLimits.BackwardGapIsLost | src/core/logging.cpp:694 | the failing input: of two messages the first is read back, and the second, three seconds older, is not, whatever follows |
| LogLimits.BackwardGapIsMisread | src/core/logging.cpp:694 | a message one second older is read back as 31 seconds younger |
| LogLimits.SecondAbsoluteIsAdded | src/core/logging.cpp:773-777 | the failing input: a fatal message at 20 s after one at 10 s is read back at 30 s |
| LogLimits.LossCanGoUnnoticed | src/core/logging.cpp:809-828 | the failing input: a faithful log of 256 messages, cut one byte into its last record, reads as 255 messages and a clean end |
| LogLimits.FirstByteGoesUnnoticed | src/core/logging.cpp:809-828 | behind any faithful log that has given out 255 ids, the first byte of a record in the last category goes unnoticed |
| LogLimits.ManyCategories | src/core/logging.cpp:844-865 | writing messages of k new categories reaches the state in which they have the first k ids |
| LogReader.WholeLogEndsCleanly | src/core/logging.cpp:948-952 | a log of whole records never reports an error at its end |
| LogReader.EndsCleanlyExactly | src/core/logging.cpp:911-952 | the end of a session counts as clean exactly if nothing, or only the beginning of an integer, is left after the last message |
| LogReader.LogReader.constructor | src/core/logging.cpp:883-884 | a session over a log starts with no filters and nothing printed |
| LogReader.LogReader.Initialize | src/core/logging.cpp:886-903 | succeeds exactly for a log of the right version, and leaves what is behind the version byte |
| LogReader.LogReader.Next | src/core/logging.cpp:911-936 | one message is read, filtered, and printed or held; a read that fails counts as a clean end exactly if it consumed nothing |
| LogReader.LogReader.Handle | src/core/logging.cpp:914-936 | filters are created once per category and decide what is shown |
| LogReader.LogReader.PrintTail | src/core/logging.cpp:938-944 | the ring is printed oldest first: the last min(N, k) of k shown messages in order |
| LogReader.LogReader.ContinueReading | src/core/logging.cpp:905-955 | prints all shown messages, or the last N of them, in order; succeeds exactly if what is left after the last message is nothing or the beginning of an integer; which messages of a run these are is `LogSession.PrintRun` |
| LogSession.PassesIsDisplay | src/core/logging.cpp:170-178 | each type of message is shown by its own flag, and fatal messages always |
| LogSession.PickedIsSelected | src/core/logging.cpp:911-936 | what passes of the messages read is what passes of the run, message by message |
| LogSession.SessionShows | src/core/logging.cpp:911-936 | over the rest of any faithful log a session shows exactly the messages read there that pass the rules applied to the filter their category first came with |
| LogSession.WholeSessionShows | src/core/logging.cpp:905-955 | from the initial states a session shows exactly the messages of the run that pass that filter, in order, with their contents, and with their times as well if the clock guard holds |
| LogSession.PrintRun | src/core/logging.cpp:883-955 | the session object over the log the writer object wrote prints those messages, or the last N of them, and finds nothing wrong with the log, for every hash and all rules |
| LogExample.IntegerLayout | src/core/logging.cpp:796-807 | the bytes of integers at the borders of the one, three and seven byte forms |
| LogExample.StampLayout | src/core/logging.cpp:681-705 | the bytes of the packed, varint, absolute and fatal forms of type and time |
| LogExample.RecordLayout | src/core/logging.cpp:649-714 | the bytes of two new messages with their registrations, and of a repeat in the short and the long form |
| LogExample.WindowIsNewest | src/core/logging.cpp:652-658 | after any run the window holds the newest 256 messages, newest first |
| LogExample.RepeatExactly | src/core/logging.cpp:652-708 | after any run a message is written as a repeat exactly if one of the last 256 messages has its type, category and body |
| ListDiff.FindFrom | src/core/scriptmodel.cpp:67-79 | the first position from a given one that compares equal, the length exactly if there is none |
| ListDiff.UnwantedEndIsLast | src/core/scriptmodel.cpp:74-79 | a remove run goes on until the rows end or one is still wanted |
| ListDiff.NewEndIsLast | src/core/scriptmodel.cpp:115-119 | an insert run goes on until the new list ends or one of its values has a row |
| ListDiff.CommonLengthIsLongest | src/core/scriptmodel.cpp:90-94 | a block that is moved ends where a list ends or row and value do not compare equal |
| ListDiff.DifferingLengthIsLongest | src/core/scriptmodel.cpp:141-146 | a replace run covers rows that all differ from the new values, up to the first that does not |
| ListDiff.NextStep | src/core/scriptmodel.cpp:45-157 | at every row there is a next operation that is in bounds and brings the end nearer, unless the row is right already or both lists are at their end |
| ListDiff.MinimalRemove | src/core/scriptmodel.cpp:70-86 | a remove run only takes out values the new list does not have |
| ListDiff.MinimalInsert | src/core/scriptmodel.cpp:112-136 | an insert run only puts in values the old list does not have |
| ListDiff.MinimalMove | src/core/scriptmodel.cpp:87-111 | a block move takes nothing out and puts nothing in |
| ListDiff.ProgressStep | src/core/scriptmodel.cpp:45-157 | an operation leaves finished rows alone, finishes a run of rows after them and keeps old values behind |
| ListDiff.PlanIsRight | src/core/scriptmodel.cpp:45-157 | the plan of operations replays to its result; each row of that is the new value, or where a move landed an old one of equal key; if old and new values of one key never differ the result is the new list, and between duplicate-free lists exactly old minus new is removed and new minus old inserted, once each, and nothing replaced |
| KeyedDiff.FreshExactly | src/core/scriptmodel.cpp:45-157 | the result is the new list if and only if, walking over the two lists, every block that is moved holds the new values |
| KeyedDiff.SharpIsFresh | src/core/scriptmodel.cpp:25-39 | which is so if old and new values that compare equal are equal |
| KeyedDiff.OrderlyIsFresh | src/core/scriptmodel.cpp:87-111 | with distinct keys it is so if no changed value is wanted before one that preceded it |
| KeyedDiff.OvertakenIsStale | src/core/scriptmodel.cpp:87-111 | with distinct keys it is not so if the first changed value is wanted before one that preceded it |
| KeyedDiff.OneChangeExactly | src/core/scriptmodel.cpp:87-111 | with distinct keys and one changed value it is so if and only if that value is not wanted before one that preceded it |
| KeyedDiff.MatchSpared | src/core/scriptmodel.cpp:45-157 | with distinct keys an operation other than a replacement either makes both an old row and the new value of its key final or leaves both for later |
| KeyedDiff.ChangeLeavesTrace | src/core/scriptmodel.cpp:87-152 | with distinct keys a changed value is replaced or leaves a stale row |
| KeyedDiff.EconomyExactly | src/core/scriptmodel.cpp:45-157 | with distinct keys nothing is replaced, and only values that one list lacks come and go, if and only if no value changes under its key |
| KeyEconomy.FitsExactly | src/core/scriptmodel.cpp:45-157 | with distinct keys, of all operations only a replace run can touch a key that both lists hold, and it does not exactly if it is in place |
| KeyEconomy.KeyEconomyExactly | src/core/scriptmodel.cpp:45-157 | with distinct keys, no key both lists hold is inserted, removed or overwritten by another key, if and only if every replace run is in place |
| KeyEconomy.NothingInVain | src/core/scriptmodel.cpp:45-157 | over such a replay no inserted value has a key of the old list, and no removed one a key of the new |
| KeyEconomy.LedgerStep | src/core/scriptmodel.cpp:45-157 | every operation, replace runs if in place, keeps the keys still to come waiting among the later rows, and only those |
| KeyEconomy.SameKeysInPlace | src/core/scriptmodel.cpp:137-152 | if the keys stay where they are, every replace run is in place and the result is the new list |
| KeyEconomy.SharpIsInPlace | src/core/scriptmodel.cpp:45-157 | with distinct keys, every replace run is in place if no value changes under its key |
| KeyEconomy.ChangedWhereItIs | src/core/scriptmodel.cpp:137-152 | a value that changes where it is needs no other row, although values of one key differ |
| KeyEconomy.RowOverwritten | src/core/scriptmodel.cpp:141-146 | the failing input: a replace run overwrites a row that is wanted and then inserted again |
| KeyEconomy.RowsExchanged | src/core/scriptmodel.cpp:141-146 | the failing input: one replace run exchanges two rows, and nothing is inserted or removed |
| KeyedDiff.StaleRow | src/core/scriptmodel.cpp:88-110 | the failing input: a row that is moved keeps its old value |
| KeyedDiff.RowMadeAgain | src/core/scriptmodel.cpp:141-146 | the failing input: a row is overwritten by a replace run and inserted again as new |
| ScriptModel.MovedStep | src/core/scriptmodel.cpp:104-107 | moving the elements of a run one by one moves the block |
| ScriptModel.ScriptModel.RemoveRun | src/core/scriptmodel.cpp:70-86 | removes the longest run of rows that compare to nothing still to come; the rows erased are the rows announced |
| ScriptModel.ScriptModel.MoveRun | src/core/scriptmodel.cpp:87-111 | moves the longest run that continues the new list in front of the current row, element by element, and announces it as one move |
| ScriptModel.ScriptModel.InsertRun | src/core/scriptmodel.cpp:112-136 | inserts the longest run of new values that compare to no remaining row, by growing, shifting and copying in place; what is announced is what then stands there |
| ScriptModel.ScriptModel.OpenGap | src/core/scriptmodel.cpp:126-133 | growing the list and copying its end backwards keeps every row before and after the gap |
| ScriptModel.ScriptModel.CopyIn | src/core/scriptmodel.cpp:134 | copying new values into the gap changes nothing else |
| ScriptModel.ScriptModel.MoveBlock | src/core/scriptmodel.cpp:104-107 | moving rows one by one moves the block |
| ScriptModel.ScriptModel.Mismatch | src/core/scriptmodel.cpp:67-136 | where a row does not compare to the new value, exactly the next operation of the plan is announced and carried out |
| ScriptModel.ScriptModel.Advance | src/core/scriptmodel.cpp:67-156 | at a row that both lists have, exactly the next step of the plan is taken |
| ScriptModel.ScriptModel.ReplaceRun | src/core/scriptmodel.cpp:137-152 | overwrites the longest run of rows that are not the new values and announces what then stands there |
| ScriptModel.ScriptModel.RemoveTail | src/core/scriptmodel.cpp:46-56 | announcing from the new list's length and erasing from the iterator are the same rows |
| ScriptModel.ScriptModel.AppendTail | src/core/scriptmodel.cpp:57-66 | appends the new values past the old rows and announces the rows that appear |
| ScriptModel.ScriptModel.UpdateValuesUnique | src/core/scriptmodel.cpp:16-159 | terminates; announces and carries out exactly the plan, which replays to the model; the model is the new list if and only if every moved block holds new values, always when compared by value or when values of one key do not differ; then, between duplicate-free lists, the values removed are exactly old minus new, those inserted exactly new minus old, once each, and nothing is replaced |
| ScriptModel.ScriptModel.SetValues | src/core/scriptmodel.cpp:161-165 | the same for a new list; an equal list announces nothing |
| ScriptModel.ScriptModel.SetComparison | src/core/scriptmodel.cpp:167-172 | changing the key announces nothing and changes no row |
| ObjectModel.KeptIsWanted | src/core/model.hpp:133-136 | the rows kept are old rows that are wanted, without new duplicates |
| ObjectModel.NextInStep | src/core/model.hpp:139-146 | when both lists hold their common values in one order, the next value is either the next row or new |
| ObjectModel.ObjectModel.InsertObject | src/core/model.hpp:84-95 | inserts one row, at the end for -1, and announces it |
| ObjectModel.ObjectModel.RemoveAt | src/core/model.hpp:118-129 | removes one row and announces it |
| ObjectModel.ObjectModel.RemoveUnwanted | src/core/model.hpp:133-136 | leaves exactly the wanted rows in their old order; a mirror follows and no wanted value was taken out |
| ObjectModel.ObjectModel.TakeOut | src/core/model.hpp:143-144 | takes one occurrence of a value out of the rows from the given one on, if there is any |
| ObjectModel.ObjectModel.Place | src/core/model.hpp:139-149 | puts one value at its row, taking it from further down if it is there, and leaves a row alone that is right already |
| ObjectModel.ObjectModel.Arrange | src/core/model.hpp:138-149 | makes the new list a prefix of the model; what is behind it is what was there too often |
| ObjectModel.ObjectModel.DiffUpdate | src/core/model.hpp:131-150 | a mirror matches; the model is the new list exactly if no kept value occurred too often, always for duplicate-free lists, which then never show an object twice; if common values keep their order none of them is removed or inserted again |
| ObjectModel.Leftover | src/core/model.hpp:131-150 | nothing is left behind the new list exactly if the kept rows fit into it with their multiplicities |
| ObjectModel.SurplusStays | src/core/model.hpp:131-150 | an object twice in the old list and once in the new one exceeds the new list's multiplicities |
| ObjectModel.KeepSurplus | src/core/model.hpp:131-150 | the failing input: a model with an object twice, updated to hold it once, still holds it twice |
| TransformWatcher.ResolvesToPath | src/core/transformwatcher.cpp:12-61 | without a hint the chains are a up to the lowest common ancestor and b up to just below it, sharing no item, or both whole chains if nothing is common |
| TransformWatcher.PathIsUnique | src/core/transformwatcher.cpp:12-61 | that description fits one pair of chains only |
| TransformWatcher.HintAboveBoth | src/core/transformwatcher.cpp:30-46 | any true common ancestor given as hint yields the result without a hint |
| TransformWatcher.HintIsHarmless | src/core/transformwatcher.cpp:30-55 | a hint leaves the result unchanged if and only if it is above both items, above neither, or above b only with nothing above it or just a's root |
| TransformWatcher.TopsPathExactly | src/core/transformwatcher.cpp:22-48 | a hint above b only is the upper end of b's chain in the result, with all of a's chain beside it, exactly if nothing or just a's root is above it |
| TransformWatcher.HintAboveOneItem | src/core/transformwatcher.cpp:30-55 | the failing inputs: a hint above b only that cuts the chain, one above a only that is refused; and one above b only that does no harm |
| TransformWatcher.HintAboveFirst | src/core/transformwatcher.cpp:46-55 | a hint above the first item only is refused |
| TransformWatcher.HintAboveSecond | src/core/transformwatcher.cpp:22-32 | a hint above the second item only cuts the second chain there |
| TransformWatcher.TransformWatcher.WalkSecond | src/core/transformwatcher.cpp:21-32 | the chain of b, ended at a or at the hint, and whether a was found |
| TransformWatcher.TransformWatcher.WalkFirst | src/core/transformwatcher.cpp:34-55 | the chain of a up to where it meets the other, which is cut there, or a refusal |
| TransformWatcher.TransformWatcher.ResolveChains | src/core/transformwatcher.cpp:12-61 | stores the path if there is one; null items and a refused hint leave the stored chains alone |
| Scan.ReachableIsVisited | src/core/scan.cpp:44-84 | once everything visited is followed up, the end of every chain of directory imports was visited |
| Scan.QmlScanner.ScanDir | src/core/scan.cpp:44-84 | terminates on cyclic graphs; visits the directory and keeps the invariant of what is sound, followed up and visited once |
| Scan.QmlScanner.ScanQmlFile | src/core/scan.cpp:126-283 | the same for a file, with the import branches in their order; reports an addition exactly for a readable file not seen before |
| Scan.QmlScanner.ScanQmlRoot | src/core/scan.cpp:285-289 | the visited directories are exactly those reachable from the root file over directory imports, the visited QML files exactly the root and what those directories list, none twice; besides, exactly the JSON files that parse of visited directories and the directories that visited files import with an ending .js are recorded |
| Scan.ScanScripted | src/core/scan.cpp:270-278 | the failing input: a script that exists and is imported is not recorded |
| Preproc.ScopesAreOpen | src/core/scan.cpp:201-227 | the stack holds exactly the blocks not closed yet, by counting |
| Preproc.DepthIsBalance | src/core/scan.cpp:218-227 | no endif comes without its if exactly if the count never drops below zero, and then the stack depth is the count |
| Preproc.MaskedIsHidden | src/core/scan.cpp:213-230 | a line is strictly inside a failing block exactly if an open scope fails, directive lines counting as outside their own block |
| Preproc.OnlyTrueShows | src/core/scan.cpp:201-216 | a line directly under a condition is masked for every outcome but true |
| Preproc.HiddenMeans | src/core/scan.cpp:213-227 | the flag on top of the stack is set exactly if some block that is open by counting fails |
| Preproc.HeaderMeans | src/core/scan.cpp:159-198 | the import header lasts exactly as long as no visible line ended it |
| Preproc.OutputKeepsLines | src/core/scan.cpp:229-230 | without malformed header imports the output is the source line by line, the masked ones behind the prefix |
| Preproc.OutputStep | src/core/scan.cpp:159-231 | every line has its one place in the output, except malformed imports seen in the header |
| Preproc.MaskedIsComment | src/core/scan.cpp:229 | a masked line is a comment on one line, and the line itself behind the prefix |
| Preproc.ErrorsAreDue | src/core/scan.cpp:201-227 | the errors of the first n lines come in the order of their lines, and are exactly those due there, each with its kind and line |
| Preproc.AllThatIsDue | src/core/scan.cpp:201-237 | with the one for unclosed blocks, the errors are exactly those due by counting |
| Preproc.PairingErrorsMeanUnbalanced | src/core/scan.cpp:218-237 | pairing errors are reported if and only if blocks are unbalanced |
| Preproc.Preprocess | src/core/scan.cpp:141-241 | one pass with a stack of flags outputs each line masked if and only if some strictly enclosing condition is not true; an error is reported if and only if it is due: a condition that fails or is no boolean, an endif where nothing is open by counting, or something open at the end, each with its line; the file is overridden exactly if some condition is not true |
| Locale.ParseFormat | src/core/desktopentry.cpp:36-58 | parsing lang_COUNTRY.ENCODING@MODIFIER gives back its parts for every combination of present parts |
| Locale.RankIsPreference | src/core/desktopentry.cpp:62-74 | the match score orders tags as the lookup order of the section "Localized values for keys" does, and is zero exactly for tags outside it |
| Locale.KeepIsHighest | src/core/desktopentry.cpp:185-196 | keeping or replacing line by line ends with a line of highest score |
| Locale.KeepsTheChosen | src/core/desktopentry.cpp:185-196 | for every order of a key's lines the kept value is the one that section chooses |
| Locale.ChosenIsUnique | src/core/desktopentry.cpp:185-196 | the choice does not depend on the order of the lines |
| Locale.SplitTagged | src/core/desktopentry.cpp:170-183 | a line key[tag]=value gives exactly its key, tag and value |
| Locale.SplitPlain | src/core/desktopentry.cpp:170-183 | a line key=value gives its key and value without a tag |
| Locale.SplitIgnores | src/core/desktopentry.cpp:160-172 | comments and lines without an equals sign are ignored |
| Locale.ItemsOfRendered | src/core/desktopentry.cpp:160-197 | rendering any list of keys, locales and values as lines and splitting them gives every key exactly its values with their locales, in order |
| Locale.ReadGroup | src/core/desktopentry.cpp:160-197 | after reading a group's lines the entries hold, for every key, what is kept of its lines; for every well-formed key that is the value the section "Localized values for keys" chooses |
| Locale.ReadRendered | src/core/desktopentry.cpp:160-197 | reading the rendered lines of any list of keys, locales and values holds an entry for exactly the keys given, and for every well-formed key the value the section "Localized values for keys" chooses among those given |
| DesktopEntries.LowerIsComplete | src/core/desktopentry.cpp:505-589 | when no other spelling of an id occurs, the lowercase index answers for it as the exact index does |
| DesktopEntries.LastForIsLast | src/core/desktopentry.cpp:505-589 | the result an id is judged by is hidden or has a name, names the id, and no later one does so; there is none exactly if none counts |
| DesktopEntries.LastForLowerIsLast | src/core/desktopentry.cpp:505-589 | the same for all ids of one lowercase form |
| DesktopEntries.ReusesMeans | src/core/desktopentry.cpp:534-574 | an id is shown from the first result that names it exactly if that one is visible, nothing before it names the id, and nothing after it counts for it |
| DesktopEntries.MaskedSpelling | src/core/desktopentry.cpp:521-523 | the failing input: an entry shown under one spelling cannot be found under another that was masked |
| DesktopEntries.DesktopEntryManager.LowerOfLast | src/core/desktopentry.cpp:505-589 | the result the lowercase index points at is also the last that counts for its own id, so the index refers to live entries only |
| DesktopEntries.DesktopEntryManager.Mask | src/core/desktopentry.cpp:521-532 | a hidden result removes and deletes what its id had, new or old, and nothing else |
| DesktopEntries.DesktopEntryManager.Show | src/core/desktopentry.cpp:534-574 | a visible result reuses the waiting object of its id or makes one; unusable ones are deleted, usable ones replace and delete what the id had |
| DesktopEntries.DesktopEntryManager.Pick | src/core/desktopentry.cpp:534-543 | the waiting object of an id is taken if there is one, otherwise one is made |
| DesktopEntries.DesktopEntryManager.Enter | src/core/desktopentry.cpp:563-574 | a usable entry is put into both indexes, and every object stays in one place |
| DesktopEntries.DesktopEntryManager.DropLeftovers | src/core/desktopentry.cpp:588 | old entries no result asked for are deleted |
| DesktopEntries.DesktopEntryManager.OnScanCompleted | src/core/desktopentry.cpp:505-589 | an id is in the map if and only if its last hidden-or-valid result is not hidden, with that result's data; every object is live or deleted exactly once; an id keeps its object exactly if the result it is shown from is the first to name it; the lowercase index is exact |
| DesktopEntries.DesktopEntryManager.ById | src/core/desktopentry.cpp:437-445 | an exact id wins; otherwise the entry of the last counting result of the same lowercase form, if that is not hidden |
| FileView.View.WorkerRunsKeeps | src/io/fileview.cpp:91-102 | a worker finishing at any time keeps the invariants |
| FileView.View.CompleteKeeps | src/io/fileview.cpp:358-377 | completing the live operation reports it once, shows its whole result and leaves no owner |
| FileView.View.CancelAsyncKeeps | src/io/fileview.cpp:342-356 | cancelling leaves no live operation and keeps the invariants |
| FileView.View.SetPathKeeps | src/io/fileview.cpp:465-492 | changing the path keeps every live operation on the target path |
| FileView.StepKeeps | src/io/fileview.cpp:300-492 | every slot, waiting for the job included, and every worker step keeps single ownership, exact reports, a whole visible state, and settled fates |
| FileView.EveryRunIsValid | src/io/fileview.cpp:300-492 | in every run a live operation works on the target path, prepared implies the state is of the target path, the visible state is one operation's whole result, and each completed operation was reported exactly once |
| FileView.FatesAreFinal | src/io/fileview.cpp:342-399 | whatever happens later, a disowned read is neither reported nor shown, and a completed operation is never reported again |
| FileView.SaveSyncWritesItsData | src/io/fileview.cpp:416-434 | a blocking save stores the data it was given if and only if no write was live or the data was empty |
| FileView.WriteCanBeLive | src/io/fileview.cpp:321-340 | setting a path and data reaches a live write with its data still pending |
| FileView.OverlappingSaveLosesData | src/io/fileview.cpp:416-434 | the failing input: a blocking save from there stores nothing and reports success |
| FileView.StartSettles | src/io/fileview.cpp:358-399 | an operation that is started and settles becomes the whole visible state and emits its one signal; run in place it looks the same |
| FileView.BlockingLoadAgrees | src/io/fileview.cpp:300-319 | when no operation is live, a blocking load shows and reports what an asynchronous one does once it settles, except that only the latter drops data still to be written |
| FileView.BlockingSaveAgrees | src/io/fileview.cpp:321-340 | an asynchronous save always writes the data it was given; a blocking one looks the same if and only if no write was live or the data was empty |
| FileView.NewPathIsLoaded | src/io/fileview.cpp:465-492 | a preloading view given a new path has a read of that path live, and shows its whole result once it settles |
| FileView.LocalPaths | src/io/fileview.cpp:465-467 | a file URL loses exactly its scheme, once, and every other path is kept |
| FileSlots.ReadShowsPath | src/io/fileview.cpp:569-578 | however data is asked for, the view shows its path once what is live settles, at once if it blocks; a prepared view is left alone |
| FileSlots.LoadingTwiceIsOnce | src/io/fileview.cpp:300-319 | a load that is repeated before anything has happened changes nothing |
| FileSlots.ReadingTwiceIsOnce | src/io/fileview.cpp:569-578 | asking for data again starts nothing, reports nothing and shows nothing else |
| FileSlots.PreloadingLoads | src/io/fileview.cpp:619-630 | turning preloading on loads exactly what is not prepared, and shows it once the read settles; turning it off changes nothing else |
| FileSlots.ReloadShowsPath | src/io/fileview.cpp:479-492 | a preloading view that reloads has a live operation and shows its path once that settles; until then it counts as prepared exactly if it had to wait for a write while a load of another path was the last |
| FileSlots.LoadLeavesUnprepared | src/io/fileview.cpp:300-319 | starting a load prepares nothing, unless a live write has to be waited for |
| FileSlots.SaveShowsData | src/io/fileview.cpp:591-597 | new data has a write of its own live and is what the view shows, under its path, once that settles; data it has already is not saved again |
| FileSlots.NoPathNoSave | src/io/fileview.cpp:321-325 | without a path nothing is saved, shown or reported |
| FileSlots.EmptyPathShowsNothing | src/io/fileview.cpp:465-492 | an empty path shows the empty state at once and leaves nothing live |
| FileSlots.NewPathIsNotLoaded | src/io/fileview.cpp:465-492 | without preloading a new path starts nothing, and shows nothing but a write that had to be waited for |
| FileSlots.SamePathIsIgnored | src/io/fileview.cpp:465-469 | the same path again, with or without its scheme, changes nothing |
| FileWrites.StepMarks | src/io/fileview.cpp:300-492 | no step cancels a write but the live one, and that only if the call starts another operation over it |
| FileWrites.StepEnds | src/io/fileview.cpp:300-492 | in every step a running write is told to stop and completed, or completed, or left live, exactly as the call says |
| FileWrites.LostExactly | src/io/fileview.cpp:205-216 | a running write is reported as saved without having stored its data, when files can be replaced, if and only if the call starts another operation over it and the worker sees the flag in time |
| FileWrites.CancelledWasCancelled | src/io/fileview.cpp:342-356 | after every run, a write is marked as cancelled only if a call of the run did that while it was live |
| FileWrites.ReportedIsStored | src/io/fileview.cpp:205-292 | after every run, a write without an error has stored its data unless a call cancelled it while it was live or the file could not be replaced |
| FileWrites.UnreadIsWriting | src/io/fileview.cpp:300-340 | without preloading, setting a path and data reaches a running write of a file never read |
| FileWrites.UnwrittenIsSaved | src/io/fileview.cpp:342-399 | the failing input: reading the data then reports a save of a file that was never written |
| FileView.FileView.constructor | src/io/fileview.hpp:386-396 | starts unprepared, without an operation and with the empty state |
| FileView.FileView.UpdateState | src/io/fileview.cpp:436-461 | field by field assignment with its change tests shows the whole new state and marks the view prepared |
| FileView.FileView.Emit | src/io/fileview.cpp:366-374 | exactly one signal is emitted, by kind and error of the operation |
| FileView.FileView.Delivered | src/io/fileview.cpp:79-89 | the completion of a finished worker reaches the view only while connected, and the operation is gone afterwards |
| FileView.FileView.OperationFinished | src/io/fileview.cpp:358-377 | only the live operation is completed; others are ignored |
| FileView.FileView.WaitForJob | src/io/fileview.cpp:381-399 | completes the live operation and tells whether there was one |
| FileView.FileView.CancelAsync | src/io/fileview.cpp:342-356 | a live read is disowned, a live write is waited for |
| FileView.FileView.LoadAsync | src/io/fileview.cpp:300-319 | starts a read of the target path unless one operation with that path in flight is live; an empty path shows the empty state |
| FileView.FileView.SaveAsync | src/io/fileview.cpp:321-340 | starts a write of the data held before cancelling |
| FileView.FileView.LoadSync | src/io/fileview.cpp:401-414 | takes over a live operation's result, or reads in place |
| FileView.FileView.SaveSync | src/io/fileview.cpp:416-434 | cancels, then writes what is left of the data in place |
| FileView.FileView.UpdatePath | src/io/fileview.cpp:479-492 | unprepares the view and loads again if there is a path to preload |
| FileView.FileView.SetPath | src/io/fileview.cpp:465-477 | retires the live operation, then retargets; the same path does nothing |
| FileView.FileView.Data | src/io/fileview.cpp:569-578 | loads first if unprepared, blocking or not, and returns the visible data |
| FileView.FileView.SetData | src/io/fileview.cpp:591-597 | saves data that differs from what is pending or shown |
| FileView.FileView.SetPreload | src/io/fileview.cpp:619-630 | turning preload on loads an unprepared view |
| SplitParser.SplitLossless | src/io/datastream.cpp:60-98 | slices with their markers and the rest are the input |
| SplitParser.SplitClean | src/io/datastream.cpp:67-85 | in each slice with its marker the first occurrence at offset 1 or later is the terminating one, and none is left in the rest |
| SplitParser.FeedLossless | src/io/datastream.cpp:60-98 | the same for every chunking of a stream, markers across chunks included |
| SplitParser.SkippingIsSpaced | src/io/datastream.cpp:67-85 | within one call no slice after the first is empty |
| SplitParser.CanonicalExtends | src/io/datastream.cpp:60-98 | the ordinary split of more input continues the split so far |
| SplitParser.ChunkingIsIrrelevant | src/io/datastream.cpp:67-83 | any two ways of cutting a stream into chunks give the same if and only if no marker directly follows another one in it |
| SplitParser.SpacedFeedIsCanonical | src/io/datastream.cpp:60-98 | such a stream is always split in the ordinary way |
| SplitParser.SinglyIsCanonical | src/io/datastream.cpp:60-98 | fed byte by byte, every stream is |
| SplitParser.KeptMarkerIsPassed | src/io/datastream.cpp:67 | a marker that was kept at the start of the buffer is passed for good: the next slice is not empty |
| SplitParser.AdjacentMarkers | src/io/datastream.cpp:67-83 | the failing input: of two markers in a row the second is found in a chunk of its own only |
| SplitParser.SplitParser.Matches | src/io/datastream.cpp:68-74 | comparing byte by byte over the border of buffer and chunk finds exactly the matches in the joined input |
| SplitParser.SplitParser.Slice | src/io/datastream.cpp:77-82 | the slice taken from buffer and chunk is the stretch of the joined input |
| SplitParser.SplitParser.ParseBytes | src/io/datastream.cpp:60-98 | emits the slices of the joined input and keeps the rest, without joining buffer and chunk |
| IpcSystem.RemoveOneKeepsOrder | src/io/ipchandler.cpp:377-378 | taking one handler out leaves the others in order of registration, and it is gone |
| IpcSystem.Tables.RegisterKeepsSound | src/io/ipchandler.cpp:359-374 | registering keeps the handler in use the first known one, for every target |
| IpcSystem.Tables.DeregisterKeepsSound | src/io/ipchandler.cpp:376-389 | deregistering keeps the handler in use the first known one, absent exactly if none is known, and removes nobody else |
| IpcSystem.System.UpdateKeeps | src/io/ipchandler.cpp:313-337 | an update keeps map and lists in agreement and leaves every handler registered as it wants to be |
| IpcSystem.System.UpdatePlaces | src/io/ipchandler.cpp:313-337 | a complete handler ends registered exactly if enabled with a target, under that target, last in its list and with the newest stamp; all others keep their lists, stamps and states |
| IpcSystem.System.DestroyKeeps | src/io/ipchandler.cpp:231-236 | destroying keeps the registry valid and leaves the handler in no list |
| IpcSystem.System.DestroyKeepsOthers | src/io/ipchandler.cpp:231-236 | destroying a handler changes no list, stamp or state of another |
| IpcSystem.StepKeeps | src/io/ipchandler.cpp:313-389 | every event keeps the registry valid |
| IpcSystem.EveryRunIsValid | src/io/ipchandler.cpp:313-389 | after every run the handler in use is the first known one, absent exactly if none is known, and each handler is listed exactly where it wants to be registered |
| IpcSystem.HandlersAreAsAsked | src/io/ipchandler.cpp:341-357 | after every run a handler exists if it was created and not destroyed since, wants the target last set, is enabled as last set, and is complete exactly if it was reloaded since its creation |
| IpcSystem.PlacesIsStamps | src/io/ipchandler.cpp:313-337 | an event gives a handler a place exactly if, by the events before it, it asks for something new of an existing, complete and enabled handler with a target, or completes one |
| IpcSystem.StampIsPlacedAt | src/io/ipchandler.cpp:313-389 | a handler's stamp is the index of the last event that gave it a place, by the events alone |
| IpcSystem.FindsLongestRegistered | src/io/ipchandler.cpp:470-472 | after every run the handler found for a target is, of all handlers that by the events exist, are complete, enabled and want that target, the one given its place first; none exactly if there is none |
| IpcRegistry.IpcHandlerRegistry.RegisterHandler | src/io/ipchandler.cpp:359-374 | appends to the target's list, gives the newest stamp, and puts the handler in use if there is none |
| IpcRegistry.IpcHandlerRegistry.DeregisterHandler | src/io/ipchandler.cpp:376-389 | takes the handler out of its list and passes the target on to the next or to nobody |
| IpcRegistry.IpcHandlerRegistry.UpdateRegistration | src/io/ipchandler.cpp:313-337 | the system steps as described: an incomplete handler stays, a complete one leaves its place and is put last where it wants to be |
| IpcRegistry.IpcHandlerRegistry.SetEnabled | src/io/ipchandler.cpp:341-347 | the system steps as described and stays valid; the same value only passes the time |
| IpcRegistry.IpcHandlerRegistry.SetTarget | src/io/ipchandler.cpp:351-357 | the system steps as described and stays valid; the same value only passes the time |
| IpcRegistry.IpcHandlerRegistry.OnPostReload | src/io/ipchandler.cpp:286-287 | the handler becomes complete and takes its place, behind those registered before |
| IpcRegistry.IpcHandlerRegistry.Create | src/io/ipchandler.hpp:266-268 | a new handler is enabled, without a target, incomplete and in no list |
| IpcRegistry.IpcHandlerRegistry.Retire | src/io/ipchandler.cpp:231-236 | a handler that goes is disabled and updated if it is registered |
| IpcRegistry.IpcHandlerRegistry.Destroy | src/io/ipchandler.cpp:231-236 | the system steps as described: the handler is in no list, all others keep theirs and their stamps |
| IpcRegistry.IpcHandlerRegistry.FindHandler | src/io/ipchandler.cpp:470-472 | returns the longest-registered handler of the target, and none exactly if none is registered for it |
| IpcRegistry.TakeTurns | src/io/ipchandler.cpp:313-389 | of two handlers for one target the first is found, and after it was disabled and enabled again the second |
| ColorQuantizer.BucketCount | src/core/colorquantizer.cpp:75-123 | n pixels and d levels give min(n, 2^d) colours |
| ColorQuantizer.BucketsPartition | src/core/colorquantizer.cpp:113-120 | the buckets are non-empty and partition the pixels |
| ColorQuantizer.BucketSizes | src/core/colorquantizer.cpp:113-120 | every bucket holds the floor or the ceiling of n / 2^d pixels |
| ColorQuantizer.RoundRounds | src/core/colorquantizer.cpp:97-101 | the quotient is rounded to the nearest integer, halves up |
| ColorQuantizer.MeanWithinBucket | src/core/colorquantizer.cpp:85-103 | a bucket's colour lies within the bucket's bounds on every channel |
| ColorQuantizer.TotalOfOne | src/core/colorquantizer.cpp:85-95 | the total of one pixel is its value |
| ColorQuantizer.TotalOfBoth | src/core/colorquantizer.cpp:85-95 | the total of two lists of pixels is the sum of their totals |
| ColorQuantizer.TotalOfSame | src/core/colorquantizer.cpp:85-95 | the total does not depend on the order of the pixels |
| ColorQuantizer.MeanOfSame | src/core/colorquantizer.cpp:97-101 | a bucket has one rounded mean, the same for every order of its pixels |
| ColorQuantizer.ColorsOfSame | src/core/colorquantizer.cpp:82-123 | the colours of a cut depend on what its buckets hold, not on the order within them |
| ColorQuantizer.BlackAndWhite | src/core/colorquantizer.cpp:85-101 | shows a black and a white pixel give (128, 128, 128) |
| ColorQuantizer.CutIsGood | src/core/colorquantizer.cpp:106-116 | halving a list sorted on a widest channel puts no pixel of the lower half above one of the upper half |
| ColorQuantizer.SortBy | src/core/colorquantizer.cpp:107-111 | some ordered rearrangement on the channel, in place |
| ColorQuantizer.MinMax | src/core/colorquantizer.cpp:128-147 | the extremes of a channel, both taken by some pixel |
| ColorQuantizer.FindBiggestColorRange | src/core/colorquantizer.cpp:125-157 | a channel of largest range, the first of red, green and blue among equals, red for no pixels |
| ColorQuantizer.Average | src/core/colorquantizer.cpp:85-101 | the rounded mean on every channel, without overflow of the 32-bit totals |
| ColorQuantizer.LastLevel | src/core/colorquantizer.cpp:82-104 | a bucket gives its mean, no pixels give no colour |
| ColorQuantizer.Quantization | src/core/colorquantizer.cpp:75-123 | the colours are the rounded means, in order, of the buckets of a median cut of exactly the given pixels; n pixels and d levels give min(n, 2^d) of them |

## Left out

- Device failures: a write to the device succeeds and takes the whole buffer; partial writes and the closing of the log after them are not modelled.
- `Sendable` is a precondition of the run theorems: category names and bodies below 2^32 bytes and fewer than 65533 categories, the widths of the length fields and the id counter.
- Log text formatting, colours, the Qt rule parser and its copy: a session's rules are an arbitrary function from a category and its filter to a filter.
- The clock theorems take times from the epoch on and below 2^63 ms.
- The log follower, its file locks and threads.
- `RingBuffer`: moving a ring, and copies of references that outlive a push.
- UTF-8, QString and QVariant conversion: bytes, characters and abstract values are used instead; a value's key is an arbitrary function.
- SplitParser.SplitParser.ParseBytes: the empty marker and the call of the parser on its own buffer after the marker changed are not modelled.
- `ScriptModel` guards against use while iterating and its change signals.
- ObjectModel.ObjectModel.DiffUpdate: the signals before and after each row are reduced to the announced operation, so handlers that change the list meanwhile are not modelled.
- TransformWatcher.TransformWatcher.ResolveChains: the two windows stored for items of different windows are not modelled.
- `Scan`: reading and parsing import lines, `qmldir` texts, hashing and JSON; what an import names is part of the given graph. A `root:` or relative path is taken as resolved.
- Preproc.Preprocess: the text of a line is classified beforehand (directive, malformed import, end of header); evaluating a condition has an arbitrary outcome.
- Locale.ReadGroup: one group at a time; group headers, known keys, `Exec` parsing and actions are not modelled. A tag whose only `_` lies behind `.` or `@` makes the code slice a negative length, so `Parseable` is a precondition.
- `DesktopEntries`: scanning directories, the queue of scans, the applications model with its `NoDisplay` filter, actions and heuristic lookup; deleting later is deleting.
- `FileView`: each slot is one atomic step, so handlers that call back are not modelled; adapters, watchers, text conversion, the `loaded` properties and data-changed signals are left out, and so is why a slot blocks (a parameter).
- `FileView`: what a worker makes of the file is arbitrary, except that it stops without an error when it sees the cancel flag; partly written files count as not stored.
- `IpcRegistry`: one engine generation that is always found; functions, properties, signals and the wire format are left out.
- ColorQuantizer.Quantization: integer depth only, no cancelling; quotients are exact rationals, and 255 times the number of pixels stays below 2^31.
- ColorQuantizer.SortBy: the library sort is taken as any ordered rearrangement, not as an algorithm.
- Image loading, popups, networking, D-Bus, Wayland and QML components.
