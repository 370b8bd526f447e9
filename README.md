# rust-journald, modelled in Dafny

This project models the Rust binding `journald` to the systemd journal: the
layer of sequential logic between the program and the `sd_journal_*` C API.
The C API is an abstract store. A store holds a sequence of entries, a read
position and the status codes its primitives return, and it logs the calls made
to it. Against that store the project models and proves:

- **Status mapping.** `ffi_result` and `sd_try!` map a negative C status to an
  OS error carrying the negated status.
- **Open flags.** The bitmask built by `open` and `open_namespace`.
- **Conversions.** `WakeupType::try_from` and `duration_to_usec`.
- **Reading the current entry.** The readers restart the data enumeration,
  split each record at its first `=`, and fold the records into a sorted map in
  which a later name overwrites an earlier one. The current reader then stores
  the two timestamps and the cursor over that map. There are three revisions of
  this read, which differ in error handling:
  - the current `JournalReader` (`src/reader/mod.rs`) stops silently on a
    failing enumeration and fails on a failing getter;
  - the older `JournalReader` (`src/journal_reader.rs`) fails on a failing
    enumeration and ignores the getters' status;
  - the oldest `Journal` (`src/journal.rs`) returns only the enumerated fields.
- **Reader protocol.** `next`, `previous`, `seek`, `wait`, `add_filter` and
  `Drop`. Each class closes its handle at most once.
- **Blocking iterator.** Read next; at the end, wait once and read once more.
- **`JournalEntry`.** Its accessors and timestamp parsing.
- **Sending.** `submit`, `send`, `print` and `log_record` turn fields into
  `NAME=value` strings sent in one call. Reading back what was sent gives the
  fields back.

The modules follow the source:

| module | file | models |
|---|---|---|
| `Ffi` | ffi.dfy | `src/lib.rs` |
| `Entry` | journal_entry.dfy | `src/journal_entry.rs` |
| `Reader` | reader.dfy | `src/reader/mod.rs` |
| `ReaderIter` | reader_iter.dfy | `src/reader/iter.rs` |
| `Writer` | journal_writer.dfy | `src/journal_writer.rs` |
| `LegacyReader` | journal_reader.dfy | `src/journal_reader.rs` |
| `LegacyJournal` | journal.dfy | `src/journal.rs` |

Supporting modules:

- `Bytes`: byte strings, Rust's `String` order, and decimal text.
- `Utf8`: UTF-8 well-formedness and `from_utf8_lossy`.
- `SortedMap`: `BTreeMap` as an ascending association list.
- `Store`: the C API as an abstract store, with the `SdJournal` handle class
  and the `Sender` submission socket.
- `Wrappers`: `Option` and `Result`.

Code that changes state is modelled as classes and methods.
`JournalReader`, `Journal` and `JournalBlockingIter` are classes over an
`SdJournal` handle. Each method is proved equal to a function on the store
state (`ReadNext`, `SeekSpec`, `WaitSpec`, `BlockingNext`, and so on), and the
properties the source promises are lemmas about those functions. The loops that
fold the records into a map (`CollectData`) and that build the strings to send
(`Submit`) are `while` and `for` loops with invariants.

Two behaviours of the code are worth stating plainly, since a reader might
expect otherwise:

- `submit` (`src/journal_writer.rs:7-24`) does not validate field names. It
  sends every field as given, and only the daemon's status decides the result.
- In the current reader (`src/reader/mod.rs:239-259`), a negative status from
  `sd_journal_enumerate_data` ends the loop silently, and the entry is built
  from the records read so far. The older reader propagates that error;
  `LegacyReader.EnumerationFailureDiffers` states the difference.

Three places in the code cannot be followed literally:

- If `sd_journal_get_cursor` fails in the older reader, the cursor buffer is
  left null and then handed to `CString::from_raw`. The model gives an empty
  cursor text in that case.
- In the current reader's cursor seek (`src/reader/mod.rs:369-372`), the
  `CString` built by `CString::new(cur)?` is dropped at the end of its `let`
  statement. `sd_journal_seek_cursor` therefore gets a buffer that has already
  been freed. The model passes the cursor text intact, as the older reader
  does (`src/journal_reader.rs:172`), where the temporary lives through the
  call.
- `submit` formats each `Vec<u8>` value with `{}`. The model sends the raw
  bytes `k=v`, which is the wire format the daemon expects.

## Model

| member | source | states |
|---|---|---|
| Ffi.FfiResult | src/lib.rs:9-15 | A negative status is `Err` carrying the negated status, with two's-complement wrap for `i32::MIN`. A non-negative status is `Ok` of itself. |
| Ffi.NegI32 | src/lib.rs:11 | `-ret` as a release build computes it: the result is again an `i32`. |
| Ffi.FfiErrnoPositive | src/lib.rs:9-15 | For a C errno status, the error code is `-ret`, which is strictly positive. |
| Ffi.FfiMinWraps | src/lib.rs:11 | For `i32::MIN`, the negation wraps, and the carried code is negative. |
| Ffi.SdTry | src/lib.rs:25-29 | `sd_try!` returns early with the mapped error on a negative status. Otherwise it continues with the status. |
| Entry.ParseI64 | src/journal_entry.rs:69 | Any value `parse::<i64>` accepts lies within the `i64` range. |
| Entry.ParseDecimal | src/journal_entry.rs:73-77 | The decimal text of any `n <= i64::MAX` parses back to `n`. |
| Entry.ParseNonAscii | src/journal_entry.rs:68-69 | Text with a non-ASCII byte never parses as a number. |
| Entry.ParseLossy | src/journal_entry.rs:68-69 | Parsing the lossy text of a field gives the same result as parsing its raw bytes. |
| Entry.JournalEntry.New | src/journal_entry.rs:23-25 | A new entry has no field at all. |
| Entry.JournalEntry.From | src/journal_entry.rs:86-92 | The entry holds exactly the given map: every lookup answers as the map does. |
| Entry.JournalEntry.GetFieldBinary | src/journal_entry.rs:32-34 | Some exactly when the name is stored, and then the stored bytes. |
| Entry.JournalEntry.GetFieldString | src/journal_entry.rs:36-41 | `Ok(None)` for an absent field. For a present field: `Ok` of its bytes when they are valid UTF-8, else an error whose valid prefix is shorter than the value. |
| Entry.JournalEntry.GetFieldStringLossy | src/journal_entry.rs:43-45 | Present exactly when the field is. The text is always valid UTF-8, and is the stored bytes when those were already valid. |
| Entry.JournalEntry.SetMessage | src/journal_entry.rs:55-58 | Afterwards `MESSAGE` holds exactly the given bytes and reads back as the given text. No other field changes. |
| Entry.JournalEntry.TimestampOf | src/journal_entry.rs:67-83 | A timestamp exists exactly when the field is present and its text parses as an `i64`. Its value is the parsed value. |
| Entry.JournalEntry.GetWallclockTime | src/journal_entry.rs:60-65 | The source timestamp when it has one; otherwise the reception timestamp, which may be None. |
| Entry.ReceptionRoundTrip | src/journal_entry.rs:73-77 | A `__REALTIME_TIMESTAMP` written as the decimal text of `n <= i64::MAX` reads back as `n`. |
| Entry.WallclockFallsBack | src/journal_entry.rs:60-77 | Without a source timestamp, the wallclock time is the reception time. |
| Entry.WallclockOfFields | src/journal_entry.rs:60-77 | Over the raw bytes of the two fields: the source timestamp if present and parsable as an `i64`, otherwise the reception timestamp if present and parsable, otherwise None. A present but unparsable source field falls through. |
| Utf8.LossyOfValid | src/journal_entry.rs:44 | Lossy decoding leaves valid UTF-8 unchanged. |
| Utf8.LossyIsValid | src/journal_entry.rs:44 | The result of lossy decoding is always valid UTF-8. |
| Utf8.LossyKeepsAscii | src/reader/mod.rs:253-254 | Lossy decoding keeps every ASCII byte, in particular the `=` the split looks for. |
| Utf8.LossyKeepsNonAscii | src/journal_entry.rs:68-69 | An input with a non-ASCII byte gives an output with a non-ASCII byte. |
| Utf8.AsciiValid | src/reader/mod.rs:274 | ASCII text, such as decimal digits, is valid UTF-8. |
| Bytes.DecimalShape | src/reader/mod.rs:274 | `u64::to_string` gives non-empty ASCII digits with no leading zero (except for 0) and no `=`. |
| Bytes.DecimalRoundTrip | src/reader/mod.rs:274 | The digits of `n` read back as `n`. |
| Bytes.LessTransitive | src/reader/mod.rs:235 | The byte order of `BTreeMap` keys is transitive. |
| Bytes.LessTotal | src/reader/mod.rs:235 | The byte order is total. |
| SortedMap.Get | src/journal_entry.rs:33 | A lookup finds a value exactly when the key is stored, and the pair found is stored. |
| SortedMap.Insert | src/reader/mod.rs:257 | `BTreeMap::insert` keeps the keys ascending, and holds only the new pair and old pairs. |
| SortedMap.GetInsert | src/reader/mod.rs:257 | After an insert, the inserted key has the new value and every other key keeps its value. |
| SortedMap.GetSorted | src/journal_entry.rs:33 | In a sorted map, every stored pair is the one its key's lookup finds. |
| SortedMap.SplitAtEq | src/reader/mod.rs:254-256 | `splitn(2, '=')`: the name has no `=`, and name, `=` and value together give the record back. |
| SortedMap.SplitRoundTrip | src/reader/mod.rs:254-256 | Splitting `k=v` gives `(k, v)` whenever `k` has no `=`, even when `v` has. |
| SortedMap.FillGetAbsent | src/reader/mod.rs:239-259 | A name is missing from the filled map exactly when no record carries it. |
| SortedMap.FillGetLast | src/reader/mod.rs:239-259 | A present name holds the value of the last record with that name: later duplicates overwrite earlier ones. |
| SortedMap.InsertGreatest | src/journal_writer.rs:10-12 | A key above every stored key is appended at the end. |
| Reader.OpenFlags | src/reader/mod.rs:135-149 | The flags hold RUNTIME_ONLY if only volatile, LOCAL_ONLY if only local, and SYSTEM or CURRENT_USER for that file set, and no other bit. SYSTEM and CURRENT_USER are never both set, and OS_ROOT is never set. |
| Reader.NamespaceFlags | src/reader/mod.rs:170-192 | The `open` bits, plus ALL_NAMESPACES and INCLUDE_DEFAULT_NAMESPACE as configured. |
| Reader.OpenBitsUnique | src/reader/mod.rs:135-149 | The bit rules determine the flag value. |
| Reader.OpenBitsValue | src/reader/mod.rs:135-149 | The flag value, written out as the sum of its bits. |
| Reader.DefaultOpensWithZero | src/reader/mod.rs:64-78 | The default configuration (All, false, false) opens with flag value 0. |
| Reader.NamespaceExtendsOpen | src/reader/mod.rs:169-192 | The `open_namespace` flags are the `open` flags ORed with the two namespace bits. |
| Reader.TryFrom | src/reader/mod.rs:107-118 | `Ok` exactly for 0, 1 and 2, with that discriminant. `EINVAL` for any other value. |
| Reader.TryFromDiscriminant | src/reader/mod.rs:99-118 | Decoding a variant's own discriminant gives the variant back. |
| Reader.DurationToUsec | src/reader/mod.rs:462-467 | `Ok` of the microsecond count exactly when it is at most `u64::MAX`; else `EOVERFLOW`. |
| Reader.DurationOverflowBoundary | src/reader/mod.rs:462-467 | A whole-second duration overflows exactly above `u64::MAX / 10^6` seconds. |
| Reader.MaterialisedIsEntryAt | src/reader/mod.rs:222-317 | On an entry, `current_entry` yields that entry's decoding. |
| Reader.MaterialisedFails | src/reader/mod.rs:261-299 | Off an entry, or on a faulty handle, the read fails with the store's status. |
| Reader.AfterMove | src/reader/mod.rs:320-348 | Reading after a move keeps the store valid and makes no further positional call. |
| Reader.ReadNext | src/reader/mod.rs:320-332 | `next_entry` logs exactly one `next` call. |
| Reader.ReadPrevious | src/reader/mod.rs:336-348 | `previous_entry` logs exactly one `previous` call. |
| Reader.SyntheticNamesDistinct | src/reader/mod.rs:272-308 | The three synthetic names differ. |
| Reader.GetPut3 | src/reader/mod.rs:272-308 | Lookups after the three synthetic inserts. |
| Reader.EntryAtFields | src/reader/mod.rs:235-316 | A decoded entry has both timestamps as decimal text and the cursor as text, overriding any record of the same name. Every other name holds its last record's value. |
| Reader.EntryAtFails | src/reader/mod.rs:261-299 | The read fails exactly when a getter fails, with the first failing getter's status as a positive OS error code. |
| Reader.EntryAtReceptionTime | src/reader/mod.rs:272-275 | The reception time of a decoded entry is the store's realtime value whenever that value fits an `i64`. |
| Reader.ReadNextOnto | src/reader/mod.rs:320-332 | Moving forward onto entry i reads entry i and stays on it. |
| Reader.ReadNextAtEnd | src/reader/mod.rs:320-324 | At the end, the result is `Ok(None)`, and the move is the only store call. |
| Reader.ReadPreviousOnto | src/reader/mod.rs:336-348 | Moving back onto entry i reads entry i. |
| Reader.ReadPreviousAtStart | src/reader/mod.rs:336-340 | At the start, the result is `Ok(None)`, and nothing is read. |
| Reader.ReadFault | src/reader/mod.rs:320-348 | A negative move status is the error of both reads. |
| Reader.WaitSpec | src/reader/mod.rs:391-399 | `wait_usec` logs exactly one wait with the given timeout. |
| Reader.NulRefused | src/reader/mod.rs:368-422 | A cursor or filter with an embedded NUL is refused with `InvalidInput`, and the store is not called. |
| Reader.SeekEndsCallStore | src/reader/mod.rs:352-367 | Seeking to head or tail always calls the store, and fails only with the store's own status. |
| Reader.HeadHasNoPrevious | src/reader/mod.rs:352-360 | After seeking to the head, `previous_entry` is `Ok(None)`. |
| Reader.TailReadsLastBackwards | src/reader/mod.rs:361-367 | After seeking to the tail, `previous_entry` reads the last entry. |
| Reader.CursorLeadsBack | src/reader/mod.rs:293-308 | The cursor an entry reports leads back to it: seeking to it and reading forward yields the same entry. This holds when the store's cursor text is valid UTF-8, so the lossy decoding keeps it, and no earlier entry has the same cursor. |
| Reader.FiltersAccumulate | src/reader/mod.rs:400-422 | A successful `add_filter` appends its match after the earlier ones. |
| Reader.WaitClassifies | src/reader/mod.rs:391-399 | A negative wait status is its error. 0, 1 and 2 are the three wakeup types. Anything above 2 is `EINVAL`. A wait makes newly appended entries visible. |
| Reader.WaitTimeoutOverflow | src/reader/mod.rs:381-383 | An overflowing timeout fails with `EOVERFLOW`, and the store is not called. |
| Reader.CollectData | src/reader/mod.rs:222-259 | The restart and enumerate loop: its map is the fold of the current entry's records, and its status is the one that ended the enumeration. |
| Reader.JournalReader.Open | src/reader/mod.rs:134-165 | Opens once with flags obeying the bit rules. `Ok` exactly when the store's open succeeds, else its error. An opened reader holds the handle. |
| Reader.JournalReader.OpenNamespace | src/reader/mod.rs:169-218 | A namespace with a NUL is refused before the store call. Otherwise it opens once with flags obeying the namespace bit rules. |
| Reader.JournalReader.CurrentEntry | src/reader/mod.rs:222-317 | Returns the store's current entry decoded, or the first getter's error. |
| Reader.JournalReader.NextEntry | src/reader/mod.rs:320-332 | Equals `ReadNext` on the handle's store. |
| Reader.JournalReader.PreviousEntry | src/reader/mod.rs:336-348 | Equals `ReadPrevious` on the handle's store. |
| Reader.JournalReader.Seek | src/reader/mod.rs:352-379 | Equals `SeekSpec`: a NUL check for cursors, then one store call. |
| Reader.JournalReader.WaitUsec | src/reader/mod.rs:391-399 | Equals `WaitSpec` for the given timeout. |
| Reader.JournalReader.Wait | src/reader/mod.rs:386-388 | Waits with timeout `u64::MAX`. |
| Reader.JournalReader.WaitTimeout | src/reader/mod.rs:381-383 | Converts the duration first, and an overflow makes no store call. |
| Reader.JournalReader.AddFilter | src/reader/mod.rs:400-422 | Equals `AddFilterSpec`: a NUL check, then one `add_match`. |
| Reader.JournalReader.Drop | src/reader/mod.rs:443-451 | Closes a non-null handle, exactly once overall. |
| ReaderIter.Transpose | src/reader/iter.rs:26 | `Ok(None)` ends the iteration. Entries and errors are yielded wrapped in Some. |
| ReaderIter.HitDoesNotWait | src/reader/iter.rs:17-24 | An entry found at once is yielded with no wait: one `next`. |
| ReaderIter.ErrorDoesNotRetry | src/reader/iter.rs:19-24 | An error is yielded at once, with no wait and no retry. |
| ReaderIter.MissWaitsAndRetries | src/reader/iter.rs:19-22 | At the end it makes exactly one `next`, one wait with `u64::MAX` and one more `next`. The wait's result is ignored, and the retry's result is yielded. |
| ReaderIter.WaitPicksUpAppended | src/reader/iter.rs:19-22 | An entry appended while waiting is yielded. |
| ReaderIter.NothingNewEnds | src/reader/iter.rs:16-27 | When nothing arrives, the iterator yields None. |
| ReaderIter.JournalBlockingIter.Next | src/reader/iter.rs:16-27 | Equals `BlockingNext` on the reader's store. |
| Writer.Line | src/journal_writer.rs:11 | Every string holds a `=`. |
| Writer.WireFormat | src/journal_writer.rs:10-12 | `submit` makes one string per field. |
| Writer.WireFormatAt | src/journal_writer.rs:10-12 | The i-th string is the i-th field's name and value joined by `=`, name unvalidated. |
| Writer.WireInKeyOrder | src/journal_writer.rs:10-12 | The strings go out in ascending order of name. |
| Writer.WireSplitsBack | src/journal_writer.rs:11 | Splitting a string at its first `=` gives its field back when the name has no `=`, even if the value has. |
| Writer.WireRecords | src/journal_writer.rs:10-12 | Every string can be decoded by the reader. |
| Writer.DecodeLine | src/journal_writer.rs:11 | The reader's decoding of a string it can decode gives back its field. |
| Writer.ReadBack | src/journal_writer.rs:7-24 | Filling a map from the strings, as the reader does, gives the submitted map exactly. |
| Writer.WireReadsBack | src/journal_writer.rs:10-12 | For fields in any order with distinct names, the read-back map answers each lookup as the sent list does. |
| Writer.Submit | src/journal_writer.rs:7-24 | All strings go out in one send. `Ok` exactly when the status is non-negative, else `Err` of the negated status. The daemon records the entry only on success. |
| LegacyReader.DefaultOpensWithZero | src/journal_reader.rs:47-81 | The older default configuration opens with flag value 0. |
| LegacyReader.MaterialisedSteps | src/journal_reader.rs:86-144 | The older read in the order it runs: the enumeration's end status, then the getters. |
| LegacyReader.EnumerationFailureDiffers | src/journal_reader.rs:92 | A failing enumeration fails the older read, while the current reader goes on to the getters. |
| LegacyReader.GetterFailuresIgnored | src/journal_reader.rs:103-139 | When any of the three getters fails, the older read still succeeds. A failed timestamp is stored as `0`, and a failed cursor getter as empty text. The current reader fails in the same state. |
| LegacyReader.AgreesWithCurrent | src/journal_reader.rs:86-144 | On a healthy entry, the older and the current reader decode the same entry. |
| LegacyReader.AfterMove | src/journal_reader.rs:148-164 | Reading after a move makes no further positional call. |
| LegacyReader.ReadNext | src/journal_reader.rs:148-154 | Logs exactly one `next` call. |
| LegacyReader.ReadPrevious | src/journal_reader.rs:158-164 | Logs exactly one `previous` call. |
| LegacyReader.ReadNextOutcome | src/journal_reader.rs:148-154 | Status 0 is `Ok(None)` with nothing read. A positive status reads the entry. A negative status is its error. |
| LegacyReader.ReadPreviousOutcome | src/journal_reader.rs:158-164 | Status 0 is `Ok(None)` with nothing read. A positive status reads the entry. A negative status is its error. |
| LegacyReader.JournalReader.Open | src/journal_reader.rs:60-81 | Opens once with flags obeying the bit rules. `Ok` exactly when the store's open succeeds. |
| LegacyReader.JournalReader.CurrentEntry | src/journal_reader.rs:86-144 | Returns the older read of the store's current entry. |
| LegacyReader.JournalReader.NextEntry | src/journal_reader.rs:148-154 | Equals `ReadNext` on the handle's store. |
| LegacyReader.JournalReader.PreviousEntry | src/journal_reader.rs:158-164 | Equals `ReadPrevious` on the handle's store. |
| LegacyReader.JournalReader.Seek | src/journal_reader.rs:168-176 | Equals the current reader's seek, including the NUL check for cursors. |
| LegacyReader.JournalReader.Drop | src/journal_reader.rs:180-189 | Closes a non-null handle, exactly once overall. |
| LegacyJournal.MessageNamesShape | src/journal.rs:20-48 | PRIORITY, MESSAGE and TARGET are ASCII and have no `=`. |
| LegacyJournal.CodeNamesShape | src/journal.rs:51-53 | CODE_LINE, CODE_FILE and CODE_FUNCTION are ASCII and have no `=`. |
| LegacyJournal.NamesDistinct | src/journal.rs:45-53 | The six names `log_record` uses differ. |
| LegacyJournal.Send | src/journal.rs:13-16 | One send of the given strings, whose raw status is returned. |
| LegacyJournal.Print | src/journal.rs:19-21 | Sends exactly `PRIORITY=lvl` and `MESSAGE=s`, in one send. |
| LegacyJournal.PrintReadsBack | src/journal.rs:19-21 | Read back, the strings give the priority and the message, even when the message has `=`. No other name is set. |
| LegacyJournal.SyslogPriority | src/journal.rs:37-43 | Maps Error to 3, Warn to 4, Info to 6, Debug and Trace to 7. No other priority is ever sent. |
| LegacyJournal.PriorityOrder | src/journal.rs:23-43 | A less severe level never gets a more urgent priority. Only Debug and Trace share one. |
| LegacyJournal.RecordFieldsShape | src/journal.rs:45-53 | Three to six fields: PRIORITY, MESSAGE, TARGET, then CODE_LINE, CODE_FILE, CODE_FUNCTION in that order, each only when present. |
| LegacyJournal.WirePushed | src/journal.rs:51-53 | An optional push adds its string exactly when the value is there. |
| LegacyJournal.LogRecord | src/journal.rs:36-57 | One send of the record's fields, in push order. The status is dropped. |
| LegacyJournal.RecordNamesDistinct | src/journal.rs:45-53 | No name is sent twice, and every name is ASCII without `=`. |
| LegacyJournal.RecordLookup | src/journal.rs:45-53 | Each name finds its value in the sent list, and an absent optional finds None. |
| LegacyJournal.RecordTextValid | src/journal.rs:45-53 | Every sent string is valid UTF-8 when the record's texts are. |
| LegacyJournal.RecordReadsBack | src/journal.rs:36-57 | Read back, a logged record gives priority, message and target, and line, file and module path exactly when present. |
| LegacyJournal.RecordOfEntry | src/journal.rs:148-167 | On an entry, the record is its fields' fold, or the error its enumeration ends with. Off an entry, it is EADDRNOTAVAIL. |
| LegacyJournal.RecordUnderLegacyEntry | src/journal.rs:148-167 | The record and the older reader's entry fail together. Every name other than the synthetic three reads the same in both. |
| LegacyJournal.AfterMove | src/journal.rs:171-187 | Reading after a move makes no further positional call. |
| LegacyJournal.ReadNext | src/journal.rs:171-177 | Logs exactly one `next` call. |
| LegacyJournal.ReadPrevious | src/journal.rs:181-187 | Logs exactly one `previous` call. |
| LegacyJournal.ReadNextOutcome | src/journal.rs:171-177 | Status 0 is `Ok(None)`. A positive status reads the record. A negative status is its error. |
| LegacyJournal.ReadPreviousOutcome | src/journal.rs:181-187 | Status 0 is `Ok(None)`. A positive status reads the record. A negative status is its error. |
| LegacyJournal.AsReaderSeek | src/journal.rs:105-109 | This seek has no cursor variant. |
| LegacyJournal.Journal.Open | src/journal.rs:125-143 | Opens once with flags obeying the same bit rules. `Ok` exactly when the store's open succeeds. |
| LegacyJournal.Journal.GetRecord | src/journal.rs:148-167 | Returns the enumerated fields only, failing on a negative enumeration status. |
| LegacyJournal.Journal.NextRecord | src/journal.rs:171-177 | Equals `ReadNext` on the handle's store. |
| LegacyJournal.Journal.PreviousRecord | src/journal.rs:181-187 | Equals `ReadPrevious` on the handle's store. |
| LegacyJournal.Journal.Seek | src/journal.rs:191-198 | One store call to the head or the tail, failing only with its status. |
| LegacyJournal.Journal.Drop | src/journal.rs:202-210 | Closes a non-null handle, exactly once overall. |

## Left out

- The `sd_journal_*` primitives and `sd_journal_sendv` are foreign calls. They are modelled as the abstract `Store` and `Sender`, whose statuses, entries and appended entries are inputs.
- Raw memory handling is not modelled: `slice::from_raw_parts`, `CStr::from_ptr`, freeing the cursor buffer, and the `CString::new(..)?.as_ptr()` temporaries. Only the NUL check of `CString::new` is kept.
- Loading the library under the `open` feature (`open_systemd`) and the switching between feature back ends are left out: the model follows the `libsystemd-sys` back end.
- `array_to_iovecs` is not part of this model. The `as c_int` length casts in `send` and `submit` are not modelled.
- Real blocking and real timeouts in `sd_journal_wait` are not modelled. A wait returns the store's wakeup status and makes its appended entries visible.
- Thread safety, the logger glue (`JournalLog`, `enabled`, `flush`, `init`), the serde derives and tests/journal.rs are left out.
- `as_blocking_iter`, `as_blocking_iter_timeout` and `as_iter` (src/reader/mod.rs:424-440) are left out. As written they do not match the iterator file: `JournalBlockingIter` there has no `timeout` field and no `new`, and `JournalIter` is not defined. The model builds the blocking iterator directly over a reader.
- Filters are recorded in the store but do not restrict which entries the reader moves over.
- Entry.JournalEntry.SetMessage: modelled as a function returning the updated entry, not as an update in place through `&mut self`. The exclusive borrow means nothing else observes the entry.
- LegacyReader.JournalReader.CurrentEntry: when `sd_journal_get_cursor` fails, the source hands a null buffer to `CString::from_raw`, which is undefined behaviour. The model uses empty cursor text instead.
- Utf8.Lossy: each maximal ill-formed subpart is replaced by U+FFFD. The lemmas state only what the readers rely on: valid text is unchanged, the output is valid, ASCII bytes are kept and a non-ASCII byte stays non-ASCII. No lemma states the exact replacement text.
- Writer.Submit: each value is `Vec<u8>`, and `format!("{}={}", k, v)` does not apply to it as written. The model sends the raw bytes `k=v`.
- `JournalEntry::from_fields` is the same as `From`. `get_fields`, `get_message` and the three timestamp getters are plain accessors covered by the rows for `GetFieldStringLossy` and `TimestampOf`, so they have no rows of their own.
- `Cow` borrowing in `get_field_string_lossy` is not modelled: the result is the decoded bytes.
- A record without `=` would make the second `name_value.next().unwrap()` panic in the readers (src/reader/mod.rs:256, src/journal_reader.rs:98, src/journal.rs:161). The store only holds records with a `=` (`ValidEntry`), so this panic is not modelled.
- Integer widths: `u64` and `u32` parameters (`wait_usec`, `print`'s level, a record's line) are unbounded naturals. The `i32` status is bounded, and its wrap-around is modelled only where it is observable, in `ffi_result`.
- LegacyJournal.Send: returns the raw status of `sd_journal_sendv`, as the source does. The `as c_int` cast of the iovec count is not modelled.
- `sd_journal_restart_data` returns nothing (src/reader/mod.rs:224-226, src/journal_reader.rs:87, src/journal.rs:149). The model's restart only resets the enumeration index (`dataIndex`).
