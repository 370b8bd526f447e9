/** The journal reader: open flags, wakeup classification, timeout
    conversion, the decoding of the current entry and the cursor protocol
    (next, previous, seek, wait, filters, close) over a journal handle. */
module Reader {
  import opened Bytes
  import opened Wrappers
  import opened Ffi
  import opened SortedMap
  import Utf8
  import opened Store
  import Api = Store
  import opened Entry

  // ---------------------------------------------------------------------
  // Open flags

  const LOCAL_ONLY: bv32 := 1
  const RUNTIME_ONLY: bv32 := 2
  const SYSTEM: bv32 := 4
  const CURRENT_USER: bv32 := 8
  const OS_ROOT: bv32 := 16
  const ALL_NAMESPACES: bv32 := 32
  const INCLUDE_DEFAULT_NAMESPACE: bv32 := 64

  /** Which journal files to read. */
  datatype JournalFiles = System | CurrentUser | All

  datatype JournalReaderConfig = JournalReaderConfig(
    files: JournalFiles,
    onlyVolatile: bool,
    onlyLocal: bool,
    allNamespaces: bool,
    includeDefaultNamespace: bool)

  /** `JournalReaderConfig::default`. */
  function DefaultConfig(): JournalReaderConfig
  {
    JournalReaderConfig(All, false, false, false, false)
  }

  /** The flags `open` passes, bit by bit: RUNTIME_ONLY for volatile files
      only, LOCAL_ONLY for local files only, SYSTEM or CURRENT_USER for the
      chosen file set, and no other bit. */
  predicate OpenBits(flags: bv32, c: JournalReaderConfig)
  {
    && (flags & RUNTIME_ONLY != 0 <==> c.onlyVolatile)
    && (flags & LOCAL_ONLY != 0 <==> c.onlyLocal)
    && (flags & SYSTEM != 0 <==> c.files == System)
    && (flags & CURRENT_USER != 0 <==> c.files == CurrentUser)
    && flags & !(RUNTIME_ONLY | LOCAL_ONLY | SYSTEM | CURRENT_USER) == 0
  }

  /** The flags `open_namespace` passes: the open bits, plus ALL_NAMESPACES
      and INCLUDE_DEFAULT_NAMESPACE as configured. */
  predicate NamespaceBits(flags: bv32, c: JournalReaderConfig)
  {
    && OpenBits(flags & !(ALL_NAMESPACES | INCLUDE_DEFAULT_NAMESPACE), c)
    && (flags & ALL_NAMESPACES != 0 <==> c.allNamespaces)
    && (flags & INCLUDE_DEFAULT_NAMESPACE != 0 <==> c.includeDefaultNamespace)
  }

  /** The flag computation of `open`, one `|=` at a time. */
  method OpenFlags(c: JournalReaderConfig) returns (flags: bv32)
    ensures OpenBits(flags, c)
    ensures flags & SYSTEM == 0 || flags & CURRENT_USER == 0
    ensures flags & OS_ROOT == 0
  {
    flags := 0;
    if c.onlyVolatile {
      flags := flags | RUNTIME_ONLY;
    }
    if c.onlyLocal {
      flags := flags | LOCAL_ONLY;
    }
    flags := flags | match c.files
      case System => SYSTEM
      case CurrentUser => CURRENT_USER
      case All => 0;
  }

  /** The flag computation of `open_namespace`. */
  method NamespaceFlags(c: JournalReaderConfig) returns (flags: bv32)
    ensures NamespaceBits(flags, c)
  {
    flags := OpenFlags(c);
    if c.allNamespaces {
      flags := flags | ALL_NAMESPACES;
    }
    if c.includeDefaultNamespace {
      flags := flags | INCLUDE_DEFAULT_NAMESPACE;
    }
  }

  /** The bit rules pin the flag value down. */
  lemma OpenBitsUnique(f: bv32, g: bv32, c: JournalReaderConfig)
    requires OpenBits(f, c) && OpenBits(g, c)
    ensures f == g
  {
  }

  /** The bits for each file set, written out. */
  lemma OpenBitsValue(f: bv32, c: JournalReaderConfig)
    requires OpenBits(f, c)
    ensures f == (if c.onlyVolatile then RUNTIME_ONLY else 0)
               | (if c.onlyLocal then LOCAL_ONLY else 0)
               | (match c.files case System => SYSTEM case CurrentUser => CURRENT_USER case All => 0)
  {
  }

  /** The default configuration opens with flag value 0. */
  lemma DefaultOpensWithZero(f: bv32)
    requires OpenBits(f, DefaultConfig())
    ensures f == 0
  {
  }

  /** `open_namespace` passes `open`'s flags with the two namespace bits added. */
  lemma NamespaceExtendsOpen(f: bv32, g: bv32, c: JournalReaderConfig)
    requires OpenBits(f, c) && NamespaceBits(g, c)
    ensures g == f | (if c.allNamespaces then ALL_NAMESPACES else 0)
                   | (if c.includeDefaultNamespace then INCLUDE_DEFAULT_NAMESPACE else 0)
  {
    OpenBitsUnique(f, g & !(ALL_NAMESPACES | INCLUDE_DEFAULT_NAMESPACE), c);
  }

  // ---------------------------------------------------------------------
  // Wakeup types and timeouts

  /** What `sd_journal_wait` reports: nothing changed, entries were appended,
      or journal files were added or removed. */
  datatype WakeupType = Nop | Append | Invalidate

  /** The `#[repr(i32)]` discriminant. */
  function Discriminant(w: WakeupType): int
  {
    match w
    case Nop => 0
    case Append => 1
    case Invalidate => 2
  }

  /** `WakeupType::try_from`. */
  function TryFrom(value: int): (r: IoResult<WakeupType>)
    ensures r.Ok? <==> 0 <= value <= 2
    ensures r.Ok? ==> Discriminant(r.value) == value
    ensures r.Err? ==> r.error == OsError(EINVAL)
  {
    if value == 0 then Ok(Nop)
    else if value == 1 then Ok(Append)
    else if value == 2 then Ok(Invalidate)
    else Err(OsError(EINVAL))
  }

  /** Decoding a variant's own discriminant gives the variant back. */
  lemma TryFromDiscriminant(w: WakeupType)
    ensures TryFrom(Discriminant(w)) == Ok(w)
  {
  }

  /** `std::time::Duration`: whole seconds (a `u64`) and nanoseconds below one second. */
  datatype Duration = Duration(secs: nat, nanos: nat)

  predicate ValidDuration(d: Duration)
  {
    d.secs <= U64_MAX && d.nanos < 1_000_000_000
  }

  /** `Duration::as_micros`: the whole microseconds, as a `u128`. */
  function AsMicros(d: Duration): nat
  {
    d.secs * 1_000_000 + d.nanos / 1000
  }

  /** `duration_to_usec`. */
  function DurationToUsec(d: Duration): (r: IoResult<nat>)
    requires ValidDuration(d)
    ensures r.Ok? <==> AsMicros(d) <= U64_MAX
    ensures r.Ok? ==> r.value == AsMicros(d)
    ensures r.Err? ==> r.error == OsError(EOVERFLOW)
  {
    if AsMicros(d) > U64_MAX then Err(OsError(EOVERFLOW)) else Ok(AsMicros(d))
  }

  /** A whole-second duration overflows exactly when it exceeds `u64::MAX / 10^6` seconds. */
  lemma DurationOverflowBoundary(secs: nat)
    requires secs <= U64_MAX
    ensures DurationToUsec(Duration(secs, 0)).Err? <==> secs > U64_MAX / 1_000_000
  {
  }

  // ---------------------------------------------------------------------
  // Decoding the current entry

  /** The entry `current_entry` builds from a stored entry: its records
      split at the first '=' into a sorted map, then the decimal realtime and
      monotonic timestamps and the cursor text stored over any enumerated
      field of the same name; the first failing getter fails the read. */
  function EntryAt(e: StoredEntry): IoResult<JournalEntry>
    requires ValidEntry(e)
  {
    match e.realtime
    case Failure(st) => Err(OsError(-st))
    case Value(rt) =>
      match e.monotonic
      case Failure(st) => Err(OsError(-st))
      case Value(mono) =>
        match e.cursor
        case Failure(st) => Err(OsError(-st))
        case Value(c) =>
          var f1 := Put(Fill(e.data), REALTIME_TIMESTAMP, Decimal(rt));
          var f2 := Put(f1, MONOTONIC_TIMESTAMP, Decimal(mono));
          Ok(JournalEntry.From(Put(f2, CURSOR, Utf8.Lossy(c))))
  }

  /** What `current_entry` returns on a store: the enumerated records of
      the current entry, then the three getters, each stored over the map,
      the first failing getter failing the read. */
  function Materialised(s: Store): IoResult<JournalEntry>
    requires Valid(s)
  {
    var (rtStatus, realtime) := GetRealtime(s);
    if rtStatus < 0 then Err(OsError(-rtStatus)) else
    var (monoStatus, monotonic) := GetMonotonic(s);
    if monoStatus < 0 then Err(OsError(-monoStatus)) else
    var (cursorStatus, cursor) := GetCursor(s);
    if cursorStatus < 0 then Err(OsError(-cursorStatus)) else
    var f1 := Put(Fill(CurrentRecords(s)), REALTIME_TIMESTAMP, Decimal(realtime));
    var f2 := Put(f1, MONOTONIC_TIMESTAMP, Decimal(monotonic));
    Ok(JournalEntry.From(Put(f2, CURSOR, Utf8.Lossy(cursor))))
  }

  /** On an entry, reading it gives the entry's decoding. */
  lemma MaterialisedIsEntryAt(s: Store)
    requires Valid(s) && s.fault == 0 && Current(s).Some?
    ensures ValidEntry(Current(s).value)
    ensures Materialised(s) == EntryAt(Current(s).value)
  {
    assert ValidEntry(s.entries[s.pos.index]);
  }

  /** Off an entry, or on a faulty handle, reading fails with the store's status. */
  lemma MaterialisedFails(s: Store)
    requires Valid(s) && (s.fault < 0 || Current(s).None?)
    ensures Materialised(s) == Err(OsError(if s.fault < 0 then -s.fault else EADDRNOTAVAIL))
  {
  }

  function AsSome(r: IoResult<JournalEntry>): IoResult<Option<JournalEntry>>
  {
    match r
    case Ok(e) => Ok(Some(e))
    case Err(x) => Err(x)
  }

  /** `next_entry`/`previous_entry` after the move: a negative status is an
      error, 0 is the end, and anything else reads the entry moved onto
      (which leaves the data enumeration at its end). */
  function AfterMove(m: (int, Store)): (r: (IoResult<Option<JournalEntry>>, Store))
    requires Valid(m.1) && IsStatus(m.0)
    ensures Valid(r.1) && r.1.trace == m.1.trace
  {
    match FfiResult(m.0)
    case Err(e) => (Err(e), m.1)
    case Ok(n) =>
      if n == 0 then (Ok(None), m.1)
      else (AsSome(Materialised(m.1)), m.1.(dataIndex := |CurrentRecords(m.1)|))
  }

  function ReadNext(s: Store): (r: (IoResult<Option<JournalEntry>>, Store))
    requires Valid(s)
    ensures Valid(r.1) && r.1.trace == s.trace + [Next]
  {
    AfterMove(StepNext(s))
  }

  function ReadPrevious(s: Store): (r: (IoResult<Option<JournalEntry>>, Store))
    requires Valid(s)
    ensures Valid(r.1) && r.1.trace == s.trace + [Previous]
  {
    AfterMove(StepPrevious(s))
  }

  /** The three synthetic names are distinct. */
  lemma SyntheticNamesDistinct()
    ensures REALTIME_TIMESTAMP != MONOTONIC_TIMESTAMP
    ensures REALTIME_TIMESTAMP != CURSOR && MONOTONIC_TIMESTAMP != CURSOR
  {
    assert REALTIME_TIMESTAMP[2] != MONOTONIC_TIMESTAMP[2];
    assert |REALTIME_TIMESTAMP| != |CURSOR| && |MONOTONIC_TIMESTAMP| != |CURSOR|;
  }

  /** Lookups after three insertions under distinct names. */
  lemma GetPut3(m: Fields, a: Bytes, va: Bytes, b: Bytes, vb: Bytes, c: Bytes, vc: Bytes, q: Bytes)
    requires a != b && a != c && b != c
    ensures Get(Put(Put(Put(m, a, va), b, vb), c, vc), q) ==
      if q == c then Some(vc) else if q == b then Some(vb) else if q == a then Some(va) else Get(m, q)
  {
    GetInsert(m, a, va, q);
    GetInsert(Put(m, a, va), b, vb, q);
    GetInsert(Put(Put(m, a, va), b, vb), c, vc, q);
  }

  /** A decoded entry carries the store's timestamps as decimal text and its
      cursor as text, whatever the records said; every other name holds the
      value the last record with that name gave it. */
  lemma EntryAtFields(e: StoredEntry, k: Bytes)
    requires ValidEntry(e) && EntryAt(e).Ok?
    ensures e.realtime.Value? && e.monotonic.Value? && e.cursor.Value?
    ensures EntryAt(e).value.GetFieldBinary(k) ==
      if k == CURSOR then Some(Utf8.Lossy(e.cursor.value))
      else if k == MONOTONIC_TIMESTAMP then Some(Decimal(e.monotonic.value))
      else if k == REALTIME_TIMESTAMP then Some(Decimal(e.realtime.value))
      else Get(Fill(e.data), k)
  {
    SyntheticNamesDistinct();
    GetPut3(Fill(e.data), REALTIME_TIMESTAMP, Decimal(e.realtime.value),
      MONOTONIC_TIMESTAMP, Decimal(e.monotonic.value), CURSOR, Utf8.Lossy(e.cursor.value), k);
  }

  /** A read fails exactly when one of the three getters fails, and then with
      the first failing getter's status as a positive OS error code. */
  lemma EntryAtFails(e: StoredEntry)
    requires ValidEntry(e)
    ensures EntryAt(e).Err? <==> e.realtime.Failure? || e.monotonic.Failure? || e.cursor.Failure?
    ensures EntryAt(e).Err? ==> EntryAt(e).error == OsError(-(
      if e.realtime.Failure? then e.realtime.status
      else if e.monotonic.Failure? then e.monotonic.status
      else e.cursor.status))
    ensures EntryAt(e).Err? ==> EntryAt(e).error.code > 0
  {
  }

  /** The reception time of a decoded entry is the store's realtime
      timestamp whenever it fits an `i64`. */
  lemma EntryAtReceptionTime(e: StoredEntry)
    requires ValidEntry(e) && EntryAt(e).Ok?
    requires e.realtime.Value? && e.realtime.value <= I64_MAX
    ensures EntryAt(e).value.GetReceptionWallclockTime() == Some(Timestamp(e.realtime.value))
  {
    EntryAtFields(e, REALTIME_TIMESTAMP);
    ReceptionRoundTrip(EntryAt(e).value, e.realtime.value);
  }

  // ---------------------------------------------------------------------
  // The cursor protocol on stores

  /** Moving forward onto entry i reads entry i and leaves the position on it. */
  lemma ReadNextOnto(s: Store, i: nat)
    requires Valid(s) && s.fault == 0 && i < |s.entries|
    requires s.pos == Before(i) || (i > 0 && s.pos == At(i - 1))
    ensures ReadNext(s).0 == AsSome(EntryAt(s.entries[i]))
    ensures ReadNext(s).1.pos == At(i)
  {
    assert ValidEntry(s.entries[i]);
  }

  /** At the end, `next_entry` is `Ok(None)` and reads nothing: the only store call is the move. */
  lemma ReadNextAtEnd(s: Store)
    requires Valid(s) && s.fault == 0
    requires s.pos == Before(|s.entries|) || (|s.entries| > 0 && s.pos == At(|s.entries| - 1))
    ensures ReadNext(s) == (Ok(None), Log(s, Next))
  {
  }

  /** Moving back onto entry i reads entry i. */
  lemma ReadPreviousOnto(s: Store, i: nat)
    requires Valid(s) && s.fault == 0 && i < |s.entries|
    requires s.pos == Before(i + 1) || s.pos == At(i + 1)
    ensures ReadPrevious(s).0 == AsSome(EntryAt(s.entries[i]))
    ensures ReadPrevious(s).1.pos == At(i)
  {
    assert ValidEntry(s.entries[i]);
  }

  /** At the start, `previous_entry` is `Ok(None)` and reads nothing. */
  lemma ReadPreviousAtStart(s: Store)
    requires Valid(s) && s.fault == 0
    requires s.pos == Before(0) || s.pos == At(0)
    ensures ReadPrevious(s) == (Ok(None), Log(s, Previous))
  {
  }

  /** A faulty handle turns every read into its error, and decodes nothing. */
  lemma ReadFault(s: Store)
    requires Valid(s) && s.fault < 0
    ensures ReadNext(s) == (Err(OsError(-s.fault)), Log(s, Next))
    ensures ReadPrevious(s) == (Err(OsError(-s.fault)), Log(s, Previous))
  {
  }

  // ---------------------------------------------------------------------
  // Seek, filters and wait on stores

  /** Where to seek to. */
  datatype JournalSeek = Head | Tail | Cursor(token: Bytes)

  function UnitOf(m: (int, Store)): (IoResult<()>, Store)
    requires IsStatus(m.0)
  {
    match FfiResult(m.0)
    case Err(e) => (Err(e), m.1)
    case Ok(_) => (Ok(()), m.1)
  }

  /** `seek`: a cursor with an embedded NUL cannot become a C string and is
      refused before the store is called. */
  function SeekSpec(s: Store, seek: JournalSeek): (IoResult<()>, Store)
    requires Valid(s)
  {
    match seek
    case Head => UnitOf(StepSeekHead(s))
    case Tail => UnitOf(StepSeekTail(s))
    case Cursor(token) =>
      if NUL in token then (Err(InvalidInput), s) else UnitOf(StepSeekCursor(s, token))
  }

  /** `add_filter`: the same NUL check, then the match is added. */
  function AddFilterSpec(s: Store, filter: Bytes): (IoResult<()>, Store)
    requires Valid(s)
  {
    if NUL in filter then (Err(InvalidInput), s) else UnitOf(StepAddMatch(s, filter))
  }

  /** `wait_usec`: a negative status is an error, any other is classified. */
  function WaitSpec(s: Store, usec: nat): (r: (IoResult<WakeupType>, Store))
    requires Valid(s)
    ensures Valid(r.1) && r.1.trace == s.trace + [Call.Wait(usec)]
  {
    var (status, s1) := StepWait(s, usec);
    match FfiResult(status)
    case Err(e) => (Err(e), s1)
    case Ok(v) => (TryFrom(v), s1)
  }

  /** `wait_timeout`: an overflowing duration fails before the store is called. */
  function WaitTimeoutSpec(s: Store, d: Duration): (IoResult<WakeupType>, Store)
    requires Valid(s) && ValidDuration(d)
  {
    match DurationToUsec(d)
    case Err(e) => (Err(e), s)
    case Ok(usec) => WaitSpec(s, usec)
  }

  /** A string with an embedded NUL is refused with no store call at all. */
  lemma NulRefused(s: Store, text: Bytes)
    requires Valid(s) && NUL in text
    ensures SeekSpec(s, Cursor(text)) == (Err(InvalidInput), s)
    ensures AddFilterSpec(s, text) == (Err(InvalidInput), s)
  {
  }

  /** Seeking to the head or the tail never fails on input validation: the
      store is always called, and only its own status can fail the seek. */
  lemma SeekEndsCallStore(s: Store, seek: JournalSeek)
    requires Valid(s) && !seek.Cursor?
    ensures SeekSpec(s, seek).1.trace == s.trace + [if seek.Head? then SeekHead else SeekTail]
    ensures SeekSpec(s, seek).0.Err? <==> s.fault < 0
    ensures SeekSpec(s, seek).0.Err? ==> SeekSpec(s, seek).0.error == OsError(-s.fault)
  {
  }

  /** After seeking to the head, there is nothing before. */
  lemma HeadHasNoPrevious(s: Store)
    requires Valid(s) && s.fault == 0
    ensures SeekSpec(s, Head).0 == Ok(())
    ensures ReadPrevious(SeekSpec(s, Head).1).0 == Ok(None)
  {
    ReadPreviousAtStart(SeekSpec(s, Head).1);
  }

  /** After seeking to the tail, reading backwards yields the last entry first. */
  lemma TailReadsLastBackwards(s: Store)
    requires Valid(s) && s.fault == 0 && |s.entries| > 0
    ensures ReadPrevious(SeekSpec(s, Tail).1).0 == AsSome(EntryAt(s.entries[|s.entries| - 1]))
  {
    ReadPreviousOnto(SeekSpec(s, Tail).1, |s.entries| - 1);
  }

  /** A cursor read from an entry leads back to it: seeking to that cursor
      text and reading forward yields the same entry. */
  lemma CursorLeadsBack(s: Store, i: nat)
    requires Valid(s) && s.fault == 0 && i < |s.entries|
    requires ValidEntry(s.entries[i]) && EntryAt(s.entries[i]).Ok?
    requires Utf8.ValidUtf8(s.entries[i].cursor.value)
    requires forall j :: 0 <= j < i ==> s.entries[j].cursor != s.entries[i].cursor
    ensures EntryAt(s.entries[i]).value.GetFieldBinary(CURSOR) == Some(s.entries[i].cursor.value)
    ensures ReadNext(SeekSpec(s, Cursor(s.entries[i].cursor.value)).1).0 == Ok(Some(EntryAt(s.entries[i]).value))
  {
    var c := s.entries[i].cursor.value;
    EntryAtFields(s.entries[i], CURSOR);
    Utf8.LossyOfValid(c);
    assert FindCursor(s.entries, c) == Some(i);
    ReadNextOnto(SeekSpec(s, Cursor(c)).1, i);
  }

  /** A successful filter is recorded after the earlier ones. */
  lemma FiltersAccumulate(s: Store, filter: Bytes)
    requires Valid(s) && s.fault == 0 && NUL !in filter
    ensures AddFilterSpec(s, filter).0 == Ok(())
    ensures AddFilterSpec(s, filter).1.filters == s.filters + [filter]
  {
  }

  /** `wait_usec` classifies the wakeup status: a negative one is its error,
      0, 1 and 2 are the three wakeup types, and anything above is EINVAL. */
  lemma WaitClassifies(s: Store, usec: nat)
    requires Valid(s) && s.fault == 0
    ensures s.wakeup < 0 ==> WaitSpec(s, usec).0 == Err(OsError(-s.wakeup))
    ensures 0 <= s.wakeup <= 2 ==>
      WaitSpec(s, usec).0.Ok? && Discriminant(WaitSpec(s, usec).0.value) == s.wakeup
    ensures s.wakeup > 2 ==> WaitSpec(s, usec).0 == Err(OsError(EINVAL))
    ensures s.wakeup >= 0 ==> WaitSpec(s, usec).1.entries == s.entries + s.incoming
  {
  }

  /** An overflowing timeout fails with EOVERFLOW and leaves the store alone. */
  lemma WaitTimeoutOverflow(s: Store, d: Duration)
    requires Valid(s) && ValidDuration(d) && AsMicros(d) > U64_MAX
    ensures WaitTimeoutSpec(s, d) == (Err(OsError(EOVERFLOW)), s)
  {
  }

  // ---------------------------------------------------------------------
  // The reader

  /** The restart-and-enumerate loop every reader runs over the current entry:
      its records folded into a map (a later equal name wins), and the status
      the enumeration stopped at. */
  method CollectData(j: SdJournal) returns (status: int, fields: Fields)
    requires Api.Valid(j.st)
    modifies j
    ensures j.st == old(j.st).(dataIndex := |CurrentRecords(old(j.st))|)
    ensures fields == Fill(CurrentRecords(old(j.st)))
    ensures status == EnumerationEnd(old(j.st))
  {
    ghost var s0 := j.st;
    ghost var recs := CurrentRecords(s0);
    j.RestartData();
    fields := [];
    ghost var k := 0;
    EnumerateFrom(s0, 0);
    var data;
    status, data := j.EnumerateData();
    while status > 0
      invariant k <= |recs|
      invariant j.st == s0.(dataIndex := if status > 0 then k + 1 else k)
      invariant status > 0 ==> k < |recs| && data == recs[k]
      invariant status <= 0 ==> k == |recs| && status == EnumerationEnd(s0)
      invariant fields == Fill(recs[..k])
      decreases |recs| - k
    {
      var nameValue := DecodeRecord(data);
      fields := Put(fields, nameValue.0, nameValue.1);
      assert recs[..k + 1][..k] == recs[..k];
      k := k + 1;
      EnumerateFrom(s0, k);
      status, data := j.EnumerateData();
    }
    assert recs[..k] == recs;
  }

  /** A journal reader: the handle it opened, or null when opening failed. */
  class JournalReader {
    var j: SdJournal?
    /** Whether the reader has been dropped. */
    ghost var dropped: bool

    /** The handle is closed once when the reader is dropped, and never before. */
    ghost predicate Valid()
      reads this, j
    {
      j != null ==> Api.Valid(j.st) && Closes(j.st.trace) == (if dropped then 1 else 0)
    }

    /** `JournalReader { j: ptr::null_mut() }`. */
    constructor Null()
      ensures j == null && !dropped && Valid()
    {
      j := null;
      dropped := false;
    }

    /** `JournalReader::open`: the handle is kept only when opening succeeded. */
    static method Open(config: JournalReaderConfig, handle: SdJournal) returns (r: IoResult<JournalReader>)
      requires Api.Valid(handle.st) && Closes(handle.st.trace) == 0
      modifies handle
      ensures Api.Valid(handle.st)
      ensures exists flags :: OpenBits(flags, config) && handle.st == Log(old(handle.st), Call.Open(flags, None))
      ensures r.Ok? <==> old(handle.st).openStatus == 0
      ensures r.Err? ==> r.error == OsError(-old(handle.st).openStatus)
      ensures r.Ok? ==> fresh(r.value) && r.value.j == handle && !r.value.dropped && r.value.Valid()
    {
      var flags := OpenFlags(config);
      var journal := new JournalReader.Null();
      var status := handle.Open(flags, None);
      ClosesLog(old(handle.st), Call.Open(flags, None));
      if status >= 0 {
        journal.j := handle;
      }
      var res := FfiResult(status);
      if res.Err? {
        journal.Drop();
        return Err(res.error);
      }
      r := Ok(journal);
    }

    /** `JournalReader::open_namespace`: a namespace with an embedded NUL is
        refused before the store is called. */
    static method OpenNamespace(config: JournalReaderConfig, namespace: Bytes, handle: SdJournal)
      returns (r: IoResult<JournalReader>)
      requires Api.Valid(handle.st) && Closes(handle.st.trace) == 0
      modifies handle
      ensures Api.Valid(handle.st)
      ensures NUL in namespace ==> r == Err(InvalidInput) && handle.st == old(handle.st)
      ensures NUL !in namespace ==>
        exists flags :: NamespaceBits(flags, config) && handle.st == Log(old(handle.st), Call.Open(flags, Some(namespace)))
      ensures NUL !in namespace ==> (r.Ok? <==> old(handle.st).openStatus == 0)
      ensures NUL !in namespace && r.Err? ==> r.error == OsError(-old(handle.st).openStatus)
      ensures r.Ok? ==> fresh(r.value) && r.value.j == handle && !r.value.dropped && r.value.Valid()
    {
      var flags := NamespaceFlags(config);
      var journal := new JournalReader.Null();
      if NUL in namespace {
        journal.Drop();
        return Err(InvalidInput);
      }
      var status := handle.Open(flags, Some(namespace));
      ClosesLog(old(handle.st), Call.Open(flags, Some(namespace)));
      if status >= 0 {
        journal.j := handle;
      }
      var res := FfiResult(status);
      if res.Err? {
        journal.Drop();
        return Err(res.error);
      }
      r := Ok(journal);
    }

    /** `current_entry`: enumerate the records into a map, then store the
        timestamps and the cursor over it. */
    method CurrentEntry() returns (r: IoResult<Option<JournalEntry>>)
      requires Valid() && j != null && !dropped
      modifies j
      ensures Valid()
      ensures r == AsSome(Materialised(old(j.st)))
      ensures j.st == old(j.st).(dataIndex := |CurrentRecords(old(j.st))|)
    {
      var _, fields := CollectData(j);
      GettersIgnoreDataIndex(old(j.st), j.st);
      var rtStatus, realtime := j.GetRealtimeUsec();
      var res := FfiResult(rtStatus);
      if res.Err? {
        return Err(res.error);
      }
      fields := Put(fields, REALTIME_TIMESTAMP, Decimal(realtime));
      var monoStatus, monotonic := j.GetMonotonicUsec();
      res := FfiResult(monoStatus);
      if res.Err? {
        return Err(res.error);
      }
      fields := Put(fields, MONOTONIC_TIMESTAMP, Decimal(monotonic));
      var cursorStatus, cursor := j.GetCursorText();
      res := FfiResult(cursorStatus);
      if res.Err? {
        return Err(res.error);
      }
      fields := Put(fields, CURSOR, Utf8.Lossy(cursor));
      r := Ok(Some(JournalEntry.From(fields)));
    }

    /** `next_entry`. */
    method NextEntry() returns (r: IoResult<Option<JournalEntry>>)
      requires Valid() && j != null && !dropped
      modifies j
      ensures Valid()
      ensures r == ReadNext(old(j.st)).0
      ensures j.st == ReadNext(old(j.st)).1
    {
      var status := j.Next();
      ClosesLog(old(j.st), Next);
      var res := FfiResult(status);
      if res.Err? {
        return Err(res.error);
      }
      if res.value == 0 {
        return Ok(None);
      }
      r := CurrentEntry();
    }

    /** `previous_entry`. */
    method PreviousEntry() returns (r: IoResult<Option<JournalEntry>>)
      requires Valid() && j != null && !dropped
      modifies j
      ensures Valid()
      ensures r == ReadPrevious(old(j.st)).0
      ensures j.st == ReadPrevious(old(j.st)).1
    {
      var status := j.Previous();
      ClosesLog(old(j.st), Previous);
      var res := FfiResult(status);
      if res.Err? {
        return Err(res.error);
      }
      if res.value == 0 {
        return Ok(None);
      }
      r := CurrentEntry();
    }

    /** `seek`. */
    method Seek(seek: JournalSeek) returns (r: IoResult<()>)
      requires Valid() && j != null && !dropped
      modifies j
      ensures Valid()
      ensures r == SeekSpec(old(j.st), seek).0
      ensures j.st == SeekSpec(old(j.st), seek).1
    {
      if seek.Cursor? && NUL in seek.token {
        return Err(InvalidInput);
      }
      var status;
      if seek.Head? {
        status := j.SeekHead();
      } else if seek.Tail? {
        status := j.SeekTail();
      } else {
        status := j.SeekCursor(seek.token);
      }
      ClosesLog(old(j.st), j.st.trace[|j.st.trace| - 1]);
      var res := FfiResult(status);
      if res.Err? {
        return Err(res.error);
      }
      r := Ok(());
    }

    /** `wait_usec`. */
    method WaitUsec(usec: nat) returns (r: IoResult<WakeupType>)
      requires Valid() && j != null && !dropped
      modifies j
      ensures Valid()
      ensures r == WaitSpec(old(j.st), usec).0
      ensures j.st == WaitSpec(old(j.st), usec).1
    {
      var status := j.Wait(usec);
      ClosesLog(old(j.st), Call.Wait(usec));
      var res := FfiResult(status);
      if res.Err? {
        return Err(res.error);
      }
      r := TryFrom(res.value);
    }

    /** `wait`: wait with the largest timeout there is. */
    method Wait() returns (r: IoResult<WakeupType>)
      requires Valid() && j != null && !dropped
      modifies j
      ensures Valid()
      ensures r == WaitSpec(old(j.st), U64_MAX).0
      ensures j.st == WaitSpec(old(j.st), U64_MAX).1
    {
      r := WaitUsec(U64_MAX);
    }

    /** `wait_timeout`. */
    method WaitTimeout(timeout: Duration) returns (r: IoResult<WakeupType>)
      requires Valid() && j != null && !dropped && ValidDuration(timeout)
      modifies j
      ensures Valid()
      ensures r == WaitTimeoutSpec(old(j.st), timeout).0
      ensures j.st == WaitTimeoutSpec(old(j.st), timeout).1
    {
      var usec := DurationToUsec(timeout);
      if usec.Err? {
        return Err(usec.error);
      }
      r := WaitUsec(usec.value);
    }

    /** `add_filter`. */
    method AddFilter(filter: Bytes) returns (r: IoResult<()>)
      requires Valid() && j != null && !dropped
      modifies j
      ensures Valid()
      ensures r == AddFilterSpec(old(j.st), filter).0
      ensures j.st == AddFilterSpec(old(j.st), filter).1
    {
      if NUL in filter {
        return Err(InvalidInput);
      }
      var status := j.AddMatch(filter);
      ClosesLog(old(j.st), AddMatch(filter));
      var res := FfiResult(status);
      if res.Err? {
        return Err(res.error);
      }
      r := Ok(());
    }

    /** `Drop`: close the handle, if there is one. */
    method Drop()
      requires Valid() && !dropped
      modifies this, j
      ensures dropped && j == old(j) && Valid()
      ensures j != null ==> j.st == StepClose(old(j.st)) && Closes(j.st.trace) == 1
    {
      if j != null {
        j.Close();
        assert j.st.trace[..|old(j.st).trace|] == old(j.st).trace;
      }
      dropped := true;
    }
  }
}
