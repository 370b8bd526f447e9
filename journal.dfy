/** The oldest interface: sending preformatted fields, printing a message,
    logging a `log::Record`, and the `Journal` reader, whose records are
    plain maps of the entry's own fields, without timestamps or cursor. */
module LegacyJournal {
  import opened Bytes
  import opened Wrappers
  import opened Ffi
  import opened SortedMap
  import Utf8
  import opened Store
  import Api = Store
  import opened Entry
  import Reader
  import LegacyReader
  import opened Writer

  // ---------------------------------------------------------------------
  // Sending

  const PRIORITY: Bytes := Ascii("PRIORITY")
  const TARGET: Bytes := Ascii("TARGET")
  const CODE_LINE: Bytes := Ascii("CODE_LINE")
  const CODE_FILE: Bytes := Ascii("CODE_FILE")
  const CODE_FUNCTION: Bytes := Ascii("CODE_FUNCTION")

  /** The names `print` and `log_record` send are ASCII and hold no '='. */
  lemma MessageNamesShape()
    ensures IsAscii(PRIORITY) && EQ !in PRIORITY
    ensures IsAscii(MESSAGE) && EQ !in MESSAGE
    ensures IsAscii(TARGET) && EQ !in TARGET
  {
    AsciiName("PRIORITY");
    AsciiName("MESSAGE");
    AsciiName("TARGET");
  }

  lemma CodeNamesShape()
    ensures IsAscii(CODE_LINE) && EQ !in CODE_LINE
    ensures IsAscii(CODE_FILE) && EQ !in CODE_FILE
    ensures IsAscii(CODE_FUNCTION) && EQ !in CODE_FUNCTION
  {
    AsciiName("CODE_LINE");
    AsciiName("CODE_FILE");
    AsciiName("CODE_FUNCTION");
  }

  /** The six names are pairwise different. */
  lemma NamesDistinct()
    ensures PRIORITY != MESSAGE && PRIORITY != TARGET && MESSAGE != TARGET
    ensures CODE_LINE != CODE_FILE && CODE_LINE != CODE_FUNCTION && CODE_FILE != CODE_FUNCTION
    ensures |PRIORITY| == 8 && |MESSAGE| == 7 && |TARGET| == 6
    ensures |CODE_LINE| == 9 && |CODE_FILE| == 9 && |CODE_FUNCTION| == 13
  {
    assert CODE_LINE[5] != CODE_FILE[5];
  }

  /** `send`: the strings go to the daemon in one call, and its status comes
      back as it is, not mapped to an error. */
  method Send(args: seq<Bytes>, sink: Sender) returns (status: int)
    modifies sink
    ensures status == sink.status == old(sink.status)
    ensures sink.calls == old(sink.calls) + [args]
    ensures sink.accepted == if status >= 0 then old(sink.accepted) + [args] else old(sink.accepted)
  {
    status := sink.SendV(args);
  }

  /** The fields `print` sends. */
  function PrintFields(lvl: nat, s: Bytes): Pairs
  {
    [(PRIORITY, Decimal(lvl)), (MESSAGE, s)]
  }

  /** `print`: the priority as decimal text and the message, in one send. */
  method Print(lvl: nat, s: Bytes, sink: Sender) returns (status: int)
    modifies sink
    ensures status == sink.status == old(sink.status)
    ensures sink.calls == old(sink.calls) + [WireFormat(PrintFields(lvl, s))]
    ensures sink.accepted == if status >= 0 then old(sink.accepted) + [WireFormat(PrintFields(lvl, s))] else old(sink.accepted)
  {
    var args := [Line(PRIORITY, Decimal(lvl)), Line(MESSAGE, s)];
    WireFormatIs(PrintFields(lvl, s), args);
    status := Send(args, sink);
  }

  /** What `print` sends reads back as the priority and the message, even
      when the message holds '='; no other name is set. */
  lemma PrintReadsBack(lvl: nat, s: Bytes, k: Bytes)
    requires Utf8.ValidUtf8(s)
    ensures AllRecords(WireFormat(PrintFields(lvl, s)))
    ensures Get(Fill(WireFormat(PrintFields(lvl, s))), k) ==
      if k == PRIORITY then Some(Decimal(lvl)) else if k == MESSAGE then Some(s) else None
  {
    var m := PrintFields(lvl, s);
    MessageNamesShape();
    NamesDistinct();
    DecimalShape(lvl);
    Utf8.AsciiValid(Decimal(lvl));
    LineValid(PRIORITY, Decimal(lvl));
    LineValid(MESSAGE, s);
    WireReadsBack(m, k);
  }

  // ---------------------------------------------------------------------
  // Logging

  /** `log::Level`, most severe first. */
  datatype Level = Error | Warn | Info | Debug | Trace

  /** A level's place in `log`'s order: Error is 1, Trace is 5. */
  function Rank(l: Level): nat
  {
    match l
    case Error => 1
    case Warn => 2
    case Info => 3
    case Debug => 4
    case Trace => 5
  }

  /** The syslog priority `log_record` sends: err (3), warning (4), info (6)
      and debug (7), which Trace shares; emerg to crit and notice are never sent. */
  function SyslogPriority(l: Level): (p: nat)
    ensures p in {3, 4, 6, 7}
  {
    match l
    case Error => 3
    case Warn => 4
    case Info => 6
    case Debug => 7
    case Trace => 7
  }

  /** A less severe level never gets a more urgent priority, and only Debug
      and Trace share one. */
  lemma PriorityOrder(a: Level, b: Level)
    ensures Rank(a) <= Rank(b) ==> SyslogPriority(a) <= SyslogPriority(b)
    ensures SyslogPriority(a) == SyslogPriority(b) <==> a == b || (Rank(a) >= 4 && Rank(b) >= 4)
  {
  }

  /** The parts of a `log::Record` that `log_record` reads, the message
      already formatted to text. */
  datatype Record = Record(
    level: Level,
    args: Bytes,
    target: Bytes,
    line: Option<nat>,
    file: Option<Bytes>,
    modulePath: Option<Bytes>)

  /** A field pushed only when its value is there. */
  function Optional(k: Bytes, v: Option<Bytes>): (m: Pairs)
  {
    if v.Some? then [(k, v.value)] else []
  }

  function LineText(line: Option<nat>): Option<Bytes>
  {
    if line.Some? then Some(Decimal(line.value)) else None
  }

  /** The fields `log_record` sends, in the order it pushes them. */
  function RecordFields(r: Record): Pairs
  {
    [(PRIORITY, Decimal(SyslogPriority(r.level))), (MESSAGE, r.args), (TARGET, r.target)]
      + Optional(CODE_LINE, LineText(r.line))
      + Optional(CODE_FILE, r.file)
      + Optional(CODE_FUNCTION, r.modulePath)
  }

  /** The names of a list of fields, in order. */
  function Names(m: Pairs): seq<Bytes>
  {
    seq(|m|, i requires 0 <= i < |m| => m[i].0)
  }

  /** `log_record` sends three to six fields: PRIORITY, MESSAGE and TARGET
      first, then CODE_LINE, CODE_FILE and CODE_FUNCTION, in that order,
      each only when the record has it. */
  lemma RecordFieldsShape(r: Record)
    ensures 3 <= |RecordFields(r)| <= 6
    ensures Names(RecordFields(r)) == [PRIORITY, MESSAGE, TARGET]
      + (if r.line.Some? then [CODE_LINE] else [])
      + (if r.file.Some? then [CODE_FILE] else [])
      + (if r.modulePath.Some? then [CODE_FUNCTION] else [])
  {
  }

  /** Pushing an optional field pushes its string when the value is there. */
  lemma WirePushed(m: Pairs, w: seq<Bytes>, k: Bytes, v: Option<Bytes>, pushed: seq<Bytes>)
    requires w == WireFormat(m)
    requires pushed == if v.Some? then w + [Line(k, v.value)] else w
    ensures pushed == WireFormat(m + Optional(k, v))
  {
    if v.Some? {
      WireSnoc(m, k, v.value);
    } else {
      assert m + Optional(k, v) == m;
    }
  }

  /** `log_record`: three fields always, then the line, file and module path
      each when the record has one, in one send whose status is dropped. */
  method LogRecord(record: Record, sink: Sender)
    modifies sink
    ensures sink.status == old(sink.status)
    ensures sink.calls == old(sink.calls) + [WireFormat(RecordFields(record))]
    ensures sink.accepted == if sink.status >= 0 then old(sink.accepted) + [WireFormat(RecordFields(record))] else old(sink.accepted)
  {
    var lvl := SyslogPriority(record.level);
    var keys := [Line(PRIORITY, Decimal(lvl)), Line(MESSAGE, record.args), Line(TARGET, record.target)];
    ghost var m: Pairs := [(PRIORITY, Decimal(lvl)), (MESSAGE, record.args), (TARGET, record.target)];
    WireFormatIs(m, keys);
    ghost var before := keys;
    if record.line.Some? {
      keys := keys + [Line(CODE_LINE, Decimal(record.line.value))];
    }
    WirePushed(m, before, CODE_LINE, LineText(record.line), keys);
    m, before := m + Optional(CODE_LINE, LineText(record.line)), keys;
    if record.file.Some? {
      keys := keys + [Line(CODE_FILE, record.file.value)];
    }
    WirePushed(m, before, CODE_FILE, record.file, keys);
    m, before := m + Optional(CODE_FILE, record.file), keys;
    if record.modulePath.Some? {
      keys := keys + [Line(CODE_FUNCTION, record.modulePath.value)];
    }
    WirePushed(m, before, CODE_FUNCTION, record.modulePath, keys);
    var _ := Send(keys, sink);
  }

  /** The names a record's fields go out under, each at most once. */
  lemma RecordNamesDistinct(r: Record)
    ensures DistinctNames(RecordFields(r))
    ensures forall i :: 0 <= i < |RecordFields(r)| ==> IsAscii(RecordFields(r)[i].0) && EQ !in RecordFields(r)[i].0
  {
    MessageNamesShape();
    CodeNamesShape();
    NamesDistinct();
  }

  /** Looking a name up in the fields `log_record` sends. */
  lemma RecordLookup(r: Record, k: Bytes)
    ensures k == PRIORITY ==> Get(RecordFields(r), k) == Some(Decimal(SyslogPriority(r.level)))
    ensures k == MESSAGE ==> Get(RecordFields(r), k) == Some(r.args)
    ensures k == TARGET ==> Get(RecordFields(r), k) == Some(r.target)
    ensures k == CODE_LINE ==> Get(RecordFields(r), k) == LineText(r.line)
    ensures k == CODE_FILE ==> Get(RecordFields(r), k) == r.file
    ensures k == CODE_FUNCTION ==> Get(RecordFields(r), k) == r.modulePath
  {
    var a: Pairs := [(PRIORITY, Decimal(SyslogPriority(r.level))), (MESSAGE, r.args), (TARGET, r.target)];
    var o1 := Optional(CODE_LINE, LineText(r.line));
    var o2 := Optional(CODE_FILE, r.file);
    var o3 := Optional(CODE_FUNCTION, r.modulePath);
    NamesDistinct();
    GetAppend(a + o1 + o2, o3, k);
    GetAppend(a + o1, o2, k);
    GetAppend(a, o1, k);
    if k == PRIORITY {
      GetDistinct(a, 0);
    } else if k == MESSAGE {
      GetDistinct(a, 1);
    } else if k == TARGET {
      GetDistinct(a, 2);
    } else if k in {CODE_LINE, CODE_FILE, CODE_FUNCTION} {
      assert !HasKey(a, k);
    }
  }

  /** What `log_record` sends reads back field by field: the priority, the
      message and the target always, and the line, file and module path
      exactly when the record has them. */
  lemma RecordReadsBack(r: Record, k: Bytes)
    requires Utf8.ValidUtf8(r.args) && Utf8.ValidUtf8(r.target)
    requires r.file.Some? ==> Utf8.ValidUtf8(r.file.value)
    requires r.modulePath.Some? ==> Utf8.ValidUtf8(r.modulePath.value)
    ensures AllRecords(WireFormat(RecordFields(r)))
    ensures k == PRIORITY ==> Get(Fill(WireFormat(RecordFields(r))), k) == Some(Decimal(SyslogPriority(r.level)))
    ensures k == MESSAGE ==> Get(Fill(WireFormat(RecordFields(r))), k) == Some(r.args)
    ensures k == TARGET ==> Get(Fill(WireFormat(RecordFields(r))), k) == Some(r.target)
    ensures k == CODE_LINE ==> Get(Fill(WireFormat(RecordFields(r))), k) == LineText(r.line)
    ensures k == CODE_FILE ==> Get(Fill(WireFormat(RecordFields(r))), k) == r.file
    ensures k == CODE_FUNCTION ==> Get(Fill(WireFormat(RecordFields(r))), k) == r.modulePath
  {
    RecordTextValid(r);
    WireReadsBack(RecordFields(r), k);
    RecordLookup(r, k);
  }

  /** Every string `log_record` sends is valid UTF-8 when the record's texts are. */
  lemma RecordTextValid(r: Record)
    requires Utf8.ValidUtf8(r.args) && Utf8.ValidUtf8(r.target)
    requires r.file.Some? ==> Utf8.ValidUtf8(r.file.value)
    requires r.modulePath.Some? ==> Utf8.ValidUtf8(r.modulePath.value)
    ensures DistinctNames(RecordFields(r))
    ensures forall i :: 0 <= i < |RecordFields(r)| ==> EQ !in RecordFields(r)[i].0 && Utf8.ValidUtf8(Line(RecordFields(r)[i].0, RecordFields(r)[i].1))
  {
    var m := RecordFields(r);
    RecordNamesDistinct(r);
    DecimalShape(SyslogPriority(r.level));
    Utf8.AsciiValid(Decimal(SyslogPriority(r.level)));
    if r.line.Some? {
      DecimalShape(r.line.value);
      Utf8.AsciiValid(Decimal(r.line.value));
    }
    forall i | 0 <= i < |m| ensures Utf8.ValidUtf8(Line(m[i].0, m[i].1)) {
      LineValid(m[i].0, m[i].1);
    }
  }

  // ---------------------------------------------------------------------
  // The reader

  /** `JournalRecord`: the entry's fields as a map. */
  type JournalRecord = Fields

  /** `get_record`, on a store: a failing enumeration fails the read,
      otherwise the entry's records folded into a map. */
  function RecordOf(s: Store): (r: IoResult<JournalRecord>)
    requires Valid(s)
  {
    var end := EnumerationEnd(s);
    if end < 0 then Err(OsError(-end)) else Ok(Fill(CurrentRecords(s)))
  }

  /** On an entry, the record is the entry's fields, or the error its
      enumeration ends with; off an entry the read fails with EADDRNOTAVAIL. */
  lemma RecordOfEntry(s: Store)
    requires Valid(s) && s.fault == 0
    ensures Current(s).Some? && Current(s).value.enumEnd == 0 ==> RecordOf(s) == Ok(Fill(Current(s).value.data))
    ensures Current(s).Some? && Current(s).value.enumEnd < 0 ==> RecordOf(s) == Err(OsError(-Current(s).value.enumEnd))
    ensures Current(s).None? ==> RecordOf(s) == Err(OsError(EADDRNOTAVAIL))
  {
  }

  /** The older reader's entry is this record with the two timestamps and the
      cursor stored over it: both fail together, and every other name reads the same. */
  lemma RecordUnderLegacyEntry(s: Store, k: Bytes)
    requires Valid(s)
    requires k != REALTIME_TIMESTAMP && k != MONOTONIC_TIMESTAMP && k != CURSOR
    ensures RecordOf(s).Ok? <==> LegacyReader.Materialised(s).Ok?
    ensures RecordOf(s).Err? ==> RecordOf(s).error == LegacyReader.Materialised(s).error
    ensures RecordOf(s).Ok? ==> Get(RecordOf(s).value, k) == LegacyReader.Materialised(s).value.GetFieldBinary(k)
  {
    if RecordOf(s).Ok? {
      Reader.SyntheticNamesDistinct();
      Reader.GetPut3(Fill(CurrentRecords(s)), REALTIME_TIMESTAMP, Decimal(GetRealtime(s).1),
        MONOTONIC_TIMESTAMP, Decimal(GetMonotonic(s).1), CURSOR, Utf8.Lossy(GetCursor(s).1), k);
    }
  }

  function AsSome(r: IoResult<JournalRecord>): IoResult<Option<JournalRecord>>
  {
    match r
    case Ok(m) => Ok(Some(m))
    case Err(x) => Err(x)
  }

  /** `next_record`/`previous_record` after the move. */
  function AfterMove(m: (int, Store)): (r: (IoResult<Option<JournalRecord>>, Store))
    requires Valid(m.1) && IsStatus(m.0)
    ensures Valid(r.1) && r.1.trace == m.1.trace
  {
    match FfiResult(m.0)
    case Err(e) => (Err(e), m.1)
    case Ok(n) =>
      if n == 0 then (Ok(None), m.1)
      else (AsSome(RecordOf(m.1)), m.1.(dataIndex := |CurrentRecords(m.1)|))
  }

  function ReadNext(s: Store): (r: (IoResult<Option<JournalRecord>>, Store))
    requires Valid(s)
    ensures Valid(r.1) && r.1.trace == s.trace + [Next]
  {
    AfterMove(StepNext(s))
  }

  function ReadPrevious(s: Store): (r: (IoResult<Option<JournalRecord>>, Store))
    requires Valid(s)
    ensures Valid(r.1) && r.1.trace == s.trace + [Previous]
  {
    AfterMove(StepPrevious(s))
  }

  /** Reading forward: `Ok(None)` with nothing read at the end, the record
      moved onto otherwise, and the move's error when it fails. */
  lemma ReadNextOutcome(s: Store)
    requires Valid(s)
    ensures StepNext(s).0 == 0 ==> ReadNext(s) == (Ok(None), StepNext(s).1)
    ensures StepNext(s).0 > 0 ==> ReadNext(s).0 == AsSome(RecordOf(StepNext(s).1))
    ensures StepNext(s).0 < 0 ==> ReadNext(s).0 == Err(OsError(-StepNext(s).0))
  {
  }

  /** Reading backward, classified the same way by the move's status. */
  lemma ReadPreviousOutcome(s: Store)
    requires Valid(s)
    ensures StepPrevious(s).0 == 0 ==> ReadPrevious(s) == (Ok(None), StepPrevious(s).1)
    ensures StepPrevious(s).0 > 0 ==> ReadPrevious(s).0 == AsSome(RecordOf(StepPrevious(s).1))
    ensures StepPrevious(s).0 < 0 ==> ReadPrevious(s).0 == Err(OsError(-StepPrevious(s).0))
  {
  }

  /** `Journal::open`'s arguments, as the current reader's configuration. */
  function OpenConfig(files: Reader.JournalFiles, runtimeOnly: bool, localOnly: bool): Reader.JournalReaderConfig
  {
    Reader.JournalReaderConfig(files, runtimeOnly, localOnly, false, false)
  }

  /** `JournalSeek` of this interface: no cursor. */
  datatype JournalSeek = Head | Tail

  function AsReaderSeek(seek: JournalSeek): (r: Reader.JournalSeek)
    ensures !r.Cursor?
  {
    match seek
    case Head => Reader.Head
    case Tail => Reader.Tail
  }

  /** The reader over a journal handle. */
  class Journal {
    var j: SdJournal?
    ghost var dropped: bool

    ghost predicate Valid()
      reads this, j
    {
      j != null ==> Api.Valid(j.st) && Closes(j.st.trace) == (if dropped then 1 else 0)
    }

    constructor Null()
      ensures j == null && !dropped && Valid()
    {
      j := null;
      dropped := false;
    }

    /** `Journal::open`: the flags as the current reader computes them, from
        the file set and the two restrictions. */
    static method Open(files: Reader.JournalFiles, runtimeOnly: bool, localOnly: bool, handle: SdJournal)
      returns (r: IoResult<Journal>)
      requires Api.Valid(handle.st) && Closes(handle.st.trace) == 0
      modifies handle
      ensures Api.Valid(handle.st)
      ensures exists flags :: Reader.OpenBits(flags, OpenConfig(files, runtimeOnly, localOnly)) && handle.st == Log(old(handle.st), Call.Open(flags, None))
      ensures r.Ok? <==> old(handle.st).openStatus == 0
      ensures r.Err? ==> r.error == OsError(-old(handle.st).openStatus)
      ensures r.Ok? ==> fresh(r.value) && r.value.j == handle && !r.value.dropped && r.value.Valid()
    {
      var config := OpenConfig(files, runtimeOnly, localOnly);
      var flags := Reader.OpenFlags(config);
      var journal := new Journal.Null();
      var status := handle.Open(flags, None);
      ClosesLog(old(handle.st), Call.Open(flags, None));
      assert Reader.OpenBits(flags, config) && handle.st == Log(old(handle.st), Call.Open(flags, None));
      if status >= 0 {
        journal.j := handle;
      }
      var res := FfiResult(status);
      if res.Err? {
        journal.Drop();
        return Err(res.error);
      }
      r := Ok(journal);
    }

    /** `get_record`: enumerate the records into a map, leaving on a
        negative status. */
    method GetRecord() returns (r: IoResult<Option<JournalRecord>>)
      requires Valid() && j != null && !dropped
      modifies j
      ensures Valid()
      ensures r == AsSome(RecordOf(old(j.st)))
      ensures j.st == old(j.st).(dataIndex := |CurrentRecords(old(j.st))|)
    {
      var status, fields := Reader.CollectData(j);
      var res := FfiResult(status);
      if res.Err? {
        return Err(res.error);
      }
      r := Ok(Some(fields));
    }

    /** `next_record`. */
    method NextRecord() returns (r: IoResult<Option<JournalRecord>>)
      requires Valid() && j != null && !dropped
      modifies j
      ensures Valid()
      ensures r == ReadNext(old(j.st)).0
      ensures j.st == ReadNext(old(j.st)).1
    {
      var status := j.Next();
      ClosesLog(old(j.st), Next);
      var res := FfiResult(status);
      if res.Err? {
        return Err(res.error);
      }
      if res.value == 0 {
        return Ok(None);
      }
      r := GetRecord();
    }

    /** `previous_record`. */
    method PreviousRecord() returns (r: IoResult<Option<JournalRecord>>)
      requires Valid() && j != null && !dropped
      modifies j
      ensures Valid()
      ensures r == ReadPrevious(old(j.st)).0
      ensures j.st == ReadPrevious(old(j.st)).1
    {
      var status := j.Previous();
      ClosesLog(old(j.st), Previous);
      var res := FfiResult(status);
      if res.Err? {
        return Err(res.error);
      }
      if res.value == 0 {
        return Ok(None);
      }
      r := GetRecord();
    }

    /** `seek`: to the head or the tail. */
    method Seek(seek: JournalSeek) returns (r: IoResult<()>)
      requires Valid() && j != null && !dropped
      modifies j
      ensures Valid()
      ensures r == Reader.SeekSpec(old(j.st), AsReaderSeek(seek)).0
      ensures j.st == Reader.SeekSpec(old(j.st), AsReaderSeek(seek)).1
    {
      var status;
      if seek.Head? {
        status := j.SeekHead();
        ClosesLog(old(j.st), SeekHead);
      } else {
        status := j.SeekTail();
        ClosesLog(old(j.st), SeekTail);
      }
      var res := FfiResult(status);
      if res.Err? {
        return Err(res.error);
      }
      r := Ok(());
    }

    /** `Drop`: close the handle, if there is one. */
    method Drop()
      requires Valid() && !dropped
      modifies this, j
      ensures dropped && j == old(j) && Valid()
      ensures j != null ==> j.st == StepClose(old(j.st)) && Closes(j.st.trace) == 1
    {
      if j != null {
        j.Close();
        assert j.st.trace[..|old(j.st).trace|] == old(j.st).trace;
      }
      dropped := true;
    }
  }
}
