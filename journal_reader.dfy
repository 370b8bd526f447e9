/** The older reader: the same protocol as the current one, except that a
    failing data enumeration fails the read, while failing timestamp and
    cursor getters are ignored and leave their defaults in the entry. */
module LegacyReader {
  import opened Bytes
  import opened Wrappers
  import opened Ffi
  import opened SortedMap
  import Utf8
  import opened Store
  import Api = Store
  import opened Entry
  import Reader

  /** The older configuration: no namespace options. */
  datatype JournalReaderConfig = JournalReaderConfig(
    files: Reader.JournalFiles,
    onlyVolatile: bool,
    onlyLocal: bool)

  /** `JournalReaderConfig::default`. */
  function DefaultConfig(): JournalReaderConfig
  {
    JournalReaderConfig(Reader.All, false, false)
  }

  /** The same configuration, in the current reader's terms. */
  function AsCurrent(c: JournalReaderConfig): Reader.JournalReaderConfig
  {
    Reader.JournalReaderConfig(c.files, c.onlyVolatile, c.onlyLocal, false, false)
  }

  /** The default configuration opens with flag value 0. */
  lemma DefaultOpensWithZero(f: bv32)
    requires Reader.OpenBits(f, AsCurrent(DefaultConfig()))
    ensures f == 0
  {
    Reader.DefaultOpensWithZero(f);
  }

  /** `current_entry` of the older reader, on a store: a negative
      enumeration status fails the read; otherwise the records, then the
      getters' values, whatever their status (0, and an empty cursor, when a
      getter fails). */
  function Materialised(s: Store): (r: IoResult<JournalEntry>)
    requires Valid(s)
  {
    var end := EnumerationEnd(s);
    if end < 0 then Err(OsError(-end)) else
    var f1 := Put(Fill(CurrentRecords(s)), REALTIME_TIMESTAMP, Decimal(GetRealtime(s).1));
    var f2 := Put(f1, MONOTONIC_TIMESTAMP, Decimal(GetMonotonic(s).1));
    Ok(JournalEntry.From(Put(f2, CURSOR, Utf8.Lossy(GetCursor(s).1))))
  }

  /** `Materialised` in the terms the method computes it: the enumeration's
      end status, then the getters read once enumeration is over. */
  lemma MaterialisedSteps(s: Store, t: Store, fields: Fields)
    requires Valid(s) && t == s.(dataIndex := |CurrentRecords(s)|) && fields == Fill(CurrentRecords(s))
    ensures Valid(t)
    ensures EnumerationEnd(s) < 0 ==> Materialised(s) == Err(FfiResult(EnumerationEnd(s)).error)
    ensures EnumerationEnd(s) >= 0 ==> Materialised(s) == Ok(JournalEntry.From(
      Put(Put(Put(fields, REALTIME_TIMESTAMP, Decimal(GetRealtime(t).1)),
        MONOTONIC_TIMESTAMP, Decimal(GetMonotonic(t).1)), CURSOR, Utf8.Lossy(GetCursor(t).1))))
  {
    GettersIgnoreDataIndex(s, t);
  }

  /** A failing enumeration fails the older read, while the current reader
      ignores it and goes on to the getters. */
  lemma EnumerationFailureDiffers(s: Store)
    requires Valid(s) && s.fault == 0 && Current(s).Some? && Current(s).value.enumEnd < 0
    ensures Materialised(s) == Err(OsError(-Current(s).value.enumEnd))
    ensures Reader.Materialised(s) == Reader.EntryAt(Current(s).value)
  {
    Reader.MaterialisedIsEntryAt(s);
  }

  /** Failing getters do not fail the older read: the entry still comes back,
      with 0 for a failed timestamp and an empty cursor for a failed cursor
      getter, where the current reader fails. */
  lemma GetterFailuresIgnored(s: Store)
    requires Valid(s) && s.fault == 0 && Current(s).Some? && Current(s).value.enumEnd == 0
    requires Current(s).value.realtime.Failure? || Current(s).value.monotonic.Failure? || Current(s).value.cursor.Failure?
    ensures Materialised(s).Ok?
    ensures Current(s).value.realtime.Failure? ==>
      Materialised(s).value.GetFieldBinary(REALTIME_TIMESTAMP) == Some(Decimal(0))
    ensures Current(s).value.monotonic.Failure? ==>
      Materialised(s).value.GetFieldBinary(MONOTONIC_TIMESTAMP) == Some(Decimal(0))
    ensures Current(s).value.cursor.Failure? ==>
      Materialised(s).value.GetFieldBinary(CURSOR) == Some([])
    ensures Reader.Materialised(s).Err?
  {
    Reader.SyntheticNamesDistinct();
    var f0 := Fill(CurrentRecords(s));
    var vr, vm, vc := Decimal(GetRealtime(s).1), Decimal(GetMonotonic(s).1), Utf8.Lossy(GetCursor(s).1);
    Reader.GetPut3(f0, REALTIME_TIMESTAMP, vr, MONOTONIC_TIMESTAMP, vm, CURSOR, vc, REALTIME_TIMESTAMP);
    Reader.GetPut3(f0, REALTIME_TIMESTAMP, vr, MONOTONIC_TIMESTAMP, vm, CURSOR, vc, MONOTONIC_TIMESTAMP);
    Reader.GetPut3(f0, REALTIME_TIMESTAMP, vr, MONOTONIC_TIMESTAMP, vm, CURSOR, vc, CURSOR);
    Reader.MaterialisedIsEntryAt(s);
    Reader.EntryAtFails(Current(s).value);
  }

  /** On a healthy entry the two readers decode the same entry. */
  lemma AgreesWithCurrent(s: Store)
    requires Valid(s) && s.fault == 0 && Current(s).Some?
    requires Current(s).value.enumEnd == 0 && Reader.EntryAt(Current(s).value).Ok?
    ensures Materialised(s) == Reader.Materialised(s)
  {
    Reader.MaterialisedIsEntryAt(s);
  }

  /** `next_entry`/`previous_entry` after the move. */
  function AfterMove(m: (int, Store)): (r: (IoResult<Option<JournalEntry>>, Store))
    requires Valid(m.1) && IsStatus(m.0)
    ensures Valid(r.1) && r.1.trace == m.1.trace
  {
    match FfiResult(m.0)
    case Err(e) => (Err(e), m.1)
    case Ok(n) =>
      if n == 0 then (Ok(None), m.1)
      else (Reader.AsSome(Materialised(m.1)), m.1.(dataIndex := |CurrentRecords(m.1)|))
  }

  function ReadNext(s: Store): (r: (IoResult<Option<JournalEntry>>, Store))
    requires Valid(s)
    ensures Valid(r.1) && r.1.trace == s.trace + [Next]
  {
    AfterMove(StepNext(s))
  }

  function ReadPrevious(s: Store): (r: (IoResult<Option<JournalEntry>>, Store))
    requires Valid(s)
    ensures Valid(r.1) && r.1.trace == s.trace + [Previous]
  {
    AfterMove(StepPrevious(s))
  }

  /** A move status of 0 is `Ok(None)` with nothing read; a positive one reads the entry. */
  lemma ReadNextOutcome(s: Store)
    requires Valid(s)
    ensures StepNext(s).0 == 0 ==> ReadNext(s) == (Ok(None), StepNext(s).1)
    ensures StepNext(s).0 > 0 ==> ReadNext(s).0 == Reader.AsSome(Materialised(StepNext(s).1))
    ensures StepNext(s).0 < 0 ==> ReadNext(s).0 == Err(OsError(-StepNext(s).0))
  {
  }

  /** Reading backward, classified the same way by the move's status. */
  lemma ReadPreviousOutcome(s: Store)
    requires Valid(s)
    ensures StepPrevious(s).0 == 0 ==> ReadPrevious(s) == (Ok(None), StepPrevious(s).1)
    ensures StepPrevious(s).0 > 0 ==> ReadPrevious(s).0 == Reader.AsSome(Materialised(StepPrevious(s).1))
    ensures StepPrevious(s).0 < 0 ==> ReadPrevious(s).0 == Err(OsError(-StepPrevious(s).0))
  {
  }

  /** The older reader over a journal handle. */
  class JournalReader {
    var j: SdJournal?
    ghost var dropped: bool

    ghost predicate Valid()
      reads this, j
    {
      j != null ==> Api.Valid(j.st) && Closes(j.st.trace) == (if dropped then 1 else 0)
    }

    constructor Null()
      ensures j == null && !dropped && Valid()
    {
      j := null;
      dropped := false;
    }

    /** `JournalReader::open`. */
    static method Open(config: JournalReaderConfig, handle: SdJournal) returns (r: IoResult<JournalReader>)
      requires Api.Valid(handle.st) && Closes(handle.st.trace) == 0
      modifies handle
      ensures Api.Valid(handle.st)
      ensures exists flags :: Reader.OpenBits(flags, AsCurrent(config)) && handle.st == Log(old(handle.st), Call.Open(flags, None))
      ensures r.Ok? <==> old(handle.st).openStatus == 0
      ensures r.Err? ==> r.error == OsError(-old(handle.st).openStatus)
      ensures r.Ok? ==> fresh(r.value) && r.value.j == handle && !r.value.dropped && r.value.Valid()
    {
      var flags := Reader.OpenFlags(AsCurrent(config));
      var journal := new JournalReader.Null();
      var status := handle.Open(flags, None);
      ClosesLog(old(handle.st), Call.Open(flags, None));
      assert Reader.OpenBits(flags, AsCurrent(config)) && handle.st == Log(old(handle.st), Call.Open(flags, None));
      if status >= 0 {
        journal.j := handle;
      }
      var res := FfiResult(status);
      if res.Err? {
        journal.Drop();
        return Err(res.error);
      }
      r := Ok(journal);
    }

    /** `current_entry`: enumerate, leaving early on a negative status, then
        read the getters without looking at their status. */
    method CurrentEntry() returns (r: IoResult<Option<JournalEntry>>)
      requires Valid() && j != null && !dropped
      modifies j
      ensures Valid()
      ensures r == Reader.AsSome(Materialised(old(j.st)))
      ensures j.st == old(j.st).(dataIndex := |CurrentRecords(old(j.st))|)
    {
      var status, fields := Reader.CollectData(j);
      MaterialisedSteps(old(j.st), j.st, fields);
      var res := FfiResult(status);
      if res.Err? {
        return Err(res.error);
      }
      var _, realtime := j.GetRealtimeUsec();
      fields := Put(fields, REALTIME_TIMESTAMP, Decimal(realtime));
      var _, monotonic := j.GetMonotonicUsec();
      fields := Put(fields, MONOTONIC_TIMESTAMP, Decimal(monotonic));
      var _, cursor := j.GetCursorText();
      fields := Put(fields, CURSOR, Utf8.Lossy(cursor));
      r := Ok(Some(JournalEntry.From(fields)));
    }

    /** `next_entry`. */
    method NextEntry() returns (r: IoResult<Option<JournalEntry>>)
      requires Valid() && j != null && !dropped
      modifies j
      ensures Valid()
      ensures r == ReadNext(old(j.st)).0
      ensures j.st == ReadNext(old(j.st)).1
    {
      var status := j.Next();
      ClosesLog(old(j.st), Next);
      var res := FfiResult(status);
      if res.Err? {
        return Err(res.error);
      }
      if res.value == 0 {
        return Ok(None);
      }
      r := CurrentEntry();
    }

    /** `previous_entry`. */
    method PreviousEntry() returns (r: IoResult<Option<JournalEntry>>)
      requires Valid() && j != null && !dropped
      modifies j
      ensures Valid()
      ensures r == ReadPrevious(old(j.st)).0
      ensures j.st == ReadPrevious(old(j.st)).1
    {
      var status := j.Previous();
      ClosesLog(old(j.st), Previous);
      var res := FfiResult(status);
      if res.Err? {
        return Err(res.error);
      }
      if res.value == 0 {
        return Ok(None);
      }
      r := CurrentEntry();
    }

    /** `seek`: as in the current reader, a cursor with an embedded NUL is
        refused before the store is called. */
    method Seek(seek: Reader.JournalSeek) returns (r: IoResult<()>)
      requires Valid() && j != null && !dropped
      modifies j
      ensures Valid()
      ensures r == Reader.SeekSpec(old(j.st), seek).0
      ensures j.st == Reader.SeekSpec(old(j.st), seek).1
    {
      if seek.Cursor? && NUL in seek.token {
        return Err(InvalidInput);
      }
      var status;
      if seek.Head? {
        status := j.SeekHead();
      } else if seek.Tail? {
        status := j.SeekTail();
      } else {
        status := j.SeekCursor(seek.token);
      }
      ClosesLog(old(j.st), j.st.trace[|j.st.trace| - 1]);
      var res := FfiResult(status);
      if res.Err? {
        return Err(res.error);
      }
      r := Ok(());
    }

    /** `Drop`: close the handle, if there is one. */
    method Drop()
      requires Valid() && !dropped
      modifies this, j
      ensures dropped && j == old(j) && Valid()
      ensures j != null ==> j.st == StepClose(old(j.st)) && Closes(j.st.trace) == 1
    {
      if j != null {
        j.Close();
        assert j.st.trace[..|old(j.st).trace|] == old(j.st).trace;
      }
      dropped := true;
    }
  }
}
