/** A journal entry (src/journal_entry.rs): a sorted map from field name to
    the field's bytes, with accessors for the well-known fields. */
module Entry {
  import opened Bytes
  import opened Wrappers
  import opened SortedMap
  import opened Utf8

  const I64_MIN: int := -0x8000_0000_0000_0000
  const I64_MAX: int := 0x7FFF_FFFF_FFFF_FFFF

  const MESSAGE: Bytes := Ascii("MESSAGE")
  const SOURCE_REALTIME_TIMESTAMP: Bytes := Ascii("_SOURCE_REALTIME_TIMESTAMP")
  const REALTIME_TIMESTAMP: Bytes := Ascii("__REALTIME_TIMESTAMP")
  const MONOTONIC_TIMESTAMP: Bytes := Ascii("__MONOTONIC_TIMESTAMP")
  const CURSOR: Bytes := Ascii("__CURSOR")

  /** `JournalEntryTimestamp`: microseconds as an `i64`. */
  datatype Timestamp = Timestamp(us: int)

  /** `str::Utf8Error`, which reports how long the well-formed prefix is. */
  datatype Utf8Error = Utf8Error(validUpTo: nat)

  /** Rust's `str::parse::<i64>`: an optional '+' or '-', then one or more
      decimal digits, whose value must fit an `i64`. */
  function ParseI64(s: Bytes): (r: Option<int>)
    ensures r.Some? ==> I64_MIN <= r.value <= I64_MAX
  {
    var signed := |s| > 0 && (s[0] == 43 || s[0] == 45);
    var digits := if signed then s[1..] else s;
    if |digits| == 0 || !AllDigits(digits) then None
    else
      var v: int := if |s| > 0 && s[0] == 45 then 0 - (DigitsValue(digits) as int) else DigitsValue(digits);
      if I64_MIN <= v <= I64_MAX then Some(v) else None
  }

  /** The decimal rendering of any value up to `i64::MAX` parses back to it. */
  lemma ParseDecimal(n: nat)
    requires n <= I64_MAX
    ensures ParseI64(Decimal(n)) == Some(n)
  {
    DecimalShape(n);
    DecimalRoundTrip(n);
  }

  /** Text holding a non-ASCII byte is never a number. */
  lemma ParseNonAscii(t: Bytes)
    requires !IsAscii(t)
    ensures ParseI64(t) == None
  {
    var j :| 0 <= j < |t| && t[j] >= 128;
    if |t| > 0 && (t[0] == 43 || t[0] == 45) {
      assert t[1..][j - 1] == t[j];
    }
  }

  /** Parsing the lossily decoded text of a field gives what parsing its raw bytes gives. */
  lemma ParseLossy(s: Bytes)
    ensures ParseI64(Lossy(s)) == ParseI64(s)
  {
    if IsAscii(s) {
      AsciiValid(s);
      LossyOfValid(s);
    } else {
      var j :| 0 <= j < |s| && s[j] >= 128;
      LossyKeepsNonAscii(s, j);
      ParseNonAscii(s);
      ParseNonAscii(Lossy(s));
    }
  }

  datatype JournalEntry = JournalEntry(fields: Fields) {

    /** `JournalEntry::new`: no fields at all. */
    static function New(): (e: JournalEntry)
      ensures forall k :: e.GetFieldBinary(k).None?
    {
      JournalEntry([])
    }

    /** `JournalEntry::from`: the entry holds a copy of the given map, unchanged. */
    static function From(fields: Fields): (e: JournalEntry)
      ensures forall k :: e.GetFieldBinary(k) == Get(fields, k)
      ensures e.fields == fields
    {
      JournalEntry(fields)
    }

    function GetFields(): Fields
    {
      fields
    }

    /** The stored bytes of a present field (each name is stored once), None for an absent one. */
    function GetFieldBinary(field: Bytes): (r: Option<Bytes>)
      ensures r.Some? <==> HasKey(fields, field)
      ensures r.Some? ==> (field, r.value) in fields
    {
      Get(fields, field)
    }

    /** Ok(None) for an absent field, the text of a well-formed field, an error for an ill-formed one. */
    function GetFieldString(field: Bytes): (r: Result<Option<Bytes>, Utf8Error>)
      ensures GetFieldBinary(field).None? ==> r == Ok(None)
      ensures GetFieldBinary(field).Some? && ValidUtf8(GetFieldBinary(field).value) ==>
        r == Ok(GetFieldBinary(field))
      ensures GetFieldBinary(field).Some? && !ValidUtf8(GetFieldBinary(field).value) ==>
        r.Err? && r.error.validUpTo < |GetFieldBinary(field).value|
    {
      match Get(fields, field)
      case None => Ok(None)
      case Some(v) =>
        ValidUpToFull(v);
        if ValidUtf8(v) then Ok(Some(v)) else Err(Utf8Error(ValidUpTo(v)))
    }

    /** The field as text: always well-formed, and the stored bytes themselves when they already were. */
    function GetFieldStringLossy(field: Bytes): (r: Option<Bytes>)
      ensures r.Some? <==> GetFieldBinary(field).Some?
      ensures r.Some? ==> ValidUtf8(r.value)
      ensures r.Some? && ValidUtf8(GetFieldBinary(field).value) ==> r == GetFieldBinary(field)
    {
      match Get(fields, field)
      case None => None
      case Some(v) =>
        LossyIsValid(v);
        if ValidUtf8(v) then LossyOfValid(v); Some(Lossy(v)) else Some(Lossy(v))
    }

    function GetMessage(): Option<Bytes>
    {
      GetFieldStringLossy(MESSAGE)
    }

    /** `set_message`: the message reads back as given, and no other field changes. */
    function SetMessage(msg: Bytes): (r: JournalEntry)
      requires ValidUtf8(msg)
      ensures r.GetFieldBinary(MESSAGE) == Some(msg)
      ensures r.GetMessage() == Some(msg)
      ensures forall k :: k != MESSAGE ==> r.GetFieldBinary(k) == GetFieldBinary(k)
    {
      var r := JournalEntry(Put(fields, MESSAGE, msg));
      GetInsert(fields, MESSAGE, msg, MESSAGE);
      assert forall k :: r.GetFieldBinary(k) == Get(Insert(fields, MESSAGE, msg), k);
      forall k ensures Get(Insert(fields, MESSAGE, msg), k) == if k == MESSAGE then Some(msg) else Get(fields, k) {
        GetInsert(fields, MESSAGE, msg, k);
      }
      r
    }

    /** A timestamp field parsed as an `i64`; absent or unparsable gives None. */
    function TimestampOf(key: Bytes): (r: Option<Timestamp>)
      ensures r.Some? <==> GetFieldBinary(key).Some? && ParseI64(GetFieldBinary(key).value).Some?
      ensures r.Some? ==> r.value.us == ParseI64(GetFieldBinary(key).value).value
    {
      match GetFieldStringLossy(key)
      case None => None
      case Some(text) =>
        ParseLossy(GetFieldBinary(key).value);
        match ParseI64(text)
        case None => None
        case Some(v) => Some(Timestamp(v))
    }

    function GetSourceWallclockTime(): Option<Timestamp>
    {
      TimestampOf(SOURCE_REALTIME_TIMESTAMP)
    }

    function GetReceptionWallclockTime(): Option<Timestamp>
    {
      TimestampOf(REALTIME_TIMESTAMP)
    }

    function GetMonotonicTime(): Option<Timestamp>
    {
      TimestampOf(MONOTONIC_TIMESTAMP)
    }

    /** The source's own timestamp when it has one that parses, otherwise the
        reception timestamp, which may itself be None. */
    function GetWallclockTime(): (r: Option<Timestamp>)
      ensures GetSourceWallclockTime().Some? ==> r == GetSourceWallclockTime()
      ensures GetSourceWallclockTime().None? ==> r == GetReceptionWallclockTime()
    {
      var source := GetSourceWallclockTime();
      if source.Some? then source else GetReceptionWallclockTime()
    }
  }

  /** A `__REALTIME_TIMESTAMP` written as the decimal text of n reads back as n
      whenever n fits an `i64`. */
  lemma ReceptionRoundTrip(e: JournalEntry, n: nat)
    requires e.GetFieldBinary(REALTIME_TIMESTAMP) == Some(Decimal(n)) && n <= I64_MAX
    ensures e.GetReceptionWallclockTime() == Some(Timestamp(n))
  {
    ParseDecimal(n);
  }

  /** Without a usable source timestamp, the wallclock time is the reception time. */
  lemma WallclockFallsBack(e: JournalEntry, n: nat)
    requires e.GetFieldBinary(SOURCE_REALTIME_TIMESTAMP).None?
    requires e.GetFieldBinary(REALTIME_TIMESTAMP) == Some(Decimal(n)) && n <= I64_MAX
    ensures e.GetWallclockTime() == Some(Timestamp(n))
  {
    ReceptionRoundTrip(e, n);
  }

  /** The wallclock time over the raw bytes of both timestamp fields: the
      source field when it is present and parses as an `i64` (a present but
      unparsable source field falls through), else the reception field when
      it is present and parses, else None. */
  lemma WallclockOfFields(e: JournalEntry)
    ensures var src := e.GetFieldBinary(SOURCE_REALTIME_TIMESTAMP);
            var rcv := e.GetFieldBinary(REALTIME_TIMESTAMP);
            e.GetWallclockTime() ==
              if src.Some? && ParseI64(src.value).Some? then Some(Timestamp(ParseI64(src.value).value))
              else if rcv.Some? && ParseI64(rcv.value).Some? then Some(Timestamp(ParseI64(rcv.value).value))
              else None
  {
  }
}
