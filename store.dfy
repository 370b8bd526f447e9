/** The part of the systemd journal C API (`sd_journal_*`) the binding calls,
    as an abstract store. Each primitive is a step function from a store
    state to a status (and a value) and the next state; the class `SdJournal`
    is the C handle those primitives act on, and `Sender` is the daemon's
    submission socket behind `sd_journal_sendv`. Nothing here is the
    binding's own code: it is the environment the binding is proved against. */
module Store {
  import opened Bytes
  import opened Wrappers
  import opened Ffi
  import SortedMap

  /** A value a primitive hands back through an out-parameter, or the negative status it failed with. */
  datatype Outcome<T> = Value(value: T) | Failure(status: int)

  /** One journal entry as the store holds it: its raw `NAME=value` data
      records in enumeration order, the status that ends the enumeration
      (0, or negative for a failure after the last record), and what the
      realtime, monotonic and cursor getters report for it. */
  datatype StoredEntry = StoredEntry(
    data: seq<Bytes>,
    enumEnd: int,
    realtime: Outcome<nat>,
    monotonic: Outcome<nat>,
    cursor: Outcome<Bytes>)

  /** Read position: before entry i (Head is before 0, Tail before the
      end), or on entry i, which is then the current entry. */
  datatype Position = Before(index: nat) | At(index: nat)

  /** The protocol calls, logged in order so that what the binding asked of
      the store can be stated. (Reads of the current entry are not logged:
      they leave the position alone.) */
  datatype Call =
    | Open(flags: bv32, namespace: Option<Bytes>)
    | Next
    | Previous
    | SeekHead
    | SeekTail
    | SeekCursor(token: Bytes)
    | AddMatch(filter: Bytes)
    | Wait(usec: nat)
    | Close

  /** The state behind one journal handle. `fault` is 0, or the status every
      positional call fails with; `wakeup` is the status `sd_journal_wait`
      returns; `incoming` holds entries other processes have appended, which
      become visible when a wait returns; `openStatus` is what opening returns. */
  datatype Store = Store(
    entries: seq<StoredEntry>,
    incoming: seq<StoredEntry>,
    pos: Position,
    dataIndex: nat,
    fault: int,
    wakeup: int,
    openStatus: int,
    filters: seq<Bytes>,
    trace: seq<Call>)

  /** systemd's status when no entry is current. */
  const EADDRNOTAVAIL: int := 99

  predicate OutcomeOk<T>(o: Outcome<T>) { o.Failure? ==> IsErrno(o.status) }

  predicate ValidEntry(e: StoredEntry)
  {
    && SortedMap.AllRecords(e.data)
    && I32_MIN < e.enumEnd <= 0
    && OutcomeOk(e.realtime) && (e.realtime.Value? ==> e.realtime.value <= U64_MAX)
    && OutcomeOk(e.monotonic) && (e.monotonic.Value? ==> e.monotonic.value <= U64_MAX)
    && OutcomeOk(e.cursor) && (e.cursor.Value? ==> NUL !in e.cursor.value)
  }

  predicate ValidEntries(es: seq<StoredEntry>)
  {
    forall i :: 0 <= i < |es| ==> ValidEntry(es[i])
  }

  predicate Valid(s: Store)
  {
    && ValidEntries(s.entries) && ValidEntries(s.incoming)
    && (match s.pos
        case Before(i) => i <= |s.entries|
        case At(i) => i < |s.entries|)
    && (s.fault == 0 || IsErrno(s.fault))
    && IsStatus(s.wakeup)
    && (s.openStatus == 0 || IsErrno(s.openStatus))
  }

  /** The current entry, if the position is on one. */
  function Current(s: Store): Option<StoredEntry>
  {
    if s.pos.At? && s.pos.index < |s.entries| then Some(s.entries[s.pos.index]) else None
  }

  /** The records of the current entry that enumeration yields. */
  function CurrentRecords(s: Store): (r: seq<Bytes>)
    ensures Valid(s) ==> SortedMap.AllRecords(r)
  {
    if s.fault == 0 && Current(s).Some? then
      assert Valid(s) ==> ValidEntry(s.entries[s.pos.index]);
      Current(s).value.data
    else []
  }

  function Log(s: Store, c: Call): Store
  {
    s.(trace := s.trace + [c])
  }

  /** How many times the handle has been closed. */
  function Closes(t: seq<Call>): nat
  {
    if |t| == 0 then 0 else Closes(t[..|t| - 1]) + (if t[|t| - 1] == Close then 1 else 0)
  }

  /** The positional calls in a trace: what moved the read position. */
  function Moves(t: seq<Call>): seq<Call>
  {
    if |t| == 0 then []
    else Moves(t[..|t| - 1]) + (if t[|t| - 1].Next? || t[|t| - 1].Previous? || t[|t| - 1].Wait? then [t[|t| - 1]] else [])
  }

  lemma {:induction false} MovesAppend(a: seq<Call>, b: seq<Call>)
    ensures Moves(a + b) == Moves(a) + Moves(b)
    decreases |b|
  {
    if |b| == 0 {
      assert a + b == a;
    } else {
      assert (a + b)[..|a + b| - 1] == a + b[..|b| - 1];
      MovesAppend(a, b[..|b| - 1]);
    }
  }

  /** Logging any other call leaves the close count alone. */
  lemma ClosesLog(s: Store, c: Call)
    requires c != Close
    ensures Closes(Log(s, c).trace) == Closes(s.trace)
  {
    assert Log(s, c).trace[..|s.trace|] == s.trace;
  }

  lemma {:induction false} ClosesAppend(a: seq<Call>, b: seq<Call>)
    ensures Closes(a + b) == Closes(a) + Closes(b)
    decreases |b|
  {
    if |b| == 0 {
      assert a + b == a;
    } else {
      assert (a + b)[..|a + b| - 1] == a + b[..|b| - 1];
      ClosesAppend(a, b[..|b| - 1]);
    }
  }

  // ---------------------------------------------------------------------
  // Primitives

  /** `sd_journal_open` / `sd_journal_open_namespace`. */
  function StepOpen(s: Store, flags: bv32, namespace: Option<Bytes>): (r: (int, Store))
    ensures Valid(s) ==> Valid(r.1)
    ensures Valid(s) ==> IsStatus(r.0)
  {
    (s.openStatus, Log(s, Open(flags, namespace)))
  }

  /** `sd_journal_next`: 1 when it moved onto a following entry, 0 at the end. */
  function StepNext(s: Store): (r: (int, Store))
    ensures Valid(s) ==> Valid(r.1)
    ensures Valid(s) ==> IsStatus(r.0)
  {
    var s := Log(s, Next);
    if s.fault < 0 then (s.fault, s)
    else match s.pos
      case Before(i) => if i < |s.entries| then (1, s.(pos := At(i), dataIndex := 0)) else (0, s)
      case At(i) => if i + 1 < |s.entries| then (1, s.(pos := At(i + 1), dataIndex := 0)) else (0, s)
  }

  /** `sd_journal_previous`: 1 when it moved onto a preceding entry, 0 at the start. */
  function StepPrevious(s: Store): (r: (int, Store))
    ensures Valid(s) ==> Valid(r.1)
    ensures Valid(s) ==> IsStatus(r.0)
  {
    var s := Log(s, Previous);
    if s.fault < 0 then (s.fault, s)
    else match s.pos
      case Before(i) =>
        if 0 < i <= |s.entries| then (1, s.(pos := At(i - 1), dataIndex := 0)) else (0, s)
      case At(i) =>
        if 0 < i <= |s.entries| then (1, s.(pos := At(i - 1), dataIndex := 0)) else (0, s)
  }

  /** `sd_journal_restart_data`. */
  function StepRestart(s: Store): (r: Store)
    ensures Valid(s) ==> Valid(r)
  {
    s.(dataIndex := 0)
  }

  /** `sd_journal_enumerate_data`: 1 and the next record, or the status that ends the enumeration. */
  function StepEnumerate(s: Store): (r: (int, Bytes, Store))
    ensures Valid(s) ==> Valid(r.2) && IsStatus(r.0)
    ensures Valid(s) && r.0 > 0 ==> r.0 == 1
  {
    if s.fault < 0 then (s.fault, [], s)
    else match Current(s)
      case None => (-EADDRNOTAVAIL, [], s)
      case Some(e) =>
        if s.dataIndex < |e.data| then (1, e.data[s.dataIndex], s.(dataIndex := s.dataIndex + 1))
        else (e.enumEnd, [], s)
  }

  /** The status the data enumeration of the current entry ends with, once
      every record has been read. */
  function EnumerationEnd(s: Store): (r: int)
    requires Valid(s)
    ensures IsStatus(r) && r <= 0
    ensures r == if s.fault < 0 then s.fault else match Current(s)
      case None => -EADDRNOTAVAIL
      case Some(e) => e.enumEnd
  {
    assert s.fault == 0 && Current(s).Some? ==> ValidEntry(s.entries[s.pos.index]);
    StepEnumerate(s.(dataIndex := |CurrentRecords(s)|)).0
  }

  /** Enumerating from record `k` of the current entry yields record `k`, or
      the end status once every record has been handed out. */
  lemma EnumerateFrom(s: Store, k: nat)
    requires Valid(s) && k <= |CurrentRecords(s)|
    ensures StepEnumerate(s.(dataIndex := k)) ==
      if k < |CurrentRecords(s)| then (1, CurrentRecords(s)[k], s.(dataIndex := k + 1))
      else (EnumerationEnd(s), [], s.(dataIndex := k))
  {
  }

  /** A getter of the current entry: status 0 and the value, or a negative
      status and the caller's untouched out-parameter (0). */
  function Getter(s: Store, monotonic: bool): (r: (int, nat))
    requires Valid(s)
    ensures IsStatus(r.0) && r.0 <= 0
  {
    if s.fault < 0 then (s.fault, 0)
    else match Current(s)
      case None => (-EADDRNOTAVAIL, 0)
      case Some(e) =>
        assert ValidEntry(s.entries[s.pos.index]);
        match if monotonic then e.monotonic else e.realtime
        case Value(n) => (0, n)
        case Failure(st) => (st, 0)
  }

  /** `sd_journal_get_realtime_usec`. */
  function GetRealtime(s: Store): (r: (int, nat))
    requires Valid(s)
    ensures IsStatus(r.0) && r.0 <= 0
  {
    Getter(s, false)
  }

  /** `sd_journal_get_monotonic_usec`. */
  function GetMonotonic(s: Store): (r: (int, nat))
    requires Valid(s)
    ensures IsStatus(r.0) && r.0 <= 0
  {
    Getter(s, true)
  }

  /** Reading a getter does not depend on how far the data enumeration has got. */
  lemma GettersIgnoreDataIndex(s: Store, t: Store)
    requires Valid(s) && t == s.(dataIndex := t.dataIndex)
    ensures Valid(t) && CurrentRecords(t) == CurrentRecords(s)
    ensures GetRealtime(t) == GetRealtime(s) && GetMonotonic(t) == GetMonotonic(s)
    ensures GetCursor(t) == GetCursor(s)
  {
  }

  /** `sd_journal_get_cursor`: status 0 and the cursor text, or a negative status. */
  function GetCursor(s: Store): (r: (int, Bytes))
    requires Valid(s)
    ensures IsStatus(r.0) && r.0 <= 0
    ensures NUL !in r.1
  {
    if s.fault < 0 then (s.fault, [])
    else match Current(s)
      case None => (-EADDRNOTAVAIL, [])
      case Some(e) =>
        assert ValidEntry(s.entries[s.pos.index]);
        match e.cursor
        case Value(c) => (0, c)
        case Failure(st) => (st, [])
  }

  function StepSeekHead(s: Store): (r: (int, Store))
    ensures Valid(s) ==> Valid(r.1)
    ensures Valid(s) ==> IsStatus(r.0)
  {
    var s := Log(s, SeekHead);
    if s.fault < 0 then (s.fault, s) else (0, s.(pos := Before(0)))
  }

  function StepSeekTail(s: Store): (r: (int, Store))
    ensures Valid(s) ==> Valid(r.1)
    ensures Valid(s) ==> IsStatus(r.0)
  {
    var s := Log(s, SeekTail);
    if s.fault < 0 then (s.fault, s) else (0, s.(pos := Before(|s.entries|)))
  }

  /** Index of the first entry whose cursor is the token. */
  function FindCursor(es: seq<StoredEntry>, token: Bytes): (r: Option<nat>)
    ensures r.Some? ==> r.value < |es| && es[r.value].cursor == Value(token)
    ensures r.Some? ==> forall j :: 0 <= j < r.value ==> es[j].cursor != Value(token)
    ensures r.None? ==> forall j :: 0 <= j < |es| ==> es[j].cursor != Value(token)
  {
    if |es| == 0 then None
    else if es[0].cursor == Value(token) then Some(0)
    else match FindCursor(es[1..], token)
      case None => None
      case Some(i) => Some(i + 1)
  }

  /** `sd_journal_seek_cursor`: the next `next` call reads the entry with that cursor;
      a token no entry has is rejected with EINVAL. */
  function StepSeekCursor(s: Store, token: Bytes): (r: (int, Store))
    ensures Valid(s) ==> Valid(r.1)
    ensures Valid(s) ==> IsStatus(r.0)
  {
    var s := Log(s, SeekCursor(token));
    if s.fault < 0 then (s.fault, s)
    else match FindCursor(s.entries, token)
      case None => (-EINVAL, s)
      case Some(i) => (0, s.(pos := Before(i)))
  }

  /** `sd_journal_add_match`: the match accumulates with the earlier ones. */
  function StepAddMatch(s: Store, filter: Bytes): (r: (int, Store))
    ensures Valid(s) ==> Valid(r.1)
    ensures Valid(s) ==> IsStatus(r.0)
  {
    var s := Log(s, AddMatch(filter));
    if s.fault < 0 then (s.fault, s) else (0, s.(filters := s.filters + [filter]))
  }

  /** `sd_journal_wait`: returns the wakeup status; entries appended
      meanwhile become visible unless the wait failed. */
  function StepWait(s: Store, usec: nat): (r: (int, Store))
    ensures Valid(s) ==> Valid(r.1)
    ensures Valid(s) ==> IsStatus(r.0)
  {
    var s := Log(s, Wait(usec));
    if s.fault < 0 then (s.fault, s)
    else if s.wakeup < 0 then (s.wakeup, s)
    else (s.wakeup, s.(entries := s.entries + s.incoming, incoming := []))
  }

  /** `sd_journal_close`. */
  function StepClose(s: Store): (r: Store)
    ensures Valid(s) ==> Valid(r)
  {
    Log(s, Close)
  }

  /** A journal handle (`sd_journal *`). */
  class SdJournal {
    var st: Store

    constructor (s: Store)
      ensures st == s
    {
      st := s;
    }

    method Open(flags: bv32, namespace: Option<Bytes>) returns (status: int)
      modifies this
      ensures (status, st) == StepOpen(old(st), flags, namespace)
    {
      status, st := StepOpen(st, flags, namespace).0, StepOpen(st, flags, namespace).1;
    }

    method Next() returns (status: int)
      modifies this
      ensures (status, st) == StepNext(old(st))
    {
      var r := StepNext(st);
      status, st := r.0, r.1;
    }

    method Previous() returns (status: int)
      modifies this
      ensures (status, st) == StepPrevious(old(st))
    {
      var r := StepPrevious(st);
      status, st := r.0, r.1;
    }

    method RestartData()
      modifies this
      ensures st == StepRestart(old(st))
    {
      st := StepRestart(st);
    }

    method EnumerateData() returns (status: int, data: Bytes)
      modifies this
      ensures (status, data, st) == StepEnumerate(old(st))
    {
      var r := StepEnumerate(st);
      status, data, st := r.0, r.1, r.2;
    }

    method GetRealtimeUsec() returns (status: int, usec: nat)
      requires Valid(st)
      ensures (status, usec) == GetRealtime(st)
    {
      status, usec := GetRealtime(st).0, GetRealtime(st).1;
    }

    method GetMonotonicUsec() returns (status: int, usec: nat)
      requires Valid(st)
      ensures (status, usec) == GetMonotonic(st)
    {
      status, usec := GetMonotonic(st).0, GetMonotonic(st).1;
    }

    method GetCursorText() returns (status: int, cursor: Bytes)
      requires Valid(st)
      ensures (status, cursor) == GetCursor(st)
    {
      status, cursor := GetCursor(st).0, GetCursor(st).1;
    }

    method SeekHead() returns (status: int)
      modifies this
      ensures (status, st) == StepSeekHead(old(st))
    {
      var r := StepSeekHead(st);
      status, st := r.0, r.1;
    }

    method SeekTail() returns (status: int)
      modifies this
      ensures (status, st) == StepSeekTail(old(st))
    {
      var r := StepSeekTail(st);
      status, st := r.0, r.1;
    }

    method SeekCursor(token: Bytes) returns (status: int)
      modifies this
      ensures (status, st) == StepSeekCursor(old(st), token)
    {
      var r := StepSeekCursor(st, token);
      status, st := r.0, r.1;
    }

    method AddMatch(filter: Bytes) returns (status: int)
      modifies this
      ensures (status, st) == StepAddMatch(old(st), filter)
    {
      var r := StepAddMatch(st, filter);
      status, st := r.0, r.1;
    }

    method Wait(usec: nat) returns (status: int)
      modifies this
      ensures (status, st) == StepWait(old(st), usec)
    {
      var r := StepWait(st, usec);
      status, st := r.0, r.1;
    }

    method Close()
      modifies this
      ensures st == StepClose(old(st))
    {
      st := StepClose(st);
    }
  }

  /** The journal daemon's submission side (`sd_journal_sendv`): `status` is
      what a send returns; a send that succeeds records all its fields as one
      entry, a failing one records nothing. */
  class Sender {
    var status: int
    var accepted: seq<seq<Bytes>>
    var calls: seq<seq<Bytes>>

    constructor (status: int)
      ensures this.status == status && accepted == [] && calls == []
    {
      this.status := status;
      accepted := [];
      calls := [];
    }

    method SendV(fields: seq<Bytes>) returns (r: int)
      modifies this
      ensures r == status == old(status)
      ensures calls == old(calls) + [fields]
      ensures accepted == if r >= 0 then old(accepted) + [fields] else old(accepted)
    {
      r := status;
      calls := calls + [fields];
      if r >= 0 {
        accepted := accepted + [fields];
      }
    }
  }
}
