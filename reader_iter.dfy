/** The blocking iterator over a reader: read the next entry and, at the
    end of the journal, wait once for new entries and try once more. */
module ReaderIter {
  import opened Wrappers
  import opened Ffi
  import opened Store
  import Api = Store
  import opened Entry
  import opened Reader

  /** `Result::transpose`: `Ok(None)` ends the iteration. */
  function Transpose(r: IoResult<Option<JournalEntry>>): (t: Option<IoResult<JournalEntry>>)
    ensures t.None? <==> r == Ok(None)
    ensures r.Ok? && r.value.Some? ==> t == Some(Ok(r.value.value))
    ensures r.Err? ==> t == Some(Err(r.error))
  {
    match r
    case Ok(None) => None
    case Ok(Some(e)) => Some(Ok(e))
    case Err(x) => Some(Err(x))
  }

  /** One step of the blocking iterator on a store. */
  function BlockingNext(s: Store): (r: (Option<IoResult<JournalEntry>>, Store))
    requires Valid(s)
    ensures Valid(r.1)
  {
    var (first, s1) := ReadNext(s);
    if first == Ok(None) then
      var (_, s2) := WaitSpec(s1, U64_MAX);
      var (second, s3) := ReadNext(s2);
      (Transpose(second), s3)
    else
      (Transpose(first), s1)
  }

  /** An entry found at once is yielded without waiting. */
  lemma HitDoesNotWait(s: Store)
    requires Valid(s) && ReadNext(s).0.Ok? && ReadNext(s).0.value.Some?
    ensures BlockingNext(s).0 == Some(Ok(ReadNext(s).0.value.value))
    ensures Moves(BlockingNext(s).1.trace) == Moves(s.trace) + [Next]
  {
    MovesAppend(s.trace, [Next]);
  }

  /** An error is yielded at once, with no wait and no retry. */
  lemma ErrorDoesNotRetry(s: Store)
    requires Valid(s) && ReadNext(s).0.Err?
    ensures BlockingNext(s).0 == Some(Err(ReadNext(s).0.error))
    ensures Moves(BlockingNext(s).1.trace) == Moves(s.trace) + [Next]
  {
    MovesAppend(s.trace, [Next]);
  }

  /** At the end, the iterator waits exactly once, with the longest timeout,
      and reads exactly once more, whatever the wait reported: the result
      is the retry's. */
  lemma MissWaitsAndRetries(s: Store)
    requires Valid(s) && ReadNext(s).0 == Ok(None)
    ensures Moves(BlockingNext(s).1.trace) == Moves(s.trace) + [Next, Call.Wait(U64_MAX), Next]
    ensures BlockingNext(s).0 == Transpose(ReadNext(WaitSpec(ReadNext(s).1, U64_MAX).1).0)
  {
    var t := s.trace;
    assert BlockingNext(s).1.trace == t + [Next, Call.Wait(U64_MAX), Next];
    MovesAppend(t, [Next, Call.Wait(U64_MAX), Next]);
    var calls := [Next, Call.Wait(U64_MAX), Next];
    assert calls[..2][..1] == [Next];
    assert Moves([Next]) == [Next];
    assert Moves(calls[..2]) == [Next, Call.Wait(U64_MAX)];
  }

  /** Waiting at the end picks up what was appended meanwhile: the first
      appended entry is yielded. */
  lemma WaitPicksUpAppended(s: Store)
    requires Valid(s) && s.fault == 0 && s.wakeup >= 0 && |s.incoming| > 0
    requires s.pos == Before(|s.entries|) || (|s.entries| > 0 && s.pos == At(|s.entries| - 1))
    ensures ValidEntry(s.incoming[0])
    ensures BlockingNext(s).0 == Transpose(AsSome(EntryAt(s.incoming[0])))
  {
    ReadNextAtEnd(s);
    var s2 := WaitSpec(Log(s, Next), U64_MAX).1;
    assert s2.entries == s.entries + s.incoming;
    assert s2.entries[|s.entries|] == s.incoming[0];
    ReadNextOnto(s2, |s.entries|);
  }

  /** When nothing new arrives, the iteration ends. */
  lemma NothingNewEnds(s: Store)
    requires Valid(s) && s.fault == 0 && (s.wakeup < 0 || |s.incoming| == 0)
    requires s.pos == Before(|s.entries|) || (|s.entries| > 0 && s.pos == At(|s.entries| - 1))
    ensures BlockingNext(s).0.None?
  {
    ReadNextAtEnd(s);
    var s2 := WaitSpec(Log(s, Next), U64_MAX).1;
    assert s2.entries == s.entries;
    ReadNextAtEnd(s2);
  }

  /** `JournalBlockingIter`: borrows the reader for the iteration. */
  class JournalBlockingIter {
    var reader: JournalReader

    constructor (reader: JournalReader)
      ensures this.reader == reader
    {
      this.reader := reader;
    }

    /** `Iterator::next`. */
    method Next() returns (r: Option<IoResult<JournalEntry>>)
      requires reader.Valid() && reader.j != null && !reader.dropped
      modifies reader.j
      ensures reader.Valid()
      ensures r == BlockingNext(old(reader.j.st)).0
      ensures reader.j.st == BlockingNext(old(reader.j.st)).1
    {
      var ret := reader.NextEntry();
      if ret.Ok? && ret.value.None? {
        var _ := reader.Wait();
        ret := reader.NextEntry();
      }
      r := Transpose(ret);
    }
  }
}
