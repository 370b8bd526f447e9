/** Submitting an entry to the journal: every field becomes one
    `NAME=value` string, in the map's key order, and all of them go to the
    daemon in a single send. */
module Writer {
  import opened Bytes
  import opened Wrappers
  import opened Ffi
  import opened SortedMap
  import Utf8
  import opened Store
  import opened Entry

  /** One field as it goes on the wire. */
  function Line(k: Bytes, v: Bytes): (line: Bytes)
    ensures EQ in line
  {
    assert (k + [EQ] + v)[|k|] == EQ;
    k + [EQ] + v
  }

  /** The strings `submit` builds from a map, in iteration order. */
  function WireFormat(m: Pairs): (w: seq<Bytes>)
    ensures |w| == |m|
  {
    if |m| == 0 then [] else WireFormat(m[..|m| - 1]) + [Line(m[|m| - 1].0, m[|m| - 1].1)]
  }

  /** The i-th string is the i-th field, name and value joined by '=':
      every name goes out as it is, in the map's order. */
  lemma {:induction false} WireFormatAt(m: Pairs, i: nat)
    requires i < |m|
    ensures WireFormat(m)[i] == Line(m[i].0, m[i].1)
    decreases |m|
  {
    if i < |m| - 1 {
      WireFormatAt(m[..|m| - 1], i);
    }
  }

  /** The strings go out in ascending order of field name. */
  lemma WireInKeyOrder(m: Fields, i: nat, j: nat)
    requires i < j < |m|
    ensures WireFormat(m)[i] == Line(m[i].0, m[i].1) && WireFormat(m)[j] == Line(m[j].0, m[j].1)
    ensures Less(m[i].0, m[j].0)
  {
    WireFormatAt(m, i);
    WireFormatAt(m, j);
  }

  /** Splitting a string at its first '=' gives its field back when the
      name has no '=', even when the value does. */
  lemma WireSplitsBack(m: Pairs, i: nat)
    requires i < |m| && EQ !in m[i].0
    ensures EQ in WireFormat(m)[i] && SplitAtEq(WireFormat(m)[i]) == m[i]
  {
    WireFormatAt(m, i);
    SplitRoundTrip(m[i].0, m[i].1);
  }

  /** Every string carries a '=', so the reader can decode all of them. */
  lemma WireRecords(m: Pairs)
    ensures AllRecords(WireFormat(m))
  {
    forall i | 0 <= i < |m| ensures EQ in WireFormat(m)[i] {
      WireFormatAt(m, i);
    }
  }

  lemma Snoc(m: Pairs)
    requires |m| > 0
    ensures m[..|m| - 1] + [(m[|m| - 1].0, m[|m| - 1].1)] == m
  {
  }

  /** A wire string the reader decodes gives back its field. */
  lemma DecodeLine(k: Bytes, v: Bytes)
    requires EQ !in k && Utf8.ValidUtf8(Line(k, v))
    ensures DecodeRecord(Line(k, v)) == (k, v)
  {
    Utf8.LossyOfValid(Line(k, v));
    SplitRoundTrip(k, v);
  }

  /** Reading back what was submitted: when no name contains '=' and every
      string is valid UTF-8, filling a map from the wire strings, as the
      reader does, gives the submitted map exactly. */
  lemma {:induction false} ReadBack(m: Fields)
    requires forall i :: 0 <= i < |m| ==> EQ !in m[i].0 && Utf8.ValidUtf8(Line(m[i].0, m[i].1))
    ensures AllRecords(WireFormat(m))
    ensures Fill(WireFormat(m)) == m
    decreases |m|
  {
    WireRecords(m);
    if |m| > 0 {
      var n := |m| - 1;
      var init: Fields := m[..n];
      var k, v := m[n].0, m[n].1;
      assert forall i :: 0 <= i < n ==> init[i] == m[i];
      ReadBack(init);
      var w := WireFormat(m);
      assert w[..n] == WireFormat(init);
      assert w[n] == Line(k, v);
      DecodeLine(k, v);
      assert Fill(w) == Put(init, k, v);
      InsertGreatest(init, k, v);
      Snoc(m);
    }
  }

  /** The strings for a list with one more field: one more string at the end. */
  lemma WireSnoc(m: Pairs, k: Bytes, v: Bytes)
    ensures WireFormat(m + [(k, v)]) == WireFormat(m) + [Line(k, v)]
  {
    assert (m + [(k, v)])[..|m|] == m;
  }

  /** The strings of a list, given one by one. */
  lemma WireFormatIs(m: Pairs, w: seq<Bytes>)
    requires |w| == |m| && forall i :: 0 <= i < |m| ==> w[i] == Line(m[i].0, m[i].1)
    ensures WireFormat(m) == w
  {
    forall i | 0 <= i < |m| ensures WireFormat(m)[i] == w[i] {
      WireFormatAt(m, i);
    }
  }

  /** No two fields share a name. */
  predicate DistinctNames(m: Pairs)
  {
    forall i, j :: 0 <= i < j < |m| ==> m[i].0 != m[j].0
  }

  /** Among fields with distinct names, a lookup finds the one field a name has. */
  lemma GetDistinct(m: Pairs, i: nat)
    requires DistinctNames(m) && i < |m|
    ensures Get(m, m[i].0) == Some(m[i].1)
  {
    assert HasKey(m, m[i].0);
    var v := Get(m, m[i].0).value;
    var p :| 0 <= p < |m| && m[p] == (m[i].0, v);
    assert p == i;
  }

  /** Reading back a send of fields in any order: when the names are distinct
      and have no '=', and every string is valid UTF-8, the map the reader
      fills from the strings answers every lookup as the sent list does. */
  lemma WireReadsBack(m: Pairs, k: Bytes)
    requires forall i :: 0 <= i < |m| ==> EQ !in m[i].0 && Utf8.ValidUtf8(Line(m[i].0, m[i].1))
    requires DistinctNames(m)
    ensures AllRecords(WireFormat(m))
    ensures Get(Fill(WireFormat(m)), k) == Get(m, k)
  {
    var w := WireFormat(m);
    WireRecords(m);
    forall i | 0 <= i < |m| ensures DecodeRecord(w[i]) == m[i] {
      WireFormatAt(m, i);
      DecodeLine(m[i].0, m[i].1);
    }
    if HasKey(m, k) {
      var i :| 0 <= i < |m| && m[i].0 == k;
      assert LastWith(w, k, i);
      FillGetLast(w, k, i);
      GetDistinct(m, i);
    } else {
      assert Absent(w, k);
      FillGetAbsent(w, k);
    }
  }

  /** A field whose name is ASCII and whose value is valid UTF-8 goes out as
      a valid UTF-8 string. */
  lemma LineValid(k: Bytes, v: Bytes)
    requires IsAscii(k) && Utf8.ValidUtf8(v)
    ensures Utf8.ValidUtf8(Line(k, v))
  {
    assert IsAscii(k + [EQ]);
    Utf8.AsciiThenValid(k + [EQ], v);
  }

  /** `submit`: build the strings, send them in one call, and map the status. */
  method Submit(entry: JournalEntry, sink: Sender) returns (r: IoResult<()>)
    requires IsStatus(sink.status)
    modifies sink
    ensures sink.calls == old(sink.calls) + [WireFormat(entry.GetFields())]
    ensures sink.status == old(sink.status)
    ensures sink.accepted == if sink.status >= 0 then old(sink.accepted) + [WireFormat(entry.GetFields())] else old(sink.accepted)
    ensures r.Ok? <==> sink.status >= 0
    ensures r.Err? ==> r.error == OsError(-sink.status)
  {
    var m := entry.GetFields();
    var fields: seq<Bytes> := [];
    for i := 0 to |m|
      invariant fields == WireFormat(m[..i])
    {
      assert m[..i + 1][..i] == m[..i];
      fields := fields + [Line(m[i].0, m[i].1)];
    }
    assert m[..|m|] == m;
    var status := sink.SendV(fields);
    var res := FfiResult(status);
    if res.Err? {
      return Err(res.error);
    }
    r := Ok(());
  }
}
