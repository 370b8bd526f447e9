/** `BTreeMap<String, Vec<u8>>` as an association list whose keys ascend
    strictly in byte order: lookup, insertion that overwrites, and the
    fold that fills a map from a sequence of `name=value` records. */
module SortedMap {
  import opened Bytes
  import opened Wrappers
  import Utf8

  type Pairs = seq<(Bytes, Bytes)>

  predicate Sorted(m: Pairs)
  {
    forall i, j :: 0 <= i < j < |m| ==> Less(m[i].0, m[j].0)
  }

  /** A map's contents in its iteration order. */
  type Fields = m: Pairs | Sorted(m) witness []

  predicate HasKey(m: Pairs, k: Bytes)
  {
    exists i :: 0 <= i < |m| && m[i].0 == k
  }

  function Get(m: Pairs, k: Bytes): (r: Option<Bytes>)
    ensures r.Some? <==> HasKey(m, k)
    ensures r.Some? ==> (k, r.value) in m
  {
    if |m| == 0 then None
    else if m[0].0 == k then Some(m[0].1)
    else
      var r := Get(m[1..], k);
      assert HasKey(m, k) ==> HasKey(m[1..], k) by {
        if HasKey(m, k) {
          var i :| 0 <= i < |m| && m[i].0 == k;
          assert m[1..][i - 1].0 == k;
        }
      }
      r
  }

  /** Looking up in a concatenation: the first part answers when it has the key. */
  lemma {:induction false} GetAppend(a: Pairs, b: Pairs, k: Bytes)
    ensures Get(a + b, k) == if Get(a, k).Some? then Get(a, k) else Get(b, k)
    decreases |a|
  {
    if |a| > 0 {
      assert (a + b)[0] == a[0];
      assert (a + b)[1..] == a[1..] + b;
      GetAppend(a[1..], b, k);
    } else {
      assert a + b == b;
    }
  }

  /** `BTreeMap::insert`: a present key gets the new value, a new key lands in order. */
  function Insert(m: Pairs, k: Bytes, v: Bytes): (r: Pairs)
    ensures forall i :: 0 <= i < |r| ==> r[i] == (k, v) || r[i] in m
    ensures Sorted(m) ==> Sorted(r)
  {
    if |m| == 0 then [(k, v)]
    else if m[0].0 == k then [(k, v)] + m[1..]
    else if Less(k, m[0].0) then
      var r := [(k, v)] + m;
      assert Sorted(m) ==> Sorted(r) by {
        if Sorted(m) {
          forall j | 0 < j < |r| ensures Less(k, r[j].0) {
            if j > 1 { LessTransitive(k, m[0].0, m[j - 1].0); }
          }
        }
      }
      r
    else
      var t := Insert(m[1..], k, v);
      var r := [m[0]] + t;
      assert Sorted(m) ==> Sorted(r) by {
        if Sorted(m) {
          assert Sorted(m[1..]);
          LessTotal(k, m[0].0);
          forall j | 0 <= j < |t| ensures Less(m[0].0, t[j].0) {
            if t[j] != (k, v) {
              var p :| 0 <= p < |m[1..]| && m[1..][p] == t[j];
              assert m[p + 1] == t[j];
            }
          }
        }
      }
      r
  }

  /** Looking up after an insertion: the inserted key has the new value, every other key is unchanged. */
  lemma {:induction false} GetInsert(m: Pairs, k: Bytes, v: Bytes, q: Bytes)
    ensures Get(Insert(m, k, v), q) == if q == k then Some(v) else Get(m, q)
  {
    if |m| > 0 && m[0].0 != k && !Less(k, m[0].0) {
      GetInsert(m[1..], k, v, q);
      assert Insert(m, k, v)[1..] == Insert(m[1..], k, v);
    } else if |m| > 0 && m[0].0 != k {
      assert ([(k, v)] + m)[1..] == m;
    } else if |m| > 0 {
      assert Insert(m, k, v)[1..] == m[1..];
    }
  }

  /** A key above every stored key is appended at the end. */
  lemma {:induction false} InsertGreatest(m: Pairs, k: Bytes, v: Bytes)
    requires forall i :: 0 <= i < |m| ==> Less(m[i].0, k)
    ensures Insert(m, k, v) == m + [(k, v)]
  {
    if |m| > 0 {
      LessIrreflexive(k);
      LessAsymmetric(m[0].0, k);
      assert forall i :: 0 <= i < |m[1..]| ==> m[1..][i] == m[i + 1];
      InsertGreatest(m[1..], k, v);
      assert [m[0]] + (m[1..] + [(k, v)]) == m + [(k, v)];
    }
  }

  function Put(m: Fields, k: Bytes, v: Bytes): Fields
  {
    Insert(m, k, v)
  }

  /** In a sorted map a key is stored once, so any stored pair for it is the one lookup finds. */
  lemma {:induction false} GetSorted(m: Pairs, i: nat)
    requires Sorted(m) && i < |m|
    ensures Get(m, m[i].0) == Some(m[i].1)
  {
    if i > 0 {
      LessIrreflexive(m[i].0);
      assert m[0].0 != m[i].0;
      assert Sorted(m[1..]) && m[1..][i - 1] == m[i];
      GetSorted(m[1..], i - 1);
    }
  }

  // ---------------------------------------------------------------------
  // Records `name=value`

  /** Position of the first occurrence of x in b, or |b| if none. */
  function IndexOf(b: Bytes, x: byte): (i: nat)
    ensures i <= |b|
    ensures i < |b| <==> x in b
    ensures i < |b| ==> b[i] == x
    ensures forall j :: 0 <= j < i ==> b[j] != x
  {
    if |b| == 0 then 0
    else if b[0] == x then 0
    else
      var i := 1 + IndexOf(b[1..], x);
      assert forall j :: 1 <= j < |b| ==> b[j] == b[1..][j - 1];
      i
  }

  /** Rust's `splitn(2, '=')` on a record that has an '=': the name never holds
      an '=', and name, '=' and value put together give the record back. */
  function SplitAtEq(rec: Bytes): (p: (Bytes, Bytes))
    requires EQ in rec
    ensures EQ !in p.0
    ensures rec == p.0 + [EQ] + p.1
  {
    var i := IndexOf(rec, EQ);
    assert rec == rec[..i] + [EQ] + rec[i + 1..];
    (rec[..i], rec[i + 1..])
  }

  /** Splitting `k=v` at its first '=' gives (k, v) back whenever k has no '=', whatever v holds. */
  lemma SplitRoundTrip(k: Bytes, v: Bytes)
    requires EQ !in k
    ensures SplitAtEq(k + [EQ] + v) == (k, v)
  {
    var rec := k + [EQ] + v;
    assert rec[|k|] == EQ;
    assert forall j :: 0 <= j < |k| ==> rec[j] == k[j];
    assert IndexOf(rec, EQ) == |k|;
    assert rec[..|k|] == k && rec[|k| + 1..] == v;
  }

  predicate AllRecords(rs: seq<Bytes>)
  {
    forall i :: 0 <= i < |rs| ==> EQ in rs[i]
  }

  /** A raw record is decoded lossily to text, then split at its first '='. */
  function DecodeRecord(rec: Bytes): (p: (Bytes, Bytes))
    requires EQ in rec
  {
    Utf8.LossyKeepsAscii(rec, EQ);
    SplitAtEq(Utf8.Lossy(rec))
  }

  /** The map filled by inserting the decoded records one after another. */
  function Fill(rs: seq<Bytes>): Fields
    requires AllRecords(rs)
  {
    if |rs| == 0 then []
    else
      var p := DecodeRecord(rs[|rs| - 1]);
      Put(Fill(rs[..|rs| - 1]), p.0, p.1)
  }

  /** No record carries the name k. */
  predicate Absent(rs: seq<Bytes>, k: Bytes)
    requires AllRecords(rs)
  {
    forall i :: 0 <= i < |rs| ==> DecodeRecord(rs[i]).0 != k
  }

  /** Record i is the last one that carries the name k. */
  predicate LastWith(rs: seq<Bytes>, k: Bytes, i: nat)
    requires AllRecords(rs)
  {
    i < |rs| && DecodeRecord(rs[i]).0 == k && forall j :: i < j < |rs| ==> DecodeRecord(rs[j]).0 != k
  }

  /** A name is missing from the filled map exactly when no record carries it. */
  lemma {:induction false} FillGetAbsent(rs: seq<Bytes>, k: Bytes)
    requires AllRecords(rs)
    ensures Get(Fill(rs), k).None? <==> Absent(rs, k)
  {
    if |rs| > 0 {
      var n := |rs| - 1;
      var init := rs[..n];
      assert AllRecords(init);
      FillGetAbsent(init, k);
      var p := DecodeRecord(rs[n]);
      GetInsert(Fill(init), p.0, p.1, k);
      var before := Get(Fill(init), k).None?;
      var after := Get(Fill(rs), k).None?;
      assert after <==> before && p.0 != k;
      AbsentSnoc(rs, k);
    }
  }

  lemma AbsentSnoc(rs: seq<Bytes>, k: Bytes)
    requires AllRecords(rs) && |rs| > 0
    ensures AllRecords(rs[..|rs| - 1])
    ensures Absent(rs, k) <==> Absent(rs[..|rs| - 1], k) && DecodeRecord(rs[|rs| - 1]).0 != k
  {
    var init := rs[..|rs| - 1];
    assert forall i :: 0 <= i < |init| ==> init[i] == rs[i];
  }

  /** A name present in the filled map holds the value of the last record that
      carries it: later duplicates overwrite earlier ones. */
  lemma {:induction false} FillGetLast(rs: seq<Bytes>, k: Bytes, i: nat)
    requires AllRecords(rs) && LastWith(rs, k, i)
    ensures Get(Fill(rs), k) == Some(DecodeRecord(rs[i]).1)
  {
    var n := |rs| - 1;
    var init := rs[..n];
    var p := DecodeRecord(rs[n]);
    GetInsert(Fill(init), p.0, p.1, k);
    if i < n {
      assert forall j :: 0 <= j < n ==> init[j] == rs[j];
      assert LastWith(init, k, i);
      FillGetLast(init, k, i);
    }
  }
}
