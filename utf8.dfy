/** UTF-8 well-formedness (Unicode Table 3-7) and the lossy decoding that
    Rust's `String::from_utf8_lossy` performs: every maximal ill-formed
    subpart becomes U+FFFD. Text is kept as its UTF-8 bytes. */
module Utf8 {
  import opened Bytes

  /** U+FFFD REPLACEMENT CHARACTER, encoded. */
  const Replacement: Bytes := [0xEF, 0xBF, 0xBD]

  predicate Cont(b: byte) { 0x80 <= b <= 0xBF }

  /** Length of the sequence a lead byte announces, 0 if no sequence starts with it. */
  function SeqLen(lead: byte): nat
  {
    if lead < 0x80 then 1
    else if 0xC2 <= lead <= 0xDF then 2
    else if 0xE0 <= lead <= 0xEF then 3
    else if 0xF0 <= lead <= 0xF4 then 4
    else 0
  }

  /** The range the second byte must lie in after a given lead byte. */
  predicate SecondOk(lead: byte, b: byte)
  {
    if lead == 0xE0 then 0xA0 <= b <= 0xBF
    else if lead == 0xED then 0x80 <= b <= 0x9F
    else if lead == 0xF0 then 0x90 <= b <= 0xBF
    else if lead == 0xF4 then 0x80 <= b <= 0x8F
    else Cont(b)
  }

  /** Length of the well-formed character s starts with, or 0 if it does not start with one. */
  function CharLen(s: Bytes): (n: nat)
    ensures n <= |s| && n <= 4
  {
    if |s| == 0 then 0
    else
      var n := SeqLen(s[0]);
      if n <= 1 then n
      else if |s| < n || !SecondOk(s[0], s[1]) then 0
      else if n >= 3 && !Cont(s[2]) then 0
      else if n == 4 && !Cont(s[3]) then 0
      else n
  }

  predicate ValidUtf8(s: Bytes)
    decreases |s|
  {
    |s| == 0 || (CharLen(s) > 0 && ValidUtf8(s[CharLen(s)..]))
  }

  /** Length of the longest well-formed prefix (Rust's `Utf8Error::valid_up_to`). */
  function ValidUpTo(s: Bytes): (n: nat)
    ensures n <= |s|
    decreases |s|
  {
    if |s| == 0 || CharLen(s) == 0 then 0 else CharLen(s) + ValidUpTo(s[CharLen(s)..])
  }

  /** Length of the maximal ill-formed subpart s starts with. */
  function InvalidLen(s: Bytes): (k: nat)
    requires |s| > 0 && CharLen(s) == 0
    ensures 1 <= k <= |s|
  {
    var n := SeqLen(s[0]);
    if n < 2 || |s| < 2 || !SecondOk(s[0], s[1]) then 1
    else if n == 4 && |s| >= 3 && Cont(s[2]) then 3
    else 2
  }

  function Lossy(s: Bytes): Bytes
    decreases |s|
  {
    if |s| == 0 then []
    else if CharLen(s) > 0 then s[..CharLen(s)] + Lossy(s[CharLen(s)..])
    else Replacement + Lossy(s[InvalidLen(s)..])
  }

  // ---------------------------------------------------------------------

  lemma ValidUpToFull(s: Bytes)
    ensures ValidUpTo(s) == |s| <==> ValidUtf8(s)
    decreases |s|
  {
    if |s| > 0 && CharLen(s) > 0 {
      ValidUpToFull(s[CharLen(s)..]);
    }
  }

  lemma CharLenPrefix(c: Bytes, t: Bytes)
    requires CharLen(c) == |c| > 0
    ensures CharLen(c + t) == |c|
  {
    assert (c + t)[0] == c[0];
    if |c| >= 2 { assert (c + t)[1] == c[1]; }
    if |c| >= 3 { assert (c + t)[2] == c[2]; }
    if |c| >= 4 { assert (c + t)[3] == c[3]; }
  }

  lemma ValidCons(c: Bytes, t: Bytes)
    requires CharLen(c) == |c| > 0 && ValidUtf8(t)
    ensures ValidUtf8(c + t)
  {
    CharLenPrefix(c, t);
    assert (c + t)[|c|..] == t;
  }

  /** Lossy decoding leaves well-formed text unchanged. */
  lemma {:induction false} LossyOfValid(s: Bytes)
    requires ValidUtf8(s)
    ensures Lossy(s) == s
    decreases |s|
  {
    if |s| > 0 {
      LossyOfValid(s[CharLen(s)..]);
      assert s[..CharLen(s)] + s[CharLen(s)..] == s;
    }
  }

  /** The result of lossy decoding is always well-formed text. */
  lemma {:induction false} LossyIsValid(s: Bytes)
    ensures ValidUtf8(Lossy(s))
    decreases |s|
  {
    if |s| > 0 {
      if CharLen(s) > 0 {
        var c := s[..CharLen(s)];
        assert c == s[..CharLen(s)] && CharLen(s[..CharLen(s)]) == |c| by {
          CharLenPrefix(c, s[CharLen(s)..]);
          assert c + s[CharLen(s)..] == s;
        }
        LossyIsValid(s[CharLen(s)..]);
        ValidCons(c, Lossy(s[CharLen(s)..]));
      } else {
        LossyIsValid(s[InvalidLen(s)..]);
        ValidCons(Replacement, Lossy(s[InvalidLen(s)..]));
      }
    }
  }

  /** ASCII text is well-formed UTF-8. */
  lemma {:induction false} AsciiValid(s: Bytes)
    requires IsAscii(s)
    ensures ValidUtf8(s)
    decreases |s|
  {
    if |s| > 0 {
      AsciiValid(s[1..]);
    }
  }

  /** ASCII text followed by well-formed text is well-formed. */
  lemma {:induction false} AsciiThenValid(a: Bytes, t: Bytes)
    requires IsAscii(a) && ValidUtf8(t)
    ensures ValidUtf8(a + t)
    decreases |a|
  {
    if |a| > 0 {
      AsciiThenValid(a[1..], t);
      assert CharLen([a[0]]) == 1;
      ValidCons([a[0]], a[1..] + t);
      assert [a[0]] + (a[1..] + t) == a + t;
    } else {
      assert a + t == t;
    }
  }

  /** No ill-formed subpart and no multi-byte character contains an ASCII byte,
      so an ASCII byte of the input reappears in the output. */
  lemma {:induction false} LossyKeepsAscii(s: Bytes, b: byte)
    requires b < 128 && b in s
    ensures b in Lossy(s)
    decreases |s|
  {
    var n := CharLen(s);
    if s[0] == b {
      assert n == 1 && Lossy(s)[0] == b;
    } else if n > 0 {
      assert forall j :: 0 <= j < n ==> s[j] != b;
      var i :| 0 <= i < |s| && s[i] == b;
      assert s[n..][i - n] == b;
      LossyKeepsAscii(s[n..], b);
      assert Lossy(s) == s[..n] + Lossy(s[n..]);
    } else {
      var k := InvalidLen(s);
      assert forall j :: 0 <= j < k ==> s[j] >= 128;
      var i :| 0 <= i < |s| && s[i] == b;
      assert s[k..][i - k] == b;
      LossyKeepsAscii(s[k..], b);
      assert Lossy(s) == Replacement + Lossy(s[k..]);
    }
  }

  /** A non-ASCII byte of the input leaves a non-ASCII byte in the output. */
  lemma {:induction false} LossyKeepsNonAscii(s: Bytes, i: nat)
    requires i < |s| && s[i] >= 128
    ensures !IsAscii(Lossy(s))
    decreases |s|
  {
    var n := CharLen(s);
    if n > 0 {
      if i < n {
        assert Lossy(s)[i] == s[i];
      } else {
        LossyKeepsNonAscii(s[n..], i - n);
        var j :| 0 <= j < |Lossy(s[n..])| && Lossy(s[n..])[j] >= 128;
        assert Lossy(s)[n + j] == Lossy(s[n..])[j];
      }
    } else {
      assert Lossy(s)[0] == 0xEF;
    }
  }
}
