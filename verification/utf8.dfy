/**
 * UTF-8 well-formedness (the check `String::from_utf8` makes) and the lossy
 * conversion `to_string_lossy` performs, both over raw bytes. The byte ranges
 * are those of Table 3-7 of the Unicode Standard (the same as section 4 of
 * RFC 3629): no overlong forms, no surrogates, nothing above U+10FFFF.
 */
module Utf8 {
  import opened Bytes

  /** U+FFFD REPLACEMENT CHARACTER, encoded. */
  const Replacement: seq<Byte> := [0xEF, 0xBF, 0xBD]

  /** Number of bytes of the sequence a lead byte announces; 0 for a byte that cannot lead. */
  function SequenceLength(lead: Byte): nat
  {
    if lead < 0x80 then 1
    else if 0xC2 <= lead <= 0xDF then 2
    else if 0xE0 <= lead <= 0xEF then 3
    else if 0xF0 <= lead <= 0xF4 then 4
    else 0
  }

  /** Whether `b` may stand at offset `k` (k >= 1) of a sequence led by `lead`. */
  predicate Follows(lead: Byte, k: nat, b: Byte)
  {
    if k == 1 then
      if lead == 0xE0 then 0xA0 <= b <= 0xBF
      else if lead == 0xED then 0x80 <= b <= 0x9F
      else if lead == 0xF0 then 0x90 <= b <= 0xBF
      else if lead == 0xF4 then 0x80 <= b <= 0x8F
      else 0x80 <= b <= 0xBF
    else 0x80 <= b <= 0xBF
  }

  /**
   * Length of the longest prefix of `s` (at most one sequence long) that is a
   * prefix of some well-formed sequence: the "maximal subpart" of section 3.9
   * of the Unicode Standard. 0 when `s[0]` cannot lead.
   */
  function Subpart(s: seq<Byte>): (k: nat)
    requires |s| > 0
    ensures k <= SequenceLength(s[0]) && k <= |s|
    ensures SequenceLength(s[0]) > 0 ==> k >= 1
  {
    var n := SequenceLength(s[0]);
    if n == 0 then 0 else ConformingFrom(s, 1, n)
  }

  function ConformingFrom(s: seq<Byte>, k: nat, n: nat): (r: nat)
    requires 1 <= k <= n <= 4 && k <= |s|
    ensures k <= r <= n && r <= |s|
    decreases n - k
  {
    if k == n || k == |s| || !Follows(s[0], k, s[k]) then k
    else ConformingFrom(s, k + 1, n)
  }

  /** `s` begins with one complete well-formed sequence. */
  predicate StartsWithChar(s: seq<Byte>)
    requires |s| > 0
  {
    SequenceLength(s[0]) > 0 && Subpart(s) == SequenceLength(s[0])
  }

  /** `String::from_utf8(s).is_ok()`. */
  predicate Valid(s: seq<Byte>)
    decreases |s|
  {
    |s| == 0 || (StartsWithChar(s) && Valid(s[SequenceLength(s[0])..]))
  }

  /** `String::from_utf8_lossy(s)`: each maximal ill-formed subpart becomes one U+FFFD. */
  function Lossy(s: seq<Byte>): (r: seq<Byte>)
    decreases |s|
  {
    if |s| == 0 then []
    else if StartsWithChar(s) then
      var n := SequenceLength(s[0]);
      s[..n] + Lossy(s[n..])
    else
      var k := Subpart(s);
      var skip := if k == 0 then 1 else k;
      Replacement + Lossy(s[skip..])
  }

  /**
   * The lossy conversion keeps a non-empty input non-empty and at most
   * triples its length: a replaced subpart is at least one byte long.
   */
  lemma {:induction false} LossyLength(s: seq<Byte>)
    ensures |Lossy(s)| == 0 <==> |s| == 0
    ensures |Lossy(s)| <= 3 * |s|
    decreases |s|
  {
    if |s| > 0 {
      if StartsWithChar(s) {
        LossyLength(s[SequenceLength(s[0])..]);
      } else {
        var k := Subpart(s);
        LossyLength(s[if k == 0 then 1 else k..]);
      }
    }
  }

  lemma ReplacementIsValid()
    ensures Valid(Replacement)
  {
    assert Replacement[3..] == [];
  }

  lemma {:induction false} ValidAppend(a: seq<Byte>, b: seq<Byte>)
    requires Valid(a) && Valid(b)
    ensures Valid(a + b)
    decreases |a|
  {
    if |a| > 0 {
      var n := SequenceLength(a[0]);
      SubpartOfExtension(a, b);
      assert (a + b)[0] == a[0];
      assert (a + b)[n..] == a[n..] + b;
      ValidAppend(a[n..], b);
      assert StartsWithChar(a + b) && Valid((a + b)[n..]);
    } else {
      assert a + b == b;
    }
  }

  /** A complete first sequence stays complete when more bytes follow. */
  lemma SubpartOfExtension(a: seq<Byte>, b: seq<Byte>)
    requires |a| > 0 && StartsWithChar(a)
    ensures StartsWithChar(a + b)
  {
    var n := SequenceLength(a[0]);
    var ab := a + b;
    assert ab[..n] == a[..n];
    ConformingPrefix(a, ab, 1, n);
  }

  lemma {:induction false} ConformingPrefix(a: seq<Byte>, ab: seq<Byte>, k: nat, n: nat)
    requires 1 <= k <= n <= 4 && n <= |a| && n <= |ab|
    requires ab[..n] == a[..n]
    requires ConformingFrom(a, k, n) == n
    ensures ConformingFrom(ab, k, n) == n
    decreases n - k
  {
    if k < n {
      assert ab[k] == a[k] by { assert ab[..n][k] == a[..n][k]; }
      assert ab[0] == a[0] by { assert ab[..n][0] == a[..n][0]; }
      ConformingPrefix(a, ab, k + 1, n);
    }
  }

  /** Every lossy conversion is well-formed UTF-8. */
  lemma {:induction false} LossyIsValid(s: seq<Byte>)
    ensures Valid(Lossy(s))
    decreases |s|
  {
    if |s| > 0 {
      if StartsWithChar(s) {
        var n := SequenceLength(s[0]);
        LossyIsValid(s[n..]);
        var head := s[..n];
        assert head[0] == s[0];
        ConformingPrefix(s, head, 1, n);
        assert head[n..] == [];
        assert Valid(head);
        ValidAppend(head, Lossy(s[n..]));
      } else {
        var k := Subpart(s);
        var skip := if k == 0 then 1 else k;
        LossyIsValid(s[skip..]);
        ReplacementIsValid();
        ValidAppend(Replacement, Lossy(s[skip..]));
      }
    }
  }

  /** On well-formed input the lossy conversion is the identity. */
  lemma {:induction false} LossyOfValid(s: seq<Byte>)
    requires Valid(s)
    ensures Lossy(s) == s
    decreases |s|
  {
    if |s| > 0 {
      var n := SequenceLength(s[0]);
      var tail := s[n..];
      assert StartsWithChar(s) && Valid(tail);
      LossyStep(s);
      LossyOfValid(tail);
      calc {
        Lossy(s);
        s[..n] + Lossy(tail);
        s[..n] + tail;
        { assert s[..n] + s[n..] == s; }
        s;
      }
    }
  }

  /** A complete first sequence is copied through unchanged. */
  lemma LossyStep(s: seq<Byte>)
    requires |s| > 0 && StartsWithChar(s)
    ensures Lossy(s) == s[..SequenceLength(s[0])] + Lossy(s[SequenceLength(s[0])..])
  {
  }

  lemma LossyFacts(s: seq<Byte>)
    ensures Valid(Lossy(s))
    ensures Valid(s) ==> Lossy(s) == s
  {
    LossyIsValid(s);
    if Valid(s) {
      LossyOfValid(s);
    }
  }
}
