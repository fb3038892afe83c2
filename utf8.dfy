/**
 * UTF-8 as the codecs need it: strings travel as their UTF-8 bytes.
 * `ValidUtf8` is the well-formedness test Rust's `String::from_utf8` applies, written
 * out after table 3-7 of the Unicode Standard (RFC 3629); `DecodeLossy` is what .NET's
 * `Encoding.UTF8.GetString` followed by `GetBytes` does to arbitrary bytes: every
 * maximal ill-formed subpart becomes one U+FFFD.
 */
module Utf8 {
  import opened Bytes

  /** Length of the sequence a lead byte announces; 0 when the byte cannot start one. */
  function SequenceLength(lead: u8): nat {
    if lead <= 0x7F then 1
    else if 0xC2 <= lead <= 0xDF then 2
    else if 0xE0 <= lead <= 0xEF then 3
    else if 0xF0 <= lead <= 0xF4 then 4
    else 0
  }

  /** May byte b stand at offset k >= 1 of a sequence that starts with lead? */
  predicate ContinuationOk(lead: u8, k: nat, b: u8) {
    if k == 1 then
      if lead == 0xE0 then 0xA0 <= b <= 0xBF
      else if lead == 0xED then 0x80 <= b <= 0x9F
      else if lead == 0xF0 then 0x90 <= b <= 0xBF
      else if lead == 0xF4 then 0x80 <= b <= 0x8F
      else 0x80 <= b <= 0xBF
    else 0x80 <= b <= 0xBF
  }

  /** How far, from offset k on, s continues the sequence led by s[0], stopping at len. */
  function MatchedFrom(s: seq<u8>, k: nat, len: nat): (m: nat)
    requires 1 <= k <= len && k <= |s|
    ensures k <= m <= len && m <= |s|
    decreases len - k
  {
    if k < len && k < |s| && ContinuationOk(s[0], k, s[k]) then MatchedFrom(s, k + 1, len) else k
  }

  /** Length of the maximal subpart at the head of s: its longest prefix that starts some well-formed sequence. */
  function MaximalSubpart(s: seq<u8>): (m: nat)
    ensures m <= |s| && m <= 4
  {
    if s == [] || SequenceLength(s[0]) == 0 then 0 else MatchedFrom(s, 1, SequenceLength(s[0]))
  }

  /** Length of the well-formed sequence at the head of s, or 0 when s does not start with one. */
  function WellFormedPrefix(s: seq<u8>): (n: nat)
    ensures n <= |s|
  {
    var m := MaximalSubpart(s);
    if m > 0 && m == SequenceLength(s[0]) then m else 0
  }

  /**
   * s is a concatenation of well-formed UTF-8 sequences. The non-empty case is a function
   * of its own so that the solver opens the tables above only where ValidUtf8Unfold is
   * called, not wherever a string's validity is merely carried along.
   */
  predicate ValidUtf8(s: seq<u8>)
    decreases |s|, 1
  {
    s == [] || ValidNonEmpty(s)
  }

  /** s starts with a well-formed sequence and the rest is valid. */
  predicate ValidNonEmpty(s: seq<u8>)
    decreases |s|, 0
  {
    s != [] && var n := WellFormedPrefix(s); n > 0 && ValidUtf8(s[n..])
  }

  lemma ValidUtf8Unfold(s: seq<u8>)
    ensures ValidUtf8(s) <==> s == [] || (WellFormedPrefix(s) > 0 && ValidUtf8(s[WellFormedPrefix(s)..]))
  {
    assert ValidUtf8(s) <==> s == [] || ValidNonEmpty(s);
  }

  /** The UTF-8 bytes of U+FFFD REPLACEMENT CHARACTER. */
  const Replacement: seq<u8> := [0xEF, 0xBF, 0xBD]

  /** Well-formed sequences are kept; each maximal ill-formed subpart (at least one byte) becomes U+FFFD. */
  function DecodeLossy(s: seq<u8>): seq<u8>
    decreases |s|
  {
    if s == [] then []
    else
      var n := WellFormedPrefix(s);
      if n > 0 then s[..n] + DecodeLossy(s[n..])
      else
        var m := MaximalSubpart(s);
        Replacement + DecodeLossy(s[if m == 0 then 1 else m..])
  }

  /** On well-formed input the lossy decoder changes nothing (the strict and lossy readers agree). */
  lemma {:induction false} DecodeLossyOfValid(s: seq<u8>)
    requires ValidUtf8(s)
    ensures DecodeLossy(s) == s
  {
    ValidUtf8Unfold(s);
    if s != [] {
      var n := WellFormedPrefix(s);
      DecodeLossyOfValid(s[n..]);
      assert s[..n] + s[n..] == s;
    }
  }

  lemma {:induction false} MatchedFromPrefix(a: seq<u8>, b: seq<u8>, k: nat, len: nat)
    requires 1 <= k <= len <= |a|
    ensures MatchedFrom(a + b, k, len) == MatchedFrom(a, k, len)
    decreases len - k
  {
    if k < len {
      assert (a + b)[k] == a[k] && (a + b)[0] == a[0];
      MatchedFromPrefix(a, b, k + 1, len);
    }
  }

  /** A well-formed sequence stays the well-formed head of anything it is put in front of. */
  lemma WellFormedPrefixOfConcat(a: seq<u8>, b: seq<u8>)
    requires WellFormedPrefix(a) == |a| > 0
    ensures WellFormedPrefix(a + b) == |a|
  {
    assert (a + b)[0] == a[0];
    MatchedFromPrefix(a, b, 1, SequenceLength(a[0]));
  }

  lemma {:induction false} ValidConcat(a: seq<u8>, b: seq<u8>)
    requires WellFormedPrefix(a) == |a| > 0 && ValidUtf8(b)
    ensures ValidUtf8(a + b)
  {
    WellFormedPrefixOfConcat(a, b);
    assert (a + b)[|a|..] == b;
    ValidUtf8Unfold(a + b);
  }

  /** Whatever the input, the lossy decoder yields well-formed UTF-8 (a .NET string always re-encodes cleanly). */
  lemma {:induction false} DecodeLossyValid(s: seq<u8>)
    ensures ValidUtf8(DecodeLossy(s))
    decreases |s|
  {
    if s == [] {
      ValidUtf8Unfold(DecodeLossy(s));
    } else {
      var n := WellFormedPrefix(s);
      if n > 0 {
        DecodeLossyValid(s[n..]);
        assert s[..n] + s[n..] == s;
        assert WellFormedPrefix(s[..n]) == n by {
          assert s == s[..n] + s[n..];
          MatchedFromPrefix(s[..n], s[n..], 1, n);
          assert s[..n][0] == s[0];
        }
        ValidConcat(s[..n], DecodeLossy(s[n..]));
      } else {
        var m := MaximalSubpart(s);
        DecodeLossyValid(s[if m == 0 then 1 else m..]);
        assert WellFormedPrefix(Replacement) == 3;
        ValidConcat(Replacement, DecodeLossy(s[if m == 0 then 1 else m..]));
      }
    }
  }

  /** Each replaced subpart is at least one byte long, so the output is at most three times the input. */
  lemma {:induction false} DecodeLossyLength(s: seq<u8>)
    ensures |DecodeLossy(s)| <= 3 * |s|
    decreases |s|
  {
    if s != [] {
      var n := WellFormedPrefix(s);
      if n > 0 {
        DecodeLossyLength(s[n..]);
      } else {
        var m := MaximalSubpart(s);
        DecodeLossyLength(s[if m == 0 then 1 else m..]);
      }
    }
  }
}
