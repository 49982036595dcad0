/**
 * UTF-8 as defined in section 3 of RFC 3629, on Unicode code points.
 *
 * The editor measures its document with `len(text.encode('utf-8'))`; this
 * module gives that encoder, the per-code-point width table of the RFC, and
 * a strict decoder (section 3 and 4 of RFC 3629: no overlong forms, no
 * surrogates, nothing above U+10FFFF) that inverts it.
 */
module Utf8 {
  import opened Wrappers

  type Octet = b: int | 0 <= b < 0x100

  /** A Unicode scalar value: a code point that is not a surrogate. */
  predicate IsScalar(c: int) {
    0 <= c <= 0x10FFFF && !(0xD800 <= c <= 0xDFFF)
  }

  /** Text that `.encode('utf-8')` accepts: surrogates make it raise. */
  predicate IsScalarText(t: seq<int>) {
    forall i :: 0 <= i < |t| ==> IsScalar(t[i])
  }

  /** A continuation byte, 10xxxxxx. */
  predicate IsContinuation(b: Octet) {
    0x80 <= b < 0xC0
  }

  /** The table of section 3 of RFC 3629: octets used for one code point. */
  function Width(c: int): (n: nat)
    requires IsScalar(c)
    ensures 1 <= n <= 4
  {
    if c < 0x80 then 1
    else if c < 0x800 then 2
    else if c < 0x10000 then 3
    else 4
  }

  /** The number of octets announced by a leading byte, 0 if it cannot lead. */
  function LeadWidth(b: Octet): (n: nat)
    ensures n <= 4
  {
    if b < 0x80 then 1
    else if 0xC0 <= b < 0xE0 then 2
    else if 0xE0 <= b < 0xF0 then 3
    else if 0xF0 <= b < 0xF8 then 4
    else 0
  }

  /** The octets of one scalar value. */
  function EncodeScalar(c: int): (bs: seq<Octet>)
    requires IsScalar(c)
    ensures |bs| == Width(c)
    ensures LeadWidth(bs[0]) == |bs|
    ensures forall i :: 1 <= i < |bs| ==> IsContinuation(bs[i])
  {
    if c < 0x80 then
      [c]
    else if c < 0x800 then
      [0xC0 + c / 0x40, 0x80 + c % 0x40]
    else if c < 0x10000 then
      [0xE0 + c / 0x1000, 0x80 + (c / 0x40) % 0x40, 0x80 + c % 0x40]
    else
      [0xF0 + c / 0x40000, 0x80 + (c / 0x1000) % 0x40, 0x80 + (c / 0x40) % 0x40, 0x80 + c % 0x40]
  }

  /** Strict decoding of the octets of exactly one scalar value. */
  function DecodeScalar(bs: seq<Octet>): Option<int> {
    if |bs| == 1 then
      if bs[0] < 0x80 then Some(bs[0]) else None
    else if |bs| == 2 then
      if 0xC2 <= bs[0] < 0xE0 && IsContinuation(bs[1])
      then Some((bs[0] as int - 0xC0) * 0x40 + (bs[1] as int - 0x80))
      else None
    else if |bs| == 3 then
      if 0xE0 <= bs[0] < 0xF0 && IsContinuation(bs[1]) && IsContinuation(bs[2]) then
        var c := (bs[0] as int - 0xE0) * 0x1000 + (bs[1] as int - 0x80) * 0x40 + (bs[2] as int - 0x80);
        if 0x800 <= c && !(0xD800 <= c <= 0xDFFF) then Some(c) else None
      else None
    else if |bs| == 4 then
      if 0xF0 <= bs[0] < 0xF8 && IsContinuation(bs[1]) && IsContinuation(bs[2]) && IsContinuation(bs[3]) then
        var c := (bs[0] as int - 0xF0) * 0x40000 + (bs[1] as int - 0x80) * 0x1000 + (bs[2] as int - 0x80) * 0x40 + (bs[3] as int - 0x80);
        if 0x10000 <= c <= 0x10FFFF then Some(c) else None
      else None
    else None
  }

  /** `text.encode('utf-8')`: the octets of each code point, in order. */
  function Encode(t: seq<int>): (bs: seq<Octet>)
    requires IsScalarText(t)
    ensures |t| <= |bs| <= 4 * |t|
  {
    if t == [] then [] else EncodeScalar(t[0]) + Encode(t[1..])
  }

  /** Strict decoding of a whole octet string; None when it is not UTF-8. */
  function Decode(bs: seq<Octet>): Option<seq<int>>
    decreases |bs|
  {
    if bs == [] then Some([])
    else
      var n := LeadWidth(bs[0]);
      if n == 0 || n > |bs| then None
      else match DecodeScalar(bs[..n])
        case None => None
        case Some(c) =>
          match Decode(bs[n..])
          case None => None
          case Some(rest) => Some([c] + rest)
  }

  /** The sum of the widths of the code points, added up from the end. */
  function SumOfWidths(t: seq<int>): nat
    requires IsScalarText(t)
  {
    if t == [] then 0 else SumOfWidths(t[..|t| - 1]) + Width(t[|t| - 1])
  }

  lemma DecodeEncodeTwo(c: int)
    requires 0x80 <= c < 0x800
    ensures DecodeScalar(EncodeScalar(c)) == Some(c)
  {
    var q, r := c / 0x40, c % 0x40;
    assert c == q * 0x40 + r;
    assert EncodeScalar(c) == [0xC0 + q, 0x80 + r];
  }

  lemma DecodeEncodeThree(c: int)
    requires IsScalar(c) && 0x800 <= c < 0x10000
    ensures DecodeScalar(EncodeScalar(c)) == Some(c)
  {
    var q1, q2, r := c / 0x1000, (c / 0x40) % 0x40, c % 0x40;
    assert c == q1 * 0x1000 + q2 * 0x40 + r;
    assert EncodeScalar(c) == [0xE0 + q1, 0x80 + q2, 0x80 + r];
  }

  /** The base-64 digits of a code point of four octets. */
  lemma FourDigits(c: int, q1: int, q2: int, q3: int, r: int)
    requires 0x10000 <= c <= 0x10FFFF
    requires q1 == c / 0x40000 && q2 == (c / 0x1000) % 0x40 && q3 == (c / 0x40) % 0x40 && r == c % 0x40
    ensures c == q1 * 0x40000 + q2 * 0x1000 + q3 * 0x40 + r
    ensures 0 <= q1 <= 4 && 0 <= q2 < 0x40 && 0 <= q3 < 0x40 && 0 <= r < 0x40
  {
  }

  lemma DecodeEncodeFour(c: int)
    requires 0x10000 <= c <= 0x10FFFF
    ensures DecodeScalar(EncodeScalar(c)) == Some(c)
  {
    var q1, q2, q3, r := c / 0x40000, (c / 0x1000) % 0x40, (c / 0x40) % 0x40, c % 0x40;
    FourDigits(c, q1, q2, q3, r);
    var bs: seq<Octet> := [0xF0 + q1, 0x80 + q2, 0x80 + q3, 0x80 + r];
    assert EncodeScalar(c) == bs;
    assert DecodeScalar(bs) == Some(q1 * 0x40000 + q2 * 0x1000 + q3 * 0x40 + r);
  }

  /** Decoding undoes encoding for every scalar value. */
  lemma DecodeEncodeScalar(c: int)
    requires IsScalar(c)
    ensures DecodeScalar(EncodeScalar(c)) == Some(c)
  {
    if c < 0x80 {
    } else if c < 0x800 {
      DecodeEncodeTwo(c);
    } else if c < 0x10000 {
      DecodeEncodeThree(c);
    } else {
      DecodeEncodeFour(c);
    }
  }

  lemma EncodeDecodeTwo(bs: seq<Octet>, c: int)
    requires |bs| == 2 && DecodeScalar(bs) == Some(c)
    ensures IsScalar(c) && EncodeScalar(c) == bs
  {
    var q: int, r: int := bs[0] - 0xC0, bs[1] - 0x80;
    assert c == q * 0x40 + r && 2 <= q < 0x20 && 0 <= r < 0x40;
    assert c / 0x40 == q && c % 0x40 == r;
  }

  lemma EncodeDecodeThree(bs: seq<Octet>, c: int)
    requires |bs| == 3 && DecodeScalar(bs) == Some(c)
    ensures IsScalar(c) && EncodeScalar(c) == bs
  {
    var q1: int, q2: int, r: int := bs[0] - 0xE0, bs[1] - 0x80, bs[2] - 0x80;
    assert c == q1 * 0x1000 + q2 * 0x40 + r && 0 <= q2 < 0x40 && 0 <= r < 0x40;
    assert c / 0x40 == q1 * 0x40 + q2 && c % 0x40 == r;
    assert c / 0x1000 == q1;
  }

  lemma EncodeDecodeFour(bs: seq<Octet>, c: int)
    requires |bs| == 4 && DecodeScalar(bs) == Some(c)
    ensures IsScalar(c) && EncodeScalar(c) == bs
  {
    var q1: int, q2: int, q3: int, r: int := bs[0] - 0xF0, bs[1] - 0x80, bs[2] - 0x80, bs[3] - 0x80;
    assert c == q1 * 0x40000 + q2 * 0x1000 + q3 * 0x40 + r;
    assert 0 <= q2 < 0x40 && 0 <= q3 < 0x40 && 0 <= r < 0x40;
    assert c / 0x40 == q1 * 0x1000 + q2 * 0x40 + q3 && c % 0x40 == r;
    assert c / 0x1000 == q1 * 0x40 + q2;
    assert c / 0x40000 == q1;
  }

  /** A decoded scalar value is encoded back into the same octets. */
  lemma EncodeDecodeScalar(bs: seq<Octet>, c: int)
    requires DecodeScalar(bs) == Some(c)
    ensures IsScalar(c) && EncodeScalar(c) == bs
  {
    if |bs| == 2 {
      EncodeDecodeTwo(bs, c);
    } else if |bs| == 3 {
      EncodeDecodeThree(bs, c);
    } else if |bs| == 4 {
      EncodeDecodeFour(bs, c);
    }
  }

  /** Encoding distributes over concatenation. */
  lemma {:induction false} EncodeAppend(a: seq<int>, b: seq<int>)
    requires IsScalarText(a) && IsScalarText(b)
    ensures IsScalarText(a + b)
    ensures Encode(a + b) == Encode(a) + Encode(b)
  {
    assert IsScalarText(a + b) by {
      forall i | 0 <= i < |a + b| ensures IsScalar((a + b)[i]) {
        if i < |a| { assert (a + b)[i] == a[i]; } else { assert (a + b)[i] == b[i - |a|]; }
      }
    }
    if a == [] {
      assert a + b == b;
    } else {
      var ab := a + b;
      assert ab[0] == a[0];
      assert ab[1..] == a[1..] + b;
      EncodeAppend(a[1..], b);
      calc {
        Encode(ab);
        EncodeScalar(a[0]) + Encode(a[1..] + b);
        EncodeScalar(a[0]) + (Encode(a[1..]) + Encode(b));
        (EncodeScalar(a[0]) + Encode(a[1..])) + Encode(b);
      }
    }
  }

  /** The encoded length is the sum of the widths of the RFC 3629 table. */
  lemma {:induction false} EncodedLengthIsSumOfWidths(t: seq<int>)
    requires IsScalarText(t)
    ensures |Encode(t)| == SumOfWidths(t)
  {
    if t != [] {
      var init, last := t[..|t| - 1], t[|t| - 1];
      assert t == init + [last];
      EncodedLengthIsSumOfWidths(init);
      EncodeAppend(init, [last]);
      assert Encode([last]) == EncodeScalar(last);
    }
  }

  /** Every code point takes between one and four octets. */
  lemma {:induction false} EncodedLengthBounds(t: seq<int>)
    requires IsScalarText(t)
    ensures |t| <= |Encode(t)| <= 4 * |t|
  {
    if t != [] {
      EncodedLengthBounds(t[1..]);
    }
  }

  /** The encoded length equals the number of code points exactly when all are ASCII. */
  lemma {:induction false} EncodedLengthIsCountIffAscii(t: seq<int>)
    requires IsScalarText(t)
    ensures |Encode(t)| == |t| <==> forall i :: 0 <= i < |t| ==> t[i] < 0x80
  {
    if t != [] {
      EncodedLengthIsCountIffAscii(t[1..]);
      EncodedLengthBounds(t[1..]);
      if forall i :: 0 <= i < |t| ==> t[i] < 0x80 {
        assert forall i :: 0 <= i < |t[1..]| ==> t[1..][i] < 0x80 by {
          forall i | 0 <= i < |t[1..]| ensures t[1..][i] < 0x80 {
            assert t[1..][i] == t[i + 1];
          }
        }
      } else if t[0] < 0x80 {
        var j :| 0 <= j < |t| && t[j] >= 0x80;
        assert t[1..][j - 1] == t[j];
      }
    }
  }

  /** Decoding undoes encoding for every scalar text. */
  lemma {:induction false} DecodeEncode(t: seq<int>)
    requires IsScalarText(t)
    ensures Decode(Encode(t)) == Some(t)
  {
    if t != [] {
      var head := EncodeScalar(t[0]);
      var bs := Encode(t);
      assert bs == head + Encode(t[1..]);
      assert bs[0] == head[0];
      assert bs[..|head|] == head;
      assert bs[|head|..] == Encode(t[1..]);
      DecodeEncodeScalar(t[0]);
      DecodeEncode(t[1..]);
      assert [t[0]] + t[1..] == t;
    }
  }

  /** The first step of a successful decoding: one scalar value, then the rest. */
  lemma DecodeFirst(bs: seq<Octet>, t: seq<int>)
    requires bs != [] && Decode(bs) == Some(t)
    ensures 0 < LeadWidth(bs[0]) <= |bs| && |t| > 0
    ensures DecodeScalar(bs[..LeadWidth(bs[0])]) == Some(t[0])
    ensures Decode(bs[LeadWidth(bs[0])..]) == Some(t[1..])
  {
  }

  /** Every octet string that decodes is the encoding of what it decodes to. */
  lemma {:induction false} EncodeDecode(bs: seq<Octet>, t: seq<int>)
    requires Decode(bs) == Some(t)
    ensures IsScalarText(t) && Encode(t) == bs
    decreases |bs|
  {
    if bs != [] {
      DecodeFirst(bs, t);
      var n := LeadWidth(bs[0]);
      var head, tail := bs[..n], bs[n..];
      assert head + tail == bs;
      EncodeDecodeScalar(head, t[0]);
      EncodeDecode(tail, t[1..]);
      assert IsScalarText(t) by {
        forall i | 0 <= i < |t| ensures IsScalar(t[i]) {
          if i > 0 { assert t[i] == t[1..][i - 1]; }
        }
      }
      assert Encode(t) == EncodeScalar(t[0]) + Encode(t[1..]);
    }
  }
}
