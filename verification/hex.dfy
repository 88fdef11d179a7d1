/**
 Lowercase hexadecimal text, as produced by `hashlib`'s `hexdigest()` and by
 Python's `'{:02x}'.format(b)` for a value `b` in [0, 256).
 */
module Hex {
  import opened Base

  /** True of the sixteen characters `0-9a-f`. */
  predicate IsLowerHexDigit(c: char) {
    ('0' <= c <= '9') || ('a' <= c <= 'f')
  }

  /** The lowercase digit for a nibble. */
  function Digit(d: nat): (c: char)
    requires d < 16
    ensures IsLowerHexDigit(c)
    ensures DigitValue(c) == Some(d)
  {
    if d < 10 then ('0' as int + d) as char else ('a' as int + (d - 10)) as char
  }

  /** The nibble a digit stands for; uppercase and other characters are rejected. */
  function DigitValue(c: char): (v: Option<nat>)
    ensures v.Some? <==> IsLowerHexDigit(c)
    ensures v.Some? ==> v.value < 16
  {
    if '0' <= c <= '9' then Some(c as int - '0' as int)
    else if 'a' <= c <= 'f' then Some(c as int - 'a' as int + 10)
    else None
  }

  /** Digits and values are inverse on lowercase digits. */
  lemma DigitOfValue(c: char)
    requires IsLowerHexDigit(c)
    ensures Digit(DigitValue(c).value) == c
  {
  }

  /** `'{:02x}'.format(b)`: exactly two lowercase digits, high nibble first. */
  function Octet(b: nat): (s: string)
    requires b < 256
    ensures |s| == 2
    ensures IsLowerHexDigit(s[0]) && IsLowerHexDigit(s[1])
    ensures DigitValue(s[0]).value * 16 + DigitValue(s[1]).value == b
  {
    [Digit(b / 16), Digit(b % 16)]
  }

  /** The value of a two-digit group, if both characters are lowercase digits. */
  function OctetValue(hi: char, lo: char): (v: Option<nat>)
    ensures v.Some? ==> v.value < 256
  {
    match (DigitValue(hi), DigitValue(lo))
    case (Some(h), Some(l)) => Some(h * 16 + l)
    case _ => None
  }

  /** Reading a formatted octet back gives the octet. */
  lemma OctetRoundTrip(b: nat)
    requires b < 256
    ensures OctetValue(Octet(b)[0], Octet(b)[1]) == Some(b)
  {
  }

  /** Formatting a parsed group gives the group back. */
  lemma OctetValueRoundTrip(hi: char, lo: char)
    requires OctetValue(hi, lo).Some?
    ensures Octet(OctetValue(hi, lo).value) == [hi, lo]
  {
    var h := DigitValue(hi).value;
    var l := DigitValue(lo).value;
    assert (h * 16 + l) / 16 == h && (h * 16 + l) % 16 == l;
    DigitOfValue(hi);
    DigitOfValue(lo);
  }

  /** `bytes.hex()`: two lowercase digits per byte, in order. */
  function Encode(bs: seq<byte>): (s: string)
    ensures |s| == 2 * |bs|
    ensures forall i :: 0 <= i < |s| ==> IsLowerHexDigit(s[i])
  {
    if |bs| == 0 then [] else Octet(bs[0] as nat) + Encode(bs[1..])
  }

  /** Parses lowercase hex text of even length into bytes. */
  function Decode(s: string): (r: Option<seq<byte>>)
    ensures r.Some? ==> 2 * |r.value| == |s|
  {
    if |s| == 0 then Some([])
    else if |s| == 1 then None
    else match (OctetValue(s[0], s[1]), Decode(s[2..]))
      case (Some(b), Some(rest)) => Some([ToByte(b)] + rest)
      case _ => None
  }

  /** Decoding inverts encoding. */
  lemma {:induction false} DecodeEncode(bs: seq<byte>)
    ensures Decode(Encode(bs)) == Some(bs)
  {
    if |bs| > 0 {
      var s := Encode(bs);
      assert s[..2] == Octet(bs[0] as nat);
      assert s[2..] == Encode(bs[1..]);
      OctetRoundTrip(bs[0] as nat);
      DecodeEncode(bs[1..]);
      assert [(bs[0] as nat) as byte] + bs[1..] == bs;
    }
  }

  /** A successful decode of a long text splits after the first group. */
  lemma DecodeCons(s: string)
    requires |s| >= 2 && Decode(s).Some?
    ensures OctetValue(s[0], s[1]).Some? && Decode(s[2..]).Some?
    ensures |Decode(s).value| > 0
    ensures Decode(s).value[0] as nat == OctetValue(s[0], s[1]).value
    ensures Decode(s).value[1..] == Decode(s[2..]).value
  {
  }

  /** Encoding inverts decoding: only canonical (lowercase) text decodes. */
  lemma {:induction false} EncodeDecode(s: string)
    requires Decode(s).Some?
    ensures Encode(Decode(s).value) == s
  {
    if |s| >= 2 {
      var bs := Decode(s).value;
      DecodeCons(s);
      assert Encode(bs) == Octet(bs[0] as nat) + Encode(bs[1..]);
      OctetValueRoundTrip(s[0], s[1]);
      EncodeDecode(s[2..]);
      assert s == [s[0], s[1]] + s[2..];
    }
  }
}
