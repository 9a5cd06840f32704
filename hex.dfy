/**
  Base16 as PHP's `bin2hex` and `hex2bin` implement it (section 8 of RFC 4648):
  encoding emits two lower-case digits per byte, most significant nibble first;
  decoding accepts either case and fails on an odd length or on any character
  that is not a hexadecimal digit.
 */
module Hex {

  import opened Wrappers

  newtype byte = x: int | 0 <= x < 256

  predicate IsHexDigit(c: char)
  {
    '0' <= c <= '9' || 'a' <= c <= 'f' || 'A' <= c <= 'F'
  }

  predicate IsLowerHexDigit(c: char)
  {
    '0' <= c <= '9' || 'a' <= c <= 'f'
  }

  /** True when every character of `s` is a hexadecimal digit of either case. */
  predicate AllHexDigits(s: string)
  {
    forall i :: 0 <= i < |s| ==> IsHexDigit(s[i])
  }

  function DigitValue(c: char): (v: nat)
    requires IsHexDigit(c)
    ensures v < 16
  {
    if '0' <= c <= '9' then c as nat - '0' as nat
    else if 'a' <= c <= 'f' then c as nat - 'a' as nat + 10
    else c as nat - 'A' as nat + 10
  }

  /** `hex2bin` reads an upper-case digit as the same nibble as its lower-case form. */
  lemma DigitCaseFold(c: char)
    requires 'A' <= c <= 'F'
    ensures IsHexDigit((c as int + 32) as char)
    ensures DigitValue(c) == DigitValue((c as int + 32) as char)
  {
  }

  /** The lower-case digit for a nibble; it reads back as the same nibble. */
  function LowerDigit(v: nat): (c: char)
    requires v < 16
    ensures IsLowerHexDigit(c) && DigitValue(c) == v
  {
    if v < 10 then ('0' as nat + v) as char else ('a' as nat + v - 10) as char
  }

  /** `bin2hex`: two lower-case hexadecimal digits per byte. */
  function Encode(b: seq<byte>): (s: string)
    ensures |s| == 2 * |b|
    ensures forall i :: 0 <= i < |s| ==> IsLowerHexDigit(s[i])
    ensures '|' !in s  // so an encoded secret never contains the MAC separator
  {
    if b == [] then ""
    else [LowerDigit(b[0] as nat / 16), LowerDigit(b[0] as nat % 16)] + Encode(b[1..])
  }

  /** `hex2bin`: None stands for PHP's `false` (odd length or a non-hex character). */
  function Decode(s: string): (r: Option<seq<byte>>)
    ensures r.Some? <==> |s| % 2 == 0 && AllHexDigits(s)
    ensures r.Some? ==> |r.value| == |s| / 2
  {
    if s == "" then Some([])
    else if |s| == 1 || !IsHexDigit(s[0]) || !IsHexDigit(s[1]) then None
    else
      match Decode(s[2..])
      case None =>
        assert !AllHexDigits(s[2..]) || |s[2..]| % 2 != 0;
        None
      case Some(rest) => Some([(DigitValue(s[0]) * 16 + DigitValue(s[1])) as byte] + rest)
  }

  /**
    What `hex2bin` decodes: each byte is the value of its two digits, the high
    nibble first, in either case.
   */
  lemma {:induction false} DecodeDigits(s: string)
    requires Decode(s).Some?
    ensures forall i :: 0 <= i < |Decode(s).value| ==>
              Decode(s).value[i] as nat == DigitValue(s[2 * i]) * 16 + DigitValue(s[2 * i + 1])
  {
    if s != "" {
      var tail := s[2..];
      DecodeDigits(tail);
      var b, rest := Decode(s).value, Decode(tail).value;
      assert b[1..] == rest;
      forall i | 1 <= i < |b|
        ensures b[i] as nat == DigitValue(s[2 * i]) * 16 + DigitValue(s[2 * i + 1])
      {
        assert b[i] == rest[i - 1];
        assert tail[2 * (i - 1)] == s[2 * i] && tail[2 * (i - 1) + 1] == s[2 * i + 1];
      }
    }
  }

  /** Round trip: `hex2bin(bin2hex(b)) === b`. */
  lemma {:induction false} DecodeEncode(b: seq<byte>)
    ensures Decode(Encode(b)) == Some(b)
  {
    if b != [] {
      var x := b[0] as nat;
      var s := Encode(b);
      assert s[2..] == Encode(b[1..]);
      DecodeEncode(b[1..]);
      assert DigitValue(s[0]) * 16 + DigitValue(s[1]) == x;
      assert [x as byte] + b[1..] == b;
    }
  }

  /** The other direction on the canonical (lower-case) alphabet: `bin2hex(hex2bin(s)) === s`. */
  lemma {:induction false} EncodeDecode(s: string)
    requires |s| % 2 == 0
    requires forall i :: 0 <= i < |s| ==> IsLowerHexDigit(s[i])
    ensures Decode(s).Some? && Encode(Decode(s).value) == s
  {
    if s != "" {
      var tail := s[2..];
      assert forall i :: 0 <= i < |tail| ==> tail[i] == s[i + 2];
      EncodeDecode(tail);
      var rest := Decode(tail).value;
      var hi, lo := DigitValue(s[0]), DigitValue(s[1]);
      var x := (hi * 16 + lo) as byte;
      DecodeStep(s);
      Nibbles(hi, lo);
      LowerDigitOf(s[0]);
      LowerDigitOf(s[1]);
      EncodeStep(x, rest);
      assert [s[0], s[1]] + tail == s;
    }
  }

  lemma DecodeStep(s: string)
    requires |s| >= 2 && IsHexDigit(s[0]) && IsHexDigit(s[1]) && Decode(s[2..]).Some?
    ensures Decode(s) == Some([(DigitValue(s[0]) * 16 + DigitValue(s[1])) as byte] + Decode(s[2..]).value)
  {
  }

  lemma EncodeStep(x: byte, rest: seq<byte>)
    ensures Encode([x] + rest) == [LowerDigit(x as nat / 16), LowerDigit(x as nat % 16)] + Encode(rest)
  {
    assert ([x] + rest)[1..] == rest;
  }

  lemma Nibbles(hi: nat, lo: nat)
    requires hi < 16 && lo < 16
    ensures (hi * 16 + lo) / 16 == hi && (hi * 16 + lo) % 16 == lo
  {
  }

  lemma LowerDigitOf(c: char)
    requires IsLowerHexDigit(c)
    ensures LowerDigit(DigitValue(c)) == c
  {
  }

  /** Encoding is injective, since it can be decoded. */
  lemma EncodeInjective(a: seq<byte>, b: seq<byte>)
    ensures Encode(a) == Encode(b) <==> a == b
  {
    DecodeEncode(a);
    DecodeEncode(b);
  }
}
