/** Bytes written as two lowercase hexadecimal digits, the way the decoder emits them
    with `byte.toString(16).padStart(2, '0')`, and the reader that undoes it. */
module Hex {
  import opened Wrappers

  type Byte = x: nat | x < 256

  const Digits: string := "0123456789abcdef"

  predicate IsHexDigit(c: char) { '0' <= c <= '9' || 'a' <= c <= 'f' }

  function Digit(d: nat): (c: char)
    requires d < 16
    ensures IsHexDigit(c)
  {
    Digits[d]
  }

  /** The value of a lowercase hexadecimal digit, None for any other character. */
  function DigitValue(c: char): (v: Option<nat>)
    ensures v.Some? <==> IsHexDigit(c)
    ensures v.Some? ==> v.value < 16 && Digit(v.value) == c
  {
    if '0' <= c <= '9' then Some(c as int - '0' as int)
    else if 'a' <= c <= 'f' then Some(c as int - 'a' as int + 10)
    else None
  }

  lemma {:induction false} DigitValueOfDigit(d: nat)
    requires d < 16
    ensures DigitValue(Digit(d)) == Some(d)
  {
  }

  /** `n.toString(16)`: the shortest lowercase base-16 numeral of n. */
  function ToString16(n: nat): (r: string)
    ensures |r| >= 1 && (|r| == 1 <==> n < 16)
    ensures forall i :: 0 <= i < |r| ==> IsHexDigit(r[i])
  {
    if n < 16 then [Digit(n)] else ToString16(n / 16) + [Digit(n % 16)]
  }

  /** `s.padStart(len, '0')`. */
  function PadStart(s: string, len: nat): (r: string)
    ensures |r| == if |s| >= len then |s| else len
    ensures r[|r| - |s|..] == s
    ensures forall i :: 0 <= i < |r| - |s| ==> r[i] == '0'
  {
    if |s| >= len then s else seq(len - |s|, _ => '0') + s
  }

  /** One byte, as `byte.toString(16).padStart(2, '0')` writes it: always exactly the
      high and the low hexadecimal digit, zero-padded. */
  function ByteToHex(b: Byte): (r: string)
    ensures r == [Digit(b / 16), Digit(b % 16)]
  {
    var s := ToString16(b);
    assert b < 16 ==> s == [Digit(b)] && b / 16 == 0 && Digit(0) == '0';
    assert b >= 16 ==> s == ToString16(b / 16) + [Digit(b % 16)] && ToString16(b / 16) == [Digit(b / 16)];
    PadStart(s, 2)
  }

  /** The bytes written one after another, in order. */
  function Encode(bs: seq<Byte>): (r: string)
    ensures |r| == 2 * |bs|
  {
    if bs == [] then [] else Encode(bs[..|bs| - 1]) + ByteToHex(bs[|bs| - 1])
  }

  /** Every character written is a lowercase hexadecimal digit. */
  lemma {:induction false} EncodeIsHex(bs: seq<Byte>)
    ensures forall i :: 0 <= i < |Encode(bs)| ==> IsHexDigit(Encode(bs)[i])
  {
    if bs != [] {
      var init := bs[..|bs| - 1];
      EncodeIsHex(init);
      var x, y := Encode(init), ByteToHex(bs[|bs| - 1]);
      assert Encode(bs) == x + y;
      forall i | 0 <= i < |x + y| ensures IsHexDigit((x + y)[i]) {
        if i >= |x| {
          assert (x + y)[i] == y[i - |x|];
        }
      }
    }
  }

  lemma {:induction false} EncodeSnoc(bs: seq<Byte>, b: Byte)
    ensures Encode(bs + [b]) == Encode(bs) + ByteToHex(b)
  {
    assert (bs + [b])[..|bs|] == bs;
  }

  /** Reads a hexadecimal string back into bytes; None when its length is odd or a
      character is not a lowercase hexadecimal digit. */
  function Decode(h: string): (r: Option<seq<Byte>>)
    ensures r.Some? ==> 2 * |r.value| == |h|
  {
    if h == [] then Some([])
    else if |h| == 1 then None
    else Join(Decode(h[..|h| - 2]), DigitValue(h[|h| - 2]), DigitValue(h[|h| - 1]))
  }

  /** The bytes read so far followed by the byte of one more pair of digits. */
  function Join(init: Option<seq<Byte>>, hi: Option<nat>, lo: Option<nat>): (r: Option<seq<Byte>>)
    requires hi.Some? ==> hi.value < 16
    requires lo.Some? ==> lo.value < 16
  {
    if init.Some? && hi.Some? && lo.Some? then Some(init.value + [hi.value * 16 + lo.value])
    else None
  }

  /** One more byte after the bytes read so far. */
  lemma {:induction false} JoinSome(r: Option<seq<Byte>>, hi: nat, lo: nat)
    requires hi < 16 && lo < 16
    ensures Join(r, Some(hi), Some(lo)) == if r.Some? then Some(r.value + [hi * 16 + lo]) else None
  {
  }

  /** Reading two more digits appends the byte they denote. */
  lemma {:induction false} DecodePair(h: string, t: string, x: char, y: char, hi: nat, lo: nat)
    requires t == h + [x, y]
    requires DigitValue(x) == Some(hi) && DigitValue(y) == Some(lo)
    ensures Decode(t) == Join(Decode(h), Some(hi), Some(lo))
  {
    assert |t| == |h| + 2 && t[..|t| - 2] == h && t[|t| - 2] == x && t[|t| - 1] == y;
  }

  /** Reading one more pair of digits appends the byte they denote. */
  lemma {:induction false} DecodeSnoc(h: string, b: Byte)
    ensures Decode(h + ByteToHex(b)) == if Decode(h).Some? then Some(Decode(h).value + [b]) else None
  {
    var hi, lo := b / 16, b % 16;
    var t := h + ByteToHex(b);
    assert t == h + [Digit(hi), Digit(lo)];
    DigitValueOfDigit(hi);
    DigitValueOfDigit(lo);
    DecodePair(h, t, Digit(hi), Digit(lo), hi, lo);
    JoinSome(Decode(h), hi, lo);
    assert hi * 16 + lo == b;
  }

  /** Writing bytes as hexadecimal loses nothing. */
  lemma {:induction false} DecodeEncode(bs: seq<Byte>)
    ensures Decode(Encode(bs)) == Some(bs)
  {
    if bs != [] {
      var init, b := bs[..|bs| - 1], bs[|bs| - 1];
      assert bs == init + [b];
      assert Encode(bs) == Encode(init) + ByteToHex(b);
      DecodeEncode(init);
      DecodeSnoc(Encode(init), b);
    }
  }

  lemma {:induction false} EncodeInjective(a: seq<Byte>, b: seq<Byte>)
    requires Encode(a) == Encode(b)
    ensures a == b
  {
    DecodeEncode(a);
    DecodeEncode(b);
  }
}
