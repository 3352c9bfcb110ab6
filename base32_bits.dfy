/** The decoder read as bit packing: the 5-bit indices of the symbols, written big-endian
    one after another, are cut into bytes. Includes the unpadded RFC 4648 section 6 encoder
    as an independent reference, and the round trip through the decoder. */
module Base32Bits {
  import opened Ascii
  import opened Pow2Arith
  import opened Base32
  import Hex

  /** A character of the RFC 4648 Base32 alphabet. */
  predicate IsSymbol(c: char) {
    'A' <= c <= 'Z' || '2' <= c <= '7'
  }

  /** Every character is a symbol of the alphabet. */
  predicate IsAlphabet(s: string) {
    forall i :: 0 <= i < |s| ==> IsSymbol(s[i])
  }

  /** The 5-bit value of a symbol, in closed form. */
  function SymbolValue(c: char): (k: nat)
    requires IsSymbol(c)
    ensures k < 32
  {
    if 'A' <= c then c as int - 'A' as int else c as int - '2' as int + 26
  }

  /** The decoder's table lookup finds a symbol at its value... */
  lemma {:induction false} SymbolValueIsIndex(c: char)
    requires IsSymbol(c)
    ensures IndexOf(Chars, c) == SymbolValue(c)
  {
    var k := SymbolValue(c);
    SymbolCode(k);
    assert Chars[k] == c;
    IndexOfSymbol(k);
  }

  lemma {:induction false} AppendAssoc<T>(a: seq<T>, b: seq<T>, c: seq<T>)
    ensures a + (b + c) == (a + b) + c
  {
  }

  /** x modulo 2^n, written as n bits, most significant first. */
  function NatBits(x: nat, n: nat): (r: seq<bool>)
    ensures |r| == n
  {
    if n == 0 then [] else NatBits(x / 2, n - 1) + [x % 2 == 1]
  }

  /** The number a big-endian bit string denotes. */
  function BitsValue(b: seq<bool>): (v: nat)
    ensures v < Pow2(|b|)
  {
    if b == [] then 0 else 2 * BitsValue(b[..|b| - 1]) + (if b[|b| - 1] then 1 else 0)
  }

  lemma {:induction false} BitsValueOfNatBits(x: nat, n: nat)
    requires x < Pow2(n)
    ensures BitsValue(NatBits(x, n)) == x
  {
    if n > 0 {
      var b := NatBits(x, n);
      assert b == NatBits(x / 2, n - 1) + [x % 2 == 1];
      assert b[..n - 1] == NatBits(x / 2, n - 1) && b[n - 1] == (x % 2 == 1);
      assert x / 2 < Pow2(n - 1);
      BitsValueOfNatBits(x / 2, n - 1);
      assert BitsValue(b) == 2 * (x / 2) + x % 2;
    }
  }

  lemma {:induction false} NatBitsOfBitsValue(b: seq<bool>)
    ensures NatBits(BitsValue(b), |b|) == b
  {
    if b != [] {
      var init := b[..|b| - 1];
      var v := BitsValue(b);
      assert v / 2 == BitsValue(init) && v % 2 == (if b[|b| - 1] then 1 else 0);
      NatBitsOfBitsValue(init);
      assert init + [b[|b| - 1]] == b;
    }
  }

  /** Bits above and below position k concatenate. */
  lemma {:induction false} NatBitsUnfold(x: nat, n: nat)
    requires n > 0
    ensures NatBits(x, n) == NatBits(x / 2, n - 1) + [x % 2 == 1]
  {
  }

  /** Halving x * 2^k + y halves y and keeps y's lowest bit. */
  lemma {:induction false} HalveConcat(z: nat, x: nat, y: nat, k: nat)
    requires k > 0 && y < Pow2(k) && z == x * Pow2(k) + y
    ensures z / 2 == x * Pow2(k - 1) + y / 2 && z % 2 == y % 2 && y / 2 < Pow2(k - 1)
  {
    var p := Pow2(k - 1);
    assert x * Pow2(k) == 2 * (x * p);
    DivModUnique(z, 2, x * p + y / 2, y % 2);
  }

  lemma {:induction false} NatBitsConcat(z: nat, x: nat, y: nat, n: nat, k: nat)
    requires y < Pow2(k) && z == x * Pow2(k) + y
    ensures NatBits(z, n + k) == NatBits(x, n) + NatBits(y, k)
  {
    if k > 0 {
      HalveConcat(z, x, y, k);
      NatBitsConcat(z / 2, x, y / 2, n, k - 1);
      NatBitsUnfold(z, n + k);
      NatBitsUnfold(y, k);
      AppendAssoc(NatBits(x, n), NatBits(y / 2, k - 1), [y % 2 == 1]);
    }
  }

  /** Appending a 5-bit index below the pending bits appends its five bits. */
  lemma {:induction false} AppendIndexBits(value: nat, bits: nat, i: nat)
    requires i < 32
    ensures NatBits(value * 32 + i, bits + 5) == NatBits(value, bits) + NatBits(i, 5)
  {
    Pow2Small();
    NatBitsConcat(value * 32 + i, value, i, bits, 5);
  }

  /** The top eight of r + 8 bits are the quotient by 2^r. */
  lemma {:induction false} SplitTopByte(v: nat, r: nat)
    ensures NatBits(v, 8 + r) == NatBits(High(v, r), 8) + NatBits(Low(v, r), r)
  {
    LowHighSplit(v, r);
    NatBitsConcat(v, High(v, r), Low(v, r), 8, r);
  }

  /** The symbols' 5-bit indices, one after another. */
  function SymbolBits(s: string): (r: seq<bool>)
    requires IsAlphabet(s)
    ensures |r| == 5 * |s|
  {
    if s == [] then [] else SymbolBits(s[..|s| - 1]) + NatBits(SymbolValue(s[|s| - 1]), 5)
  }

  /** The bytes' bits, one byte after another. */
  function ByteBits(bs: seq<Byte>): (r: seq<bool>)
    ensures |r| == 8 * |bs|
  {
    if bs == [] then [] else ByteBits(bs[..|bs| - 1]) + NatBits(bs[|bs| - 1], 8)
  }

  lemma {:induction false} ByteBitsAt(bs: seq<Byte>, k: nat)
    requires k < |bs|
    ensures ByteBits(bs)[8 * k..8 * k + 8] == NatBits(bs[k], 8)
  {
    var init := bs[..|bs| - 1];
    if k < |bs| - 1 {
      ByteBitsAt(init, k);
      assert ByteBits(bs)[..8 * |init|] == ByteBits(init);
    }
  }

  lemma {:induction false} ByteBitsSnoc(bs: seq<Byte>, b: Byte)
    ensures ByteBits(bs + [b]) == ByteBits(bs) + NatBits(b, 8)
  {
    assert (bs + [b])[..|bs|] == bs;
  }

  lemma {:induction false} ByteFromBits(x: Byte, y: Byte)
    requires NatBits(x, 8) == NatBits(y, 8)
    ensures x == y
  {
    Pow2Small();
    BitsValueOfNatBits(x, 8);
    BitsValueOfNatBits(y, 8);
  }

  lemma {:induction false} ConcatSplit<T>(p: seq<T>, q: seq<T>, r: seq<T>, t: seq<T>)
    requires |p| == |r| && p + q == r + t
    ensures p == r && q == t
  {
    assert p == (p + q)[..|p|] && r == (r + t)[..|p|];
    assert q == (p + q)[|p|..] && t == (r + t)[|p|..];
  }

  lemma {:induction false} ByteBitsInjective(a: seq<Byte>, b: seq<Byte>)
    requires |a| == |b| && ByteBits(a) == ByteBits(b)
    ensures a == b
  {
    if a != [] {
      var n := |a|;
      var ia, ib, x, y := a[..n - 1], b[..n - 1], a[n - 1], b[n - 1];
      assert ByteBits(a) == ByteBits(ia) + NatBits(x, 8);
      assert ByteBits(b) == ByteBits(ib) + NatBits(y, 8);
      ConcatSplit(ByteBits(ia), NatBits(x, 8), ByteBits(ib), NatBits(y, 8));
      ByteBitsInjective(ia, ib);
      ByteFromBits(x, y);
      assert a == ia + [x] && b == ib + [y];
    }
  }

  /** A text extended by one character is over the alphabet exactly when the text and the
      character are, and then the character's five bits follow the text's. */
  lemma {:induction false} SymbolBitsSnoc(s: string, c: char)
    ensures IsAlphabet(s + [c]) <==> IsAlphabet(s) && IsSymbol(c)
    ensures IsAlphabet(s + [c]) ==> SymbolBits(s + [c]) == SymbolBits(s) + NatBits(SymbolValue(c), 5)
  {
    assert (s + [c])[..|s|] == s;
    assert (s + [c])[|s|] == c;
  }

  /** One symbol of value i fed to a decoder appends its five bits to the decoder's bits. */
  lemma {:induction false} FeedIsBitPacking(d: Decoder, i: nat)
    requires d.Valid() && i < 32
    ensures ByteBits(Feed(d, i).bytes) + NatBits(Feed(d, i).value, Feed(d, i).bits)
         == ByteBits(d.bytes) + NatBits(d.value, d.bits) + NatBits(i, 5)
  {
    var v := d.value * 32 + i;
    assert ShiftIn(d, i) == v;
    var x, y := ByteBits(d.bytes), NatBits(d.value, d.bits);
    assert x + NatBits(v, d.bits + 5) == x + y + NatBits(i, 5) by {
      AppendIndexBits(d.value, d.bits, i);
      AppendAssoc(x, y, NatBits(i, 5));
    }
    if d.bits + 5 >= 8 {
      var r := d.bits + 5 - 8;
      FeedEmits(d, i, v, r);
      EmitBits(d.bytes, v, r);
    } else {
      FeedKeeps(d, i, v);
    }
  }

  /** Emitting the top byte of r + 8 pending bits moves those eight bits, unchanged, from the
      pending bits to the completed bytes. */
  lemma {:induction false} EmitBits(bytes: seq<Byte>, v: nat, r: nat)
    requires v < Pow2(r + 8)
    ensures ByteBits(bytes + [ByteAbove(v, r)]) + NatBits(Low(v, r), r)
         == ByteBits(bytes) + NatBits(v, r + 8)
  {
    var b := ByteAbove(v, r);
    assert b == High(v, r) && r + 8 == 8 + r;
    SplitTopByte(v, r);
    ByteBitsSnoc(bytes, b);
    AppendAssoc(ByteBits(bytes), NatBits(b, 8), NatBits(Low(v, r), r));
  }

  /** For input over the alphabet, the decoder's state is the symbols' bits split into the
      completed bytes and the pending bits. */
  lemma {:induction false} RunIsBitPacking(s: string)
    requires IsAlphabet(s)
    ensures SymbolBits(s) == ByteBits(Run(s).bytes) + NatBits(Run(s).value, Run(s).bits)
  {
    if s != [] {
      var init, c := s[..|s| - 1], s[|s| - 1];
      assert s == init + [c];
      SymbolBitsSnoc(init, c);
      var d := Run(init);
      SymbolValueIsIndex(c);
      assert Run(s) == Feed(d, SymbolValue(c));
      RunIsBitPacking(init);
      FeedIsBitPacking(d, SymbolValue(c));
    } else {
      assert Run(s) == Decoder(0, 0, []);
    }
  }

  lemma {:induction false} PrefixOfConcat<T>(a: seq<T>, b: seq<T>)
    ensures (a + b)[..|a|] == a
  {
  }

  lemma {:induction false} SliceOfPrefix<T>(s: seq<T>, n: nat, i: nat, j: nat)
    requires i <= j <= n <= |s|
    ensures s[..n][i..j] == s[i..j]
  {
  }

  /** The bits of the completed bytes lead the symbols' bits. */
  lemma {:induction false} DecodeBitsPrefix(s: string)
    requires IsAlphabet(s)
    ensures 8 * |Decode(s)| <= 5 * |s|
    ensures SymbolBits(s)[..8 * |Decode(s)|] == ByteBits(Decode(s))
  {
    RunIsBitPacking(s);
    PrefixOfConcat(ByteBits(Run(s).bytes), NatBits(Run(s).value, Run(s).bits));
  }

  /** Output byte k is bits 8k .. 8k + 7 of the symbols' bits. */
  lemma {:induction false} DecodeIsBitPacking(s: string, k: nat)
    requires IsAlphabet(s) && k < |Decode(s)|
    ensures Decode(s)[k] == BitsValue(SymbolBits(s)[8 * k..8 * k + 8])
  {
    var bs := Decode(s);
    var sb := SymbolBits(s);
    assert sb[8 * k..8 * k + 8] == NatBits(bs[k], 8) by {
      DecodeBitsPrefix(s);
      SliceOfPrefix(sb, 8 * |bs|, 8 * k, 8 * k + 8);
      ByteBitsAt(bs, k);
    }
    assert BitsValue(NatBits(bs[k], 8)) == bs[k] by {
      Pow2Small();
      BitsValueOfNatBits(bs[k], 8);
    }
  }

  // ----- The reference encoder -----

  function Zeros(n: nat): (z: seq<bool>)
    ensures |z| == n && forall i :: 0 <= i < n ==> !z[i]
  {
    seq(n, _ => false)
  }

  /** The symbol of value k < 32, in closed form: the table entry at k. */
  function Symbol(k: nat): (c: char)
    requires k < 32
    ensures IsSymbol(c) && SymbolValue(c) == k
    ensures c == Chars[k]
  {
    SymbolCode(k);
    if k < 26 then ('A' as int + k) as char else ('2' as int + (k - 26)) as char
  }

  /** Each group of five bits, n groups in all, as its alphabet symbol. */
  function Symbols(b: seq<bool>, n: nat): (s: string)
    requires |b| == 5 * n
    ensures IsAlphabet(s) && |s| == n
  {
    if n == 0 then []
    else
      Pow2Small();
      Symbols(b[..|b| - 5], n - 1) + [Symbol(BitsValue(b[|b| - 5..]))]
  }

  /** Unpadded Base32 (RFC 4648 section 6): the bytes' bits, zero-filled to a multiple of
      five, one symbol per five bits. */
  function Encode(bs: seq<Byte>): (s: string)
    ensures IsAlphabet(s)
    ensures |s| == (8 * |bs| + 4) / 5
  {
    var bits := ByteBits(bs);
    var n := (|bits| + 4) / 5;
    Symbols(bits + Zeros(5 * n - |bits|), n)
  }

  /** A symbol made from five bits gives those five bits back. */
  lemma {:induction false} SymbolOfBits(last: seq<bool>)
    requires |last| == 5
    ensures BitsValue(last) < 32
    ensures NatBits(SymbolValue(Symbol(BitsValue(last))), 5) == last
  {
    Pow2Small();
    NatBitsOfBitsValue(last);
  }

  /** The last symbol of n groups stands for the last five bits. */
  lemma {:induction false} SymbolsUnfold(b: seq<bool>, n: nat)
    requires |b| == 5 * n && n > 0
    ensures BitsValue(b[|b| - 5..]) < 32
    ensures Symbols(b, n) == Symbols(b[..|b| - 5], n - 1) + [Symbol(BitsValue(b[|b| - 5..]))]
  {
    Pow2Small();
  }

  lemma {:induction false} SplitLast<T>(b: seq<T>, k: nat)
    requires k <= |b|
    ensures b[..|b| - k] + b[|b| - k..] == b
  {
  }

  /** One more symbol, carrying the given five bits, after symbols carrying the given bits. */
  lemma {:induction false} SymbolBitsAssemble(s0: string, c: char, init: seq<bool>, last: seq<bool>)
    requires IsAlphabet(s0) && IsSymbol(c)
    requires SymbolBits(s0) == init && NatBits(SymbolValue(c), 5) == last
    ensures IsAlphabet(s0 + [c]) && SymbolBits(s0 + [c]) == init + last
  {
    SymbolBitsSnoc(s0, c);
  }

  lemma {:induction false} SymbolBitsOfSymbols(b: seq<bool>, n: nat)
    requires |b| == 5 * n
    ensures SymbolBits(Symbols(b, n)) == b
  {
    if n > 0 {
      var init, last := b[..|b| - 5], b[|b| - 5..];
      SymbolsUnfold(b, n);
      var c := Symbol(BitsValue(last));
      SymbolOfBits(last);
      SymbolBitsOfSymbols(init, n - 1);
      SymbolBitsAssemble(Symbols(init, n - 1), c, init, last);
      SplitLast(b, 5);
    }
  }

  /** Encoded text is already clean. */
  lemma {:induction false} CleanOfAlphabet(s: string)
    requires IsAlphabet(s)
    ensures Clean(s) == s
  {
    assert forall i :: 0 <= i < |s| ==> !IsSpace(s[i]) && !IsLower(s[i]);
    RemoveSpacesOfNoSpaces(s);
    assert s != [] ==> s[|s| - 1] != '=';
    assert StripTrailingPad(s) == s;
    var u := ToUpper(s);
    assert |u| == |s| && forall i :: 0 <= i < |s| ==> u[i] == s[i];
  }

  /** The encoding's symbols carry the bytes' bits followed by the zero fill. */
  lemma {:induction false} EncodeBits(bs: seq<Byte>)
    ensures 8 * |bs| <= 5 * |Encode(bs)| < 8 * |bs| + 5
    ensures SymbolBits(Encode(bs)) == ByteBits(bs) + Zeros(5 * |Encode(bs)| - 8 * |bs|)
  {
    var bits := ByteBits(bs);
    var n := (|bits| + 4) / 5;
    SymbolBitsOfSymbols(bits + Zeros(5 * n - |bits|), n);
  }

  /** Decoding undoes unpadded Base32 encoding. */
  lemma {:induction false} DecodeEncode(bs: seq<Byte>)
    ensures Decode(Clean(Encode(bs))) == bs
  {
    var s := Encode(bs);
    var out := Decode(s);
    EncodeBits(bs);
    assert |out| == |bs|;
    assert ByteBits(out) == ByteBits(bs) by {
      DecodeBitsPrefix(s);
      PrefixOfConcat(ByteBits(bs), Zeros(5 * |s| - 8 * |bs|));
    }
    ByteBitsInjective(out, bs);
    CleanOfAlphabet(s);
  }

  /** Passing the Base32 encoding of some bytes, with or without `=` padding, through the
      decoder gives the hexadecimal form of those bytes. */
  lemma {:induction false} DecodeToHexOfEncoding(bs: seq<Byte>, n: nat)
    ensures DecodeToHex(Encode(bs) + Padding(n)) == Hex.Encode(bs)
  {
    TrailingPaddingIgnored(Encode(bs), n);
    DecodeEncode(bs);
  }
}
