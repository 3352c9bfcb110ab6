/** The Base32-to-hex decoder that feeds every TOTP login: the secret is cleaned (all
    whitespace removed, a trailing run of `=` removed, upper-cased), then every
    character's 5-bit alphabet index is shifted into an accumulator and each completed
    byte is written as two lowercase hexadecimal digits. */
module Base32 {
  import opened Ascii
  import opened Pow2Arith
  import Hex

  type Byte = Hex.Byte

  /** The RFC 4648 section 6 alphabet; a symbol's position is its 5-bit value. */
  const Chars: string := "ABCDEFGHIJKLMNOPQRSTUVWXYZ234567"

  /** `s.indexOf(c)`: the first position of c in s, or -1 when c does not occur. */
  function IndexOf(s: string, c: char): (i: int)
    ensures -1 <= i < |s|
  {
    if s == [] then -1
    else if s[0] == c then 0
    else
      var j := IndexOf(s[1..], c);
      if j == -1 then -1 else j + 1
  }

  /** `indexOf` finds the first occurrence, and -1 exactly when there is none. */
  lemma {:induction false} IndexOfSpec(s: string, c: char)
    ensures var i := IndexOf(s, c);
      (0 <= i ==> s[i] == c && c !in s[..i]) && (i == -1 <==> c !in s)
  {
    if s != [] && s[0] != c {
      IndexOfSpec(s[1..], c);
      var j := IndexOf(s[1..], c);
      assert j >= 0 ==> s[..j + 1] == [s[0]] + s[1..][..j];
      assert s == [s[0]] + s[1..];
    }
  }

  /** The alphabet is `A`..`Z` followed by `2`..`7`. */
  lemma {:induction false} SymbolCode(k: nat)
    requires k < 32
    ensures Chars[k] as int == if k < 26 then 'A' as int + k else '2' as int + (k - 26)
  {
  }

  /** `CHARS.indexOf(CHARS[k])` is k: the symbols are distinct. */
  lemma {:induction false} IndexOfSymbol(k: nat)
    requires k < 32
    ensures IndexOf(Chars, Chars[k]) == k
  {
    var i := IndexOf(Chars, Chars[k]);
    IndexOfSpec(Chars, Chars[k]);
    SymbolCode(k);
    SymbolCode(i);
  }

  // ----- Cleaning: `base32.replace(/\s/g, '').replace(/=+$/, '').toUpperCase()` -----

  /** `s.replace(/\s/g, '')`: every whitespace character removed. */
  function RemoveSpaces(s: string): (r: string)
    ensures |r| <= |s|
    ensures forall i :: 0 <= i < |r| ==> !IsSpace(r[i])
  {
    if s == [] then [] else (if IsSpace(s[0]) then [] else [s[0]]) + RemoveSpaces(s[1..])
  }

  /** `s.replace(/=+$/, '')`: the longest suffix made only of `=` removed. */
  function StripTrailingPad(s: string): (r: string)
    ensures |r| <= |s| && r == s[..|r|]
    ensures forall k :: |r| <= k < |s| ==> s[k] == '='
    ensures r == [] || r[|r| - 1] != '='
  {
    if s != [] && s[|s| - 1] == '=' then StripTrailingPad(s[..|s| - 1]) else s
  }

  /** The text the decoding loop walks: no whitespace, no lowercase letter, and not
      ending with `=`. */
  function Clean(s: string): (r: string)
    ensures |r| <= |s|
    ensures forall i :: 0 <= i < |r| ==> !IsSpace(r[i]) && !IsLower(r[i])
    ensures r == [] || r[|r| - 1] != '='
  {
    ToUpper(StripTrailingPad(RemoveSpaces(s)))
  }

  // ----- Decoding, with the accumulator reduced to its pending bits -----

  /** The decoder between two characters: `bits` pending bits whose value is `value`,
      and the bytes completed so far. */
  datatype Decoder = Decoder(bits: nat, value: nat, bytes: seq<Byte>) {
    ghost predicate Valid() { bits <= 7 && value < Pow2(bits) }
  }

  /** The pending bits after `value = (value << 5) | i` where i is `CHARS.indexOf(c)`: a
      symbol's index is appended below them, and a character outside the alphabet (index -1)
      sets them all. */
  function ShiftIn(d: Decoder, i: int): (v: nat)
    requires d.Valid() && -1 <= i < 32
    ensures v < Pow2(d.bits + 5)
  {
    Pow2Plus5(d.bits);
    if i < 0 then Pow2(d.bits + 5) - 1 else d.value * 32 + i
  }

  /** Bits r .. r + 7 of v, for v below 2^(r + 8). */
  function ByteAbove(v: nat, r: nat): (b: Byte)
    requires v < Pow2(r + 8)
  {
    Pow2Plus8(r);
    LowHigh(v, r);
    DivBelow(v, Pow2(r), 256);
    High(v, r)
  }

  /** One iteration of the loop for a character of index i: five more bits, and at most
      one byte. */
  function Feed(d: Decoder, i: int): (e: Decoder)
    requires d.Valid() && -1 <= i < 32
    ensures e.Valid()
    ensures e.bits == (d.bits + 5) % 8
    ensures |e.bytes| == |d.bytes| + (if d.bits + 5 >= 8 then 1 else 0)
    ensures e.bytes[..|d.bytes|] == d.bytes
  {
    var bits := d.bits + 5;
    var v := ShiftIn(d, i);
    if bits >= 8 then
      var r := bits - 8;
      assert r + 8 == bits && bits % 8 == r;
      assert (d.bytes + [ByteAbove(v, r)])[..|d.bytes|] == d.bytes;
      Decoder(r, Low(v, r), d.bytes + [ByteAbove(v, r)])
    else
      Decoder(bits, v, d.bytes)
  }

  /** An iteration that completes a byte. */
  lemma {:induction false} FeedEmits(d: Decoder, i: int, v: nat, r: nat)
    requires d.Valid() && -1 <= i < 32 && ShiftIn(d, i) == v && d.bits + 5 == r + 8
    ensures v < Pow2(r + 8)
    ensures Feed(d, i) == Decoder(r, Low(v, r), d.bytes + [ByteAbove(v, r)])
  {
  }

  /** An iteration that completes no byte. */
  lemma {:induction false} FeedKeeps(d: Decoder, i: int, v: nat)
    requires d.Valid() && -1 <= i < 32 && ShiftIn(d, i) == v && d.bits + 5 < 8
    ensures Feed(d, i) == Decoder(d.bits + 5, v, d.bytes)
  {
  }

  /** The decoder after the loop has consumed s. */
  function Run(s: string): (d: Decoder)
    ensures d.Valid()
    ensures 8 * |d.bytes| + d.bits == 5 * |s|
  {
    if s == [] then Decoder(0, 0, []) else Feed(Run(s[..|s| - 1]), IndexOf(Chars, s[|s| - 1]))
  }

  /** The bytes a cleaned secret decodes to. */
  function Decode(clean: string): seq<Byte>
  {
    Run(clean).bytes
  }

  /** What `base32ToHex` returns for `base32`. */
  function DecodeToHex(base32: string): string
  {
    Hex.Encode(Decode(Clean(base32)))
  }

  // ----- The loop as written: `value` is a 32-bit integer that is never masked -----

  /** `(value << 5) | i` on the 32-bit pattern of `value`, for -1 <= i < 32:
      JavaScript's `<<` wraps at 32 bits, and OR-ing -1 sets every bit. */
  function ShiftLeft5Or(value: nat, i: int): nat
    requires -1 <= i < 32
  {
    if i < 0 then 0x1_0000_0000 - 1 else (value * 32) % 0x1_0000_0000 + i
  }

  /** `(value >>> k) & 0xff`. */
  function ByteAt(value: nat, k: nat): Byte
  {
    High(value, k) % 256
  }

  /** A 32-bit pattern with every bit set has every one of its low k bits set. */
  lemma {:induction false} AllOnesLow(k: nat)
    requires k <= 32
    ensures (0x1_0000_0000 - 1) % Pow2(k) == Pow2(k) - 1
  {
    Pow2Split(k, 32);
    Pow2Of32();
    JustBelowMultiple(Pow2(k), Pow2(32 - k), 0x1_0000_0000);
  }

  /** A multiple of c leaves no remainder by c. */
  lemma {:induction false} MultipleMod(a: int, c: int)
    requires c > 0
    ensures (a * c) % c == 0
  {
    DivModUnique(a * c, c, a, 0);
  }

  /** `value << 5` wraps at 32 bits, which touches none of the low `bits + 5` bits. */
  lemma {:induction false} ShiftLow(raw: nat, bits: nat, pending: nat)
    requires bits <= 7 && raw % Pow2(bits) == pending
    ensures ((raw * 32) % 0x1_0000_0000) % Pow2(bits + 5) == pending * 32
    ensures ((raw * 32) % 0x1_0000_0000) % 32 == 0
  {
    var x, bigM := raw * 32, 0x1_0000_0000;
    var p, m, n := Pow2(bits), Pow2(bits + 5), Pow2(32 - (bits + 5));
    assert m == p * 32 by {
      Pow2Plus5(bits);
    }
    assert x % m == pending * 32 by {
      ScaleMod(raw, p, 32);
    }
    assert m * n == bigM by {
      Pow2Split(bits + 5, 32);
      Pow2Of32();
    }
    ModOfMod(x, m, n);
    assert (x % bigM) % 32 == 0 by {
      assert 32 * 0x800_0000 == bigM;
      ModOfMod(x, 32, 0x800_0000);
      MultipleMod(raw, 32);
    }
  }

  /** The 32-bit `(value << 5) | i`, reduced modulo 2^(bits + 5). */
  lemma {:induction false} ShiftInMod(raw: nat, bits: nat, pending: nat, i: int)
    requires raw < 0x1_0000_0000 && bits <= 7 && raw % Pow2(bits) == pending
    requires -1 <= i < 32
    ensures ShiftLeft5Or(raw, i) < 0x1_0000_0000
    ensures ShiftLeft5Or(raw, i) % Pow2(bits + 5) == if i < 0 then Pow2(bits + 5) - 1 else pending * 32 + i
  {
    if i < 0 {
      AllOnesLow(bits + 5);
    } else {
      ShiftLow(raw, bits, pending);
      var y := (raw * 32) % 0x1_0000_0000;
      assert y < 0x1_0000_0000 && y % 32 == 0;
      assert y + i < 0x1_0000_0000;
      Pow2Plus5(bits);
      AddToRemainder((raw * 32) % 0x1_0000_0000, Pow2(bits + 5), i);
    }
  }

  /** `(value << 5) | CHARS.indexOf(c)` on the 32-bit pattern of `value` keeps the pending
      bits of the reduced decoder in its low `bits + 5` bits. */
  lemma {:induction false} ShiftInAgrees(raw: nat, bits: nat, pending: nat, i: int)
    requires raw < 0x1_0000_0000 && bits <= 7 && Low(raw, bits) == pending
    requires -1 <= i < 32
    ensures ShiftLeft5Or(raw, i) < 0x1_0000_0000
    ensures Low(ShiftLeft5Or(raw, i), bits + 5) == if i < 0 then Pow2(bits + 5) - 1 else pending * 32 + i
  {
    assert raw % Pow2(bits) == pending by {
      LowHigh(raw, bits);
    }
    ShiftInMod(raw, bits, pending, i);
    LowHigh(ShiftLeft5Or(raw, i), bits + 5);
  }

  /** `(value >>> (bits - 8)) & 0xff` is the byte the reduced decoder emits, and the bits
      left below it agree too. */
  lemma {:induction false} EmitAgrees(raw: nat, bits: nat, pending: nat)
    requires 8 <= bits <= 12 && Low(raw, bits) == pending
    ensures High(raw, bits - 8) % 256 == High(pending, bits - 8)
    ensures Low(raw, bits - 8) == Low(pending, bits - 8)
  {
    var r := bits - 8;
    var m := Pow2(r);
    assert (raw / m) % 256 == pending / m && raw % m == pending % m by {
      LowHigh(raw, bits);
      Pow2Plus8(r);
      DivThenMod(raw, m, 256);
      ModOfMod(raw, m, 256);
    }
    LowHigh(raw, r);
    LowHigh(pending, r);
  }

  /** The loop's `bits` and 32-bit `value` agree with the reduced decoder d. */
  ghost predicate Agrees(d: Decoder, bits: nat, value: nat) {
    value < 0x1_0000_0000 && bits == d.bits && Low(value, bits) == d.value
  }

  /** An iteration of the loop as written that completes a byte keeps the agreement and
      emits the reduced decoder's next byte. */
  lemma {:induction false} AgreesEmit(d: Decoder, i: int, bits: nat, value: nat)
    requires d.Valid() && Agrees(d, bits, value) && bits + 5 >= 8 && -1 <= i < 32
    ensures Agrees(Feed(d, i), bits + 5 - 8, ShiftLeft5Or(value, i))
    ensures Feed(d, i).bytes == d.bytes + [ByteAt(ShiftLeft5Or(value, i), bits + 5 - 8)]
  {
    var v, shifted, r := ShiftIn(d, i), ShiftLeft5Or(value, i), bits + 5 - 8;
    ShiftInAgrees(value, d.bits, d.value, i);
    assert Low(shifted, bits + 5) == v;
    FeedEmits(d, i, v, r);
    EmitAgrees(shifted, bits + 5, v);
    assert ByteAt(shifted, r) == ByteAbove(v, r);
  }

  /** An iteration of the loop as written that completes no byte keeps the agreement and
      emits nothing. */
  lemma {:induction false} AgreesKeep(d: Decoder, i: int, bits: nat, value: nat)
    requires d.Valid() && Agrees(d, bits, value) && bits + 5 < 8 && -1 <= i < 32
    ensures Agrees(Feed(d, i), bits + 5, ShiftLeft5Or(value, i))
    ensures Feed(d, i).bytes == d.bytes
  {
    var v := ShiftIn(d, i);
    ShiftInAgrees(value, d.bits, d.value, i);
    assert Low(ShiftLeft5Or(value, i), bits + 5) == v;
    FeedKeeps(d, i, v);
  }

  /** The decoder after one more character of the loop's input. */
  lemma {:induction false} RunSnoc(clean: string, n: nat)
    requires n < |clean|
    ensures Run(clean[..n + 1]) == Feed(Run(clean[..n]), IndexOf(Chars, clean[n]))
  {
    assert clean[..n + 1][..n] == clean[..n];
  }

  /** One iteration of the loop as written, on the hexadecimal text emitted so far: the
      agreement is kept and the text grows by the reduced decoder's next byte, if any. */
  lemma {:induction false} AbsorbAgrees(d: Decoder, i: int, bits: nat, value: nat, hex: string)
    requires d.Valid() && -1 <= i < 32
    requires Agrees(d, bits, value) && hex == Hex.Encode(d.bytes)
    ensures bits + 5 >= 8 ==>
      Agrees(Feed(d, i), bits + 5 - 8, ShiftLeft5Or(value, i))
      && Hex.Encode(Feed(d, i).bytes) == hex + Hex.ByteToHex(ByteAt(ShiftLeft5Or(value, i), bits + 5 - 8))
    ensures bits + 5 < 8 ==>
      Agrees(Feed(d, i), bits + 5, ShiftLeft5Or(value, i)) && Hex.Encode(Feed(d, i).bytes) == hex
  {
    if bits + 5 >= 8 {
      AgreesEmit(d, i, bits, value);
      Hex.EncodeSnoc(d.bytes, ByteAt(ShiftLeft5Or(value, i), bits + 5 - 8));
    } else {
      AgreesKeep(d, i, bits, value);
    }
  }

  /** The body of the loop for one character of alphabet index i (-1 outside it):
      `value = (value << 5) | i; bits += 5; if (bits >= 8) { hex += ...; bits -= 8; }`. */
  method Absorb(ghost d: Decoder, i: int, bits: nat, value: nat, hex: string)
    returns (bits': nat, value': nat, hex': string)
    requires d.Valid() && -1 <= i < 32
    requires Agrees(d, bits, value) && hex == Hex.Encode(d.bytes)
    ensures Agrees(Feed(d, i), bits', value') && hex' == Hex.Encode(Feed(d, i).bytes)
  {
    AbsorbAgrees(d, i, bits, value, hex);
    value' := ShiftLeft5Or(value, i);
    bits' := bits + 5;
    hex' := hex;
    if bits' >= 8 {
      hex' := hex' + Hex.ByteToHex(ByteAt(value', bits' - 8));
      bits' := bits' - 8;
    }
  }

  /** `base32ToHex`. */
  method Base32ToHex(base32: string) returns (hex: string)
    ensures hex == DecodeToHex(base32)
  {
    var clean := Clean(base32);
    var bits: nat, value: nat := 0, 0;
    hex := "";
    var n := 0;
    assert clean[..0] == [];
    while n < |clean|
      invariant n <= |clean|
      invariant Agrees(Run(clean[..n]), bits, value) && hex == Hex.Encode(Run(clean[..n]).bytes)
    {
      var i := IndexOf(Chars, clean[n]);
      RunSnoc(clean, n);
      bits, value, hex := Absorb(Run(clean[..n]), i, bits, value, hex);
      n := n + 1;
    }
    assert clean[..n] == clean;
  }

  // ----- What the decoder promises -----

  /** n cleaned characters give exactly 2 * floor(5n / 8) hexadecimal digits: leftover
      bits are dropped, so the empty secret gives "". */
  lemma {:induction false} OutputLength(base32: string)
    ensures |Decode(Clean(base32))| == 5 * |Clean(base32)| / 8
    ensures |DecodeToHex(base32)| == 2 * (5 * |Clean(base32)| / 8)
    ensures Clean(base32) == [] ==> DecodeToHex(base32) == []
  {
  }

  /** The output is an even-length string of lowercase hexadecimal digits. */
  lemma {:induction false} OutputIsLowerHex(base32: string)
    ensures |DecodeToHex(base32)| == 2 * |Decode(Clean(base32))|
    ensures forall i :: 0 <= i < |DecodeToHex(base32)| ==> Hex.IsHexDigit(DecodeToHex(base32)[i])
  {
    Hex.EncodeIsHex(Decode(Clean(base32)));
  }

  /** A character outside the alphabet (index -1) makes `value` all ones: every pending bit
      and the five new ones are set, and a byte completed by it is 0xff. */
  lemma {:induction false} InvalidCharSetsAllBits(d: Decoder)
    requires d.Valid()
    ensures Feed(d, -1).value == Pow2(Feed(d, -1).bits) - 1
    ensures d.bits + 5 >= 8 ==> Feed(d, -1).bytes == d.bytes + [255]
  {
    var bits := d.bits + 5;
    var v := ShiftIn(d, -1);
    if bits >= 8 {
      var r := bits - 8;
      assert Low(v, r) == Pow2(r) - 1 && High(v, r) == 255 by {
        Pow2Plus8(r);
        JustBelowMultiple(Pow2(r), 256, Pow2(bits));
        DivModUnique(v, Pow2(r), 255, Pow2(r) - 1);
        LowHigh(v, r);
      }
      assert Feed(d, -1) == Decoder(r, Low(v, r), d.bytes + [ByteAbove(v, r)]);
    }
  }

  /** A secret made only of characters outside the alphabet decodes to 0xff bytes. */
  lemma {:induction false} InvalidOnlyDecodesToOnes(s: string)
    requires forall i :: 0 <= i < |s| ==> s[i] !in Chars
    ensures Run(s).value == Pow2(Run(s).bits) - 1
    ensures forall k :: 0 <= k < |Decode(s)| ==> Decode(s)[k] == 255
  {
    if s != [] {
      var init := s[..|s| - 1];
      InvalidOnlyDecodesToOnes(init);
      var d := Run(init);
      assert IndexOf(Chars, s[|s| - 1]) == -1 by {
        IndexOfSpec(Chars, s[|s| - 1]);
      }
      assert Run(s) == Feed(d, -1);
      InvalidCharSetsAllBits(d);
      assert Decode(init) == d.bytes;
      if d.bits + 5 < 8 {
        assert Run(s).bytes == d.bytes;
      } else {
        assert Run(s).bytes == d.bytes + [255];
      }
    } else {
      assert Run(s) == Decoder(0, 0, []);
    }
  }

  // ----- What cleaning promises -----

  /** Removing whitespace works piece by piece. */
  lemma {:induction false} RemoveSpacesConcat(a: string, b: string)
    ensures RemoveSpaces(a + b) == RemoveSpaces(a) + RemoveSpaces(b)
  {
    if a == [] {
      assert a + b == b;
    } else {
      assert (a + b)[1..] == a[1..] + b;
      RemoveSpacesConcat(a[1..], b);
    }
  }

  /** A text without whitespace is kept whole. */
  lemma {:induction false} RemoveSpacesOfNoSpaces(s: string)
    requires forall i :: 0 <= i < |s| ==> !IsSpace(s[i])
    ensures RemoveSpaces(s) == s
  {
    if s != [] {
      RemoveSpacesOfNoSpaces(s[1..]);
    }
  }

  /** A text of whitespace only is removed whole. */
  lemma {:induction false} RemoveSpacesOfSpaces(w: string)
    requires forall i :: 0 <= i < |w| ==> IsSpace(w[i])
    ensures RemoveSpaces(w) == []
  {
    if w != [] {
      RemoveSpacesOfSpaces(w[1..]);
    }
  }

  /** Whitespace inserted anywhere never changes the output. */
  lemma {:induction false} WhitespaceIgnored(a: string, w: string, b: string)
    requires forall i :: 0 <= i < |w| ==> IsSpace(w[i])
    ensures Clean(a + w + b) == Clean(a + b)
    ensures DecodeToHex(a + w + b) == DecodeToHex(a + b)
  {
    RemoveSpacesConcat(a + w, b);
    RemoveSpacesConcat(a, w);
    RemoveSpacesConcat(a, b);
    RemoveSpacesOfSpaces(w);
    assert RemoveSpaces(a) + [] == RemoveSpaces(a);
  }

  lemma {:induction false} ToUpperConcat(a: string, b: string)
    ensures ToUpper(a + b) == ToUpper(a) + ToUpper(b)
  {
  }

  lemma {:induction false} UpperCommutesWithRemoveSpaces(s: string)
    ensures ToUpper(RemoveSpaces(s)) == RemoveSpaces(ToUpper(s))
  {
    if s != [] {
      UpperCommutesWithRemoveSpaces(s[1..]);
      var head := if IsSpace(s[0]) then [] else [s[0]];
      ToUpperConcat(head, RemoveSpaces(s[1..]));
      assert ToUpper(s)[1..] == ToUpper(s[1..]);
    }
  }

  lemma {:induction false} UpperCommutesWithStrip(x: string)
    ensures ToUpper(StripTrailingPad(x)) == StripTrailingPad(ToUpper(x))
    decreases |x|
  {
    if x != [] {
      var init := x[..|x| - 1];
      assert ToUpper(x)[..|x| - 1] == ToUpper(init);
      if x[|x| - 1] == '=' {
        UpperCommutesWithStrip(init);
      }
    }
  }

  /** Cleaning upper-cases first or last alike. */
  lemma {:induction false} CleanOfUpper(s: string)
    ensures Clean(s) == StripTrailingPad(RemoveSpaces(ToUpper(s)))
  {
    UpperCommutesWithStrip(RemoveSpaces(s));
    UpperCommutesWithRemoveSpaces(s);
  }

  /** Changing the case of letters never changes the output. */
  lemma {:induction false} CaseIgnored(s: string, t: string)
    requires ToUpper(s) == ToUpper(t)
    ensures Clean(s) == Clean(t)
    ensures DecodeToHex(s) == DecodeToHex(t)
  {
    CleanOfUpper(s);
    CleanOfUpper(t);
  }

  function Padding(n: nat): (p: string)
    ensures |p| == n && forall i :: 0 <= i < n ==> p[i] == '='
  {
    seq(n, _ => '=')
  }

  lemma {:induction false} StripPadding(x: string, n: nat)
    ensures StripTrailingPad(x + Padding(n)) == StripTrailingPad(x)
  {
    if n > 0 {
      var y := x + Padding(n);
      assert y[..|y| - 1] == x + Padding(n - 1);
      StripPadding(x, n - 1);
    } else {
      assert x + Padding(0) == x;
    }
  }

  /** Appending any number of `=` never changes the output. */
  lemma {:induction false} TrailingPaddingIgnored(s: string, n: nat)
    ensures Clean(s + Padding(n)) == Clean(s)
    ensures DecodeToHex(s + Padding(n)) == DecodeToHex(s)
  {
    RemoveSpacesConcat(s, Padding(n));
    RemoveSpacesOfNoSpaces(Padding(n));
    StripPadding(RemoveSpaces(s), n);
  }

  lemma {:induction false} RemoveSpacesKeeps(s: string, k: nat) returns (j: nat)
    requires k < |s| && !IsSpace(s[k])
    ensures j < |RemoveSpaces(s)| && RemoveSpaces(s)[j] == s[k]
  {
    if k == 0 {
      j := 0;
    } else {
      var j' := RemoveSpacesKeeps(s[1..], k - 1);
      j := if IsSpace(s[0]) then j' else j' + 1;
    }
  }

  /** Only `=` characters after the last other character are stripped. */
  lemma {:induction false} StripKeepsBefore(x: string, p: nat, m: nat)
    requires p < m < |x| && x[m] != '='
    ensures p < |StripTrailingPad(x)| && StripTrailingPad(x)[p] == x[p]
  {
  }

  /** Cleaning upper-cases what stripping left, position by position. */
  lemma {:induction false} CleanAt(s: string, p: nat)
    requires p < |StripTrailingPad(RemoveSpaces(s))|
    ensures p < |Clean(s)| && Clean(s)[p] == Upper(StripTrailingPad(RemoveSpaces(s))[p])
  {
  }

  lemma {:induction false} InnerPaddingSurvivesStrip(a: string, b: string, k: nat)
    requires k < |b| && !IsSpace(b[k]) && b[k] != '='
    ensures |RemoveSpaces(a)| < |StripTrailingPad(RemoveSpaces(a + "=" + b))|
    ensures StripTrailingPad(RemoveSpaces(a + "=" + b))[|RemoveSpaces(a)|] == '='
  {
    var ra, rb := RemoveSpaces(a), RemoveSpaces(b);
    var a1 := a + "=";
    var x := RemoveSpaces(a1 + b);
    assert RemoveSpaces(a1) == ra + "=" by {
      RemoveSpacesConcat(a, "=");
      assert RemoveSpaces("=") == "=";
    }
    assert x == ra + "=" + rb by {
      RemoveSpacesConcat(a1, b);
    }
    var j := RemoveSpacesKeeps(b, k);
    assert x[|ra| + 1 + j] != '=' && x[|ra|] == '=';
    StripKeepsBefore(x, |ra|, |ra| + 1 + j);
  }

  /** An `=` followed, after any whitespace, by some other character is not stripped: it
      reaches the decoding loop, at the position of the characters before it. */
  lemma {:induction false} InnerPaddingKept(a: string, b: string, k: nat)
    requires k < |b| && !IsSpace(b[k]) && b[k] != '='
    ensures |RemoveSpaces(a)| < |Clean(a + "=" + b)|
    ensures Clean(a + "=" + b)[|RemoveSpaces(a)|] == '='
  {
    InnerPaddingSurvivesStrip(a, b, k);
    CleanAt(a + "=" + b, |RemoveSpaces(a)|);
  }
}
