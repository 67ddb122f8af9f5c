/**
 * The hexadecimal text in which Graphene messages carry bytes (graphene.cc:61-86 and
 * 508-557): two lower-case digits a byte, 64-bit words little-endian.
 */
module Hexes {
  import BitSets

  type Byte = bv8

  function Digit(d: Byte): Byte {
    if d < 10 then d + 48 else d + 87
  }

  // "0123456789abcdef".
  lemma DigitsAre()
    ensures Digit(0) == 0x30 && Digit(1) == 0x31 && Digit(2) == 0x32 && Digit(3) == 0x33
    ensures Digit(4) == 0x34 && Digit(5) == 0x35 && Digit(6) == 0x36 && Digit(7) == 0x37
    ensures Digit(8) == 0x38 && Digit(9) == 0x39 && Digit(10) == 0x61 && Digit(11) == 0x62
    ensures Digit(12) == 0x63 && Digit(13) == 0x64 && Digit(14) == 0x65 && Digit(15) == 0x66
  {
  }

  // The parsers' h2: anything that is not a decimal digit counts from 'a', modulo 256.
  function Value(c: Byte): Byte {
    if 48 <= c <= 57 then c - 48 else 10 + (c - 97)
  }

  lemma ValueIs(c: Byte)
    ensures 0x30 <= c <= 0x39 ==> Value(c) == c & 0x0f
    ensures 0x61 <= c <= 0x66 ==> Value(c) == (c & 0x0f) + 9
    ensures !(0x30 <= c <= 0x39) ==> Value(c) + 87 == c
  {
  }

  function Joined(high: Byte, low: Byte): Byte {
    (Value(high) << 4) | Value(low)
  }

  lemma JoinedIs(high: Byte, low: Byte)
    ensures Joined(high, low) == (Value(high) << 4) | Value(low)
  {
  }

  // std::string's operator[] yields a zero character at the end.
  function CharAt(text: seq<Byte>, i: nat): Byte {
    if i < |text| then text[i] else 0
  }

  predicate IsHexOf(text: seq<Byte>, data: seq<Byte>) {
    && |text| == 2 * |data|
    && forall i :: 0 <= i < |data| ==> text[2 * i] == Digit(data[i] >> 4) && text[2 * i + 1] == Digit(data[i] & 0x0f)
  }

  predicate IsParsed(data: seq<Byte>, text: seq<Byte>) {
    && |data| == (|text| + 1) / 2
    && forall i :: 0 <= i < |data| ==> data[i] == Joined(CharAt(text, 2 * i), CharAt(text, 2 * i + 1))
  }

  predicate IsLowerHex(c: Byte) {
    48 <= c <= 57 || 97 <= c <= 102
  }

  method HexEncode(data: seq<Byte>) returns (text: seq<Byte>)
    ensures IsHexOf(text, data)
    ensures |text| == 2 * |data|
    ensures forall i :: 0 <= i < |data| ==> text[2 * i] == Digit(data[i] >> 4) && text[2 * i + 1] == Digit(data[i] & 0x0f)
  {
    hide Digit;
    NothingPrinted(data);
    text := [];
    for i := 0 to |data|
      invariant IsHexOf(text, data[..i])
    {
      PrintOne(text, data, i);
      text := text + [Digit(data[i] >> 4)];
      text := text + [Digit(data[i] & 0x0f)];
    }
    assert data[..|data|] == data;
  }

  lemma NothingPrinted(data: seq<Byte>)
    ensures IsHexOf([], data[..0])
  {
  }

  lemma PrintOne(text: seq<Byte>, data: seq<Byte>, i: nat)
    requires i < |data| && IsHexOf(text, data[..i])
    ensures IsHexOf(text + [Digit(data[i] >> 4)] + [Digit(data[i] & 0x0f)], data[..i + 1])
  {
    hide Digit;
  }

  method HexDecode(text: seq<Byte>) returns (data: seq<Byte>)
    ensures IsParsed(data, text)
  {
    hide Joined;
    data := [];
    var i := 0;
    while i < |text|
      invariant i == 2 * |data| && |data| <= (|text| + 1) / 2
      invariant forall k :: 0 <= k < |data| ==> data[k] == Joined(CharAt(text, 2 * k), CharAt(text, 2 * k + 1))
    {
      data := data + [Joined(CharAt(text, i), CharAt(text, i + 1))];
      i := i + 2;
    }
  }

  // A last digit without a partner is paired with a zero character.
  lemma ParsedBytes(data: seq<Byte>, text: seq<Byte>)
    requires IsParsed(data, text)
    ensures |data| == (|text| + 1) / 2
    ensures forall i :: 0 <= i < |data| && 2 * i + 1 < |text| ==> data[i] == Joined(text[2 * i], text[2 * i + 1])
    ensures |text| % 2 == 1 ==> data[|text| / 2] == Joined(text[|text| - 1], 0)
  {
    hide Joined;
  }

  lemma DigitValue(b: Byte)
    ensures Joined(Digit(b >> 4), Digit(b & 0x0f)) == b
    ensures IsLowerHex(Digit(b >> 4)) && IsLowerHex(Digit(b & 0x0f))
  {
    NibbleDigit(b >> 4);
    NibbleDigit(b & 0x0f);
    assert ((b >> 4) << 4) | (b & 0x0f) == b;
  }

  lemma NibbleDigit(d: Byte)
    requires d < 16
    ensures Value(Digit(d)) == d && IsLowerHex(Digit(d))
  {
  }

  lemma ValueDigit(a: Byte, b: Byte)
    requires IsLowerHex(a) && IsLowerHex(b)
    ensures Digit(Joined(a, b) >> 4) == a && Digit(Joined(a, b) & 0x0f) == b
  {
    var x, y := Value(a), Value(b);
    assert x < 16 && y < 16 && Digit(x) == a && Digit(y) == b;
    assert ((x << 4) | y) >> 4 == x && ((x << 4) | y) & 0x0f == y;
  }

  // Parsing what was printed gives the bytes back.
  lemma PrintedParsesBack(data: seq<Byte>, text: seq<Byte>, parsed: seq<Byte>)
    requires IsHexOf(text, data) && IsParsed(parsed, text)
    ensures parsed == data
  {
    hide Joined, Digit;
    forall i | 0 <= i < |data|
      ensures parsed[i] == data[i]
    {
      DigitValue(data[i]);
    }
  }

  // Printing what was parsed gives the text back exactly when the text is well formed.
  lemma ParsedPrintsBack(data: seq<Byte>, text: seq<Byte>, printed: seq<Byte>)
    requires IsParsed(data, text) && IsHexOf(printed, data)
    ensures printed == text <==> |text| % 2 == 0 && forall i :: 0 <= i < |text| ==> IsLowerHex(text[i])
  {
    hide Joined, Digit, IsLowerHex;
    forall i | 0 <= i < |data|
      ensures IsLowerHex(printed[2 * i]) && IsLowerHex(printed[2 * i + 1])
      ensures 2 * i + 1 < |text| && IsLowerHex(text[2 * i]) && IsLowerHex(text[2 * i + 1])
          ==> printed[2 * i] == text[2 * i] && printed[2 * i + 1] == text[2 * i + 1]
    {
      DigitValue(data[i]);
      if 2 * i + 1 < |text| && IsLowerHex(text[2 * i]) && IsLowerHex(text[2 * i + 1]) {
        ValueDigit(text[2 * i], text[2 * i + 1]);
      }
    }
    forall j | 0 <= j < |printed|
      ensures IsLowerHex(printed[j])
      ensures |text| == |printed| && (forall i :: 0 <= i < |text| ==> IsLowerHex(text[i])) ==> printed[j] == text[j]
    {
      var i := j / 2;
      assert j == 2 * i || j == 2 * i + 1;
    }
  }

  // ---------------------------------------------------------------------
  // 64-bit words
  // ---------------------------------------------------------------------

  // Byte i of a word sits at bits 8 * i to 8 * i + 7.
  function Place(i: nat): (s: bv6)
    requires i < 8
    ensures s & 7 == 0
  {
    if i == 0 then 0 else if i == 1 then 8 else if i == 2 then 16 else if i == 3 then 24
    else if i == 4 then 32 else if i == 5 then 40 else if i == 6 then 48 else 56
  }

  function Extract(w: bv64, s: bv6): Byte {
    LowByte(Right(w, s))
  }

  function Deposit(b: Byte, s: bv6): bv64 {
    (b as bv64) << s
  }

  function ByteAt(w: bv64, i: nat): Byte
    requires i < 8
  {
    Extract(w, Place(i))
  }

  // The memory bytes of a 64-bit word on a little-endian machine.
  function LittleEndian(w: bv64): seq<Byte> {
    seq(8, i requires 0 <= i < 8 => ByteAt(w, i))
  }

  lemma LittleEndianIs(w: bv64, i: nat)
    requires i < 8
    ensures |LittleEndian(w)| == 8 && Place(i) as nat == 8 * i
    ensures LittleEndian(w)[i] == ((w >> Place(i)) & 0xff) as Byte
  {
    hide Place;
    PlaceIs(i);
  }

  lemma PlaceIs(i: nat)
    requires i < 8
    ensures Place(i) as nat == 8 * i
  {
  }

  function LowByte(a: bv64): Byte {
    (a & 0xff) as Byte
  }

  function Right(a: bv64, s: bv6): bv64 {
    a >> s
  }

  lemma RightOr(a: bv64, b: bv64, s: bv6)
    requires s & 7 == 0
    ensures Right(BitSets.Or(a, b), s) == BitSets.Or(Right(a, s), Right(b, s))
  {
    hide Right, BitSets.Or;
    RightOr0(a, b);
    RightOr8(a, b);
    RightOr16(a, b);
    RightOr24(a, b);
    RightOr32(a, b);
    RightOr40(a, b);
    RightOr48(a, b);
    RightOr56(a, b);
  }

  lemma RightOr0(a: bv64, b: bv64)
    ensures Right(BitSets.Or(a, b), 0) == BitSets.Or(Right(a, 0), Right(b, 0))
  {
  }

  lemma RightOr8(a: bv64, b: bv64)
    ensures Right(BitSets.Or(a, b), 8) == BitSets.Or(Right(a, 8), Right(b, 8))
  {
  }

  lemma RightOr16(a: bv64, b: bv64)
    ensures Right(BitSets.Or(a, b), 16) == BitSets.Or(Right(a, 16), Right(b, 16))
  {
  }

  lemma RightOr24(a: bv64, b: bv64)
    ensures Right(BitSets.Or(a, b), 24) == BitSets.Or(Right(a, 24), Right(b, 24))
  {
  }

  lemma RightOr32(a: bv64, b: bv64)
    ensures Right(BitSets.Or(a, b), 32) == BitSets.Or(Right(a, 32), Right(b, 32))
  {
  }

  lemma RightOr40(a: bv64, b: bv64)
    ensures Right(BitSets.Or(a, b), 40) == BitSets.Or(Right(a, 40), Right(b, 40))
  {
  }

  lemma RightOr48(a: bv64, b: bv64)
    ensures Right(BitSets.Or(a, b), 48) == BitSets.Or(Right(a, 48), Right(b, 48))
  {
  }

  lemma RightOr56(a: bv64, b: bv64)
    ensures Right(BitSets.Or(a, b), 56) == BitSets.Or(Right(a, 56), Right(b, 56))
  {
  }

  lemma LowByteOr(a: bv64, b: bv64)
    ensures LowByte(BitSets.Or(a, b)) == LowByte(a) | LowByte(b)
  {
  }

  lemma ExtractOr(a: bv64, b: bv64, s: bv6)
    requires s & 7 == 0
    ensures Extract(BitSets.Or(a, b), s) == Extract(a, s) | Extract(b, s)
  {
    hide LowByte, Right, BitSets.Or;
    RightOr(a, b, s);
    LowByteOr(Right(a, s), Right(b, s));
  }

  lemma ExtractDeposit(b: Byte, s: bv6, t: bv6)
    requires s & 7 == 0 && t & 7 == 0
    ensures Extract(Deposit(b, s), t) == if s == t then b else 0
  {
  }

  lemma ExtractDetermines(v: bv64, w: bv64)
    requires Extract(v, 0) == Extract(w, 0) && Extract(v, 8) == Extract(w, 8)
    requires Extract(v, 16) == Extract(w, 16) && Extract(v, 24) == Extract(w, 24)
    requires Extract(v, 32) == Extract(w, 32) && Extract(v, 40) == Extract(w, 40)
    requires Extract(v, 48) == Extract(w, 48) && Extract(v, 56) == Extract(w, 56)
    ensures v == w
  {
  }

  lemma OrByte(w: bv64, b: Byte, i: nat, j: nat)
    requires i < 8 && j < 8 && ByteAt(w, i) == 0
    ensures ByteAt(BitSets.Or(w, Deposit(b, Place(i))), j) == if j == i then b else ByteAt(w, j)
  {
    hide Extract, Deposit, BitSets.Or;
    ExtractOr(w, Deposit(b, Place(i)), Place(j));
    ExtractDeposit(b, Place(i), Place(j));
    OrZero(ByteAt(w, j));
    OrZero(b);
  }

  lemma OrZero(x: Byte)
    ensures x | 0 == x && 0 | x == x
  {
  }

  lemma BytesDetermineWord(v: bv64, w: bv64)
    requires forall i :: 0 <= i < 8 ==> ByteAt(v, i) == ByteAt(w, i)
    ensures v == w
  {
    hide Extract;
    assert ByteAt(v, 0) == ByteAt(w, 0) && ByteAt(v, 1) == ByteAt(w, 1) && ByteAt(v, 2) == ByteAt(w, 2);
    assert ByteAt(v, 3) == ByteAt(w, 3) && ByteAt(v, 4) == ByteAt(w, 4) && ByteAt(v, 5) == ByteAt(w, 5);
    assert ByteAt(v, 6) == ByteAt(w, 6) && ByteAt(v, 7) == ByteAt(w, 7);
    ExtractDetermines(v, w);
  }

  // The word whose lowest bytes the text spells, the rest zero.
  predicate Spells(text: seq<Byte>, v: bv64) {
    forall i :: 0 <= i < 8 ==>
      ByteAt(v, i) == if 2 * i + 1 < |text| then Joined(text[2 * i], text[2 * i + 1]) else 0
  }

  method HexDecodeU64(text: seq<Byte>) returns (v: bv64)
    requires |text| <= 16
    ensures Spells(text, v)
    ensures forall i :: 0 <= i < 8 && 2 * i + 1 < |text| ==>
              LittleEndian(v)[i] == Joined(text[2 * i], text[2 * i + 1])
    ensures forall i :: 0 <= i < 8 && 2 * i + 1 >= |text| ==> LittleEndian(v)[i] == 0
  {
    hide Joined, ByteAt;
    v := 0;
    ZeroBytes();
    var i := 0;
    while i + 1 < |text|
      invariant i % 2 == 0 && i <= |text| + 1
      invariant forall k :: 0 <= k < 8 ==>
                  ByteAt(v, k) == if 2 * k < i && 2 * k + 1 < |text| then Joined(text[2 * k], text[2 * k + 1]) else 0
    {
      var byte := Joined(text[i], text[i + 1]);
      forall k | 0 <= k < 8
        ensures ByteAt(BitSets.Or(v, Deposit(byte, Place(i / 2))), k) == if k == i / 2 then byte else ByteAt(v, k)
      {
        OrByte(v, byte, i / 2, k);
      }
      v := BitSets.Or(v, Deposit(byte, Place(i / 2)));
      i := i + 2;
    }
  }

  lemma ZeroBytes()
    ensures forall k :: 0 <= k < 8 ==> ByteAt(0, k) == 0
  {
    assert forall s: bv6 :: Extract(0, s) == 0;
  }

  // A word survives the trip through its text.
  lemma WordRoundTrip(w: bv64, text: seq<Byte>, v: bv64)
    requires IsHexOf(text, LittleEndian(w)) && Spells(text, v)
    ensures v == w
  {
    hide ByteAt, Joined, Digit;
    forall i | 0 <= i < 8
      ensures ByteAt(v, i) == ByteAt(w, i)
    {
      DigitValue(ByteAt(w, i));
    }
    BytesDetermineWord(v, w);
  }
}
