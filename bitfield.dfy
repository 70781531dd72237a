/** Bit strings, packed bytes and merker bit addresses.

    setOutputs and setMerkers turn a typed string of '0'/'1' into the
    payload byte: reverse it, read it in base 2, print it in hex and add a
    leading '0' to a single digit. The first character typed lands in bit
    0. setMerkers also turns a byte offset into the 3-byte bit address of
    the item, offset * 8. printData goes the other way: it shows bit j of
    each of four bytes as the cell "i.j".
 */
module Bitfield {
  import opened Outcomes
  import opened PyText

  /** A string of '0' and '1' only, as the command line keeps it. */
  predicate IsBitString(s: string) {
    forall k :: 0 <= k < |s| ==> s[k] == '0' || s[k] == '1'
  }

  /** Bit j of v, bit 0 the least significant: the value `v & 2**j`
      tests, as 0 or 1. */
  function BitOf(v: nat, j: nat): (b: nat)
    ensures b <= 1
  {
    if j == 0 then v % 2 else BitOf(v / 2, j - 1)
  }

  /** The reading the payload is meant to have: character k of the typed
      string is bit k of the byte. */
  function LsbFirst(bits: string): nat
    requires IsBitString(bits)
  {
    if bits == [] then 0 else (if bits[0] == '1' then 1 else 0) + 2 * LsbFirst(bits[1..])
  }

  /** Halving b + 2x drops the low bit b. */
  lemma HalfOf(b: nat, x: nat)
    requires b <= 1
    ensures (b + 2 * x) / 2 == x && (b + 2 * x) % 2 == b
  {
  }

  /** Bit k of the packed value is character k of the typed string, and
      every bit past the string is zero. */
  lemma {:induction false} LsbFirstBit(bits: string, j: nat)
    requires IsBitString(bits)
    ensures BitOf(LsbFirst(bits), j) == if j < |bits| && bits[j] == '1' then 1 else 0
    decreases j
  {
    if bits == [] {
      ZeroBits(j);
    } else {
      assert IsBitString(bits[1..]);
      var b, x := if bits[0] == '1' then 1 else 0, LsbFirst(bits[1..]);
      assert LsbFirst(bits) == b + 2 * x;
      HalfOf(b, x);
      if j > 0 {
        LsbFirstBit(bits[1..], j - 1);
        if j < |bits| {
          assert bits[1..][j - 1] == bits[j];
        }
      }
    }
  }

  lemma {:induction false} LsbFirstBound(bits: string)
    requires IsBitString(bits)
    ensures LsbFirst(bits) < Power(2, |bits|)
    decreases |bits|
  {
    if bits != [] {
      LsbFirstBound(bits[1..]);
    }
  }

  /** Reading the reversed string most-significant-first, as
      int(bits[::-1], 2) does, gives the least-significant-first reading. */
  lemma {:induction false} ReversedReading(bits: string)
    requires IsBitString(bits) && bits != []
    ensures ParseBase(Reverse(bits), 2) == Some(LsbFirst(bits))
  {
    ReversedDigits(bits);
  }

  lemma {:induction false} ReversedDigits(bits: string)
    requires IsBitString(bits)
    ensures AllDigits(Reverse(bits), 2) && FromDigits(Reverse(bits), 2) == LsbFirst(bits)
    decreases |bits|
  {
    var r := Reverse(bits);
    assert AllDigits(r, 2) by {
      forall k | 0 <= k < |r| ensures 0 <= DigitValue(r[k]) < 2 {
        assert r[k] == bits[|bits| - 1 - k];
      }
    }
    if bits != [] {
      assert IsBitString(bits[1..]);
      ReversedDigits(bits[1..]);
      assert r == Reverse(bits[1..]) + [bits[0]];
      assert r[..|r| - 1] == Reverse(bits[1..]);
    }
  }

  /** The payload text of setOutputs and setMerkers: hex(int(bits[::-1],
      2))[2:], padded with a '0' when it is one digit. None is the
      ValueError int() raises. The command line hands over bit strings,
      which fail only when empty; the keywords hand over the caller's text,
      which int() may also read with space, a sign or a 0b prefix, and which
      fails whenever it holds any other character. For one to eight bits it
      is always the two hex digits of the byte whose bit k is typed
      character k. */
  function PayloadText(bits: string): (r: Option<string>)
    ensures IsBitString(bits) ==> (r.Some? <==> bits != [])
    ensures !IntChars(bits, 2) ==> r.None?
    ensures IsBitString(bits) && 1 <= |bits| <= 8 ==>
      LsbFirst(bits) < 256 && r == Some(Hexlify([LsbFirst(bits) as byte]))
  {
    BitsRead(bits);
    ShortBits(bits);
    match PyInt(Reverse(bits), 2)
    case None => None
    case Some(v) =>
      var hexstring := HexSlice(v);
      PaddedByteHex(v);
      Some(if |hexstring| == 1 then "0" + hexstring else hexstring)
  }

  /** What int(bits[::-1], 2) makes of a text: a bit string reads as its
      least-significant-first value, and a text with a character int()
      cannot place does not read. */
  lemma BitsRead(bits: string)
    ensures IsBitString(bits) ==> PyInt(Reverse(bits), 2) == ParseBase(Reverse(bits), 2)
    ensures IsBitString(bits) && bits != [] ==> PyInt(Reverse(bits), 2) == Some(LsbFirst(bits))
    ensures !IntChars(bits, 2) ==> PyInt(Reverse(bits), 2).None?
  {
    BitsAsDigits(bits);
    if IsBitString(bits) {
      PyIntOnDigits(Reverse(bits), 2);
    }
    PyIntChars(Reverse(bits), 2);
    IntCharsReverse(bits, 2);
  }

  /** The reversed text is a base-2 numeral exactly when the text is a bit
      string, and then it reads as the least-significant-first value. */
  lemma BitsAsDigits(bits: string)
    ensures AllDigits(Reverse(bits), 2) <==> IsBitString(bits)
    ensures IsBitString(bits) ==> AllDigits(Reverse(bits), 2) && FromDigits(Reverse(bits), 2) == LsbFirst(bits)
  {
    if IsBitString(bits) {
      ReversedDigits(bits);
    } else {
      var k :| 0 <= k < |bits| && bits[k] != '0' && bits[k] != '1';
      assert Reverse(bits)[|bits| - 1 - k] == bits[k];
    }
  }

  /** Up to eight bits fit a byte. */
  lemma ShortBits(bits: string)
    ensures IsBitString(bits) && |bits| <= 8 ==> LsbFirst(bits) < 256
  {
    if IsBitString(bits) && |bits| <= 8 {
      LsbFirstBound(bits);
      PowerMonotone(2, |bits|, 8);
      assert Power(2, 8) == 256;
    }
  }

  /** hex(v)[2:] of a byte value has one or two digits, and with a single
      digit padded it is the hexlify text of that byte. */
  lemma PaddedByteHex(v: int)
    ensures var h := HexSlice(v);
      0 <= v < 256 ==> 1 <= |h| <= 2 && (if |h| == 1 then "0" + h else h) == Hexlify([v as byte])
  {
    if 0 <= v < 256 {
      ByteHex(v);
    }
  }

  /** A byte has at most two hex digits. */
  lemma ShortHexDigits(v: nat)
    requires v < 256
    ensures |HexDigits(v)| <= 2
  {
    if v >= 16 {
      assert HexDigits(v) == HexDigits(v / 16) + [DigitChar(v % 16)];
      assert HexDigits(v / 16) == [DigitChar(v / 16)];
    }
  }

  lemma ByteHex(v: nat)
    requires v < 256
    ensures var h := HexDigits(v);
      1 <= |h| <= 2 && (if |h| == 1 then "0" + h else h) == Hexlify([v as byte])
  {
    var h := HexDigits(v);
    ShortHexDigits(v);
    assert Power(16, 2) == 256;
    ZFillHexDigits(v, 2);
    FixedHexByte(v as byte);
    var z := ZFill(h, 2);
    assert z == Hexlify([v as byte]);
    if |h| == 1 {
      assert z == "0" + h;
    } else {
      assert z == h;
    }
  }

  lemma AtLeastOnce(b: nat, p: nat)
    requires b >= 1
    ensures p <= b * p
  {
  }

  lemma {:induction false} PowerMonotone(b: nat, e: nat, f: nat)
    requires b >= 1 && e <= f
    ensures Power(b, e) <= Power(b, f)
    decreases f
  {
    if e < f {
      PowerMonotone(b, e, f - 1);
      var p := Power(b, f - 1);
      assert Power(b, f) == b * p;
      AtLeastOnce(b, p);
    }
  }

  /** Every payload bit, spelt out: bit k of the byte that goes on the wire
      is '1' exactly when typed character k is. */
  lemma PayloadBits(bits: string, k: nat)
    requires IsBitString(bits) && 1 <= |bits| <= 8 && k < 8
    ensures LsbFirst(bits) < 256 && PayloadText(bits).Some? && Unhexlify(PayloadText(bits).value) == Some([LsbFirst(bits) as byte])
    ensures BitOf(LsbFirst(bits), k) == 1 <==> k < |bits| && bits[k] == '1'
  {
    LsbFirstBound(bits);
    PowerMonotone(2, |bits|, 8);
    UnhexlifyHexlify([LsbFirst(bits)]);
    LsbFirstBit(bits, k);
  }

  /** The commented example: "11001000" becomes "13". */
  lemma PayloadExample()
    ensures PayloadText("11001000") == Some("13")
  {
    ExampleBits();
    PayloadOfByte("11001000", 19);
    HexNineteen();
  }

  lemma HexNineteen()
    ensures Hexlify([19]) == "13"
  {
    HexlifyOne(19);
    assert DigitChar(1) == '1' && DigitChar(3) == '3';
  }

  lemma PayloadOfByte(bits: string, v: nat)
    requires IsBitString(bits) && 1 <= |bits| <= 8 && LsbFirst(bits) == v
    ensures v < 256 && PayloadText(bits) == Some(Hexlify([v as byte]))
  {
    var r := PayloadText(bits);
    assert r == Some(Hexlify([LsbFirst(bits) as byte]));
  }

  lemma HexlifyOne(b: byte)
    ensures Hexlify([b]) == [DigitChar(b / 16), DigitChar(b % 16)]
  {
    assert [b][1..] == [];
  }

  /** Texts a keyword may pass on unfiltered: "1 " and "1b0" reverse to
      " 1" and "0b1", which int() reads as 1, so they give the payload of
      "1"; "1-" reverses to "-1", whose hex() text leaves "x1". */
  lemma PayloadTextForms()
    ensures PayloadText("1") == Some("01")
    ensures PayloadText("1 ") == Some("01")
    ensures PayloadText("1b0") == Some("01")
    ensures PayloadText("1-") == Some("x1")
  {
    PayloadOfOne("1", "1");
    PayloadOfSpaced();
    PayloadOfPrefixed();
    PayloadOfMinusOne();
  }

  lemma PayloadOfSpaced()
    ensures PayloadText("1 ") == Some("01")
  {
    SpaceBeforeDigits();
    assert Reverse("1 ") == " 1";
    PayloadOfOne("1 ", " 1");
  }

  lemma PayloadOfPrefixed()
    ensures PayloadText("1b0") == Some("01")
  {
    PrefixBeforeDigits();
    assert Reverse("1b0") == "0b1";
    PayloadOfOne("1b0", "0b1");
  }

  lemma PayloadOfMinusOne()
    ensures PayloadText("1-") == Some("x1")
  {
    SignBeforeDigits();
    assert Reverse("1-") == "-1";
    assert HexDigits(1) == "1";
    assert HexSlice(-1) == "x1";
  }

  /** A text whose reversal int() reads as 1 has the payload "01". */
  lemma PayloadOfOne(bits: string, reversed: string)
    requires Reverse(bits) == reversed && PyInt(reversed, 2) == Some(1)
    ensures PayloadText(bits) == Some("01")
  {
    assert HexDigits(1) == "1";
    var h := HexSlice(1);
    assert h == "1";
    assert PyInt(Reverse(bits), 2).value == 1;
    assert PayloadText(bits) == Some("0" + h);
    assert "0" + h == "01";
  }

  lemma ExampleBits()
    ensures LsbFirst("11001000") == 19
  {
    var s := "11001000";
    assert s[1..] == "1001000" && s[1..][1..] == "001000";
    assert LsbFirst("1000") == 1;
    assert LsbFirst("001000") == 4;
  }

  // ---------------------------------------------------------------------
  // Merker bit address
  // ---------------------------------------------------------------------

  /** A 24-bit number as three big-endian bytes. */
  function BigEndian3(n: nat): (bs: seq<byte>)
    requires n < 0x100_0000
    ensures |bs| == 3 && bs[0] as int * 0x1_0000 + bs[1] as int * 0x100 + bs[2] as int == n
  {
    [n / 0x1_0000, (n / 0x100) % 0x100, n % 0x100]
  }

  lemma {:induction false} ZerosValue(z: string, base: nat)
    requires forall k :: 0 <= k < |z| ==> z[k] == '0'
    ensures AllDigits(z, base + 1) && FromDigits(z, base + 1) == 0
    decreases |z|
  {
    if z != [] {
      ZerosValue(z[..|z| - 1], base);
    }
  }

  /** hMerkerOffset of setMerkers: bin(offset) + '000', read back in base 2
      from its third character on, printed in hex and zero-filled to six
      digits. None is the ValueError int() raises for a negative offset,
      whose bin() text is "-0b...", leaving a 'b' in front. The field's
      value is offset * 8, the bit address of the byte; for offsets that fit
      the field it is exactly the three big-endian bytes of offset * 8. A
      bit address past MaxInt is a long and its text ends in 'L'. */
  function MerkerAddressHex(offset: int): (r: Option<string>)
    ensures r.Some? <==> offset >= 0
    ensures r.Some? && offset * 8 <= MaxInt ==> ParseBase(r.value, 16) == Some(offset * 8)
    ensures r.Some? && offset * 8 > MaxInt ==> r.value != [] && r.value[|r.value| - 1] == 'L'
    ensures 0 <= offset < 0x20_0000 ==> r == Some(Hexlify(BigEndian3(offset * 8)))
  {
    var sMerkerOffset := Bin(offset) + "000";
    BitAddressText(offset);
    match PyInt(sMerkerOffset[2..], 2)
    case None => None
    case Some(v) =>
      AddressField(v);
      Some(ZFill(HexSlice(v), 6))
  }

  /** From offset 0x20_0000 on, the bit address no longer fits the three
      address octets: zfill(6) does not cut, so the address text is longer
      than six characters. It is all hex digits up to sys.maxint and ends
      in 'L' past it. */
  lemma LongMerkerAddress(offset: int)
    requires offset >= 0x20_0000
    ensures MerkerAddressHex(offset).Some?
    ensures var h := MerkerAddressHex(offset).value;
      && |h| > 6 && ' ' !in h
      && (offset * 8 <= MaxInt ==> AllDigits(h, 16))
      && (offset * 8 > MaxInt ==> h[|h| - 1] == 'L')
  {
    var v := offset * 8;
    MerkerAddressText(offset);
    assert Power(16, 6) == 0x100_0000;
    HexDigitsLength(v, 6);
    DigitsHaveNoSpace(HexDigits(v), 16);
  }

  lemma MerkerAddressText(offset: int)
    requires offset >= 0
    ensures MerkerAddressHex(offset) == Some(ZFill(HexText(offset * 8), 6))
  {
    BitAddressText(offset);
  }

  /** What the zero-filled hex text of a bit address reads as. */
  lemma AddressField(v: nat)
    ensures var field := ZFill(HexText(v), 6);
      && (v <= MaxInt ==> ParseBase(field, 16) == Some(v))
      && (v > MaxInt ==> field != [] && field[|field| - 1] == 'L')
      && (v < 0x100_0000 ==> field == Hexlify(BigEndian3(v)))
  {
    var digits := HexText(v);
    var field := ZFill(digits, 6);
    if v > MaxInt {
      assert field[|field| - |digits|..] == digits;
      assert field[|field| - 1] == digits[|digits| - 1];
    } else {
      assert digits == HexDigits(v);
      ZFillValue(HexDigits(v), 6);
      if v < 0x100_0000 {
        AddressBytes(v);
      }
    }
  }

  /** bin(offset) + '000' from its third character on reads back as
      offset * 8 in base 2, and does not read at all for a negative offset. */
  lemma BitAddressText(offset: int)
    ensures PyInt((Bin(offset) + "000")[2..], 2) == if offset < 0 then None else Some(offset * 8)
  {
    var t := (Bin(offset) + "000")[2..];
    if offset < 0 {
      assert t[0] == 'b' && TrimStart(t) == t;
      assert DigitRun(t, 2) == [];
    } else {
      var d := Digits(offset, 2);
      AfterPrefix("0b", d, "000");
      ShiftedValue(offset);
      PyIntOnDigits(t, 2);
    }
  }

  /** Dropping a prefix from a concatenation. */
  lemma AfterPrefix<T>(p: seq<T>, rest: seq<T>, z: seq<T>)
    ensures (p + rest + z)[|p|..] == rest + z
  {
  }

  /** Three zeros appended to the binary digits of n read as n * 8. */
  lemma ShiftedValue(n: nat)
    ensures ParseBase(Digits(n, 2) + "000", 2) == Some(n * 8)
  {
    var d := Digits(n, 2);
    ZerosValue("000", 1);
    FromDigitsAppend(d, "000", 2);
    assert Power(2, 3) == 8;
  }

  /** Zero-filling does not change the value a digit string reads as. */
  lemma ZFillValue(h: string, width: nat)
    requires h != [] && AllDigits(h, 16)
    ensures ParseBase(ZFill(h, width), 16) == Some(FromDigits(h, 16))
  {
    var z := ZFill(h, width);
    if |h| < width {
      var zeros := z[..width - |h|];
      assert z == zeros + h;
      ZerosValue(zeros, 15);
      FromDigitsAppend(zeros, h, 16);
    } else {
      assert z == h;
    }
  }

  lemma AddressBytes(v: nat)
    requires v < 0x100_0000
    ensures ZFill(HexDigits(v), 6) == Hexlify(BigEndian3(v))
  {
    assert Power(16, 6) == 0x100_0000;
    ZFillHexDigits(v, 6);
    BigEndianHex(v);
  }

  /** Six fixed hex digits are the hexlify text of the three bytes. */
  lemma BigEndianHex(n: nat)
    requires n < 0x100_0000
    ensures FixedHex(n, 6) == Hexlify(BigEndian3(n))
  {
    FixedHexSplit(n, 4);
    FixedHexSplit(n / 0x100, 2);
    assert n / 0x100 / 0x100 == n / 0x1_0000;
    FixedHexByte(n / 0x1_0000);
    var bs := BigEndian3(n);
    HexlifyConcat([bs[0]], [bs[1]]);
    HexlifyConcat([bs[0], bs[1]], [bs[2]]);
    assert [bs[0]] + [bs[1]] == [bs[0], bs[1]];
    assert [bs[0], bs[1]] + [bs[2]] == bs;
  }

  /** The addresses of the four merker bytes writeToMerkers accepts, and
      the commented example of byte 9. */
  lemma MerkerAddressExamples()
    ensures MerkerAddressHex(0) == Some("000000")
    ensures MerkerAddressHex(1) == Some("000008")
    ensures MerkerAddressHex(2) == Some("000010")
    ensures MerkerAddressHex(3) == Some("000018")
    ensures MerkerAddressHex(9) == Some("000048")
  {
    assert Hexlify([0, 0, 0]) == "000000";
    assert Hexlify([0, 0, 8]) == "000008";
    assert Hexlify([0, 0, 16]) == "000010";
    assert Hexlify([0, 0, 24]) == "000018";
    assert Hexlify([0, 0, 72]) == "000048";
  }

  // ---------------------------------------------------------------------
  // The table printData shows
  // ---------------------------------------------------------------------

  /** One cell "i.j: v" of the table: bit j of data byte i. */
  datatype Cell = Cell(byteIndex: nat, bitIndex: nat, value: nat)

  /** The table for four data bytes: row j holds bit j of bytes 0, 1, 2, 3
      in that order. */
  function Grid(data: seq<byte>): seq<seq<Cell>>
    requires |data| == 4
  {
    seq(8, j requires 0 <= j < 8 => seq(4, i requires 0 <= i < 4 => Cell(i, j, BitOf(data[i], j))))
  }

  /** printData's loops: for each of the four bytes, append bit j of it to
      row j. `iData & 2**j` is either 0 or 2**j; a non-zero result shows 1. */
  method ShowBits(data: seq<byte>) returns (rows: seq<seq<Cell>>)
    requires |data| == 4
    ensures rows == Grid(data)
    ensures |rows| == 8 && forall j :: 0 <= j < 8 ==> |rows[j]| == 4
  {
    rows := seq(8, _ => []);
    for i := 0 to 4
      invariant |rows| == 8
      invariant forall t :: 0 <= t < 8 ==> rows[t] == Grid(data)[t][..i]
    {
      var iData := data[i];
      for j := 0 to 8
        invariant |rows| == 8
        invariant forall t :: 0 <= t < j ==> rows[t] == Grid(data)[t][..i + 1]
        invariant forall t :: j <= t < 8 ==> rows[t] == Grid(data)[t][..i]
      {
        var masked := BitOf(iData, j) * Power(2, j);
        var bVal := if masked != 0 then 1 else 0;
        assert bVal == BitOf(iData, j);
        assert Grid(data)[j][..i + 1] == Grid(data)[j][..i] + [Cell(i, j, bVal)];
        rows := rows[j := rows[j] + [Cell(i, j, bVal)]];
      }
    }
    assert forall t :: 0 <= t < 8 ==> Grid(data)[t][..4] == Grid(data)[t];
  }

  /** The number that bits b[0], b[1], ... stand for, b[0] the least
      significant. */
  function Weighted(b: seq<nat>): nat {
    if b == [] then 0 else b[0] + 2 * Weighted(b[1..])
  }

  /** The column of the table for byte i, bit 0 first. */
  function Column(g: seq<seq<Cell>>, i: nat): seq<nat>
    requires |g| == 8 && forall j :: 0 <= j < 8 ==> i < |g[j]|
  {
    seq(8, j requires 0 <= j < 8 => g[j][i].value)
  }

  lemma {:induction false} BitsRecompose(v: nat, n: nat)
    requires v < Power(2, n)
    ensures Weighted(seq(n, j requires 0 <= j < n => BitOf(v, j))) == v
    decreases n
  {
    var b := seq(n, j requires 0 <= j < n => BitOf(v, j));
    if n > 0 {
      BitsRecompose(v / 2, n - 1);
      assert b[1..] == seq(n - 1, j requires 0 <= j < n - 1 => BitOf(v / 2, j));
    }
  }

  /** The table loses nothing: each column read as bits gives back its
      byte, and each cell is labelled with its own byte and bit. */
  lemma GridShowsEveryBit(data: seq<byte>, i: nat)
    requires |data| == 4 && i < 4
    ensures Weighted(Column(Grid(data), i)) == data[i]
    ensures forall j :: 0 <= j < 8 ==> Grid(data)[j][i].byteIndex == i && Grid(data)[j][i].bitIndex == j
  {
    assert Power(2, 8) == 256;
    BitsRecompose(data[i], 8);
    assert Column(Grid(data), i) == seq(8, j requires 0 <= j < 8 => BitOf(data[i], j));
  }

  /** A string written to the outputs and read back shows up as typed:
      cell i.j holds typed character j of the byte written at position i. */
  lemma WrittenBitsShow(bits: string, data: seq<byte>, i: nat, j: nat)
    requires IsBitString(bits) && 1 <= |bits| <= 8
    requires |data| == 4 && i < 4 && j < 8 && data[i] == LsbFirst(bits)
    ensures Grid(data)[j][i].value == if j < |bits| && bits[j] == '1' then 1 else 0
  {
    LsbFirstBit(bits, j);
  }

  /** Data 01 00 00 00 lights cell 0.0 only; 80 in byte 0 lights 0.7 only. */
  lemma GridExamples()
    ensures forall i, j :: 0 <= i < 4 && 0 <= j < 8 ==>
      Grid([1, 0, 0, 0])[j][i].value == (if i == 0 && j == 0 then 1 else 0)
    ensures forall j :: 0 <= j < 8 ==> Grid([0x80, 0, 0, 0])[j][0].value == (if j == 7 then 1 else 0)
  {
    forall i, j | 0 <= i < 4 && 0 <= j < 8
      ensures Grid([1, 0, 0, 0])[j][i].value == (if i == 0 && j == 0 then 1 else 0)
    {
      ZeroBits(j);
      if j > 0 {
        assert BitOf(1, j) == BitOf(0, j - 1);
        ZeroBits(j - 1);
      }
    }
    forall j | 0 <= j < 8 ensures Grid([0x80, 0, 0, 0])[j][0].value == (if j == 7 then 1 else 0) {
      assert BitOf(0x80, 7) == 1;
      if j < 7 {
        assert 0x80 == LsbFirst("00000001");
        LsbFirstBit("00000001", j);
      }
    }
  }

  lemma {:induction false} ZeroBits(j: nat)
    ensures BitOf(0, j) == 0
  {
    if j > 0 {
      ZeroBits(j - 1);
    }
  }
}
