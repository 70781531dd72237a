/** How the script reads the PLC's answers.

    Every answer is hexlified first and then inspected by slicing the hex
    text, so one byte is two characters: byte k sits at characters 2k and
    2k+1. Each check below is written on the hex text as the script does
    it, and its contract (or a lemma beside it) says what it means for the
    bytes of the answer.

    An answer is a TPKT packet (RFC 1006, section 6) around a COTP TPDU:
    octet 5 is the TPDU code, 0xD0 for a connection confirm (ISO 8073 /
    ITU-T X.224, section 13.4). In a data TPDU the S7 message starts at
    octet 7; an "ack data" message has a 12-octet header (protocol id, type
    3, two reserved octets, PDU reference, parameter length, data length,
    error class, error code), then the parameters and the data.
 */
module Replies {
  import opened Outcomes
  import opened PyText
  import opened Frames

  // ---------------------------------------------------------------------
  // Reading single bytes out of the hex text
  // ---------------------------------------------------------------------

  /** Characters 2k and 2k+1 of the hex text are byte k, or nothing past
      the end. */
  lemma HexPairAt(reply: seq<byte>, k: nat)
    ensures Slice(Hexlify(reply), 2 * k, 2 * k + 2) == if k < |reply| then Hexlify([reply[k]]) else ""
  {
    if k < |reply| {
      PairInside(reply, k);
    } else {
      var h := Hexlify(reply);
      assert Bound(2 * k, |h|) == |h|;
    }
  }

  /** The pair of byte k, for a byte inside the string. */
  lemma PairInside(reply: seq<byte>, k: nat)
    requires k < |reply|
    ensures Slice(Hexlify(reply), 2 * k, 2 * k + 2) == Hexlify([reply[k]])
  {
    InnerPair(reply, k);
    assert reply[k..k + 1] == [reply[k]];
  }

  /** Byte k of a byte string is hexlified at characters 2k and 2k+1. */
  lemma {:induction false} InnerPair(reply: seq<byte>, k: nat)
    requires k < |reply|
    ensures Hexlify(reply)[2 * k..2 * k + 2] == Hexlify(reply[k..k + 1])
    decreases k
  {
    var h := Hexlify(reply);
    if k == 0 {
      assert h == Hexlify(reply[..1]) + Hexlify(reply[1..]);
    } else {
      InnerPair(reply[1..], k - 1);
      assert reply[1..][k - 1..k] == reply[k..k + 1];
      assert h[2 * k..2 * k + 2] == Hexlify(reply[1..])[2 * (k - 1)..2 * (k - 1) + 2];
    }
  }

  /** Two bytes have the same two hex digits only if they are equal. */
  lemma HexByteIs(b: byte, c: byte)
    ensures Hexlify([b]) == Hexlify([c]) <==> b == c
  {
    if Hexlify([b]) == Hexlify([c]) {
      HexlifyInjective([b], [c]);
    }
  }

  /** Characters 2k and 2k+1 of the hex text spell byte c exactly when
      byte k is c. */
  lemma HexPairIs(reply: seq<byte>, k: nat, c: byte)
    ensures Slice(Hexlify(reply), 2 * k, 2 * k + 2) == Hexlify([c]) <==> k < |reply| && reply[k] == c
  {
    HexPairAt(reply, k);
    if k < |reply| {
      HexByteIs(reply[k], c);
    }
  }

  /** A text of at most two hex digits is worth less than 256. */
  lemma ShortHexValue(s: string)
    requires |s| <= 2 && AllDigits(s, 16)
    ensures FromDigits(s, 16) < 256
  {
    if |s| == 2 {
      assert s[..1][..0] == [];
      assert FromDigits(s[..1], 16) == DigitValue(s[0]);
    } else if |s| == 1 {
      assert s[..0] == [];
    }
  }

  // ---------------------------------------------------------------------
  // The handshake and write checks
  // ---------------------------------------------------------------------

  /** setupConnection: the connection is confirmed when characters 10-11
      of the hex answer read "d0", that is when octet 5, the COTP TPDU
      code, is 0xD0 (connection confirm). */
  function CotpConfirmed(reply: seq<byte>): (ok: bool)
    ensures ok <==> |reply| > 5 && reply[5] == 0xD0
  {
    HexPairIs(reply, 5, 0xD0);
    assert Hexlify([0xD0]) == "d0";
    Slice(Hexlify(reply), 10, 12) == "d0"
  }

  /** setupConnection: the setup communication is accepted when characters
      18-19 of the hex answer read "00", that is when octet 9 is zero. */
  function SetupAccepted(reply: seq<byte>): (ok: bool)
    ensures ok <==> |reply| > 9 && reply[9] == 0
  {
    HexPairIs(reply, 9, 0);
    assert Hexlify([0]) == "00";
    Slice(Hexlify(reply), 18, 20) == "00"
  }

  /** setOutputs and setMerkers: a write succeeded when the last two
      characters of the hex answer read "ff", that is when the answer ends
      in the octet 0xFF (the item return code "success"). */
  function WriteAcknowledged(reply: seq<byte>): (ok: bool)
    ensures ok <==> |reply| >= 1 && reply[|reply| - 1] == 0xFF
  {
    LastPair(reply);
    assert Hexlify([0xFF]) == "ff";
    Slice(Hexlify(reply), -2, 2 * |reply|) == "ff"
  }

  /** The last two characters of the hex text spell the last byte. */
  lemma LastPair(reply: seq<byte>)
    ensures Slice(Hexlify(reply), -2, 2 * |reply|) == Hexlify([0xFF]) <==> |reply| >= 1 && reply[|reply| - 1] == 0xFF
  {
    if |reply| >= 1 {
      var n := |reply| - 1;
      HexPairIs(reply, n, 0xFF);
      PairFromEnd(Hexlify(reply), 1, n, -2, 2 * |reply|);
    }
  }

  // ---------------------------------------------------------------------
  // The read answer, as printData decodes it
  // ---------------------------------------------------------------------

  /** What printData computes from a read answer before it prints: the
      four data octets, or why it stopped. The octets are read from the
      hex text of the answer exactly as the script slices it: octet 9 at
      characters 18-19 must read "00", and the S7 data starts at character
      14. */
  function DecodeResponse(reply: seq<byte>): (r: Result<seq<byte>, Failure>)
    ensures r.Success? ==> |r.value| == 4
  {
    var s7Response := Hexlify(reply);
    if Slice(s7Response, 18, 20) != "00" then Failure(ReadRejected(reply))
    else DecodeData(reply, Slice(s7Response, 14, |s7Response|))
  }

  /** The length field of the S7 data at characters 16-19, read by int();
      the items from character 28 for twice that many characters. */
  function DecodeData(reply: seq<byte>, s7Data: string): (r: Result<seq<byte>, Failure>)
    ensures r.Success? ==> |r.value| == 4
  {
    match ParseBase(Slice(s7Data, 16, 20), 16)
    case None => Failure(ValueError)
    case Some(datalength) => DecodeItems(reply, s7Data, Slice(s7Data, 28, 28 + datalength * 2))
  }

  /** The status in the first two item characters must read "ff"; if it
      does not, the last four characters of the S7 data tell a refused
      job ("8104") from any other failure. */
  function DecodeItems(reply: seq<byte>, s7Data: string, s7Items: string): (r: Result<seq<byte>, Failure>)
    ensures r.Success? ==> |r.value| == 4
  {
    if Slice(s7Items, 0, 2) != "ff" then
      if Slice(s7Data, -4, |s7Data|) == "8104" then Failure(PutGetDisabled)
      else Failure(ItemReadFailed(Slice(reply, 7, |reply|)))
    else
      ItemValues(s7Items)
  }

  /** The loop of printData: the four item values, or the ValueError
      int() raises on a slice that is empty or not hex. */
  function ItemValues(s7Items: string): (r: Result<seq<byte>, Failure>)
    ensures r.Success? ==> |r.value| == 4
  {
    ItemValuesFrom(s7Items, 0)
  }

  /** Rounds i to 3 of the loop: round i reads the characters from
      (4 - i) * -2 up to the next two (to the end for the last round). */
  function ItemValuesFrom(s7Items: string, i: nat): (r: Result<seq<byte>, Failure>)
    requires i <= 4
    ensures r.Success? ==> |r.value| == 4 - i
    decreases 4 - i
  {
    if i == 4 then Success([])
    else
      var offset1 := (4 - i) * -2;
      var offset2 := if offset1 + 2 == 0 then |s7Items| else offset1 + 2;
      var slice := Slice(s7Items, offset1, offset2);
      match ParseBase(slice, 16)
      case None => Failure(ValueError)
      case Some(v) =>
        RoundSliceShort(s7Items, offset1, offset2);
        ShortHexValue(slice);
        match ItemValuesFrom(s7Items, i + 1)
        case Failure(e) => Failure(e)
        case Success(rest) => Success([v as byte] + rest)
  }

  /** The slice of one round holds at most two characters. */
  lemma RoundSliceShort(s7Items: string, offset1: int, offset2: int)
    requires offset1 < 0 && (offset2 == offset1 + 2 || (offset1 == -2 && offset2 == |s7Items|))
    ensures |Slice(s7Items, offset1, offset2)| <= 2
  {
  }

  /** The same decoding stated on the octets of the answer: octet 9 must be
      zero; the data length is octets 15-16 (only octet 15 when the answer
      stops there); the items are the octets from 21 on, as many as the
      data length says and as the answer holds. */
  function ReadReply(reply: seq<byte>): Result<seq<byte>, Failure> {
    if |reply| <= 9 || reply[9] != 0 then Failure(ReadRejected(reply))
    else if |reply| <= 15 then Failure(ValueError)
    else
      var dataLength := if |reply| == 16 then reply[15] as int else reply[15] as int * 256 + reply[16] as int;
      ReadItems(reply, Slice(reply, 21, 21 + dataLength))
  }

  /** The first item octet must be 0xFF (success), or else an answer ending
      in 0x81 0x04 means PUT/GET access is not enabled; the values are the
      last four item octets. */
  function ReadItems(reply: seq<byte>, items: seq<byte>): Result<seq<byte>, Failure>
    requires |reply| >= 9
  {
    if items == [] || items[0] != 0xFF then
      if reply[|reply| - 2..] == [0x81, 0x04] then Failure(PutGetDisabled)
      else Failure(ItemReadFailed(reply[7..]))
    else if |items| < 4 then Failure(ValueError)
    else Success(items[|items| - 4..])
  }

  /** A read item succeeds exactly on a return code 0xFF and four octets,
      and it is blamed on PUT/GET access exactly when the return code is
      missing or wrong and the answer ends in 0x81 0x04. */
  lemma ReadItemsSpec(reply: seq<byte>, items: seq<byte>)
    requires |reply| >= 9
    ensures ReadItems(reply, items).Success? <==> |items| >= 4 && items[0] == 0xFF
    ensures ReadItems(reply, items).Success? ==> ReadItems(reply, items).value == items[|items| - 4..]
    ensures ReadItems(reply, items) == Failure(PutGetDisabled) <==>
      (items == [] || items[0] != 0xFF) && reply[|reply| - 2..] == [0x81, 0x04]
  {
  }

  /** A successful read has seen octet 9 zero and a return code 0xFF at
      octet 21, and it reports four octets, the last ones of the items. */
  lemma ReadReplyShape(reply: seq<byte>)
    ensures var r := ReadReply(reply);
      r.Success? ==> |reply| >= 25 && |r.value| == 4 && reply[9] == 0 && reply[21] == 0xFF
  {
    if |reply| > 15 && reply[9] == 0 {
      var dataLength := if |reply| == 16 then reply[15] as int else reply[15] as int * 256 + reply[16] as int;
      var items := Slice(reply, 21, 21 + dataLength);
      ReadItemsSpec(reply, items);
      if ReadItems(reply, items).Success? {
        var a, b := Bound(21, |reply|), Bound(21 + dataLength, |reply|);
        assert items == reply[a..b];
        assert a == 21;
        assert reply[21] == items[0];
      }
    }
  }

  /** Octets a up to b of reply[7..] are octets a+7 up to b+7 of reply. */
  lemma SliceAfter7(reply: seq<byte>, a: int, b: int)
    requires |reply| >= 7 && 0 <= a && 0 <= b
    ensures Slice(Slice(reply, 7, |reply|), a, b) == Slice(reply, a + 7, b + 7)
  {
    var d := Slice(reply, 7, |reply|);
    assert d == reply[7..];
    var lo, hi := Bound(a, |d|), Bound(b, |d|);
    assert lo + 7 == Bound(a + 7, |reply|);
    assert hi + 7 == Bound(b + 7, |reply|);
    if lo < hi {
      assert d[lo..hi] == reply[lo + 7..hi + 7];
    }
  }

  /** The length field: int() of the hex of the octets at 15-16 of the
      answer, or of octet 15 alone, or nothing. */
  lemma LengthField(reply: seq<byte>)
    requires |reply| >= 7
    ensures var d := Slice(reply, 7, |reply|);
      ParseBase(Slice(Hexlify(d), 16, 20), 16)
        == if |reply| <= 15 then None
           else if |reply| == 16 then Some(reply[15] as nat)
           else Some(reply[15] as nat * 256 + reply[16] as nat)
  {
    var d := Slice(reply, 7, |reply|);
    HexlifySlice(d, 8, 10);
    SliceAfter7(reply, 8, 10);
    if |reply| == 16 {
      assert Slice(reply, 15, 17) == [reply[15]];
      ParseHexByte(reply[15]);
    } else if |reply| > 16 {
      assert Slice(reply, 15, 17) == [reply[15], reply[16]];
      ParseHexWord(reply[15], reply[16]);
    }
  }

  /** int() of the two characters that hexlify octet k gives it back. */
  lemma PairValue(items: seq<byte>, k: nat)
    requires k < |items|
    ensures ParseBase(Slice(Hexlify(items), 2 * k, 2 * k + 2), 16) == Some(items[k] as nat)
  {
    HexPairAt(items, k);
    ParseHexByte(items[k]);
  }

  /** The four values: the last four item octets when there are at least
      four, a ValueError otherwise. */
  lemma ValuesOfItems(items: seq<byte>)
    ensures ItemValues(Hexlify(items)) == if |items| < 4 then Failure(ValueError) else Success(items[|items| - 4..])
  {
    if |items| < 4 {
      FewItems(items);
    } else {
      LastFourItems(items);
    }
  }

  /** Fewer than four item octets leave the first slice empty. */
  lemma FewItems(items: seq<byte>)
    requires |items| < 4
    ensures ItemValues(Hexlify(items)) == Failure(ValueError)
  {
    assert Slice(Hexlify(items), -8, -6) == [];
  }

  /** The negative slice [lo:hi] of printData's loop, lo = -2j and hi =
      -2j+2 (or the end for j = 1), reads item octet n-j, for j from 1
      to 4. */
  lemma TailPair(items: seq<byte>, j: nat, lo: int, hi: int)
    requires 1 <= j <= 4 <= |items|
    requires lo == -2 * j && hi == if j == 1 then 2 * |items| else -2 * j + 2
    ensures ParseBase(Slice(Hexlify(items), lo, hi), 16) == Some(items[|items| - j] as nat)
  {
    var k := |items| - j;
    PairFromEnd(Hexlify(items), j, k, lo, hi);
    PairValue(items, k);
  }

  /** With four or more item octets the values are the last four. */
  lemma LastFourItems(items: seq<byte>)
    requires |items| >= 4
    ensures ItemValues(Hexlify(items)) == Success(items[|items| - 4..])
  {
    RoundsFrom(items, 0);
  }

  /** Round i reads item octet n-4+i. */
  lemma RoundAt(items: seq<byte>, i: nat)
    requires |items| >= 4 && i < 4
    ensures var h, offset1 := Hexlify(items), (4 - i) * -2;
      ParseBase(Slice(h, offset1, if offset1 + 2 == 0 then |h| else offset1 + 2), 16)
        == Some(items[|items| - 4 + i] as nat)
  {
    var h, offset1 := Hexlify(items), (4 - i) * -2;
    TailPair(items, 4 - i, offset1, if offset1 + 2 == 0 then |h| else offset1 + 2);
  }

  /** Rounds i to 3 read item octets n-4+i to n-1. */
  lemma {:induction false} RoundsFrom(items: seq<byte>, i: nat)
    requires |items| >= 4 && i <= 4
    ensures ItemValuesFrom(Hexlify(items), i) == Success(items[|items| - 4 + i..])
    decreases 4 - i
  {
    if i < 4 {
      RoundAt(items, i);
      RoundsFrom(items, i + 1);
      ConsTail(items, |items| - 4 + i);
    } else {
      assert items[|items|..] == [];
    }
  }

  /** A suffix is its first item followed by the rest. */
  lemma ConsTail<T>(s: seq<T>, k: nat)
    requires k < |s|
    ensures s[k..] == [s[k]] + s[k + 1..]
  {
  }

  /** The status test on the first two item characters. */
  lemma StatusOfItems(items: seq<byte>)
    ensures (Slice(Hexlify(items), 0, 2) == "ff") <==> (items != [] && items[0] == 0xFF)
  {
    HexPairIs(items, 0, 0xFF);
    assert Hexlify([0xFF]) == "ff";
  }

  /** The error-code test on the last four characters of the S7 data. */
  lemma TrailerOfData(reply: seq<byte>)
    requires |reply| >= 9
    ensures var d := Hexlify(Slice(reply, 7, |reply|));
      (Slice(d, -4, |d|) == "8104") <==> (reply[|reply| - 2..] == [0x81, 0x04])
  {
    var d := Slice(reply, 7, |reply|);
    var n := |d|;
    HexlifySlice(d, -2, n);
    assert Slice(d, -2, n) == reply[|reply| - 2..];
    assert Hexlify([0x81, 0x04]) == "8104";
    if Hexlify(reply[|reply| - 2..]) == "8104" {
      HexlifyInjective(reply[|reply| - 2..], [0x81, 0x04]);
    }
  }

  /** The item stage: the hex tests on the items and the S7 data agree
      with the octet tests. */
  lemma ItemsAgree(reply: seq<byte>, items: seq<byte>)
    requires |reply| >= 9
    ensures DecodeItems(reply, Hexlify(Slice(reply, 7, |reply|)), Hexlify(items)) == ReadItems(reply, items)
  {
    StatusOfItems(items);
    TrailerOfData(reply);
    ValuesOfItems(items);
    assert Slice(reply, 7, |reply|) == reply[7..];
  }

  /** Characters 28 on of the S7 data text, twice the data length of them,
      hexlify the octets from 21 on. */
  lemma ItemsOfData(reply: seq<byte>, dataLength: nat)
    requires |reply| >= 7
    ensures Slice(Hexlify(Slice(reply, 7, |reply|)), 28, 28 + dataLength * 2) == Hexlify(Slice(reply, 21, 21 + dataLength))
  {
    HexlifySlice(Slice(reply, 7, |reply|), 14, 14 + dataLength);
    SliceAfter7(reply, 14, 14 + dataLength);
  }

  /** The data stage: the length field and the item slice of the hex text
      are those of the octets. */
  lemma DataAgree(reply: seq<byte>)
    requires |reply| > 9 && reply[9] == 0
    ensures DecodeData(reply, Hexlify(Slice(reply, 7, |reply|))) == ReadReply(reply)
  {
    LengthField(reply);
    if |reply| > 15 {
      var dataLength := if |reply| == 16 then reply[15] as int else reply[15] as int * 256 + reply[16] as int;
      ItemsStage(reply, dataLength);
    }
  }

  /** Once the length field reads dataLength, both descriptions go on with
      the same items. */
  lemma ItemsStage(reply: seq<byte>, dataLength: nat)
    requires |reply| > 15 && reply[9] == 0
    requires ParseBase(Slice(Hexlify(Slice(reply, 7, |reply|)), 16, 20), 16) == Some(dataLength)
    requires dataLength == if |reply| == 16 then reply[15] as int else reply[15] as int * 256 + reply[16] as int
    ensures DecodeData(reply, Hexlify(Slice(reply, 7, |reply|))) == ReadReply(reply)
  {
    ItemsOfData(reply, dataLength);
    ItemsAgree(reply, Slice(reply, 21, 21 + dataLength));
  }

  /** printData's slicing of the hex text decodes the answer exactly as the
      octet layout says: the two descriptions agree on every answer. */
  lemma DecodeResponseReadsReply(reply: seq<byte>)
    ensures DecodeResponse(reply) == ReadReply(reply)
  {
    HexPairIs(reply, 9, 0);
    assert Hexlify([0]) == "00";
    if |reply| > 9 && reply[9] == 0 {
      HexlifySlice(reply, 7, |reply|);
      DataAgree(reply);
    }
  }

  // ---------------------------------------------------------------------
  // Answers a PLC gives, and what the script makes of them
  // ---------------------------------------------------------------------

  /** An S7 "ack data" message: the header with its error class and code,
      then the parameters and the data. */
  function AckData(pduRef: nat, errorClass: byte, errorCode: byte, params: seq<byte>, data: seq<byte>): (m: seq<byte>)
    requires pduRef < 0x1_0000 && |params| < 0x1_0000 && |data| < 0x1_0000
    ensures |m| == 12 + |params| + |data| && m[2] == 0
    ensures m[8] as int * 256 + m[9] as int == |data| && m[10] == errorClass && m[11] == errorCode
    ensures m[12..12 + |params|] == params && m[12 + |params|..] == data
  {
    [0x32, 0x03, 0x00, 0x00] + U16(pduRef) + U16(|params|) + U16(|data|) + [errorClass, errorCode] + params + data
  }

  /** The answer to a read of one double word: no error, function 4 with
      one item, and the item: return code 0xFF, transport size 4 (bits),
      a length of 32 bits and the four octets. */
  function ReadAnswer(pduRef: nat, values: seq<byte>): (f: seq<byte>)
    requires pduRef < 0x1_0000 && |values| == 4
    ensures |f| == 29
  {
    Tpkt(CotpData() + AckData(pduRef, 0, 0, [0x04, 0x01], [0xFF, 0x04] + U16(32) + values))
  }

  /** Reading back a well-formed answer gives the four octets it carries. */
  lemma ReadAnswerRoundTrip(pduRef: nat, values: seq<byte>)
    requires pduRef < 0x1_0000 && |values| == 4
    ensures DecodeResponse(ReadAnswer(pduRef, values)) == Success(values)
  {
    var f := ReadAnswer(pduRef, values);
    var m := AckData(pduRef, 0, 0, [0x04, 0x01], [0xFF, 0x04] + U16(32) + values);
    assert f[7..] == m;
    assert f[9] == m[2];
    assert f[15] == m[8] && f[16] == m[9];
    assert m[8] as int * 256 + m[9] as int == 8;
    assert Slice(f, 21, 29) == m[14..];
    assert m[14..] == [0xFF, 0x04] + U16(32) + values;
    DecodeResponseReadsReply(f);
  }

  /** The answer of a PLC that refuses the job: an ack data header with
      error class 0x81 and error code 0x04 and nothing after it. */
  function RefusalAnswer(pduRef: nat): (f: seq<byte>)
    requires pduRef < 0x1_0000
    ensures |f| == 19
  {
    Tpkt(CotpData() + AckData(pduRef, 0x81, 0x04, [], []))
  }

  /** Such an answer is reported as PUT/GET access not being enabled. */
  lemma RefusalIsPutGetDisabled(pduRef: nat)
    requires pduRef < 0x1_0000
    ensures DecodeResponse(RefusalAnswer(pduRef)) == Failure(PutGetDisabled)
  {
    var f := RefusalAnswer(pduRef);
    var m := AckData(pduRef, 0x81, 0x04, [], []);
    assert f[7..] == m;
    assert f[9] == m[2] && f[15] == m[8] && f[16] == m[9];
    assert f[17..] == [0x81, 0x04];
    assert Slice(f, 21, 21) == [];
    DecodeResponseReadsReply(f);
  }

  /** The setup check looks only at a reserved header octet, so it accepts
      every ack data answer, whatever error class and code it reports. */
  lemma SetupCheckIgnoresErrorClass(pduRef: nat, errorClass: byte, errorCode: byte, params: seq<byte>, data: seq<byte>)
    requires pduRef < 0x1_0000 && |params| < 0x100 && |data| < 0x100
    ensures SetupAccepted(Tpkt(CotpData() + AckData(pduRef, errorClass, errorCode, params, data)))
  {
    var m := AckData(pduRef, errorClass, errorCode, params, data);
    var f := Tpkt(CotpData() + m);
    assert f[7..] == m;
    assert f[9] == m[2];
  }

  /** The handshake check accepts a TPKT packet exactly when the TPDU in it
      is a connection confirm. */
  lemma CotpConfirmedByCode(tpdu: seq<byte>)
    requires |tpdu| + 4 < 0x1_0000
    ensures CotpConfirmed(Tpkt(tpdu)) <==> |tpdu| > 1 && tpdu[1] == 0xD0
  {
    var f := Tpkt(tpdu);
    assert f[4..] == tpdu;
    if |tpdu| > 1 {
      assert f[5] == tpdu[1];
    }
  }
}
