/** The request frames the script sends, as hex templates and as bytes.

    Each request is a TPKT packet (RFC 1006, section 6: version 3, a
    reserved zero octet and the 16-bit length of the whole packet) around a
    COTP TPDU (ISO 8073 / ITU-T X.224: connection request, code 0xE0, in
    section 13.3, data, code 0xF0, in section 13.7). The data TPDUs carry an
    S7 "job" message: a 10-byte header (protocol id 0x32, message type 1,
    two reserved octets, a PDU reference, the parameter length and the data
    length, both 16-bit), then the parameters and the data.

    The script writes the frames as hex text; sendAndRecv drops the spaces
    and unhexlifies. Each template below is proved to be the hex text of a
    frame built from its parts, so the length fields agree with the frame by
    construction.
 */
module Frames {
  import opened Outcomes
  import opened PyText
  import opened Bitfield

  /** The three memory areas the script reads, with their S7 area codes. */
  datatype Area = Inputs | Outputs | Merkers

  function AreaCode(a: Area): (c: byte)
    ensures 0x81 <= c <= 0x83
  {
    match a
    case Inputs => 0x81
    case Outputs => 0x82
    case Merkers => 0x83
  }

  /** A 16-bit number, most significant octet first. */
  function U16(n: nat): (bs: seq<byte>)
    requires n < 0x1_0000
    ensures |bs| == 2 && bs[0] as int * 256 + bs[1] as int == n
  {
    [n / 256, n % 256]
  }

  /** A TPKT packet: version 3, reserved 0, the total length, the payload. */
  function Tpkt(payload: seq<byte>): (f: seq<byte>)
    requires |payload| + 4 < 0x1_0000
    ensures IsTpkt(f) && f[4..] == payload
  {
    [3, 0] + U16(|payload| + 4) + payload
  }

  /** A frame whose TPKT header is version 3 and whose length field is the
      frame's own length. */
  predicate IsTpkt(f: seq<byte>) {
    |f| >= 4 && f[0] == 3 && f[1] == 0 && f[2] as int * 256 + f[3] as int == |f|
  }

  /** The COTP connection request: length indicator 17, CR code 0xE0,
      destination reference 0, source reference 1, class 0, then the
      parameters TPDU size 0xC0 (1024 octets), calling TSAP 0xC1 (0x0100)
      and called TSAP 0xC2 (0x0101). */
  function CotpConnectRequest(): (c: seq<byte>)
    ensures |c| == 18 && c[0] as int == |c| - 1 && c[1] == 0xE0
  {
    [0x11, 0xE0, 0x00, 0x00, 0x00, 0x01, 0x00]
      + [0xC0, 0x01, 0x0A]
      + [0xC1, 0x02, 0x01, 0x00]
      + [0xC2, 0x02, 0x01, 0x01]
  }

  /** The COTP data header: length indicator 2, DT code 0xF0, and the last
      data unit flag with TPDU number 0. */
  function CotpData(): (c: seq<byte>)
    ensures |c| == 3 && c[0] as int == |c| - 1 && c[1] == 0xF0
  {
    [0x02, 0xF0, 0x80]
  }

  /** An S7 job message; the length fields come from the parts. */
  function S7Job(pduRef: nat, params: seq<byte>, data: seq<byte>): (m: seq<byte>)
    requires pduRef < 0x1_0000 && |params| < 0x1_0000 && |data| < 0x1_0000
    ensures |m| == 10 + |params| + |data|
    ensures m[0] == 0x32 && m[1] == 1
    ensures m[6] as int * 256 + m[7] as int == |params| && m[8] as int * 256 + m[9] as int == |data|
    ensures m[10..10 + |params|] == params && m[10 + |params|..] == data
  {
    [0x32, 0x01, 0x00, 0x00] + U16(pduRef) + U16(|params|) + U16(|data|) + params + data
  }

  /** The setup communication parameters: function 0xF0, a reserved octet,
      one job at a time each way, and a PDU size of 480 octets. */
  function SetupParams(): seq<byte> {
    [0xF0, 0x00] + U16(1) + U16(1) + U16(480)
  }

  /** One S7ANY variable address: spec type 0x12, 10 more octets, syntax id
      0x10, transport size, element count, data block number, area and the
      3-byte bit address. */
  function AnyItem(transportSize: byte, count: nat, db: nat, area: byte, address: seq<byte>): (it: seq<byte>)
    requires count < 0x1_0000 && db < 0x1_0000 && |address| == 3
    ensures |it| == 12 && it[1] as int == |it| - 2
    ensures it[3] == transportSize && it[8] == area && it[9..] == address
  {
    [0x12, 0x0A, 0x10, transportSize] + U16(count) + U16(db) + [area] + address
  }

  /** Function 0x04 (read variable) or 0x05 (write variable) with one item. */
  function VarParams(function_: byte, item: seq<byte>): seq<byte> {
    [function_, 0x01] + item
  }

  /** A request as it goes out: TPKT around the COTP data header and the S7
      message. */
  function DataFrame(s7: seq<byte>): (f: seq<byte>)
    requires |s7| < 0x1_0000 - 7
    ensures IsTpkt(f) && |f| == 7 + |s7|
    ensures f[4..7] == CotpData() && f[7..] == s7
  {
    Tpkt(CotpData() + s7)
  }

  // ---------------------------------------------------------------------
  // The frames the script means to send
  // ---------------------------------------------------------------------

  function ConnectRequestFrame(): seq<byte> {
    Tpkt(CotpConnectRequest())
  }

  function SetupFrame(): seq<byte> {
    DataFrame(S7Job(0x722F, SetupParams(), []))
  }

  /** Read one double word (transport size 6, count 1) of an area from
      data block 0 at bit address 0. */
  function ReadFrame(area: Area): seq<byte> {
    DataFrame(S7Job(0x732F, VarParams(0x04, AnyItem(0x06, 1, 0, AreaCode(area), [0, 0, 0])), []))
  }

  /** Write one byte (transport size 2) to output byte 0; the data part is
      return code 0, data transport size 4 and a length of 8 bits. */
  function WriteOutputsFrame(value: byte): seq<byte> {
    DataFrame(S7Job(0x732F, VarParams(0x05, AnyItem(0x02, 1, 0, 0x82, [0, 0, 0])), [0x00, 0x04] + U16(8) + [value]))
  }

  /** Write one word (transport size 4) at a merker bit address; the data
      part carries 16 bits: the value, then a zero byte for the next
      merker byte. */
  function WriteMerkersFrame(address: nat, value: byte): seq<byte>
    requires address < 0x100_0000
  {
    DataFrame(S7Job(0x1500, VarParams(0x05, AnyItem(0x04, 1, 0, 0x83, BigEndian3(address))), [0x00, 0x04] + U16(16) + [value, 0]))
  }

  // ---------------------------------------------------------------------
  // The hex templates as the script writes them
  // ---------------------------------------------------------------------

  /** What sendAndRecv puts on the wire for a hex text: the text without
      spaces, unhexlified. None is the TypeError unhexlify raises. */
  function Wire(hex: string): (r: Option<seq<byte>>)
    ensures r.Some? <==> |StripSpaces(hex)| % 2 == 0 && AllDigits(StripSpaces(hex), 16)
    ensures r.Some? ==> 2 * |r.value| == |StripSpaces(hex)|
  {
    Unhexlify(StripSpaces(hex))
  }

  /** Hex text sends exactly the bytes it spells. */
  lemma WireOfHexlify(bs: seq<byte>)
    ensures Wire(Hexlify(bs)) == Some(bs)
  {
    HexlifyHasNoSpace(bs);
    StripSpacesNone(Hexlify(bs));
    UnhexlifyHexlify(bs);
  }

  function ConnectRequestHex(): string {
    "03000016" + "11e00000000100c0010ac1020100c2020101"
  }

  function SetupHex(): string {
    "03000019" + "02f080" + "32010000722f00080000f0000001000101e0"
  }

  /** The read request of getAllData, getInputData, getOutputData and
      getMerkerData, whose template is written with spaces and stripped
      before it is joined to the headers. */
  function ReadHex(area: Area): string {
    "0300001f" + "02f080" + StripSpaces(ReadTemplate(area))
  }

  function ReadTemplate(area: Area): string {
    match area
    case Inputs => "32010000732f000e00000401120a10 06 00010000 81 000000"
    case Outputs => "32010000732f000e00000401120a10 06 00010000 82 000000"
    case Merkers => "32010000732f000e00000401120a10 06 00010000 83 000000"
  }

  /** The hex text of an area code. */
  function AreaHex(area: Area): (h: string)
    ensures h == Hexlify([AreaCode(area)]) && ' ' !in h
  {
    match area
    case Inputs => "81"
    case Outputs => "82"
    case Merkers => "83"
  }

  /** What the three read templates share: everything before the area. */
  function ReadBodyHead(): string {
    "32010000" + "732f000e" + "00000401" + "120a10" + " " + "06" + " " + "00010000" + " "
  }

  /** The three read templates differ only in the area code. */
  lemma ReadTemplateShape(area: Area)
    ensures ReadTemplate(area) == ReadBodyHead() + AreaHex(area) + " " + "000000"
  {
    ReadBodyHeadText();
    match area
    case Inputs =>
      assert "32010000732f000e00000401120a10 06 00010000 " + "81" + " " + "000000"
        == "32010000732f000e00000401120a10 06 00010000 81 000000";
    case Outputs =>
      assert "32010000732f000e00000401120a10 06 00010000 " + "82" + " " + "000000"
        == "32010000732f000e00000401120a10 06 00010000 82 000000";
    case Merkers =>
      assert "32010000732f000e00000401120a10 06 00010000 " + "83" + " " + "000000"
        == "32010000732f000e00000401120a10 06 00010000 83 000000";
  }

  lemma ReadBodyHeadText()
    ensures ReadBodyHead() == "32010000732f000e00000401120a10 06 00010000 "
  {
    assert "32010000" + "732f000e" == "32010000732f000e";
    assert "32010000732f000e" + "00000401" == "32010000732f000e00000401";
    assert "32010000732f000e00000401" + "120a10" == "32010000732f000e00000401120a10";
    assert "32010000732f000e00000401120a10" + " " + "06" + " " == "32010000732f000e00000401120a10 06 ";
    assert "32010000732f000e00000401120a10 06 " + "00010000" + " " == "32010000732f000e00000401120a10 06 00010000 ";
  }

  function WriteOutputsHex(hexstring: string): string {
    "03000024" + "02f080" + "32010000732f000e00050501120a1002000100008200000000040008" + hexstring
  }

  function WriteMerkersHex(hMerkerOffset: string, hexstring: string): string {
    "03000025" + "02f080" + "320100001500000e00060501120a100400010000 83 " + hMerkerOffset + "00 04 0010" + hexstring + "00"
  }

  // ---------------------------------------------------------------------
  // Each template sends the frame it is meant to
  // ---------------------------------------------------------------------

  /** Octets i up to j of f are spelled by the hex text. */
  predicate Spells(f: seq<byte>, i: nat, j: nat, text: string) {
    i <= j <= |f| && Hexlify(f[i..j]) == text
  }

  lemma SpellsJoin(f: seq<byte>, i: nat, k: nat, j: nat, a: string, b: string)
    requires Spells(f, i, k, a) && Spells(f, k, j, b)
    ensures Spells(f, i, j, a + b)
  {
    assert f[i..j] == f[i..k] + f[k..j];
    HexlifyConcat(f[i..k], f[k..j]);
  }

  /** A template whose text, spaces dropped, spells the whole frame sends
      that frame. */
  lemma SpelledWire(hex: string, f: seq<byte>, text: string)
    requires Spells(f, 0, |f|, text) && StripSpaces(hex) == text
    ensures Wire(hex) == Some(f)
  {
    assert f[0..|f|] == f;
    UnhexlifyHexlify(f);
  }

  lemma ConnectRequestChunks()
    ensures Spells(ConnectRequestFrame(), 0, 4, "03000016")
    ensures Spells(ConnectRequestFrame(), 4, 8, "11e00000")
    ensures Spells(ConnectRequestFrame(), 8, 12, "000100c0")
  {
    var f := ConnectRequestFrame();
    assert f[0..4] == [0x03, 0x00, 0x00, 0x16];
    assert f[4..8] == [0x11, 0xE0, 0x00, 0x00];
    assert f[8..12] == [0x00, 0x01, 0x00, 0xC0];
    assert Hexlify([0x03, 0x00, 0x00, 0x16]) == "03000016";
    assert Hexlify([0x11, 0xE0, 0x00, 0x00]) == "11e00000";
    assert Hexlify([0x00, 0x01, 0x00, 0xC0]) == "000100c0";
  }

  lemma ConnectRequestChunks2()
    ensures Spells(ConnectRequestFrame(), 12, 16, "010ac102")
    ensures Spells(ConnectRequestFrame(), 16, 20, "0100c202")
    ensures Spells(ConnectRequestFrame(), 20, 22, "0101")
  {
    var f := ConnectRequestFrame();
    assert f[12..16] == [0x01, 0x0A, 0xC1, 0x02];
    assert f[16..20] == [0x01, 0x00, 0xC2, 0x02];
    assert f[20..22] == [0x01, 0x01];
    assert Hexlify([0x01, 0x0A, 0xC1, 0x02]) == "010ac102";
    assert Hexlify([0x01, 0x00, 0xC2, 0x02]) == "0100c202";
    assert Hexlify([0x01, 0x01]) == "0101";
  }

  lemma ConnectRequestText()
    ensures "11e00000000100c0010ac1020100c2020101" == "11e00000" + "000100c0" + "010ac102" + "0100c202" + "0101"
  {
    assert "11e00000" + "000100c0" == "11e00000000100c0";
    assert "11e00000000100c0" + "010ac102" == "11e00000000100c0010ac102";
    assert "11e00000000100c0010ac102" + "0100c202" == "11e00000000100c0010ac1020100c202";
  }

  /** Any 22 octets spelled chunk by chunk as the connection request
      template are what that template sends. */
  lemma ConnectRequestSpelled(f: seq<byte>)
    requires |f| == 22
    requires Spells(f, 0, 4, "03000016") && Spells(f, 4, 8, "11e00000") && Spells(f, 8, 12, "000100c0")
    requires Spells(f, 12, 16, "010ac102") && Spells(f, 16, 20, "0100c202") && Spells(f, 20, 22, "0101")
    ensures Wire(ConnectRequestHex()) == Some(f)
  {
    ConnectRequestText();
    SpellsJoin(f, 4, 8, 12, "11e00000", "000100c0");
    SpellsJoin(f, 4, 12, 16, "11e00000" + "000100c0", "010ac102");
    SpellsJoin(f, 4, 16, 20, "11e00000" + "000100c0" + "010ac102", "0100c202");
    SpellsJoin(f, 4, 20, 22, "11e00000" + "000100c0" + "010ac102" + "0100c202", "0101");
    SpellsJoin(f, 0, 4, 22, "03000016", "11e00000000100c0010ac1020100c2020101");
    HexlifyHasNoSpace(f[0..22]);
    StripSpacesNone(ConnectRequestHex());
    SpelledWire(ConnectRequestHex(), f, ConnectRequestHex());
  }

  lemma ConnectRequestWire()
    ensures Wire(ConnectRequestHex()) == Some(ConnectRequestFrame())
    ensures |ConnectRequestFrame()| == 0x16 && IsTpkt(ConnectRequestFrame())
  {
    ConnectRequestChunks();
    ConnectRequestChunks2();
    ConnectRequestSpelled(ConnectRequestFrame());
  }

  lemma SetupChunks()
    ensures Spells(SetupFrame(), 0, 4, "03000019")
    ensures Spells(SetupFrame(), 4, 7, "02f080")
  {
    var f := SetupFrame();
    assert f[0..4] == [0x03, 0x00, 0x00, 0x19];
    assert f[4..7] == [0x02, 0xF0, 0x80];
    assert Hexlify([0x03, 0x00, 0x00, 0x19]) == "03000019";
    assert Hexlify([0x02, 0xF0, 0x80]) == "02f080";
  }

  lemma SetupChunks2()
    ensures Spells(SetupFrame(), 7, 11, "32010000")
    ensures Spells(SetupFrame(), 11, 15, "722f0008")
  {
    var f := SetupFrame();
    assert f[7..11] == [0x32, 0x01, 0x00, 0x00];
    assert f[11..15] == [0x72, 0x2F, 0x00, 0x08];
    assert Hexlify([0x32, 0x01, 0x00, 0x00]) == "32010000";
    assert Hexlify([0x72, 0x2F, 0x00, 0x08]) == "722f0008";
  }

  lemma SetupChunks3()
    ensures Spells(SetupFrame(), 15, 19, "0000f000")
    ensures Spells(SetupFrame(), 19, 23, "00010001")
  {
    var f := SetupFrame();
    assert f[15..19] == [0x00, 0x00, 0xF0, 0x00];
    assert f[19..23] == [0x00, 0x01, 0x00, 0x01];
    assert Hexlify([0x00, 0x00, 0xF0, 0x00]) == "0000f000";
    assert Hexlify([0x00, 0x01, 0x00, 0x01]) == "00010001";
  }

  lemma SetupChunks4()
    ensures Spells(SetupFrame(), 23, 25, "01e0")
  {
    var f := SetupFrame();
    assert f[23..25] == [0x01, 0xE0];
    assert Hexlify([0x01, 0xE0]) == "01e0";
  }

  lemma SetupText()
    ensures "32010000722f00080000f0000001000101e0" == "32010000" + "722f0008" + "0000f000" + "00010001" + "01e0"
  {
    assert "32010000" + "722f0008" == "32010000722f0008";
    assert "32010000722f0008" + "0000f000" == "32010000722f00080000f000";
    assert "32010000722f00080000f000" + "00010001" == "32010000722f00080000f00000010001";
  }

  /** Any 25 octets spelled chunk by chunk as the setup template are what
      that template sends. */
  lemma SetupSpelled(f: seq<byte>)
    requires |f| == 25
    requires Spells(f, 0, 4, "03000019") && Spells(f, 4, 7, "02f080") && Spells(f, 7, 11, "32010000")
    requires Spells(f, 11, 15, "722f0008") && Spells(f, 15, 19, "0000f000") && Spells(f, 19, 23, "00010001")
    requires Spells(f, 23, 25, "01e0")
    ensures Wire(SetupHex()) == Some(f)
  {
    SetupText();
    SpellsJoin(f, 7, 11, 15, "32010000", "722f0008");
    SpellsJoin(f, 7, 15, 19, "32010000" + "722f0008", "0000f000");
    SpellsJoin(f, 7, 19, 23, "32010000" + "722f0008" + "0000f000", "00010001");
    SpellsJoin(f, 7, 23, 25, "32010000" + "722f0008" + "0000f000" + "00010001", "01e0");
    SpellsJoin(f, 0, 4, 7, "03000019", "02f080");
    SpellsJoin(f, 0, 7, 25, "03000019" + "02f080", "32010000722f00080000f0000001000101e0");
    HexlifyHasNoSpace(f[0..25]);
    StripSpacesNone(SetupHex());
    SpelledWire(SetupHex(), f, SetupHex());
  }

  lemma SetupWire()
    ensures Wire(SetupHex()) == Some(SetupFrame())
    ensures |SetupFrame()| == 0x19 && IsTpkt(SetupFrame())
  {
    SetupChunks();
    SetupChunks2();
    SetupChunks3();
    SetupChunks4();
    SetupSpelled(SetupFrame());
  }

  lemma ReadChunks()
    ensures Spells(ReadFrame(Inputs), 0, 4, "0300001f")
    ensures Spells(ReadFrame(Inputs), 4, 7, "02f080")
  {
    var f := ReadFrame(Inputs);
    assert f[0..4] == [0x03, 0x00, 0x00, 0x1F];
    assert f[4..7] == [0x02, 0xF0, 0x80];
    assert Hexlify([0x03, 0x00, 0x00, 0x1F]) == "0300001f";
    assert Hexlify([0x02, 0xF0, 0x80]) == "02f080";
  }

  lemma ReadChunks2()
    ensures Spells(ReadFrame(Inputs), 7, 11, "32010000")
    ensures Spells(ReadFrame(Inputs), 11, 15, "732f000e")
  {
    var f := ReadFrame(Inputs);
    assert f[7..11] == [0x32, 0x01, 0x00, 0x00];
    assert f[11..15] == [0x73, 0x2F, 0x00, 0x0E];
    assert Hexlify([0x32, 0x01, 0x00, 0x00]) == "32010000";
    assert Hexlify([0x73, 0x2F, 0x00, 0x0E]) == "732f000e";
  }

  lemma ReadChunks3()
    ensures Spells(ReadFrame(Inputs), 15, 19, "00000401")
    ensures Spells(ReadFrame(Inputs), 19, 22, "120a10")
  {
    var f := ReadFrame(Inputs);
    assert f[15..19] == [0x00, 0x00, 0x04, 0x01];
    assert f[19..22] == [0x12, 0x0A, 0x10];
    assert Hexlify([0x00, 0x00, 0x04, 0x01]) == "00000401";
    assert Hexlify([0x12, 0x0A, 0x10]) == "120a10";
  }

  lemma ReadChunks4()
    ensures Spells(ReadFrame(Inputs), 22, 23, "06")
    ensures Spells(ReadFrame(Inputs), 23, 27, "00010000")
  {
    var f := ReadFrame(Inputs);
    assert f[22..23] == [0x06];
    assert f[23..27] == [0x00, 0x01, 0x00, 0x00];
    assert Hexlify([0x06]) == "06";
    assert Hexlify([0x00, 0x01, 0x00, 0x00]) == "00010000";
  }

  /** A read frame is the input read frame with its area code replaced. */
  lemma ReadFrameParts(area: Area)
    ensures ReadFrame(area) == ReadFrame(Inputs)[..27] + [AreaCode(area), 0, 0, 0]
  {
    var f := ReadFrame(area);
    ReadFrameHead(area, Inputs);
    assert f == f[..27] + f[27..];
  }

  /** Any two read frames agree up to octet 27; from there on comes the
      area code and the address 0. */
  lemma ReadFrameHead(area: Area, other: Area)
    ensures ReadFrame(area)[..27] == ReadFrame(other)[..27] && ReadFrame(area)[27..] == [AreaCode(area), 0, 0, 0]
  {
    ReadCodeFrames(AreaCode(area), AreaCode(other));
  }

  /** The same for the area codes as octets. */
  lemma ReadCodeFrames(code: byte, other: byte)
    ensures var f := DataFrame(S7Job(0x732F, VarParams(0x04, AnyItem(0x06, 1, 0, code, [0, 0, 0])), []));
      var g := DataFrame(S7Job(0x732F, VarParams(0x04, AnyItem(0x06, 1, 0, other, [0, 0, 0])), []));
      f[..27] == g[..27] && f[27..] == [code, 0, 0, 0]
  {
    var item := AnyItem(0x06, 1, 0, code, [0, 0, 0]);
    var item' := AnyItem(0x06, 1, 0, other, [0, 0, 0]);
    AnyItemHead(0x06, 1, 0, code, [0, 0, 0]);
    AnyItemHead(0x06, 1, 0, other, [0, 0, 0]);
    SameItemHeadFrames(0x732F, 0x04, item, item');
  }

  /** Two one-item job frames whose items agree on their first eight octets
      agree on their first 27; the rest is the item's last four octets. */
  lemma SameItemHeadFrames(pduRef: nat, function_: byte, item: seq<byte>, item': seq<byte>)
    requires pduRef < 0x1_0000 && |item| == |item'| == 12 && item[..8] == item'[..8]
    ensures var f := DataFrame(S7Job(pduRef, VarParams(function_, item), []));
      var g := DataFrame(S7Job(pduRef, VarParams(function_, item'), []));
      f[..27] == g[..27] && f[27..] == item[8..]
  {
    var f := DataFrame(S7Job(pduRef, VarParams(function_, item), []));
    var g := DataFrame(S7Job(pduRef, VarParams(function_, item'), []));
    JobFrameParts(pduRef, function_, item);
    JobFrameParts(pduRef, function_, item');
    SplitSlices(f, 17, 27);
    SplitSlices(g, 17, 27);
    ItemAfterCount(function_, item);
    ItemAfterCount(function_, item');
  }

  /** Cutting a sequence at m, seen through a cut at n before it. */
  lemma SplitSlices<T>(f: seq<T>, n: nat, m: nat)
    requires n <= m <= |f|
    ensures f[..m] == f[..n] + f[n..][..m - n] && f[m..] == f[n..][m - n..]
  {
  }

  /** The parameters after the function code and the item count. */
  lemma ItemAfterCount(function_: byte, item: seq<byte>)
    requires |item| == 12
    ensures ([function_, 0x01] + item)[..10] == [function_, 0x01] + item[..8]
    ensures ([function_, 0x01] + item)[10..] == item[8..]
  {
  }

  /** The first eight octets of an item do not depend on its area or
      address; the last four are the area and the address. */
  lemma AnyItemHead(transportSize: byte, count: nat, db: nat, area: byte, address: seq<byte>)
    requires count < 0x1_0000 && db < 0x1_0000 && |address| == 3
    ensures AnyItem(transportSize, count, db, area, address)[..8] == [0x12, 0x0A, 0x10, transportSize] + U16(count) + U16(db)
    ensures AnyItem(transportSize, count, db, area, address)[8..] == [area] + address
  {
  }

  /** A job frame with one item and no data: a 17-octet head fixed by the
      PDU reference alone, the function code, the item count and the item. */
  lemma JobFrameParts(pduRef: nat, function_: byte, item: seq<byte>)
    requires pduRef < 0x1_0000 && |item| == 12
    ensures var f := DataFrame(S7Job(pduRef, VarParams(function_, item), []));
      && f[..17] == [3, 0] + U16(31) + CotpData() + [0x32, 0x01, 0x00, 0x00] + U16(pduRef) + U16(14) + U16(0)
      && f[17..] == [function_, 0x01] + item
  {
    var params := VarParams(function_, item);
    var head := [0x32, 0x01, 0x00, 0x00] + U16(pduRef) + U16(14) + U16(0);
    var m := S7Job(pduRef, params, []);
    assert m == head + params;
    var f := DataFrame(m);
    assert f == [3, 0] + U16(31) + (CotpData() + (head + params));
    assert f == ([3, 0] + U16(31) + CotpData() + head) + params;
  }

  /** Octets i up to j of a sequence are spelled as they are in any other
      sequence sharing its first n octets. */
  lemma SpellsPrefix(f: seq<byte>, g: seq<byte>, n: nat, i: nat, j: nat, text: string)
    requires j <= n <= |f| && n <= |g| && f[..n] == g[..n] && Spells(g, i, j, text)
    ensures Spells(f, i, j, text)
  {
    assert f[i..j] == f[..n][i..j];
    assert g[i..j] == g[..n][i..j];
  }

  /** The chunks of the input read frame carry over to any read frame. */
  lemma ReadSpellsFor(f: seq<byte>, g: seq<byte>, c: byte)
    requires |g| == 31 && f == g[..27] + [c, 0, 0, 0]
    requires Spells(g, 0, 4, "0300001f") && Spells(g, 4, 7, "02f080") && Spells(g, 7, 11, "32010000")
    requires Spells(g, 11, 15, "732f000e") && Spells(g, 15, 19, "00000401") && Spells(g, 19, 22, "120a10")
    requires Spells(g, 22, 23, "06") && Spells(g, 23, 27, "00010000")
    ensures |f| == 31
    ensures Spells(f, 0, 4, "0300001f") && Spells(f, 4, 7, "02f080") && Spells(f, 7, 11, "32010000")
    ensures Spells(f, 11, 15, "732f000e") && Spells(f, 15, 19, "00000401") && Spells(f, 19, 22, "120a10")
    ensures Spells(f, 22, 23, "06") && Spells(f, 23, 27, "00010000")
    ensures Spells(f, 27, 28, Hexlify([c])) && Spells(f, 28, 31, "000000")
  {
    assert f[..27] == g[..27];
    SpellsPrefix(f, g, 27, 0, 4, "0300001f");
    SpellsPrefix(f, g, 27, 4, 7, "02f080");
    SpellsPrefix(f, g, 27, 7, 11, "32010000");
    SpellsPrefix(f, g, 27, 11, 15, "732f000e");
    SpellsPrefix(f, g, 27, 15, 19, "00000401");
    SpellsPrefix(f, g, 27, 19, 22, "120a10");
    SpellsPrefix(f, g, 27, 22, 23, "06");
    SpellsPrefix(f, g, 27, 23, 27, "00010000");
    assert f[27..28] == [c];
    assert f[28..31] == [0, 0, 0];
    assert Hexlify([0, 0, 0]) == "000000";
  }

  /** A single space between two texts is dropped with the others. */
  lemma StripSpaceBetween(a: string, b: string)
    ensures StripSpaces(a + " " + b) == StripSpaces(a) + StripSpaces(b)
  {
    StripSpacesConcat(a + " ", b);
    StripSpacesConcat(a, " ");
  }

  /** Five space-free words separated by single spaces lose only the
      spaces. */
  lemma StripFiveWords(a: string, b: string, c: string, d: string, e: string)
    requires ' ' !in a && ' ' !in b && ' ' !in c && ' ' !in d && ' ' !in e
    ensures StripSpaces(a + " " + b + " " + c + " " + d + " " + e) == a + b + c + d + e
  {
    StripSpaceBetween(a, b);
    StripSpaceBetween(a + " " + b, c);
    StripSpaceBetween(a + " " + b + " " + c, d);
    StripSpaceBetween(a + " " + b + " " + c + " " + d, e);
    StripSpacesNone(a);
    StripSpacesNone(b);
    StripSpacesNone(c);
    StripSpacesNone(d);
    StripSpacesNone(e);
  }

  /** The read template without its spaces, for any area text. */
  lemma ReadBodyStrip(code: string)
    requires ' ' !in code
    ensures StripSpaces(ReadBodyHead() + code + " " + "000000")
      == "32010000" + "732f000e" + "00000401" + "120a10" + "06" + "00010000" + code + "000000"
  {
    assert ' ' !in "32010000" && ' ' !in "732f000e" && ' ' !in "00000401" && ' ' !in "120a10";
    assert ' ' !in "06" && ' ' !in "00010000" && ' ' !in "000000";
    StripFiveWords("32010000" + "732f000e" + "00000401" + "120a10", "06", "00010000", code, "000000");
  }

  /** Any 31 octets spelled chunk by chunk as the read template with the
      area text `code` are what that template sends. */
  lemma ReadSpelled(f: seq<byte>, code: string)
    requires |f| == 31 && ' ' !in code
    requires Spells(f, 0, 4, "0300001f") && Spells(f, 4, 7, "02f080") && Spells(f, 7, 11, "32010000")
    requires Spells(f, 11, 15, "732f000e") && Spells(f, 15, 19, "00000401") && Spells(f, 19, 22, "120a10")
    requires Spells(f, 22, 23, "06") && Spells(f, 23, 27, "00010000") && Spells(f, 27, 28, code)
    requires Spells(f, 28, 31, "000000")
    ensures Wire("0300001f" + "02f080" + StripSpaces(ReadBodyHead() + code + " " + "000000")) == Some(f)
  {
    var hex := "0300001f" + "02f080" + StripSpaces(ReadBodyHead() + code + " " + "000000");
    ReadBodyStrip(code);
    SpellsJoin(f, 7, 11, 15, "32010000", "732f000e");
    SpellsJoin(f, 7, 15, 19, "32010000" + "732f000e", "00000401");
    SpellsJoin(f, 7, 19, 22, "32010000" + "732f000e" + "00000401", "120a10");
    SpellsJoin(f, 7, 22, 23, "32010000" + "732f000e" + "00000401" + "120a10", "06");
    SpellsJoin(f, 7, 23, 27, "32010000" + "732f000e" + "00000401" + "120a10" + "06", "00010000");
    SpellsJoin(f, 7, 27, 28, "32010000" + "732f000e" + "00000401" + "120a10" + "06" + "00010000", code);
    SpellsJoin(f, 7, 28, 31, "32010000" + "732f000e" + "00000401" + "120a10" + "06" + "00010000" + code, "000000");
    SpellsJoin(f, 0, 4, 7, "0300001f", "02f080");
    SpellsJoin(f, 0, 7, 31, "0300001f" + "02f080", "32010000" + "732f000e" + "00000401" + "120a10" + "06" + "00010000" + code + "000000");
    HexlifyHasNoSpace(f[0..31]);
    StripSpacesNone(hex);
    SpelledWire(hex, f, hex);
  }

  lemma ReadWire(area: Area)
    ensures Wire(ReadHex(area)) == Some(ReadFrame(area))
    ensures |ReadFrame(area)| == 0x1F && IsTpkt(ReadFrame(area))
  {
    ReadChunks();
    ReadChunks2();
    ReadChunks3();
    ReadChunks4();
    ReadFrameParts(area);
    ReadSpellsFor(ReadFrame(area), ReadFrame(Inputs), AreaCode(area));
    ReadTemplateShape(area);
    ReadSpelled(ReadFrame(area), AreaHex(area));
  }

  lemma WriteOutputsChunks(value: byte)
    ensures Spells(WriteOutputsFrame(value), 0, 4, "03000024")
    ensures Spells(WriteOutputsFrame(value), 4, 7, "02f080")
  {
    var f := WriteOutputsFrame(value);
    assert f[0..4] == [0x03, 0x00, 0x00, 0x24];
    assert f[4..7] == [0x02, 0xF0, 0x80];
    assert Hexlify([0x03, 0x00, 0x00, 0x24]) == "03000024";
    assert Hexlify([0x02, 0xF0, 0x80]) == "02f080";
  }

  lemma WriteOutputsChunks2(value: byte)
    ensures Spells(WriteOutputsFrame(value), 7, 11, "32010000")
    ensures Spells(WriteOutputsFrame(value), 11, 15, "732f000e")
  {
    var f := WriteOutputsFrame(value);
    assert f[7..11] == [0x32, 0x01, 0x00, 0x00];
    assert f[11..15] == [0x73, 0x2F, 0x00, 0x0E];
    assert Hexlify([0x32, 0x01, 0x00, 0x00]) == "32010000";
    assert Hexlify([0x73, 0x2F, 0x00, 0x0E]) == "732f000e";
  }

  lemma WriteOutputsChunks3(value: byte)
    ensures Spells(WriteOutputsFrame(value), 15, 19, "00050501")
    ensures Spells(WriteOutputsFrame(value), 19, 23, "120a1002")
  {
    var f := WriteOutputsFrame(value);
    assert f[15..19] == [0x00, 0x05, 0x05, 0x01];
    assert f[19..23] == [0x12, 0x0A, 0x10, 0x02];
    assert Hexlify([0x00, 0x05, 0x05, 0x01]) == "00050501";
    assert Hexlify([0x12, 0x0A, 0x10, 0x02]) == "120a1002";
  }

  lemma WriteOutputsChunks4(value: byte)
    ensures Spells(WriteOutputsFrame(value), 23, 27, "00010000")
    ensures Spells(WriteOutputsFrame(value), 27, 31, "82000000")
  {
    var f := WriteOutputsFrame(value);
    assert f[23..27] == [0x00, 0x01, 0x00, 0x00];
    assert f[27..31] == [0x82, 0x00, 0x00, 0x00];
    assert Hexlify([0x00, 0x01, 0x00, 0x00]) == "00010000";
    assert Hexlify([0x82, 0x00, 0x00, 0x00]) == "82000000";
  }

  lemma WriteOutputsChunks5(value: byte)
    ensures Spells(WriteOutputsFrame(value), 31, 35, "00040008")
    ensures Spells(WriteOutputsFrame(value), 35, 36, Hexlify([value]))
  {
    var f := WriteOutputsFrame(value);
    assert f[31..35] == [0x00, 0x04, 0x00, 0x08];
    assert f[35..36] == [value];
    assert Hexlify([0x00, 0x04, 0x00, 0x08]) == "00040008";
  }

  lemma WriteOutputsText()
    ensures "32010000732f000e00050501120a1002000100008200000000040008"
      == "32010000" + "732f000e" + "00050501" + "120a1002" + "00010000" + "82000000" + "00040008"
  {
    assert "32010000" + "732f000e" == "32010000732f000e";
    assert "32010000732f000e" + "00050501" == "32010000732f000e00050501";
    assert "32010000732f000e00050501" + "120a1002" == "32010000732f000e00050501120a1002";
    assert "32010000732f000e00050501120a1002" + "00010000" == "32010000732f000e00050501120a100200010000";
    assert "32010000732f000e00050501120a100200010000" + "82000000" == "32010000732f000e00050501120a10020001000082000000";
  }

  /** Any 36 octets spelled chunk by chunk as the output write template
      with the payload text `x` are what that template sends. */
  lemma WriteOutputsSpelled(f: seq<byte>, x: string)
    requires |f| == 36
    requires Spells(f, 0, 4, "03000024") && Spells(f, 4, 7, "02f080") && Spells(f, 7, 11, "32010000")
    requires Spells(f, 11, 15, "732f000e") && Spells(f, 15, 19, "00050501") && Spells(f, 19, 23, "120a1002")
    requires Spells(f, 23, 27, "00010000") && Spells(f, 27, 31, "82000000") && Spells(f, 31, 35, "00040008")
    requires Spells(f, 35, 36, x)
    ensures Wire(WriteOutputsHex(x)) == Some(f)
  {
    WriteOutputsText();
    SpellsJoin(f, 7, 11, 15, "32010000", "732f000e");
    SpellsJoin(f, 7, 15, 19, "32010000" + "732f000e", "00050501");
    SpellsJoin(f, 7, 19, 23, "32010000" + "732f000e" + "00050501", "120a1002");
    SpellsJoin(f, 7, 23, 27, "32010000" + "732f000e" + "00050501" + "120a1002", "00010000");
    SpellsJoin(f, 7, 27, 31, "32010000" + "732f000e" + "00050501" + "120a1002" + "00010000", "82000000");
    SpellsJoin(f, 7, 31, 35, "32010000" + "732f000e" + "00050501" + "120a1002" + "00010000" + "82000000", "00040008");
    var body := "32010000732f000e00050501120a1002000100008200000000040008";
    SpellsJoin(f, 0, 4, 7, "03000024", "02f080");
    SpellsJoin(f, 0, 7, 35, "03000024" + "02f080", body);
    SpellsJoin(f, 0, 35, 36, "03000024" + "02f080" + body, x);
    HexlifyHasNoSpace(f[0..36]);
    StripSpacesNone(WriteOutputsHex(x));
    SpelledWire(WriteOutputsHex(x), f, WriteOutputsHex(x));
  }

  /** The output write template filled with the two-digit text of a byte. */
  lemma WriteOutputsWire(value: byte)
    ensures Wire(WriteOutputsHex(Hexlify([value]))) == Some(WriteOutputsFrame(value))
    ensures |WriteOutputsFrame(value)| == 0x24 && IsTpkt(WriteOutputsFrame(value))
  {
    WriteOutputsChunks(value);
    WriteOutputsChunks2(value);
    WriteOutputsChunks3(value);
    WriteOutputsChunks4(value);
    WriteOutputsChunks5(value);
    WriteOutputsSpelled(WriteOutputsFrame(value), Hexlify([value]));
  }

  lemma WriteMerkersChunks(address: nat, value: byte)
    requires address < 0x100_0000
    ensures Spells(WriteMerkersFrame(address, value), 0, 4, "03000025")
    ensures Spells(WriteMerkersFrame(address, value), 4, 7, "02f080")
  {
    var f := WriteMerkersFrame(address, value);
    assert f[0..4] == [0x03, 0x00, 0x00, 0x25];
    assert f[4..7] == [0x02, 0xF0, 0x80];
    assert Hexlify([0x03, 0x00, 0x00, 0x25]) == "03000025";
    assert Hexlify([0x02, 0xF0, 0x80]) == "02f080";
  }

  lemma WriteMerkersChunks2(address: nat, value: byte)
    requires address < 0x100_0000
    ensures Spells(WriteMerkersFrame(address, value), 7, 11, "32010000")
    ensures Spells(WriteMerkersFrame(address, value), 11, 15, "1500000e")
  {
    var f := WriteMerkersFrame(address, value);
    assert f[7..11] == [0x32, 0x01, 0x00, 0x00];
    assert f[11..15] == [0x15, 0x00, 0x00, 0x0E];
    assert Hexlify([0x32, 0x01, 0x00, 0x00]) == "32010000";
    assert Hexlify([0x15, 0x00, 0x00, 0x0E]) == "1500000e";
  }

  lemma WriteMerkersChunks3(address: nat, value: byte)
    requires address < 0x100_0000
    ensures Spells(WriteMerkersFrame(address, value), 15, 19, "00060501")
    ensures Spells(WriteMerkersFrame(address, value), 19, 23, "120a1004")
  {
    var f := WriteMerkersFrame(address, value);
    assert f[15..19] == [0x00, 0x06, 0x05, 0x01];
    assert f[19..23] == [0x12, 0x0A, 0x10, 0x04];
    assert Hexlify([0x00, 0x06, 0x05, 0x01]) == "00060501";
    assert Hexlify([0x12, 0x0A, 0x10, 0x04]) == "120a1004";
  }

  lemma WriteMerkersChunks4(address: nat, value: byte)
    requires address < 0x100_0000
    ensures Spells(WriteMerkersFrame(address, value), 23, 27, "00010000")
    ensures Spells(WriteMerkersFrame(address, value), 27, 28, "83")
  {
    var f := WriteMerkersFrame(address, value);
    assert f[23..27] == [0x00, 0x01, 0x00, 0x00];
    assert f[27..28] == [0x83];
    assert Hexlify([0x00, 0x01, 0x00, 0x00]) == "00010000";
    assert Hexlify([0x83]) == "83";
  }

  lemma WriteMerkersChunks5(address: nat, value: byte)
    requires address < 0x100_0000
    ensures Spells(WriteMerkersFrame(address, value), 28, 31, Hexlify(BigEndian3(address)))
    ensures Spells(WriteMerkersFrame(address, value), 31, 35, "00040010")
  {
    var f := WriteMerkersFrame(address, value);
    assert f[28..31] == BigEndian3(address);
    assert f[31..35] == [0x00, 0x04, 0x00, 0x10];
    assert Hexlify([0x00, 0x04, 0x00, 0x10]) == "00040010";
  }

  lemma WriteMerkersChunks6(address: nat, value: byte)
    requires address < 0x100_0000
    ensures Spells(WriteMerkersFrame(address, value), 35, 36, Hexlify([value]))
    ensures Spells(WriteMerkersFrame(address, value), 36, 37, "00")
  {
    var f := WriteMerkersFrame(address, value);
    assert f[35..36] == [value];
    assert f[36..37] == [0x00];
    assert Hexlify([0x00]) == "00";
  }

  /** The fixed part of the merker write template before the address,
      as space-free words. */
  lemma WriteMerkersHeadWords()
    ensures "320100001500000e00060501120a100400010000 83 "
      == "32010000" + "1500000e" + "00060501" + "120a1004" + "00010000" + " " + "83" + " "
    ensures "00 04 0010" == "00" + " " + "04" + " " + "0010"
  {
    var b := "320100001500000e00060501120a100400010000";
    assert "32010000" + "1500000e" == "320100001500000e";
    assert "320100001500000e" + "00060501" == "320100001500000e00060501";
    assert "320100001500000e00060501" + "120a1004" == "320100001500000e00060501120a1004";
    assert "320100001500000e00060501120a1004" + "00010000" == b;
    assert b + " " + "83" + " " == "320100001500000e00060501120a100400010000 83 ";
  }

  /** Dropping the spaces of a text shaped like the merker write template:
      the space-free pieces stay as they are. */
  lemma StripMerkerShape(p: string, m: string, h: string, d: string, x: string, e: string)
    requires ' ' !in p && ' ' !in h && ' ' !in x && ' ' !in e
    ensures StripSpaces(p + m + h + d + x + e) == p + StripSpaces(m) + h + StripSpaces(d) + x + e
  {
    StripSpacesConcat(p + m + h + d + x, e);
    StripSpacesConcat(p + m + h + d, x);
    StripSpacesConcat(p + m + h, d);
    StripSpacesConcat(p + m, h);
    StripSpacesConcat(p, m);
    StripSpacesNone(p);
    StripSpacesNone(h);
    StripSpacesNone(x);
    StripSpacesNone(e);
  }

  lemma StripTwoWords(b: string, c: string)
    requires ' ' !in b && ' ' !in c
    ensures StripSpaces(b + " " + c + " ") == b + c
  {
    StripSpacesConcat(b + " " + c, " ");
    StripSpaceBetween(b, c);
    assert StripSpaces(" ") == [];
    StripSpacesNone(b);
    StripSpacesNone(c);
  }

  lemma StripThreeWords(d1: string, d2: string, d3: string)
    requires ' ' !in d1 && ' ' !in d2 && ' ' !in d3
    ensures StripSpaces(d1 + " " + d2 + " " + d3) == d1 + d2 + d3
  {
    StripSpaceBetween(d1, d2);
    StripSpaceBetween(d1 + " " + d2, d3);
    StripSpacesNone(d1);
    StripSpacesNone(d2);
    StripSpacesNone(d3);
  }

  /** The merker write template without its spaces, for any address and
      payload texts that have none. */
  lemma WriteMerkersStrip(h: string, x: string)
    requires ' ' !in h && ' ' !in x
    ensures StripSpaces(WriteMerkersHex(h, x))
      == "03000025" + "02f080" + ("32010000" + "1500000e" + "00060501" + "120a1004" + "00010000" + "83") + h + ("00" + "04" + "0010") + x + "00"
  {
    var b := "32010000" + "1500000e" + "00060501" + "120a1004" + "00010000";
    WriteMerkersHeadWords();
    assert ' ' !in "03000025" + "02f080";
    assert ' ' !in b && ' ' !in "83" && ' ' !in "00" && ' ' !in "04" && ' ' !in "0010";
    StripTwoWords(b, "83");
    StripThreeWords("00", "04", "0010");
    StripMerkerShape("03000025" + "02f080", b + " " + "83" + " ", h, "00" + " " + "04" + " " + "0010", x, "00");
  }

  /** Any 37 octets spelled chunk by chunk as the merker write template with
      the address text `h` and the payload text `x` are what that template
      sends. */
  lemma WriteMerkersSpelled(f: seq<byte>, h: string, x: string)
    requires |f| == 37 && ' ' !in h && ' ' !in x
    requires Spells(f, 0, 4, "03000025") && Spells(f, 4, 7, "02f080") && Spells(f, 7, 11, "32010000")
    requires Spells(f, 11, 15, "1500000e") && Spells(f, 15, 19, "00060501") && Spells(f, 19, 23, "120a1004")
    requires Spells(f, 23, 27, "00010000") && Spells(f, 27, 28, "83") && Spells(f, 28, 31, h)
    requires Spells(f, 31, 35, "00040010") && Spells(f, 35, 36, x) && Spells(f, 36, 37, "00")
    ensures Wire(WriteMerkersHex(h, x)) == Some(f)
  {
    WriteMerkersStrip(h, x);
    SpellsJoin(f, 7, 11, 15, "32010000", "1500000e");
    SpellsJoin(f, 7, 15, 19, "32010000" + "1500000e", "00060501");
    SpellsJoin(f, 7, 19, 23, "32010000" + "1500000e" + "00060501", "120a1004");
    SpellsJoin(f, 7, 23, 27, "32010000" + "1500000e" + "00060501" + "120a1004", "00010000");
    SpellsJoin(f, 7, 27, 28, "32010000" + "1500000e" + "00060501" + "120a1004" + "00010000", "83");
    var b := "32010000" + "1500000e" + "00060501" + "120a1004" + "00010000" + "83";
    SpellsJoin(f, 0, 4, 7, "03000025", "02f080");
    SpellsJoin(f, 0, 7, 28, "03000025" + "02f080", b);
    SpellsJoin(f, 0, 28, 31, "03000025" + "02f080" + b, h);
    assert "00" + "04" + "0010" == "00040010";
    SpellsJoin(f, 0, 31, 35, "03000025" + "02f080" + b + h, "00040010");
    SpellsJoin(f, 0, 35, 36, "03000025" + "02f080" + b + h + "00040010", x);
    SpellsJoin(f, 0, 36, 37, "03000025" + "02f080" + b + h + "00040010" + x, "00");
    SpelledWire(WriteMerkersHex(h, x), f, StripSpaces(WriteMerkersHex(h, x)));
  }

  /** The merker write template filled with the six-digit text of a bit
      address and the two-digit text of a byte. */
  /** The merker template always declares 37 octets in its TPKT header.
      Whatever address and payload text it is filled with, the frame it
      sends is as long as the text makes it, so it is a TPKT packet
      exactly when the two texts together have the 6 + 2 characters of a
      three-octet address and a one-octet payload. */
  lemma WriteMerkersLength(h: string, x: string)
    requires ' ' !in h && ' ' !in x
    ensures var w := Wire(WriteMerkersHex(h, x));
      w.Some? ==> 2 * |w.value| == 66 + |h| + |x| && (IsTpkt(w.value) <==> |h| + |x| == 8)
  {
    WriteMerkersStrip(h, x);
    var q := "32010000" + "1500000e" + "00060501" + "120a1004" + "00010000" + "83";
    var c := "00" + "04" + "0010";
    assert |q| == 42 && |c| == 8;
    Regroup("03000025", "02f080", q, h, c, x, "00");
    HeadedFrame("02f080" + q + h + c + x + "00");
  }

  lemma Regroup<T>(a: seq<T>, b: seq<T>, q: seq<T>, h: seq<T>, c: seq<T>, x: seq<T>, d: seq<T>)
    ensures a + b + q + h + c + x + d == a + (b + q + h + c + x + d)
    ensures |b + q + h + c + x + d| == |b| + |q| + |h| + |c| + |x| + |d|
  {
  }

  /** An address text ending in a character that is not a hex digit (the
      'L' of a long) makes unhexlify raise, so nothing is sent. */
  lemma WriteMerkersRefusesLong(h: string, x: string)
    requires ' ' !in h && ' ' !in x && h != [] && DigitValue(h[|h| - 1]) < 0
    ensures Wire(WriteMerkersHex(h, x)).None?
  {
    WriteMerkersStrip(h, x);
    var q := "32010000" + "1500000e" + "00060501" + "120a1004" + "00010000" + "83";
    var p := "03000025" + "02f080" + q;
    var t := StripSpaces(WriteMerkersHex(h, x));
    InnerIndex(p, h, "00" + "04" + "0010", x, "00", |h| - 1);
    assert t[|p| + |h| - 1] == h[|h| - 1];
  }

  lemma InnerIndex<T>(p: seq<T>, h: seq<T>, c: seq<T>, x: seq<T>, d: seq<T>, k: nat)
    requires k < |h|
    ensures |p| + k < |p + h + c + x + d| && (p + h + c + x + d)[|p| + k] == h[k]
  {
  }

  /** A frame whose hex text starts with the header 03 00 00 25 is a TPKT
      packet exactly when it is 37 octets long. */
  lemma HeadedFrame(rest: string)
    ensures var w := Unhexlify("03000025" + rest);
      w.Some? ==> 2 * |w.value| == 8 + |rest| && (IsTpkt(w.value) <==> |rest| == 66)
  {
    if Unhexlify("03000025" + rest).Some? {
      UnhexlifyPrefix("03000025", rest);
      TpktHead();
    }
  }

  lemma TpktHead()
    ensures Unhexlify("03000025") == Some([3, 0, 0, 0x25])
  {
    assert Hexlify([3, 0, 0, 0x25]) == "03000025";
    UnhexlifyHexlify([3, 0, 0, 0x25]);
  }

  lemma WriteMerkersWire(address: nat, value: byte)
    requires address < 0x100_0000
    ensures Wire(WriteMerkersHex(Hexlify(BigEndian3(address)), Hexlify([value]))) == Some(WriteMerkersFrame(address, value))
    ensures |WriteMerkersFrame(address, value)| == 0x25 && IsTpkt(WriteMerkersFrame(address, value))
  {
    WriteMerkersChunks(address, value);
    WriteMerkersChunks2(address, value);
    WriteMerkersChunks3(address, value);
    WriteMerkersChunks4(address, value);
    WriteMerkersChunks5(address, value);
    WriteMerkersChunks6(address, value);
    HexlifyHasNoSpace(BigEndian3(address));
    HexlifyHasNoSpace([value]);
    WriteMerkersSpelled(WriteMerkersFrame(address, value), Hexlify(BigEndian3(address)), Hexlify([value]));
  }

  // ---------------------------------------------------------------------
  // Properties of the frames
  // ---------------------------------------------------------------------

  /** The three read requests are the same 31 octets except octet 27, the
      area code; each asks for one double word of data block 0 at
      address 0. */
  lemma ReadFramesDifferInAreaOnly(x: Area, y: Area)
    ensures |ReadFrame(x)| == |ReadFrame(y)| == 31
    ensures forall k :: 0 <= k < 31 && k != 27 ==> ReadFrame(x)[k] == ReadFrame(y)[k]
    ensures ReadFrame(x)[27] == AreaCode(x)
    ensures ReadFrame(x)[22] == 0x06 && ReadFrame(x)[23..25] == U16(1) && ReadFrame(x)[25..27] == U16(0)
    ensures ReadFrame(x)[28..] == [0, 0, 0]
  {
    ReadFrameParts(x);
    ReadFrameParts(y);
    var p := ReadFrame(Inputs)[..27];
    Spliced(p, AreaCode(x), AreaCode(y));
    InputItemFields();
    ItemFields(ReadFrame(x));
  }

  /** Two frames that share their first 27 octets and end in a different
      octet followed by three zeros. */
  lemma Spliced(p: seq<byte>, a: byte, b: byte)
    requires |p| == 27
    ensures var f, g := p + [a, 0, 0, 0], p + [b, 0, 0, 0];
      && |f| == |g| == 31
      && (forall k :: 0 <= k < 31 && k != 27 ==> f[k] == g[k])
      && f[27] == a && f[28..] == [0, 0, 0] && f[22..27] == p[22..27]
  {
  }

  /** The item fields of the input read frame: transport size 6, count 1,
      block 0. */
  lemma InputItemFields()
    ensures ReadFrame(Inputs)[..27][22..27] == [0x06, 0, 1, 0, 0]
  {
    var g := ReadFrame(Inputs);
    assert g[22..27] == [0x06, 0, 1, 0, 0];
    assert g[..27][22..27] == g[22..27];
  }

  lemma ItemFields(f: seq<byte>)
    requires |f| == 31 && f[22..27] == [0x06, 0, 1, 0, 0]
    ensures f[22] == 0x06 && f[23..25] == U16(1) && f[25..27] == U16(0)
  {
    assert f[22] == f[22..27][0];
    assert f[23..25] == f[22..27][1..3];
    assert f[25..27] == f[22..27][3..5];
  }

  /** The length fields of every request agree with what follows them:
      the TPKT length is the whole frame, and the S7 parameter and data
      lengths (octets 13-14 and 15-16) count exactly the octets after the
      17-octet header. */
  lemma JobFrameLengths(pduRef: nat, params: seq<byte>, data: seq<byte>)
    requires pduRef < 0x1_0000 && |params| + |data| < 0x1_0000 - 17
    ensures var f := DataFrame(S7Job(pduRef, params, data));
      && IsTpkt(f) && |f| == 17 + |params| + |data|
      && f[13] as int * 256 + f[14] as int == |params| && f[15] as int * 256 + f[16] as int == |data|
      && f[17..17 + |params|] == params && f[17 + |params|..] == data
  {
    var m := S7Job(pduRef, params, data);
    var f := DataFrame(m);
    assert f[7..] == m;
    assert f[13] == m[6] && f[14] == m[7] && f[15] == m[8] && f[16] == m[9];
    assert f[17..17 + |params|] == m[10..10 + |params|];
    assert f[17 + |params|..] == m[10 + |params|..];
  }

  /** The written value is the last octet of an output write, and the
      second-to-last of a merker write, whose address field carries the bit
      address. */
  lemma WritePayloadPlace(address: nat, value: byte)
    requires address < 0x100_0000
    ensures WriteOutputsFrame(value)[35] == value
    ensures WriteMerkersFrame(address, value)[35] == value && WriteMerkersFrame(address, value)[36] == 0
    ensures WriteMerkersFrame(address, value)[28..31] == BigEndian3(address)
  {
    var m := S7Job(0x1500, VarParams(0x05, AnyItem(0x04, 1, 0, 0x83, BigEndian3(address))), [0x00, 0x04] + U16(16) + [value, 0]);
    assert WriteMerkersFrame(address, value)[7..] == m;
    var it := AnyItem(0x04, 1, 0, 0x83, BigEndian3(address));
    assert m[12..24] == it;
    assert WriteMerkersFrame(address, value)[28..31] == it[9..];
  }
}
