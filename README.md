# S7-1200 manipulator, modelled in Dafny

`S7-1200manipulator.py` is a Python 2 script that talks S7comm to a Siemens
S7-1200 PLC. It reads the first 32 inputs, outputs and merkers (memory
bits) and writes a byte of outputs or merkers. It can be run from the command line or
called as three Robot Framework keywords. This project models its protocol engine:

- the address check;
- the command-line sanitising;
- the hex templates of the requests and the frames they put on the wire
  (TPKT, RFC 1006 section 6, around COTP, ISO 8073 / ITU-T X.224, around an
  S7 job);
- the handshake;
- the slicing of the answers;
- the bit packing of written values and the merker bit address;
- the table of bits that is printed;
- the order of connections and frames in each operation.

Modules, one per concern of the script:

| file | module | what it holds |
|---|---|---|
| `outcomes.dfy` | `Outcomes` | bytes, `Option`, `Result`, and the ways the script stops (`Failure`) |
| `py_text.dfy` | `PyText` | the Python 2 built-ins the script uses: slicing, `hexlify`/`unhexlify`, `hex`, `bin`, `int`, `zfill`, `split`, `[::-1]` |
| `ipv4.dfy` | `Ipv4`, `Ipv4Examples` | `isIpv4`, as a function and as the loop the script runs |
| `bitfield.dfy` | `Bitfield` | bit strings to a payload byte, merker offsets to bit addresses, the 8 x 4 table of `printData` |
| `frames.dfy` | `Frames` | the request frames built from their protocol fields, each proved equal to what its hex template sends |
| `replies.dfy` | `Replies` | the checks on answers, on the hex text as the script slices it and on the octets |
| `operations.dfy` | `Operations` | `sendAndRecv`, `setupConnection`, the read and write operations over a modelled network |
| `keywords.dfy` | `Keywords` | the three Robot Framework keywords |
| `command_line.dfy` | `CommandLine` | `parseArgs` and the main program |

The network is a value, `Operations.Net`, with three parts:

- whether the PLC accepts the TCP connection;
- the answers it will give, in order;
- the events so far: a connect, each frame sent, a close.

Every operation takes a `Net` and returns a `Step`: its outcome and the
network after it. So a contract can say:

- which frames went on the wire;
- in what order;
- over how many connections;
- which answer each check looked at.

Every way the script stops is a `Failure`. That covers `finish()` without the
Robot flag, which exits, and an exception the script does not catch.

## Model

| member | source | states |
|---|---|---|
| `Ipv4.MatchGroupsExactly` | S7-1200manipulator.py:50-51 | The pattern matches exactly the texts made of four groups of up to three digits joined by dots, optionally followed by one newline that `$` lets through. The groups it returns are the only ones that fit. |
| `Ipv4.Ipv4Check` | S7-1200manipulator.py:49-57 | The only exception the check can raise is `ValueError`. |
| `Ipv4.Ipv4CheckSpec` | S7-1200manipulator.py:49-57 | The check returns `True` exactly on the dotted quads whose first octet is 1 to 255 and whose other octets are 0 to 255. It raises exactly when the pattern matches with an empty group (`int('')`). |
| `Ipv4.Ipv4CheckGroups` | S7-1200manipulator.py:50-57 | Once the four groups of a match are known, the verdict is `ValueError` if one is empty, and otherwise `True` exactly when the first octet is 1 to 255 and the others are at most 255. |
| `Ipv4.TrailingNewline` | S7-1200manipulator.py:50 | `$` also matches before one final newline, so a text and the same text followed by a newline get the same verdict. |
| `Ipv4.IsIpv4` | S7-1200manipulator.py:49-57 | The function as the script runs it (match, then convert and test the groups) returns what `Ipv4Check` computes, so `Ipv4CheckSpec` holds of it. |
| `Ipv4.CheckGroups` | S7-1200manipulator.py:52-57 | The loop that builds `quad` raises on the first empty group, and the two tests that follow return `True` exactly when the first octet is at least 1 and none is above 255. |
| `Ipv4Examples.Accepts192` | S7-1200manipulator.py:62 | The example address of the `-t` help text is accepted. |
| `Ipv4Examples.Rejects256` | S7-1200manipulator.py:56 | An octet above 255 is refused. |
| `Ipv4Examples.RejectsZeroFirstOctet` | S7-1200manipulator.py:54 | A first octet of 0 is refused. |
| `Ipv4Examples.EmptyGroupRaises` | S7-1200manipulator.py:53 | `"10.0.0."` matches with an empty last group, and the conversion raises `ValueError`. |
| `CommandLine.Keep01IsBits` | S7-1200manipulator.py:74 | `re.sub(r'[^01]+', '', …)` leaves only '0' and '1'. |
| `CommandLine.Keep01Keeps` | S7-1200manipulator.py:74 | The substitution leaves a text unchanged exactly when the text is already a bit string. |
| `CommandLine.Keep01Concat` | S7-1200manipulator.py:74 | The substitution works piece by piece over a concatenation. |
| `CommandLine.Keep01Idempotent` | S7-1200manipulator.py:74 | Applying the substitution twice removes nothing more. |
| `CommandLine.PortOf` | S7-1200manipulator.py:70-73 | With no ':' in `-t`, the port is `-p`. With one, the port is what `int()` reads from the second piece, or `PortNotRecognized` when `int()` fails. |
| `CommandLine.MerkersOf` | S7-1200manipulator.py:75-80 | The merker bits are the piece before the first ',', kept to '0' and '1'. The offset is 0 when there is no ',', else what `int()` reads from the second piece, else `OffsetNotDecimal`. |
| `CommandLine.ParseArgsSpec` | S7-1200manipulator.py:59-84 | The address is the dotted quad before the first ':'. The port is what `PortOf` reads. Without `-r` the outputs are `-o` kept to '0' and '1', and the merkers are what `MerkersOf` reads from `-m`. The offset is what `MerkersOf` reads, or 0 without `-m`. `-r` leaves no write. The run reads exactly when `-r` was given or no write is left. |
| `CommandLine.ParseArgsSucceeds` | S7-1200manipulator.py:68-80 | Parsing succeeds exactly when the address is a dotted quad, the port reads and the merker offset, if any, reads. |
| `CommandLine.ParseArgsFailures` | S7-1200manipulator.py:68-80 | Parsing stops on a bad address, then on a bad port, then on a non-decimal merker offset, in that order and with those errors. |
| `CommandLine.ParseArgsOutputs` | S7-1200manipulator.py:74-84 | `-o` is written as its '0' and '1' characters alone, and it makes the run a read when none are left. |
| `CommandLine.Writes` | S7-1200manipulator.py:303-308 | With neither outputs nor merkers to write, the network is not touched. |
| `CommandLine.ReadOnlyRun` | S7-1200manipulator.py:301-310 | A run without writes is exactly one `getAllData`. |
| `CommandLine.OutputsOnlyWrites` | S7-1200manipulator.py:303-305 | With outputs and no merkers, the writes are one `setOutputs`. |
| `CommandLine.OutputsRun` | S7-1200manipulator.py:303-310 | A successful run that writes 1 to 8 outputs uses two connections. The first carries the handshake, the output frame and a close. The second carries the handshake, the inputs, outputs and merkers reads and a close. It reports the write's acknowledgement and no merker write. |
| `CommandLine.OutputsRunSucceeds` | S7-1200manipulator.py:303-310 | Such a run succeeds exactly when the PLC answers the write session and then the read session well. |
| `CommandLine.MerkersOnlyWrites` | S7-1200manipulator.py:306-308 | With merkers and no outputs, the writes are one `setMerkers` at the parsed offset. |
| `CommandLine.MerkersRun` | S7-1200manipulator.py:306-310 | A successful run that writes 1 to 8 merkers uses two connections. The first carries the handshake, the merker write frame addressing bit offset * 8 and a close. The second carries the handshake, the three reads and a close. It reports no output write and the merker write's acknowledgement. |
| `CommandLine.BothWrites` | S7-1200manipulator.py:303-308 | With both writes, the outputs are written first and the merkers second, each over its own connection. Each write consumes three answers and reports the acknowledgement of its own third answer. |
| `CommandLine.BothWritesRun` | S7-1200manipulator.py:303-310 | A successful run that writes outputs and merkers uses three connections in the order outputs, merkers, reads. It reports the acknowledgements of answers 3 and 6. |
| `PyText.Slice` | S7-1200manipulator.py:104 | Python slicing never fails and agrees with an ordinary subsequence when the bounds are in range. |
| `PyText.ParseBase` | S7-1200manipulator.py:113 | On a text that can only hold digits, such as a slice of `hexlify` output, `int(s, base)` succeeds exactly on a non-empty run of digits of the base. |
| `PyText.PyIntReadsIntText` | S7-1200manipulator.py:72 | `int(s, base)` reads every text of the form space, sign, space, `0b`/`0x` prefix, digits, space, as the signed value of its digits. |
| `PyText.PyIntOnlyIntText` | S7-1200manipulator.py:72 | Every text `int(s, base)` reads has that form, and its value is the one the form gives. |
| `PyText.PyIntOnDigits` | S7-1200manipulator.py:113 | On a text of digits alone, `int(s, base)` agrees with `ParseBase`. |
| `PyText.PyIntChars` | S7-1200manipulator.py:197 | A text with a character other than space, a sign, a digit of the base or a prefix letter does not read. |
| `PyText.PyIntForms` | S7-1200manipulator.py:72 | `int(" 1", 2)`, `int("0b1", 2)` and `int("-1", 2)` are 1, 1 and -1, and `int("- 2")` is -2. |
| `PyText.Digits` | S7-1200manipulator.py:197 | `hex()`/`bin()` digits have no leading zero, and they read back as the number. |
| `PyText.Bin` | S7-1200manipulator.py:228 | `bin(n)` is "0b" and the binary digits, or "-0b" and the digits of -n for a negative n. |
| `PyText.ZFill` | S7-1200manipulator.py:231 | `zfill` left-pads with '0' up to the width and keeps the text as its suffix. |
| `PyText.ZFillHexDigits` | S7-1200manipulator.py:230-231 | Zero-filling hex digits to a width that holds the number gives the fixed-width rendering. |
| `PyText.Unhexlify` | S7-1200manipulator.py:88 | `unhexlify` succeeds exactly on an even-length hex text, and gives half as many bytes. |
| `PyText.UnhexlifyHexlify` | S7-1200manipulator.py:88 | `unhexlify` undoes `hexlify`. |
| `PyText.HexlifyInjective` | S7-1200manipulator.py:103 | Different byte strings have different hex texts. |
| `PyText.HexlifySlice` | S7-1200manipulator.py:112-114 | Slicing the hex text at even positions is slicing the bytes, negative and out-of-range bounds included. |
| `PyText.ParseHexByte` | S7-1200manipulator.py:134 | `int()` of the two hex digits of a byte gives the byte. |
| `PyText.ParseHexWord` | S7-1200manipulator.py:113 | `int()` of four hex digits gives the big-endian 16-bit value. |
| `PyText.StripSpacesLeavesNoSpace` | S7-1200manipulator.py:88 | `replace(' ', '')` leaves no space. |
| `PyText.StripSpacesConcat` | S7-1200manipulator.py:160 | Dropping spaces works piece by piece. |
| `PyText.DecimalTextRead` | S7-1200manipulator.py:72 | `int(str(n)) == n` for every integer. |
| `PyText.Split` | S7-1200manipulator.py:68 | `split` gives at least one piece, and no piece holds the separator. |
| `PyText.JoinSplit` | S7-1200manipulator.py:68 | Joining the pieces of a split gives the text back. |
| `PyText.SplitJoin` | S7-1200manipulator.py:68 | Splitting a join of separator-free pieces gives the pieces back. |
| `PyText.Reverse` | S7-1200manipulator.py:195 | `s[::-1]` holds the characters in reverse order. |
| `Bitfield.LsbFirstBit` | S7-1200manipulator.py:194-197 | Bit k of the packed value is typed character k, and every bit past the string is zero. |
| `Bitfield.ReversedReading` | S7-1200manipulator.py:195-197 | `int(bits[::-1], 2)` is the least-significant-first reading of a non-empty bit string. |
| `Bitfield.PayloadText` | S7-1200manipulator.py:195-198 | A bit string has a payload text exactly when it is non-empty. A text with a character `int(…, 2)` cannot place has none. For 1 to 8 bits it is the two hex digits of the byte whose bit k is typed character k. |
| `Bitfield.BitsAsDigits` | S7-1200manipulator.py:197 | The reversed text is a base-2 numeral exactly when the text is a bit string. |
| `Bitfield.PaddedByteHex` | S7-1200manipulator.py:197-198 | `hex(v)[2:]` of a byte, padded to two digits, is the byte's hexlify text. |
| `Bitfield.PayloadBits` | S7-1200manipulator.py:194-198 | The payload unhexlifies to one byte, and bit k of that byte is 1 exactly when typed character k is '1'. |
| `Bitfield.PayloadExample` | S7-1200manipulator.py:194-196 | The commented example: "11001000" is sent as "13". |
| `Bitfield.PayloadTextForms` | S7-1200manipulator.py:195-198 | Unfiltered keyword texts: "1 " and "1b0" give the payload of "1", and "1-" reads as -1 and gives "x1". |
| `Bitfield.MerkerAddressHex` | S7-1200manipulator.py:227-231 | The address text exists exactly for a non-negative offset. It reads as offset * 8. It ends in 'L' past `sys.maxint`. For offsets that fit the 3-byte field it is the big-endian bytes of offset * 8. |
| `Bitfield.LongMerkerAddress` | S7-1200manipulator.py:228-231 | From offset 0x20_0000 on, `zfill(6)` does not cut the address, so it is longer than six characters. It has no space. It is all hex digits up to `sys.maxint` and ends in 'L' past it. |
| `Bitfield.BitAddressText` | S7-1200manipulator.py:228-230 | `bin(offset) + '000'`, read from its third character, is offset * 8, and it does not read for a negative offset. |
| `Bitfield.AddressField` | S7-1200manipulator.py:230-231 | The zero-filled hex text of a bit address reads as the address, and it is the address's three big-endian bytes when they hold it. |
| `Bitfield.MerkerAddressExamples` | S7-1200manipulator.py:224 | Offsets 0 to 3 give "000000", "000008", "000010" and "000018". The commented offset 9 gives "000048". |
| `Bitfield.ShowBits` | S7-1200manipulator.py:129-140 | The two loops build the table `Grid`: row j holds bit j of each of the four bytes, 8 rows of 4 cells. |
| `Bitfield.GridShowsEveryBit` | S7-1200manipulator.py:130-140 | The table loses nothing: each column, read as bits, gives back its byte. Each cell is labelled with its own byte and bit. |
| `Bitfield.WrittenBitsShow` | S7-1200manipulator.py:136-140 | Outputs written and read back appear as typed: cell i.j holds typed character j. |
| `Bitfield.GridExamples` | S7-1200manipulator.py:137-139 | Data 01 lights only cell 0.0, and data 80 lights only cell 0.7. |
| `Frames.Tpkt` | S7-1200manipulator.py:105 | A TPKT packet has version 3, and its length field is its own length. |
| `Frames.S7Job` | S7-1200manipulator.py:105 | An S7 job has protocol id 0x32 and type 1, and its parameter and data lengths count its parts. |
| `Frames.DataFrame` | S7-1200manipulator.py:154 | A data frame is TPKT, then the COTP data header, then the S7 message. |
| `Frames.JobFrameLengths` | S7-1200manipulator.py:154-235 | In every request, the TPKT length is the whole frame, and the S7 parameter and data lengths count exactly what follows the 17-octet header. |
| `Frames.Wire` | S7-1200manipulator.py:88 | A hex text goes on the wire exactly when, without spaces, it has an even number of hex digits. |
| `Frames.WireOfHexlify` | S7-1200manipulator.py:88 | Hex text sends exactly the bytes it spells. |
| `Frames.ConnectRequestWire` | S7-1200manipulator.py:103 | The connection request template sends the COTP connection request built from its fields, a 22-octet TPKT packet. |
| `Frames.SetupWire` | S7-1200manipulator.py:106 | The setup template sends the S7 setup communication built from its fields, a 25-octet TPKT packet. |
| `Frames.ReadTemplateShape` | S7-1200manipulator.py:160-168 | The three read templates differ only in the area code. |
| `Frames.ReadWire` | S7-1200manipulator.py:159-169 | The read template of each area, spaces dropped, sends the read frame built from its fields (one double word at address 0), a 31-octet TPKT packet. |
| `Frames.ReadFramesDifferInAreaOnly` | S7-1200manipulator.py:155-168 | Read frames differ only in octet 27, the area code 0x81, 0x82 or 0x83. They request transport size 6 (double word), count 1, block 0 and address 0. |
| `Frames.WriteOutputsWire` | S7-1200manipulator.py:205 | The output write template with the payload's two digits sends the write frame of that byte, a 36-octet TPKT packet. |
| `Frames.WriteMerkersWire` | S7-1200manipulator.py:234 | The merker write template with a 3-byte address and the payload sends the merker write frame, a 37-octet TPKT packet. |
| `Frames.WriteMerkersLength` | S7-1200manipulator.py:234 | The template always declares 37 octets. The frame it sends has as many octets as the filled-in texts make, so it is a TPKT packet exactly when the address and payload texts together are 8 characters. |
| `Frames.WriteMerkersRefusesLong` | S7-1200manipulator.py:88 | An address text that ends in a non-hex character, such as the 'L' of a long, makes `unhexlify` fail, so nothing is sent. |
| `Frames.WritePayloadPlace` | S7-1200manipulator.py:204-234 | The payload byte sits at octet 35 of both write frames. In the merker frame it is followed by a zero, and the bit address sits at octets 28-30. |
| `Replies.CotpConfirmed` | S7-1200manipulator.py:103-104 | The handshake's first check holds exactly when octet 5 of the answer is 0xD0. |
| `Replies.CotpConfirmedByCode` | S7-1200manipulator.py:104 | For a TPKT packet, that means the TPDU code is connection confirm. |
| `Replies.SetupAccepted` | S7-1200manipulator.py:106-107 | The setup check holds exactly when octet 9 of the answer is 0. |
| `Replies.SetupCheckIgnoresErrorClass` | S7-1200manipulator.py:107 | The setup check accepts every ack-data answer, whatever error class and code it carries. |
| `Replies.WriteAcknowledged` | S7-1200manipulator.py:206-235 | A write counts as done exactly when the last octet of the answer is 0xFF. |
| `Replies.LastPair` | S7-1200manipulator.py:206 | `s7Response[-2:] == 'ff'` tests the last octet. |
| `Replies.DecodeResponse` | S7-1200manipulator.py:110-134 | `printData`'s decoding of the hex text of an answer, up to the four values, yields four octets when it succeeds. |
| `Replies.DecodeResponseReadsReply` | S7-1200manipulator.py:111-134 | The slicing of the hex text agrees, on every answer, with the octet layout. Octet 9 must be 0. The data length is at octets 15-16. The items start at octet 21. The first item octet must be 0xFF, or an answer ending in 0x81 0x04 means PUT/GET is disabled. The values are the last four item octets. |
| `Replies.ReadReplyShape` | S7-1200manipulator.py:111-115 | A successful read has seen octet 9 zero and return code 0xFF at octet 21, and it reports four octets. |
| `Replies.StatusOfItems` | S7-1200manipulator.py:115 | `s7Items[:2] == 'ff'` tests the first item octet. |
| `Replies.TrailerOfData` | S7-1200manipulator.py:116 | `s7Data[-4:] == '8104'` tests the last two octets. |
| `Replies.LengthField` | S7-1200manipulator.py:112-113 | `int(s7Data[16:20], 16)` reads octets 15-16, or octet 15 alone when the answer stops there, and fails on a shorter answer. |
| `Replies.ValuesOfItems` | S7-1200manipulator.py:130-134 | The loop's four negative slices give the last four item octets, or a `ValueError` when there are fewer than four. |
| `Replies.RoundsFrom` | S7-1200manipulator.py:130-134 | From round i on, the loop reads item octets n-4+i up to n-1 of the hex text of n item octets, one octet per round, from the slice `[(4 - i) * -2:…]`. |
| `Replies.ReadAnswerRoundTrip` | S7-1200manipulator.py:110-134 | A well-formed read answer carrying four octets is decoded to those octets. |
| `Replies.RefusalIsPutGetDisabled` | S7-1200manipulator.py:115-120 | An ack-data answer with error class 0x81 and code 0x04 is reported as PUT/GET access not enabled. |
| `Operations.Exchange` | S7-1200manipulator.py:89-92 | One send appends the frame to the events and takes the next answer, or fails with no answer left. |
| `Operations.SendAndRecv` | S7-1200manipulator.py:86-92 | A template that does not unhexlify raises `TypeError` before anything is sent. Otherwise its bytes are sent and the next answer is taken. |
| `Operations.HandshakeTemplates` | S7-1200manipulator.py:103-106 | The two handshake templates send exactly the connection request and setup frames. |
| `Operations.SetupConnectionSpec` | S7-1200manipulator.py:94-108 | The handshake succeeds exactly when the PLC accepts the connection, confirms it and accepts the setup. It then records a connect and the two frames and consumes two answers. |
| `Operations.SetupConnectionFailures` | S7-1200manipulator.py:98-104 | A refused connection fails as a timeout after the connect. A first answer that is no confirm stops the handshake before the setup frame. |
| `Operations.SetupConnectionFramed` | S7-1200manipulator.py:103-106 | The handshake only sends TPKT packets whose length field is right. |
| `Operations.ReadArea` | S7-1200manipulator.py:160-161 | One read sends the area's read frame, consumes one answer and decodes it as `printData` does. |
| `Operations.ReadTemplate` | S7-1200manipulator.py:160-168 | The read template of an area sends exactly its read frame. |
| `Operations.ReadAreas` | S7-1200manipulator.py:159-169 | Reads in a row succeed exactly when there are enough answers and every one of them reads. |
| `Operations.ReadAreasSpec` | S7-1200manipulator.py:159-169 | Successful reads send one read frame per area, in order, consume one answer each and report each answer's four octets. |
| `Operations.ReadSessionSpec` | S7-1200manipulator.py:150-191 | A read session succeeds exactly when the handshake does and every following answer reads. It uses one connection, closed at the end. |
| `Operations.GetAllDataSpec` | S7-1200manipulator.py:150-170 | `getAllData` succeeds exactly when all five answers are good. It sends the inputs, outputs and merkers read frames in that order over one connection and reports the three answers' octets. |
| `Operations.GetDataSpec` | S7-1200manipulator.py:172-191 | `getOutputData`, `getInputData` and `getMerkerData` read one area over a connection of their own. |
| `Operations.ReadSessionFramed` | S7-1200manipulator.py:150-191 | Read sessions only send TPKT packets, whether or not they succeed. |
| `Operations.WriteJobSpec` | S7-1200manipulator.py:205-208 | A write job sends its frame. It succeeds exactly when the PLC answers, reports whether the answer acknowledges the write, and closes the socket. |
| `Operations.WriteSessionSpec` | S7-1200manipulator.py:201-208 | A write session succeeds exactly when the PLC answers all three frames. It uses one connection and reports the acknowledgement of the third answer. |
| `Operations.WriteSessionRefused` | S7-1200manipulator.py:218-234 | A job that could not be put together fails after the handshake, and no write frame is sent. |
| `Operations.SetOutputsRefusesText` | S7-1200manipulator.py:195-197 | An empty text, or one with a character `int(…, 2)` cannot place, raises `ValueError` before any connection. |
| `Operations.SetOutputsTextForms` | S7-1200manipulator.py:195-205 | "1 " and "1b0" write exactly as "1" does. "1-" connects, sends the handshake and then fails with `TypeError`, because its payload "x1" does not unhexlify. |
| `Operations.SetOutputsSpec` | S7-1200manipulator.py:193-208 | Writing 1 to 8 outputs sends the handshake and the output write frame of the packed byte over one connection. It succeeds exactly when all three frames are answered. |
| `Operations.SetOutputsFramed` | S7-1200manipulator.py:193-208 | Writing outputs only sends TPKT packets. |
| `Operations.MerkersJob` | S7-1200manipulator.py:227-234 | A text offset raises `TypeError` in `bin()`. A negative offset raises `ValueError` in `int()`. An offset below 0x20_0000 gives the template with the big-endian bytes of offset * 8. |
| `Operations.SetMerkersRefusesText` | S7-1200manipulator.py:212-214 | An empty text, or one with a character `int(…, 2)` cannot place, raises `ValueError` before any connection, whatever the offset. |
| `Operations.SetMerkersSpec` | S7-1200manipulator.py:210-237 | Writing 1 to 8 merkers at a byte offset sends the handshake and a merker write frame addressing bit offset * 8 over one connection. It succeeds exactly when all three frames are answered. |
| `Operations.SetMerkersLateOffsetCheck` | S7-1200manipulator.py:218-230 | A text or negative offset is looked at only after the handshake, so both handshake frames are sent before the write fails. |
| `Operations.SetMerkersFramed` | S7-1200manipulator.py:210-237 | Writing 1 to 8 merkers only sends TPKT packets when the offset is a text, is negative or is below 0x20_0000. |
| `Operations.MerkersJobLongAddress` | S7-1200manipulator.py:227-234 | From offset 0x20_0000 on, the job is still built. Past `sys.maxint` its text does not unhexlify. Otherwise any frame it sends is not a TPKT packet. |
| `Operations.SetMerkersLongOffset` | S7-1200manipulator.py:210-237 | With an offset from 0x20_0000 on and an accepted handshake, `setMerkers` either raises `TypeError` in `unhexlify` after the handshake (always so past `sys.maxint`), or it sends a frame that is longer than its TPKT header declares. |
| `Keywords.ReadParametersSpec` | S7-1200manipulator.py:239-260 | The read keyword touches the network exactly for a dotted-quad address and a known scope. It then reads what the scope names. Any other scope gives `UnknownScope` and leaves the network as it was. |
| `Keywords.WriteToOutputsSpec` | S7-1200manipulator.py:262-272 | The corrected keyword writes only to a dotted-quad address, and then exactly as `setOutputs` does. |
| `Keywords.WriteToOutputsIgnoresCheck` | S7-1200manipulator.py:270-272 | As written, the keyword writes as `setOutputs` for every address that does not make the check raise. |
| `Keywords.WriteToUnspecifiedAddress` | S7-1200manipulator.py:270-272 | For "0.0.0.0", which the check refuses, the keyword as written sends the write frame. The corrected keyword does not touch the network. |
| `Keywords.RobotInt` | S7-1200manipulator.py:288-289 | `int(offset)` keeps an int, turns a text `int()` reads into its value (space and a sign included), and otherwise leaves the text. |
| `Keywords.WriteToMerkersAsWrittenInt` | S7-1200manipulator.py:283-293 | As written, an int offset below 0 or above 3 raises `TypeError` in the message `'…' + offset` before any connection, for any address that does not make the check raise. An offset from 0 to 3 goes on to `setMerkers`. |
| `Keywords.WriteToMerkersSpec` | S7-1200manipulator.py:274-293 | The corrected keyword touches the network only for a dotted quad and an offset that reads as 0 to 3, and then writes as `setMerkers`. Any other offset is refused as not decimal or out of range. |
| `Keywords.NotDecimal` | S7-1200manipulator.py:288 | `int("three")` raises. |
| `Keywords.WriteWithTextOffset` | S7-1200manipulator.py:288-293 | As written, a non-decimal offset lets the keyword connect and send both handshake frames before `bin()` raises `TypeError`. The corrected keyword refuses the offset without touching the network. |

## Left out

- Sockets: opening, the one-second timeout and `recv`'s buffer size are not
  modelled.
  - The PLC is a list of whole answers, one per request.
  - A refused or silent connection is a `ConnectTimeout` failure.
  - An answer that does not come is a `NoReply` failure.
  - `socket.error` and partial reads are not modelled.
  - The address and port do not select a PLC: there is one `Net`.
- Printing, `logger`, `showBanner` and the `-r` announcement are not
  modelled. The model returns what would be printed (readings, the 8 x 4
  table, acknowledgements) instead of the text.
- `finish(…, True)` only logs.
  - In `setupConnection` and `printData` the script then goes on or raises
    a different error. The model stops there with the failure `finish`
    names.
  - For the read keyword's unknown scope, which returns normally, the model
    returns `UnknownScope`.
- The 0x8104 branch of `printData` reaches `raise ValueError` only with the
  Robot flag. The model reports `PutGetDisabled` either way.
- `argparse` is not modelled. `-t`, `-p`, `-r`, `-o` and `-m` arrive as the
  values it would deliver, and its own errors, such as a missing `-t`, are
  not modelled.
- The sockets are not closed after a failure. The model records `Close` only
  where the script reaches `sock.close()`.
- `PyText.PyInt` reads Python 2 byte strings. A Robot keyword may pass a
  unicode text, which `int()` first maps from any Unicode digit and space to
  ASCII. That mapping is not modelled.
- The command line filters `-o` and `-m` to '0' and '1'. The keywords pass
  the caller's text to `int(…[::-1], 2)` unfiltered, although the output
  keyword's docstring (S7-1200manipulator.py:267) promises only 1s and 0s.
  `PayloadText`, `SetOutputsRefusesText` and `SetMerkersRefusesText` follow
  `int()` on those texts, and `SetOutputsSpec`, `SetMerkersSpec` and the
  `*Framed` lemmas state the frames for bit strings only.
- `sys.maxint` is fixed at its 64-bit value. Only the 'L' suffix of a merker
  address past it depends on this.
- `Operations.SetOutputsSpec`, `Operations.SetMerkersSpec`,
  `CommandLine.OutputsRun`, `CommandLine.MerkersRun`,
  `CommandLine.BothWritesRun` and the `*Framed` lemmas require 1 to 8 bits.
  - With 9 or more bits the payload has more than two hex digits and the
    frame's length fields no longer match.
  - `SetOutputs` and `SetMerkers` still model that case through
    `SendAndRecv`, but no frame-level property is proved for it.
- `Operations.SetMerkersSpec`, `Operations.MerkersJob` and
  `Operations.SetMerkersFramed`: the frame-level promises stop at offset
  0x20_0000, where offset * 8 stops fitting the 3-byte address field.
  - From there on, `zfill(6)` does not cut the address, and the job is built
    with a longer address text.
  - Past `sys.maxint` its 'L' makes `unhexlify` raise `TypeError` after the
    handshake.
  - Below that, the text either has odd length (again `TypeError`) or sends
    a frame longer than the 37 octets its TPKT header declares. For example,
    offset 0x200_0000 gives the address "10000000" and a 38-octet frame.
  - `MerkersJobLongAddress` and `SetMerkersLongOffset` state this.
  - Which octets the longer frame holds is not modelled.
- Command-line merker offsets are not range-checked by the script (only the
  keyword checks 0 to 3). The model passes them on unchanged, so `-m 1,33554432`
  reaches the mis-framed write described above.
- `CommandLine.MerkersRun` and `CommandLine.BothWritesRun`: require an
  offset below 0x20_0000, as `SetMerkersSpec` does. The command line does not
  range-check the offset, and a run with a larger one is covered only by
  `SetMerkers`.
- The Python 2 comparison of a text with an int (`offset > 3` on a text) is
  modelled only for its outcome in `writeToMerkers`: a text compares greater.

## Findings

| source | as written | input that shows it | evidently intended | confidence | as-written member | corrected member |
|---|---|---|---|---|---|---|
| S7-1200manipulator.py:270-272 | `writeToOutputs` reports a refused address with `finish(…, True)`, which only logs, and then writes anyway | IP `"0.0.0.0"`, outputs `"1"`: `isIpv4` returns False, yet the handshake and the output write frame are sent | a refused address stops the keyword before any connection, as in `readParameters` and `parseArgs` | not executed | `Keywords.WriteToUnspecifiedAddress` (on `Keywords.WriteToOutputsAsWritten`) | `Keywords.WriteToOutputsSpec` (on `Keywords.WriteToOutputs`) |
| S7-1200manipulator.py:288-293 | a merker offset that `int()` refuses is only logged. The text compares greater than 3, so the message `'…' + offset` concatenates and is also only logged. The text then reaches `setMerkers`, which connects and sends both handshake frames before `bin()` raises `TypeError` | offset `"three"` with a valid IP and bit string | a non-decimal or out-of-range offset stops the keyword before any connection | not executed | `Keywords.WriteWithTextOffset` (on `Keywords.WriteToMerkersAsWritten`) | `Keywords.WriteToMerkersSpec` (on `Keywords.WriteToMerkers`) |
