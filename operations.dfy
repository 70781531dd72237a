/** The script's conversations with the PLC.

    A conversation is seen from the script's side: the PLC either accepts
    the TCP connection within the one-second timeout or not, and answers
    each frame the script sends with the next of its answers; when it has
    none left, recv() times out. The script's actions are recorded as
    events, so the contracts can say which frames went on the wire, in
    which order and over how many connections.
 */
module Operations {
  import opened Outcomes
  import opened PyText
  import opened Ipv4
  import opened Bitfield
  import opened Frames
  import opened Replies

  /** What the script does on the network. */
  datatype Event = Connect | Send(frame: seq<byte>) | Close

  /** The PLC's side of the conversation and the events so far. */
  datatype Net = Net(accepts: bool, answers: seq<seq<byte>>, events: seq<Event>)

  /** An outcome and the network after it. */
  datatype Step<+T> = Step(result: Result<T, Failure>, net: Net)

  /** The four data octets read from one memory area. */
  datatype Reading = Reading(area: Area, values: seq<byte>)

  /** A Robot Framework argument: an int, or the text a test case passed. */
  datatype PyValue = Int(i: int) | Str(s: string)

  /** The events of a successful setupConnection. */
  function Handshake(): seq<Event> {
    [Connect, Send(ConnectRequestFrame()), Send(SetupFrame())]
  }

  /** The answers that get a connection through setupConnection. */
  predicate HandshakeAnswers(net: Net) {
    net.accepts && |net.answers| >= 2 && CotpConfirmed(net.answers[0]) && SetupAccepted(net.answers[1])
  }

  /** Every frame recorded in the events is a TPKT packet whose length
      field is its length. */
  predicate WellFramed(events: seq<Event>) {
    forall k :: 0 <= k < |events| && events[k].Send? ==> IsTpkt(events[k].frame)
  }

  lemma WellFramedAppend(a: seq<Event>, b: seq<Event>)
    requires WellFramed(a) && WellFramed(b)
    ensures WellFramed(a + b)
  {
    forall k | 0 <= k < |a + b| && (a + b)[k].Send? ensures IsTpkt((a + b)[k].frame) {
      if k >= |a| {
        assert (a + b)[k] == b[k - |a|];
      }
    }
  }

  /** Appending one element and then a sequence appends both at once. */
  lemma AppendOne<T>(a: seq<T>, e: T, b: seq<T>)
    ensures a + [e] + b == a + ([e] + b)
  {
  }

  // ---------------------------------------------------------------------
  // sendAndRecv and setupConnection
  // ---------------------------------------------------------------------

  /** Sending one frame and taking the next answer, or recv() timing out
      when there is none. */
  function Exchange(net: Net, data: seq<byte>): (s: Step<seq<byte>>)
    ensures s.net.accepts == net.accepts && s.net.events == net.events + [Send(data)]
    ensures net.answers == [] ==> s.result == Failure(NoReply) && s.net.answers == []
    ensures net.answers != [] ==> s.result == Success(net.answers[0]) && s.net.answers == net.answers[1..]
  {
    var sent := net.(events := net.events + [Send(data)]);
    if net.answers == [] then Step(Failure(NoReply), sent)
    else Step(Success(net.answers[0]), sent.(answers := net.answers[1..]))
  }

  /** sendAndRecv: the hex text, spaces removed, is unhexlified (a
      TypeError for an odd length or a non-hex character), sent, and the
      next answer is returned. */
  function SendAndRecv(net: Net, strdata: string): (s: Step<seq<byte>>)
    ensures Wire(strdata).None? ==> s == Step(Failure(TypeError), net)
    ensures Wire(strdata).Some? ==> s == Exchange(net, Wire(strdata).value)
  {
    match Wire(strdata)
    case None => Step(Failure(TypeError), net)
    case Some(data) => Exchange(net, data)
  }

  /** setupConnection: connect, send the COTP connection request and expect
      a connection confirm, then send the S7 setup communication and expect
      octet 9 of the answer to be zero. The two templates go on the wire as
      ConnectRequestFrame() and SetupFrame() (HandshakeTemplates). */
  function SetupConnection(net: Net): (s: Step<()>)
    ensures s.net.accepts == net.accepts
  {
    if !net.accepts then Step(Failure(ConnectTimeout), net.(events := net.events + [Connect]))
    else
      var connected := net.(events := net.events + [Connect]);
      var cr := Exchange(connected, ConnectRequestFrame());
      if cr.result.Failure? then Step(Failure(cr.result.error), cr.net)
      else if !CotpConfirmed(cr.result.value) then Step(Failure(CotpSyncFailed), cr.net)
      else
        var setup := Exchange(cr.net, SetupFrame());
        if setup.result.Failure? then Step(Failure(setup.result.error), setup.net)
        else if !SetupAccepted(setup.result.value) then Step(Failure(SetupFailed(setup.result.value)), setup.net)
        else Step(Success(()), setup.net)
  }

  /** sendAndRecv of the two handshake templates sends exactly the two
      handshake frames. */
  lemma HandshakeTemplates(net: Net)
    ensures SendAndRecv(net, ConnectRequestHex()) == Exchange(net, ConnectRequestFrame())
    ensures SendAndRecv(net, SetupHex()) == Exchange(net, SetupFrame())
  {
    ConnectRequestWire();
    SetupWire();
  }

  /** The handshake gets through exactly when the PLC accepts the
      connection, confirms it at the COTP level and accepts the setup; it
      then consumes two answers and leaves the connect and the two frames
      in the events. */
  lemma SetupConnectionSpec(net: Net)
    ensures var s := SetupConnection(net);
      && (s.result.Success? <==> HandshakeAnswers(net))
      && (s.result.Success? ==> s.net.events == net.events + Handshake() && s.net.answers == net.answers[2..])
  {
    var s := SetupConnection(net);
    if HandshakeAnswers(net) {
      assert net.events + [Connect] + [Send(ConnectRequestFrame())] + [Send(SetupFrame())] == net.events + Handshake();
    }
  }

  /** How the handshake fails: a refused connection is a timeout after the
      connect, and a first answer that is not a connection confirm stops it
      before the setup is sent. */
  lemma SetupConnectionFailures(net: Net)
    ensures !net.accepts ==> SetupConnection(net) == Step(Failure(ConnectTimeout), net.(events := net.events + [Connect]))
    ensures net.accepts && net.answers != [] && !CotpConfirmed(net.answers[0]) ==>
      SetupConnection(net).result == Failure(CotpSyncFailed)
      && SetupConnection(net).net.events == net.events + [Connect, Send(ConnectRequestFrame())]
  {
  }

  /** The handshake only sends TPKT packets. */
  lemma SetupConnectionFramed(net: Net)
    requires WellFramed(net.events)
    ensures WellFramed(SetupConnection(net).net.events)
  {
    WellFramedAppend(net.events, [Connect]);
    WellFramedAppend(net.events, [Connect, Send(ConnectRequestFrame())]);
    WellFramedAppend(net.events, Handshake());
    assert net.events + [Connect] + [Send(ConnectRequestFrame())] == net.events + [Connect, Send(ConnectRequestFrame())];
    assert net.events + [Connect, Send(ConnectRequestFrame())] + [Send(SetupFrame())] == net.events + Handshake();
  }

  // ---------------------------------------------------------------------
  // Reads: getAllData, getOutputData, getInputData, getMerkerData
  // ---------------------------------------------------------------------

  /** One read job: the template of the area goes on the wire as
      ReadFrame(area) (ReadTemplate), and printData decodes the answer
      (DecodeResponseReadsReply). */
  function ReadArea(net: Net, area: Area): (s: Step<seq<byte>>)
    ensures s.net.accepts == net.accepts && s.net.events == net.events + [Send(ReadFrame(area))]
    ensures s.net.answers == if net.answers == [] then [] else net.answers[1..]
    ensures s.result == if net.answers == [] then Failure(NoReply) else ReadReply(net.answers[0])
  {
    var r := Exchange(net, ReadFrame(area));
    if r.result.Failure? then Step(Failure(r.result.error), r.net)
    else Step(ReadReply(r.result.value), r.net)
  }

  /** sendAndRecv of the read template of an area sends its read frame;
      printData then decodes the answer as ReadReply does
      (DecodeResponseReadsReply). */
  lemma ReadTemplate(net: Net, area: Area)
    ensures SendAndRecv(net, ReadHex(area)) == Exchange(net, ReadFrame(area))
  {
    ReadWire(area);
  }

  /** The answers that make a read succeed. */
  predicate Readable(answer: seq<byte>) {
    ReadReply(answer).Success?
  }

  /** The first n answers all make a read succeed. */
  predicate AllReadable(answers: seq<seq<byte>>, n: nat)
    requires n <= |answers|
  {
    forall k :: 0 <= k < n ==> Readable(answers[k])
  }

  /** The first n answers read exactly when the first does and the next
      n-1 do. */
  lemma AllReadableCons(answers: seq<seq<byte>>, n: nat)
    ensures 1 <= n <= |answers| ==>
      (AllReadable(answers, n) <==> Readable(answers[0]) && AllReadable(answers[1..], n - 1))
  {
    if 1 <= n <= |answers| && Readable(answers[0]) && AllReadable(answers[1..], n - 1) {
      forall k | 0 <= k < n ensures Readable(answers[k]) {
        if k > 0 {
          assert answers[k] == answers[1..][k - 1];
        }
      }
    }
  }

  /** The read frames of the areas, in order. */
  function ReadSends(areas: seq<Area>): (es: seq<Event>)
    ensures |es| == |areas|
  {
    seq(|areas|, k requires 0 <= k < |areas| => Send(ReadFrame(areas[k])))
  }

  /** What printData shows for the areas, given their answers. */
  function Readings(areas: seq<Area>, answers: seq<seq<byte>>): (rs: seq<Reading>)
    requires |areas| <= |answers| && AllReadable(answers, |areas|)
    ensures |rs| == |areas|
  {
    seq(|areas|, k requires 0 <= k < |areas| => Reading(areas[k], ReadReply(answers[k]).value))
  }

  lemma ReadSendsCons(areas: seq<Area>)
    requires areas != []
    ensures ReadSends(areas) == [Send(ReadFrame(areas[0]))] + ReadSends(areas[1..])
  {
  }

  lemma ReadingsCons(areas: seq<Area>, answers: seq<seq<byte>>)
    requires areas != [] && |areas| <= |answers| && AllReadable(answers, |areas|)
    ensures AllReadable(answers[1..], |areas| - 1)
    ensures Readings(areas, answers)
      == [Reading(areas[0], ReadReply(answers[0]).value)] + Readings(areas[1..], answers[1..])
  {
  }

  /** Read jobs for the areas, one after the other on the open connection;
      the first one that fails stops the script. */
  function ReadAreas(net: Net, areas: seq<Area>): (s: Step<seq<Reading>>)
    ensures s.net.accepts == net.accepts
    ensures s.result.Success? <==> |areas| <= |net.answers| && AllReadable(net.answers, |areas|)
    decreases |areas|
  {
    if areas == [] then Step(Success([]), net)
    else
      AllReadableCons(net.answers, |areas|);
      var r := ReadArea(net, areas[0]);
      if r.result.Failure? then Step(Failure(r.result.error), r.net)
      else
        var rest := ReadAreas(r.net, areas[1..]);
        if rest.result.Failure? then rest
        else Step(Success([Reading(areas[0], r.result.value)] + rest.result.value), rest.net)
  }

  /** Successful reads send one read frame per area, in order, consume one
      answer each and report the four octets of each answer. */
  lemma {:induction false} ReadAreasSpec(net: Net, areas: seq<Area>)
    ensures var s := ReadAreas(net, areas);
      s.result.Success? ==>
        && s.net.events == net.events + ReadSends(areas)
        && s.net.answers == net.answers[|areas|..]
        && s.result.value == Readings(areas, net.answers)
    decreases |areas|
  {
    if areas != [] {
      var r := ReadArea(net, areas[0]);
      if r.result.Success? {
        ReadAreasSpec(r.net, areas[1..]);
        ReadSendsCons(areas);
        AppendOne(net.events, Send(ReadFrame(areas[0])), ReadSends(areas[1..]));
        if |areas| <= |net.answers| {
          assert net.answers[1..][|areas| - 1..] == net.answers[|areas|..];
          if AllReadable(net.answers, |areas|) {
            ReadingsCons(areas, net.answers);
          }
        }
      }
    }
  }

  /** A read session: the handshake, the reads, and the socket closed. */
  function ReadSession(net: Net, areas: seq<Area>): (s: Step<seq<Reading>>)
    ensures s.net.accepts == net.accepts
  {
    var c := SetupConnection(net);
    if c.result.Failure? then Step(Failure(c.result.error), c.net)
    else
      var r := ReadAreas(c.net, areas);
      if r.result.Failure? then r
      else Step(r.result, r.net.(events := r.net.events + [Close]))
  }

  /** A read session succeeds exactly when the handshake does and every
      answer after it reads; it sends the handshake and one read frame per
      area over one connection and closes it. */
  lemma ReadSessionSpec(net: Net, areas: seq<Area>)
    ensures var s := ReadSession(net, areas);
      && (s.result.Success? <==> HandshakeAnswers(net) && 2 + |areas| <= |net.answers| && AllReadable(net.answers[2..], |areas|))
      && (s.result.Success? ==>
            && s.net.events == net.events + Handshake() + ReadSends(areas) + [Close]
            && s.net.answers == net.answers[2 + |areas|..]
            && s.result.value == Readings(areas, net.answers[2..]))
  {
    SetupConnectionSpec(net);
    var c := SetupConnection(net);
    if c.result.Success? {
      ReadAreasSpec(c.net, areas);
    }
  }

  /** getAllData: the inputs, the outputs and the merkers, over one
      connection. */
  function GetAllData(net: Net): Step<seq<Reading>> {
    ReadSession(net, [Inputs, Outputs, Merkers])
  }

  /** getOutputData, getInputData and getMerkerData: one area. */
  function GetData(net: Net, area: Area): Step<seq<Reading>> {
    ReadSession(net, [area])
  }

  /** The three reads of getAllData send the inputs, outputs and merkers
      frames in that order. */
  lemma ThreeSends()
    ensures ReadSends([Inputs, Outputs, Merkers])
      == [Send(ReadFrame(Inputs)), Send(ReadFrame(Outputs)), Send(ReadFrame(Merkers))]
  {
  }

  /** The three reads of getAllData succeed exactly when their three
      answers read, and then report the three answers' octets in order. */
  lemma ThreeReads(answers: seq<seq<byte>>)
    requires |answers| >= 3
    ensures AllReadable(answers, 3) <==> Readable(answers[0]) && Readable(answers[1]) && Readable(answers[2])
    ensures AllReadable(answers, 3) ==>
      Readings([Inputs, Outputs, Merkers], answers)
      == [Reading(Inputs, ReadReply(answers[0]).value),
          Reading(Outputs, ReadReply(answers[1]).value),
          Reading(Merkers, ReadReply(answers[2]).value)]
  {
  }

  /** The answers getAllData needs: a handshake, then three answers
      that read. */
  predicate GetAllDataAnswers(net: Net) {
    && HandshakeAnswers(net) && 5 <= |net.answers|
    && Readable(net.answers[2]) && Readable(net.answers[3]) && Readable(net.answers[4])
  }

  /** getAllData opens one connection, sends the three read frames in the
      order inputs, outputs, merkers, and reports the four octets of each
      answer; it succeeds exactly when all five answers are good. */
  lemma GetAllDataSpec(net: Net)
    ensures var s := GetAllData(net);
      && (s.result.Success? <==> GetAllDataAnswers(net))
      && (s.result.Success? ==>
            && s.net.events == net.events + Handshake()
                 + [Send(ReadFrame(Inputs)), Send(ReadFrame(Outputs)), Send(ReadFrame(Merkers))] + [Close]
            && s.result.value == [Reading(Inputs, ReadReply(net.answers[2]).value),
                                  Reading(Outputs, ReadReply(net.answers[3]).value),
                                  Reading(Merkers, ReadReply(net.answers[4]).value)])
  {
    ReadSessionSpec(net, [Inputs, Outputs, Merkers]);
    ThreeSends();
    if 5 <= |net.answers| {
      var rest := net.answers[2..];
      ThreeReads(rest);
      assert rest[0] == net.answers[2] && rest[1] == net.answers[3] && rest[2] == net.answers[4];
    }
  }

  /** getOutputData, getInputData and getMerkerData read one area over a
      connection of their own. */
  lemma GetDataSpec(net: Net, area: Area)
    ensures var s := GetData(net, area);
      && (s.result.Success? <==> HandshakeAnswers(net) && 3 <= |net.answers| && Readable(net.answers[2]))
      && (s.result.Success? ==>
            && s.net.events == net.events + Handshake() + [Send(ReadFrame(area))] + [Close]
            && s.result.value == [Reading(area, ReadReply(net.answers[2]).value)])
  {
    ReadSessionSpec(net, [area]);
    OneSend(area);
    if 3 <= |net.answers| {
      var rest := net.answers[2..];
      OneRead(rest, area);
      assert rest[0] == net.answers[2];
    }
  }

  lemma OneSend(area: Area)
    ensures ReadSends([area]) == [Send(ReadFrame(area))]
  {
  }

  /** A single read succeeds exactly when its answer reads. */
  lemma OneRead(answers: seq<seq<byte>>, area: Area)
    requires |answers| >= 1
    ensures AllReadable(answers, 1) <==> Readable(answers[0])
    ensures AllReadable(answers, 1) ==> Readings([area], answers) == [Reading(area, ReadReply(answers[0]).value)]
  {
  }

  // ---------------------------------------------------------------------
  // Writes: setOutputs and setMerkers
  // ---------------------------------------------------------------------

  /** The end of a write once the connection is up: the job goes on the
      wire, whether the last octet of the answer is 0xFF is only printed,
      and the socket is closed. */
  function WriteJob(net: Net, strdata: string): (s: Step<bool>)
    ensures s.net.accepts == net.accepts
  {
    var w := SendAndRecv(net, strdata);
    if w.result.Failure? then Step(Failure(w.result.error), w.net)
    else Step(Success(WriteAcknowledged(w.result.value)), w.net.(events := w.net.events + [Close]))
  }

  /** A write job whose text unhexlifies to a frame sends that frame; it
      gets through exactly when the PLC answers, and reports whether the
      answer acknowledges the write. */
  lemma WriteJobSpec(net: Net, strdata: string, frame: seq<byte>)
    requires Wire(strdata) == Some(frame)
    ensures var s := WriteJob(net, strdata);
      && (s.result.Success? <==> net.answers != [])
      && (s.result.Failure? ==> s.result.error == NoReply && s.net.events == net.events + [Send(frame)])
      && (s.result.Success? ==>
            && s.result.value == WriteAcknowledged(net.answers[0])
            && s.net.events == net.events + [Send(frame)] + [Close]
            && s.net.answers == net.answers[1..])
  {
  }

  /** A write over a connection of its own: the handshake, then the job;
      a job that could not be put together (a bad merker offset) fails
      only once the handshake is through. */
  function WriteSession(net: Net, job: Result<string, Failure>): (s: Step<bool>)
    ensures s.net.accepts == net.accepts
  {
    var c := SetupConnection(net);
    if c.result.Failure? then Step(Failure(c.result.error), c.net)
    else if job.Failure? then Step(Failure(job.error), c.net)
    else WriteJob(c.net, job.value)
  }

  /** A write session for a job that unhexlifies to a frame succeeds
      exactly when the PLC answers all three frames; it then sends the
      handshake and the frame over one connection and closes it. */
  lemma WriteSessionSpec(net: Net, strdata: string, frame: seq<byte>)
    requires Wire(strdata) == Some(frame)
    ensures var s := WriteSession(net, Success(strdata));
      && (s.result.Success? <==> HandshakeAnswers(net) && 3 <= |net.answers|)
      && (s.result.Success? ==>
            && s.result.value == WriteAcknowledged(net.answers[2])
            && s.net.events == net.events + Handshake() + [Send(frame)] + [Close]
            && s.net.answers == net.answers[3..])
  {
    SetupConnectionSpec(net);
    var c := SetupConnection(net);
    if c.result.Success? {
      WriteJobSpec(c.net, strdata, frame);
      if 3 <= |net.answers| {
        assert net.answers[2..][1..] == net.answers[3..];
      }
    }
  }

  /** A job that could not be put together fails after the handshake,
      with no write frame sent. */
  lemma WriteSessionRefused(net: Net, error: Failure)
    ensures var s := WriteSession(net, Failure(error));
      && s.result.Failure?
      && (HandshakeAnswers(net) ==> s.result.error == error && s.net.events == net.events + Handshake())
  {
    SetupConnectionSpec(net);
  }

  /** setOutputs: the bit string is reversed and read as a base-2 number
      before any connection is made (int() fails on a non-bit text), and
      its hex digits go into the write job. */
  function SetOutputs(net: Net, sOutputs: string): (s: Step<bool>)
    ensures s.net.accepts == net.accepts
  {
    match PayloadText(sOutputs)
    case None => Step(Failure(ValueError), net)
    case Some(hexstring) => WriteSession(net, Success(WriteOutputsHex(hexstring)))
  }

  /** An empty text, or one with a character int(..., 2) cannot place (a
      space, a sign, a binary digit or a prefix letter), is refused before
      the network is touched. */
  lemma SetOutputsRefusesText(net: Net, sOutputs: string)
    ensures sOutputs == [] || !IntChars(sOutputs, 2) ==> SetOutputs(net, sOutputs) == Step(Failure(ValueError), net)
  {
  }

  /** A keyword hands setOutputs the caller's text unfiltered: "1 " and
      "1b0" write the same octet as "1", while "1-" reads as -1, whose
      payload "x1" does not unhexlify, so the write fails with TypeError
      once the handshake is through. */
  lemma SetOutputsTextForms(net: Net)
    ensures SetOutputs(net, "1 ") == SetOutputs(net, "1")
    ensures SetOutputs(net, "1b0") == SetOutputs(net, "1")
    ensures var s := SetOutputs(net, "1-");
      && s.result.Failure?
      && (HandshakeAnswers(net) ==> s.result.error == TypeError && s.net.events == net.events + Handshake())
  {
    PayloadTextForms();
    UnreadablePayload("x1");
    SetupConnectionSpec(net);
  }

  /** A payload text with an 'x' in front does not unhexlify. */
  lemma UnreadablePayload(hexstring: string)
    requires hexstring != [] && hexstring[0] == 'x'
    ensures Wire(WriteOutputsHex(hexstring)).None?
  {
    var head := "03000024" + "02f080" + "32010000732f000e00050501120a1002000100008200000000040008";
    assert WriteOutputsHex(hexstring) == head + hexstring;
    StripSpacesConcat(head, hexstring);
    var x := StripSpaces(hexstring);
    assert x == ['x'] + StripSpaces(hexstring[1..]);
    var t := StripSpaces(head) + x;
    assert t[|StripSpaces(head)|] == 'x';
  }

  /** Writing one to eight outputs sends the handshake and one write frame
      whose data octet has bit k set exactly when character k of the text
      is '1' (PayloadBits), over one connection; it succeeds exactly when
      the PLC answers all three frames. */
  lemma SetOutputsSpec(net: Net, sOutputs: string)
    requires IsBitString(sOutputs) && 1 <= |sOutputs| <= 8
    ensures LsbFirst(sOutputs) < 256
    ensures var s := SetOutputs(net, sOutputs);
      && (s.result.Success? <==> HandshakeAnswers(net) && 3 <= |net.answers|)
      && (s.result.Success? ==>
            && s.result.value == WriteAcknowledged(net.answers[2])
            && s.net.events == net.events + Handshake() + [Send(WriteOutputsFrame(LsbFirst(sOutputs) as byte))] + [Close]
            && s.net.answers == net.answers[3..])
  {
    ShortBits(sOutputs);
    var v := LsbFirst(sOutputs) as byte;
    WriteOutputsWire(v);
    WriteSessionSpec(net, WriteOutputsHex(Hexlify([v])), WriteOutputsFrame(v));
  }

  /** The merker write job: bin() of the offset gives the bit address (a
      TypeError on a text, a ValueError on a negative number), and the job
      carries it with the payload octet and a zero octet. */
  function MerkersJob(offset: PyValue, hexstring: string): (job: Result<string, Failure>)
    ensures offset.Str? ==> job == Failure(TypeError)
    ensures offset.Int? && offset.i < 0 ==> job == Failure(ValueError)
    ensures offset.Int? && 0 <= offset.i < 0x20_0000 ==>
      job == Success(WriteMerkersHex(Hexlify(BigEndian3(offset.i * 8)), hexstring))
  {
    match offset
    case Str(_) => Failure(TypeError)
    case Int(i) =>
      match MerkerAddressHex(i)
      case None => Failure(ValueError)
      case Some(hMerkerOffset) => Success(WriteMerkersHex(hMerkerOffset, hexstring))
  }

  /** From offset 0x20_0000 on, the bit address no longer fits the three
      address octets, yet the job is still built with the longer address
      text. Past sys.maxint its 'L' makes unhexlify raise, so nothing is
      sent; below it, any frame that is sent is longer than the 37 octets
      its TPKT header declares. */
  lemma MerkersJobLongAddress(offset: int, v: byte)
    requires offset >= 0x20_0000
    ensures var job := MerkersJob(Int(offset), Hexlify([v]));
      && job.Success?
      && (offset * 8 > MaxInt ==> Wire(job.value).None?)
      && (Wire(job.value).Some? ==> !IsTpkt(Wire(job.value).value))
  {
    LongMerkerAddress(offset);
    var h := MerkerAddressHex(offset).value;
    var x := Hexlify([v]);
    HexlifyHasNoSpace([v]);
    assert MerkersJob(Int(offset), x) == Success(WriteMerkersHex(h, x));
    WriteMerkersLength(h, x);
    if offset * 8 > MaxInt {
      WriteMerkersRefusesLong(h, x);
    }
  }

  /** setMerkers: the payload is computed first, the handshake follows,
      and only then is the offset looked at. */
  function SetMerkers(net: Net, sMerkers: string, offset: PyValue): (s: Step<bool>)
    ensures s.net.accepts == net.accepts
  {
    match PayloadText(sMerkers)
    case None => Step(Failure(ValueError), net)
    case Some(hexstring) => WriteSession(net, MerkersJob(offset, hexstring))
  }

  /** An empty text, or one with a character int(..., 2) cannot place, is
      refused before the network is touched, whatever the offset. */
  lemma SetMerkersRefusesText(net: Net, sMerkers: string, offset: PyValue)
    ensures sMerkers == [] || !IntChars(sMerkers, 2) ==> SetMerkers(net, sMerkers, offset) == Step(Failure(ValueError), net)
  {
  }

  /** Writing one to eight merkers at a byte offset sends the handshake and
      one write frame addressing bit offset * 8; it succeeds exactly when
      the PLC answers all three frames. */
  lemma SetMerkersSpec(net: Net, sMerkers: string, offset: int)
    requires IsBitString(sMerkers) && 1 <= |sMerkers| <= 8 && 0 <= offset < 0x20_0000
    ensures LsbFirst(sMerkers) < 256
    ensures var s := SetMerkers(net, sMerkers, Int(offset));
      && (s.result.Success? <==> HandshakeAnswers(net) && 3 <= |net.answers|)
      && (s.result.Success? ==>
            && s.result.value == WriteAcknowledged(net.answers[2])
            && s.net.events == net.events + Handshake() + [Send(WriteMerkersFrame(offset * 8, LsbFirst(sMerkers) as byte))] + [Close]
            && s.net.answers == net.answers[3..])
  {
    ShortBits(sMerkers);
    var v := LsbFirst(sMerkers) as byte;
    WriteMerkersWire(offset * 8, v);
    WriteSessionSpec(net, WriteMerkersHex(Hexlify(BigEndian3(offset * 8)), Hexlify([v])), WriteMerkersFrame(offset * 8, v));
  }

  /** An offset that is a text or a negative number is only looked at after
      the handshake: the connection is made, both handshake frames are
      sent, and then the write fails without a write frame. */
  lemma SetMerkersLateOffsetCheck(net: Net, sMerkers: string, offset: PyValue)
    requires sMerkers != [] && IsBitString(sMerkers)
    requires offset.Str? || offset.i < 0
    ensures var s := SetMerkers(net, sMerkers, offset);
      && s.result.Failure?
      && (HandshakeAnswers(net) ==>
            && s.result.error == (if offset.Str? then TypeError else ValueError)
            && s.net.events == net.events + Handshake())
  {
    WriteSessionRefused(net, if offset.Str? then TypeError else ValueError);
  }

  /** setMerkers with an offset from 0x20_0000 on, after a handshake the
      PLC accepts: either unhexlify raises TypeError once the handshake is
      sent (always so past sys.maxint), or the frame that is sent declares
      37 octets in its TPKT header and is longer. */
  lemma SetMerkersLongOffset(net: Net, sMerkers: string, offset: int)
    requires IsBitString(sMerkers) && 1 <= |sMerkers| <= 8 && offset >= 0x20_0000
    requires HandshakeAnswers(net) && 3 <= |net.answers|
    ensures LsbFirst(sMerkers) < 256
    ensures var s := SetMerkers(net, sMerkers, Int(offset));
      var job := MerkersJob(Int(offset), Hexlify([LsbFirst(sMerkers) as byte]));
      && job.Success?
      && (offset * 8 > MaxInt ==> Wire(job.value).None?)
      && (Wire(job.value).None? ==> s.result == Failure(TypeError) && s.net.events == net.events + Handshake())
      && (Wire(job.value).Some? ==>
            && !IsTpkt(Wire(job.value).value)
            && s.net.events == net.events + Handshake() + [Send(Wire(job.value).value)] + [Close])
  {
    ShortBits(sMerkers);
    var v := LsbFirst(sMerkers) as byte;
    MerkersJobLongAddress(offset, v);
    var job := MerkersJob(Int(offset), Hexlify([v]));
    assert SetMerkers(net, sMerkers, Int(offset)) == WriteSession(net, job);
    match Wire(job.value)
    case None =>
      SetupConnectionSpec(net);
    case Some(frame) =>
      WriteSessionSpec(net, job.value, frame);
  }

  // ---------------------------------------------------------------------
  // Every frame the script sends is a TPKT packet
  // ---------------------------------------------------------------------

  lemma WellFramedSend(events: seq<Event>, frame: seq<byte>)
    requires WellFramed(events) && IsTpkt(frame)
    ensures WellFramed(events + [Send(frame)])
  {
    WellFramedAppend(events, [Send(frame)]);
  }

  lemma WellFramedClose(events: seq<Event>)
    requires WellFramed(events)
    ensures WellFramed(events + [Close])
  {
    WellFramedAppend(events, [Close]);
  }

  /** Read jobs only send TPKT packets, whether they succeed or not. */
  lemma {:induction false} ReadAreasFramed(net: Net, areas: seq<Area>)
    requires WellFramed(net.events)
    ensures WellFramed(ReadAreas(net, areas).net.events)
    decreases |areas|
  {
    if areas != [] {
      var r := ReadArea(net, areas[0]);
      WellFramedSend(net.events, ReadFrame(areas[0]));
      if r.result.Success? {
        ReadAreasFramed(r.net, areas[1..]);
      }
    }
  }

  /** A read session only sends TPKT packets. */
  lemma ReadSessionFramed(net: Net, areas: seq<Area>)
    requires WellFramed(net.events)
    ensures WellFramed(ReadSession(net, areas).net.events)
  {
    SetupConnectionFramed(net);
    var c := SetupConnection(net);
    if c.result.Success? {
      ReadAreasFramed(c.net, areas);
      WellFramedClose(ReadAreas(c.net, areas).net.events);
    }
  }

  /** A write session whose job unhexlifies to a TPKT packet only sends
      TPKT packets. */
  lemma WriteSessionFramed(net: Net, job: Result<string, Failure>)
    requires WellFramed(net.events)
    requires job.Success? ==> Wire(job.value).Some? && IsTpkt(Wire(job.value).value)
    ensures WellFramed(WriteSession(net, job).net.events)
  {
    SetupConnectionFramed(net);
    var c := SetupConnection(net);
    if c.result.Success? && job.Success? {
      var frame := Wire(job.value).value;
      WellFramedSend(c.net.events, frame);
      WellFramedClose(c.net.events + [Send(frame)]);
    }
  }

  /** Writing one to eight outputs only sends TPKT packets. */
  lemma SetOutputsFramed(net: Net, sOutputs: string)
    requires WellFramed(net.events)
    requires IsBitString(sOutputs) && 1 <= |sOutputs| <= 8
    ensures WellFramed(SetOutputs(net, sOutputs).net.events)
  {
    ShortBits(sOutputs);
    var v := LsbFirst(sOutputs) as byte;
    WriteOutputsWire(v);
    WriteSessionFramed(net, Success(WriteOutputsHex(Hexlify([v]))));
  }

  /** Writing one to eight merkers only sends TPKT packets, whatever the
      offset, as long as the bit address fits the three address octets. */
  lemma SetMerkersFramed(net: Net, sMerkers: string, offset: PyValue)
    requires WellFramed(net.events)
    requires IsBitString(sMerkers) && 1 <= |sMerkers| <= 8
    requires offset.Int? ==> offset.i < 0x20_0000
    ensures WellFramed(SetMerkers(net, sMerkers, offset).net.events)
  {
    ShortBits(sMerkers);
    var v := LsbFirst(sMerkers) as byte;
    if offset.Int? && offset.i >= 0 {
      WriteMerkersWire(offset.i * 8, v);
    }
    WriteSessionFramed(net, MerkersJob(offset, Hexlify([v])));
  }
}
