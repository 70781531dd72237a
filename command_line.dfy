/** The command line: parseArgs and the main program.

    The arguments are taken as argparse delivers them: the text of -t, the
    int of -p, the flag -r, and the texts of -o and -m when given.
 */
module CommandLine {
  import opened Outcomes
  import opened PyText
  import opened Ipv4
  import opened Bitfield
  import opened Frames
  import opened Replies
  import opened Operations

  // ---------------------------------------------------------------------
  // re.sub(r'[^01]+', '', s)
  // ---------------------------------------------------------------------

  /** The text with every character other than '0' and '1' removed. */
  function Keep01(s: string): (r: string)
    ensures |r| <= |s|
  {
    if s == [] then []
    else (if s[0] == '0' || s[0] == '1' then [s[0]] else []) + Keep01(s[1..])
  }

  /** What is left is a bit string. */
  lemma {:induction false} Keep01IsBits(s: string)
    ensures IsBitString(Keep01(s))
    decreases |s|
  {
    if s != [] {
      Keep01IsBits(s[1..]);
      var head: string := if s[0] == '0' || s[0] == '1' then [s[0]] else [];
      assert Keep01(s) == head + Keep01(s[1..]);
      forall k | 0 <= k < |Keep01(s)| ensures Keep01(s)[k] == '0' || Keep01(s)[k] == '1' {
        if k >= |head| {
          assert Keep01(s)[k] == Keep01(s[1..])[k - |head|];
        }
      }
    }
  }

  /** Removing works piece by piece. */
  lemma {:induction false} Keep01Concat(a: string, b: string)
    ensures Keep01(a + b) == Keep01(a) + Keep01(b)
    decreases |a|
  {
    if a == [] {
      assert a + b == b;
    } else {
      var head: string := if a[0] == '0' || a[0] == '1' then [a[0]] else [];
      assert (a + b)[0] == a[0];
      assert (a + b)[1..] == a[1..] + b;
      assert Keep01(a + b) == head + Keep01(a[1..] + b);
      Keep01Concat(a[1..], b);
      assert Keep01(a) == head + Keep01(a[1..]);
    }
  }

  /** A text is left as it is exactly when it is already a bit string. */
  lemma {:induction false} Keep01Keeps(s: string)
    ensures Keep01(s) == s <==> IsBitString(s)
    decreases |s|
  {
    if s != [] {
      Keep01Keeps(s[1..]);
      if IsBitString(s) {
        assert IsBitString(s[1..]) by {
          forall k | 0 <= k < |s[1..]| ensures s[1..][k] == '0' || s[1..][k] == '1' {
            assert s[1..][k] == s[k + 1];
          }
        }
      } else if Keep01(s) == s {
        Keep01IsBits(s);
      }
    }
  }

  /** Removing twice removes nothing more. */
  lemma Keep01Idempotent(s: string)
    ensures Keep01(Keep01(s)) == Keep01(s)
  {
    Keep01IsBits(s);
    Keep01Keeps(Keep01(s));
  }

  // ---------------------------------------------------------------------
  // parseArgs
  // ---------------------------------------------------------------------

  /** The settings parseArgs leaves in the globals. */
  datatype Config = Config(ip: string, port: int, outputs: string, merkers: string, offset: int, read: bool)

  /** The port: -p, unless -t has a ':' part, whose text int() must read. */
  function PortOf(t: string, p: int): (r: Result<int, Failure>)
    ensures |Split(t, ':')| == 1 ==> r == Success(p)
    ensures |Split(t, ':')| > 1 ==>
      (r.Success? <==> PyInt(Split(t, ':')[1], 10).Some?)
      && (r.Success? ==> r.value == PyInt(Split(t, ':')[1], 10).value)
      && (r.Failure? ==> r.error == PortNotRecognized(Split(t, ':')[1]))
  {
    var pieces := Split(t, ':');
    if |pieces| > 1 then
      match PyInt(pieces[1], 10)
      case None => Failure(PortNotRecognized(pieces[1]))
      case Some(port) => Success(port)
    else Success(p)
  }

  /** -m "bits,offset": the bits before the first ',', kept to '0' and
      '1', and the offset after it, 0 when there is none. */
  function MerkersOf(m: string): (r: Result<(string, int), Failure>)
    ensures r.Success? ==> r.value.0 == Keep01(Split(m, ',')[0])
    ensures |Split(m, ',')| == 1 ==> r.Success? && r.value.1 == 0
    ensures |Split(m, ',')| > 1 ==>
      (r.Success? <==> PyInt(Split(m, ',')[1], 10).Some?)
      && (r.Success? ==> r.value.1 == PyInt(Split(m, ',')[1], 10).value)
      && (r.Failure? ==> r.error == OffsetNotDecimal(Split(m, ',')[1]))
  {
    var pieces := Split(m, ',');
    var sMerkers := Keep01(pieces[0]);
    if |pieces| > 1 then
      match PyInt(pieces[1], 10)
      case None => Failure(OffsetNotDecimal(pieces[1]))
      case Some(offset) => Success((sMerkers, offset))
    else Success((sMerkers, 0))
  }

  /** parseArgs: the address before the first ':' of -t must pass isIpv4,
      the port must read, -o and -m are kept to their '0' and '1'
      characters and the merker offset must read; -r then drops both
      writes, and a run without writes reads. An empty -o or -m counts as
      not given. */
  function ParseArgs(t: string, p: int, r: bool, o: Option<string>, m: Option<string>): (c: Result<Config, Failure>)
  {
    var sIP := Split(t, ':')[0];
    match Ipv4Check(sIP)
    case Failure(e) => Failure(e)
    case Success(valid) =>
      if !valid then Failure(InvalidAddress)
      else
        match PortOf(t, p)
        case Failure(e) => Failure(e)
        case Success(port) =>
          var sOutputs := if o.Some? && o.value != [] then Keep01(o.value) else [];
          match (if m.Some? && m.value != [] then MerkersOf(m.value) else Success(([], 0)))
          case Failure(e) => Failure(e)
          case Success(merkers) =>
            var (sMerkers, offset) := merkers;
            if r then Success(Config(sIP, port, [], [], offset, true))
            else Success(Config(sIP, port, sOutputs, sMerkers, offset, sOutputs == [] && sMerkers == []))
  }

  /** What a parsed command line always satisfies: the address is a dotted
      quad, the writes are bit strings, the outputs are -o kept to '0' and
      '1', the merkers and their offset are what MerkersOf reads from -m,
      -r leaves no write, and the run reads exactly when -r was given or no
      write is left. */
  lemma ParseArgsSpec(t: string, p: int, r: bool, o: Option<string>, m: Option<string>)
    ensures var c := ParseArgs(t, p, r, o, m);
      c.Success? ==>
        && c.value.ip == Split(t, ':')[0] && IsIpv4Literal(c.value.ip)
        && PortOf(t, p) == Success(c.value.port)
        && IsBitString(c.value.outputs) && IsBitString(c.value.merkers)
        && (r ==> c.value.outputs == [] && c.value.merkers == [])
        && (c.value.read <==> r || (c.value.outputs == [] && c.value.merkers == []))
        && (!r ==> c.value.outputs == if o.Some? && o.value != [] then Keep01(o.value) else [])
        && (m.Some? && m.value != [] ==>
              && MerkersOf(m.value).Success?
              && c.value.offset == MerkersOf(m.value).value.1
              && (!r ==> c.value.merkers == MerkersOf(m.value).value.0))
        && (m.None? || m.value == [] ==> c.value.merkers == [] && c.value.offset == 0)
  {
    Ipv4CheckSpec(Split(t, ':')[0]);
    if o.Some? {
      Keep01IsBits(o.value);
    }
    if m.Some? {
      Keep01IsBits(Split(m.value, ',')[0]);
    }
  }

  /** The checks that stop parseArgs, in their order: the address, the
      port, then the merker offset. */
  lemma ParseArgsFailures(t: string, p: int, r: bool, o: Option<string>, m: Option<string>)
    ensures !IsIpv4Literal(Split(t, ':')[0]) ==> ParseArgs(t, p, r, o, m).Failure?
    ensures IsIpv4Literal(Split(t, ':')[0]) && PortOf(t, p).Failure? ==>
      ParseArgs(t, p, r, o, m) == Failure(PortNotRecognized(Split(t, ':')[1]))
    ensures IsIpv4Literal(Split(t, ':')[0]) && PortOf(t, p).Success? && m.Some? && m.value != [] && MerkersOf(m.value).Failure? ==>
      ParseArgs(t, p, r, o, m) == Failure(OffsetNotDecimal(Split(m.value, ',')[1]))
  {
    Ipv4CheckSpec(Split(t, ':')[0]);
  }

  /** The converse of ParseArgsFailures: a command line whose address is a
      dotted quad, whose port reads and whose merker offset (if any) reads
      is accepted, whatever -r and -o say. */
  lemma ParseArgsSucceeds(t: string, p: int, r: bool, o: Option<string>, m: Option<string>)
    ensures ParseArgs(t, p, r, o, m).Success? <==>
      && IsIpv4Literal(Split(t, ':')[0])
      && PortOf(t, p).Success?
      && (m.None? || m.value == [] || MerkersOf(m.value).Success?)
  {
    Ipv4CheckSpec(Split(t, ':')[0]);
  }

  /** Outputs given with separators or other characters are written as
      their '0' and '1' characters alone. */
  lemma ParseArgsOutputs(t: string, p: int, o: string)
    requires o != [] && ParseArgs(t, p, false, Some(o), None).Success?
    ensures ParseArgs(t, p, false, Some(o), None).value.outputs == Keep01(o)
    ensures ParseArgs(t, p, false, Some(o), None).value.read <==> Keep01(o) == []
  {
    assert Ipv4Check(Split(t, ':')[0]) == Success(true);
    assert PortOf(t, p).Success?;
  }

  // ---------------------------------------------------------------------
  // The main program
  // ---------------------------------------------------------------------

  /** What a run reports: whether each write was acknowledged (None when
      there was no write) and the three readings. */
  datatype Report = Report(outputsWritten: Option<bool>, merkersWritten: Option<bool>, readings: seq<Reading>)

  /** The writes the configuration asks for, outputs first, each over a
      connection of its own; the first failure stops the script. */
  function Writes(net: Net, c: Config): (s: Step<(Option<bool>, Option<bool>)>)
    ensures s.net.accepts == net.accepts
    ensures c.outputs == [] && c.merkers == [] ==> s == Step(Success((None, None)), net)
  {
    var w := if c.outputs == [] then Step(Success(false), net) else SetOutputs(net, c.outputs);
    if w.result.Failure? then Step(Failure(w.result.error), w.net)
    else
      var outputsWritten := if c.outputs == [] then None else Some(w.result.value);
      var v := if c.merkers == [] then Step(Success(false), w.net) else SetMerkers(w.net, c.merkers, Int(c.offset));
      if v.result.Failure? then Step(Failure(v.result.error), v.net)
      else Step(Success((outputsWritten, if c.merkers == [] then None else Some(v.result.value))), v.net)
  }

  /** The main program after parseArgs: the writes, then always one
      getAllData. Whether -r was given only changes what is printed. */
  function Run(net: Net, c: Config): (s: Step<Report>)
    ensures s.net.accepts == net.accepts
  {
    var w := Writes(net, c);
    if w.result.Failure? then Step(Failure(w.result.error), w.net)
    else
      var g := GetAllData(w.net);
      if g.result.Failure? then Step(Failure(g.result.error), g.net)
      else Step(Success(Report(w.result.value.0, w.result.value.1, g.result.value)), g.net)
  }

  /** A run without writes is a single getAllData. */
  lemma ReadOnlyRun(net: Net, c: Config)
    requires c.outputs == [] && c.merkers == []
    ensures var s := Run(net, c);
      && s.net == GetAllData(net).net
      && (s.result.Success? <==> GetAllData(net).result.Success?)
      && (s.result.Success? ==> s.result.value == Report(None, None, GetAllData(net).result.value))
  {
  }

  /** Every run that gets through its writes ends with one getAllData
      on the network the writes left, and reports what it reads. */
  lemma RunEndsWithReads(net: Net, c: Config)
    ensures var w := Writes(net, c); var s := Run(net, c);
      && (w.result.Failure? ==> s == Step(Failure(w.result.error), w.net))
      && (w.result.Success? ==>
            && s.net == GetAllData(w.net).net
            && (s.result.Success? <==> GetAllData(w.net).result.Success?)
            && (s.result.Success? ==>
                  s.result.value == Report(w.result.value.0, w.result.value.1, GetAllData(w.net).result.value)))
  {
  }

  /** With outputs and no merkers, the writes are one setOutputs. */
  lemma OutputsOnlyWrites(net: Net, c: Config)
    requires c.outputs != [] && c.merkers == []
    ensures var w := Writes(net, c); var o := SetOutputs(net, c.outputs);
      && w.net == o.net
      && (w.result.Success? <==> o.result.Success?)
      && (w.result.Success? ==> w.result.value == (Some(o.result.value), None))
  {
  }

  /** A run that writes one to eight outputs opens two connections, the
      write and then the three reads, and reports the acknowledgement of
      the write's answer. */
  lemma OutputsRun(net: Net, c: Config)
    requires IsBitString(c.outputs) && 1 <= |c.outputs| <= 8 && c.merkers == []
    ensures LsbFirst(c.outputs) < 256
    ensures var s := Run(net, c);
      s.result.Success? ==>
        && HandshakeAnswers(net) && 8 <= |net.answers|
        && s.net.events == net.events + Handshake() + [Send(WriteOutputsFrame(LsbFirst(c.outputs) as byte))] + [Close]
             + Handshake() + [Send(ReadFrame(Inputs)), Send(ReadFrame(Outputs)), Send(ReadFrame(Merkers))] + [Close]
        && s.result.value.outputsWritten == Some(WriteAcknowledged(net.answers[2]))
        && s.result.value.merkersWritten == None
  {
    SetOutputsSpec(net, c.outputs);
    OutputsOnlyWrites(net, c);
    RunEndsWithReads(net, c);
    var w := SetOutputs(net, c.outputs);
    if w.result.Success? {
      GetAllDataSpec(w.net);
    }
  }

  /** The answers a run that writes outputs needs: a handshake and an
      answer for the write, then what getAllData needs. */
  predicate OutputsRunAnswers(net: Net) {
    HandshakeAnswers(net) && 3 <= |net.answers| && GetAllDataAnswers(net.(answers := net.answers[3..]))
  }

  /** Such a run succeeds exactly when the PLC answers all eight frames
      well. */
  lemma OutputsRunSucceeds(net: Net, c: Config)
    requires IsBitString(c.outputs) && 1 <= |c.outputs| <= 8 && c.merkers == []
    ensures Run(net, c).result.Success? <==> OutputsRunAnswers(net)
  {
    SetOutputsSpec(net, c.outputs);
    OutputsOnlyWrites(net, c);
    RunEndsWithReads(net, c);
    var w := SetOutputs(net, c.outputs);
    if w.result.Success? {
      GetAllDataSpec(w.net);
    }
  }

  /** With merkers and no outputs, the writes are one setMerkers at the
      parsed offset. */
  lemma MerkersOnlyWrites(net: Net, c: Config)
    requires c.outputs == [] && c.merkers != []
    ensures var w := Writes(net, c); var v := SetMerkers(net, c.merkers, Int(c.offset));
      && w.net == v.net
      && (w.result.Success? <==> v.result.Success?)
      && (w.result.Success? ==> w.result.value == (None, Some(v.result.value)))
  {
  }

  /** A run that writes one to eight merkers at an offset the address
      field holds opens two connections, the write at bit address
      offset * 8 and then the three reads, and reports the acknowledgement
      of the write's answer. */
  lemma MerkersRun(net: Net, c: Config)
    requires IsBitString(c.merkers) && 1 <= |c.merkers| <= 8 && c.outputs == []
    requires 0 <= c.offset < 0x20_0000
    ensures LsbFirst(c.merkers) < 256
    ensures var s := Run(net, c);
      s.result.Success? ==>
        && HandshakeAnswers(net) && 8 <= |net.answers|
        && s.net.events == net.events + Handshake() + [Send(WriteMerkersFrame(c.offset * 8, LsbFirst(c.merkers) as byte))] + [Close]
             + Handshake() + [Send(ReadFrame(Inputs)), Send(ReadFrame(Outputs)), Send(ReadFrame(Merkers))] + [Close]
        && s.result.value.outputsWritten == None
        && s.result.value.merkersWritten == Some(WriteAcknowledged(net.answers[2]))
  {
    SetMerkersSpec(net, c.merkers, c.offset);
    MerkersOnlyWrites(net, c);
    RunEndsWithReads(net, c);
    var v := SetMerkers(net, c.merkers, Int(c.offset));
    if v.result.Success? {
      GetAllDataSpec(v.net);
    }
  }

  /** With outputs and merkers, the writes are setOutputs and then
      setMerkers on the network it left, each over its own connection;
      each write reports the acknowledgement of its own answer. */
  lemma BothWrites(net: Net, c: Config)
    requires IsBitString(c.outputs) && 1 <= |c.outputs| <= 8
    requires IsBitString(c.merkers) && 1 <= |c.merkers| <= 8
    requires 0 <= c.offset < 0x20_0000
    ensures LsbFirst(c.outputs) < 256 && LsbFirst(c.merkers) < 256
    ensures var w := Writes(net, c);
      w.result.Success? ==>
        && HandshakeAnswers(net) && 6 <= |net.answers|
        && HandshakeAnswers(net.(answers := net.answers[3..]))
        && w.net.events == net.events
             + Handshake() + [Send(WriteOutputsFrame(LsbFirst(c.outputs) as byte))] + [Close]
             + Handshake() + [Send(WriteMerkersFrame(c.offset * 8, LsbFirst(c.merkers) as byte))] + [Close]
        && w.net.answers == net.answers[6..]
        && w.result.value == (Some(WriteAcknowledged(net.answers[2])), Some(WriteAcknowledged(net.answers[5])))
  {
    SetOutputsSpec(net, c.outputs);
    ShortBits(c.merkers);
    TwoWrites(net, c);
    var o := SetOutputs(net, c.outputs);
    if o.result.Success? {
      SetMerkersSpec(o.net, c.merkers, c.offset);
      var v := SetMerkers(o.net, c.merkers, Int(c.offset));
      if v.result.Success? {
        AnswersAfter(net.answers, o.net.answers);
      }
    }
  }

  /** With both writes, Writes is setOutputs and then setMerkers. */
  lemma TwoWrites(net: Net, c: Config)
    requires c.outputs != [] && c.merkers != []
    ensures var o := SetOutputs(net, c.outputs); var w := Writes(net, c);
      && (o.result.Failure? ==> w.result.Failure?)
      && (o.result.Success? ==>
            var v := SetMerkers(o.net, c.merkers, Int(c.offset));
            && (w.result.Success? <==> v.result.Success?)
            && (w.result.Success? ==> w.net == v.net && w.result.value == (Some(o.result.value), Some(v.result.value))))
  {
  }

  lemma AnswersAfter(answers: seq<seq<byte>>, rest: seq<seq<byte>>)
    requires 3 <= |answers| && rest == answers[3..] && 3 <= |rest|
    ensures rest[2] == answers[5] && rest[3..] == answers[6..]
  {
  }

  /** A run that writes outputs and merkers opens three connections, in
      the script's order: outputs, merkers, then the three reads, and
      reports both acknowledgements. */
  lemma BothWritesRun(net: Net, c: Config)
    requires IsBitString(c.outputs) && 1 <= |c.outputs| <= 8
    requires IsBitString(c.merkers) && 1 <= |c.merkers| <= 8
    requires 0 <= c.offset < 0x20_0000
    ensures LsbFirst(c.outputs) < 256 && LsbFirst(c.merkers) < 256
    ensures var s := Run(net, c);
      s.result.Success? ==>
        && HandshakeAnswers(net) && 11 <= |net.answers|
        && HandshakeAnswers(net.(answers := net.answers[3..]))
        && s.net.events == net.events
             + Handshake() + [Send(WriteOutputsFrame(LsbFirst(c.outputs) as byte))] + [Close]
             + Handshake() + [Send(WriteMerkersFrame(c.offset * 8, LsbFirst(c.merkers) as byte))] + [Close]
             + Handshake() + [Send(ReadFrame(Inputs)), Send(ReadFrame(Outputs)), Send(ReadFrame(Merkers))] + [Close]
        && s.result.value.outputsWritten == Some(WriteAcknowledged(net.answers[2]))
        && s.result.value.merkersWritten == Some(WriteAcknowledged(net.answers[5]))
  {
    BothWrites(net, c);
    RunEndsWithReads(net, c);
    var w := Writes(net, c);
    if w.result.Success? {
      GetAllDataSpec(w.net);
    }
  }
}
