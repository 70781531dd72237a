/** The Robot Framework keywords: "Read S7-1200 parameters", "Write to
    S7-1200 outputs" and "Write to S7-1200 merkers".

    The keywords check their arguments and call the same operations as the
    command line. The two write keywords report a bad address or offset
    with finish(..., True), which only logs, so the checks do not stop
    them; WriteToOutputsAsWritten and WriteToMerkersAsWritten keep that
    behaviour, WriteToOutputs and WriteToMerkers stop at the first bad
    argument, as the read keyword and the command line do.
 */
module Keywords {
  import opened Outcomes
  import opened PyText
  import opened Ipv4
  import Ipv4Examples
  import opened Bitfield
  import opened Frames
  import opened Replies
  import opened Operations

  /** The read scopes the read keyword knows. */
  predicate KnownScope(scope: string) {
    scope == "ALL" || scope == "OUTPUTS" || scope == "INPUTS" || scope == "MERKERS"
  }

  /** "Read S7-1200 parameters": an address isIpv4 refuses stops the
      keyword (finish without the Robot flag exits); ALL reads the three
      areas over one connection, OUTPUTS, INPUTS and MERKERS one area each;
      any other scope is logged as an error and nothing is read. */
  function ReadParameters(net: Net, ip: string, scope: string): (s: Step<seq<Reading>>)
    ensures s.net.accepts == net.accepts
  {
    match Ipv4Check(ip)
    case Failure(e) => Step(Failure(e), net)
    case Success(valid) =>
      if !valid then Step(Failure(InvalidAddress), net)
      else if scope == "ALL" then GetAllData(net)
      else if scope == "OUTPUTS" then GetData(net, Outputs)
      else if scope == "INPUTS" then GetData(net, Inputs)
      else if scope == "MERKERS" then GetData(net, Merkers)
      else Step(Failure(UnknownScope(scope)), net)
  }

  /** The read keyword touches the network exactly for a dotted-quad
      address and a known scope, and then reads the areas the scope names;
      otherwise it fails and leaves the network as it was. */
  lemma ReadParametersSpec(net: Net, ip: string, scope: string)
    ensures var s := ReadParameters(net, ip, scope);
      !(IsIpv4Literal(ip) && KnownScope(scope)) ==> s.result.Failure? && s.net == net
    ensures IsIpv4Literal(ip) && scope == "ALL" ==> ReadParameters(net, ip, scope) == GetAllData(net)
    ensures IsIpv4Literal(ip) && scope == "OUTPUTS" ==> ReadParameters(net, ip, scope) == GetData(net, Outputs)
    ensures IsIpv4Literal(ip) && scope == "INPUTS" ==> ReadParameters(net, ip, scope) == GetData(net, Inputs)
    ensures IsIpv4Literal(ip) && scope == "MERKERS" ==> ReadParameters(net, ip, scope) == GetData(net, Merkers)
    ensures IsIpv4Literal(ip) && !KnownScope(scope) ==>
      ReadParameters(net, ip, scope) == Step(Failure(UnknownScope(scope)), net)
  {
    Ipv4CheckSpec(ip);
  }

  // ---------------------------------------------------------------------
  // "Write to S7-1200 outputs"
  // ---------------------------------------------------------------------

  /** The keyword as written: a refused address is only logged, and the
      write goes ahead to it. */
  function WriteToOutputsAsWritten(net: Net, ip: string, outputs: string): (s: Step<bool>)
    ensures s.net.accepts == net.accepts
  {
    match Ipv4Check(ip)
    case Failure(e) => Step(Failure(e), net)
    case Success(_) => SetOutputs(net, outputs)
  }

  /** The keyword as its check intends: a refused address stops it. */
  function WriteToOutputs(net: Net, ip: string, outputs: string): (s: Step<bool>)
    ensures s.net.accepts == net.accepts
  {
    match Ipv4Check(ip)
    case Failure(e) => Step(Failure(e), net)
    case Success(valid) =>
      if !valid then Step(Failure(InvalidAddress), net)
      else SetOutputs(net, outputs)
  }

  /** The corrected keyword writes only to a dotted-quad address, and then
      exactly as setOutputs does. */
  lemma WriteToOutputsSpec(net: Net, ip: string, outputs: string)
    ensures !IsIpv4Literal(ip) ==>
      WriteToOutputs(net, ip, outputs).result.Failure? && WriteToOutputs(net, ip, outputs).net == net
    ensures IsIpv4Literal(ip) ==> WriteToOutputs(net, ip, outputs) == SetOutputs(net, outputs)
  {
    Ipv4CheckSpec(ip);
  }

  /** The keyword as written ignores the verdict of the address check: for
      every address that does not make isIpv4 raise, it writes as
      setOutputs does. */
  lemma WriteToOutputsIgnoresCheck(net: Net, ip: string, outputs: string)
    ensures !HasEmptyGroup(ip) ==> WriteToOutputsAsWritten(net, ip, outputs) == SetOutputs(net, outputs)
  {
    Ipv4CheckSpec(ip);
  }

  /** The address 0.0.0.0 is refused by isIpv4 (RejectsZeroFirstOctet),
      yet the keyword as written connects and sends the write frame to it;
      the corrected keyword does not touch the network. */
  lemma WriteToUnspecifiedAddress(net: Net, ip: string)
    requires HandshakeAnswers(net) && 3 <= |net.answers|
    requires ip == "0" + "." + "0" + "." + "0" + "." + "0"
    ensures Ipv4Check(ip) == Success(false)
    ensures var s := WriteToOutputsAsWritten(net, ip, "1");
      s.result.Success? && s.net.events == net.events + Handshake() + [Send(WriteOutputsFrame(1))] + [Close]
    ensures WriteToOutputs(net, ip, "1") == Step(Failure(InvalidAddress), net)
  {
    Ipv4Examples.RejectsZeroFirstOctet();
    SetOutputsSpec(net, "1");
    assert LsbFirst("1") == 1 by {
      assert "1"[1..] == [];
    }
  }

  // ---------------------------------------------------------------------
  // "Write to S7-1200 merkers"
  // ---------------------------------------------------------------------

  /** `offset = int(offset)` inside a try: an int stays as it is, a text
      that int() reads becomes that int, and any other text stays a text
      (the except branch only logs). */
  function RobotInt(offset: PyValue): (o: PyValue)
    ensures offset.Int? ==> o == offset
    ensures offset.Str? ==> (o.Int? <==> PyInt(offset.s, 10).Some?)
    ensures offset.Str? && o.Int? ==> o.i == PyInt(offset.s, 10).value
    ensures o.Str? ==> o == offset
  {
    match offset
    case Int(_) => offset
    case Str(t) =>
      match PyInt(t, 10)
      case None => offset
      case Some(i) => Int(i)
  }

  /** The keyword as written. An int offset outside 0..3 makes the message
      `'...' + offset` raise a TypeError before the network is touched; a
      text offset that int() refused compares greater than 3 in Python 2,
      so the same message concatenates, is only logged, and the text goes
      on to setMerkers. */
  function WriteToMerkersAsWritten(net: Net, ip: string, merkers: string, offset: PyValue): (s: Step<bool>)
    ensures s.net.accepts == net.accepts
  {
    match Ipv4Check(ip)
    case Failure(e) => Step(Failure(e), net)
    case Success(_) =>
      var o := RobotInt(offset);
      if o.Int? && (o.i < 0 || o.i > 3) then Step(Failure(TypeError), net)
      else SetMerkers(net, merkers, o)
  }

  /** As written, an int offset outside 0..3 stops the keyword before any
      connection: the message `'...' + offset` raises TypeError. Any address
      without an empty group gets this far, whatever isIpv4's verdict; an
      offset in 0..3 goes on to setMerkers. */
  lemma WriteToMerkersAsWrittenInt(net: Net, ip: string, merkers: string, i: int)
    requires !HasEmptyGroup(ip)
    ensures i < 0 || i > 3 ==> WriteToMerkersAsWritten(net, ip, merkers, Int(i)) == Step(Failure(TypeError), net)
    ensures 0 <= i <= 3 ==> WriteToMerkersAsWritten(net, ip, merkers, Int(i)) == SetMerkers(net, merkers, Int(i))
  {
    Ipv4CheckSpec(ip);
  }

  /** The keyword as its checks intend: a refused address, an offset that
      is not a decimal and an offset outside 0..3 each stop it. */
  function WriteToMerkers(net: Net, ip: string, merkers: string, offset: PyValue): (s: Step<bool>)
    ensures s.net.accepts == net.accepts
  {
    match Ipv4Check(ip)
    case Failure(e) => Step(Failure(e), net)
    case Success(valid) =>
      if !valid then Step(Failure(InvalidAddress), net)
      else
        match RobotInt(offset)
        case Str(t) => Step(Failure(OffsetNotDecimal(t)), net)
        case Int(i) =>
          if i < 0 || i > 3 then Step(Failure(OffsetOutOfRange(i)), net)
          else SetMerkers(net, merkers, Int(i))
  }

  /** The corrected keyword writes only to a dotted-quad address with an
      offset that reads as one of 0..3, and then exactly as setMerkers does
      with that offset; every bit address it can send lies in the first
      four merker bytes. */
  lemma WriteToMerkersSpec(net: Net, ip: string, merkers: string, offset: PyValue)
    ensures var s := WriteToMerkers(net, ip, merkers, offset);
      s.net != net ==> IsIpv4Literal(ip) && RobotInt(offset).Int? && 0 <= RobotInt(offset).i <= 3
    ensures IsIpv4Literal(ip) && RobotInt(offset).Int? && 0 <= RobotInt(offset).i <= 3 ==>
      WriteToMerkers(net, ip, merkers, offset) == SetMerkers(net, merkers, RobotInt(offset))
    ensures IsIpv4Literal(ip) && RobotInt(offset).Str? ==>
      WriteToMerkers(net, ip, merkers, offset) == Step(Failure(OffsetNotDecimal(offset.s)), net)
    ensures IsIpv4Literal(ip) && RobotInt(offset).Int? && !(0 <= RobotInt(offset).i <= 3) ==>
      WriteToMerkers(net, ip, merkers, offset) == Step(Failure(OffsetOutOfRange(RobotInt(offset).i)), net)
  {
    Ipv4CheckSpec(ip);
  }

  /** int() refuses "three". */
  lemma NotDecimal()
    ensures PyInt("three", 10) == None
  {
    var s := "three";
    PyIntChars(s, 10);
    assert !IntChars(s, 10) by {
      assert s[0] == 't' && DigitValue('t') < 0;
    }
  }

  /** A merker offset int() refuses (such as "three", NotDecimal) is only
      logged by the keyword as written: it connects, sends both handshake
      frames and then fails in bin(); the corrected keyword does not touch
      the network. */
  lemma WriteWithTextOffset(net: Net, ip: string, merkers: string, text: string)
    requires HandshakeAnswers(net) && IsIpv4Literal(ip)
    requires merkers != [] && IsBitString(merkers) && PyInt(text, 10).None?
    ensures var s := WriteToMerkersAsWritten(net, ip, merkers, Str(text));
      s.result == Failure(TypeError) && s.net.events == net.events + Handshake()
    ensures WriteToMerkers(net, ip, merkers, Str(text)) == Step(Failure(OffsetNotDecimal(text)), net)
  {
    Ipv4CheckSpec(ip);
    SetMerkersLateOffsetCheck(net, merkers, Str(text));
  }
}
