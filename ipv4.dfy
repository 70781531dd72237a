/** isIpv4: the target-address check run before any connection.

    The script matches ^(\d{0,3})\.(\d{0,3})\.(\d{0,3})\.(\d{0,3})$, turns
    each group into an integer, and accepts when the first is at least 1 and
    none exceeds 255. A group may match empty, and int('') then raises
    ValueError: that exception is part of the model.
 */
module Ipv4 {
  import opened Outcomes
  import opened PyText

  /** The text the pattern's `$` sees: Python's `$` also matches just
      before a single newline that ends the string. */
  function Subject(ip: string): (s: string)
    ensures s == ip || s + "\n" == ip
  {
    if ip != [] && ip[|ip| - 1] == '\n' then ip[..|ip| - 1] else ip
  }

  /** What one \d{0,3} group may match. */
  predicate IsDigitGroup(g: string) {
    |g| <= 3 && AllDigits(g, 10)
  }

  /** The groups as re.match returns them, or None when the pattern does
      not match. */
  function MatchGroups(ip: string): (m: Option<seq<string>>)
    ensures m.Some? ==> IsDottedShape(ip, m.value)
  {
    var parts := Split(Subject(ip), '.');
    JoinSplit(Subject(ip), '.');
    if |parts| == 4 && forall k :: 0 <= k < 4 ==> IsDigitGroup(parts[k]) then Some(parts) else None
  }

  /** ip (less one final newline) is the four digit groups gs joined by dots. */
  ghost predicate IsDottedShape(ip: string, gs: seq<string>) {
    |gs| == 4 && Subject(ip) == Join(gs, '.') && forall k :: 0 <= k < 4 ==> IsDigitGroup(gs[k])
  }

  /** The accepted literals: four groups of one to three ASCII digits
      separated by dots, the first worth at least 1 and each at most 255,
      optionally followed by one newline. */
  ghost predicate IsIpv4Literal(ip: string) {
    exists gs :: IsDottedShape(ip, gs) && IsOctets(gs)
  }

  ghost predicate IsOctets(gs: seq<string>)
    requires |gs| == 4 && forall k :: 0 <= k < 4 ==> AllDigits(gs[k], 10)
  {
    && (forall k :: 0 <= k < 4 ==> gs[k] != [] && FromDigits(gs[k], 10) <= 255)
    && FromDigits(gs[0], 10) >= 1
  }

  /** The inputs on which isIpv4 raises ValueError: the shape matches but
      a group is empty. */
  ghost predicate HasEmptyGroup(ip: string) {
    exists gs :: IsDottedShape(ip, gs) && (exists k :: 0 <= k < 4 && gs[k] == [])
  }

  /** The pattern matches exactly the dotted shapes, and the groups it
      returns are the only ones that fit. */
  lemma MatchGroupsExactly(ip: string, gs: seq<string>)
    ensures MatchGroups(ip) == Some(gs) <==> IsDottedShape(ip, gs)
  {
    if IsDottedShape(ip, gs) {
      assert DigitValue('.') < 0;
      assert forall k :: 0 <= k < |gs| ==> '.' !in gs[k];
      SplitJoin(gs, '.');
    }
  }

  /** What isIpv4 computes, as one expression: no match gives False, an
      empty group raises, otherwise the two range checks decide. */
  function Ipv4Check(ip: string): (r: Result<bool, Failure>)
    ensures r.Failure? ==> r.error == ValueError
  {
    match MatchGroups(ip)
    case None => Success(false)
    case Some(groups) => CheckQuad(groups)
  }

  /** The verdict on the four groups of a match. */
  function CheckQuad(groups: seq<string>): Result<bool, Failure>
    requires |groups| == 4 && forall k :: 0 <= k < 4 ==> IsDigitGroup(groups[k])
  {
    if exists k :: 0 <= k < 4 && groups[k] == [] then Failure(ValueError)
    else
      assert forall k :: 0 <= k < 4 ==> IsDigitGroup(groups[k]) && AllDigits(groups[k], 10);
      Success(FromDigits(groups[0], 10) >= 1
              && forall k :: 0 <= k < 4 ==> 0 <= FromDigits(groups[k], 10) <= 255)
  }

  /** The check accepts exactly the dotted-quad literals and raises exactly
      on a dotted shape with an empty group. */
  lemma Ipv4CheckSpec(ip: string)
    ensures Ipv4Check(ip) == Success(true) <==> IsIpv4Literal(ip)
    ensures Ipv4Check(ip).Failure? <==> HasEmptyGroup(ip)
  {
    match MatchGroups(ip)
    case None =>
      forall gs | IsDottedShape(ip, gs) ensures false {
        MatchGroupsExactly(ip, gs);
      }
    case Some(groups) =>
      forall gs | IsDottedShape(ip, gs) ensures gs == groups {
        MatchGroupsExactly(ip, gs);
      }
  }

  /** Once the groups of a dotted shape are known, the check is decided
      octet by octet. */
  lemma Ipv4CheckGroups(ip: string, gs: seq<string>)
    requires IsDottedShape(ip, gs)
    ensures Ipv4Check(ip) ==
      if gs[0] == [] || gs[1] == [] || gs[2] == [] || gs[3] == [] then Failure(ValueError)
      else Success(1 <= FromDigits(gs[0], 10) && FromDigits(gs[0], 10) <= 255 && FromDigits(gs[1], 10) <= 255
                   && FromDigits(gs[2], 10) <= 255 && FromDigits(gs[3], 10) <= 255)
  {
    MatchGroupsExactly(ip, gs);
    if !(gs[0] == [] || gs[1] == [] || gs[2] == [] || gs[3] == []) {
      assert !exists k :: 0 <= k < 4 && gs[k] == [];
    }
  }

  /** `$` lets one final newline through: the check does not see it. */
  lemma TrailingNewline(ip: string)
    requires ip == [] || ip[|ip| - 1] != '\n'
    ensures Ipv4Check(ip + "\n") == Ipv4Check(ip)
  {
    assert (ip + "\n")[..|ip|] == ip;
    assert Subject(ip + "\n") == Subject(ip);
  }

  /** isIpv4 as the script runs it: match the pattern, then check the
      groups. */
  method IsIpv4(ip: string) returns (r: Result<bool, Failure>)
    ensures r == Ipv4Check(ip)
  {
    var m := MatchGroups(ip);
    if m.None? {
      return Success(false);
    }
    r := CheckGroups(m.value);
  }

  /** The rest of isIpv4: the groups are converted one by one into `quad`,
      then the first octet and every octet are checked. */
  method CheckGroups(groups: seq<string>) returns (r: Result<bool, Failure>)
    requires |groups| == 4 && forall k :: 0 <= k < 4 ==> IsDigitGroup(groups[k])
    ensures r == CheckQuad(groups)
  {
    var quad: seq<int> := [];
    for k := 0 to 4
      invariant |quad| == k
      invariant forall t :: 0 <= t < k ==> groups[t] != [] && quad[t] == FromDigits(groups[t], 10)
    {
      var number := ParseBase(groups[k], 10);
      if number.None? {
        assert groups[k] == [];
        return Failure(ValueError);
      }
      quad := quad + [number.value];
    }
    if quad[0] < 1 {
      return Success(false);
    }
    for k := 0 to 4
      invariant forall t :: 0 <= t < k ==> 0 <= quad[t] <= 255
    {
      if quad[k] > 255 || quad[k] < 0 {
        return Success(false);
      }
    }
    return Success(true);
  }
}

/** The literals quoted for the address check, decided by the model. */
module Ipv4Examples {
  import opened Outcomes
  import opened PyText
  import opened Ipv4

  lemma GroupValue(g: string)
    requires 1 <= |g| <= 3 && AllDigits(g, 10)
    ensures |g| == 1 ==> FromDigits(g, 10) == DigitValue(g[0])
    ensures |g| == 2 ==> FromDigits(g, 10) == DigitValue(g[0]) * 10 + DigitValue(g[1])
    ensures |g| == 3 ==> FromDigits(g, 10) == DigitValue(g[0]) * 100 + DigitValue(g[1]) * 10 + DigitValue(g[2])
  {
    var g1 := g[..|g| - 1];
    if |g| >= 2 {
      var g2 := g1[..|g1| - 1];
      if |g| == 3 {
        assert g2[..|g2| - 1] == [];
      } else {
        assert g2 == [];
      }
    } else {
      assert g1 == [];
    }
  }

  lemma FourGroups(a: string, b: string, c: string, d: string)
    ensures Join([a, b, c, d], '.') == a + "." + b + "." + c + "." + d
  {
    var gs := [a, b, c, d];
    assert gs[1..] == [b, c, d];
    assert gs[1..][1..] == [c, d];
    assert gs[1..][1..][1..] == [d];
    assert Join([c, d], '.') == c + "." + d;
    assert Join([b, c, d], '.') == b + "." + (c + "." + d);
    assert Join(gs, '.') == a + "." + (b + "." + (c + "." + d));
  }

  /** Four digit groups joined by dots have that dotted shape. */
  lemma ShapeOf(a: string, b: string, c: string, d: string)
    requires IsDigitGroup(a) && IsDigitGroup(b) && IsDigitGroup(c) && IsDigitGroup(d)
    ensures IsDottedShape(a + "." + b + "." + c + "." + d, [a, b, c, d])
  {
    var ip := a + "." + b + "." + c + "." + d;
    FourGroups(a, b, c, d);
    if d != [] {
      assert ip[|ip| - 1] == d[|d| - 1];
      assert DigitValue('\n') < 0;
    }
    assert Subject(ip) == ip;
  }

  // Each address below is written as its four groups joined by dots.

  /** The example address of the -t help text is accepted. */
  lemma Accepts192()
    ensures Ipv4Check("192" + "." + "168" + "." + "1" + "." + "50") == Success(true)
  {
    GroupValue("192");
    GroupValue("168");
    GroupValue("1");
    GroupValue("50");
    ShapeOf("192", "168", "1", "50");
    Ipv4CheckGroups("192" + "." + "168" + "." + "1" + "." + "50", ["192", "168", "1", "50"]);
  }

  /** An octet above 255 is refused. */
  lemma Rejects256()
    ensures Ipv4Check("256" + "." + "1" + "." + "1" + "." + "1") == Success(false)
  {
    GroupValue("256");
    ShapeOf("256", "1", "1", "1");
    Ipv4CheckGroups("256" + "." + "1" + "." + "1" + "." + "1", ["256", "1", "1", "1"]);
  }

  /** The first octet must be at least 1: 0.0.0.0 is refused. */
  lemma RejectsZeroFirstOctet()
    ensures Ipv4Check("0" + "." + "0" + "." + "0" + "." + "0") == Success(false)
  {
    GroupValue("0");
    ShapeOf("0", "0", "0", "0");
    Ipv4CheckGroups("0" + "." + "0" + "." + "0" + "." + "0", ["0", "0", "0", "0"]);
  }

  /** An empty group reaches int('') and raises. */
  lemma EmptyGroupRaises()
    ensures Ipv4Check("10" + "." + "0" + "." + "0" + "." + "") == Failure(ValueError)
  {
    ShapeOf("10", "0", "0", "");
    Ipv4CheckGroups("10" + "." + "0" + "." + "0" + "." + "", ["10", "0", "0", ""]);
  }
}
