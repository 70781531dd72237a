/** The Python 2 string and byte built-ins the script relies on, each written
    out for the inputs the script gives it: slicing with negative and
    out-of-range bounds, binascii.hexlify/unhexlify, str.replace(' ', ''),
    hex(), bin() and str() of integers, int(text, base), str.zfill,
    str.split and s[::-1].
 */
module PyText {
  import opened Outcomes

  // ---------------------------------------------------------------------
  // Slicing: s[lo:hi]
  // ---------------------------------------------------------------------

  /** Python's normalisation of one slice bound against a length n:
      a negative bound counts from the end, and both ends are clamped. */
  function Bound(i: int, n: nat): (k: nat)
    ensures k <= n
  {
    if i < 0 then (if n + i < 0 then 0 else n + i)
    else if i > n then n
    else i
  }

  /** s[lo:hi] as Python evaluates it: never fails, empty when the
      normalised bounds cross. */
  function Slice<T>(s: seq<T>, lo: int, hi: int): (r: seq<T>)
    ensures 0 <= lo <= hi <= |s| ==> r == s[lo..hi]
    ensures |r| <= |s|
  {
    var a, b := Bound(lo, |s|), Bound(hi, |s|);
    if a < b then s[a..b] else []
  }

  /** On a text of 2(k+j) items, the slice [-2j:-2j+2] (up to the end
      for j = 1) is the slice [2k:2k+2]. */
  lemma PairFromEnd<T>(s: seq<T>, j: nat, k: nat, lo: int, hi: int)
    requires 1 <= j && |s| == 2 * (k + j)
    requires lo == -2 * j && hi == if j == 1 then |s| else -2 * j + 2
    ensures Slice(s, lo, hi) == Slice(s, 2 * k, 2 * k + 2)
  {
    assert Bound(lo, |s|) == 2 * k;
    assert Bound(hi, |s|) == 2 * k + 2;
  }

  // ---------------------------------------------------------------------
  // Digits
  // ---------------------------------------------------------------------

  /** The value of a digit character as int(.., 16) and binascii read it
      (both cases accepted), or -1 for any other character. */
  function DigitValue(c: char): (v: int)
    ensures -1 <= v < 16
    ensures v >= 0 <==> ('0' <= c <= '9' || 'a' <= c <= 'f' || 'A' <= c <= 'F')
  {
    if '0' <= c <= '9' then c as int - '0' as int
    else if 'a' <= c <= 'f' then c as int - 'a' as int + 10
    else if 'A' <= c <= 'F' then c as int - 'A' as int + 10
    else -1
  }

  /** The lower-case digit that hex(), bin(), str() and hexlify print. */
  function DigitChar(n: int): (c: char)
    requires 0 <= n < 16
    ensures DigitValue(c) == n
    ensures c != ' ' && c != '-'
  {
    if n < 10 then ('0' as int + n) as char else ('a' as int + n - 10) as char
  }

  predicate AllDigits(s: string, base: nat) {
    forall k :: 0 <= k < |s| ==> 0 <= DigitValue(s[k]) < base
  }

  /** The number a string of digits denotes, most significant first. */
  function FromDigits(s: string, base: nat): nat
    requires AllDigits(s, base)
  {
    if s == [] then 0
    else
      AllDigitsPrefix(s, base);
      FromDigits(s[..|s| - 1], base) * base + DigitValue(s[|s| - 1])
  }

  lemma AllDigitsPrefix(s: string, base: nat)
    requires s != [] && AllDigits(s, base)
    ensures AllDigits(s[..|s| - 1], base)
  {
    var t := s[..|s| - 1];
    forall k | 0 <= k < |t| ensures 0 <= DigitValue(t[k]) < base {
      assert t[k] == s[k];
    }
  }

  /** int(s, base) on a text that can only hold digits of the base, such as
      hexlify output, a group of the address pattern or the tail of bin():
      None stands for the ValueError on the empty text or a character that
      is not a digit. PyInt reads any text, and PyIntOnDigits shows the two
      agree on such texts. */
  function ParseBase(s: string, base: nat): (r: Option<nat>)
    requires 2 <= base <= 16
    ensures r.Some? <==> s != [] && AllDigits(s, base)
  {
    if s != [] && AllDigits(s, base) then Some(FromDigits(s, base)) else None
  }

  lemma {:induction false} FromDigitsAppend(s: string, t: string, base: nat)
    requires AllDigits(s, base) && AllDigits(t, base)
    ensures AllDigits(s + t, base)
    ensures FromDigits(s + t, base) == FromDigits(s, base) * Power(base, |t|) + FromDigits(t, base)
    decreases |t|
  {
    AllDigitsConcat(s, t, base);
    if t == [] {
      assert s + t == s;
    } else {
      var t' := t[..|t| - 1];
      assert AllDigits(t', base);
      assert (s + t)[..|s + t| - 1] == s + t';
      FromDigitsAppend(s, t', base);
      var a, p, b, d := FromDigits(s, base), Power(base, |t'|), FromDigits(t', base), DigitValue(t[|t| - 1]);
      assert FromDigits(s + t, base) == (a * p + b) * base + d;
      assert FromDigits(t, base) == b * base + d;
      assert Power(base, |t|) == base * p;
      Distribute(a, p, b, base);
    }
  }

  lemma Distribute(a: int, p: int, b: int, c: int)
    ensures (a * p + b) * c == a * (c * p) + b * c
  {
  }

  function Power(b: nat, e: nat): (p: nat)
    ensures b >= 1 ==> p >= 1
  {
    if e == 0 then 1 else b * Power(b, e - 1)
  }

  /** The digits of n in base `base`, without leading zeros: hex(n)[2:] for
      base 16, bin(n)[2:] for base 2 and str(n) for base 10, n >= 0. */
  function Digits(n: nat, base: nat): (s: string)
    requires 2 <= base <= 16
    ensures 1 <= |s|
    ensures AllDigits(s, base) && FromDigits(s, base) == n
    ensures s[0] == '0' ==> n == 0
    decreases n
  {
    if n < base then [DigitChar(n)]
    else
      DivMod(n, base);
      var q, d := n / base, n % base;
      var prefix := Digits(q, base);
      var s := prefix + [DigitChar(d)];
      AllDigitsConcat(prefix, [DigitChar(d)], base);
      assert s[..|s| - 1] == prefix;
      assert s[0] == prefix[0];
      s
  }

  lemma DivMod(n: nat, base: nat)
    requires base >= 2
    ensures (n / base) * base + n % base == n
    ensures 0 <= n % base < base
    ensures n >= base ==> n / base < n
  {
  }

  lemma AllDigitsConcat(s: string, t: string, base: nat)
    requires AllDigits(s, base) && AllDigits(t, base)
    ensures AllDigits(s + t, base)
  {
    forall k | 0 <= k < |s + t| ensures 0 <= DigitValue((s + t)[k]) < base {
      if k < |s| { assert (s + t)[k] == s[k]; } else { assert (s + t)[k] == t[k - |s|]; }
    }
  }

  /** hex(n)[2:]: the script strips the "0x" prefix. */
  function HexDigits(n: nat): string {
    Digits(n, 16)
  }

  /** sys.maxint of a 64-bit Python 2: int() results above it are longs. */
  const MaxInt: nat := 0x7FFF_FFFF_FFFF_FFFF

  /** hex(n)[2:] in Python 2: the digits, followed by an 'L' for a long. */
  function HexText(n: nat): string {
    HexDigits(n) + (if n > MaxInt then "L" else "")
  }

  /** hex(n)[2:] for any int: hex() writes "-0x" in front of a negative
      number, so the slice keeps its "x"; -(MaxInt + 1) is still an int. */
  function HexSlice(n: int): (h: string)
    ensures n >= 0 ==> h == HexText(n)
    ensures n < 0 ==> h != [] && h[0] == 'x'
  {
    if n >= 0 then HexText(n)
    else "x" + HexDigits(-n) + (if -n > MaxInt + 1 then "L" else "")
  }

  /** bin(n): a "0b" prefix, and "-0b" for a negative n. */
  function Bin(n: int): (s: string)
    ensures n >= 0 ==> s == "0b" + Digits(n, 2)
    ensures n < 0 ==> s == "-0b" + Digits(-n, 2)
  {
    if n < 0 then "-0b" + Digits(-n, 2) else "0b" + Digits(n, 2)
  }

  /** s.zfill(width) for a text without a sign: left-padded with '0'. */
  function ZFill(s: string, width: nat): (r: string)
    ensures |r| == if |s| >= width then |s| else width
    ensures r[|r| - |s|..] == s
    ensures forall k :: 0 <= k < |r| - |s| ==> r[k] == '0'
  {
    if |s| >= width then s else seq(width - |s|, _ => '0') + s
  }

  /** The fixed-width rendering of n in `width` lower-case hex digits,
      most significant first (n taken modulo 16^width). */
  function FixedHex(n: nat, width: nat): (s: string)
    ensures |s| == width
  {
    if width == 0 then "" else FixedHex(n / 16, width - 1) + [DigitChar(n % 16)]
  }

  /** Padding hex(n)[2:] with zeros to a width that holds n gives the
      fixed-width rendering. */
  lemma {:induction false} ZFillHexDigits(n: nat, width: nat)
    requires 1 <= width && n < Power(16, width)
    ensures ZFill(HexDigits(n), width) == FixedHex(n, width)
    decreases width
  {
    if n < 16 {
      FixedHexSmall(n, width);
    } else {
      var d := DigitChar(n % 16);
      assert HexDigits(n) == HexDigits(n / 16) + [d];
      DropHexDigit(n, width);
      ZFillHexDigits(n / 16, width - 1);
      ZFillAppend(HexDigits(n / 16), d, width - 1);
    }
  }

  /** Dropping the last hex digit leaves a number one digit narrower. */
  lemma DropHexDigit(n: nat, width: nat)
    requires 1 <= width && n < Power(16, width)
    ensures n / 16 < Power(16, width - 1)
  {
    var p := Power(16, width - 1);
    assert Power(16, width) == 16 * p;
    DivMod(n, 16);
  }

  /** A number of at least 16^k has more than k hex digits. */
  lemma {:induction false} HexDigitsLength(n: nat, k: nat)
    requires Power(16, k) <= n
    ensures |HexDigits(n)| > k
    decreases k
  {
    if k > 0 {
      var p := Power(16, k - 1);
      assert Power(16, k) == 16 * p;
      PowerAtLeastOne(k - 1);
      DivMod(n, 16);
      assert p <= n / 16;
      assert HexDigits(n) == HexDigits(n / 16) + [DigitChar(n % 16)];
      HexDigitsLength(n / 16, k - 1);
    }
  }

  lemma {:induction false} PowerAtLeastOne(e: nat)
    ensures Power(16, e) >= 1
    decreases e
  {
    if e > 0 {
      PowerAtLeastOne(e - 1);
    }
  }

  /** A text of digits holds no space. */
  lemma DigitsHaveNoSpace(s: string, base: nat)
    requires AllDigits(s, base)
    ensures ' ' !in s
  {
    forall k | 0 <= k < |s| ensures s[k] != ' ' {
      assert 0 <= DigitValue(s[k]);
    }
  }

  /** Padding commutes with appending one character. */
  lemma ZFillAppend(g: string, c: char, width: nat)
    ensures ZFill(g + [c], width + 1) == ZFill(g, width) + [c]
  {
    if |g| < width {
      var z := seq(width - |g|, _ => '0');
      assert z + (g + [c]) == (z + g) + [c];
    }
  }

  lemma FixedHexSmall(n: nat, width: nat)
    requires 1 <= width && n < 16
    ensures ZFill(HexDigits(n), width) == FixedHex(n, width)
  {
    var c := DigitChar(n);
    assert HexDigits(n) == [c];
    assert FixedHex(n, width) == FixedHex(0, width - 1) + [c] by {
      assert n / 16 == 0 && n % 16 == n;
    }
    ZeroFixedHex(width - 1);
  }

  lemma {:induction false} ZeroFixedHex(width: nat)
    ensures FixedHex(0, width) == seq(width, _ => '0')
  {
    if width > 0 {
      ZeroFixedHex(width - 1);
    }
  }

  // ---------------------------------------------------------------------
  // binascii and str.replace
  // ---------------------------------------------------------------------

  /** binascii.hexlify: two lower-case hex digits per byte. */
  function Hexlify(bs: seq<byte>): (h: string)
    ensures |h| == 2 * |bs|
  {
    if bs == [] then "" else [DigitChar(bs[0] / 16), DigitChar(bs[0] % 16)] + Hexlify(bs[1..])
  }

  /** binascii.unhexlify: None stands for the TypeError it raises on an odd
      length or a character that is not a hex digit. */
  function Unhexlify(s: string): (r: Option<seq<byte>>)
    ensures r.Some? <==> |s| % 2 == 0 && AllDigits(s, 16)
    ensures r.Some? ==> 2 * |r.value| == |s|
    decreases |s|
  {
    if |s| == 0 then Some([])
    else if |s| == 1 then None
    else if DigitValue(s[0]) < 0 || DigitValue(s[1]) < 0 then None
    else match Unhexlify(s[2..])
      case None =>
        assert !(|s| % 2 == 0 && AllDigits(s, 16)) by {
          if |s[2..]| % 2 == 0 {
            assert !AllDigits(s[2..], 16);
            var k :| 0 <= k < |s[2..]| && !(0 <= DigitValue(s[2..][k]) < 16);
            assert s[2..][k] == s[k + 2];
          }
        }
        None
      case Some(rest) => Some([DigitValue(s[0]) * 16 + DigitValue(s[1])] + rest)
  }

  lemma {:induction false} HexlifyConcat(a: seq<byte>, b: seq<byte>)
    ensures Hexlify(a + b) == Hexlify(a) + Hexlify(b)
    decreases |a|
  {
    if a == [] {
      assert a + b == b;
    } else {
      assert (a + b)[1..] == a[1..] + b;
      HexlifyConcat(a[1..], b);
    }
  }

  /** unhexlify undoes hexlify. */
  lemma {:induction false} UnhexlifyHexlify(bs: seq<byte>)
    ensures Unhexlify(Hexlify(bs)) == Some(bs)
    decreases |bs|
  {
    if bs != [] {
      var h := Hexlify(bs);
      assert h[2..] == Hexlify(bs[1..]);
      UnhexlifyHexlify(bs[1..]);
      assert [bs[0]] + bs[1..] == bs;
    }
  }

  /** unhexlify works from the front: an even-length head of a text it
      reads is read as the first bytes. */
  lemma {:induction false} UnhexlifyPrefix(a: string, b: string)
    requires |a| % 2 == 0 && Unhexlify(a + b).Some?
    ensures Unhexlify(a).Some? && |Unhexlify(a).value| <= |Unhexlify(a + b).value|
    ensures Unhexlify(a + b).value[..|a| / 2] == Unhexlify(a).value
    decreases |a|
  {
    if a != [] {
      var ab := a + b;
      assert ab[0] == a[0] && ab[1] == a[1] && ab[2..] == a[2..] + b;
      UnhexlifyPrefix(a[2..], b);
    }
  }

  lemma HexlifyInjective(a: seq<byte>, b: seq<byte>)
    requires Hexlify(a) == Hexlify(b)
    ensures a == b
  {
    UnhexlifyHexlify(a);
    UnhexlifyHexlify(b);
  }

  /** Slicing the hex text at even positions is slicing the bytes. */
  lemma HexlifySlice(r: seq<byte>, lo: int, hi: int)
    ensures Slice(Hexlify(r), 2 * lo, 2 * hi) == Hexlify(Slice(r, lo, hi))
  {
    var n := |r|;
    var a, b := Bound(lo, n), Bound(hi, n);
    assert Bound(2 * lo, 2 * n) == 2 * a && Bound(2 * hi, 2 * n) == 2 * b;
    if a < b {
      assert r == r[..a] + r[a..b] + r[b..];
      HexlifyConcat(r[..a] + r[a..b], r[b..]);
      HexlifyConcat(r[..a], r[a..b]);
      assert Hexlify(r)[2 * a..2 * b] == Hexlify(r[a..b]);
    }
  }

  /** A two-digit hex text read by int(.., 16) is the byte it came from. */
  lemma ParseHexByte(b: byte)
    ensures ParseBase(Hexlify([b]), 16) == Some(b)
  {
    var h := Hexlify([b]);
    assert h == [DigitChar(b / 16), DigitChar(b % 16)];
    assert AllDigits(h, 16);
    assert h[..1] == [DigitChar(b / 16)];
    assert h[..1][..0] == [];
    assert FromDigits(h[..1], 16) == b / 16;
    assert FromDigits(h, 16) == (b / 16) * 16 + b % 16;
  }

  /** Four hex digits read by int(.., 16) give the big-endian 16-bit value. */
  lemma ParseHexWord(b0: byte, b1: byte)
    ensures ParseBase(Hexlify([b0, b1]), 16) == Some(b0 * 256 + b1)
  {
    var h := Hexlify([b0, b1]);
    HexlifyConcat([b0], [b1]);
    assert [b0] + [b1] == [b0, b1];
    ParseHexByte(b0);
    ParseHexByte(b1);
    FromDigitsAppend(Hexlify([b0]), Hexlify([b1]), 16);
    assert Power(16, 2) == 256;
  }

  /** The two fixed-width hex digits of a byte are its hexlify text. */
  lemma FixedHexByte(b: byte)
    ensures FixedHex(b, 2) == Hexlify([b])
  {
    assert FixedHex(b, 2) == FixedHex(b / 16, 1) + [DigitChar(b % 16)];
    assert FixedHex(b / 16, 1) == FixedHex(b / 256, 0) + [DigitChar((b / 16) % 16)];
  }

  /** Peeling the last byte off a fixed-width hex rendering. */
  lemma FixedHexSplit(n: nat, width: nat)
    ensures FixedHex(n, width + 2) == FixedHex(n / 256, width) + Hexlify([n % 256])
  {
    assert FixedHex(n, width + 2) == FixedHex(n / 16, width + 1) + [DigitChar(n % 16)];
    assert FixedHex(n / 16, width + 1) == FixedHex(n / 16 / 16, width) + [DigitChar((n / 16) % 16)];
    assert n / 16 / 16 == n / 256;
    assert (n / 16) % 16 == (n % 256) / 16;
    assert n % 16 == (n % 256) % 16;
  }

  /** str.replace(' ', ''). */
  function StripSpaces(s: string): (r: string)
    ensures |r| <= |s|
  {
    if s == [] then []
    else (if s[0] == ' ' then [] else [s[0]]) + StripSpaces(s[1..])
  }

  /** replace(' ', '') leaves no space behind. */
  lemma {:induction false} StripSpacesLeavesNoSpace(s: string)
    ensures ' ' !in StripSpaces(s)
    decreases |s|
  {
    if s != [] {
      StripSpacesLeavesNoSpace(s[1..]);
    }
  }

  lemma {:induction false} StripSpacesConcat(a: string, b: string)
    ensures StripSpaces(a + b) == StripSpaces(a) + StripSpaces(b)
    decreases |a|
  {
    if a == [] {
      assert a + b == b;
    } else {
      assert (a + b)[1..] == a[1..] + b;
      StripSpacesConcat(a[1..], b);
    }
  }

  /** Text that has no space is left alone. */
  lemma {:induction false} StripSpacesNone(s: string)
    requires ' ' !in s
    ensures StripSpaces(s) == s
    decreases |s|
  {
    if s != [] {
      assert s[0] in s;
      assert forall k :: 0 <= k < |s[1..]| ==> s[1..][k] in s;
      StripSpacesNone(s[1..]);
    }
  }

  lemma HexlifyHasNoSpace(bs: seq<byte>)
    ensures ' ' !in Hexlify(bs)
  {
    if bs != [] {
      HexlifyHasNoSpace(bs[1..]);
    }
  }

  // ---------------------------------------------------------------------
  // int(text, base)
  // ---------------------------------------------------------------------

  /** The characters Python 2's int() skips as space (C isspace). */
  predicate IsSpace(c: char) {
    c == ' ' || c == '\t' || c == '\n' || c == '\r' || c as int == 11 || c as int == 12
  }

  predicate Spaces(w: string) {
    forall k :: 0 <= k < |w| ==> IsSpace(w[k])
  }

  /** s without its leading space. */
  function TrimStart(s: string): (r: string)
    ensures |r| <= |s|
    ensures r != [] ==> !IsSpace(r[0])
  {
    if s != [] && IsSpace(s[0]) then TrimStart(s[1..]) else s
  }

  /** What TrimStart drops is space, and what it keeps is the rest. */
  lemma {:induction false} TrimStartSplit(s: string)
    ensures var r := TrimStart(s); r == s[|s| - |r|..] && Spaces(s[..|s| - |r|])
    decreases |s|
  {
    if s != [] && IsSpace(s[0]) {
      TrimStartSplit(s[1..]);
      var r := TrimStart(s);
      assert s[..|s| - |r|] == [s[0]] + s[1..][..|s[1..]| - |r|];
    }
  }

  /** The longest run of digits of the base at the front of s. */
  function DigitRun(s: string, base: nat): (d: string)
    ensures |d| <= |s| && d == s[..|d|]
    ensures AllDigits(d, base)
    ensures |d| < |s| ==> !(0 <= DigitValue(s[|d|]) < base)
  {
    if s != [] && 0 <= DigitValue(s[0]) < base then
      var rest := DigitRun(s[1..], base);
      AllDigitsConcat([s[0]], rest, base);
      [s[0]] + rest
    else []
  }

  /** The letter of the 0b, 0o or 0x prefix int() allows in base 2, 8 or 16. */
  predicate IsPrefixLetter(c: char, base: nat) {
    || (base == 2 && (c == 'b' || c == 'B'))
    || (base == 8 && (c == 'o' || c == 'O'))
    || (base == 16 && (c == 'x' || c == 'X'))
  }

  /** PyOS_strtoul skips a '0' and the base's prefix letter only when a
      digit of the base follows them. */
  function DropPrefix(u: string, base: nat): string {
    if |u| >= 3 && u[0] == '0' && IsPrefixLetter(u[1], base) && 0 <= DigitValue(u[2]) < base then u[2..] else u
  }

  /** What PyOS_strtoul reads once the sign and the space after it are
      gone: the base's prefix, the digits up to the first non-digit, and
      nothing but space after them. */
  function Unsigned(u: string, base: nat): Option<nat> {
    var body := DropPrefix(u, base);
    var d := DigitRun(body, base);
    if d != [] && Spaces(body[|d|..]) then Some(FromDigits(d, base)) else None
  }

  /** int(s, base) on a Python 2 str, 2 <= base <= 16, as PyInt_FromString
      reads it: leading space, an optional sign, space again, then the
      unsigned part. None stands for the ValueError raised when no digit
      was read or something other than space follows the digits. */
  function PyInt(s: string, base: nat): (r: Option<int>)
    requires 2 <= base <= 16
  {
    var t := TrimStart(s);
    if t != [] && (t[0] == '-' || t[0] == '+') then
      match Unsigned(TrimStart(t[1..]), base)
      case None => None
      case Some(v) => Some(if t[0] == '-' then -(v as int) else v)
    else
      match Unsigned(t, base)
      case None => None
      case Some(v) => Some(v)
  }

  /** The texts int() accepts, as a grammar: space, a sign, space, a
      prefix, at least one digit, space. */
  datatype IntText = IntText(lead: string, sign: string, gap: string, prefix: string, digits: string, trail: string)

  predicate IsPrefix(p: string, base: nat) {
    p == [] || (|p| == 2 && p[0] == '0' && IsPrefixLetter(p[1], base))
  }

  predicate WellFormed(x: IntText, base: nat) {
    && Spaces(x.lead) && (x.sign == [] || x.sign == "+" || x.sign == "-") && Spaces(x.gap)
    && IsPrefix(x.prefix, base) && x.digits != [] && AllDigits(x.digits, base) && Spaces(x.trail)
  }

  function Text(x: IntText): string {
    x.lead + (x.sign + (x.gap + (x.prefix + (x.digits + x.trail))))
  }

  /** The number a well-formed text denotes. */
  function Value(x: IntText, base: nat): int
    requires WellFormed(x, base)
  {
    if x.sign == "-" then -(FromDigits(x.digits, base) as int) else FromDigits(x.digits, base)
  }

  /** Space in front of a text that does not start with space is skipped. */
  lemma {:induction false} TrimSpaces(w: string, rest: string)
    requires Spaces(w) && (rest == [] || !IsSpace(rest[0]))
    ensures TrimStart(w + rest) == rest
    decreases |w|
  {
    if w != [] {
      assert (w + rest)[1..] == w[1..] + rest;
      TrimSpaces(w[1..], rest);
    } else {
      assert w + rest == rest;
    }
  }

  /** The digit run stops where the digits end. */
  lemma {:induction false} RunOfDigits(d: string, rest: string, base: nat)
    requires AllDigits(d, base) && (rest == [] || !(0 <= DigitValue(rest[0]) < base))
    ensures DigitRun(d + rest, base) == d
    decreases |d|
  {
    if d != [] {
      assert (d + rest)[1..] == d[1..] + rest;
      RunOfDigits(d[1..], rest, base);
    } else {
      assert d + rest == rest;
    }
  }

  /** The unsigned part reads a prefix, digits and space as the digits. */
  lemma UnsignedReads(prefix: string, digits: string, trail: string, base: nat)
    requires IsPrefix(prefix, base) && digits != [] && AllDigits(digits, base) && Spaces(trail)
    ensures Unsigned(prefix + (digits + trail), base) == Some(FromDigits(digits, base))
  {
    var body := digits + trail;
    assert body[0] == digits[0];
    assert DropPrefix(prefix + body, base) == body;
    RunOfDigits(digits, trail, base);
    assert body[|digits|..] == trail;
  }

  /** ... and nothing else. */
  lemma UnsignedOnly(u: string, base: nat)
    requires Unsigned(u, base).Some?
    ensures var body := DropPrefix(u, base); var d := DigitRun(body, base);
      && u == u[..|u| - |body|] + (d + body[|d|..])
      && IsPrefix(u[..|u| - |body|], base) && d != [] && AllDigits(d, base) && Spaces(body[|d|..])
      && Unsigned(u, base) == Some(FromDigits(d, base))
  {
    var body := DropPrefix(u, base);
    var d := DigitRun(body, base);
    assert body == d + body[|d|..];
  }

  /** Unsigned text after space: int() reads the unsigned part. */
  lemma ReadUnsigned(s: string, u: string, base: nat)
    requires 2 <= base <= 16 && TrimStart(s) == u && u != [] && u[0] != '-' && u[0] != '+'
    ensures PyInt(s, base) == match Unsigned(u, base) case None => None case Some(v) => Some(v as int)
  {
  }

  /** A sign, then space: int() reads the unsigned part after the space. */
  lemma ReadSigned(s: string, u: string, base: nat)
    requires 2 <= base <= 16 && s != [] && (s[0] == '-' || s[0] == '+') && TrimStart(s[1..]) == u
    ensures PyInt(s, base) == match Unsigned(u, base) case None => None case Some(v) => Some(if s[0] == '-' then -(v as int) else v)
  {
  }

  /** The same, once the unsigned part's value is known. */
  lemma ReadSignedValue(s: string, u: string, v: nat, base: nat)
    requires 2 <= base <= 16 && s != [] && (s[0] == '-' || s[0] == '+') && TrimStart(s[1..]) == u
    requires Unsigned(u, base) == Some(v)
    ensures PyInt(s, base) == Some(if s[0] == '-' then -(v as int) else v)
  {
    ReadSigned(s, u, base);
  }

  lemma TextParts(x: IntText, base: nat)
    requires WellFormed(x, base)
    ensures var u := x.prefix + (x.digits + x.trail); u != [] && !IsSpace(u[0]) && u[0] != '-' && u[0] != '+'
    ensures Spaces(x.lead + x.gap)
    ensures x.sign == [] ==> Text(x) == (x.lead + x.gap) + (x.prefix + (x.digits + x.trail))
  {
    var u := x.prefix + (x.digits + x.trail);
    assert u[|x.prefix|] == x.digits[0];
  }

  lemma ReadsUnsignedText(x: IntText, base: nat)
    requires 2 <= base <= 16 && WellFormed(x, base) && x.sign == []
    ensures PyInt(Text(x), base) == Some(Value(x, base))
  {
    var u := x.prefix + (x.digits + x.trail);
    UnsignedReads(x.prefix, x.digits, x.trail, base);
    TextParts(x, base);
    TrimSpaces(x.lead + x.gap, u);
    ReadUnsigned(Text(x), u, base);
  }

  lemma SignedParts(x: IntText, base: nat)
    requires WellFormed(x, base) && x.sign != []
    ensures var signed := x.sign + (x.gap + (x.prefix + (x.digits + x.trail)));
      && Text(x) == x.lead + signed && signed != [] && !IsSpace(signed[0])
      && (signed[0] == '-' || signed[0] == '+') && (signed[0] == '-' <==> x.sign == "-")
      && signed[1..] == x.gap + (x.prefix + (x.digits + x.trail))
  {
    TextParts(x, base);
  }

  lemma ReadsSignedText(x: IntText, base: nat)
    requires 2 <= base <= 16 && WellFormed(x, base) && x.sign != []
    ensures PyInt(Text(x), base) == Some(Value(x, base))
  {
    var u := x.prefix + (x.digits + x.trail);
    TextParts(x, base);
    SignedParts(x, base);
    var signed := x.sign + (x.gap + u);
    TrimSpaces(x.lead, signed);
    PyIntTrimmed(Text(x), base);
    SignedTail(x, base);
  }

  /** After its sign, a well-formed signed text reads as its value. */
  lemma SignedTail(x: IntText, base: nat)
    requires 2 <= base <= 16 && WellFormed(x, base) && x.sign != []
    ensures PyInt(x.sign + (x.gap + (x.prefix + (x.digits + x.trail))), base) == Some(Value(x, base))
  {
    var u := x.prefix + (x.digits + x.trail);
    UnsignedReads(x.prefix, x.digits, x.trail, base);
    TextParts(x, base);
    SignedParts(x, base);
    var signed := x.sign + (x.gap + u);
    TrimSpaces(x.gap, u);
    var v := FromDigits(x.digits, base);
    ReadSignedValue(signed, u, v, base);
    assert Value(x, base) == if signed[0] == '-' then -(v as int) else v;
  }

  /** Every well-formed text is read as its value. */
  lemma PyIntReadsIntText(x: IntText, base: nat)
    requires 2 <= base <= 16 && WellFormed(x, base)
    ensures PyInt(Text(x), base) == Some(Value(x, base))
  {
    if x.sign == [] {
      ReadsUnsignedText(x, base);
    } else {
      ReadsSignedText(x, base);
    }
  }

  /** The split of an unsigned part, after the space w, into prefix,
      digits and trailing space. */
  function UnsignedText(w: string, u: string, base: nat): IntText {
    var body := DropPrefix(u, base);
    var d := DigitRun(body, base);
    IntText(w, [], [], u[..|u| - |body|], d, body[|d|..])
  }

  /** The unsigned part int() reads, after space, is a well-formed text
      without a sign. */
  lemma UnsignedWitness(w: string, u: string, base: nat)
    requires 2 <= base <= 16 && Spaces(w) && Unsigned(u, base).Some?
    ensures var x := UnsignedText(w, u, base);
      && WellFormed(x, base) && x.sign == [] && x.gap == [] && Text(x) == w + u && Value(x, base) == Unsigned(u, base).value
      && x.lead == w && x.prefix + (x.digits + x.trail) == u
  {
    UnsignedOnly(u, base);
    var body := DropPrefix(u, base);
    var d := DigitRun(body, base);
  }

  /** A sign and the space w in front of an unsigned text give a signed
      text with the opposite value for '-'. */
  lemma SignedWitness(w: string, sign: char, y: IntText, base: nat)
    requires Spaces(w) && (sign == '-' || sign == '+') && WellFormed(y, base) && y.sign == [] && y.gap == []
    ensures var x := IntText(w, [sign], y.lead, y.prefix, y.digits, y.trail);
      && WellFormed(x, base)
      && Text(x) == w + ([sign] + Text(y))
      && Value(x, base) == if sign == '-' then -Value(y, base) else Value(y, base)
  {
    assert Text(y) == y.lead + (y.prefix + (y.digits + y.trail));
  }

  lemma SpacesConcat(a: string, b: string)
    requires Spaces(a) && Spaces(b)
    ensures Spaces(a + b)
  {
    forall k | 0 <= k < |a + b| ensures IsSpace((a + b)[k]) {
      if k < |a| { assert (a + b)[k] == a[k]; } else { assert (a + b)[k] == b[k - |a|]; }
    }
  }

  /** int() accepts nothing else: every text it reads is a well-formed
      text, read as its value. */
  lemma PyIntOnlyIntText(s: string, base: nat)
    requires 2 <= base <= 16 && PyInt(s, base).Some?
    ensures exists x :: WellFormed(x, base) && Text(x) == s && PyInt(s, base) == Some(Value(x, base))
  {
    var x := ReadWitness(s, base);
  }

  /** The well-formed text that a text int() reads is. */
  lemma ReadWitness(s: string, base: nat) returns (x: IntText)
    requires 2 <= base <= 16 && PyInt(s, base).Some?
    ensures WellFormed(x, base) && Text(x) == s && PyInt(s, base) == Some(Value(x, base))
  {
    var t := TrimStart(s);
    if t != [] && (t[0] == '-' || t[0] == '+') {
      x := SignedCase(s, t, base);
    } else {
      x := UnsignedCase(s, t, base);
    }
  }

  /** A text that reads with a sign. */
  lemma SignedCase(s: string, t: string, base: nat) returns (x: IntText)
    requires 2 <= base <= 16 && TrimStart(s) == t && t != [] && (t[0] == '-' || t[0] == '+')
    requires Unsigned(TrimStart(t[1..]), base).Some?
    ensures WellFormed(x, base)
    ensures Text(x) == s
    ensures PyInt(s, base) == Some(Value(x, base))
  {
    TrimStartSplit(s);
    var w := s[..|s| - |t|];
    SplitAt(s, |s| - |t|);
    var u := TrimStart(t[1..]);
    var v := Unsigned(u, base).value;
    PyIntSigned(s, t, u, base);
    assert PyInt(s, base) == Some(if t[0] == '-' then -(v as int) else v);
    x := SignedRead(s, w, t, base);
    assert Value(x, base) == if t[0] == '-' then -(v as int) else v;
  }

  /** A text that reads without a sign. */
  lemma UnsignedCase(s: string, t: string, base: nat) returns (x: IntText)
    requires 2 <= base <= 16 && TrimStart(s) == t && !(t != [] && (t[0] == '-' || t[0] == '+'))
    requires Unsigned(t, base).Some?
    ensures WellFormed(x, base)
    ensures Text(x) == s
    ensures PyInt(s, base) == Some(Value(x, base))
  {
    TrimStartSplit(s);
    var w := s[..|s| - |t|];
    SplitAt(s, |s| - |t|);
    var v := Unsigned(t, base).value;
    UnsignedWitness(w, t, base);
    x := UnsignedText(w, t, base);
    assert Value(x, base) == v as int;
    assert t != [];
    ReadUnsigned(s, t, base);
    assert PyInt(s, base) == Some(v as int);
  }

  /** A text with a sign whose unsigned part reads, split after its
      leading space w, is a well-formed text with the signed value. */
  lemma SignedRead(s: string, w: string, t: string, base: nat) returns (x: IntText)
    requires 2 <= base <= 16
    requires s == w + t && Spaces(w) && t != [] && (t[0] == '-' || t[0] == '+') && Unsigned(TrimStart(t[1..]), base).Some?
    ensures WellFormed(x, base) && Text(x) == s
    ensures var v := Unsigned(TrimStart(t[1..]), base).value; Value(x, base) == if t[0] == '-' then -(v as int) else v
  {
    var y := SpacedUnsigned(t[1..], base);
    SignedWitness(w, t[0], y, base);
    x := IntText(w, [t[0]], y.lead, y.prefix, y.digits, y.trail);
    SplitAt(t, 1);
    assert t[..1] == [t[0]];
  }

  /** An unsigned part that reads after some space is a well-formed text
      without a sign. */
  lemma SpacedUnsigned(after: string, base: nat) returns (y: IntText)
    requires 2 <= base <= 16 && Unsigned(TrimStart(after), base).Some?
    ensures WellFormed(y, base) && y.sign == [] && y.gap == [] && Text(y) == after
    ensures Value(y, base) == Unsigned(TrimStart(after), base).value
  {
    var u := TrimStart(after);
    TrimStartSplit(after);
    var gap := after[..|after| - |u|];
    UnsignedWitness(gap, u, base);
    y := UnsignedText(gap, u, base);
    SplitAt(after, |after| - |u|);
  }

  lemma SplitAt<T>(s: seq<T>, k: nat)
    requires k <= |s|
    ensures s == s[..k] + s[k..]
  {
  }

  /** int() of a text whose unsigned part, after the sign and space, is u. */
  lemma PyIntSigned(s: string, t: string, u: string, base: nat)
    requires 2 <= base <= 16 && TrimStart(s) == t && t != [] && (t[0] == '-' || t[0] == '+') && TrimStart(t[1..]) == u
    ensures PyInt(s, base) == match Unsigned(u, base) case None => None case Some(v) => Some(if t[0] == '-' then -(v as int) else v)
  {
    PyIntTrimmed(s, base);
    ReadSigned(t, u, base);
  }

  /** int() reads a text as it reads the text without its leading space. */
  lemma PyIntTrimmed(s: string, base: nat)
    requires 2 <= base <= 16
    ensures PyInt(s, base) == PyInt(TrimStart(s), base)
  {
    var t := TrimStart(s);
    assert TrimStart(t) == t;
  }

  /** The characters a text int() reads can hold. */
  predicate IntChars(s: string, base: nat) {
    forall k :: 0 <= k < |s| ==>
      IsSpace(s[k]) || s[k] == '+' || s[k] == '-' || 0 <= DigitValue(s[k]) < base || IsPrefixLetter(s[k], base)
  }

  lemma IntCharsConcat(s: string, t: string, base: nat)
    ensures IntChars(s + t, base) <==> IntChars(s, base) && IntChars(t, base)
  {
    if IntChars(s, base) && IntChars(t, base) {
      forall k | 0 <= k < |s + t|
        ensures var c := (s + t)[k]; IsSpace(c) || c == '+' || c == '-' || 0 <= DigitValue(c) < base || IsPrefixLetter(c, base)
      {
        if k < |s| { assert (s + t)[k] == s[k]; } else { assert (s + t)[k] == t[k - |s|]; }
      }
    }
    if IntChars(s + t, base) {
      forall k | 0 <= k < |s| ensures var c := s[k]; IsSpace(c) || c == '+' || c == '-' || 0 <= DigitValue(c) < base || IsPrefixLetter(c, base) {
        assert (s + t)[k] == s[k];
      }
      forall k | 0 <= k < |t| ensures var c := t[k]; IsSpace(c) || c == '+' || c == '-' || 0 <= DigitValue(c) < base || IsPrefixLetter(c, base) {
        assert (s + t)[|s| + k] == t[k];
      }
    }
  }

  lemma WellFormedChars(x: IntText, base: nat)
    requires WellFormed(x, base)
    ensures IntChars(x.lead, base) && IntChars(x.sign, base) && IntChars(x.gap, base)
    ensures IntChars(x.prefix, base) && IntChars(x.digits, base) && IntChars(x.trail, base)
  {
  }

  /** A text holding any other character is refused. */
  lemma PyIntChars(s: string, base: nat)
    requires 2 <= base <= 16
    ensures PyInt(s, base).Some? ==> IntChars(s, base)
  {
    if PyInt(s, base).Some? {
      PyIntOnlyIntText(s, base);
      var x :| WellFormed(x, base) && Text(x) == s;
      WellFormedChars(x, base);
      IntCharsConcat(x.digits, x.trail, base);
      IntCharsConcat(x.prefix, x.digits + x.trail, base);
      IntCharsConcat(x.gap, x.prefix + (x.digits + x.trail), base);
      IntCharsConcat(x.sign, x.gap + (x.prefix + (x.digits + x.trail)), base);
      IntCharsConcat(x.lead, x.sign + (x.gap + (x.prefix + (x.digits + x.trail))), base);
    }
  }

  /** Reversing a text keeps its characters. */
  lemma IntCharsReverse(s: string, base: nat)
    ensures IntChars(Reverse(s), base) <==> IntChars(s, base)
  {
    var r := Reverse(s);
    if IntChars(s, base) {
      forall k | 0 <= k < |r| ensures var c := r[k]; IsSpace(c) || c == '+' || c == '-' || 0 <= DigitValue(c) < base || IsPrefixLetter(c, base) {
        assert r[k] == s[|s| - 1 - k];
      }
    }
    if IntChars(r, base) {
      forall k | 0 <= k < |s| ensures var c := s[k]; IsSpace(c) || c == '+' || c == '-' || 0 <= DigitValue(c) < base || IsPrefixLetter(c, base) {
        assert r[|s| - 1 - k] == s[k];
      }
    }
  }

  /** On a bare run of digits int() and ParseBase agree: the model reads
      hexlify output, the groups of the address pattern and the tail of
      bin() with ParseBase. */
  lemma PyIntOnDigits(s: string, base: nat)
    requires 2 <= base <= 16 && AllDigits(s, base)
    ensures PyInt(s, base) == ParseBase(s, base)
  {
    if s != [] {
      assert !IsSpace(s[0]) && s[0] != '-' && s[0] != '+';
      PyIntReadsIntText(IntText([], [], [], [], s, []), base);
      assert Text(IntText([], [], [], [], s, [])) == s;
    } else {
      assert DigitRun(s, base) == [];
    }
  }

  /** Texts int() reads besides bare digits: space, a 0b prefix, a sign,
      and space after the sign. */
  lemma PyIntForms()
    ensures PyInt(" 1", 2) == Some(1)
    ensures PyInt("0b1", 2) == Some(1)
    ensures PyInt("-1", 2) == Some(-1)
    ensures PyInt("- 2", 10) == Some(-2)
  {
    SpaceBeforeDigits();
    PrefixBeforeDigits();
    SignBeforeDigits();
    SpaceAfterSign();
  }

  lemma SpaceBeforeDigits()
    ensures PyInt(" 1", 2) == Some(1)
  {
    OneDigit('1', 2);
    ReadsExample(IntText(" ", [], [], [], "1", []), " 1", 2);
  }

  lemma PrefixBeforeDigits()
    ensures PyInt("0b1", 2) == Some(1)
  {
    OneDigit('1', 2);
    ReadsExample(IntText([], [], [], "0b", "1", []), "0b1", 2);
  }

  lemma SignBeforeDigits()
    ensures PyInt("-1", 2) == Some(-1)
  {
    OneDigit('1', 2);
    ReadsExample(IntText([], "-", [], [], "1", []), "-1", 2);
  }

  lemma SpaceAfterSign()
    ensures PyInt("- 2", 10) == Some(-2)
  {
    OneDigit('2', 10);
    ReadsExample(IntText([], "-", " ", [], "2", []), "- 2", 10);
  }

  lemma OneDigit(c: char, base: nat)
    requires 0 <= DigitValue(c) < base
    ensures AllDigits([c], base) && FromDigits([c], base) == DigitValue(c)
  {
    assert [c][..0] == [];
  }

  lemma ReadsExample(x: IntText, s: string, base: nat)
    requires 2 <= base <= 16 && WellFormed(x, base) && Text(x) == s
    ensures PyInt(s, base) == Some(Value(x, base))
  {
    PyIntReadsIntText(x, base);
  }

  /** str(n): the digits of |n|, with a '-' in front for a negative n. */
  function DecimalText(n: int): (s: string)
    ensures s == (if n < 0 then "-" else "") + Digits(if n < 0 then -n else n, 10)
  {
    Text(IntText([], if n < 0 then "-" else [], [], [], Digits(if n < 0 then -n else n, 10), []))
  }

  /** int(str(n)) == n: int() reads back every rendered integer. */
  lemma DecimalTextRead(n: int)
    ensures PyInt(DecimalText(n), 10) == Some(n)
  {
    PyIntReadsIntText(IntText([], if n < 0 then "-" else [], [], [], Digits(if n < 0 then -n else n, 10), []), 10);
  }

  // ---------------------------------------------------------------------
  // str.split, s[::-1]
  // ---------------------------------------------------------------------

  /** str.split(sep): the pieces between separators, always at least one. */
  function Split(s: string, sep: char): (parts: seq<string>)
    ensures |parts| >= 1
    ensures forall k :: 0 <= k < |parts| ==> sep !in parts[k]
  {
    if s == [] then [[]]
    else
      var rest := Split(s[1..], sep);
      if s[0] == sep then [[]] + rest
      else [[s[0]] + rest[0]] + rest[1..]
  }

  /** sep.join(parts). */
  function Join(parts: seq<string>, sep: char): string
    requires |parts| >= 1
  {
    if |parts| == 1 then parts[0] else parts[0] + [sep] + Join(parts[1..], sep)
  }

  /** Splitting loses nothing: joining the pieces gives the text back. */
  lemma {:induction false} JoinSplit(s: string, sep: char)
    ensures Join(Split(s, sep), sep) == s
    decreases |s|
  {
    if s != [] {
      JoinSplit(s[1..], sep);
      var rest := Split(s[1..], sep);
      if s[0] != sep {
        var parts := Split(s, sep);
        assert parts[0] == [s[0]] + rest[0];
        if |rest| == 1 {
          assert parts == [[s[0]] + rest[0]];
        } else {
          assert parts[1..] == rest[1..];
          assert Join(rest, sep) == rest[0] + [sep] + Join(rest[1..], sep);
        }
      }
    }
  }

  lemma {:induction false} SplitNoSeparator(p: string, sep: char)
    requires sep !in p
    ensures Split(p, sep) == [p]
    decreases |p|
  {
    if p != [] {
      assert forall k :: 0 <= k < |p[1..]| ==> p[1..][k] == p[k + 1];
      SplitNoSeparator(p[1..], sep);
      assert p[0] in p;
      assert [p[0]] + p[1..] == p;
    }
  }

  lemma {:induction false} SplitAfterPiece(p: string, rest: string, sep: char)
    requires sep !in p
    ensures Split(p + [sep] + rest, sep) == [p] + Split(rest, sep)
    decreases |p|
  {
    if p == [] {
      assert p + [sep] + rest == [sep] + rest;
      assert ([sep] + rest)[1..] == rest;
    } else {
      assert forall k :: 0 <= k < |p[1..]| ==> p[1..][k] == p[k + 1];
      SplitAfterPiece(p[1..], rest, sep);
      assert (p + [sep] + rest)[1..] == p[1..] + [sep] + rest;
      assert [p[0]] + p[1..] == p;
    }
  }

  /** Joining pieces that hold no separator and splitting again gives the
      same pieces. */
  lemma {:induction false} SplitJoin(parts: seq<string>, sep: char)
    requires |parts| >= 1
    requires forall k :: 0 <= k < |parts| ==> sep !in parts[k]
    ensures Split(Join(parts, sep), sep) == parts
    decreases |parts|
  {
    if |parts| == 1 {
      SplitNoSeparator(parts[0], sep);
    } else {
      assert forall k :: 0 <= k < |parts[1..]| ==> parts[1..][k] == parts[k + 1];
      SplitJoin(parts[1..], sep);
      SplitAfterPiece(parts[0], Join(parts[1..], sep), sep);
      assert [parts[0]] + parts[1..] == parts;
    }
  }

  /** s[::-1]. */
  function Reverse<T>(s: seq<T>): (r: seq<T>)
    ensures |r| == |s|
    ensures forall k :: 0 <= k < |s| ==> r[k] == s[|s| - 1 - k]
  {
    if s == [] then [] else Reverse(s[1..]) + [s[0]]
  }
}
