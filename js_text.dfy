/**
 * The JavaScript string primitives the board relies on: `Number.prototype.toString`
 * for integer ids, `parseInt` (without a radix, and with radix 16), `String.prototype.replace`
 * with a string pattern, and the digit runs found by the regular expression /\d+/g.
 */
module JsText {
  import opened Wrappers

  predicate IsDigit(c: char) { '0' <= c <= '9' }

  predicate AllDigits(s: string) { forall i :: 0 <= i < |s| ==> IsDigit(s[i]) }

  function DigitValue(c: char): nat
    requires IsDigit(c)
  {
    c as int - '0' as int
  }

  function DigitChar(d: nat): (c: char)
    requires d < 10
    ensures IsDigit(c) && DigitValue(c) == d
  {
    ('0' as int + d) as char
  }

  /** The value of a string of decimal digits (`Number(run)` for a run of digits). */
  function DecimalValue(s: string): nat
    requires AllDigits(s)
  {
    if s == [] then 0 else DecimalValue(s[..|s| - 1]) * 10 + DigitValue(s[|s| - 1])
  }

  /** `n.toString()` for a non-negative integer: decimal digits without leading zeros. */
  function NatToString(n: nat): (s: string)
    ensures |s| >= 1 && AllDigits(s)
    ensures s[0] == '0' ==> n == 0
  {
    if n < 10 then [DigitChar(n)] else NatToString(n / 10) + [DigitChar(n % 10)]
  }

  /** `i.toString()` for an integer id: a '-' exactly for a negative id, then decimal digits. */
  function IntToString(i: int): (s: string)
    ensures |s| >= 1 && (s[0] == '-' <==> i < 0)
    ensures AllDigits(if i < 0 then s[1..] else s)
  {
    if i < 0 then
      var s := "-" + NatToString(-i);
      assert s[1..] == NatToString(-i);
      s
    else
      assert IsDigit(NatToString(i)[0]);
      NatToString(i)
  }

  lemma {:induction false} DecimalValueOfNatToString(n: nat)
    ensures DecimalValue(NatToString(n)) == n
  {
    if n >= 10 {
      var s := NatToString(n);
      assert s[..|s| - 1] == NatToString(n / 10);
      DecimalValueOfNatToString(n / 10);
    }
  }

  /** Two ids with the same decimal text are the same id. */
  lemma IntToStringInjective(a: int, b: int)
    requires IntToString(a) == IntToString(b)
    ensures a == b
  {
    if a < 0 {
      assert b < 0;
      assert NatToString(-a) == NatToString(-b) by {
        assert NatToString(-a) == IntToString(a)[1..];
        assert NatToString(-b) == IntToString(b)[1..];
      }
      NatToStringInjective(-a, -b);
    } else {
      assert b >= 0;
      NatToStringInjective(a, b);
    }
  }

  lemma NatToStringInjective(m: nat, n: nat)
    requires NatToString(m) == NatToString(n)
    ensures m == n
  {
    DecimalValueOfNatToString(m);
    DecimalValueOfNatToString(n);
  }

  /** The length of the longest prefix of `s` made of decimal digits. */
  function DigitPrefixLength(s: string): (k: nat)
    ensures k <= |s| && AllDigits(s[..k])
    ensures k < |s| ==> !IsDigit(s[k])
  {
    if s == [] || !IsDigit(s[0]) then 0
    else
      var k := 1 + DigitPrefixLength(s[1..]);
      assert s[..k] == [s[0]] + s[1..][..k - 1];
      k
  }

  lemma AllDigitsPrefixLength(s: string)
    requires AllDigits(s)
    ensures DigitPrefixLength(s) == |s|
  {
  }

  predicate OccursAt(s: string, pat: string, j: int)
  {
    0 <= j && j + |pat| <= |s| && s[j..j + |pat|] == pat
  }

  /** The first index at or after `from` where `pat` occurs in `s`. */
  function IndexOfFrom(s: string, pat: string, from: nat): (r: Option<nat>)
    requires from <= |s|
    ensures r.Some? ==> from <= r.value && OccursAt(s, pat, r.value)
    ensures r.Some? ==> forall j :: from <= j < r.value ==> !OccursAt(s, pat, j)
    ensures r.None? ==> forall j :: from <= j ==> !OccursAt(s, pat, j)
    decreases |s| - from
  {
    if from + |pat| > |s| then None
    else if OccursAt(s, pat, from) then Some(from)
    else IndexOfFrom(s, pat, from + 1)
  }

  /** `s.replace(pat, "")`: the first occurrence of `pat` is removed, if there is one. */
  function ReplaceFirst(s: string, pat: string): (r: string)
    ensures (forall j :: !OccursAt(s, pat, j)) ==> r == s
    ensures forall i :: OccursAt(s, pat, i) && (forall j :: 0 <= j < i ==> !OccursAt(s, pat, j)) ==>
              r == s[..i] + s[i + |pat|..]
  {
    match IndexOfFrom(s, pat, 0)
    case None => s
    case Some(i) => s[..i] + s[i + |pat|..]
  }

  lemma ReplaceFirstOfPrefixed(pat: string, rest: string)
    ensures ReplaceFirst(pat + rest, pat) == rest
  {
    var s := pat + rest;
    assert OccursAt(s, pat, 0);
    assert s[|pat|..] == rest;
  }

  /** The maximal runs of decimal digits in `s`, left to right: `s.match(/\d+/g)`. */
  function DigitRuns(s: string): (runs: seq<string>)
    ensures forall i :: 0 <= i < |runs| ==> |runs[i]| > 0 && AllDigits(runs[i])
    ensures runs == [] <==> forall i :: 0 <= i < |s| ==> !IsDigit(s[i])
    decreases |s|
  {
    if s == [] then []
    else if !IsDigit(s[0]) then
      var rest := DigitRuns(s[1..]);
      assert forall i :: 1 <= i < |s| ==> s[i] == s[1..][i - 1];
      rest
    else
      var k := DigitPrefixLength(s);
      [s[..k]] + DigitRuns(s[k..])
  }

  /** A run of digits ends where the first non-digit starts. */
  lemma {:induction false} DigitPrefixLengthOfRun(d: string, s: string)
    requires AllDigits(d) && (s == [] || !IsDigit(s[0]))
    ensures DigitPrefixLength(d + s) == |d|
  {
    if d == [] {
      assert d + s == s;
    } else {
      assert (d + s)[0] == d[0] && (d + s)[1..] == d[1..] + s;
      DigitPrefixLengthOfRun(d[1..], s);
    }
  }

  /** Text without digits contributes no run. */
  lemma {:induction false} DigitRunsSkip(p: string, s: string)
    requires forall i :: 0 <= i < |p| ==> !IsDigit(p[i])
    ensures DigitRuns(p + s) == DigitRuns(s)
  {
    if p != [] {
      assert (p + s)[0] == p[0] && (p + s)[1..] == p[1..] + s;
      DigitRunsSkip(p[1..], s);
    } else {
      assert p + s == s;
    }
  }

  /** A maximal run of digits at the front is the first run. */
  lemma DigitRunsRun(d: string, s: string)
    requires |d| > 0 && AllDigits(d) && (s == [] || !IsDigit(s[0]))
    ensures DigitRuns(d + s) == [d] + DigitRuns(s)
  {
    DigitPrefixLengthOfRun(d, s);
    assert (d + s)[..|d|] == d && (d + s)[|d|..] == s;
  }

  predicate IsHexDigit(c: char) { IsDigit(c) || 'a' <= c <= 'f' || 'A' <= c <= 'F' }

  predicate AllHex(s: string) { forall i :: 0 <= i < |s| ==> IsHexDigit(s[i]) }

  function HexDigitValue(c: char): (d: nat)
    requires IsHexDigit(c)
    ensures d < 16
  {
    if IsDigit(c) then DigitValue(c)
    else if 'a' <= c <= 'f' then c as int - 'a' as int + 10
    else c as int - 'A' as int + 10
  }

  /** The value of a string of hexadecimal digits. */
  function HexValue(s: string): nat
    requires AllHex(s)
  {
    if s == [] then 0 else HexValue(s[..|s| - 1]) * 16 + HexDigitValue(s[|s| - 1])
  }

  /** The length of the longest prefix of `s` made of hexadecimal digits. */
  function HexPrefixLength(s: string): (k: nat)
    ensures k <= |s| && AllHex(s[..k])
    ensures k < |s| ==> !IsHexDigit(s[k])
  {
    if s == [] || !IsHexDigit(s[0]) then 0
    else
      var k := 1 + HexPrefixLength(s[1..]);
      assert s[..k] == [s[0]] + s[1..][..k - 1];
      k
  }

  /** The characters `parseInt` skips at the front: ECMAScript's white space and line terminators. */
  predicate IsJsWhiteSpace(c: char)
  {
    || c in {'\t', '\n', '\U{000B}', '\U{000C}', '\r', ' ', '\U{00A0}', '\U{1680}'}
    || '\U{2000}' <= c <= '\U{200A}'
    || c in {'\U{2028}', '\U{2029}', '\U{202F}', '\U{205F}', '\U{3000}', '\U{FEFF}'}
  }

  predicate AllJsWhiteSpace(s: string)
  {
    forall i :: 0 <= i < |s| ==> IsJsWhiteSpace(s[i])
  }

  /** `s` without its leading white space. */
  function TrimStart(s: string): (r: string)
    ensures |r| <= |s| && r == s[|s| - |r|..]
    ensures r == [] || !IsJsWhiteSpace(r[0])
    ensures AllJsWhiteSpace(s[..|s| - |r|])
  {
    if s != [] && IsJsWhiteSpace(s[0]) then
      var r := TrimStart(s[1..]);
      assert s[1..][|s[1..]| - |r|..] == s[|s| - |r|..];
      r
    else s
  }

  /** Whether `parseInt` reads a minus sign after the leading white space. */
  predicate ReadsMinus(s: string)
  {
    var t := TrimStart(s);
    |t| > 0 && t[0] == '-'
  }

  /** `s` after its leading white space and then an optional sign. */
  function Unsigned(s: string): (u: string)
    ensures |u| <= |s|
  {
    var t := TrimStart(s);
    if |t| > 0 && (t[0] == '-' || t[0] == '+') then t[1..] else t
  }

  predicate HasHexPrefix(u: string)
  {
    |u| >= 2 && u[0] == '0' && (u[1] == 'x' || u[1] == 'X')
  }

  /** What `parseInt(s, 16)` reads digits from: `Unsigned(s)` after an optional "0x" or "0X". */
  function HexBody(s: string): (body: string)
    ensures |s| > 0 && AllHex(s) ==> body == s
  {
    var u := Unsigned(s);
    var body := if HasHexPrefix(u) then u[2..] else u;
    assert |s| > 0 && AllHex(s) ==> body == s by {
      if |s| > 0 && AllHex(s) { HexTextParsesWhole(s); }
    }
    body
  }

  /**
   * `parseInt(s, 16)`: the longest run of hexadecimal digits at the front of
   * `HexBody(s)`, negated after a minus sign; None stands for NaN (no such digit).
   */
  function HexParse(s: string): (r: Option<int>)
    ensures |s| > 0 && AllHex(s) ==> r == Some(HexValue(s))
    ensures r.None? <==> HexBody(s) == [] || !IsHexDigit(HexBody(s)[0])
  {
    var body := HexBody(s);
    var k := HexPrefixLength(body);
    assert |s| > 0 && AllHex(s) ==> k == |s| && body[..k] == s && !ReadsMinus(s) by {
      if |s| > 0 && AllHex(s) { HexTextParsesWhole(s); }
    }
    if k == 0 then None
    else
      var magnitude: int := HexValue(body[..k]);
      Some(if ReadsMinus(s) then -magnitude else magnitude)
  }

  lemma AllHexPrefixLength(s: string)
    requires AllHex(s)
    ensures HexPrefixLength(s) == |s|
  {
  }

  /** Text made only of hex digits has no white space, sign or prefix to skip. */
  lemma HexTextParsesWhole(s: string)
    requires |s| > 0 && AllHex(s)
    ensures TrimStart(s) == s && HexPrefixLength(s) == |s|
    ensures !(s[0] == '-' || s[0] == '+') && Unsigned(s) == s && !HasHexPrefix(s)
  {
    AllHexPrefixLength(s);
    assert IsHexDigit(s[0]);
    assert !IsJsWhiteSpace(s[0]);
    if |s| >= 2 { assert IsHexDigit(s[1]); }
  }

  /**
   * The integer whose two's-complement bits `>>` and `&` see in
   * `parseInt(s, 16)`: NaN becomes 0. ToInt32 also drops the bits above 31,
   * which leaves bits 0 to 23 alone, so they are not dropped here.
   */
  function HexBits(s: string): (v: int)
    ensures AllHex(s) ==> v == HexValue(s)
    ensures HexParse(s).None? ==> v == 0
  {
    match HexParse(s)
    case None => 0
    case Some(x) => x
  }

  /** A minus sign negates what follows it. */
  lemma HexBitsNegated(s: string)
    requires |s| > 1 && s[0] == '-' && AllHex(s[1..])
    ensures HexBits(s) == -(HexValue(s[1..]) as int)
  {
    var d := s[1..];
    HexBodyNegated(s);
    HexTextParsesWhole(d);
    assert d[..HexPrefixLength(d)] == d;
  }

  lemma HexBodyNegated(s: string)
    requires |s| > 1 && s[0] == '-' && AllHex(s[1..])
    ensures HexBody(s) == s[1..] && ReadsMinus(s)
  {
    HexTextParsesWhole(s[1..]);
    assert TrimStart(s) == s by { assert !IsJsWhiteSpace(s[0]); }
  }

  /** A "0x" in front of the digits is skipped. */
  lemma HexBitsPrefixed(d: string)
    requires |d| > 0 && AllHex(d)
    ensures HexBits("0x" + d) == HexValue(d)
  {
    HexBodyPrefixed(d);
    HexBitsOfBody("0x" + d);
  }

  lemma HexBodyPrefixed(d: string)
    requires |d| > 0 && AllHex(d)
    ensures HexBody("0x" + d) == d && !ReadsMinus("0x" + d)
  {
    var s := "0x" + d;
    assert TrimStart(s) == s by { assert !IsJsWhiteSpace(s[0]); }
    assert s[0] == '0' && s[1] == 'x' && s[2..] == d;
  }

  /** Without a minus sign, a body made only of hex digits is read whole. */
  lemma HexBitsOfBody(s: string)
    requires |HexBody(s)| > 0 && AllHex(HexBody(s)) && !ReadsMinus(s)
    ensures HexBits(s) == HexValue(HexBody(s))
  {
    var d := HexBody(s);
    HexTextParsesWhole(d);
    assert d[..HexPrefixLength(d)] == d;
  }

  /** Text that does not start with a digit, white space, sign or "0x" is NaN, which the shifts read as 0. */
  lemma HexBitsNoDigit(s: string)
    requires |s| > 0 && !IsHexDigit(s[0]) && !IsJsWhiteSpace(s[0]) && s[0] != '-' && s[0] != '+'
    ensures HexParse(s) == None && HexBits(s) == 0
  {
    assert TrimStart(s) == s;
    assert HexBody(s) == s;
  }

  /**
   * `parseInt(s)` without a radix: after the leading white space and an
   * optional sign, a "0x" or "0X" switches to hexadecimal; otherwise the
   * longest run of decimal digits is read. None stands for NaN (no digit).
   */
  function ParseInt(s: string): (r: Option<int>)
    ensures |s| > 0 && AllDigits(s) ==> r == Some(DecimalValue(s))
    ensures r.None? <==> var u := Unsigned(s);
                         if HasHexPrefix(u) then |u| == 2 || !IsHexDigit(u[2]) else u == [] || !IsDigit(u[0])
  {
    var u := Unsigned(s);
    assert |s| > 0 && AllDigits(s) ==> u == s && !HasHexPrefix(u) && !ReadsMinus(s) by {
      if |s| > 0 && AllDigits(s) { DecimalTextParsesWhole(s); }
    }
    if HasHexPrefix(u) then
      var k := HexPrefixLength(u[2..]);
      if k == 0 then None
      else
        var magnitude: int := HexValue(u[2..][..k]);
        Some(if ReadsMinus(s) then -magnitude else magnitude)
    else
      var k := DigitPrefixLength(u);
      assert |s| > 0 && AllDigits(s) ==> k == |s| && u[..k] == s by {
        if |s| > 0 && AllDigits(s) { AllDigitsPrefixLength(s); }
      }
      if k == 0 then None
      else
        var magnitude: int := DecimalValue(u[..k]);
        Some(if ReadsMinus(s) then -magnitude else magnitude)
  }

  /** Text made only of decimal digits has no white space, sign or prefix to skip. */
  lemma DecimalTextParsesWhole(s: string)
    requires |s| > 0 && AllDigits(s)
    ensures TrimStart(s) == s && Unsigned(s) == s && !HasHexPrefix(s) && !ReadsMinus(s)
  {
    assert IsDigit(s[0]);
    assert !IsJsWhiteSpace(s[0]);
    if |s| >= 2 { assert IsDigit(s[1]); }
  }

  /** parseInt reads back every integer id that toString writes. */
  lemma ParseIntOfIntToString(i: int)
    ensures ParseInt(IntToString(i)) == Some(i)
  {
    var n: nat := if i < 0 then -i else i;
    var digits := NatToString(n);
    DecimalValueOfNatToString(n);
    if i < 0 {
      var s := IntToString(i);
      assert s[1..] == digits;
      assert TrimStart(s) == s by { assert !IsJsWhiteSpace(s[0]); }
      assert Unsigned(s) == digits && ReadsMinus(s);
      assert !HasHexPrefix(digits) by {
        if |digits| >= 2 { assert IsDigit(digits[1]); }
      }
      AllDigitsPrefixLength(digits);
      assert digits[..|digits|] == digits;
    }
  }
}
