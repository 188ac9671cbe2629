/** Decimal text of integers and the subset of JavaScript's Number() parse the
    scheduler relies on: strings of ASCII digits. */
module TimeText {

  datatype Option<+T> = None | Some(value: T)

  predicate IsDigit(c: char) { '0' <= c <= '9' }

  predicate AllDigits(s: string) { forall i :: 0 <= i < |s| ==> IsDigit(s[i]) }

  function DigitValue(c: char): (d: nat)
    requires IsDigit(c)
    ensures d < 10
  {
    c as int - '0' as int
  }

  function DigitChar(d: nat): (c: char)
    requires d < 10
    ensures IsDigit(c) && DigitValue(c) == d
  {
    ('0' as int + d) as char
  }

  /** Value of a digit string; the empty string is 0, as Number("") is. */
  function ParseDigits(s: string): nat
    requires AllDigits(s)
    decreases |s|
  {
    if s == [] then 0 else 10 * ParseDigits(s[..|s| - 1]) + DigitValue(s[|s| - 1])
  }

  /** Number.prototype.toString() of a non-negative integer: no leading zeros. */
  function NatToString(n: nat): (s: string)
    ensures 1 <= |s| && AllDigits(s)
    ensures n < 10 <==> |s| == 1
    decreases n
  {
    if n < 10 then [DigitChar(n)] else NatToString(n / 10) + [DigitChar(n % 10)]
  }

  lemma {:induction false} NatToStringRoundTrip(n: nat)
    ensures ParseDigits(NatToString(n)) == n
    decreases n
  {
    if n >= 10 {
      var s := NatToString(n);
      assert s[..|s| - 1] == NatToString(n / 10);
      NatToStringRoundTrip(n / 10);
    }
  }

  /** Number.prototype.toString() of any integer. */
  function IntToString(i: int): string
  {
    if i < 0 then "-" + NatToString(-i) else NatToString(i)
  }

  /** String.prototype.padStart(2, '0'). */
  function PadStart2(s: string): string
  {
    if |s| >= 2 then s else if |s| == 1 then "0" + s else "00"
  }

  /** `n.toString().padStart(2, '0')`. */
  function Pad2(n: int): string
  {
    PadStart2(IntToString(n))
  }

  lemma DigitCharValue(c: char)
    requires IsDigit(c)
    ensures DigitChar(DigitValue(c)) == c
  {
  }

  /** For 0 <= n < 100, Pad2 gives the two decimal digits of n. */
  lemma Pad2Explicit(n: int)
    requires 0 <= n < 100
    ensures Pad2(n) == [DigitChar(n / 10), DigitChar(n % 10)]
  {
    if n >= 10 {
      assert NatToString(n / 10) == [DigitChar(n / 10)];
      assert NatToString(n) == [DigitChar(n / 10), DigitChar(n % 10)];
    } else {
      assert NatToString(n) == [DigitChar(n)];
    }
  }

  lemma Pad2TwoDigits(n: int)
    requires 0 <= n < 100
    ensures |Pad2(n)| == 2 && AllDigits(Pad2(n))
    ensures DigitValue(Pad2(n)[0]) == n / 10 && DigitValue(Pad2(n)[1]) == n % 10
  {
    Pad2Explicit(n);
  }

  lemma Pad2Parses(n: int)
    requires 0 <= n < 100
    ensures AllDigits(Pad2(n)) && ParseDigits(Pad2(n)) == n
  {
    Pad2Explicit(n);
    var s := Pad2(n);
    var p := s[..1];
    assert p[..0] == [];
    assert ParseDigits(p) == n / 10;
    assert s[..|s| - 1] == p;
  }

  /** JavaScript's `%` on numbers: the remainder takes the sign of the dividend. */
  function JsRem(a: int, b: int): (r: int)
    requires b > 0
    ensures a >= 0 ==> 0 <= r < b && r == a % b
    ensures a < 0 ==> -b < r <= 0 && r == -((-a) % b)
  {
    if a >= 0 then a % b else -((-a) % b)
  }

  /** Number(s) for the forms the scheduler produces: a digit string; every
      other form is NaN here. */
  function ParseNumber(s: string): Option<nat>
  {
    if AllDigits(s) then Some(ParseDigits(s)) else None
  }

  /** Index of the first ':' in s, or |s| when there is none. */
  function ColonIndex(s: string): (k: nat)
    ensures k <= |s|
    ensures forall j :: 0 <= j < k ==> s[j] != ':'
    ensures k < |s| ==> s[k] == ':'
  {
    if s == [] then 0 else if s[0] == ':' then 0 else 1 + ColonIndex(s[1..])
  }

  /** The first two fields of `s.split(':')`; the second is absent (undefined)
      when s has no ':'. */
  function SplitTime(s: string): (Option<string>, Option<string>)
  {
    var k := ColonIndex(s);
    if k == |s| then (Some(s), None)
    else
      var rest := s[k + 1..];
      (Some(s[..k]), Some(rest[..ColonIndex(rest)]))
  }

  /** `const [h, m] = s.split(':').map(Number)`: both fields as numbers, or
      None where either would be NaN. */
  function HoursAndMinutes(s: string): Option<(nat, nat)>
  {
    var (h, m) := SplitTime(s);
    if h.Some? && m.Some? then
      match (ParseNumber(h.value), ParseNumber(m.value))
      case (Some(hv), Some(mv)) => Some((hv, mv))
      case _ => None
    else None
  }

  /** Splitting `x + ":" + y`, for digit strings x and y, gives back x and y. */
  lemma SplitJoined(x: string, y: string)
    requires AllDigits(x) && AllDigits(y)
    ensures HoursAndMinutes(x + ":" + y) == Some((ParseDigits(x), ParseDigits(y)))
  {
    var s := x + ":" + y;
    ColonPosition(x, y);
    assert s[..|x|] == x;
    var rest := s[|x| + 1..];
    assert rest == y;
    ColonFree(y);
    assert rest[..ColonIndex(rest)] == y;
    assert SplitTime(s) == (Some(x), Some(y));
    assert ParseNumber(x) == Some(ParseDigits(x));
    assert ParseNumber(y) == Some(ParseDigits(y));
  }

  lemma ColonPosition(x: string, y: string)
    requires AllDigits(x)
    ensures ColonIndex(x + ":" + y) == |x|
    decreases |x|
  {
    if x != [] {
      assert (x + ":" + y)[1..] == x[1..] + ":" + y;
      ColonPosition(x[1..], y);
    }
  }

  lemma ColonFree(y: string)
    requires AllDigits(y)
    ensures ColonIndex(y) == |y|
    decreases |y|
  {
    if y != [] {
      ColonFree(y[1..]);
    }
  }
}
