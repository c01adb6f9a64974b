/**
 * The JavaScript string built-ins the loans service and the page rely on, over
 * strings of Unicode scalar values: String.prototype.trim, padStart and
 * startsWith, and String(n) for integers. The digit parsers are the reference
 * definitions the round-trip lemmas are stated against.
 */
module JsText {
  import opened Wrappers

  /** WhiteSpace or LineTerminator of ECMA-262: exactly what trim() removes. */
  predicate IsTrimmable(c: char)
  {
    c == '\t' || c == '\n' || c == '\U{B}' || c == '\U{C}' || c == '\r' || c == ' '
    || c == '\U{A0}' || c == '\U{1680}' || ('\U{2000}' <= c <= '\U{200A}')
    || c == '\U{2028}' || c == '\U{2029}' || c == '\U{202F}' || c == '\U{205F}'
    || c == '\U{3000}' || c == '\U{FEFF}'
  }

  /** Length of the run of trimmable characters at the front of s. */
  function LeadingTrimmable(s: string): (k: nat)
    ensures k <= |s|
    ensures forall i :: 0 <= i < k ==> IsTrimmable(s[i])
    ensures k < |s| ==> !IsTrimmable(s[k])
  {
    if s != [] && IsTrimmable(s[0]) then 1 + LeadingTrimmable(s[1..]) else 0
  }

  /** Index at which the run of trimmable characters at the end of s starts. */
  function TrailingTrimmable(s: string): (k: nat)
    ensures k <= |s|
    ensures forall i :: k <= i < |s| ==> IsTrimmable(s[i])
    ensures 0 < k ==> !IsTrimmable(s[k - 1])
  {
    if s != [] && IsTrimmable(s[|s| - 1]) then TrailingTrimmable(s[..|s| - 1]) else |s|
  }

  /** String.prototype.trim: the longest infix of s that neither starts nor ends with
      a trimmable character, obtained by dropping only trimmable characters. */
  function Trim(s: string): (r: string)
    ensures r == [] <==> forall i :: 0 <= i < |s| ==> IsTrimmable(s[i])
    ensures r != [] ==> !IsTrimmable(r[0]) && !IsTrimmable(r[|r| - 1])
    ensures var i := LeadingTrimmable(s);
      i + |r| <= |s| && r == s[i..i + |r|] &&
      forall j :: 0 <= j < |s| && !(i <= j < i + |r|) ==> IsTrimmable(s[j])
  {
    var t := s[LeadingTrimmable(s)..];
    t[..TrailingTrimmable(t)]
  }

  /** Trimming twice is trimming once. */
  lemma TrimIdempotent(s: string)
    ensures Trim(Trim(s)) == Trim(s)
  {
    var r := Trim(s);
    if r != [] {
      assert LeadingTrimmable(r) == 0;
      assert TrailingTrimmable(r) == |r|;
    }
  }

  /** String.prototype.startsWith */
  predicate StartsWith(s: string, prefix: string)
  {
    |prefix| <= |s| && s[..|prefix|] == prefix
  }

  /** String.prototype.padStart with a one-character fill string. */
  function PadStart(s: string, width: nat, fill: char): (r: string)
    ensures |r| == if |s| < width then width else |s|
    ensures r[|r| - |s|..] == s
    ensures forall i :: 0 <= i < |r| - |s| ==> r[i] == fill
  {
    if |s| < width then seq(width - |s|, _ => fill) + s else s
  }

  predicate IsDigit(c: char)
  {
    '0' <= c <= '9'
  }

  predicate AllDigits(s: string)
  {
    forall i :: 0 <= i < |s| ==> IsDigit(s[i])
  }

  function DigitChar(d: nat): (c: char)
    requires d < 10
    ensures IsDigit(c) && c as int - '0' as int == d
  {
    ('0' as int + d) as char
  }

  /** String(n) for a non-negative integer: its shortest decimal form. */
  function DecimalString(n: nat): (r: string)
    ensures |r| >= 1 && AllDigits(r)
    ensures r[0] == '0' ==> n == 0
    decreases n
  {
    if n < 10 then [DigitChar(n)] else DecimalString(n / 10) + [DigitChar(n % 10)]
  }

  /** The value of a string of decimal digits, leading zeros allowed. */
  function DigitsValue(s: string): nat
    requires AllDigits(s)
  {
    if s == [] then 0 else 10 * DigitsValue(s[..|s| - 1]) + (s[|s| - 1] as int - '0' as int)
  }

  /** Reads back a string of decimal digits, as Number() would for such a string. */
  function ParseDigits(s: string): Option<nat>
  {
    if s != [] && AllDigits(s) then Some(DigitsValue(s)) else None
  }

  lemma {:induction false} DecimalStringValue(n: nat)
    ensures DigitsValue(DecimalString(n)) == n
    decreases n
  {
    if n >= 10 {
      DecimalStringValue(n / 10);
      var r := DecimalString(n);
      assert r[..|r| - 1] == DecimalString(n / 10);
    }
  }

  /** Leading zeros do not change the value of a digit string. */
  lemma {:induction false} LeadingZerosValue(z: nat, s: string)
    requires AllDigits(s)
    ensures AllDigits(seq(z, _ => '0') + s)
    ensures DigitsValue(seq(z, _ => '0') + s) == DigitsValue(s)
    decreases |s|
  {
    var zs := seq(z, _ => '0');
    var t := zs + s;
    assert AllDigits(t) by {
      forall i | 0 <= i < |t| ensures IsDigit(t[i]) {
        if i < z { assert t[i] == zs[i]; } else { assert t[i] == s[i - z]; }
      }
    }
    if s == [] {
      ZerosValue(z);
      assert t == zs;
    } else {
      LeadingZerosValue(z, s[..|s| - 1]);
      assert t[..|t| - 1] == zs + s[..|s| - 1];
    }
  }

  lemma {:induction false} ZerosValue(z: nat)
    ensures AllDigits(seq(z, _ => '0'))
    ensures DigitsValue(seq(z, _ => '0')) == 0
  {
    var zs := seq(z, _ => '0');
    assert AllDigits(zs) by {
      forall i | 0 <= i < z ensures IsDigit(zs[i]) { assert zs[i] == '0'; }
    }
    if z > 0 {
      ZerosValue(z - 1);
      assert zs[..z - 1] == seq(z - 1, _ => '0');
    }
  }

  /** The zero-padded decimal form of n reads back as n, whatever the width. */
  lemma PaddedDecimalRoundTrip(n: nat, width: nat)
    ensures ParseDigits(PadStart(DecimalString(n), width, '0')) == Some(n)
  {
    var d := DecimalString(n);
    DecimalStringValue(n);
    if |d| < width {
      LeadingZerosValue(width - |d|, d);
    }
  }

  /** Digit counts of String(n) for the ranges the date and id formats use. */
  lemma DecimalStringLength(n: nat)
    ensures n < 10 ==> |DecimalString(n)| == 1
    ensures 10 <= n < 100 ==> |DecimalString(n)| == 2
    ensures 100 <= n < 1000 ==> |DecimalString(n)| == 3
    ensures 1000 <= n < 10000 ==> |DecimalString(n)| == 4
  {
    if n >= 10 {
      DecimalStringLength(n / 10);
    }
  }

  /** String(y) for any integer: a minus sign before the decimal form of a negative one. */
  function IntString(y: int): (r: string)
    ensures r != []
    ensures r[0] == '-' <==> y < 0
  {
    if y < 0 then "-" + DecimalString(-y) else DecimalString(y)
  }

  /** Reads back what IntString writes. */
  function ParseInt(s: string): Option<int>
  {
    if s != [] && s[0] == '-' then
      match ParseDigits(s[1..])
      case Some(v) => Some(-(v as int))
      case None => None
    else
      match ParseDigits(s)
      case Some(v) => Some(v)
      case None => None
  }

  lemma IntStringRoundTrip(y: int)
    ensures ParseInt(IntString(y)) == Some(y)
  {
    if y < 0 {
      PaddedDecimalRoundTrip(-y, 0);
      assert IntString(y)[1..] == DecimalString(-y);
    } else {
      PaddedDecimalRoundTrip(y, 0);
    }
  }
}
