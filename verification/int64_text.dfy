/** Decimal text of 64-bit integers, as .NET reads and writes it under the
    invariant culture: `long.ToString()` and `Int64.TryParse(string, out long)`.

    `TryParse` uses `NumberStyles.Integer`: white space before and after the
    number, one optional sign (`+` or `-`) directly before the digits, at
    least one ASCII digit, leading zeros allowed. .NET number parsing also
    accepts trailing NUL characters after the trailing white space. A value
    outside the 64-bit range is a failure, like a malformed string.
 */
module Int64Text {
  import opened Wrappers

  const MinInt64: int := -0x8000_0000_0000_0000
  const MaxInt64: int := 0x7FFF_FFFF_FFFF_FFFF

  predicate InRange(n: int) {
    MinInt64 <= n <= MaxInt64
  }

  /** `long`. */
  type Int64 = n: int | MinInt64 <= n <= MaxInt64

  const Minus: char := '-'
  const Plus: char := '+'
  const Nul: char := '\0'

  predicate IsDigit(c: char) {
    '0' <= c <= '9'
  }

  predicate AllDigits(s: string) {
    forall i :: 0 <= i < |s| ==> IsDigit(s[i])
  }

  /** The white space of .NET number parsing: space and U+0009..U+000D. */
  predicate IsNumberWhite(c: char) {
    c == ' ' || ('\t' <= c <= '\r')
  }

  predicate AllNumberWhite(s: string) {
    forall i :: 0 <= i < |s| ==> IsNumberWhite(s[i])
  }

  predicate AllNul(s: string) {
    forall i :: 0 <= i < |s| ==> s[i] == Nul
  }

  function DigitChar(d: nat): (c: char)
    requires d < 10
    ensures IsDigit(c)
  {
    ('0' as int + d) as char
  }

  function DigitValue(c: char): (d: nat)
    requires IsDigit(c)
    ensures d < 10 && DigitChar(d) == c
  {
    c as int - '0' as int
  }

  /** The number a digit string denotes, most significant digit first. */
  function DigitsValue(ds: string): nat
    requires AllDigits(ds)
    decreases |ds|
  {
    if |ds| == 0 then 0 else DigitsValue(ds[..|ds| - 1]) * 10 + DigitValue(ds[|ds| - 1])
  }

  /** Digits without a superfluous leading zero: "0" alone, or a string
      whose first digit is not zero. */
  predicate Canonical(ds: string) {
    && |ds| > 0
    && AllDigits(ds)
    && (ds[0] == '0' ==> |ds| == 1)
  }

  /** The shortest decimal digits of `n`. */
  function NatText(n: nat): (ds: string)
    ensures Canonical(ds)
    ensures DigitsValue(ds) == n
    decreases n
  {
    if n < 10 then [DigitChar(n)]
    else
      var prefix := NatText(n / 10);
      var ds := prefix + [DigitChar(n % 10)];
      assert ds[..|ds| - 1] == prefix;
      ds
  }

  /** `long.ToString()` under the invariant culture: a `-` for a negative
      value, then the shortest decimal digits of its magnitude. Defined on
      every integer so that out-of-range texts can be talked about. */
  function DecimalText(n: int): (s: string)
    ensures |s| > 0
    ensures s[0] == Minus <==> n < 0
    ensures n < 0 ==> Canonical(s[1..]) && s[1..] != "0"
    ensures n >= 0 ==> Canonical(s)
    // the digits denote the magnitude
    ensures n < 0 ==> DigitsValue(s[1..]) == -n
    ensures n >= 0 ==> DigitsValue(s) == n
  {
    if n < 0 then
      var s := [Minus] + NatText(-n);
      assert s[1..] == NatText(-n);
      s
    else NatText(n)
  }

  /** The index of the first non-white character at or after `i`. */
  function SkipWhite(s: string, i: nat): (j: nat)
    requires i <= |s|
    ensures i <= j <= |s|
    ensures AllNumberWhite(s[i..j])
    ensures j == |s| || !IsNumberWhite(s[j])
    decreases |s| - i
  {
    if i < |s| && IsNumberWhite(s[i]) then SkipWhite(s, i + 1) else i
  }

  /** The index of the first non-digit at or after `i`. */
  function SkipDigits(s: string, i: nat): (j: nat)
    requires i <= |s|
    ensures i <= j <= |s|
    ensures AllDigits(s[i..j])
    ensures j == |s| || !IsDigit(s[j])
    decreases |s| - i
  {
    if i < |s| && IsDigit(s[i]) then SkipDigits(s, i + 1) else i
  }

  /** The sign `TryParse` allows before the digits: none, `+` or `-`. */
  predicate IsSign(sign: string) {
    sign == [] || sign == [Plus] || sign == [Minus]
  }

  /** The value of a magnitude under a sign. */
  function Signed(sign: string, m: nat): int {
    if sign == [Minus] then -(m as int) else m
  }

  /** A character that can occur in text `TryParse` accepts. */
  predicate NumberChar(c: char) {
    IsNumberWhite(c) || IsDigit(c) || c == Minus || c == Plus || c == Nul
  }

  /** `Int64.TryParse(s, out l)`: `Some(l)` when it returns true. */
  function TryParseInt64(s: string): (r: Option<Int64>)
    ensures r.Some? ==> forall i :: 0 <= i < |s| ==> NumberChar(s[i])
    ensures r.Some? ==> exists i :: 0 <= i < |s| && IsDigit(s[i])
  {
    var a := SkipWhite(s, 0);
    var negative := a < |s| && s[a] == Minus;
    var b := if a < |s| && (s[a] == Minus || s[a] == Plus) then a + 1 else a;
    var c := SkipDigits(s, b);
    var d := SkipWhite(s, c);
    if b == c || !AllNul(s[d..]) then None
    else
      var magnitude := DigitsValue(s[b..c]);
      var n: int := if negative then -(magnitude as int) else magnitude;
      if InRange(n) then
        assert IsDigit(s[b]) by { assert IsDigit(s[b..c][0]); }
        assert forall i :: 0 <= i < |s| ==> NumberChar(s[i]) by {
          forall i | 0 <= i < |s|
            ensures NumberChar(s[i])
          {
            if i < a {
              assert s[i] == s[0..a][i];
            } else if i < b {
            } else if i < c {
              assert s[i] == s[b..c][i - b];
            } else if i < d {
              assert s[i] == s[c..d][i - c];
            } else {
              assert s[i] == s[d..][i - d];
            }
          }
        }
        Some(n)
      else None
  }

  /* ---------------------------------------------------------------------
     Reading back what was written.
     --------------------------------------------------------------------- */

  /** Digits read back from their value: the canonical digits of a number
      are the only canonical digits denoting it. */
  lemma {:induction false} NatTextOfValue(ds: string)
    requires Canonical(ds)
    ensures NatText(DigitsValue(ds)) == ds
    decreases |ds|
  {
    var n := DigitsValue(ds);
    if |ds| == 1 {
      assert ds[..0] == [];
    } else {
      var prefix := ds[..|ds| - 1];
      assert prefix[0] == ds[0];
      DigitsValueBound(prefix);
      NatTextOfValue(prefix);
      assert n / 10 == DigitsValue(prefix);
      assert n % 10 == DigitValue(ds[|ds| - 1]);
      assert ds == prefix + [ds[|ds| - 1]];
    }
  }

  /** A canonical digit string of two or more digits denotes at least 10. */
  lemma {:induction false} DigitsValueBound(ds: string)
    requires Canonical(ds)
    ensures |ds| > 1 ==> DigitsValue(ds) >= 10
    ensures ds != "0" ==> DigitsValue(ds) > 0
    decreases |ds|
  {
    if |ds| > 1 {
      var prefix := ds[..|ds| - 1];
      assert prefix[0] == ds[0];
      DigitsValueBound(prefix);
    } else {
      assert ds == [ds[0]];
    }
  }

  /** `TryParse` reads the written text back, surrounded by any white space
      and followed by any NUL characters, and fails exactly on the texts of
      values outside the 64-bit range. */
  lemma ParseDecimalTextPadded(n: int, lead: string, trail: string, nuls: string)
    requires AllNumberWhite(lead) && AllNumberWhite(trail) && AllNul(nuls)
    ensures TryParseInt64(lead + DecimalText(n) + trail + nuls) == if InRange(n) then Some(n) else None
  {
    var sign := if n < 0 then [Minus] else [];
    var digits := NatText(if n < 0 then -n else n);
    assert DecimalText(n) == sign + digits;
    ParseShaped(lead, sign, digits, trail, nuls);
  }

  /** What `TryParse` accepts, one direction: white space, an optional sign,
      one or more digits (leading zeros, a `+` and `-0` included), white space
      and NULs parse to the signed value of the digits when it is in range,
      and fail when it is not. */
  lemma ParseShaped(lead: string, sign: string, digits: string, trail: string, nuls: string)
    requires AllNumberWhite(lead) && AllNumberWhite(trail) && AllNul(nuls)
    requires IsSign(sign)
    requires |digits| > 0 && AllDigits(digits)
    ensures var v := Signed(sign, DigitsValue(digits));
            TryParseInt64(lead + (sign + digits) + trail + nuls) == if InRange(v) then Some(v) else None
  {
    var m := DigitsValue(digits);
    var negative := sign == [Minus];
    var t := sign + digits;
    SignThenDigits(sign, digits);
    ParseSigned(lead, t, trail, nuls, |sign|, negative, m);
    assert Signed(sign, m) == if negative then -(m as int) else m;
  }

  /** The character-level shape of a sign followed by digits. */
  lemma SignThenDigits(sign: string, digits: string)
    requires IsSign(sign)
    requires |digits| > 0 && AllDigits(digits)
    ensures SignedDigits(sign + digits, |sign|, sign == [Minus], DigitsValue(digits))
  {
    var t := sign + digits;
    var k := |sign|;
    assert t[0] == if k == 1 then sign[0] else digits[0];
    forall i | k <= i < |t|
      ensures IsDigit(t[i])
    {
      assert t[i] == digits[i - k];
    }
    assert t[k..] == digits;
  }

  /** `t` is `k` sign characters (`-` exactly when `negative`) followed by
      digits denoting `m`. */
  predicate SignedDigits(t: string, k: nat, negative: bool, m: nat) {
    && k < |t| && !IsNumberWhite(t[0])
    && k == (if t[0] == Minus || t[0] == Plus then 1 else 0)
    && (t[0] == Minus <==> negative)
    && (forall i :: k <= i < |t| ==> IsDigit(t[i]))
    && AllDigits(t[k..]) && DigitsValue(t[k..]) == m
  }

  /** `TryParse` on a signed digit string `t`, padded: `k` sign characters,
      then digits denoting `m`. */
  lemma ParseSigned(lead: string, t: string, trail: string, nuls: string, k: nat, negative: bool, m: nat)
    requires AllNumberWhite(lead) && AllNumberWhite(trail) && AllNul(nuls)
    requires SignedDigits(t, k, negative, m)
    ensures var v := if negative then -(m as int) else m;
            TryParseInt64(lead + t + trail + nuls) == if InRange(v) then Some(v) else None
  {
    PartsAt(lead, t, trail, nuls);
    ParseSignedParts(lead, t, trail, nuls, lead + t + trail + nuls, k, negative, m);
  }

  lemma ParseSignedParts(lead: string, t: string, trail: string, nuls: string, s: string, k: nat, negative: bool, m: nat)
    requires AllNumberWhite(lead) && AllNumberWhite(trail) && AllNul(nuls)
    requires Parts(lead, t, trail, nuls, s)
    requires SignedDigits(t, k, negative, m)
    ensures var v := if negative then -(m as int) else m;
            TryParseInt64(s) == if InRange(v) then Some(v) else None
  {
    PaddedScan(lead, t, trail, nuls, s, k);
    ParseSignedScanned(s, |lead|, k, |lead| + |t|, |lead| + |t| + |trail|, t, negative, m);
  }

  /** Where `TryParse`'s scan of `s` stops when the signed digit string `t`,
      with `k` sign characters, starts at `a`: after the leading white space
      at `a`, after the digits at `c`, after the trailing white space at `d`,
      with NULs only from there on. */
  predicate ScannedAt(s: string, a: nat, k: nat, c: nat, d: nat, t: string) {
    && k < |t| && c == a + |t| && c <= d <= |s|
    && SkipWhite(s, 0) == a
    && s[a] == t[0]
    && SkipDigits(s, a + k) == c
    && s[a + k..c] == t[k..]
    && SkipWhite(s, c) == d
    && AllNul(s[d..])
  }

  /** The read-back step once the scan positions are known. */
  lemma ParseSignedScanned(s: string, a: nat, k: nat, c: nat, d: nat, t: string, negative: bool, m: nat)
    requires ScannedAt(s, a, k, c, d, t)
    requires SignedDigits(t, k, negative, m)
    ensures var v := if negative then -(m as int) else m;
            TryParseInt64(s) == if InRange(v) then Some(v) else None
  {
    TryParseAt(s, a, k, c, d);
  }

  /** What `TryParse` accepts, the other direction: every text it accepts is
      white space, an optional sign, one or more digits, white space and
      NULs, and the value is the signed value of the digits. */
  lemma TryParseShape(s: string) returns (lead: string, sign: string, digits: string, trail: string, nuls: string)
    requires TryParseInt64(s).Some?
    ensures s == lead + (sign + digits) + trail + nuls
    ensures AllNumberWhite(lead) && AllNumberWhite(trail) && AllNul(nuls)
    ensures IsSign(sign)
    ensures |digits| > 0 && AllDigits(digits)
    ensures TryParseInt64(s).value == Signed(sign, DigitsValue(digits))
  {
    var a := SkipWhite(s, 0);
    var b := if a < |s| && (s[a] == Minus || s[a] == Plus) then a + 1 else a;
    var c := SkipDigits(s, b);
    var d := SkipWhite(s, c);
    lead, sign, digits, trail, nuls := s[..a], s[a..b], s[b..c], s[c..d], s[d..];
    assert lead == s[0..a];
    assert b == a + 1 ==> sign == [s[a]];
    assert b == a ==> sign == [];
    Reassemble(s, a, b, c, d);
  }

  /** A sequence is the concatenation of its slices at four cut points. */
  lemma Reassemble<T>(s: seq<T>, a: nat, b: nat, c: nat, d: nat)
    requires a <= b <= c <= d <= |s|
    ensures s == s[..a] + (s[a..b] + s[b..c]) + s[c..d] + s[d..]
  {
    assert s[a..b] + s[b..c] == s[a..c];
    assert s[..a] + s[a..c] == s[..c];
    assert s[..c] + s[c..d] == s[..d];
    assert s[..d] + s[d..] == s;
  }

  /** What `TryParse` returns once its scan positions are known: `a` after
      the leading white space, `sign` characters of sign, digits up to `c`,
      white space up to `d`, then NULs only. */
  lemma TryParseAt(s: string, a: nat, sign: nat, c: nat, d: nat)
    requires a + sign < c <= d <= |s|
    requires SkipWhite(s, 0) == a
    requires sign == (if s[a] == Minus || s[a] == Plus then 1 else 0)
    requires SkipDigits(s, a + sign) == c
    requires SkipWhite(s, c) == d
    requires AllNul(s[d..])
    ensures var m := DigitsValue(s[a + sign..c]);
            var v := if s[a] == Minus then -(m as int) else m;
            TryParseInt64(s) == if InRange(v) then Some(v) else None
  {
  }

  /** Where `TryParse`'s scan stops on a number padded with white space and
      NULs: after the leading white space, after the digits that follow the
      sign (if any), and after the trailing white space. */
  lemma PaddedScan(lead: string, t: string, trail: string, nuls: string, s: string, sign: nat)
    requires AllNumberWhite(lead) && AllNumberWhite(trail) && AllNul(nuls)
    requires Parts(lead, t, trail, nuls, s)
    requires sign < |t| && !IsNumberWhite(t[0])
    requires forall k :: sign <= k < |t| ==> IsDigit(t[k])
    ensures ScannedAt(s, |lead|, sign, |lead| + |t|, |lead| + |t| + |trail|, t)
  {
    ScanLead(lead, t, trail, nuls, s);
    ScanDigits(lead, t, trail, nuls, s, sign);
    ScanTrail(lead, t, trail, nuls, s);
  }

  lemma ScanLead(lead: string, t: string, trail: string, nuls: string, s: string)
    requires AllNumberWhite(lead)
    requires Parts(lead, t, trail, nuls, s)
    requires |t| > 0 && !IsNumberWhite(t[0])
    ensures SkipWhite(s, 0) == |lead| && s[|lead|] == t[0]
  {
    var a := |lead|;
    assert s[a] == t[0];
    forall k | 0 <= k < a
      ensures IsNumberWhite(s[k])
    {
      assert s[k] == lead[k];
    }
    SkipWhiteStops(s, 0, a);
  }

  lemma ScanDigits(lead: string, t: string, trail: string, nuls: string, s: string, sign: nat)
    requires AllNumberWhite(trail) && AllNul(nuls)
    requires Parts(lead, t, trail, nuls, s)
    requires sign < |t|
    requires forall k :: sign <= k < |t| ==> IsDigit(t[k])
    ensures SkipDigits(s, |lead| + sign) == |lead| + |t|
    ensures s[|lead| + sign..|lead| + |t|] == t[sign..]
  {
    var a := |lead|;
    var b := a + sign;
    var stop := a + |t|;
    forall k | b <= k < stop
      ensures s[k] == t[sign..][k - b] && IsDigit(s[k])
    {
      assert s[k] == t[k - a];
    }
    if stop < |s| {
      assert s[stop] == if |trail| > 0 then trail[0] else nuls[0];
    }
    SkipDigitsStops(s, b, stop);
    SliceFrom(s, b, stop, t[sign..]);
  }

  lemma ScanTrail(lead: string, t: string, trail: string, nuls: string, s: string)
    requires AllNumberWhite(trail) && AllNul(nuls)
    requires Parts(lead, t, trail, nuls, s)
    ensures SkipWhite(s, |lead| + |t|) == |lead| + |t| + |trail|
    ensures s[|lead| + |t| + |trail|..] == nuls
  {
    var stop := |lead| + |t|;
    var pad := stop + |trail|;
    forall k | stop <= k < pad
      ensures IsNumberWhite(s[k])
    {
      assert s[k] == trail[k - stop];
    }
    if pad < |s| {
      assert s[pad] == nuls[0];
    }
    SkipWhiteStops(s, stop, pad);
    SliceFrom(s, pad, |s|, nuls);
  }

  /** A slice equals a sequence when their elements agree one by one. */
  lemma SliceFrom<T>(s: seq<T>, b: nat, e: nat, d: seq<T>)
    requires b <= e <= |s| && |d| == e - b
    requires forall k :: b <= k < e ==> s[k] == d[k - b]
    ensures s[b..e] == d
  {
    forall j | 0 <= j < |d|
      ensures s[b..e][j] == d[j]
    {
      assert s[b..e][j] == s[b + j];
    }
  }

  /** `s` is made of the four parts `p`, `q`, `u` and `v`, character by
      character. */
  predicate Parts(p: string, q: string, u: string, v: string, s: string) {
    && |s| == |p| + |q| + |u| + |v|
    && (forall k :: 0 <= k < |p| ==> s[k] == p[k])
    && (forall k :: |p| <= k < |p| + |q| ==> s[k] == q[k - |p|])
    && (forall k :: |p| + |q| <= k < |p| + |q| + |u| ==> s[k] == u[k - |p| - |q|])
    && (forall k :: |p| + |q| + |u| <= k < |s| ==> s[k] == v[k - |p| - |q| - |u|])
  }

  lemma PartsAt(p: string, q: string, u: string, v: string)
    ensures Parts(p, q, u, v, p + q + u + v)
  {
  }

  /** SkipWhite stops at the first non-white character. */
  lemma {:induction false} SkipWhiteStops(s: string, i: nat, j: nat)
    requires i <= j <= |s|
    requires forall k :: i <= k < j ==> IsNumberWhite(s[k])
    requires j == |s| || !IsNumberWhite(s[j])
    ensures SkipWhite(s, i) == j
    decreases j - i
  {
    if i < j {
      SkipWhiteStops(s, i + 1, j);
    }
  }

  /** SkipDigits stops at the first non-digit. */
  lemma {:induction false} SkipDigitsStops(s: string, i: nat, j: nat)
    requires i <= j <= |s|
    requires forall k :: i <= k < j ==> IsDigit(s[k])
    requires j == |s| || !IsDigit(s[j])
    ensures SkipDigits(s, i) == j
    decreases j - i
  {
    if i < j {
      SkipDigitsStops(s, i + 1, j);
    }
  }

  /** The plain round trip: `TryParse(n.ToString())` gives `n` back for
      every 64-bit value, the extremes included. */
  lemma ParseDecimalText(n: Int64)
    ensures TryParseInt64(DecimalText(n)) == Some(n)
  {
    ParseDecimalTextPadded(n, "", "", "");
    Unpadded(DecimalText(n));
  }

  lemma Unpadded(s: string)
    ensures "" + s + "" + "" == s
  {
  }

  /** The other way round: a canonical decimal text of an in-range value is
      exactly what `ToString` writes for the value `TryParse` reads from it. */
  lemma DecimalTextOfParse(s: string)
    requires || Canonical(s)
             || (|s| > 1 && s[0] == Minus && Canonical(s[1..]) && s[1..] != "0")
    requires TryParseInt64(s).Some?
    ensures DecimalText(TryParseInt64(s).value) == s
  {
    var m := DecimalTextOfDigits(s);
    ParseDecimalTextPadded(m, "", "", "");
    Unpadded(s);
  }

  /** A canonical decimal text is the text of the number its digits denote. */
  lemma DecimalTextOfDigits(s: string) returns (m: int)
    requires || Canonical(s)
             || (|s| > 1 && s[0] == Minus && Canonical(s[1..]) && s[1..] != "0")
    ensures DecimalText(m) == s
  {
    if s[0] == Minus {
      m := NegativeTextOfDigits(s);
    } else {
      m := DigitsValue(s);
      NatTextOfValue(s);
    }
  }

  lemma NegativeTextOfDigits(s: string) returns (m: int)
    requires |s| > 1 && s[0] == Minus && Canonical(s[1..]) && s[1..] != "0"
    ensures DecimalText(m) == s
  {
    var digits := s[1..];
    var k := DigitsValue(digits);
    NatTextOfValue(digits);
    DigitsValueBound(digits);
    m := -(k as int);
    assert DecimalText(m) == [Minus] + NatText(k);
    assert s == [Minus] + digits;
  }
}
