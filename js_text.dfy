/**
  The JavaScript string and number conversions the application relies on:
  `String(n)` of an integer, `padStart`, `split` on a set of separator
  characters, `Number(s)` and `parseInt(s, 10)`.

  Numbers here are integers; `None` stands for NaN.
*/
module JsText {

  import opened Wrappers

  predicate IsDigit(c: char) { '0' <= c <= '9' }

  predicate AllDigits(s: string) { forall i :: 0 <= i < |s| ==> IsDigit(s[i]) }

  function DigitChar(d: int): (c: char)
    requires 0 <= d < 10
    ensures IsDigit(c)
  {
    ('0' as int + d) as char
  }

  function DigitValue(c: char): (d: int)
    requires IsDigit(c)
    ensures 0 <= d < 10 && DigitChar(d) == c
  {
    c as int - '0' as int
  }

  /** The value of a string of decimal digits (leading zeros allowed). */
  function DigitsValue(s: string): nat
    requires AllDigits(s)
  {
    if s == [] then 0 else 10 * DigitsValue(s[..|s| - 1]) + DigitValue(s[|s| - 1])
  }

  /** The shortest decimal numeral of n. */
  function NatToDigits(n: nat): (s: string)
    ensures |s| >= 1 && AllDigits(s)
    ensures DigitsValue(s) == n
    ensures s[0] == '0' ==> n == 0
    ensures n < 10 ==> |s| == 1
    ensures 10 <= n < 100 ==> |s| == 2
    ensures n < 10000 ==> |s| <= 4
    ensures n < 1000000 ==> |s| <= 6
  {
    if n < 10 then [DigitChar(n)]
    else
      var s := NatToDigits(n / 10) + [DigitChar(n % 10)];
      assert s[..|s| - 1] == NatToDigits(n / 10);
      s
  }

  /** `String(n)` for an integer n. */
  function IntToString(n: int): (s: string)
    ensures |s| >= 1
    ensures n >= 0 ==> s == NatToDigits(n)
    ensures n < 0 ==> s[0] == '-' && s[1..] == NatToDigits(-n)
  {
    if n < 0 then "-" + NatToDigits(-n) else NatToDigits(n)
  }

  /** `s.padStart(width, [c])`. */
  function PadStart(s: string, width: nat, c: char): (r: string)
    ensures |r| == if |s| >= width then |s| else width
    ensures r[|r| - |s|..] == s
    ensures forall i :: 0 <= i < |r| - |s| ==> r[i] == c
    decreases width - |s|
  {
    if |s| >= width then s else PadStart([c] + s, width, c)
  }

  lemma {:induction false} LeadingZeros(z: string, s: string)
    requires forall i :: 0 <= i < |z| ==> z[i] == '0'
    requires AllDigits(s)
    ensures AllDigits(z + s)
    ensures DigitsValue(z + s) == DigitsValue(s)
    decreases |s|
  {
    assert forall i :: 0 <= i < |z + s| ==> IsDigit((z + s)[i]) by {
      forall i | 0 <= i < |z + s| ensures IsDigit((z + s)[i]) {
        if i < |z| { assert (z + s)[i] == z[i]; } else { assert (z + s)[i] == s[i - |z|]; }
      }
    }
    if s == [] {
      assert z + s == z;
      AllZeros(z);
    } else {
      var t := s[..|s| - 1];
      assert (z + s)[..|z + s| - 1] == z + t;
      LeadingZeros(z, t);
    }
  }

  lemma {:induction false} AllZeros(z: string)
    requires forall i :: 0 <= i < |z| ==> z[i] == '0'
    ensures AllDigits(z) && DigitsValue(z) == 0
  {
    if z != [] {
      AllZeros(z[..|z| - 1]);
    }
  }

  /** A zero-padded numeral still reads as its number. */
  lemma PaddedDigits(n: nat, width: nat)
    ensures AllDigits(PadStart(NatToDigits(n), width, '0'))
    ensures DigitsValue(PadStart(NatToDigits(n), width, '0')) == n
  {
    var s := NatToDigits(n);
    var r := PadStart(s, width, '0');
    var z := r[..|r| - |s|];
    assert r == z + s;
    LeadingZeros(z, s);
  }

  function Pow10(k: nat): (p: nat)
    ensures p >= 1
  {
    if k == 0 then 1 else 10 * Pow10(k - 1)
  }

  /** The last `width` decimal digits of n, most significant first. */
  function FixedDigits(n: nat, width: nat): (s: string)
    ensures |s| == width
  {
    if width == 0 then [] else FixedDigits(n / 10, width - 1) + [DigitChar(n % 10)]
  }

  /**
    `String(n).padStart(width, '0')`: exactly `width` digits when n has at most
    that many, the numeral unchanged otherwise.
  */
  function PadNumber(n: nat, width: nat): string {
    if 0 < width && n < Pow10(width) then FixedDigits(n, width) else NatToDigits(n)
  }

  lemma {:induction false} FixedDigitsValue(n: nat, width: nat)
    requires n < Pow10(width)
    ensures AllDigits(FixedDigits(n, width)) && DigitsValue(FixedDigits(n, width)) == n
  {
    if width > 0 {
      var s := FixedDigits(n, width);
      FixedDigitsValue(n / 10, width - 1);
      assert s[..|s| - 1] == FixedDigits(n / 10, width - 1);
    }
  }

  /** A padded number is `width` digits reading as the number. */
  lemma PadNumberDigits(n: nat, width: nat)
    requires 0 < width && n < Pow10(width)
    ensures |PadNumber(n, width)| == width
    ensures AllDigits(PadNumber(n, width)) && DigitsValue(PadNumber(n, width)) == n
  {
    FixedDigitsValue(n, width);
  }

  /** A numeral of k digits is below 10^k. */
  lemma {:induction false} DigitsBound(s: string)
    requires AllDigits(s)
    ensures DigitsValue(s) < Pow10(|s|)
  {
    if s != [] {
      DigitsBound(s[..|s| - 1]);
    }
  }

  /** Two numerals of the same length with the same value are the same text. */
  lemma {:induction false} DigitsInjective(a: string, b: string)
    requires |a| == |b| && AllDigits(a) && AllDigits(b)
    requires DigitsValue(a) == DigitsValue(b)
    ensures a == b
  {
    if a != [] {
      var n := |a|;
      var pa, pb := a[..n - 1], b[..n - 1];
      assert AllDigits(pa) && AllDigits(pb);
      var da, db := DigitValue(a[n - 1]), DigitValue(b[n - 1]);
      assert DigitsValue(a) == 10 * DigitsValue(pa) + da;
      assert DigitsValue(b) == 10 * DigitsValue(pb) + db;
      LastDigit(DigitsValue(pa), da, DigitsValue(pb), db);
      assert a[n - 1] == DigitChar(da) == b[n - 1];
      DigitsInjective(pa, pb);
      assert a == pa + [a[n - 1]] && b == pb + [b[n - 1]];
    }
  }

  lemma LastDigit(x: int, d: int, y: int, e: int)
    requires 0 <= d < 10 && 0 <= e < 10
    requires 10 * x + d == 10 * y + e
    ensures x == y && d == e
  {
  }

  lemma {:induction false} Pow10Monotone(i: nat, j: nat)
    requires i <= j
    ensures Pow10(i) <= Pow10(j)
    decreases j
  {
    if i < j {
      Pow10Monotone(i, j - 1);
    }
  }

  lemma Pow10Below(i: nat, j: nat)
    requires Pow10(i) < Pow10(j)
    ensures i < j
  {
    if j <= i {
      Pow10Monotone(j, i);
    }
  }

  /** `PadNumber` is `padStart` applied to the numeral. */
  lemma PadNumberIsPadStart(n: nat, width: nat)
    ensures PadNumber(n, width) == PadStart(NatToDigits(n), width, '0')
  {
    if 0 < width && n < Pow10(width) {
      PadShortNumber(n, width);
    } else {
      PadLongNumber(n, width);
    }
  }

  lemma PadShortNumber(n: nat, width: nat)
    requires 0 < width && n < Pow10(width)
    ensures FixedDigits(n, width) == PadStart(NatToDigits(n), width, '0')
  {
    NumeralFits(n, width);
    PaddedDigits(n, width);
    FixedDigitsValue(n, width);
    DigitsInjective(FixedDigits(n, width), PadStart(NatToDigits(n), width, '0'));
  }

  /** A number below 10^width has a numeral of at most `width` digits. */
  lemma NumeralFits(n: nat, width: nat)
    requires 0 < width && n < Pow10(width)
    ensures |NatToDigits(n)| <= width
  {
    var s := NatToDigits(n);
    if |s| >= 2 {
      NoLeadingZero(s);
      Pow10Below(|s| - 1, width);
    }
  }

  lemma PadLongNumber(n: nat, width: nat)
    requires !(0 < width && n < Pow10(width))
    ensures NatToDigits(n) == PadStart(NatToDigits(n), width, '0')
  {
    var s := NatToDigits(n);
    if |s| < width {
      DigitsBound(s);
      Pow10Monotone(|s|, width);
    }
  }

  /** A numeral of k digits without a leading zero is at least 10^(k-1). */
  lemma {:induction false} NoLeadingZero(s: string)
    requires |s| >= 1 && AllDigits(s) && s[0] != '0'
    ensures DigitsValue(s) >= Pow10(|s| - 1)
  {
    if |s| >= 2 {
      var p := s[..|s| - 1];
      assert p[0] == s[0];
      NoLeadingZero(p);
    }
  }

  /** WhiteSpace and LineTerminator code points, which `Number` and `parseInt` skip. */
  predicate IsWhiteSpace(c: char) {
    c == ' ' || c == '\t' || c == '\n' || c == '\r' || c == '\U{000B}' || c == '\U{000C}'
    || c == '\U{00A0}' || c == '\U{1680}' || ('\U{2000}' <= c <= '\U{200A}')
    || c == '\U{2028}' || c == '\U{2029}' || c == '\U{202F}' || c == '\U{205F}'
    || c == '\U{3000}' || c == '\U{FEFF}'
  }

  function TrimStart(s: string): (r: string)
    ensures |r| <= |s| && r == s[|s| - |r|..]
    ensures r != [] ==> !IsWhiteSpace(r[0])
    ensures forall i :: 0 <= i < |s| - |r| ==> IsWhiteSpace(s[i])
  {
    if s != [] && IsWhiteSpace(s[0]) then TrimStart(s[1..]) else s
  }

  function TrimEnd(s: string): (r: string)
    ensures |r| <= |s| && r == s[..|r|]
    ensures r != [] ==> !IsWhiteSpace(r[|r| - 1])
    ensures forall i :: |r| <= i < |s| ==> IsWhiteSpace(s[i])
  {
    if s != [] && IsWhiteSpace(s[|s| - 1]) then TrimEnd(s[..|s| - 1]) else s
  }

  /** The longest prefix of s made of digits. */
  function DigitPrefix(s: string): (p: string)
    ensures |p| <= |s| && AllDigits(p) && p == s[..|p|]
    ensures |p| < |s| ==> !IsDigit(s[|p|])
    ensures AllDigits(s) ==> p == s
  {
    if s != [] && IsDigit(s[0]) then [s[0]] + DigitPrefix(s[1..]) else []
  }

  /** An optional sign followed by digits, as a signed integer. */
  function SignedDigits(s: string): (v: Option<int>)
    ensures AllDigits(s) && s != [] ==> v == Some(DigitsValue(s))
  {
    if s != [] && (s[0] == '-' || s[0] == '+') then
      var rest := s[1..];
      if rest != [] && AllDigits(rest) then
        var v: int := if s[0] == '-' then 0 - DigitsValue(rest) as int else DigitsValue(rest);
        Some(v)
      else None
    else if s != [] && AllDigits(s) then Some(DigitsValue(s))
    else None
  }

  /**
    `Number(s)`, for strings holding integers: surrounding white space is
    ignored and the empty string is 0.
  */
  function ToNumber(s: string): (v: Option<int>)
    ensures AllDigits(s) && s != [] ==> v == Some(DigitsValue(s))
    ensures TrimEnd(TrimStart(s)) == [] ==> v == Some(0)
  {
    var t := TrimEnd(TrimStart(s));
    if t == [] then Some(0) else SignedDigits(t)
  }

  /** `parseInt(s, 10)`: leading white space, an optional sign, then as many digits as there are. */
  function ParseInt(s: string): (v: Option<int>)
    ensures AllDigits(s) && s != [] ==> v == Some(DigitsValue(s))
  {
    var t := TrimStart(s);
    var negative := t != [] && t[0] == '-';
    var rest := if t != [] && (t[0] == '-' || t[0] == '+') then t[1..] else t;
    var digits := DigitPrefix(rest);
    assert AllDigits(s) && s != [] ==> t == s && rest == s && digits == s;
    if digits == [] then None
    else
      var v: int := if negative then 0 - DigitsValue(digits) as int else DigitsValue(digits);
      Some(v)
  }

  /** The digit prefix of digits followed by a non-digit is those digits. */
  lemma {:induction false} DigitPrefixOf(digits: string, tail: string)
    requires AllDigits(digits)
    requires tail != [] ==> !IsDigit(tail[0])
    ensures DigitPrefix(digits + tail) == digits
  {
    if digits != [] {
      assert (digits + tail)[1..] == digits[1..] + tail;
      DigitPrefixOf(digits[1..], tail);
      assert [digits[0]] + digits[1..] == digits;
    }
  }

  /** `parseInt` reads the leading digits and ignores the rest: `"1.5"` reads as 1, `"0x1A"` as 0. */
  lemma ParseIntDigitPrefix(digits: string, tail: string)
    requires digits != [] && AllDigits(digits)
    requires tail != [] ==> !IsDigit(tail[0])
    ensures ParseInt(digits + tail) == Some(DigitsValue(digits))
  {
    var s := digits + tail;
    assert s[0] == digits[0] && IsDigit(s[0]);
    var t := TrimStart(s);
    assert t == s;
    assert t[0] != '-' && t[0] != '+';
    DigitPrefixOf(digits, tail);
    assert DigitPrefix(t) == digits;
  }

  /** `v - k` on a number that may be NaN. */
  function Minus(v: Option<int>, k: int): (r: Option<int>)
    ensures r.Some? <==> v.Some?
    ensures r.Some? ==> r.value + k == v.value
  {
    match v
    case None => None
    case Some(x) => Some(x - k)
  }

  /** `s.split(re)` for a regular expression that is a class of single characters. */
  function Split(s: string, seps: set<char>): (parts: seq<string>)
    ensures |parts| >= 1
  {
    if s == [] then [""]
    else if s[0] in seps then [""] + Split(s[1..], seps)
    else
      var rest := Split(s[1..], seps);
      [[s[0]] + rest[0]] + rest[1..]
  }

  predicate NoSeparator(s: string, seps: set<char>) {
    forall i :: 0 <= i < |s| ==> s[i] !in seps
  }

  /** A string without separators splits into itself. */
  lemma {:induction false} SplitNone(a: string, seps: set<char>)
    requires NoSeparator(a, seps)
    ensures Split(a, seps) == [a]
  {
    if a != [] {
      SplitNone(a[1..], seps);
      assert [a[0]] + a[1..] == a;
    }
  }

  /** A separator-free piece followed by a separator splits off as the first part. */
  lemma {:induction false} SplitFirst(a: string, c: char, b: string, seps: set<char>)
    requires NoSeparator(a, seps) && c in seps
    ensures Split(a + [c] + b, seps) == [a] + Split(b, seps)
  {
    if a == [] {
      assert a + [c] + b == [c] + b;
      assert ([c] + b)[1..] == b;
    } else {
      var s := a + [c] + b;
      assert s[0] == a[0];
      assert s[1..] == a[1..] + [c] + b;
      SplitFirst(a[1..], c, b, seps);
      assert [a[0]] + a[1..] == a;
    }
  }

  /** Every part of a split holds no separator. */
  lemma {:induction false} SplitPartsFree(s: string, seps: set<char>)
    ensures forall k :: 0 <= k < |Split(s, seps)| ==> NoSeparator(Split(s, seps)[k], seps)
  {
    if s != [] {
      SplitPartsFree(s[1..], seps);
      var rest := Split(s[1..], seps);
      if s[0] !in seps {
        assert NoSeparator(rest[0], seps);
        assert NoSeparator([s[0]] + rest[0], seps);
      }
    }
  }
}
