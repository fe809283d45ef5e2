/**
 Decimal text at digit level: the part of Go's math/big and strings packages that the
 service leans on whenever an amount, a price or a tick count crosses a text column.
 */
module Numerals {
  import opened Wrappers
  import opened Arithmetic

  // ----- Powers of ten

  function Pow10(n: nat): (p: nat)
    ensures p >= 1
  {
    if n == 0 then 1 else 10 * Pow10(n - 1)
  }

  /** n followed by k zeros: n * 10^k, spelled so that reasoning about it stays linear. */
  function Shift(n: int, k: nat): (r: int)
    ensures n >= 0 ==> r >= n
  {
    if k == 0 then n else 10 * Shift(n, k - 1)
  }

  lemma {:induction false} ShiftIsProduct(n: int, k: nat)
    ensures Shift(n, k) == n * Pow10(k)
  {
    if k > 0 {
      ShiftIsProduct(n, k - 1);
      var p := Pow10(k - 1);
      assert 10 * (n * p) == n * (10 * p);
    }
  }

  lemma {:induction false} ShiftLinear(a: int, b: int, k: nat)
    ensures Shift(a + b, k) == Shift(a, k) + Shift(b, k)
  {
    if k > 0 {
      ShiftLinear(a, b, k - 1);
    }
  }

  lemma {:induction false} ShiftScale(t: int, n: int, k: nat)
    ensures Shift(t * n, k) == t * Shift(n, k)
  {
    if k > 0 {
      ShiftScale(t, n, k - 1);
    }
  }

  lemma {:induction false} ShiftShift(n: int, j: nat, k: nat)
    ensures Shift(Shift(n, j), k) == Shift(n, j + k)
  {
    if k > 0 {
      ShiftShift(n, j, k - 1);
    }
  }

  lemma {:induction false} ShiftOrder(a: int, b: int, k: nat)
    ensures a < b <==> Shift(a, k) < Shift(b, k)
  {
    if k > 0 {
      ShiftOrder(a, b, k - 1);
    }
  }

  lemma ShiftCancel(a: int, b: int, k: nat)
    ensures a == b <==> Shift(a, k) == Shift(b, k)
  {
    ShiftOrder(a, b, k);
    ShiftOrder(b, a, k);
  }

  lemma {:induction false} ShiftZero(k: nat)
    ensures Shift(0, k) == 0
  {
    if k > 0 {
      ShiftZero(k - 1);
    }
  }

  lemma {:induction false} Pow10IsShift(k: nat)
    ensures Pow10(k) == Shift(1, k)
  {
    if k > 0 {
      Pow10IsShift(k - 1);
    }
  }

  lemma Pow10Add(a: nat, b: nat)
    ensures Pow10(a + b) == Pow10(a) * Pow10(b) == Shift(Pow10(a), b)
  {
    Pow10IsShift(a);
    Pow10IsShift(a + b);
    ShiftShift(1, a, b);
    ShiftIsProduct(Pow10(a), b);
  }

  /** The digits of n above its last k. */
  function HighDigits(n: nat, k: nat): nat {
    if k == 0 then n else HighDigits(n / 10, k - 1)
  }

  /** The number formed by the last k digits of n. */
  function LowDigits(n: nat, k: nat): nat {
    if k == 0 then 0 else 10 * LowDigits(n / 10, k - 1) + n % 10
  }

  lemma {:induction false} HighAndLow(n: nat, k: nat)
    ensures n == Shift(HighDigits(n, k), k) + LowDigits(n, k)
    ensures LowDigits(n, k) < Pow10(k)
  {
    if k > 0 {
      HighAndLow(n / 10, k - 1);
    }
  }

  /** Dropping and keeping digits is dividing by a power of ten. */
  lemma HighAndLowDivide(n: nat, k: nat)
    ensures n / Pow10(k) == HighDigits(n, k) && n % Pow10(k) == LowDigits(n, k)
  {
    HighAndLow(n, k);
    ShiftIsProduct(HighDigits(n, k), k);
    DivModUnique(n, Pow10(k), HighDigits(n, k), LowDigits(n, k));
  }

  lemma {:induction false} HighAndLowShifted(n: nat, j: nat, k: nat)
    ensures HighDigits(Shift(n, k), j + k) == HighDigits(n, j)
    ensures LowDigits(Shift(n, k), j + k) == Shift(LowDigits(n, j), k)
  {
    if k > 0 {
      HighAndLowShifted(n, j, k - 1);
      assert Shift(n, k) / 10 == Shift(n, k - 1);
    }
  }

  // ----- Digits

  predicate IsDigit(c: char) {
    '0' <= c <= '9'
  }

  predicate AllDigits(s: string) {
    forall i | 0 <= i < |s| :: IsDigit(s[i])
  }

  function DigitValue(c: char): (d: nat)
    requires IsDigit(c)
    ensures d < 10
  {
    c as int - '0' as int
  }

  function DigitChar(d: nat): (c: char)
    requires d < 10
    ensures IsDigit(c) && DigitValue(c) == d
  {
    ('0' as int + d) as char
  }

  /** The number a digit string denotes in base ten; leading zeros are allowed. */
  function Value(s: string): nat
    requires AllDigits(s)
  {
    if s == "" then 0 else 10 * Value(s[..|s| - 1]) + DigitValue(s[|s| - 1])
  }

  /** big.Int.String for a non-negative value. */
  function Text(n: nat): string {
    if n < 10 then [DigitChar(n)] else Text(n / 10) + [DigitChar(n % 10)]
  }

  /** A digit string without superfluous leading zeros. */
  predicate Canonical(s: string) {
    AllDigits(s) && |s| >= 1 && (|s| > 1 ==> s[0] != '0')
  }

  lemma {:induction false} TextIsCanonical(n: nat)
    ensures Canonical(Text(n))
    ensures n > 0 ==> Text(n)[0] != '0'
  {
    if n >= 10 {
      TextIsCanonical(n / 10);
    } else if n > 0 {
      assert DigitValue(Text(n)[0]) == n;
    }
  }

  lemma {:induction false} ValueOfText(n: nat)
    ensures AllDigits(Text(n)) && Value(Text(n)) == n
  {
    TextIsCanonical(n);
    if n >= 10 {
      ValueOfText(n / 10);
      assert Text(n)[..|Text(n)| - 1] == Text(n / 10);
    }
  }

  lemma {:induction false} TextOfValue(s: string)
    requires Canonical(s)
    ensures Text(Value(s)) == s
  {
    if |s| == 1 {
      assert s[..0] == "";
      assert s == [DigitChar(DigitValue(s[0]))];
    } else {
      var t := s[..|s| - 1];
      TextOfValue(t);
      CanonicalIsPositive(t);
      assert Value(s) / 10 == Value(t) && Value(s) % 10 == DigitValue(s[|s| - 1]);
      assert s == t + [s[|s| - 1]];
    }
  }

  lemma {:induction false} CanonicalIsPositive(s: string)
    requires Canonical(s) && s[0] != '0'
    ensures Value(s) > 0
  {
    if |s| > 1 {
      CanonicalIsPositive(s[..|s| - 1]);
    }
  }

  lemma TextIsInjective(a: nat, b: nat)
    requires Text(a) == Text(b)
    ensures a == b
  {
    ValueOfText(a);
    ValueOfText(b);
  }

  lemma {:induction false} ValueAppend(a: string, b: string)
    requires AllDigits(a) && AllDigits(b)
    ensures AllDigits(a + b) && Value(a + b) == Shift(Value(a), |b|) + Value(b)
  {
    if b == "" {
      assert a + b == a;
    } else {
      var c := b[..|b| - 1];
      ValueAppend(a, c);
      assert (a + b)[..|a + b| - 1] == a + c;
    }
  }

  lemma {:induction false} ValueBound(s: string)
    requires AllDigits(s)
    ensures Value(s) < Pow10(|s|)
  {
    if s != "" {
      ValueBound(s[..|s| - 1]);
    }
  }

  // ----- Padding and trimming zeros

  function Zeros(k: nat): (s: string)
    ensures |s| == k && AllDigits(s)
    ensures forall i | 0 <= i < k :: s[i] == '0'
  {
    seq(k, _ => '0')
  }

  lemma {:induction false} ValueOfZeros(k: nat)
    ensures Value(Zeros(k)) == 0
  {
    if k > 0 {
      ValueOfZeros(k - 1);
      assert Zeros(k)[..k - 1] == Zeros(k - 1);
    }
  }

  /** strings.Repeat("0", width-len(s)) + s when s is shorter than width. */
  function PadLeft(s: string, width: int): string {
    if |s| < width then Zeros(width - |s|) + s else s
  }

  /** strings.TrimRight(s, "0"). */
  function TrimZeros(s: string): string {
    if s != "" && s[|s| - 1] == '0' then TrimZeros(s[..|s| - 1]) else s
  }

  /** The digits of n at a fixed width, most significant first. */
  function FixedDigits(n: nat, width: nat): (s: string)
    ensures |s| == width && AllDigits(s)
  {
    if width == 0 then "" else FixedDigits(n / 10, width - 1) + [DigitChar(n % 10)]
  }

  lemma {:induction false} FixedDigitsOfZero(width: nat)
    ensures FixedDigits(0, width) == Zeros(width)
  {
    if width > 0 {
      FixedDigitsOfZero(width - 1);
    }
  }

  lemma {:induction false} PadIsFixedDigits(n: nat, width: nat)
    requires width > 0 && n < Pow10(width)
    ensures PadLeft(Text(n), width) == FixedDigits(n, width)
  {
    if n < 10 {
      FixedDigitsOfZero(width - 1);
    } else {
      assert width > 1 by {
        assert Pow10(1) == 10 * Pow10(0);
      }
      PadIsFixedDigits(n / 10, width - 1);
      assert Text(n) == Text(n / 10) + [DigitChar(n % 10)];
      assert PadLeft(Text(n), width) == PadLeft(Text(n / 10), width - 1) + [DigitChar(n % 10)];
    }
  }

  lemma {:induction false} ValueOfFixedDigits(n: nat, width: nat)
    requires n < Pow10(width)
    ensures Value(FixedDigits(n, width)) == n
  {
    if width > 0 {
      var s := FixedDigits(n, width);
      assert Pow10(width) == 10 * Pow10(width - 1);
      ValueOfFixedDigits(n / 10, width - 1);
      assert s[..width - 1] == FixedDigits(n / 10, width - 1);
    }
  }

  lemma {:induction false} FixedDigitsShifted(n: nat, width: nat, k: nat)
    ensures FixedDigits(Shift(n, k), width + k) == FixedDigits(n, width) + Zeros(k)
  {
    if k == 0 {
      assert Zeros(0) == "";
    } else {
      FixedDigitsShifted(n, width, k - 1);
      assert Shift(n, k) / 10 == Shift(n, k - 1) && Shift(n, k) % 10 == 0;
      assert DigitChar(0) == '0';
      assert Zeros(k) == Zeros(k - 1) + ['0'];
    }
  }

  lemma {:induction false} TrimZerosOfPadded(s: string, k: nat)
    ensures TrimZeros(s + Zeros(k)) == TrimZeros(s)
  {
    if k == 0 {
      assert s + Zeros(0) == s;
    } else {
      var t := s + Zeros(k);
      assert t[..|t| - 1] == s + Zeros(k - 1);
      TrimZerosOfPadded(s, k - 1);
    }
  }

  /** What TrimZeros removes: s is its trimmed form followed by zeros, and no zero is left at the end. */
  lemma {:induction false} TrimZerosSplits(s: string)
    ensures |TrimZeros(s)| <= |s|
    ensures s == TrimZeros(s) + Zeros(|s| - |TrimZeros(s)|)
    ensures TrimZeros(s) != "" ==> TrimZeros(s)[|TrimZeros(s)| - 1] != '0'
  {
    if s != "" && s[|s| - 1] == '0' {
      var t := s[..|s| - 1];
      TrimZerosSplits(t);
      assert Zeros(|s| - |TrimZeros(s)|) == Zeros(|t| - |TrimZeros(t)|) + ['0'];
      assert s == t + ['0'];
    } else {
      assert Zeros(0) == "";
    }
  }

  // ----- Reading integers

  /** big.Int.SetString(s, 10): an optional sign, then at least one digit and nothing else. */
  function ReadInt(s: string): Option<int> {
    if s != "" && s[0] == '-' then
      if |s| > 1 && AllDigits(s[1..]) then Some(-(Value(s[1..]) as int)) else None
    else if s != "" && s[0] == '+' then
      if |s| > 1 && AllDigits(s[1..]) then Some(Value(s[1..])) else None
    else if s != "" && AllDigits(s) then Some(Value(s))
    else None
  }

  /** An optional sign and digits: with either sign, without one, and not without digits. */
  lemma IntegersRead(digits: string)
    requires AllDigits(digits)
    ensures digits == "" ==> ReadInt(digits) == ReadInt("+" + digits) == ReadInt("-" + digits) == None
    ensures digits != "" ==> ReadInt(digits) == ReadInt("+" + digits) == Some(Value(digits))
    ensures digits != "" ==> ReadInt("-" + digits) == Some(-(Value(digits) as int))
  {
    hide Value;
    assert ("+" + digits)[1..] == digits && ("-" + digits)[1..] == digits;
  }

  /** Nothing else reads as an integer. */
  lemma OnlyIntegersRead(s: string)
    requires ReadInt(s).Some?
    ensures s != "" && forall i | 0 <= i < |s| :: IsDigit(s[i]) || (i == 0 && |s| > 1 && (s[0] == '+' || s[0] == '-'))
  {
    assert forall i | 0 < i < |s| :: s[i] == s[1..][i - 1];
  }

  /** big.Int.String. */
  function IntText(n: int): string {
    if n < 0 then "-" + Text(-n) else Text(n)
  }

  lemma ReadIntOfText(n: int)
    ensures ReadInt(IntText(n)) == Some(n)
    ensures TrimSpace(IntText(n)) == IntText(n)
  {
    var m := if n < 0 then -n else n;
    TextIsCanonical(m);
    ValueOfText(m);
    var t := Text(m);
    assert IsDigit(t[0]) && IsDigit(t[|t| - 1]);
    if n < 0 {
      assert IntText(n)[1..] == t;
    }
    NothingToTrim(IntText(n));
  }

  // ----- White space

  /** unicode.IsSpace. */
  predicate IsSpace(c: char) {
    var u := c as int;
    || 9 <= u <= 13 || u == 32 || u == 0x85 || u == 0xA0 || u == 0x1680
    || 0x2000 <= u <= 0x200A || u == 0x2028 || u == 0x2029 || u == 0x202F || u == 0x205F || u == 0x3000
  }

  function TrimLeftSpace(s: string): string {
    if s != "" && IsSpace(s[0]) then TrimLeftSpace(s[1..]) else s
  }

  function TrimRightSpace(s: string): string {
    if s != "" && IsSpace(s[|s| - 1]) then TrimRightSpace(s[..|s| - 1]) else s
  }

  /** strings.TrimSpace. */
  function TrimSpace(s: string): string {
    TrimRightSpace(TrimLeftSpace(s))
  }

  lemma NothingToTrim(s: string)
    requires s != "" ==> !IsSpace(s[0]) && !IsSpace(s[|s| - 1])
    ensures TrimSpace(s) == s
  {
  }

  predicate AllSpace(s: string) {
    forall i | 0 <= i < |s| :: IsSpace(s[i])
  }

  /** Text trims to nothing exactly when it is all white space. */
  lemma BlankMeaning(s: string)
    ensures TrimSpace(s) == "" <==> AllSpace(s)
  {
    hide IsSpace;
    var t := TrimLeftSpace(s);
    LeftTrimmed(s);
    RightTrimmed(t);
    if t != "" {
      assert !IsSpace(t[0]);
      assert s[|s| - |t|] == t[0];
    }
  }

  lemma {:induction false} LeftTrimmed(s: string)
    ensures var t := TrimLeftSpace(s);
      && |t| <= |s| && s[|s| - |t|..] == t && AllSpace(s[..|s| - |t|]) && (t != "" ==> !IsSpace(t[0]))
    decreases |s|
  {
    hide IsSpace;
    if s != "" && IsSpace(s[0]) {
      var rest, t := s[1..], TrimLeftSpace(s);
      LeftTrimmed(rest);
      SpaceInFront(s, |s| - |t|);
    } else {
      assert s[0..] == s;
    }
  }

  lemma SpaceInFront(s: string, k: nat)
    requires 0 < k <= |s| && IsSpace(s[0]) && AllSpace(s[1..][..k - 1])
    ensures AllSpace(s[..k]) && s[1..][k - 1..] == s[k..]
  {
    hide IsSpace;
    assert forall i | 0 < i < k :: s[i] == s[1..][..k - 1][i - 1];
  }

  lemma {:induction false} RightTrimmed(s: string)
    ensures var t := TrimRightSpace(s);
      && t <= s && AllSpace(s[|t|..]) && (t != "" ==> !IsSpace(t[|t| - 1]))
    decreases |s|
  {
    hide IsSpace;
    if s != "" && IsSpace(s[|s| - 1]) {
      RightTrimmed(s[..|s| - 1]);
      var t := TrimRightSpace(s);
      assert s[|t|..] == s[..|s| - 1][|t|..] + [s[|s| - 1]];
    }
  }

  /** White space around text that neither starts nor ends with any is trimmed, and nothing else. */
  lemma TrimsPadding(left: string, s: string, right: string)
    requires AllSpace(left) && AllSpace(right) && s != "" && !IsSpace(s[0]) && !IsSpace(s[|s| - 1])
    ensures TrimSpace(left + s + right) == s
  {
    hide IsSpace;
    TrimsLeft(left, s + right);
    assert left + s + right == left + (s + right);
    TrimsRight(s, right);
  }

  lemma TrimsSigned(left: string, sign: string, body: string, right: string)
    requires AllSpace(left) && AllSpace(right) && sign in {"", "+", "-"}
    requires body != "" ==> (IsDigit(body[0]) || body[0] == '.') && (IsDigit(body[|body| - 1]) || body[|body| - 1] == '.')
    ensures var s := sign + body;
      s != "" ==>
        && TrimSpace(left + s + right) == s
        && (s[0] == '-' <==> sign == "-") && (s[0] == '+' <==> sign == "+")
        && (if s[0] == '-' || s[0] == '+' then s[1..] else s) == body
  {
    hide TrimSpace;
    var s := sign + body;
    if s != "" {
      assert body != "" ==> s[|s| - 1] == body[|body| - 1];
      TrimsPadding(left, s, right);
      if sign == "" {
        assert s == body;
      } else {
        assert s[1..] == body;
      }
    }
  }

  lemma {:induction false} TrimsLeft(pad: string, s: string)
    requires AllSpace(pad) && s != "" && !IsSpace(s[0])
    ensures TrimLeftSpace(pad + s) == s
    decreases |pad|
  {
    hide IsSpace;
    if pad == "" {
      assert pad + s == s;
    } else {
      assert (pad + s)[1..] == pad[1..] + s;
      TrimsLeft(pad[1..], s);
    }
  }

  lemma {:induction false} TrimsRight(s: string, pad: string)
    requires AllSpace(pad) && s != "" && !IsSpace(s[|s| - 1])
    ensures TrimRightSpace(s + pad) == s
    decreases |pad|
  {
    hide IsSpace;
    var n := |pad| - 1;
    if pad == "" {
      assert s + pad == s;
    } else {
      assert (s + pad)[..|s + pad| - 1] == s + pad[..n];
      TrimsRight(s, pad[..n]);
    }
  }

  // ----- Splitting

  /** The position of the first c in s, or |s| when there is none. */
  function IndexOf(s: string, c: char): (i: nat)
    ensures i <= |s|
    ensures i < |s| ==> s[i] == c
    ensures forall j | 0 <= j < i :: s[j] != c
  {
    if s == "" then 0
    else if s[0] == c then 0
    else 1 + IndexOf(s[1..], c)
  }

  lemma IndexOfJoint(a: string, c: char, b: string)
    requires c !in a
    ensures IndexOf(a + [c] + b, c) == |a|
  {
    assert (a + [c] + b)[|a|] == c;
  }

  /** strings.Split on a one-character separator. */
  function Split(s: string, c: char): (parts: seq<string>)
    ensures |parts| >= 1
    decreases |s|
  {
    var i := IndexOf(s, c);
    if i == |s| then [s] else [s[..i]] + Split(s[i + 1..], c)
  }
}
