/** Digits as text: how libc/stdio/stdio.c writes and reads them, and what they mean. */
module Numerals {
  import opened Words

  predicate IsDigit(c: char) {
    '0' <= c <= '9'
  }

  /** The character of one digit. */
  function DigitChar(d: nat, upper: bool): char
    requires d < 16
  {
    if d < 10 then ('0' as int + d) as char
    else ((if upper then 'A' else 'a') as int + d - 10) as char
  }

  /** The value of a digit character, in any base up to 16; 16 for any other character. */
  function DigitValue(c: char): nat {
    if '0' <= c <= '9' then c as int - '0' as int
    else if 'a' <= c <= 'f' then c as int - 'a' as int + 10
    else if 'A' <= c <= 'F' then c as int - 'A' as int + 10
    else 16
  }

  lemma DigitValueOfChar(d: nat, upper: bool)
    requires d < 16
    ensures DigitValue(DigitChar(d, upper)) == d
  {
  }

  /** The value of a string of digits in a base (Horner's rule). */
  function Eval(s: string, base: nat): nat {
    if s == [] then 0 else Eval(s[..|s| - 1], base) * base + DigitValue(s[|s| - 1])
  }

  /** The shortest numeral of a value, most significant digit first. */
  ghost function Digits(value: nat, base: nat, upper: bool): (s: string)
    requires 2 <= base <= 16
    ensures s != []
    decreases value
  {
    if value < base then [DigitChar(value, upper)]
    else
      Smaller(value, base);
      Digits(value / base, base, upper) + [DigitChar(value % base, upper)]
  }

  lemma Smaller(value: nat, base: nat)
    requires value > 0 && base >= 2
    ensures value / base < value && value == value / base * base + value % base && value % base < base
  {
  }

  lemma {:induction false} EvalDigits(value: nat, base: nat, upper: bool)
    requires 2 <= base <= 16
    ensures Eval(Digits(value, base, upper), base) == value
    decreases value
  {
    if value < base {
      DigitValueOfChar(value, upper);
      assert Eval([], base) == 0 && [DigitChar(value, upper)][..0] == [];
    } else {
      var s := Digits(value / base, base, upper);
      var c := DigitChar(value % base, upper);
      Smaller(value, base);
      EvalDigits(value / base, base, upper);
      DigitValueOfChar(value % base, upper);
      assert (s + [c])[..|s|] == s;
    }
  }

  function Power(base: nat, n: nat): nat {
    if n == 0 then 1 else base * Power(base, n - 1)
  }

  lemma {:induction false} PowerGrows(a: nat, b: nat, n: nat)
    requires a <= b
    ensures Power(a, n) <= Power(b, n)
  {
    if n > 0 {
      PowerGrows(a, b, n - 1);
      MulLe(a, b, Power(a, n - 1));
      MulLe(Power(a, n - 1), Power(b, n - 1), b);
    }
  }

  lemma {:induction false} FewDigits(value: nat, base: nat, upper: bool, n: nat)
    requires 2 <= base <= 16 && n >= 1 && value < Power(base, n)
    ensures |Digits(value, base, upper)| <= n
    decreases n
  {
    assert Power(base, 1) == base * Power(base, 0);
    if value >= base {
      Smaller(value, base);
      if n > 1 {
        QuotientBelow(value, base, Power(base, n - 1));
        FewDigits(value / base, base, upper, n - 1);
      }
    }
  }

  lemma QuotientBelow(value: nat, base: nat, bound: nat)
    requires base >= 2 && 0 < value < base * bound
    ensures value / base < bound
  {
    Smaller(value, base);
    if value / base >= bound {
      MulLe(bound, value / base, base);
    }
  }

  /** A 32-bit value never has more than 32 digits. */
  lemma AtMost32Digits(value: u32, base: nat, upper: bool)
    requires 2 <= base <= 16
    ensures |Digits(value, base, upper)| <= 32
  {
    TwoToThe32();
    PowerGrows(2, base, 32);
    FewDigits(value, base, upper, 32);
  }

  lemma AtMost8HexDigits(value: u32, upper: bool)
    ensures |Digits(value, 16, upper)| <= 8
  {
    assert Power(16, 4) == 0x1_0000;
    PowerAdds(16, 4, 4);
    FewDigits(value, 16, upper, 8);
  }

  lemma TwoToThe32()
    ensures Power(2, 32) == 0x1_0000_0000
  {
    assert Power(2, 8) == 256;
    PowerAdds(2, 8, 8);
    PowerAdds(2, 16, 16);
  }

  lemma {:induction false} PowerAdds(base: nat, m: nat, n: nat)
    ensures Power(base, m + n) == Power(base, m) * Power(base, n)
  {
    if m > 0 {
      PowerAdds(base, m - 1, n);
      Associative(base, Power(base, m - 1), Power(base, n));
    }
  }

  lemma Associative(a: nat, b: nat, c: nat)
    ensures a * (b * c) == (a * b) * c
  {
  }

  /** The first digit of a nonzero numeral is not zero. */
  lemma {:induction false} LeadingDigit(value: nat, base: nat, upper: bool)
    requires 2 <= base <= 16 && value > 0
    ensures DigitValue(Digits(value, base, upper)[0]) > 0
    decreases value
  {
    if value < base {
      DigitValueOfChar(value, upper);
    } else {
      Smaller(value, base);
      assert value / base > 0;
      LeadingDigit(value / base, base, upper);
    }
  }

  ghost predicate DigitsOnly(s: string, base: nat) {
    forall i :: 0 <= i < |s| ==> DigitValue(s[i]) < base
  }

  /** Every character of a numeral is a digit of its base. */
  lemma {:induction false} AllDigits(value: nat, base: nat, upper: bool)
    requires 2 <= base <= 16
    ensures DigitsOnly(Digits(value, base, upper), base)
    decreases value
  {
    if value < base {
      DigitValueOfChar(value, upper);
    } else {
      var q, r := value / base, value % base;
      Smaller(value, base);
      DigitValueOfChar(r, upper);
      AllDigits(q, base, upper);
      assert Digits(value, base, upper) == Digits(q, base, upper) + [DigitChar(r, upper)];
    }
  }

  // ----- Reading numerals -----

  /** The digits of a text, with padding, sign and prefix characters left out. */
  ghost function OnlyDigits(s: string, base: nat): string {
    if s == [] then []
    else OnlyDigits(s[..|s| - 1], base) + if DigitValue(s[|s| - 1]) < base then [s[|s| - 1]] else []
  }

  /** The value that a reader finds in printed text. */
  ghost function Decode(s: string, base: nat): nat {
    Eval(OnlyDigits(s, base), base)
  }

  lemma {:induction false} OnlyDigitsConcat(a: string, b: string, base: nat)
    ensures OnlyDigits(a + b, base) == OnlyDigits(a, base) + OnlyDigits(b, base)
  {
    if b == [] {
      assert a + b == a;
    } else {
      assert (a + b)[..|a + b| - 1] == a + b[..|b| - 1];
      OnlyDigitsConcat(a, b[..|b| - 1], base);
    }
  }

  lemma {:induction false} OnlyDigitsAll(s: string, base: nat)
    requires DigitsOnly(s, base)
    ensures OnlyDigits(s, base) == s
  {
    if s != [] {
      var last := |s| - 1;
      assert s[..last] + [s[last]] == s && DigitsOnly(s[..last], base);
      OnlyDigitsAll(s[..last], base);
    }
  }

  lemma {:induction false} OnlyDigitsNone(s: string, base: nat)
    requires forall i :: 0 <= i < |s| ==> DigitValue(s[i]) >= base
    ensures OnlyDigits(s, base) == []
  {
    if s != [] {
      OnlyDigitsNone(s[..|s| - 1], base);
    }
  }

  /** Leading zeros do not change a value. */
  lemma {:induction false} EvalConcat(a: string, b: string, base: nat)
    ensures Eval(a + b, base) == Eval(a, base) * Power(base, |b|) + Eval(b, base)
  {
    if b == [] {
      assert a + b == a;
    } else {
      var last := |b| - 1;
      assert (a + b)[..|a + b| - 1] == a + b[..last];
      EvalConcat(a, b[..last], base);
      Rearrange(Eval(a, base), Power(base, last), Eval(b[..last], base), base);
    }
  }

  lemma Rearrange(x: nat, p: nat, y: nat, base: nat)
    ensures (x * p + y) * base == x * (base * p) + y * base
  {
  }

  ghost function Repeat(c: char, n: int): (s: string)
    ensures |s| == if n > 0 then n else 0
    ensures forall i :: 0 <= i < |s| ==> s[i] == c
  {
    if n <= 0 then [] else Repeat(c, n - 1) + [c]
  }

  ghost predicate AllZeros(s: string) {
    forall i :: 0 <= i < |s| ==> s[i] == '0'
  }

  lemma {:induction false} EvalZeros(zeros: string, base: nat)
    requires AllZeros(zeros)
    ensures Eval(zeros, base) == 0
  {
    if zeros != [] {
      EvalZeros(zeros[..|zeros| - 1], base);
    }
  }
}
