/** The digit printers of kprintf: numbers written in the digits of any base. */
module Digits {

  /** At least two digits, all different. */
  predicate IsBase(base: string) {
    |base| >= 2 && forall i, j | 0 <= i < j < |base| :: base[i] != base[j]
  }

  /** Value of a digit character, -1 if it is none. */
  function DigitValue(base: string, c: char): (v: int)
    ensures v != -1 ==> 0 <= v < |base| && base[v] == c
    ensures v == -1 ==> c !in base
  {
    if base == [] then -1
    else if base[|base| - 1] == c then |base| - 1
    else DigitValue(base[..|base| - 1], c)
  }

  predicate IsNumeral(base: string, s: string) {
    forall k | 0 <= k < |s| :: s[k] in base
  }

  /** The number that a numeral denotes, most significant digit first. */
  function Parse(base: string, s: string): nat
    requires IsBase(base) && IsNumeral(base, s)
  {
    if s == [] then 0
    else Parse(base, s[..|s| - 1]) * |base| + DigitValue(base, s[|s| - 1])
  }

  /** A numeral for a positive number without leading zero. */
  predicate Canonical(base: string, s: string) { |base| > 0 && s != [] && IsNumeral(base, s) && s[0] != base[0] }

  /** What the unsigned printers emit: nothing for 0. */
  function Unsigned(base: string, n: nat): string
    requires |base| >= 2
  {
    if n == 0 then "" else Unsigned(base, n / |base|) + [base[n % |base|]]
  }

  /** What the signed printer emits. */
  function Signed(base: string, n: int): string
    requires |base| >= 2
  {
    if n < 0 then "-" + Unsigned(base, -n) else if n == 0 then [base[0]] else Unsigned(base, n)
  }

  lemma DigitValueAt(base: string, v: nat)
    requires IsBase(base) && v < |base|
    ensures DigitValue(base, base[v]) == v
  {
  }

  lemma DivMod(n: nat, b: nat)
    requires b >= 2
    ensures n == n / b * b + n % b && (n > 0 ==> n / b < n)
  {
  }

  /** Printing and parsing back gives the number, for every base and every number, without leading zero. */
  lemma {:induction false} RoundTrip(base: string, n: nat)
    requires IsBase(base)
    ensures IsNumeral(base, Unsigned(base, n)) && Parse(base, Unsigned(base, n)) == n
    ensures n > 0 ==> Canonical(base, Unsigned(base, n))
  {
    if n > 0 {
      hide DigitValue, Unsigned, Parse;
      var q, d := LastDigit(base, n);
      RoundTrip(base, q);
      DigitValueAt(base, d);
      AddDigit(base, Unsigned(base, q), d);
      if q == 0 {
        NoDigits(base);
        assert d == n && base[n] != base[0];
      }
    } else {
      NoDigits(base);
    }
  }

  lemma NoDigits(base: string)
    requires IsBase(base)
    ensures Unsigned(base, 0) == "" && Parse(base, "") == 0
  {
  }

  /** The printed form of a positive number is that of its quotient and one digit. */
  lemma LastDigit(base: string, n: nat) returns (q: nat, d: nat)
    requires IsBase(base) && n > 0
    ensures q < n && d < |base| && n == q * |base| + d && (q == 0 ==> d == n)
    ensures Unsigned(base, n) == Unsigned(base, q) + [base[d]]
  {
    q, d := n / |base|, n % |base|;
    DivMod(n, |base|);
  }

  /** One more digit multiplies by the base and adds the digit. */
  lemma AddDigit(base: string, s: string, d: nat)
    requires IsBase(base) && IsNumeral(base, s) && d < |base| && DigitValue(base, base[d]) == d
    ensures IsNumeral(base, s + [base[d]]) && Parse(base, s + [base[d]]) == Parse(base, s) * |base| + d
  {
    var t := s + [base[d]];
    assert t[..|t| - 1] == s && t[|t| - 1] == base[d];
  }

  /** And the printed form is the only one: any numeral without leading zero is what its value prints as. */
  lemma {:induction false} OnlyForm(base: string, s: string)
    requires IsBase(base) && Canonical(base, s)
    ensures Parse(base, s) > 0 && Unsigned(base, Parse(base, s)) == s
  {
    var init, d := s[..|s| - 1], DigitValue(base, s[|s| - 1]);
    if |s| > 1 {
      OnlyForm(base, init);
      Quotient(Parse(base, init), |base|, d);
      assert s == init + [s[|s| - 1]];
    } else {
      assert init == "" && s == [base[d]];
      Quotient(0, |base|, d);
    }
  }

  lemma Multiple(x: int, b: int)
    requires b >= 0
    ensures x >= 1 ==> x * b >= b
    ensures x <= -1 ==> x * b <= -b
  {
  }

  lemma Quotient(q: nat, b: nat, d: nat)
    requires b >= 2 && d < b
    ensures (q * b + d) / b == q && (q * b + d) % b == d && (q > 0 ==> q * b + d > 0)
  {
    var n := q * b + d;
    DivMod(n, b);
    Multiple(q - n / b, b);
    Multiple(q, b);
    assert (q - n / b) * b == n % b - d;
  }

  lemma StartIsQuotient(n: nat, b: nat)
    requires b >= 2
    ensures (n - n % b) / b == n / b && 0 <= n / b && 0 <= n % b < b && (n / b != 0 ==> n / b < n)
  {
    DivMod(n, b);
    Quotient(n / b, b, 0);
    Quotient(0, b, 0);
    assert n - n % b == n / b * b + 0;
  }

  /** A numeral, or a '-' followed by one. */
  predicate IsSignedNumeral(base: string, s: string) {
    if s != [] && s[0] == '-' then IsNumeral(base, s[1..]) else IsNumeral(base, s)
  }

  function ParseSigned(base: string, s: string): int
    requires IsBase(base) && IsSignedNumeral(base, s)
  {
    if s != [] && s[0] == '-' then 0 - Parse(base, s[1..]) else Parse(base, s)
  }

  ghost predicate SignedReadsBack(base: string, n: int)
    requires IsBase(base)
  {
    IsSignedNumeral(base, Signed(base, n)) && ParseSigned(base, Signed(base, n)) == n
  }

  /** The signed printer reads back too, if '-' is not one of the digits above zero. */
  lemma SignedRoundTrip(base: string, n: int)
    requires IsBase(base) && '-' !in base[1..]
    ensures SignedReadsBack(base, n)
    ensures n > 0 ==> Signed(base, n) == Unsigned(base, n) && Canonical(base, Signed(base, n))
    ensures n == 0 ==> Signed(base, n) == [base[0]]
    ensures n < 0 ==> Signed(base, n)[0] == '-' && Canonical(base, Signed(base, n)[1..])
  {
    var s := Signed(base, n);
    if n < 0 {
      RoundTrip(base, -n);
      assert s[1..] == Unsigned(base, -n);
    } else if n > 0 {
      RoundTrip(base, n);
      assert s[0] in base && s[0] != base[0];
      assert s[0] in base[1..];
    } else {
      DigitValueAt(base, 0);
      assert s[..|s| - 1] == "" && s[1..] == "";
      assert IsNumeral(base, s) && Parse(base, s) == Parse(base, "") * |base| + DigitValue(base, base[0]);
    }
  }

  /** It does for every number exactly under that condition. */
  lemma SignedExact(base: string)
    requires IsBase(base)
    ensures (forall n: int :: SignedReadsBack(base, n)) <==> '-' !in base[1..]
  {
    if '-' !in base[1..] {
      forall n: int
        ensures SignedReadsBack(base, n)
      {
        SignedRoundTrip(base, n);
      }
    } else {
      var d :| 1 <= d < |base| && base[d] == '-';
      Quotient(0, |base|, d);
      assert d / |base| == 0 && d % |base| == d by { assert 0 * |base| + d == d; }
      assert Unsigned(base, d / |base|) == "";
      assert Unsigned(base, d) == [base[d]];
      assert [base[d]][1..] == "";
      assert !SignedReadsBack(base, d);
    }
  }

  /** One turn of the signed printer on a number that is not negative. */
  lemma SignedStep(base: string, n: nat)
    requires |base| >= 2
    ensures Signed(base, n) == (if n / |base| != 0 then Signed(base, n / |base|) else "") + [base[n % |base|]]
  {
    Quotient(0, |base|, 0);
    StartIsQuotient(n, |base|);
    if n == 0 {
      assert 0 * |base| + 0 == 0;
    } else {
      assert Unsigned(base, n) == Unsigned(base, n / |base|) + [base[n % |base|]];
    }
  }

  /** The UART as the printers see it. */
  class Console {
    var out: string

    constructor ()
      ensures out == ""
    {
      out := "";
    }

    method PutChar(c: char)
      modifies this
      ensures out == old(out) + [c]
    {
      out := out + [c];
    }

    /** my_put_uint_base and my_put_ulong_base. */
    method PutUintBase(num: nat, base: string)
      requires |base| >= 2
      modifies this
      ensures out == old(out) + Unsigned(base, num)
      decreases num
    {
      if num == 0 {
        return;
      }
      DivMod(num, |base|);
      PutUintBase(num / |base|, base);
      PutChar(base[num % |base|]);
    }

    /** my_put_nbr_base, for every int but the least. */
    method PutNbrBase(num: int, base: string)
      requires |base| >= 2 && -0x8000_0000 < num < 0x8000_0000
      modifies this
      ensures out == old(out) + Signed(base, num)
      decreases num < 0, if num < 0 then 0 else num
    {
      hide Unsigned;
      if num < 0 {
        PutChar('-');
        PutNbrBase(-num, base);
        assert old(out) + "-" + Unsigned(base, -num) == old(out) + ("-" + Unsigned(base, -num));
      } else {
        StartIsQuotient(num, |base|);
        SignedStep(base, num);
        var remainder := num % |base|;
        var start := (num - remainder) / |base|;
        if start != 0 {
          PutNbrBase(start, base);
        }
        PutChar(base[remainder]);
      }
    }
  }
}
