/**
 * Number.prototype.toString(radix) for non-negative integers: the digits
 * 0-9 then a-z, lower case, most significant first, no leading zero.
 * The inspector uses it twice: base 36 for node ids and base 16 for CSS
 * code-point escapes.
 */
module Radix {

  /** The digit character for digit value d. */
  function DigitChar(d: nat): (c: char)
    requires d < 36
    ensures IsDigit(c, 36) && DigitValue(c) == d
  {
    if d < 10 then (48 + d) as char else (87 + d) as char
  }

  /** The value of a digit character (either case, as parseInt reads it), 36 for any other character. */
  function DigitValue(c: char): (v: nat)
    ensures v <= 36
  {
    if '0' <= c <= '9' then c as int - 48
    else if 'a' <= c <= 'z' then c as int - 87
    else if 'A' <= c <= 'Z' then c as int - 55
    else 36
  }

  predicate IsDigit(c: char, base: nat) {
    DigitValue(c) < base
  }

  /** toString(base) of n. */
  function ToRadix(n: nat, base: nat): (s: string)
    requires 2 <= base <= 36
    ensures |s| >= 1
    ensures forall i :: 0 <= i < |s| ==> IsDigit(s[i], base)
    ensures |s| > 1 ==> s[0] != '0'
    decreases n
  {
    if n < base then [DigitChar(n)]
    else
      DivMod(n, base);
      ToRadix(n / base, base) + [DigitChar(n % base)]
  }

  /** The number a string of digits stands for, most significant first. */
  function FromRadix(s: string, base: nat): nat
    decreases |s|
  {
    if s == [] then 0 else FromRadix(s[..|s| - 1], base) * base + DigitValue(s[|s| - 1]) % 36
  }

  /** Reading the digits back gives the number: toString(base) loses nothing. */
  lemma {:induction false} FromToRadix(n: nat, base: nat)
    requires 2 <= base <= 36
    ensures FromRadix(ToRadix(n, base), base) == n
    decreases n
  {
    if n < base {
      assert ToRadix(n, base)[..0] == [];
    } else {
      var q := n / base;
      var r := n % base;
      DivMod(n, base);
      assert FromRadix(ToRadix(q, base), base) == q by { FromToRadix(q, base); }
      assert FromRadix(ToRadix(n, base), base) == FromRadix(ToRadix(q, base), base) * base + r by { LastDigit(n, base); }
    }
  }

  /** Peeling off the last digit of toString(base). */
  lemma {:induction false} LastDigit(n: nat, base: nat)
    requires 2 <= base <= 36 && n >= base
    ensures FromRadix(ToRadix(n, base), base)
         == FromRadix(ToRadix(n / base, base), base) * base + n % base
  {
    var s := ToRadix(n, base);
    assert s[..|s| - 1] == ToRadix(n / base, base);
  }

  /** Euclidean division by the base, on naturals. */
  lemma {:induction false} DivMod(n: nat, base: nat)
    requires 2 <= base <= n
    ensures n == (n / base) * base + n % base
    ensures 1 <= n / base < n && n % base < base
  {
  }

  /** Below base * base, toString(base) has at most two digits. */
  lemma {:induction false} ToRadixTwoDigits(n: nat, base: nat)
    requires 2 <= base <= 36 && n < base * base
    ensures |ToRadix(n, base)| <= 2
  {
    if n >= base {
      DivMod(n, base);
      QuotientBelow(n / base, n % base, base);
    }
  }

  lemma {:induction false} QuotientBelow(q: nat, r: nat, base: nat)
    requires 2 <= base && q * base + r < base * base
    ensures q < base
  {
  }

  /** Distinct numbers have distinct digit strings. */
  lemma {:induction false} ToRadixInjective(n: nat, m: nat, base: nat)
    requires 2 <= base <= 36
    requires n != m
    ensures ToRadix(n, base) != ToRadix(m, base)
  {
    FromToRadix(n, base);
    FromToRadix(m, base);
  }
}
