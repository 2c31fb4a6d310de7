/** Decimal rendering of naturals, as `format!("{}", n)` prints an unsigned
    integer: the shortest digit string, with no leading zeros. */
module Decimal {

  predicate IsDigit(c: char) {
    '0' <= c <= '9'
  }

  function DigitChar(d: nat): (c: char)
    requires d < 10
    ensures IsDigit(c)
  {
    (('0' as int) + d) as char
  }

  function DigitValue(c: char): (d: nat)
    requires IsDigit(c)
    ensures d < 10
    ensures DigitChar(d) == c
  {
    (c as int) - ('0' as int)
  }

  predicate AllDigits(s: string) {
    forall i :: 0 <= i < |s| ==> IsDigit(s[i])
  }

  /** A canonical numeral: at least one digit, and no leading zero unless the
      numeral is "0" itself. */
  predicate IsCanonical(s: string) {
    |s| >= 1 && AllDigits(s) && (s[0] == '0' ==> |s| == 1)
  }

  /** The decimal text of `n`. It is always canonical, and it starts with '0'
      only when `n` is zero. */
  function Show(n: nat): (s: string)
    ensures IsCanonical(s)
    ensures s[0] == '0' ==> n == 0
    decreases n
  {
    if n < 10 then [DigitChar(n)]
    else Show(n / 10) + [DigitChar(n % 10)]
  }

  /** The number a digit string denotes (leading zeros allowed). */
  function Value(s: string): nat
    requires AllDigits(s)
    decreases |s|
  {
    if |s| == 0 then 0
    else Value(s[..|s| - 1]) * 10 + DigitValue(s[|s| - 1])
  }

  /** Reading back the text of `n` gives `n`. */
  lemma {:induction false} ValueShow(n: nat)
    ensures Value(Show(n)) == n
    decreases n
  {
    if n >= 10 {
      var s := Show(n);
      assert s[..|s| - 1] == Show(n / 10);
      ValueShow(n / 10);
    }
  }

  /** A canonical numeral with a non-zero leading digit denotes a positive number. */
  lemma {:induction false} ValuePositive(s: string)
    requires IsCanonical(s) && s[0] != '0'
    ensures Value(s) >= 1
    decreases |s|
  {
    if |s| == 1 {
      assert s[..0] == [];
      assert DigitChar(DigitValue(s[0])) == s[0];
    } else {
      var t := s[..|s| - 1];
      assert t[0] == s[0];
      ValuePositive(t);
    }
  }

  /** Every canonical numeral is the text of the number it denotes. */
  lemma {:induction false} ShowValue(s: string)
    requires IsCanonical(s)
    ensures Show(Value(s)) == s
    decreases |s|
  {
    var d := DigitValue(s[|s| - 1]);
    var t := s[..|s| - 1];
    if |s| == 1 {
      assert t == [];
      assert Value(s) == d;
    } else {
      assert t[0] == s[0];
      ValuePositive(t);
      ShowValue(t);
      var n := Value(s);
      assert n == Value(t) * 10 + d;
      assert n / 10 == Value(t) && n % 10 == d;
      assert s == t + [s[|s| - 1]];
    }
  }

  /** Distinct numbers have distinct texts. */
  lemma ShowInjective(m: nat, n: nat)
    ensures Show(m) == Show(n) <==> m == n
  {
    if Show(m) == Show(n) {
      ValueShow(m);
      ValueShow(n);
    }
  }

  /** A text is the rendering of `n` exactly when it is a canonical numeral denoting `n`. */
  lemma ShowCharacterised(s: string, n: nat)
    ensures s == Show(n) <==> IsCanonical(s) && Value(s) == n
  {
    if s == Show(n) {
      ValueShow(n);
    }
    if IsCanonical(s) && Value(s) == n {
      ShowValue(s);
    }
  }
}
