/** Decimal and hexadecimal numerals: what they are worth, when two are worth the
    same, and what being worth a number means digit by digit. */
module Numerals {
  import opened Basics

  predicate IsDigit(c: char) { '0' <= c <= '9' }

  predicate IsHexDigit(c: char) { IsDigit(c) || 'a' <= c <= 'f' || 'A' <= c <= 'F' }

  /** 0, or digits without a leading zero. */
  predicate IsCanonical(s: string) {
    s == "0" || (s != "" && s[0] != '0' && forall i :: 0 <= i < |s| ==> IsDigit(s[i]))
  }

  function DigitValue(c: char): nat
    requires IsDigit(c)
  {
    c as nat - '0' as nat
  }

  function DecimalValue(s: string): nat
    requires forall i :: 0 <= i < |s| ==> IsDigit(s[i])
  {
    if s == "" then 0 else 10 * DecimalValue(s[..|s| - 1]) + DigitValue(s[|s| - 1])
  }

  function HexDigitValue(c: char): (v: nat)
    requires IsHexDigit(c)
    ensures v < 16
  {
    if IsDigit(c) then DigitValue(c)
    else if c >= 'a' then c as nat - 'a' as nat + 10
    else c as nat - 'A' as nat + 10
  }

  function HexValue(s: string): nat
    requires forall i :: 0 <= i < |s| ==> IsHexDigit(s[i])
  {
    if s == "" then 0 else 16 * HexValue(s[..|s| - 1]) + HexDigitValue(s[|s| - 1])
  }

  ghost function Power(base: nat, k: nat): (p: nat)
    ensures base > 0 ==> p > 0
  {
    if k == 0 then 1 else base * Power(base, k - 1)
  }

  // --------------------------------------------------------------- uniqueness

  function Lower(c: char): char { if 'A' <= c <= 'F' then (c as int + 32) as char else c }

  /** The same text up to the case of its hex digits. */
  ghost predicate SameUpToCase(s: string, t: string) {
    |s| == |t| && forall i :: 0 <= i < |s| ==> Lower(s[i]) == Lower(t[i])
  }

  lemma {:induction false} PositiveDecimal(s: string)
    requires s != "" && s[0] != '0' && forall i :: 0 <= i < |s| ==> IsDigit(s[i])
    ensures DecimalValue(s) > 0
  {
    if |s| > 1 {
      PositiveDecimal(s[..|s| - 1]);
    } else {
      assert s[..0] == "";
    }
  }

  /** A canonical decimal string is determined by its value. */
  lemma {:induction false} CanonicalIsUnique(s: string, t: string)
    requires IsCanonical(s) && IsCanonical(t) && DecimalValue(s) == DecimalValue(t)
    ensures s == t
  {
    var (a, b) := (s[..|s| - 1], t[..|t| - 1]);
    assert s == a + [s[|s| - 1]] && t == b + [t[|t| - 1]];
    assert DecimalValue(a) == DecimalValue(b) && s[|s| - 1] == t[|t| - 1];
    if a != "" {
      PositiveDecimal(a);
    }
    if b != "" {
      PositiveDecimal(b);
    }
    if a != "" && b != "" {
      CanonicalIsUnique(a, b);
    }
  }

  lemma {:induction false} HexIsUnique(s: string, t: string)
    requires |s| == |t| && forall i :: 0 <= i < |s| ==> IsHexDigit(s[i]) && IsHexDigit(t[i])
    requires HexValue(s) == HexValue(t)
    ensures SameUpToCase(s, t)
  {
    if s != "" {
      HexIsUnique(s[..|s| - 1], t[..|t| - 1]);
      assert forall i :: 0 <= i < |s| - 1 ==> s[..|s| - 1][i] == s[i] && t[..|t| - 1][i] == t[i];
    }
  }

  lemma {:induction false} CaseIsForgotten(s: string, t: string)
    requires forall i :: 0 <= i < |s| ==> IsHexDigit(s[i])
    requires forall i :: 0 <= i < |t| ==> IsHexDigit(t[i])
    requires SameUpToCase(s, t)
    ensures HexValue(s) == HexValue(t)
  {
    if s != "" {
      CaseIsForgotten(s[..|s| - 1], t[..|t| - 1]);
    }
  }

  // ------------------------------------------------------------ digit by digit

  /** The character writes this digit, in either case. */
  predicate StandsFor(c: char, d: nat) { d < 16 && (c == "0123456789abcdef"[d] || c == "0123456789ABCDEF"[d]) }

  /** The j-th digit of n in this base, counted from the right. */
  ghost function DigitAt(base: nat, n: nat, j: nat): nat
    requires base > 0
  {
    n / Power(base, j) % base
  }

  /** The text is n in this base, most significant digit first. */
  ghost predicate Spells(base: nat, s: string, n: nat)
    requires base > 0
  {
    n < Power(base, |s|) && forall k :: 0 <= k < |s| ==> StandsFor(s[k], DigitAt(base, n, |s| - 1 - k))
  }

  lemma DigitIs(c: char, d: nat)
    ensures IsHexDigit(c) && HexDigitValue(c) == d <==> StandsFor(c, d)
    ensures IsDigit(c) && DigitValue(c) == d <==> d < 10 && StandsFor(c, d)
  {
  }

  lemma AtLeast(n: nat, d: nat, m: nat)
    requires d > 0
    ensures m <= n / d <==> m * d <= n
  {
    if m <= n / d {
      Scale(m, n / d, d);
    } else {
      Scale(n / d + 1, m, d);
    }
  }

  lemma DivideTwice(n: nat, b: nat, p: nat)
    requires b > 0 && p > 0
    ensures b * p > 0 && n / b / p == n / (b * p)
  {
    assert b * p > 0;
    var (x, y) := (n / b / p, n / (b * p));
    AtLeast(n / b, p, x);
    AtLeast(n, b, x * p);
    AtLeast(n, b * p, x);
    AtLeast(n / b, p, y);
    AtLeast(n, b, y * p);
    AtLeast(n, b * p, y);
    assert x * p * b == x * (b * p) && y * p * b == y * (b * p);
  }

  /** Dropping the last digit divides by the base. */
  lemma DigitNext(base: nat, n: nat, j: nat)
    requires base > 0
    ensures DigitAt(base, n, j + 1) == DigitAt(base, n / base, j)
    ensures n < Power(base, j + 1) <==> n / base < Power(base, j)
    ensures DigitAt(base, n, 0) == n % base
  {
    DivideTwice(n, base, Power(base, j));
    AtLeast(n, base, Power(base, j));
    assert Power(base, 0) == 1;
  }

  lemma SpellsNext(base: nat, s: string, c: char, n: nat)
    requires base > 0
    ensures Spells(base, s + [c], n) <==> Spells(base, s, n / base) && StandsFor(c, n % base)
  {
    hide StandsFor, Power, DigitAt;
    var t := s + [c];
    DigitNext(base, n, |s|);
    forall k | 0 <= k < |s|
      ensures t[k] == s[k] && DigitAt(base, n, |t| - 1 - k) == DigitAt(base, n / base, |s| - 1 - k)
    {
      DigitNext(base, n, |s| - 1 - k);
    }
    assert t[|s|] == c;
  }

  /** A text is hex worth n exactly when its digits are those of n to the base sixteen. */
  lemma {:induction false} HexIs(s: string, n: nat)
    ensures (forall i :: 0 <= i < |s| ==> IsHexDigit(s[i])) && HexValue(s) == n <==> Spells(16, s, n)
  {
    if s != "" {
      var (init, c) := (s[..|s| - 1], s[|s| - 1]);
      assert s == init + [c];
      HexIs(init, n / 16);
      DigitIs(c, n % 16);
      SpellsNext(16, init, c, n);
    }
  }

  lemma {:induction false} DecimalDigitsAre(s: string, n: nat)
    ensures (forall i :: 0 <= i < |s| ==> IsDigit(s[i])) && DecimalValue(s) == n <==> Spells(10, s, n)
  {
    if s != "" {
      var (init, c) := (s[..|s| - 1], s[|s| - 1]);
      assert s == init + [c];
      DecimalDigitsAre(init, n / 10);
      DigitIs(c, n % 10);
      SpellsNext(10, init, c, n);
    }
  }

  /** A canonical decimal worth n is n to the base ten, without a leading zero. */
  lemma DecimalIs(s: string, n: nat)
    ensures IsCanonical(s) && DecimalValue(s) == n <==> s != "" && (s[0] == '0' ==> |s| == 1) && Spells(10, s, n)
  {
    DecimalDigitsAre(s, n);
  }
}
