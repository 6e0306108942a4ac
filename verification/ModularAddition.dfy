/** Addition of 256-bit big-endian scalars modulo a modulus held in 32 bytes,
    byte by byte, with the machine's own widths and truncating casts. */
module ModularAddition {
  import opened Basics

  newtype U8 = x: int | 0 <= x < 0x100
  newtype U16 = x: int | 0 <= x < 0x1_0000
  newtype I16 = x: int | -0x8000 <= x < 0x8000

  const SIZE: nat := 32

  /** `as u8`: the low byte, also of a negative number. */
  function Low(v: int): U8 { (v % 256) as U8 }

  // --------------------------------------------------------- byte strings

  ghost function Power(k: nat): nat { if k == 0 then 1 else 256 * Power(k - 1) }

  /** The value of the bytes from index i on, as a big-endian number. */
  ghost function From(s: seq<U8>, i: nat): nat
    requires i <= |s|
    decreases |s| - i
  {
    if i == |s| then 0 else s[i] as nat * Power(|s| - i - 1) + From(s, i + 1)
  }

  ghost function Value(s: seq<U8>): nat { From(s, 0) }

  lemma {:induction false} FromBounded(s: seq<U8>, i: nat)
    requires i <= |s|
    ensures From(s, i) < Power(|s| - i)
    decreases |s| - i
  {
    if i < |s| {
      FromBounded(s, i + 1);
      Scale(s[i] as int + 1, 256, Power(|s| - i - 1));
      Distribute(Power(|s| - i - 1), s[i] as int, 1);
    }
  }

  lemma {:induction false} SameTail(a: seq<U8>, b: seq<U8>, i: nat)
    requires |a| == |b| && i <= |a| && forall j :: i <= j < |a| ==> a[j] == b[j]
    ensures From(a, i) == From(b, i)
    decreases |a| - i
  {
    if i < |a| {
      SameTail(a, b, i + 1);
    }
  }

  lemma {:induction false} SameHead(a: seq<U8>, b: seq<U8>, i: nat)
    requires |a| == |b| && i <= |a| && forall j :: 0 <= j < i ==> a[j] == b[j]
    ensures Value(a) - From(a, i) == Value(b) - From(b, i)
  {
    if i > 0 {
      SameHead(a, b, i - 1);
    }
  }

  // ------------------------------------------------------------ comparison

  lemma FirstDifference(a: seq<U8>, b: seq<U8>, i: nat)
    requires |a| == |b| && i < |a| && forall j :: 0 <= j < i ==> a[j] == b[j]
    requires a[i] < b[i]
    ensures Value(a) < Value(b)
  {
    SameHead(a, b, i);
    FromBounded(a, i + 1);
    LeadingByte(a[i] as nat, b[i] as nat, Power(|a| - i - 1), From(a, i + 1), From(b, i + 1));
  }

  lemma LeadingByte(a: nat, b: nat, p: nat, lowA: nat, lowB: nat)
    requires a < b && lowA < p
    ensures a * p + lowA < b * p + lowB
  {
    Scale(a + 1, b, p);
    Distribute(p, a, 1);
  }

  /** Lexicographic comparison of the bytes is comparison of the numbers. */
  method Lt(a: array<U8>, b: array<U8>) returns (less: bool)
    requires a.Length == b.Length
    ensures less <==> Value(a[..]) < Value(b[..])
  {
    for i := 0 to a.Length
      invariant forall j :: 0 <= j < i ==> a[j] == b[j]
    {
      if a[i] != b[i] {
        if a[i] < b[i] {
          FirstDifference(a[..], b[..], i);
        } else {
          FirstDifference(b[..], a[..], i);
        }
        return a[i] < b[i];
      }
    }
    assert a[..] == b[..];
    return false;
  }

  // --------------------------------------------------------------- addition

  lemma AddByte(a: int, b: int, carry: int, low: int, next: int, p: nat)
    requires low + 256 * next == a + b + carry
    ensures low * p + next * (256 * p) == a * p + b * p + carry * p
  {
    Distribute(p, a + b, carry);
    Distribute(p, a, b);
    Distribute(p, low, 256 * next);
    assert next * (256 * p) == 256 * next * p;
  }

  /** The schoolbook sum into s; the carry is what did not fit. */
  method AddBytes(a: array<U8>, b: array<U8>, s: array<U8>) returns (carry: U16)
    requires a.Length == b.Length == s.Length == SIZE && s != a && s != b
    modifies s
    ensures carry <= 1
    ensures Value(s[..]) + carry as nat * Power(SIZE) == Value(a[..]) + Value(b[..])
  {
    carry := 0;
    for i := SIZE downto 0
      invariant carry <= 1
      invariant From(s[..], i) + carry as nat * Power(SIZE - i) == From(a[..], i) + From(b[..], i)
    {
      ghost var before := s[..];
      var v: U16 := a[i] as U16 + b[i] as U16 + carry;
      s[i] := Low(v as int);
      AddByte(a[i] as int, b[i] as int, carry as int, s[i] as int, (v / 256) as int, Power(SIZE - i - 1));
      carry := v / 256;
      SameTail(before, s[..], i + 1);
    }
  }

  lemma SubtractByte(s: int, r: int, borrow: int, low: int, next: int, p: nat)
    requires low - 256 * next == s - r - borrow
    ensures low * p - next * (256 * p) == s * p - r * p - borrow * p
  {
    AddByte(s, -r, -borrow, low, -next, p);
    Negated(r, p);
    Negated(borrow, p);
    Negated(next, 256 * p);
  }

  lemma Negated(a: int, c: nat)
    ensures (-a) * c == -(a * c)
  {
  }

  /** Subtracts r from s in place; the borrow is what was missing. */
  method SubtractBytes(s: array<U8>, r: array<U8>) returns (borrow: I16)
    requires s.Length == r.Length == SIZE && s != r
    modifies s
    ensures 0 <= borrow <= 1
    ensures Value(s[..]) - borrow as int * Power(SIZE) == old(Value(s[..])) - Value(r[..])
  {
    borrow := 0;
    ghost var minuend := s[..];
    for i := SIZE downto 0
      invariant 0 <= borrow <= 1
      invariant s[..i] == minuend[..i]
      invariant From(s[..], i) - borrow as int * Power(SIZE - i) == From(minuend, i) - From(r[..], i)
    {
      ghost var before := s[..];
      assert s[i] == minuend[i] by { assert s[..i + 1][i] == minuend[..i + 1][i]; }
      var v: I16 := s[i] as I16 - r[i] as I16 - borrow;
      s[i] := Low(v as int);
      SubtractByte(minuend[i] as int, r[i] as int, borrow as int, s[i] as int, if v < 0 then 1 else 0,
                   Power(SIZE - i - 1));
      borrow := if v < 0 then 1 else 0;
      SameTail(before, s[..], i + 1);
      assert s[..i] == before[..i] == minuend[..i];
    }
  }

  /** What the bytes hold for any operands: one subtraction of the modulus, within 256 bits. */
  ghost predicate IsReducedOnce(sum: nat, modulus: nat, result: nat) {
    if sum < modulus then result == sum
    else if sum - modulus < Power(SIZE) then result == sum - modulus
    else result == sum - modulus - Power(SIZE)
  }

  /** For operands below the modulus the result is the sum modulo the modulus. */
  method AddModR(a: array<U8>, b: array<U8>, modulus: array<U8>) returns (s: array<U8>)
    requires a.Length == b.Length == modulus.Length == 32
    ensures s.Length == 32
    ensures IsReducedOnce(Value(a[..]) + Value(b[..]), Value(modulus[..]), Value(s[..]))
    ensures Value(a[..]) < Value(modulus[..]) && Value(b[..]) < Value(modulus[..]) ==>
              Value(s[..]) == (Value(a[..]) + Value(b[..])) % Value(modulus[..])
  {
    hide Power, From;
    s := new U8[SIZE](_ => 0);
    var carry := AddBytes(a, b, s);
    var below := Lt(s, modulus);
    ghost var sum := Value(a[..]) + Value(b[..]);
    FromBounded(s[..], 0);
    FromBounded(modulus[..], 0);
    if carry > 0 || !below {
      var borrow := SubtractBytes(s, modulus);
      FromBounded(s[..], 0);
    }
    if Value(a[..]) < Value(modulus[..]) && Value(b[..]) < Value(modulus[..]) {
      OnceIsModulo(sum, Value(modulus[..]), Value(s[..]));
    }
  }

  lemma OnceIsModulo(sum: nat, modulus: nat, result: nat)
    requires sum < 2 * modulus && modulus < Power(SIZE) && IsReducedOnce(sum, modulus, result)
    ensures result == sum % modulus
  {
    hide Power;
    ModuloOnce(sum, modulus);
  }

  lemma ModuloOnce(sum: nat, modulus: nat)
    requires sum < 2 * modulus
    ensures sum % modulus == if sum < modulus then sum else sum - modulus
  {
    if sum >= modulus {
      assert sum == modulus * 1 + (sum - modulus);
    }
  }
}
