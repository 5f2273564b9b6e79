/** Types and small facts shared by the other modules. */
module Basics {
  datatype Option<+T> = None | Some(value: T)

  datatype Result<+T> = Ok(value: T) | Err(error: string)

  newtype byte = x: int | 0 <= x < 256

  const TWO_TO_32: nat := 0x1_0000_0000
  const TWO_TO_64: nat := 0x1_0000_0000_0000_0000

  type u32 = x: int | 0 <= x < TWO_TO_32
  type u64 = x: int | 0 <= x < TWO_TO_64

  /** size_t arithmetic. */
  function Wrap(n: nat): u64 { n % TWO_TO_64 }

  lemma WrapSmall(n: nat)
    requires n < TWO_TO_64
    ensures Wrap(n) == n
  {}

  lemma WrapAdd(m: nat, n: nat)
    ensures Wrap(Wrap(m) + n) == Wrap(m + n)
  {}

  lemma WrapTimes(m: nat, n: nat)
    ensures Wrap(Wrap(m) * Wrap(n)) == Wrap(m * n)
  {
    var a, b, w := m / TWO_TO_64, n / TWO_TO_64, TWO_TO_64;
    assert m == a * w + Wrap(m) && n == b * w + Wrap(n);
    SplitProduct(a, Wrap(m), b, Wrap(n), w);
    WrapMultiple(a * b * w + a * Wrap(n) + Wrap(m) * b, Wrap(m) * Wrap(n));
  }

  lemma SplitProduct(a: nat, x: nat, b: nat, y: nat, w: nat)
    ensures (a * w + x) * (b * w + y) == (a * b * w + a * y + x * b) * w + x * y
  {}

  lemma WrapMultiple(k: nat, n: nat)
    ensures Wrap(k * TWO_TO_64 + n) == Wrap(n)
  {}

  function Min(a: nat, b: nat): nat { if a < b then a else b }

  /** The characters of all strings together. */
  function Letters(ss: seq<string>): nat { if ss == [] then 0 else Letters(ss[..|ss| - 1]) + |ss[|ss| - 1]| }

  function Last<T>(s: seq<T>): T
    requires s != []
  {
    s[|s| - 1]
  }

  /** hshm::bitfield::Any: some bit of `mask` is set in `bits`. */
  predicate Any(bits: bv32, mask: bv32) { bits & mask != 0 }

  /** The first occurrence of a separator splits a string in only one way. */
  lemma SplitUnique(a: string, b: string, x: string, y: string, sep: char)
    requires sep !in a && sep !in b
    requires a + [sep] + x == b + [sep] + y
    ensures a == b && x == y
  {
    var s := a + [sep] + x;
    assert s[|a|] == sep && s[|b|] == sep;
    assert forall i | 0 <= i < |a| :: s[i] == a[i];
    assert forall i | 0 <= i < |b| :: s[i] == b[i];
    assert a == s[..|a|] && b == s[..|b|];
    assert x == s[|a| + 1..] && y == s[|b| + 1..];
  }
}

/** std::to_string on integers. */
module Decimal {
  function Digit(d: nat): char
    requires d < 10
  {
    ('0' as int + d) as char
  }

  function OfNat(n: nat): (s: string)
    ensures |s| > 0
    ensures forall c | c in s :: '0' <= c <= '9'
  {
    if n < 10 then [Digit(n)] else OfNat(n / 10) + [Digit(n % 10)]
  }

  function OfInt(n: int): string { if n < 0 then "-" + OfNat(-n) else OfNat(n) }

  /** What a reader makes of a numeral: ten times the front, plus the last digit. */
  function Value(s: string): int {
    if s == [] then 0 else 10 * Value(s[..|s| - 1]) + (s[|s| - 1] as int - '0' as int)
  }

  function IntValue(s: string): int { if s != [] && s[0] == '-' then -Value(s[1..]) else Value(s) }

  lemma {:induction false} ValueOfNat(n: nat)
    ensures Value(OfNat(n)) == n
    ensures OfNat(n)[0] == '0' <==> n == 0
  {
    if n < 10 {
      assert OfNat(n)[..0] == [];
    } else {
      var init := OfNat(n / 10);
      ValueOfNat(n / 10);
      assert (init + [Digit(n % 10)])[..|init|] == init;
    }
  }

  /** A signed number is read back as itself; only a negative one starts with a sign. */
  lemma ValueOfInt(n: int)
    ensures IntValue(OfInt(n)) == n
    ensures OfInt(n) != [] && (OfInt(n)[0] == '-' <==> n < 0)
    ensures forall c | c in OfInt(n) :: '0' <= c <= '9' || c == '-'
  {
    if n < 0 {
      ValueOfNat(-n);
      assert OfInt(n)[1..] == OfNat(-n) && OfInt(n)[0] == '-';
    } else {
      ValueOfNat(n);
      assert OfInt(n)[0] in OfNat(n);
    }
  }

  predicate Numeral(s: string) { s != [] && (forall c | c in s :: '0' <= c <= '9') && (|s| > 1 ==> s[0] != '0') }

  /** Every numeral without needless zeros is the one that its value is printed as. */
  lemma {:induction false} OfNatOfValue(s: string)
    requires Numeral(s)
    ensures Value(s) >= 0 && OfNat(Value(s)) == s && (s[0] != '0' ==> Value(s) > 0)
  {
    var k := |s| - 1;
    var d := s[k] as int - '0' as int;
    assert s[k] in s && s == s[..k] + [s[k]];
    if k == 0 {
      assert s[..0] == [];
    } else {
      assert s[0] == s[..k][0] && forall c | c in s[..k] :: c in s;
      OfNatOfValue(s[..k]);
      assert Value(s) == 10 * Value(s[..k]) + d && Value(s) / 10 == Value(s[..k]) && Value(s) % 10 == d;
    }
  }

  /** The digits are '0' to '9', least significant last. */
  lemma DigitsInOrder(n: nat, d: nat)
    requires d < 10
    ensures n > 0 ==> OfNat(10 * n + d) == OfNat(n) + ["0123456789"[d]]
    ensures OfNat(d) == ["0123456789"[d]]
  {
    assert (10 * n + d) / 10 == n && (10 * n + d) % 10 == d;
  }

  lemma OfNatInjective(m: nat, n: nat)
    requires OfNat(m) == OfNat(n)
    ensures m == n
  {
    ValueOfNat(m);
    ValueOfNat(n);
  }
}
