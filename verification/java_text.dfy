/**
 * The pieces of Java platform semantics that the modelled code leans on:
 * 32-bit `int` arithmetic, `String.hashCode` and `String.compareTo`.
 * Strings are sequences of `char`; a Java `char` is a UTF-16 code unit,
 * which agrees with Dafny's `char` on the Basic Multilingual Plane.
 */
module JavaText {

  const TwoTo31: int := 0x8000_0000
  const TwoTo32: int := 0x1_0000_0000

  /** A value of Java's `int` type. */
  predicate IsInt(x: int) {
    -TwoTo31 <= x < TwoTo31
  }

  /** x and y are equal modulo 2^32. */
  predicate Congruent(x: int, y: int) {
    (x - y) % TwoTo32 == 0
  }

  /** The Java `int` that the mathematical value x wraps around to. */
  function Wrap(x: int): (r: int)
    ensures IsInt(r)
    ensures Congruent(r, x)
  {
    var q := (x + TwoTo31) / TwoTo32;
    assert (x + TwoTo31) % TwoTo32 - TwoTo31 - x == TwoTo32 * (-q);
    MultipleIsCongruent(-q);
    (x + TwoTo31) % TwoTo32 - TwoTo31
  }

  lemma MultipleIsCongruent(k: int)
    ensures (TwoTo32 * k) % TwoTo32 == 0
  {
  }

  /** Wrap picks the only `int` in the congruence class of its argument. */
  lemma {:induction false} WrapUnique(x: int, r: int)
    requires IsInt(r) && Congruent(r, x)
    ensures r == Wrap(x)
  {
    var w := Wrap(x);
    var k := (r - x) / TwoTo32;
    var m := (w - x) / TwoTo32;
    assert r - x == TwoTo32 * k;
    assert w - x == TwoTo32 * m;
    assert r - w == TwoTo32 * (k - m);
    assert -TwoTo32 < r - w < TwoTo32;
    assert k - m == 0;
  }

  /**
   * Wrapping after every step of `31 * h + c` gives the same `int` as
   * computing the polynomial exactly and wrapping once at the end.
   */
  lemma {:induction false} WrapStep(x: int, c: int)
    ensures Wrap(31 * Wrap(x) + c) == Wrap(31 * x + c)
  {
    var w := Wrap(x);
    var m := (w - x) / TwoTo32;
    assert w - x == TwoTo32 * m;
    assert (31 * w + c) - (31 * x + c) == TwoTo32 * (31 * m);
    MultipleIsCongruent(31 * m);
    var r := Wrap(31 * w + c);
    var n := (r - (31 * w + c)) / TwoTo32;
    assert r - (31 * w + c) == TwoTo32 * n;
    assert r - (31 * x + c) == TwoTo32 * (n + 31 * m);
    MultipleIsCongruent(n + 31 * m);
    WrapUnique(31 * x + c, r);
  }

  /** The exact value of the polynomial s[0]*31^(n-1) + ... + s[n-1]. */
  function Polynomial(s: string): int {
    if s == [] then 0 else 31 * Polynomial(s[..|s| - 1]) + s[|s| - 1] as int
  }

  /**
   * `String.hashCode`: `h = 31 * h + c` over the characters in `int`
   * arithmetic. It is the documented polynomial, wrapped to 32 bits.
   */
  function StringHash(s: string): (h: int)
    ensures IsInt(h)
    ensures h == Wrap(Polynomial(s))
  {
    if s == [] then 0
    else
      var prefix := s[..|s| - 1];
      var h := Wrap(31 * StringHash(prefix) + s[|s| - 1] as int);
      WrapStep(Polynomial(prefix), s[|s| - 1] as int);
      h
  }

  /**
   * `String.compareTo`: the difference of the first pair of characters that
   * differ, or else the difference of the lengths.
   */
  function CompareTo(a: string, b: string): int {
    if a == [] || b == [] then |a| - |b|
    else if a[0] != b[0] then a[0] as int - b[0] as int
    else CompareTo(a[1..], b[1..])
  }

  /** `a.compareTo(b) <= 0`: a sorts no later than b. */
  predicate AtMost(a: string, b: string) {
    CompareTo(a, b) <= 0
  }

  lemma {:induction false} CompareToZero(a: string, b: string)
    ensures CompareTo(a, b) == 0 <==> a == b
  {
    if a != [] && b != [] && a[0] == b[0] {
      CompareToZero(a[1..], b[1..]);
      assert a == [a[0]] + a[1..] && b == [b[0]] + b[1..];
    }
  }

  lemma {:induction false} CompareToAntisymmetric(a: string, b: string)
    ensures CompareTo(a, b) < 0 <==> CompareTo(b, a) > 0
  {
    if a != [] && b != [] && a[0] == b[0] {
      CompareToAntisymmetric(a[1..], b[1..]);
    }
  }

  /** Any two strings are ordered one way or the other. */
  lemma AtMostTotal(a: string, b: string)
    ensures AtMost(a, b) || AtMost(b, a)
  {
    CompareToAntisymmetric(a, b);
  }

  /** Only equal strings sort no later than each other. */
  lemma AtMostAntisymmetric(a: string, b: string)
    requires AtMost(a, b) && AtMost(b, a)
    ensures a == b
  {
    CompareToAntisymmetric(a, b);
    CompareToZero(a, b);
  }

  lemma {:induction false} AtMostTransitive(a: string, b: string, c: string)
    requires AtMost(a, b) && AtMost(b, c)
    ensures AtMost(a, c)
  {
    if a == [] || c == [] {
      if c == [] && a != [] {
        // b sorts no later than the empty string, so it is empty, and a then sorts after it.
        assert b == [];
      }
    } else if b != [] && a[0] == b[0] && b[0] == c[0] {
      AtMostTransitive(a[1..], b[1..], c[1..]);
    }
  }
}
