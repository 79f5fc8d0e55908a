/** Rounding of integers to binary64 (section 4.3.1 of IEEE 754-2019, round to nearest, ties to even),
    which is what decoding a JSON number into a Go float64 does to it. */
module Float64 {
  const TWO53 := 0x20_0000_0000_0000

  function Pow2(e: nat): (p: nat)
    ensures p > 0
  {
    if e == 0 then 1 else 2 * Pow2(e - 1)
  }

  /** The exponent of the unit in the last place: the least e with m < 2^53 * 2^e. */
  function UlpExp(m: nat): (e: nat)
    ensures m < TWO53 * Pow2(e)
    ensures e > 0 ==> TWO53 * Pow2(e - 1) <= m
  {
    if m < TWO53 then 0 else
      var e := UlpExp(m / 2);
      assert Pow2(e + 1) == 2 * Pow2(e);
      e + 1
  }

  /** The nearest multiple of u, ties to the even quotient. */
  function RoundTo(m: nat, u: nat): (r: nat)
    requires u > 0
    ensures -(u as int) <= 2 * (r - m) <= u
    ensures r == m <==> m % u == 0
  {
    var q, rest := m / u, m % u;
    assert m == q * u + rest;
    assert (q + 1) * u == q * u + u;
    if 2 * rest < u || (2 * rest == u && q % 2 == 0) then q * u else (q + 1) * u
  }

  function RoundNat(m: nat): nat {
    RoundTo(m, Pow2(UlpExp(m)))
  }

  function Round(n: int): int {
    if n < 0 then -(RoundNat(-n) as int) else RoundNat(n)
  }

  /** A 53-bit significand times a power of two. */
  ghost predicate Representable(n: int) {
    exists a: nat, e: nat :: Scaled(n, a, e)
  }

  predicate Scaled(n: int, a: nat, e: nat) {
    a < TWO53 && (if n < 0 then -n else n) == a * Pow2(e)
  }

  lemma {:induction false} Pow2Add(a: nat, b: nat)
    ensures Pow2(a + b) == Pow2(a) * Pow2(b)
  {
    if a > 0 {
      Pow2Add(a - 1, b);
      assert Pow2(a + b) == 2 * Pow2(a - 1 + b);
    }
  }

  lemma MulMono(a: int, b: int, c: nat)
    requires a <= b
    ensures a * c <= b * c
  {
  }

  lemma SmallMultiple(k: int, u: nat, r: nat)
    requires r < u && k * u == r
    ensures r == 0
  {
    if k >= 1 {
      MulMono(1, k, u);
    } else if k <= -1 {
      MulMono(k, -1, u);
    }
  }

  lemma MultipleMod(q: nat, u: nat, m: nat)
    requires u > 0 && m == q * u
    ensures m % u == 0
  {
    var d, r := m / u, m % u;
    assert m == d * u + r;
    assert (q - d) * u == q * u - d * u;
    SmallMultiple(q - d, u, r);
  }

  lemma {:induction false} RoundedIsRepresentable(n: int, m: nat)
    requires m == (if n < 0 then -n else n) && m % Pow2(UlpExp(m)) == 0
    ensures Representable(n)
  {
    var u := Pow2(UlpExp(m));
    var q := m / u;
    assert m == u * q;
    if q >= TWO53 {
      MulMono(TWO53, q, u);
    }
    assert Scaled(n, q, UlpExp(m));
  }

  lemma {:induction false} ScaledIsMultiple(n: int, m: nat, a: nat, f: nat)
    requires m == (if n < 0 then -n else n) && Scaled(n, a, f)
    ensures m % Pow2(UlpExp(m)) == 0
  {
    var e := UlpExp(m);
    var p := Pow2(f);
    if e <= f {
      var k, u := Pow2(f - e), Pow2(e);
      Pow2Add(f - e, e);
      MulAssoc(a, k, u);
      MultipleMod(a * k, u, m);
    } else {
      var k := Pow2(e - 1 - f);
      Pow2Add(e - 1 - f, f);
      MulMono(1, k, p);
      MulMono(a, TWO53 - 1, p);
      assert false;
    }
  }

  lemma MulAssoc(a: int, b: int, c: int)
    ensures a * (b * c) == (a * b) * c
  {
  }

  /** Rounding leaves exactly the representable integers alone. */
  lemma RoundExact(n: int)
    ensures Round(n) == n <==> Representable(n)
  {
    var m: nat := if n < 0 then -n else n;
    if m % Pow2(UlpExp(m)) == 0 {
      RoundedIsRepresentable(n, m);
    }
    if Representable(n) {
      var a: nat, f: nat :| Scaled(n, a, f);
      ScaledIsMultiple(n, m, a, f);
    }
  }

  lemma SmallIsExact(n: int)
    requires -TWO53 <= n <= TWO53
    ensures Representable(n) && Round(n) == n
  {
    var m := if n < 0 then -n else n;
    assert Pow2(0) == 1 && Pow2(1) == 2;
    assert m < TWO53 ==> Scaled(n, m, 0);
    assert m == TWO53 ==> Scaled(n, TWO53 / 2, 1);
    RoundExact(n);
  }

  /** Rounding does not cross a multiple of the unit. */
  lemma RoundToAbove(m: nat, u: nat, k: nat)
    requires u > 0 && k * u <= m
    ensures RoundTo(m, u) >= k * u
  {
    var q, rest := m / u, m % u;
    assert m == q * u + rest;
    if k > q {
      MulMono(q + 1, k, u);
    }
    MulMono(k, q, u);
    assert (q + 1) * u == q * u + u;
  }

  lemma {:induction false} Pow2Mono(a: nat, b: nat)
    requires a <= b
    ensures Pow2(a) <= Pow2(b)
    decreases b
  {
    if a < b {
      Pow2Mono(a, b - 1);
    }
  }

  const TWO52 := 0x10_0000_0000_0000

  lemma {:induction false} PowersApart(f: nat, e: nat)
    ensures f < e ==> TWO53 * Pow2(f) <= TWO52 * Pow2(e)
  {
    if f < e {
      Pow2Mono(f, e - 1);
      assert Pow2(e) == 2 * Pow2(e - 1);
    }
  }

  lemma MultipleBelow(m: nat, e: nat, f: nat)
    requires TWO52 * Pow2(e) <= m && e <= f && (f > 0 ==> TWO53 * Pow2(f - 1) <= m)
    ensures TWO52 * Pow2(e) <= TWO52 * Pow2(f) <= m
  {
    Pow2Mono(e, f);
    if f > 0 {
      assert Pow2(f) == 2 * Pow2(f - 1);
    }
  }

  /** Rounding does not cross a power of two from 2^52 on. */
  lemma {:induction false} RoundNatAbove(m: nat, e: nat)
    requires TWO52 * Pow2(e) <= m
    ensures RoundNat(m) >= TWO52 * Pow2(e)
  {
    var f := UlpExp(m);
    PowersApart(f, e);
    MultipleBelow(m, e, f);
    RoundToAbove(m, Pow2(f), TWO52);
  }

  /** Integers from 2^63 on stay there. */
  lemma RoundAbove63(n: int)
    requires n >= TWO52 * 2048
    ensures Round(n) >= TWO52 * 2048
  {
    assert Pow2(11) == 2048 by {
      assert Pow2(7) == 128;
    }
    RoundNatAbove(n, 11);
  }

  /** Numbers of seven digits or more stay so. */
  lemma RoundKeepsMillion(n: int)
    ensures -1_000_000 < n < 1_000_000 ==> Round(n) == n
    ensures -1_000_000 < Round(n) < 1_000_000 ==> -1_000_000 < n < 1_000_000
  {
    if -TWO53 <= n <= TWO53 {
      SmallIsExact(n);
    } else {
      assert Pow2(1) == 2;
      RoundNatAbove(if n < 0 then -n else n, 1);
    }
  }

  lemma RoundToMultiple(m: nat, u: nat) returns (q: nat)
    requires u > 0 && m < TWO53 * u
    ensures q <= TWO53 && RoundTo(m, u) == q * u
  {
    q := m / u;
    assert m == q * u + m % u;
    if q >= TWO53 {
      MulMono(TWO53, q, u);
    }
    if RoundTo(m, u) != q * u {
      q := q + 1;
    }
  }

  /** Rounding twice is rounding once. */
  lemma RoundTwice(n: int)
    ensures Round(Round(n)) == Round(n)
  {
    var m: nat := if n < 0 then -n else n;
    var e := UlpExp(m);
    var q := RoundToMultiple(m, Pow2(e));
    if q < TWO53 {
      assert Scaled(Round(n), q, e);
    } else {
      assert Pow2(e + 1) == 2 * Pow2(e);
      assert Scaled(Round(n), TWO52, e + 1);
    }
    RoundExact(Round(n));
  }

  /** The bound is tight: the next integer is rounded away. */
  lemma FirstInexact()
    ensures Round(TWO53 + 1) == TWO53
  {
    assert UlpExp(TWO53 + 1) == 1 by {
      assert UlpExp((TWO53 + 1) / 2) == 0;
    }
    assert Pow2(1) == 2;
  }

  /** From 2^63 to 2^64 numbers are rounded to multiples of 2048. */
  lemma {:induction false} LastPlace63(n: nat)
    requires TWO52 * 2048 <= n < TWO53 * 2048
    ensures UlpExp(n) == 11 && Pow2(11) == 2048
  {
    assert Pow2(11) == 2048 by {
      assert Pow2(7) == 128;
    }
    var e := UlpExp(n);
    PowersApart(e, 11);
    if e > 11 {
      Pow2Mono(11, e - 1);
    }
  }

  /** What the numbers q * 2048 + rest are rounded to. */
  function CellValue(q: nat, rest: nat): nat {
    if rest < 1024 || (rest == 1024 && q % 2 == 0) then q * 2048 else (q + 1) * 2048
  }

  lemma RoundInCell(q: nat, rest: nat)
    requires TWO52 <= q < TWO53 && rest < 2048
    ensures Round(q * 2048 + rest) == CellValue(q, rest)
  {
    var n := q * 2048 + rest;
    LastPlace63(n);
    assert n / 2048 == q && n % 2048 == rest;
  }

  /** Below 2^64 nothing is rounded past 2^64, and the last number is rounded to it. */
  lemma TopRound(n: nat)
    requires TWO52 * 2048 <= n < TWO53 * 2048
    ensures Round(n) <= TWO53 * 2048 == Round(TWO53 * 2048 - 1)
  {
    var q, rest := n / 2048, n % 2048;
    assert n == q * 2048 + rest;
    RoundInCell(q, rest);
    RoundInCell(TWO53 - 1, 2047);
  }

  function NextRest(q: nat, rest: nat): (next: int)
    requires rest < 2048
    ensures 0 <= next < 2048 && next != rest && CellValue(q, next) == CellValue(q, rest)
  {
    if rest < 1023 || (rest == 1024 && q % 2 == 1) || 1024 < rest < 2047 then rest + 1 else rest - 1
  }

  /** Every number from 2^63 to 2^64 shares its binary64 value with a neighbour. */
  lemma {:induction false} Neighbour(n: nat) returns (m: nat)
    requires TWO52 * 2048 <= n < TWO53 * 2048
    ensures TWO52 * 2048 <= m < TWO53 * 2048 && m != n && Round(m) == Round(n)
  {
    var q, rest := n / 2048, n % 2048;
    assert n == q * 2048 + rest;
    m := q * 2048 + NextRest(q, rest);
    RoundInCell(q, rest);
    RoundInCell(q, NextRest(q, rest));
  }

  /** 2^63 and the number after it share their binary64 value. */
  lemma FirstNeighbours()
    ensures Round(TWO52 * 2048) == TWO52 * 2048 == Round(TWO52 * 2048 + 1)
  {
    LastPlace63(TWO52 * 2048);
    LastPlace63(TWO52 * 2048 + 1);
  }
}
