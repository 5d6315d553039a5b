/** Integers as Lua numbers: rounded to the nearest double, ties to an even significand. */
module LuaNumber {
  import opened Powers

  const PRECISION := 0x20_0000_0000_0000 // 2 to the 53rd

  /** The integers a double holds, its exponent range aside: a significand of 53 bits and a power
      of two. */
  ghost predicate IsDouble(v: int) {
    exists m: int, k: nat :: Holds(v, m, k)
  }

  predicate Holds(v: int, m: int, k: nat) {
    -PRECISION <= m <= PRECISION && v == m * Pow2(k)
  }

  /** How many low bits do not fit the significand. */
  function Excess(n: nat): nat {
    if n < PRECISION then 0 else 1 + Excess(n / 2)
  }

  /** The multiple of p nearest to n, the even one of two equally near. */
  function NearestMultiple(n: nat, p: nat): nat
    requires p > 0
  {
    var q, r := n / p, n % p;
    if 2 * r < p || (2 * r == p && q % 2 == 0) then q * p else (q + 1) * p
  }

  function RoundNat(n: nat): nat {
    NearestMultiple(n, Pow2(Excess(n)))
  }

  /** The double nearest to an integer. */
  function ToDouble(v: int): int {
    if v < 0 then 0 - RoundNat(-v) as int else RoundNat(v)
  }

  function Abs(x: int): nat {
    if x < 0 then -x else x
  }

  // ------------------------------------------------------------------- rounding

  lemma HalfBounds(n: nat, q: nat, p: nat)
    requires q * p <= n / 2 < (q + 1) * p
    ensures q * (2 * p) <= n < (q + 1) * (2 * p)
  {
    assert q * (2 * p) == 2 * (q * p) && (q + 1) * (2 * p) == 2 * ((q + 1) * p);
  }

  /** What is left after dropping the low bits is a full significand. */
  lemma {:induction false} Significand(n: nat) returns (q: nat)
    ensures var p := Pow2(Excess(n)); q * p <= n < (q + 1) * p
    ensures q < PRECISION && (Excess(n) > 0 ==> 2 * q >= PRECISION)
  {
    if n < PRECISION {
      q := n;
      assert q * 1 == q;
    } else {
      q := Significand(n / 2);
      HalfBounds(n, q, Pow2(Excess(n / 2)));
      if Excess(n / 2) == 0 {
        SmallHalf(n, q);
      }
    }
  }

  lemma SmallHalf(n: nat, q: nat)
    requires n >= PRECISION && q * 1 <= n / 2 < (q + 1) * 1
    ensures 2 * q >= PRECISION
  {
  }

  /** The nearest multiple lies at one of the two multiples around a number. */
  lemma Around(n: nat, p: nat, q: nat)
    requires p > 0 && q * p <= n < (q + 1) * p
    ensures n / p == q && n % p == n - q * p
    ensures var r := NearestMultiple(n, p); r == q * p || r == (q + 1) * p
    ensures 2 * Abs(NearestMultiple(n, p) - n) <= p
    ensures n == q * p ==> NearestMultiple(n, p) == n
    ensures 2 * Abs(NearestMultiple(n, p) - n) == p ==> NearestMultiple(n, p) == (if q % 2 == 0 then q else q + 1) * p
  {
    Divide(n, p, q);
    assert (q + 1) * p == q * p + p;
  }

  lemma Divide(n: nat, p: nat, q: nat)
    requires p > 0 && q * p <= n < (q + 1) * p
    ensures n / p == q && n % p == n - q * p
  {
    var d := n / p;
    assert n == d * p + n % p && (d + 1) * p == d * p + p;
    if d < q {
      Steps(d + 1, q, p);
    } else if d > q {
      Steps(q + 1, d, p);
    }
  }

  lemma Steps(a: nat, b: nat, p: nat)
    requires a <= b
    ensures a * p <= b * p
  {
    assert b * p == a * p + (b - a) * p;
  }

  /** No double lies strictly between two neighbouring multiples of the last place. */
  lemma NoneBetween(n: nat, q: nat, m: int, k: nat)
    requires var p := Pow2(Excess(n)); q * p <= n < (q + 1) * p
    requires 2 * q >= PRECISION || Excess(n) == 0
    requires -PRECISION <= m <= PRECISION
    ensures var p, u := Pow2(Excess(n)), m * Pow2(k); u <= q * p || u >= (q + 1) * p
  {
    hide Excess, Pow2;
    var e := Excess(n);
    if k >= e {
      PowSplit(e, k - e);
      Coarse(q, Pow2(e), m, Pow2(k - e));
    } else {
      PowSplit(k, e - k);
      TwoOrMore(e - k);
      Fine(q, Pow2(k), Pow2(e - k), m);
    }
  }

  lemma TwoOrMore(k: nat)
    requires k > 0
    ensures Pow2(k) >= 2
  {
  }

  /** A multiple of the last place. */
  lemma Coarse(q: nat, p: nat, m: int, a: nat)
    ensures m * (p * a) <= q * p || m * (p * a) >= (q + 1) * p
  {
    var j := m * a;
    Regroup(m, a, p);
    if j <= q { Times(j, q, p); } else { Times(q + 1, j, p); }
  }

  /** A double with a smaller last place does not reach so far. */
  lemma Fine(q: nat, w: nat, f: nat, m: int)
    requires m <= PRECISION <= 2 * q && f >= 2
    ensures m * w <= q * (w * f)
  {
    Times(m, 2 * q, w);
    TimesLeft(2, f, q * w);
    Regroup(q, f, w);
    assert q * w * f == q * f * w;
    assert q * w * 2 == 2 * q * w;
  }

  lemma {:induction false} PowSplit(a: nat, b: nat)
    ensures Pow2(a + b) == Pow2(a) * Pow2(b)
    decreases a
  {
    if a > 0 {
      PowSplit(a - 1, b);
      assert 2 * (Pow2(a - 1) * Pow2(b)) == 2 * Pow2(a - 1) * Pow2(b);
    }
  }

  lemma Regroup(m: int, a: int, b: int)
    ensures m * (b * a) == m * a * b
  {
  }

  lemma Times(a: int, b: int, p: nat)
    requires a <= b
    ensures a * p <= b * p
  {
    assert b * p == a * p + (b - a) * p;
  }

  lemma TimesLeft(a: nat, b: nat, q: nat)
    requires a <= b
    ensures q * a <= q * b
  {
    assert q * b == q * a + q * (b - a);
  }

  /** The result is a double, no other is nearer, and a double stays as it is; of two equally near
      it is the one with an even significand. */
  lemma RoundNatNearest(n: nat)
    ensures IsDouble(RoundNat(n))
    ensures forall u :: IsDouble(u) ==> Abs(RoundNat(n) - n) <= Abs(u - n)
    ensures IsDouble(n) <==> RoundNat(n) == n
    ensures var p := Pow2(Excess(n)); 2 * Abs(RoundNat(n) - n) == p ==> RoundNat(n) % (2 * p) == 0
  {
    hide Excess, RoundNat, Pow2, IsDouble, Abs;
    RoundedIsDouble(n);
    forall u | IsDouble(u) ensures Abs(RoundNat(n) - n) <= Abs(u - n) {
      NoneNearer(n, u);
    }
    NoDistance(n, RoundNat(n));
  }

  lemma RoundedIsDouble(n: nat)
    ensures IsDouble(RoundNat(n))
    ensures var p := Pow2(Excess(n)); 2 * Abs(RoundNat(n) - n) == p ==> RoundNat(n) % (2 * p) == 0
  {
    hide Excess, NearestMultiple, Pow2, IsDouble, Abs;
    var q := Significand(n);
    var p := Pow2(Excess(n));
    Around(n, p, q);
    AreDoubles(q, Excess(n));
    if 2 * Abs(RoundNat(n) - n) == p {
      EvenMultiple(if q % 2 == 0 then q else q + 1, p);
    }
  }

  lemma NoneNearer(n: nat, u: int)
    requires IsDouble(u)
    ensures Abs(RoundNat(n) - n) <= Abs(u - n)
  {
    hide Excess, NearestMultiple, Pow2, IsDouble, Abs;
    var q := Significand(n);
    var p := Pow2(Excess(n));
    Around(n, p, q);
    DoubleOutside(n, q, u);
    NextMultiple(q, p);
    Nearer(n, q * p, p, RoundNat(n), u);
  }

  lemma AreDoubles(q: nat, e: nat)
    requires q < PRECISION
    ensures IsDouble(q * Pow2(e)) && IsDouble((q + 1) * Pow2(e))
  {
    hide Pow2;
    assert Holds(q * Pow2(e), q, e) && Holds((q + 1) * Pow2(e), q + 1, e);
  }

  lemma DoubleOutside(n: nat, q: nat, u: int)
    requires var p := Pow2(Excess(n)); q * p <= n < (q + 1) * p
    requires 2 * q >= PRECISION || Excess(n) == 0
    requires IsDouble(u)
    ensures var p := Pow2(Excess(n)); u <= q * p || u >= (q + 1) * p
  {
    hide Pow2, Excess;
    var m: int, k: nat :| Holds(u, m, k);
    NoneBetween(n, q, m, k);
  }

  lemma NextMultiple(q: nat, p: nat)
    ensures (q + 1) * p == q * p + p
  {
  }

  lemma NoDistance(n: nat, r: nat)
    ensures Abs(n - n) == 0 && (Abs(r - n) <= 0 ==> r == n)
  {
  }

  lemma EvenMultiple(m: nat, p: nat)
    requires m % 2 == 0 && p > 0
    ensures m * p % (2 * p) == 0
  {
    var j := m / 2;
    assert m * p == j * (2 * p) && (j + 1) * (2 * p) == j * (2 * p) + 2 * p;
    Divide(m * p, 2 * p, j);
  }

  /** Of two neighbours the one within half their distance is nearest among what lies outside. */
  lemma Nearer(n: nat, lo: nat, p: nat, r: nat, u: int)
    requires lo <= n < lo + p && (r == lo || r == lo + p) && 2 * Abs(r - n) <= p
    requires u <= lo || u >= lo + p
    ensures Abs(r - n) <= Abs(u - n)
  {
  }

  /** `ToDouble` gives the nearest double, and exactly the doubles stay as they are. */
  lemma ToDoubleNearest(v: int)
    ensures IsDouble(ToDouble(v))
    ensures forall u :: IsDouble(u) ==> Abs(ToDouble(v) - v) <= Abs(u - v)
    ensures IsDouble(v) <==> ToDouble(v) == v
  {
    hide RoundNat, IsDouble;
    RoundNatNearest(Abs(v));
    if v < 0 {
      Negated(v);
      Negated(RoundNat(-v));
      forall u | IsDouble(u) ensures Abs(ToDouble(v) - v) <= Abs(u - v) {
        Negated(u);
        assert IsDouble(-u);
      }
    }
  }

  lemma Negated(v: int)
    ensures IsDouble(v) <==> IsDouble(-v)
  {
    if IsDouble(v) {
      var m: int, k: nat :| Holds(v, m, k);
      assert Holds(-v, -m, k);
    }
    if IsDouble(-v) {
      var m: int, k: nat :| Holds(-v, m, k);
      assert Holds(v, -m, k);
    }
  }

  /** Everything up to 2 to the 53rd is a double. */
  lemma SmallIsDouble(v: int)
    requires -PRECISION <= v <= PRECISION
    ensures ToDouble(v) == v && IsDouble(v)
  {
    assert Holds(v, v, 0);
    ToDoubleNearest(v);
  }

  /** The first integer that is not. */
  lemma FirstRounded()
    ensures ToDouble(9007199254740993) == 9007199254740992 && !IsDouble(9007199254740993)
  {
    var n := 9007199254740993;
    assert Excess(n / 2) == 0;
    assert Excess(n) == 1;
    assert Pow2(1) == 2 * Pow2(0) == 2;
    assert n / 2 == 4503599627370496 && n % 2 == 1;
    ToDoubleNearest(n);
  }
}
