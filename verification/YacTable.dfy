/** Sizing of the YAC slot table, and why masking an index is taking it modulo the size. */
module YacTable {
  import opened Powers

  /** Bitwise and of two numbers. */
  function And(a: nat, b: nat): nat {
    if a == 0 || b == 0 then 0
    else 2 * And(a / 2, b / 2) + if a % 2 == 1 && b % 2 == 1 then 1 else 0
  }

  /** Bitwise "and not" of two numbers. */
  function AndNot(a: nat, b: nat): nat {
    if a == 0 then 0
    else 2 * AndNot(a / 2, b / 2) + if a % 2 == 1 && b % 2 == 0 then 1 else 0
  }

  /** Masking with one less than a power of two is the remainder by it. */
  lemma {:induction false} MaskIsMod(x: nat, k: nat)
    ensures And(x, Pow2(k) - 1) == x % Pow2(k)
    decreases k
  {
    if k > 0 && x > 0 {
      var m := Pow2(k - 1);
      MaskIsMod(x / 2, k - 1);
      assert (2 * m - 1) / 2 == m - 1 && (2 * m - 1) % 2 == 1;
      HalfMod(x, m);
    } else if k > 0 {
      ZeroMod(Pow2(k));
    }
  }

  lemma ZeroMod(m: nat)
    requires m > 0
    ensures 0 % m == 0
  {
  }

  lemma HalfMod(x: nat, m: nat)
    requires m > 0
    ensures x % (2 * m) == 2 * (x / 2 % m) + x % 2
  {
    var h := x / 2;
    var q := h / m;
    var r := h % m;
    assert h == m * q + r;
    assert x == 2 * h + x % 2;
    assert x == (2 * m) * q + (2 * r + x % 2);
    ModUnique(x, 2 * m, q, 2 * r + x % 2);
  }

  lemma ModUnique(x: nat, m: nat, q: nat, r: nat)
    requires x == m * q + r && r < m
    ensures x % m == r
  {
    var q' := x / m;
    assert x == m * q' + x % m;
    MulMonotone(m, q + 1, q');
    MulMonotone(m, q' + 1, q);
    assert m * (q + 1) == m * q + m && m * (q' + 1) == m * q' + m;
  }

  lemma MulMonotone(m: nat, a: nat, b: nat)
    ensures a <= b ==> m * a <= m * b
  {
  }

  /** yac_storage_align_size: count the shifts until nothing is left. */
  method AlignSize(size: nat) returns (r: nat, k: nat)
    ensures r == Pow2(k)
    ensures size > 0 ==> r <= size < 2 * r
    ensures size == 0 ==> r == 1
  {
    k := 0;
    var s := size;
    while s / 2 != 0
      invariant size == 0 ==> s == 0 && k == 0
      invariant size > 0 ==> s > 0 && Pow2(k) * s <= size < Pow2(k) * (s + 1)
      decreases s
    {
      Halve(Pow2(k), s);
      s := s / 2;
      k := k + 1;
    }
    r := Pow2(k);
  }

  /** One more halving keeps s as the quotient by the next power. */
  lemma Halve(p: nat, s: nat)
    ensures (2 * p) * (s / 2) <= p * s && p * (s + 1) <= (2 * p) * (s / 2 + 1)
  {
    var t := s / 2;
    Double(p, t);
    Double(p, t + 1);
    MulMonotone(p, 2 * t, s);
    MulMonotone(p, s + 1, 2 * (t + 1));
  }

  lemma Double(p: nat, t: nat)
    ensures (2 * p) * t == p * (2 * t)
  {
  }

  lemma {:induction false} AndNotHighBit(n: nat, k: nat)
    requires n < Pow2(k)
    ensures AndNot(n, Pow2(k)) == n
    decreases k
  {
    if n > 0 {
      assert k > 0;
      assert Pow2(k) / 2 == Pow2(k - 1) && Pow2(k) % 2 == 0;
      AndNotHighBit(n / 2, k - 1);
    }
  }

  /** yac_storage_startup: the number of slots for room for `n` of them.  The doubling branch is
      only taken when there is no room at all, and then gives two slots; otherwise the count is
      the largest power of two that fits. */
  method SlotsSize(n: nat) returns (slots: nat, ghost k: nat)
    ensures slots == Pow2(k)
    ensures n > 0 ==> slots <= n < 2 * slots
    ensures n == 0 ==> slots == 2
    ensures forall h: nat :: And(h, slots - 1) == h % slots
  {
    var bits;
    slots, bits := AlignSize(n);
    k := bits;
    assert Pow2(k + 1) == 2 * slots;
    if n > 0 {
      AndNotHighBit(n, k + 1);
    }
    if AndNot(n, 2 * slots) == 0 {
      slots := 2 * slots;
      k := k + 1;
    }
    forall h: nat ensures And(h, slots - 1) == h % slots {
      MaskIsMod(h, k);
    }
  }
}
