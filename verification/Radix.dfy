/** Big-endian digit strings in a base, and the multiply-and-add step both Base58 directions use. */
module Radix {
  import opened Text

  predicate Digits(d: seq<int>, base: int) {
    forall i :: 0 <= i < |d| ==> 0 <= d[i] < base
  }

  function Val(d: seq<int>, base: int): int {
    if d == [] then 0 else Val(d[..|d| - 1], base) * base + d[|d| - 1]
  }

  function Pow(base: int, n: nat): int {
    if n == 0 then 1 else Pow(base, n - 1) * base
  }

  /** The digits of `v`, most significant first, with no leading zero. */
  function ToBase(v: int, base: int): seq<int>
    requires v >= 0 && base >= 2
    decreases v
  {
    if v == 0 then [] else ToBase(v / base, base) + [v % base]
  }

  predicate Canonical(d: seq<int>) {
    d != [] ==> d[0] != 0
  }

  lemma {:induction false} PowPositive(base: int, n: nat)
    requires base >= 1
    ensures Pow(base, n) >= 1
  {
    if n > 0 { PowPositive(base, n - 1); }
  }

  lemma {:induction false} PowMonotone(base: int, m: nat, n: nat)
    requires base >= 1 && m <= n
    ensures Pow(base, m) <= Pow(base, n)
    decreases n
  {
    if m < n {
      PowMonotone(base, m, n - 1);
      PowPositive(base, n - 1);
      assert Pow(base, n - 1) * 1 <= Pow(base, n - 1) * base;
    }
  }

  lemma {:induction false} PowAdd(base: int, m: nat, n: nat)
    ensures Pow(base, m + n) == Pow(base, m) * Pow(base, n)
    decreases n
  {
    if n > 0 {
      PowAdd(base, m, n - 1);
      assert Pow(base, m + n) == (Pow(base, m) * Pow(base, n - 1)) * base
                              == Pow(base, m) * (Pow(base, n - 1) * base);
    }
  }

  lemma {:induction false} ValRange(d: seq<int>, base: int)
    requires base >= 2 && Digits(d, base)
    ensures 0 <= Val(d, base) < Pow(base, |d|)
  {
    if d != [] {
      var p := d[..|d| - 1];
      ValRange(p, base);
      MulMono(0, Val(p, base), base);
      MulMono(Val(p, base) + 1, Pow(base, |p|), base);
      assert (Val(p, base) + 1) * base == Val(p, base) * base + base;
    }
  }

  lemma MulMono(a: int, b: int, m: int)
    requires a <= b && m >= 0
    ensures a * m <= b * m
  {}

  lemma DivMod(v: int, base: int)
    requires base >= 1
    ensures v == (v / base) * base + v % base && 0 <= v % base < base
  {}

  lemma QuotientUnique(q: int, r: int, q': int, r': int, base: int)
    requires base >= 1 && 0 <= r < base && 0 <= r' < base && q * base + r == q' * base + r'
    ensures q == q' && r == r'
  {
    assert (q' + 1) * base == q' * base + base && (q + 1) * base == q * base + base;
    if q > q' { MulMono(q' + 1, q, base); }
    if q < q' { MulMono(q + 1, q', base); }
  }

  lemma DivModOfSum(q: int, r: int, base: int)
    requires base >= 1 && 0 <= r < base
    ensures (q * base + r) / base == q && (q * base + r) % base == r
  {
    var v := q * base + r;
    DivMod(v, base);
    QuotientUnique(q, r, v / base, v % base, base);
  }

  lemma ValSnoc(p: seq<int>, x: int, base: int)
    ensures Val(p + [x], base) == Val(p, base) * base + x
  {
    assert (p + [x])[..|p|] == p;
  }

  lemma {:induction false} ToBaseVal(v: int, base: int)
    requires v >= 0 && base >= 2
    ensures Digits(ToBase(v, base), base) && Canonical(ToBase(v, base)) && Val(ToBase(v, base), base) == v
    ensures v > 0 ==> ToBase(v, base) != []
    decreases v
  {
    if v > 0 {
      DivMod(v, base);
      var q, x := v / base, v % base;
      ToBaseVal(q, base);
      ValSnoc(ToBase(q, base), x, base);
    }
  }

  /** A canonical digit string is the only one of its value. */
  lemma {:induction false} CanonicalUnique(d: seq<int>, base: int)
    requires base >= 2 && Digits(d, base) && Canonical(d)
    ensures Val(d, base) >= 0 && d == ToBase(Val(d, base), base)
    ensures d != [] ==> Val(d, base) > 0
  {
    ValRange(d, base);
    if d != [] {
      var p, x := d[..|d| - 1], d[|d| - 1];
      assert d == p + [x];
      CanonicalUnique(p, base);
      DivModOfSum(Val(p, base), x, base);
      if p != [] { MulMono(1, Val(p, base), base); }
      assert Val(d, base) > 0;
    }
  }

  lemma {:induction false} LeadingZeros(n: nat, d: seq<int>, base: int)
    ensures Val(Repeat(0, n) + d, base) == Val(d, base)
    decreases |d|, n
  {
    var z := Repeat(0, n) + d;
    if d != [] {
      assert z[..|z| - 1] == Repeat(0, n) + d[..|d| - 1];
      LeadingZeros(n, d[..|d| - 1], base);
    } else if n > 0 {
      assert z[..|z| - 1] == Repeat(0, n - 1) + d;
      LeadingZeros(n - 1, d, base);
    }
  }

  /** Multiplies `d` by `m` and adds `c`, keeping the width: the digits and the carry out. */
  function MulAdd(d: seq<int>, m: int, base: int, c: int): (r: (seq<int>, int))
    requires base >= 2
    ensures |r.0| == |d|
  {
    if d == [] then ([], c)
    else
      var t := c + m * d[|d| - 1];
      var r := MulAdd(d[..|d| - 1], m, base, t / base);
      (r.0 + [t % base], r.1)
  }

  lemma MulAddStep(v: int, m: int, base: int, c: int, x: int, w: int, out: int, pow: int)
    requires base >= 1 && w + out * pow == m * v + (c + m * x) / base
    ensures w * base + (c + m * x) % base + out * (pow * base) == m * (v * base + x) + c
  {
    var t := c + m * x;
    DivMod(t, base);
    calc {
      w * base + t % base + out * (pow * base);
      == { assert out * (pow * base) == (out * pow) * base; }
      (w + out * pow) * base + t % base;
      (m * v + t / base) * base + t % base;
      (m * v) * base + ((t / base) * base + t % base);
      == { assert (m * v) * base == m * (v * base); }
      m * (v * base) + m * x + c;
    }
  }

  lemma {:induction false} MulAddVal(d: seq<int>, m: int, base: int, c: int)
    requires base >= 2 && m >= 0 && c >= 0 && Digits(d, base)
    ensures Digits(MulAdd(d, m, base, c).0, base) && MulAdd(d, m, base, c).1 >= 0
    ensures Val(MulAdd(d, m, base, c).0, base) + MulAdd(d, m, base, c).1 * Pow(base, |d|)
            == m * Val(d, base) + c
  {
    if d != [] {
      var p, x := d[..|d| - 1], d[|d| - 1];
      MulMono(0, x, m);
      var t := c + m * x;
      DivMod(t, base);
      MulAddVal(p, m, base, t / base);
      var r := MulAdd(p, m, base, t / base);
      ValSnoc(r.0, t % base, base);
      MulAddStep(Val(p, base), m, base, c, x, Val(r.0, base), r.1, Pow(base, |p|));
    }
  }

  lemma {:induction false} MulAddZeros(d: seq<int>, m: int, base: int)
    requires base >= 2 && forall i :: 0 <= i < |d| ==> d[i] == 0
    ensures MulAdd(d, m, base, 0) == (d, 0)
  {
    if d != [] {
      var p := d[..|d| - 1];
      MulAddZeros(p, m, base);
      assert d == p + [0];
      DivModOfSum(0, 0, base);
      assert 0 + m * d[|d| - 1] == 0;
    }
  }

  /** Without a carry out, a canonical number stays canonical. */
  lemma {:induction false} MulAddCanonical(d: seq<int>, m: int, base: int, c: int)
    requires base >= 2 && m >= 1 && c >= 0 && Digits(d, base)
    requires d != [] && d[0] != 0 && MulAdd(d, m, base, c).1 == 0
    ensures MulAdd(d, m, base, c).0[0] != 0
  {
    var p, x := d[..|d| - 1], d[|d| - 1];
    var t := c + m * x;
    assert m * x >= 0;
    if p == [] {
      assert m * x >= x;
    } else {
      MulAddCanonical(p, m, base, t / base);
    }
  }

  /** The in-place loop has produced the digits from `k` on, and `carry` goes into digit `k - 1`. */
  predicate Progress(d: seq<int>, m: int, base: int, c: int, k: nat, carry: int, tail: seq<int>)
    requires base >= 2 && k <= |d|
  {
    var r := MulAdd(d[..k], m, base, carry);
    MulAdd(d, m, base, c) == (r.0 + tail, r.1)
  }

  lemma ProgressStart(d: seq<int>, m: int, base: int, c: int)
    requires base >= 2
    ensures Progress(d, m, base, c, |d|, c, [])
  {
    assert d[..|d|] == d;
    assert MulAdd(d, m, base, c).0 + [] == MulAdd(d, m, base, c).0;
  }

  lemma ProgressStep(d: seq<int>, m: int, base: int, c: int, k: nat, carry: int, tail: seq<int>)
    requires base >= 2 && 0 < k <= |d| && Progress(d, m, base, c, k, carry, tail)
    ensures var t := carry + m * d[k - 1];
      Progress(d, m, base, c, k - 1, t / base, [t % base] + tail)
  {
    var t := carry + m * d[k - 1];
    assert d[..k][..k - 1] == d[..k - 1];
    var r := MulAdd(d[..k - 1], m, base, t / base);
    assert (r.0 + [t % base]) + tail == r.0 + ([t % base] + tail);
  }

  /** Once the carry is spent, the untouched zeros in front are already right. */
  lemma ProgressDone(d: seq<int>, m: int, base: int, c: int, k: nat, tail: seq<int>)
    requires base >= 2 && k <= |d| && Progress(d, m, base, c, k, 0, tail)
    requires forall i :: 0 <= i < k ==> d[i] == 0
    ensures MulAdd(d, m, base, c) == (d[..k] + tail, 0)
  {
    MulAddZeros(d[..k], m, base);
  }

  lemma ProgressCarry(d: seq<int>, m: int, base: int, c: int, carry: int, tail: seq<int>)
    requires base >= 2 && Progress(d, m, base, c, 0, carry, tail)
    ensures MulAdd(d, m, base, c) == (tail, carry)
  {
    assert d[..0] == [] && [] + tail == tail;
  }

  // ----- Positions -----

  /** A digit string weighs its first part by the base to the length of the second. */
  lemma {:induction false} ValConcat(a: seq<int>, b: seq<int>, base: int)
    ensures Val(a + b, base) == Val(a, base) * Pow(base, |b|) + Val(b, base)
    decreases |b|
  {
    if b == [] {
      assert a + b == a;
    } else {
      var p, x := b[..|b| - 1], b[|b| - 1];
      assert (a + b)[..|a + b| - 1] == a + p;
      ValConcat(a, p, base);
      Distribute(Val(a, base), Pow(base, |p|), Val(p, base), base);
    }
  }

  lemma Distribute(v: int, p: int, w: int, base: int)
    ensures (v * p + w) * base == v * (p * base) + w * base
  {}

  lemma QuotientBetween(m: int, v: int, k: int, base: int)
    requires base >= 1 && m * base <= v < k * base
    ensures m <= v / base < k
  {
    if v / base < m { MulMono(v / base + 1, m, base); }
    if v / base >= k { MulMono(k, v / base, base); }
  }

  /** The leading digits of a number are those of its quotient by a power of the base. */
  lemma {:induction false} TopDigits(v: int, q: int, n: nat, base: int)
    requires base >= 2 && q > 0 && q * Pow(base, n) <= v < (q + 1) * Pow(base, n)
    ensures v > 0 && ToBase(q, base) <= ToBase(v, base)
    decreases n
  {
    PowPositive(base, n);
    MulMono(1, q, Pow(base, n));
    if n == 0 {
      assert v == q;
    } else {
      var p := Pow(base, n - 1);
      Regrouped(q, p, base);
      Regrouped(q + 1, p, base);
      QuotientBetween(q * p, v, (q + 1) * p, base);
      TopDigits(v / base, q, n - 1, base);
      assert ToBase(v, base) == ToBase(v / base, base) + [v % base];
    }
  }

  lemma Regrouped(q: int, p: int, base: int)
    ensures q * (p * base) == q * p * base
  {}
}
