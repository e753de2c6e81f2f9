/** Bitwise operations on unsigned words, bit by bit. */
module Bits {

  function Pow2(k: nat): (p: nat)
    ensures p > 0
  {
    if k == 0 then 1 else 2 * Pow2(k - 1)
  }

  /** `v & ~m`, bit by bit. */
  function AndNot(v: nat, m: nat): nat {
    if v == 0 then 0
    else 2 * AndNot(v / 2, m / 2) + (if v % 2 == 1 && m % 2 == 0 then 1 else 0)
  }

  /** `v & m`, bit by bit. */
  function And(v: nat, m: nat): nat {
    if v == 0 then 0
    else 2 * And(v / 2, m / 2) + (if v % 2 == 1 && m % 2 == 1 then 1 else 0)
  }

  /** Bit `k` of a word. */
  predicate Bit(v: nat, k: nat) {
    if k == 0 then v % 2 == 1 else Bit(v / 2, k - 1)
  }

  lemma {:induction false} NoBit(k: nat)
    ensures !Bit(0, k)
  {
    if k > 0 {
      NoBit(k - 1);
    }
  }

  /** The masks, by single bits. */
  lemma {:induction false} MaskedBit(v: nat, m: nat, k: nat)
    ensures Bit(And(v, m), k) <==> Bit(v, k) && Bit(m, k)
    ensures Bit(AndNot(v, m), k) <==> Bit(v, k) && !Bit(m, k)
    decreases k
  {
    if v == 0 {
      NoBit(k);
    } else if k > 0 {
      MaskedBit(v / 2, m / 2, k - 1);
    }
  }

  lemma {:induction false} PowerBit(n: nat, k: nat)
    ensures Bit(Pow2(n), k) <==> n == k
  {
    if n == 0 {
      if k > 0 {
        NoBit(k - 1);
      }
    } else if k > 0 {
      PowerBit(n - 1, k - 1);
    }
  }

  /** A word that has a bit is not 0, and the other way round. */
  lemma {:induction false} SomeBit(v: nat) returns (k: nat)
    requires v > 0
    ensures Bit(v, k)
  {
    if v % 2 == 1 {
      k := 0;
    } else {
      k := SomeBit(v / 2);
      k := k + 1;
    }
  }

  lemma {:induction false} AndNotShrinks(v: nat, m: nat)
    ensures AndNot(v, m) <= v
  {
    if v > 0 {
      AndNotShrinks(v / 2, m / 2);
    }
  }

  /** The low `n` bits of a word. */
  lemma {:induction false} LowBit(v: nat, n: nat, k: nat)
    requires k < n
    ensures Bit(v % Pow2(n), k) <==> Bit(v, k)
    decreases k
  {
    LowHalf(v, n);
    if k > 0 {
      LowBit(v / 2, n - 1, k - 1);
    }
  }

  lemma LowHalf(v: nat, n: nat)
    requires n > 0
    ensures v % Pow2(n) % 2 == v % 2 && v % Pow2(n) / 2 == v / 2 % Pow2(n - 1)
  {
    ModDouble(v, Pow2(n - 1));
    Halves(v / 2 % Pow2(n - 1), v % 2);
  }

  lemma Halves(h: nat, b: nat)
    requires b < 2
    ensures (2 * h + b) % 2 == b && (2 * h + b) / 2 == h
  {
  }

  lemma ModDouble(v: nat, q: nat)
    requires q > 0
    ensures v % (2 * q) == 2 * (v / 2 % q) + v % 2
  {
    var h := v / 2;
    var d, r := h / q, h % q;
    assert v == 2 * h + v % 2;
    assert h == d * q + r;
    assert v == (2 * q) * d + (2 * r + v % 2) by {
      assert 2 * (d * q) == (2 * q) * d;
    }
    DivModUnique(v, 2 * q, d, 2 * r + v % 2);
  }

  lemma DivModUnique(v: nat, m: nat, d: nat, r: nat)
    requires m > 0 && r < m && v == m * d + r
    ensures v / m == d && v % m == r
  {
    var d', r' := v / m, v % m;
    assert v == m * d' + r';
    MulOrder(m, d', d);
    MulOrder(m, d, d');
  }

  lemma MulOrder(m: nat, a: nat, b: nat)
    ensures a < b ==> m * a + m <= m * b
    ensures a <= b ==> m * a <= m * b
  {
    if a < b {
      var c := b - a - 1;
      assert b == a + 1 + c;
      assert m * b == m * a + m + m * c;
      assert m * c >= 0;
    }
  }

  /** Testing for one bit. */
  lemma TestOne(v: nat, n: nat)
    ensures And(v, Pow2(n)) != 0 <==> Bit(v, n)
  {
    if And(v, Pow2(n)) != 0 {
      var k := SomeBit(And(v, Pow2(n)));
      MaskedBit(v, Pow2(n), k);
      PowerBit(n, k);
    } else {
      NoBit(n);
      MaskedBit(v, Pow2(n), n);
      PowerBit(n, n);
    }
  }
}
