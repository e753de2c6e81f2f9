/** Page arithmetic on 64-bit words as the loader writes it, with masks
    (src/engines/rootless/loader/loader.c, trunc_page and round_page). */
module PageMath {
  import opened Bits

  const TWO64: nat := 0x1_0000_0000_0000_0000

  ghost predicate IsPageSize(ps: nat) {
    ps <= 0x8000_0000_0000_0000 && exists k :: ps == Pow2(k)
  }

  /** One bit of a mask. */
  lemma MaskStep(v: nat, m: nat)
    requires v > 0
    ensures AndNot(v, m) == 2 * AndNot(v / 2, m / 2) + (if v % 2 == 1 && m % 2 == 0 then 1 else 0)
    ensures And(v, m) == 2 * And(v / 2, m / 2) + (if v % 2 == 1 && m % 2 == 1 then 1 else 0)
  {
  }

  lemma {:induction false} MaskNone(v: nat)
    ensures AndNot(v, 0) == v && And(v, 0) == 0
    decreases v
  {
    if v > 0 {
      MaskNone(v / 2);
    }
  }

  lemma HalfMask(k: nat)
    requires k > 0
    ensures Pow2(k) == 2 * Pow2(k - 1) && (Pow2(k) - 1) / 2 == Pow2(k - 1) - 1 && (Pow2(k) - 1) % 2 == 1
  {
  }

  function Rem(v: nat, p: nat): nat
    requires p > 0
  {
    v % p
  }

  lemma RemDouble(v: nat, k: nat)
    requires k > 0
    ensures Rem(v, Pow2(k)) == 2 * Rem(v / 2, Pow2(k - 1)) + v % 2
  {
    ModDouble(v, Pow2(k - 1));
    assert Pow2(k) == 2 * Pow2(k - 1);
  }

  lemma RemNothing(v: nat, p: nat)
    requires p > 0
    ensures Rem(0, p) == 0 && Rem(v, 1) == 0
  {
  }

  lemma {:induction false} MaskIsRem(v: nat, k: nat)
    ensures AndNot(v, Pow2(k) - 1) == v - Rem(v, Pow2(k)) && And(v, Pow2(k) - 1) == Rem(v, Pow2(k))
    decreases v
  {
    hide Rem;
    RemNothing(v, Pow2(k));
    if k == 0 {
      MaskNone(v);
    } else if v > 0 {
      hide AndNot, And, Pow2;
      HalfMask(k);
      MaskStep(v, Pow2(k) - 1);
      MaskIsRem(v / 2, k - 1);
      RemDouble(v, k);
    }
  }

  /** Masking with a power of two is rounding down and taking the remainder. */
  lemma MaskIsMod(v: nat, k: nat)
    ensures AndNot(v, Pow2(k) - 1) == v - v % Pow2(k)
    ensures And(v, Pow2(k) - 1) == v % Pow2(k)
  {
    hide AndNot, And, Pow2;
    MaskIsRem(v, k);
  }

  function Add64(a: nat, b: nat): nat {
    (a + b) % TWO64
  }

  function Sub64(a: nat, b: nat): nat {
    (a - b) % TWO64
  }

  function TruncPage(v: nat, ps: nat): nat
    requires ps > 0
  {
    AndNot(v, ps - 1)
  }

  function RoundPage(v: nat, ps: nat): nat
    requires ps > 0
  {
    AndNot(Add64(v, ps - 1), ps - 1)
  }

  predicate Aligned(v: nat, ps: nat)
    requires ps > 0
  {
    v % ps == 0
  }

  lemma TruncFacts(v: nat, ps: nat)
    requires IsPageSize(ps)
    ensures var t := TruncPage(v, ps); t == v - v % ps && t <= v < t + ps && Aligned(t, ps)
  {
    hide Pow2, AndNot, And;
    var k :| ps == Pow2(k);
    MaskIsMod(v, k);
    FloorMultiple(v, ps);
  }

  lemma FloorMultiple(v: nat, ps: nat)
    requires ps > 0
    ensures v - v % ps >= 0 && v < v - v % ps + ps && (v - v % ps) % ps == 0
  {
    assert v == ps * (v / ps) + v % ps;
    MultipleAligned(v / ps, ps);
  }

  lemma MultipleAligned(x: nat, ps: nat)
    requires ps > 0
    ensures (ps * x) % ps == 0 && (ps * x) / ps == x
  {
    DivModUnique(ps * x, ps, x, 0);
  }

  lemma TruncBounds(v: nat, ps: nat)
    requires IsPageSize(ps)
    ensures var t := TruncPage(v, ps); t <= v < t + ps && Aligned(t, ps)
  {
    TruncFacts(v, ps);
  }

  /** Moving by whole pages commutes with rounding. */
  lemma TruncShift(v: nat, lo: nat, base: nat, ps: nat)
    requires IsPageSize(ps) && Aligned(lo, ps) && Aligned(base, ps) && lo <= TruncPage(v, ps) && lo <= v
    ensures TruncPage(base + (v - lo), ps) == base + (TruncPage(v, ps) - lo)
  {
    hide IsPageSize, TruncPage, Aligned;
    TruncBounds(v, ps);
    var t := TruncPage(v, ps);
    PagePositive(ps);
    AlignedSum(t, lo, ps);
    AlignedSum(base, t - lo, ps);
    TruncUnique(base + (v - lo), base + (t - lo), ps);
  }

  lemma RoundShift(v: nat, lo: nat, base: nat, ps: nat)
    requires IsPageSize(ps) && Aligned(lo, ps) && Aligned(base, ps) && lo <= v
    requires v + ps <= TWO64 && base + (v - lo) + ps <= TWO64
    ensures RoundPage(base + (v - lo), ps) == base + (RoundPage(v, ps) - lo)
  {
    hide IsPageSize, RoundPage, Aligned;
    RoundFacts(v, ps);
    var r := RoundPage(v, ps);
    PagePositive(ps);
    AlignedSum(r, lo, ps);
    AlignedSum(base, r - lo, ps);
    RoundUnique(base + (v - lo), base + (r - lo), ps);
  }

  lemma PagePositive(ps: nat)
    requires IsPageSize(ps)
    ensures 0 < ps <= 0x8000_0000_0000_0000
  {
  }

  lemma RoundFacts(v: nat, ps: nat)
    requires IsPageSize(ps) && v + ps <= TWO64
    ensures var r := RoundPage(v, ps); v <= r < v + ps && Aligned(r, ps)
  {
    hide IsPageSize, AndNot;
    PagePositive(ps);
    assert Add64(v, ps - 1) == v + ps - 1;
    assert RoundPage(v, ps) == TruncPage(v + ps - 1, ps);
    TruncBounds(v + ps - 1, ps);
  }

  lemma MaskZero(v: nat, ps: nat)
    requires IsPageSize(ps)
    ensures And(v, ps - 1) == 0 <==> Aligned(v, ps)
  {
    var k :| ps == Pow2(k);
    MaskIsMod(v, k);
  }

  /** Aligned numbers are closed under sum and difference, and consecutive ones are a page apart. */
  lemma AlignedSum(a: nat, b: nat, ps: nat)
    requires ps > 0 && Aligned(a, ps) && Aligned(b, ps)
    ensures Aligned(a + b, ps)
    ensures a >= b ==> Aligned(a - b, ps)
    ensures a < b ==> a + ps <= b
  {
    var x, y := a / ps, b / ps;
    assert a == ps * x && b == ps * y;
    assert a + b == ps * (x + y);
    MultipleAligned(x + y, ps);
    MulOrder(ps, x, y);
    MulOrder(ps, y, x);
    if a >= b {
      assert a - b == ps * (x - y);
      if x >= y {
        MultipleAligned(x - y, ps);
      }
    }
  }

  /** The page of an address is the only aligned number within a page below it. */
  lemma TruncUnique(v: nat, t: nat, ps: nat)
    requires IsPageSize(ps) && Aligned(t, ps) && t <= v < t + ps
    ensures TruncPage(v, ps) == t
  {
    TruncFacts(v, ps);
    var u := TruncPage(v, ps);
    if u < t { AlignedSum(u, t, ps); }
    if t < u { AlignedSum(t, u, ps); }
  }

  lemma RoundUnique(v: nat, r: nat, ps: nat)
    requires IsPageSize(ps) && v + ps <= TWO64 && Aligned(r, ps) && v <= r < v + ps
    ensures RoundPage(v, ps) == r
  {
    RoundFacts(v, ps);
    var u := RoundPage(v, ps);
    if u < r { AlignedSum(u, r, ps); }
    if r < u { AlignedSum(r, u, ps); }
  }
}
