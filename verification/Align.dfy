/**
  Rounding an address up to an alignment with 64-bit arithmetic: a mask for powers of two,
  a remainder otherwise.
 */
module Align {
  import opened Machine

  /** Bitwise conjunction of two naturals. */
  function And(x: nat, y: nat): nat {
    if x == 0 || y == 0 then 0 else 2 * And(x / 2, y / 2) + (x % 2) * (y % 2)
  }

  /** Bitwise complement of a 64-bit word. */
  function Complement(x: nat): nat
    requires x < SIZE_LIMIT
  {
    SIZE_LIMIT - 1 - x
  }

  function AlignUp(addr: nat, align: nat): nat
    requires addr < SIZE_LIMIT && align < SIZE_LIMIT
  {
    if align <= 1 then addr
    else if And(align, align - 1) == 0 then
      And((addr + (align - 1)) % SIZE_LIMIT, Complement(align - 1))
    else
      var r := addr % align;
      if r != 0 then (addr + (align - r)) % SIZE_LIMIT else addr
  }

  predicate Multiple(m: nat, align: nat)
    requires align > 0
  {
    m % align == 0
  }

  /** r is the least multiple of align at or above addr. */
  ghost predicate RoundsUp(r: nat, addr: nat, align: nat)
    requires align > 0
  {
    && Multiple(r, align) && addr <= r
    && (forall m: nat :: Multiple(m, align) && addr <= m ==> r <= m)
  }

  // ------------------------------------------------------ division and remainder

  lemma {:induction false} Scale(d: int, n: nat)
    ensures d >= 1 ==> d * n >= n
    ensures d <= 0 ==> d * n <= 0
    ensures d <= -1 ==> d * n <= 0 - n
  {
  }

  lemma {:induction false} QuotientUnique(q: nat, r: nat, n: nat)
    requires r < n
    ensures (q * n + r) / n == q && (q * n + r) % n == r
  {
    var x := q * n + r;
    assert x == (x / n) * n + x % n;
    assert (q - x / n) * n == x % n - r;
    Scale(q - x / n, n);
  }

  lemma {:induction false} RemainderDoubled(x: nat, n: nat)
    requires n > 0
    ensures x % (2 * n) == 2 * ((x / 2) % n) + x % 2
  {
    var h := x / 2;
    var r := 2 * (h % n) + x % 2;
    assert h == (h / n) * n + h % n;
    assert x == (h / n) * (2 * n) + r;
    QuotientUnique(h / n, r, 2 * n);
  }

  lemma {:induction false} MultiplesApart(m: nat, r: nat, align: nat)
    requires align > 0 && Multiple(m, align) && Multiple(r, align) && m < r
    ensures r - m >= align
  {
    var d := r / align - m / align;
    assert r == (r / align) * align && m == (m / align) * align;
    assert r - m == d * align;
    Scale(d, align);
  }

  /** Stepping up from any address by the missing part of a block gives the least multiple. */
  lemma {:induction false} CeilingRoundsUp(addr: nat, align: nat, r: nat)
    requires align > 0
    requires Multiple(r, align) && addr <= r < addr + align
    ensures RoundsUp(r, addr, align)
  {
    forall m: nat | Multiple(m, align) && addr <= m
      ensures r <= m
    {
      if m < r {
        MultiplesApart(m, r, align);
      }
    }
  }

  lemma {:induction false} DownIsMultiple(x: nat, align: nat)
    requires align > 0
    ensures Multiple(x - x % align, align)
  {
    assert x - x % align == (x / align) * align + 0;
    QuotientUnique(x / align, 0, align);
  }

  // ------------------------------------------------------------ powers of two

  function Pow2(k: nat): (r: nat)
    ensures r > 0
  {
    if k == 0 then 1 else 2 * Pow2(k - 1)
  }

  lemma {:induction false} AndSelf(x: nat)
    ensures And(x, x) == x
  {
    if x != 0 {
      AndSelf(x / 2);
    }
  }

  lemma {:induction false} OddFails(a: nat)
    requires a > 1 && a % 2 == 1
    ensures And(a, a - 1) != 0
  {
    AndSelf(a / 2);
    assert (a - 1) / 2 == a / 2;
  }

  lemma {:induction false} PowerFound(a: nat) returns (k: nat)
    requires a > 0 && And(a, a - 1) == 0
    ensures a == Pow2(k)
  {
    if a == 1 {
      k := 0;
    } else {
      if a % 2 == 1 {
        OddFails(a);
      }
      assert (a - 1) / 2 == a / 2 - 1;
      k := PowerFound(a / 2);
      k := k + 1;
    }
  }

  lemma {:induction false} PowersPass(k: nat)
    ensures And(Pow2(k), Pow2(k) - 1) == 0
  {
    if k > 0 {
      PowersPass(k - 1);
      assert (Pow2(k) - 1) / 2 == Pow2(k - 1) - 1;
    }
  }

  ghost predicate PowerOfTwo(a: nat) {
    exists k :: a == Pow2(k)
  }

  /** The test a & (a - 1) == 0 accepts the powers of two and nothing else. */
  lemma {:induction false} MaskTest(a: nat)
    requires a > 0
    ensures And(a, a - 1) == 0 <==> PowerOfTwo(a)
  {
    if And(a, a - 1) == 0 {
      var k := PowerFound(a);
    }
    if PowerOfTwo(a) {
      var k :| a == Pow2(k);
      PowersPass(k);
    }
  }

  lemma {:induction false} AndFull(x: nat, w: nat)
    requires x < Pow2(w)
    ensures And(x, Pow2(w) - 1) == x
    decreases w
  {
    if x != 0 {
      assert (Pow2(w) - 1) / 2 == Pow2(w - 1) - 1;
      AndFull(x / 2, w - 1);
    }
  }

  lemma {:induction false} PowGrows(k: nat, w: nat)
    requires k <= w
    ensures Pow2(k) <= Pow2(w)
    decreases w
  {
    if k < w {
      PowGrows(k, w - 1);
    }
  }

  lemma {:induction false} PowStrict(k: nat, w: nat)
    requires Pow2(k) < Pow2(w)
    ensures k < w
  {
    if k >= w {
      PowGrows(w, k);
    }
  }

  lemma {:induction false} MaskOffStep(x: nat, p: nat, q: nat)
    requires 0 < q <= p && And(x / 2, p - q) == x / 2 - (x / 2) % q
    ensures And(x, 2 * p - 2 * q) == x - x % (2 * q)
  {
    var y := 2 * p - 2 * q;
    assert y / 2 == p - q && y % 2 == 0;
    AndStep(x, y);
    RemainderDoubled(x, q);
  }

  lemma {:induction false} HalfBelow(x: nat, k: nat, w: nat)
    requires x < Pow2(w) && 0 < k <= w
    ensures x / 2 < Pow2(w - 1) && Pow2(w) == 2 * Pow2(w - 1) && Pow2(k) == 2 * Pow2(k - 1)
  {
  }

  /** Masking off the low k bits of a w-bit word subtracts the remainder by 2^k. */
  lemma {:induction false} MaskOff(x: nat, k: nat, w: nat)
    requires x < Pow2(w) && k <= w
    ensures Pow2(k) <= Pow2(w)
    ensures And(x, Pow2(w) - Pow2(k)) == x - x % Pow2(k)
    decreases k
  {
    PowGrows(k, w);
    if k == 0 {
      AndFull(x, w);
    } else {
      HalfBelow(x, k, w);
      MaskOff(x / 2, k - 1, w - 1);
      MaskOffScaled(x, Pow2(w - 1), Pow2(k - 1), Pow2(w), Pow2(k));
    }
  }

  lemma {:induction false} MaskOffScaled(x: nat, p: nat, q: nat, p': nat, q': nat)
    requires 0 < q <= p && p' == 2 * p && q' == 2 * q && And(x / 2, p - q) == x / 2 - (x / 2) % q
    ensures And(x, p' - q') == x - x % q'
  {
    MaskOffStep(x, p, q);
  }

  lemma {:induction false} AndStep(x: nat, y: nat)
    requires y % 2 == 0
    ensures And(x, y) == 2 * And(x / 2, y / 2)
  {
  }

  lemma {:induction false} Pow64()
    ensures Pow2(64) == SIZE_LIMIT
  {
    assert Pow2(8) == 0x100;
    assert Pow2(16) == 0x1_0000;
    assert Pow2(24) == 0x100_0000;
    assert Pow2(32) == 0x1_0000_0000;
    assert Pow2(40) == 0x100_0000_0000;
    assert Pow2(48) == 0x1_0000_0000_0000;
    assert Pow2(56) == 0x100_0000_0000_0000;
  }

  /** The largest multiple of align that is a 64-bit address. */
  function LastMultiple(align: nat): nat
    requires 0 < align < SIZE_LIMIT
  {
    (SIZE_LIMIT - 1) - (SIZE_LIMIT - 1) % align
  }

  /** Both branches, below the last multiple: the result rounds up. */
  lemma {:induction false} AlignBelow(addr: nat, align: nat)
    requires 0 < align < SIZE_LIMIT && addr <= LastMultiple(align)
    ensures RoundsUp(AlignUp(addr, align), addr, align)
  {
    if align == 1 {
      CeilingRoundsUp(addr, align, addr);
    } else if And(align, align - 1) == 0 {
      AlignByMask(addr, align);
    } else {
      AlignByRemainder(addr, align);
    }
  }

  lemma {:induction false} LastMultipleOfPower(k: nat)
    requires Pow2(k) < SIZE_LIMIT
    ensures LastMultiple(Pow2(k)) == SIZE_LIMIT - Pow2(k)
  {
    Pow64();
    PowStrict(k, 64);
    PowSplit(k, 64);
    LastMultipleIs(Pow2(64 - k) - 1, Pow2(k));
  }

  lemma {:induction false} LastMultipleIs(q: nat, a: nat)
    requires 0 < a < SIZE_LIMIT && SIZE_LIMIT == (q + 1) * a
    ensures LastMultiple(a) == SIZE_LIMIT - a
  {
    assert SIZE_LIMIT - 1 == q * a + (a - 1);
    QuotientUnique(q, a - 1, a);
  }

  lemma {:induction false} PowSplit(k: nat, w: nat)
    requires k <= w
    ensures Pow2(w) == Pow2(w - k) * Pow2(k)
    decreases k
  {
    if k > 0 {
      PowSplit(k - 1, w - 1);
      assert Pow2(w) == 2 * (Pow2(w - k) * Pow2(k - 1));
    }
  }

  lemma {:induction false} DownRoundsUp(addr: nat, align: nat)
    requires align > 0
    ensures var x := addr + (align - 1); RoundsUp(x - x % align, addr, align)
  {
    var x := addr + (align - 1);
    DownIsMultiple(x, align);
    CeilingRoundsUp(addr, align, x - x % align);
  }

  lemma {:induction false} AlignByMask(addr: nat, align: nat)
    requires 1 < align < SIZE_LIMIT && addr <= LastMultiple(align) && And(align, align - 1) == 0
    ensures RoundsUp(AlignUp(addr, align), addr, align)
  {
    var k := PowerFound(align);
    LastMultipleOfPower(k);
    var x := addr + (align - 1);
    MaskedWord(x, k);
    assert x % SIZE_LIMIT == x;
    DownRoundsUp(addr, align);
  }

  lemma {:induction false} MaskedWord(x: nat, k: nat)
    requires x < SIZE_LIMIT && Pow2(k) < SIZE_LIMIT
    ensures And(x, Complement(Pow2(k) - 1)) == x - x % Pow2(k)
  {
    Pow64();
    PowStrict(k, 64);
    MaskOff(x, k, 64);
  }

  /** The step taken by the remainder branch, before it is cut to 64 bits. */
  function Stepped(addr: nat, align: nat): nat
    requires align > 0
  {
    var r := addr % align;
    if r != 0 then addr + (align - r) else addr
  }

  lemma {:induction false} SteppedRoundsUp(addr: nat, align: nat)
    requires align > 0
    ensures RoundsUp(Stepped(addr, align), addr, align)
  {
    StepUp(addr, align);
    CeilingRoundsUp(addr, align, Stepped(addr, align));
  }

  lemma {:induction false} AlignByRemainder(addr: nat, align: nat)
    requires 1 < align < SIZE_LIMIT && addr <= LastMultiple(align) && And(align, align - 1) != 0
    ensures RoundsUp(AlignUp(addr, align), addr, align)
  {
    SteppedRoundsUp(addr, align);
    LastIsMultiple(align);
    var s := Stepped(addr, align);
    assert s <= LastMultiple(align);
    assert s % SIZE_LIMIT == s;
  }

  lemma {:induction false} LastIsMultiple(align: nat)
    requires 0 < align < SIZE_LIMIT
    ensures Multiple(LastMultiple(align), align)
    ensures LastMultiple(align) < SIZE_LIMIT <= LastMultiple(align) + align
  {
    DownIsMultiple(SIZE_LIMIT - 1, align);
  }

  lemma {:induction false} StepUp(addr: nat, align: nat)
    requires align > 0
    ensures Multiple(Stepped(addr, align), align)
  {
    var q, r := addr / align, addr % align;
    if r != 0 {
      assert addr + (align - r) == (q + 1) * align + 0;
      QuotientUnique(q + 1, 0, align);
    }
  }

  /**
    64-bit rounding is right exactly when the address is not above the last representable
    multiple; alignment 0 means no rounding.
   */
  lemma {:induction false} AlignExactly(addr: nat, align: nat)
    requires addr < SIZE_LIMIT && align < SIZE_LIMIT
    ensures align == 0 ==> AlignUp(addr, align) == addr
    ensures align > 0 ==> (RoundsUp(AlignUp(addr, align), addr, align) <==> addr <= LastMultiple(align))
  {
    if align > 0 {
      if addr <= LastMultiple(align) {
        AlignBelow(addr, align);
      } else {
        AlignAbove(addr, align);
      }
    }
  }

  lemma {:induction false} AlignAbove(addr: nat, align: nat)
    requires 0 < align < SIZE_LIMIT && LastMultiple(align) < addr < SIZE_LIMIT
    ensures AlignUp(addr, align) < SIZE_LIMIT
    ensures !RoundsUp(AlignUp(addr, align), addr, align)
  {
    var r := AlignUp(addr, align);
    AlignFits(addr, align);
    LastIsMultiple(align);
    NoMultipleAbove(LastMultiple(align), r, addr, align);
  }

  lemma {:induction false} NoMultipleAbove(last: nat, r: nat, addr: nat, align: nat)
    requires align > 0 && Multiple(last, align) && last < addr
    requires r < SIZE_LIMIT <= last + align
    ensures !(Multiple(r, align) && addr <= r)
  {
    if Multiple(r, align) && addr <= r {
      MultiplesApart(last, r, align);
    }
  }

  lemma {:induction false} AndBelow(x: nat, y: nat)
    ensures And(x, y) <= x
    decreases x
  {
    if x != 0 && y != 0 {
      AndBelow(x / 2, y / 2);
    }
  }

  lemma {:induction false} AlignFits(addr: nat, align: nat)
    requires addr < SIZE_LIMIT && 0 < align < SIZE_LIMIT
    ensures AlignUp(addr, align) < SIZE_LIMIT
  {
    if align > 1 {
      AndBelow((addr + (align - 1)) % SIZE_LIMIT, Complement(align - 1));
    }
  }

  lemma {:induction false} RoundsUpWithin(r: nat, addr: nat, align: nat)
    requires align > 0 && RoundsUp(r, addr, align)
    ensures r < addr + align
  {
    var x := addr + align - 1;
    DownIsMultiple(x, align);
    assert r <= x - x % align;
  }
}
