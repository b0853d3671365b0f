/** 32-bit words, the bitwise operators of C on them, and page alignment.

    The kernel packs flags into the low bits of aligned addresses and takes them
    apart again with masks. `And` and `Or` are defined bit by bit; the lemmas turn
    every mask the kernel uses into a fact about division and remainder, which is
    the form the other modules reason with. */
module Words {

  const WORD: nat := 0x1_0000_0000
  const PAGE: nat := 4096

  type Word = x: int | 0 <= x < 0x1_0000_0000
  type Byte = x: int | 0 <= x < 256

  /** The little-endian word with the given four bytes. */
  function Join(b0: Byte, b1: Byte, b2: Byte, b3: Byte): Word {
    b0 + 0x100 * b1 + 0x1_0000 * b2 + 0x100_0000 * b3
  }

  /** The ASCII decimal digits. */
  predicate IsDigit(c: Byte) { 48 <= c <= 57 }

  // Error numbers of status.h, and the codes returned by the kernel (negated).
  const EIO: int := 1
  const EINVAL: int := 2
  const ENOMEM: int := 3
  const EBADPATH: int := 4
  const EISTKN: int := 8

  function Pow2(k: nat): (p: nat)
    ensures p > 0
  {
    if k == 0 then 1 else 2 * Pow2(k - 1)
  }

  /** `x & y` on naturals. */
  function And(x: nat, y: nat): nat
    decreases x
  {
    if x == 0 then 0 else 2 * And(x / 2, y / 2) + (if x % 2 == 1 && y % 2 == 1 then 1 else 0)
  }

  /** `x | y` on naturals. */
  function Or(x: nat, y: nat): nat
    decreases x
  {
    if x == 0 then y else 2 * Or(x / 2, y / 2) + (if x % 2 + y % 2 == 0 then 0 else 1)
  }

  /** Masking with the low k ones keeps the remainder. */
  lemma {:induction false} AndLowOnes(x: nat, k: nat)
    ensures And(x, Pow2(k) - 1) == x % Pow2(k)
    decreases k
  {
    if k == 0 {
      AndZero(x);
    } else if x != 0 {
      AndLowOnes(x / 2, k - 1);
      assert (Pow2(k) - 1) / 2 == Pow2(k - 1) - 1;
      HalfMod(x, Pow2(k - 1));
    }
  }

  lemma {:induction false} AndZero(x: nat)
    ensures And(x, 0) == 0
  {
    if x != 0 { AndZero(x / 2); }
  }

  lemma HalfMod(x: nat, p: nat)
    requires p > 0
    ensures x % (2 * p) == 2 * ((x / 2) % p) + x % 2
  {
    var q := (x / 2) / p;
    var r := (x / 2) % p;
    assert x / 2 == q * p + r;
    assert x == q * (2 * p) + (2 * r + x % 2);
    ModUnique(x, 2 * p, q, 2 * r + x % 2);
  }

  lemma ModUnique(x: nat, m: nat, q: nat, r: nat)
    requires x == q * m + r && r < m
    ensures x % m == r && x / m == q
  {
    var d := x / m - q;
    assert d * m == r - x % m;
    MulAtLeast(d, m);
  }

  lemma MulAtLeast(d: int, m: nat)
    ensures d >= 1 ==> d * m >= m
    ensures d <= -1 ==> d * m + m <= 0
  {
  }

  /** `y << k` and `x >> k`. */
  function Shl(y: nat, k: nat): nat {
    if k == 0 then y else 2 * Shl(y, k - 1)
  }

  function Shr(x: nat, k: nat): nat
    decreases k
  {
    if k == 0 then x else Shr(x / 2, k - 1)
  }

  lemma {:induction false} ShiftTwice(x: nat, j: nat, k: nat)
    ensures Shr(x, j + k) == Shr(Shr(x, j), k)
    ensures Shl(x, j + k) == Shl(Shl(x, j), k)
    decreases j + k
  {
    if j > 0 { ShiftTwice(x / 2, j - 1, k); }
    if k > 0 { ShiftTwice(x, j, k - 1); }
  }

  lemma DivTwice(x: nat)
    ensures x / 256 / 16 == x / 4096
    ensures x / 256 / 256 == x / 65536
    ensures x / 65536 / 256 == x / 0x100_0000
  {
  }

  lemma ShiftNibble(x: nat)
    ensures Shr(x, 4) == x / 16 && Shl(x, 4) == 16 * x
  {
    assert Shr(x, 4) == Shr(x / 2, 3);
    assert Shr(x / 2, 3) == Shr(x / 2 / 2, 2);
    assert Shr(x / 2 / 2, 2) == Shr(x / 2 / 2 / 2, 1);
    assert Shl(x, 1) == 2 * x;
    assert Shl(x, 3) == 2 * Shl(x, 2);
  }

  lemma ShiftByte(x: nat)
    ensures Shr(x, 8) == x / 256 && Shl(x, 8) == 256 * x
  {
    ShiftNibble(x);
    ShiftNibble(x / 16);
    ShiftNibble(16 * x);
    ShiftTwice(x, 4, 4);
  }

  lemma ShiftPage(x: nat)
    ensures Shr(x, 12) == x / 4096 && Shl(x, 12) == 4096 * x
  {
    ShiftByte(x);
    ShiftNibble(x / 256);
    ShiftNibble(256 * x);
    ShiftTwice(x, 8, 4);
    DivTwice(x);
  }

  lemma ShiftBytes(x: nat)
    ensures Shr(x, 16) == x / 65536 && Shr(x, 24) == x / 0x100_0000
  {
    ShiftByte(x);
    ShiftByte(x / 256);
    ShiftTwice(x, 8, 8);
    DivTwice(x);
    ShiftByte(x / 65536);
    ShiftTwice(x, 16, 8);
  }

  /** A mask whose low k bits are clear acts on the high part alone. */
  lemma {:induction false} AndHigh(x: nat, y: nat, k: nat)
    ensures And(x, Shl(y, k)) == Shl(And(Shr(x, k), y), k)
    decreases k
  {
    hide And;
    if k > 0 {
      AndHigh(x / 2, y, k - 1);
      AndStep(x, Shl(y, k), Shl(y, k - 1));
    }
  }

  lemma AndStep(x: nat, y: nat, m: nat)
    requires y == 2 * m
    ensures And(x, y) == 2 * And(x / 2, m)
  {
    assert y / 2 == m && y % 2 == 0;
  }

  /** Low bits or-ed into a value keep its high part. */
  lemma {:induction false} OrLow(h: nat, a: nat, b: nat, k: nat)
    requires a < Pow2(k) && b < Pow2(k)
    ensures Or(a, b) < Pow2(k)
    ensures Or(Shl(h, k) + a, b) == Shl(h, k) + Or(a, b)
    decreases k
  {
    if k == 0 {
      OrNone(h, a, b);
    } else {
      var g, p := Shl(h, k - 1), Pow2(k - 1);
      ShlStep(h, k);
      hide *;
      OrLow(h, a / 2, b / 2, k - 1);
      OrLowBit(Shl(h, k), g, a, b, Pow2(k), p);
    }
  }

  lemma OrNone(h: nat, a: nat, b: nat)
    requires a < Pow2(0) && b < Pow2(0)
    ensures Or(a, b) < Pow2(0) && Or(Shl(h, 0) + a, b) == Shl(h, 0) + Or(a, b)
  {
    assert a == 0 && b == 0;
    OrZero(h);
  }

  lemma ShlStep(h: nat, k: nat)
    requires k > 0
    ensures Shl(h, k) == 2 * Shl(h, k - 1) && Pow2(k) == 2 * Pow2(k - 1)
  {
  }

  lemma OrLowBit(x: nat, g: nat, a: nat, b: nat, q: nat, p: nat)
    requires x == 2 * g && q == 2 * p
    requires Or(a / 2, b / 2) < p && Or(g + a / 2, b / 2) == g + Or(a / 2, b / 2)
    ensures Or(a, b) < q && Or(x + a, b) == x + Or(a, b)
  {
    hide Or;
    OrStep(x, g, a, b);
    OrStep(0, 0, a, b);
  }

  /** One bit of `|`. */
  lemma OrStep(x: nat, g: nat, a: nat, b: nat)
    requires x == 2 * g
    ensures Or(x + a, b) == 2 * Or(g + a / 2, b / 2) + (if a % 2 + b % 2 == 0 then 0 else 1)
  {
    assert (x + a) / 2 == g + a / 2 && (x + a) % 2 == a % 2;
  }

  lemma {:induction false} OrZero(x: nat)
    ensures Or(x, 0) == x
  {
    if x != 0 { OrZero(x / 2); }
  }

  lemma Pow2Values()
    ensures Pow2(4) == 16 && Pow2(8) == 256 && Pow2(12) == 4096 && Pow2(16) == 65536
    ensures Pow2(20) == 0x10_0000
  {
    assert Pow2(4) == 16;
    assert Pow2(8) == 256;
    assert Pow2(12) == 4096;
    assert Pow2(16) == 65536;
  }

  // --- the masks the kernel uses ------------------------------------------

  /** `x & 0xfffff000`: the address part of a page entry. */
  function PageBase(x: Word): (r: Word)
    ensures r % PAGE == 0 && r <= x < r + PAGE
  {
    x - x % PAGE
  }

  /** PAGE_ALIGN: `(x + 4095) & ~4095` in 32-bit arithmetic. */
  function AlignUp(x: Word): (r: Word)
    ensures r % PAGE == 0
    ensures x <= WORD - PAGE ==> x <= r < x + PAGE
  {
    PageBase((x + PAGE - 1) % WORD)
  }

  lemma MaskIsPageBase(x: Word)
    ensures And(x, 0xffff_f000) == PageBase(x)
  {
    ShiftPage(x);
    ShiftPage(0xf_ffff);
    AndHigh(x, 0xf_ffff, 12);
    LowTwenty(x / PAGE);
    ShiftPage(x / PAGE);
  }

  lemma LowTwenty(h: nat)
    requires h < 0x10_0000
    ensures And(h, 0xf_ffff) == h
  {
    hide And;
    Pow2Values();
    AndLowOnes(h, 20);
  }

  lemma MaskIsPageOffset(x: Word)
    ensures And(x, 0xfff) == x % PAGE
  {
    Pow2Values();
    AndLowOnes(x, 12);
  }

  lemma MaskIsAlignUp(x: Word)
    ensures And((x + 4095) % WORD, 0xffff_f000) == AlignUp(x)
  {
    MaskIsPageBase((x + 4095) % WORD);
  }

  /** Flags or-ed into a page-aligned address are added to it. */
  lemma OrIsFlags(base: Word, flags: nat, more: nat)
    requires base % PAGE == 0 && flags < PAGE && more < PAGE
    ensures Or(base, flags) == base + flags
    ensures Or(flags, more) < PAGE
    ensures Or(base + flags, more) == base + Or(flags, more)
  {
    OrZeroLeft(flags);
    hide Or;
    OrPageOffset(base / PAGE, 0, flags);
    OrPageOffset(base / PAGE, flags, more);
  }

  lemma OrZeroLeft(x: nat)
    ensures Or(0, x) == x
  {
  }

  lemma OrPageOffset(h: nat, a: nat, b: nat)
    requires a < PAGE && b < PAGE
    ensures Or(a, b) < PAGE
    ensures Or(4096 * h + a, b) == 4096 * h + Or(a, b)
  {
    Pow2Values();
    ShiftPage(h);
    OrLow(h, a, b, 12);
  }

  /** A single-bit test reads that binary digit. */
  lemma {:induction false} AndBit(x: nat, k: nat)
    ensures And(x, Shl(1, k)) == Shl(Shr(x, k) % 2, k)
  {
    AndHigh(x, 1, k);
    AndZero(Shr(x, k) / 2);
  }
}
