/**
 * Fetch geometry of the i.MX DPU fetch units: the x-offset correction of the
 * buffer address, the burst size chosen for erratum TKT343664, the stride
 * fixup for erratum TKT339017 and the y-offset correction that uses it.
 *
 * Every C integer type is written out: `unsigned int` values are `u32` and
 * wrap modulo 2^32, `dma_addr_t` values are `u64` (arm64) and wrap modulo
 * 2^64. The functions compute what the C expressions compute, wrap-around
 * included; the lemmas that give exact values say when nothing wraps.
 */
module FetchGeometry {

  const U32: nat := 0x1_0000_0000
  const U64: nat := 0x1_0000_0000_0000_0000

  /** C `unsigned int`. */
  type u32 = x: nat | x < 0x1_0000_0000
  /** C `dma_addr_t` on a 64-bit platform. */
  type u64 = x: nat | x < 0x1_0000_0000_0000_0000

  /** `min(a, b)`. */
  function Min(a: nat, b: nat): (m: nat)
  {
    if a <= b then a else b
  }

  /** 2^k, the value of `1 << k`. */
  function Pow2(k: nat): (r: nat)
    ensures r >= 1
  {
    if k == 0 then 1 else 2 * Pow2(k - 1)
  }

  /** 2^(a+b) == 2^a * 2^b. */
  lemma {:induction false} Pow2Add(a: nat, b: nat)
    ensures Pow2(a + b) == Pow2(a) * Pow2(b)
    decreases b
  {
    if b > 0 {
      Pow2Add(a, b - 1);
      assert Pow2(a + b) == 2 * (Pow2(a) * Pow2(b - 1)) == Pow2(a) * (2 * Pow2(b - 1));
    }
  }

  /** The powers of two that size a register and its half-words. */
  lemma Pow2Constants()
    ensures Pow2(8) == 0x100 && Pow2(16) == 0x10000 && Pow2(32) == U32
  {
    assert Pow2(8) == 0x100;
    Pow2Add(8, 8);
    Pow2Add(16, 16);
  }

  // ---------------------------------------------------------------------
  // Division facts used below
  // ---------------------------------------------------------------------

  lemma MulAtLeast(k: int, d: int)
    requires k >= 1 && d >= 0
    ensures k * d >= d
  {
    var t := k - 1;
    assert k * d == t * d + d;
    assert t * d >= 0;
  }

  /** Quotient and remainder are the only such pair. */
  lemma DivModUnique(x: nat, d: nat, q: nat, s: nat)
    requires 0 <= s < d && x == q * d + s
    ensures x / d == q && x % d == s
  {
    var q', s' := x / d, x % d;
    assert x == q' * d + s';
    if q' < q {
      MulAtLeast(q - q', d);
    } else if q < q' {
      MulAtLeast(q' - q, d);
    }
  }

  lemma MulNonnegative(a: nat, b: nat)
    ensures a * b >= 0
  {
  }

  lemma ZeroMod(m: nat)
    requires m > 0
    ensures 0 % m == 0
  {
    DivModUnique(0, m, 0, 0);
  }

  lemma SmallMod(x: nat, m: nat)
    requires x < m
    ensures x % m == x
  {
    DivModUnique(x, m, 0, x);
  }

  /** Reducing modulo a multiple of m first does not change the remainder mod m. */
  lemma ModOfMod(a: nat, m: nat, k: nat)
    requires m > 0 && k > 0
    ensures (a % (m * k)) % m == a % m
  {
    var q, s := a / (m * k), a % (m * k);
    var t, u := s / m, s % m;
    assert a == q * (m * k) + s;
    assert s == t * m + u;
    MulRegroup(q, k, t, m);
    DivModUnique(a, m, q * k + t, u);
  }

  lemma MulRegroup(q: nat, k: nat, t: nat, m: nat)
    ensures q * (m * k) + t * m == (q * k + t) * m
  {
  }

  lemma MulStrictMono(a: nat, b: nat, p: nat)
    requires a < b && p > 0
    ensures a * p < b * p
  {
    MulAtLeast(b - a, p);
    assert b * p == a * p + (b - a) * p;
  }

  /** Halving an even number halves the quotient by an even divisor. */
  lemma HalveDivMod(x: nat, m: nat)
    requires x % 2 == 0 && m > 0
    ensures x / (2 * m) == (x / 2) / m
    ensures x % (2 * m) == 2 * ((x / 2) % m)
  {
    var h := x / 2;
    var q, s := h / m, h % m;
    assert h == q * m + s;
    assert x == q * (2 * m) + 2 * s;
    DivModUnique(x, 2 * m, q, 2 * s);
  }

  /** Dividing by 2p is halving, then dividing by p; the remainder splits the same way. */
  lemma HalfMod(x: nat, p: nat)
    requires p > 0
    ensures x / (2 * p) == (x / 2) / p
    ensures x % (2 * p) == 2 * ((x / 2) % p) + x % 2
  {
    var h := x / 2;
    var q, s := h / p, h % p;
    assert h == q * p + s;
    assert x == 2 * h + x % 2;
    assert x == q * (2 * p) + (2 * s + x % 2);
    DivModUnique(x, 2 * p, q, 2 * s + x % 2);
  }

  /** An odd number is not a multiple of any even number. */
  lemma OddNotMultipleOfEven(x: nat, m: nat)
    requires x % 2 == 1 && m > 0
    ensures x % (2 * m) != 0
  {
    if x % (2 * m) == 0 {
      var q := x / (2 * m);
      assert x == 2 * (q * m);
      DivModUnique(x, 2, q * m, 0);
      assert false;
    }
  }

  /** The remainders modulo the burst sizes (and twice them) survive truncation to 32 or 64 bits. */
  lemma ModWord(a: nat, m: nat)
    requires m in {8, 16, 32, 64, 128, 256}
    ensures (a % U32) % m == a % m
    ensures (a % U64) % m == a % m
  {
    var k := U32 / m;
    assert m * k == U32;
    ModOfMod(a, m, k);
    assert m * (k * U32) == U64;
    ModOfMod(a, m, k * U32);
  }

  // ---------------------------------------------------------------------
  // ffs, round_up and the burst size
  // ---------------------------------------------------------------------

  /**
   * The kernel's `ffs(x)`: one plus the index of the least significant set
   * bit of x, and 0 when x is 0.
   */
  function Ffs(x: nat): (r: nat)
    ensures r == 0 <==> x == 0
    ensures r > 0 ==> x % Pow2(r - 1) == 0 && (x / Pow2(r - 1)) % 2 == 1
  {
    if x == 0 then 0
    else if x % 2 == 1 then 1
    else
      var r' := Ffs(x / 2);
      HalveDivMod(x, Pow2(r' - 1));
      1 + r'
  }

  /** 2^j divides a nonzero x exactly when ffs(x) is beyond j. */
  lemma {:induction false} Pow2DividesIff(x: nat, j: nat)
    requires x > 0
    ensures x % Pow2(j) == 0 <==> Ffs(x) > j
    decreases j
  {
    if j > 0 {
      var m := Pow2(j - 1);
      if x % 2 == 1 {
        OddNotMultipleOfEven(x, m);
      } else {
        HalveDivMod(x, m);
        Pow2DividesIff(x / 2, j - 1);
      }
    }
  }

  /**
   * The kernel's `round_up(x, y)`: the least multiple of y that is not
   * below x (the kernel defines it for power-of-two y only, and every use
   * here passes one).
   */
  function RoundUp(x: nat, y: nat): (r: nat)
    requires y > 0
    ensures r % y == 0 && x <= r < x + y
  {
    var q := (x + y - 1) / y;
    DivModUnique(q * y, y, q, 0);
    q * y
  }

  /**
   * Burst size in bytes for a fetch from `addr` (erratum TKT343664): the
   * lowest set bit of the address as `ffs` sees it (truncated to 32 bits),
   * rounded up to 8 and capped at 128. The requires excludes `ffs` == 0,
   * for which `1 << (ffs(baddr) - 1)` is undefined.
   */
  function BurstSize(addr: u64): (r: nat)
    requires addr % U32 != 0
    ensures r in {8, 16, 32, 64, 128}
  {
    var f := Ffs(addr % U32);
    var lowest := Pow2(f - 1);
    CappedBurstInRange(f);
    Min(RoundUp(lowest, 8), 128)
  }

  /** `min(round_up(1 << k, 8), 128)` is one of the five burst sizes. */
  lemma CappedBurstInRange(f: nat)
    requires f >= 1
    ensures Min(RoundUp(Pow2(f - 1), 8), 128) in {8, 16, 32, 64, 128}
  {
    var lowest := Pow2(f - 1);
    assert Pow2(3) == 8;
    if f <= 3 {
      assert lowest == 1 || lowest == 2 || lowest == 4;
    } else {
      DivisorOfPow2(f - 1, 3);
      if f - 1 >= 7 {
        Pow2Monotone(7, f - 1);
      } else {
        assert lowest in {8, 16, 32, 64};
      }
    }
  }

  /** For i <= j, 2^i divides 2^j. */
  lemma {:induction false} DivisorOfPow2(j: nat, i: nat)
    requires i <= j
    ensures Pow2(j) % Pow2(i) == 0
    decreases j
  {
    if i < j {
      DivisorOfPow2(j - 1, i);
      var p := Pow2(i);
      var q := Pow2(j - 1) / p;
      assert Pow2(j - 1) == q * p;
      assert Pow2(j) == 2 * (q * p) == (2 * q) * p;
      DivModUnique(Pow2(j), p, 2 * q, 0);
    } else {
      DivModUnique(Pow2(j), Pow2(j), 1, 0);
    }
  }

  lemma {:induction false} Pow2Monotone(i: nat, j: nat)
    requires i <= j
    ensures Pow2(i) <= Pow2(j)
    decreases j
  {
    if i < j {
      Pow2Monotone(i, j - 1);
    }
  }

  /**
   * `min(round_up(1 << (f - 1), 8), 128)` is 2^j with j = f - 1 clamped to
   * the range 3 to 7.
   */
  lemma CappedBurstAsPow2(f: nat) returns (j: nat)
    requires f >= 1
    ensures 3 <= j <= 7 && Min(RoundUp(Pow2(f - 1), 8), 128) == Pow2(j)
    ensures f <= 4 ==> j == 3
    ensures 4 <= f <= 8 ==> j == f - 1
    ensures f >= 8 ==> j == 7
    ensures j < 7 ==> f <= j + 1
    ensures f > 3 ==> j < f
  {
    var lowest := Pow2(f - 1);
    var r := RoundUp(lowest, 8);
    assert Pow2(3) == 8 && Pow2(7) == 128 && Pow2(8) == 256;
    if f <= 3 {
      assert lowest == 1 || lowest == 2 || lowest == 4;
      assert r == 8;
      j := 3;
    } else if f <= 8 {
      DivisorOfPow2(f - 1, 3);
      assert r == lowest;
      Pow2Monotone(f - 1, 7);
      j := f - 1;
    } else {
      Pow2Monotone(8, f - 1);
      j := 7;
    }
  }

  /** The burst size is 2^j for the lowest set bit f of the address, j = f - 1 clamped to 3 to 7. */
  lemma BurstSizeAsPow2(addr: u64) returns (j: nat)
    requires addr % U32 != 0
    ensures 3 <= j <= 7 && BurstSize(addr) == Pow2(j)
    ensures Ffs(addr % U32) <= 4 ==> j == 3
    ensures 4 <= Ffs(addr % U32) <= 8 ==> j == Ffs(addr % U32) - 1
    ensures Ffs(addr % U32) >= 8 ==> j == 7
    ensures j < 7 ==> Ffs(addr % U32) <= j + 1
    ensures Ffs(addr % U32) > 3 ==> j < Ffs(addr % U32)
    ensures BurstSize(addr) < 128 ==> j < 7
  {
    j := CappedBurstAsPow2(Ffs(addr % U32));
    assert Pow2(7) == 128;
  }

  /** Truncation to 32 bits keeps the remainder modulo 2^k for k from 3 to 8. */
  lemma ModWordPow2(a: nat, k: nat)
    requires 3 <= k <= 8
    ensures (a % U32) % Pow2(k) == a % Pow2(k)
  {
    assert Pow2(3) == 8;
    if k == 3 { ModWord(a, 8); }
    else if k == 4 { ModWord(a, 16); }
    else if k == 5 { ModWord(a, 32); }
    else if k == 6 { ModWord(a, 64); }
    else if k == 7 { ModWord(a, 128); }
    else { ModWord(a, 256); }
  }

  /**
   * The burst size divides an 8-byte aligned address; for an address that
   * is not 8-byte aligned it is the minimum, 8.
   */
  lemma BurstSizeAligned(addr: u64)
    requires addr % U32 != 0
    ensures addr % 8 == 0 ==> addr % BurstSize(addr) == 0
    ensures addr % 8 != 0 ==> BurstSize(addr) == 8
  {
    var x := addr % U32;
    var j := BurstSizeAsPow2(addr);
    ModWordPow2(addr, 3);
    Pow2DividesIff(x, 3);
    if addr % 8 == 0 {
      Pow2DividesIff(x, j);
      ModWordPow2(addr, j);
    }
  }

  /**
   * Below the 128-byte cap, twice the burst size does not divide the
   * address. For an 8-byte aligned address, where the burst size divides it
   * (`BurstSizeAligned`), the burst size is then the largest power of two
   * dividing the address.
   */
  lemma BurstSizeMaximal(addr: u64)
    requires addr % U32 != 0
    ensures BurstSize(addr) < 128 ==> addr % (2 * BurstSize(addr)) != 0
  {
    var j := BurstSizeAsPow2(addr);
    if j < 7 {
      NotDivisibleAboveFfs(addr, j);
    }
  }

  /** 2^(j+1) does not divide an address whose `ffs` (of its low 32 bits) is at most j + 1. */
  lemma NotDivisibleAboveFfs(addr: u64, j: nat)
    requires addr % U32 != 0 && 3 <= j < 7
    requires Ffs(addr % U32) <= j + 1
    ensures addr % (2 * Pow2(j)) != 0
  {
    assert Pow2(j + 1) == 2 * Pow2(j);
    Pow2DividesIff(addr % U32, j + 1);
    ModWordPow2(addr, j + 1);
  }

  // ---------------------------------------------------------------------
  // Address and stride corrections
  // ---------------------------------------------------------------------

  /**
   * PRG x-offset correction, `baddr += (x_offset % mt_w) * (bpp / 8)` when
   * the tile width `mt_w` is nonzero; the product is an `unsigned int` and
   * the sum a `dma_addr_t`.
   */
  function XAdjust(baddr: u64, xOffset: u32, mtW: u32, bpp: nat): (r: u64)
    ensures mtW == 0 || xOffset % mtW == 0 ==> r == baddr
    ensures xOffset == 0 ==> r == baddr
  {
    if mtW == 0 then baddr
    else
      var dx := ((xOffset % mtW) * (bpp / 8)) % U32;
      assert xOffset == 0 ==> xOffset % mtW == 0 by { ZeroMod(mtW); }
      (baddr + dx) % U64
  }

  /**
   * For at least 8 bits per pixel, when nothing wraps, the x correction
   * moves the address forward by a whole number of pixels and stays within
   * one tile row.
   */
  lemma XAdjustWithinTileRow(baddr: u64, xOffset: u32, mtW: u32, bpp: nat)
    requires mtW != 0 && bpp >= 8
    requires mtW * (bpp / 8) <= U32 && baddr + mtW * (bpp / 8) <= U64
    ensures baddr <= XAdjust(baddr, xOffset, mtW, bpp) < baddr + mtW * (bpp / 8)
    ensures (XAdjust(baddr, xOffset, mtW, bpp) - baddr) % (bpp / 8) == 0
  {
    var k, p := xOffset % mtW, bpp / 8;
    MulStrictMono(k, mtW, p);
    XAdjustExact(baddr, xOffset, mtW, bpp);
    DivModUnique(k * p, p, k, 0);
  }

  /** `round_up(baddr % 8, 8)`: 0 for an 8-byte aligned address, 8 otherwise. */
  function AlignPad(addr: u64): (r: nat)
    ensures r == if addr % 8 == 0 then 0 else 8
  {
    RoundUp(addr % 8, 8)
  }

  /** `width * (bpp >> 3)`, the line length in bytes as an `unsigned int`. */
  function LineBytes(width: u32, bpp: nat): (r: u32)
  {
    (width * (bpp / 8)) % U32
  }

  /** A line that fits an `unsigned int` is exactly width times bytes per pixel long. */
  lemma LineBytesExact(width: u32, bpp: nat)
    requires width * (bpp / 8) < U32
    ensures LineBytes(width, bpp) == width * (bpp / 8)
  {
    SmallMod(width * (bpp / 8), U32);
  }

  /**
   * Stride of a tiled buffer fetched at (x-corrected) address `addr`, after
   * the TKT339017 fixup `round_up(stride + round_up(baddr % 8, 8),
   * burst_size)`: the sum and the rounding happen in `dma_addr_t`, the
   * result is stored in an `unsigned int`.
   */
  function TiledStride(width: u32, bpp: nat, addr: u64): (r: u32)
    requires addr % U32 != 0
    ensures r % BurstSize(addr) == 0
  {
    var b := BurstSize(addr);
    var rounded := RoundUp(LineBytes(width, bpp) + AlignPad(addr), b);
    ModWord(rounded, b);
    rounded % U32
  }

  /**
   * When a line is short enough that nothing wraps, the fixed-up stride
   * covers the line plus the alignment padding and exceeds it by less than
   * one burst.
   */
  lemma TiledStrideBounds(width: u32, bpp: nat, addr: u64)
    requires addr % U32 != 0
    requires width * (bpp / 8) + 136 <= U32
    ensures var need := width * (bpp / 8) + AlignPad(addr);
      need <= TiledStride(width, bpp, addr) < need + BurstSize(addr)
  {
    var n := width * (bpp / 8);
    SmallMod(n, U32);
    RoundUpNoWrap(n + AlignPad(addr), BurstSize(addr));
  }

  /** Rounding up to `b` without leaving 32 bits: the `unsigned int` result is the rounded value. */
  lemma RoundUpNoWrap(x: nat, b: nat)
    requires 0 < b && x + b <= U32
    ensures x <= RoundUp(x, b) % U32 < x + b
  {
    SmallMod(RoundUp(x, b), U32);
  }

  /**
   * Stride written by `fetchunit_set_src_stride` when prefetch is in use:
   * the tiled fixup when `mt_w` is nonzero, otherwise the line length
   * rounded up to the burst size; the burst size is taken from the
   * x-corrected address.
   */
  function PrefetchStride(width: u32, xOffset: u32, mtW: u32, bpp: nat, baddr: u64): (r: u32)
    requires XAdjust(baddr, xOffset, mtW, bpp) % U32 != 0
    ensures r % BurstSize(XAdjust(baddr, xOffset, mtW, bpp)) == 0
  {
    var addr := XAdjust(baddr, xOffset, mtW, bpp);
    if mtW != 0 then TiledStride(width, bpp, addr)
    else
      var b := BurstSize(addr);
      var rounded := RoundUp(LineBytes(width, bpp), b);
      ModWord(rounded, b);
      rounded % U32
  }

  /** Without tiling and without wrap-around, the prefetch stride is the line rounded up to one burst. */
  lemma UntiledPrefetchStrideBounds(width: u32, bpp: nat, baddr: u64)
    requires baddr % U32 != 0
    requires width * (bpp / 8) + 128 <= U32
    ensures var need := width * (bpp / 8);
      need <= PrefetchStride(width, 0, 0, bpp, baddr) < need + BurstSize(baddr)
  {
    var n := width * (bpp / 8);
    SmallMod(n, U32);
    RoundUpNoWrap(n, BurstSize(baddr));
  }

  /** Stride field value of `fetchunit_set_src_stride`: the caller's stride unless prefetch is in use. */
  function SourceStride(width: u32, xOffset: u32, mtW: u32, bpp: nat, stride: u32,
                        baddr: u64, usePrefetch: bool): (r: u32)
    requires usePrefetch ==> XAdjust(baddr, xOffset, mtW, bpp) % U32 != 0
    ensures !usePrefetch ==> r == stride
    ensures usePrefetch ==> r % BurstSize(XAdjust(baddr, xOffset, mtW, bpp)) == 0
  {
    if usePrefetch then PrefetchStride(width, xOffset, mtW, bpp, baddr) else stride
  }

  /** Burst length field value of `fetchunit_set_burstlength`, in units of 8 bytes. */
  function BurstLength(xOffset: u32, mtW: u32, bpp: nat, baddr: u64, usePrefetch: bool): (r: nat)
    requires usePrefetch ==> XAdjust(baddr, xOffset, mtW, bpp) % U32 != 0
    ensures r in {1, 2, 4, 8, 16}
    ensures !usePrefetch ==> r == 16
    ensures usePrefetch ==> r * 8 == BurstSize(XAdjust(baddr, xOffset, mtW, bpp))
  {
    if usePrefetch then BurstSize(XAdjust(baddr, xOffset, mtW, bpp)) / 8 else 16
  }

  /**
   * With prefetch in use, the stride programmed by `fetchunit_set_src_stride`
   * is a whole number of the bursts programmed by `fetchunit_set_burstlength`
   * for the same buffer.
   */
  lemma StrideIsWholeBursts(width: u32, xOffset: u32, mtW: u32, bpp: nat, stride: u32, baddr: u64)
    requires XAdjust(baddr, xOffset, mtW, bpp) % U32 != 0
    ensures SourceStride(width, xOffset, mtW, bpp, stride, baddr, true)
              % (8 * BurstLength(xOffset, mtW, bpp, baddr, true)) == 0
  {
  }

  /**
   * PRG y-offset correction, `baddr += lines * stride`: an `unsigned int`
   * product added to a `dma_addr_t`.
   */
  function MoveDown(addr: u64, lines: nat, stride: u32): (r: u64)
    ensures lines == 0 ==> r == addr
  {
    (addr + (lines * stride) % U32) % U64
  }

  /**
   * Address written by `fetchunit_set_baseaddress`: unchanged without tiling;
   * with tiling, x-corrected, then moved down `y_offset % mt_h` lines of the
   * fixed-up stride.
   */
  function TiledBaseAddress(baddr: u64, width: u32, xOffset: u32, yOffset: u32,
                            mtW: u32, mtH: u32, bpp: nat): (r: u64)
    requires mtW != 0 ==> mtH > 0 && XAdjust(baddr, xOffset, mtW, bpp) % U32 != 0
    ensures mtW == 0 ==> r == baddr
    ensures xOffset == 0 && yOffset == 0 ==> r == baddr
  {
    if mtW == 0 then baddr
    else
      var addr := XAdjust(baddr, xOffset, mtW, bpp);
      var lines := yOffset % mtH;
      assert yOffset == 0 ==> lines == 0 by { ZeroMod(mtH); }
      MoveDown(addr, lines, TiledStride(width, bpp, addr))
  }

  /**
   * With tiling, the address written is the x-corrected address `addr`
   * moved down `y_offset % mt_h` lines of the fixed-up stride for `addr`.
   */
  lemma TiledBaseAddressUnfold(baddr: u64, width: u32, xOffset: u32, yOffset: u32,
                               mtW: u32, mtH: u32, bpp: nat, addr: u64, stride: u32)
    requires mtW != 0 && mtH > 0
    requires addr == XAdjust(baddr, xOffset, mtW, bpp) && addr % U32 != 0
    requires stride == TiledStride(width, bpp, addr)
    ensures TiledBaseAddress(baddr, width, xOffset, yOffset, mtW, mtH, bpp)
              == MoveDown(addr, yOffset % mtH, stride)
  {
  }

  /**
   * The y correction moves by whole fixed-up strides, so the address written
   * keeps the burst alignment of the x-corrected address.
   */
  lemma TiledBaseAddressAligned(baddr: u64, width: u32, xOffset: u32, yOffset: u32,
                                mtW: u32, mtH: u32, bpp: nat)
    requires mtW != 0 && mtH > 0 && XAdjust(baddr, xOffset, mtW, bpp) % U32 != 0
    ensures var addr := XAdjust(baddr, xOffset, mtW, bpp);
      TiledBaseAddress(baddr, width, xOffset, yOffset, mtW, mtH, bpp) % BurstSize(addr)
        == addr % BurstSize(addr)
  {
    var addr := XAdjust(baddr, xOffset, mtW, bpp);
    var stride := TiledStride(width, bpp, addr);
    var lines := yOffset % mtH;
    var b := BurstSize(addr);
    assert TiledBaseAddress(baddr, width, xOffset, yOffset, mtW, mtH, bpp) == MoveDown(addr, lines, stride);
    LinesKeepAlignment(addr, lines, stride, b);
  }

  /** A multiple of m stays one after any multiplication. */
  lemma MultipleTimes(lines: nat, stride: nat, m: nat)
    requires m > 0 && stride % m == 0
    ensures (lines * stride) % m == 0
  {
    var q := stride / m;
    assert stride == q * m;
    assert lines * stride == (lines * q) * m;
    DivModUnique(lines * stride, m, lines * q, 0);
  }

  /** Adding a multiple of m does not change the remainder mod m. */
  lemma AddMultiple(addr: nat, down: nat, m: nat)
    requires m > 0 && down % m == 0
    ensures (addr + down) % m == addr % m
  {
    var d := down / m;
    assert down == d * m;
    assert addr + down == (addr / m + d) * m + addr % m;
    DivModUnique(addr + down, m, addr / m + d, addr % m);
  }

  /** Moving by whole strides (each a multiple of the burst) keeps the burst alignment, even through wrap-around. */
  lemma LinesKeepAlignment(addr: u64, lines: nat, stride: u32, b: nat)
    requires b in {8, 16, 32, 64, 128} && stride % b == 0
    ensures MoveDown(addr, lines, stride) % b == addr % b
  {
    var down := WrappedProductMultiple(lines, stride, b);
    WrappedAddKeepsMod(addr, down, b);
  }

  /** `lines * stride` as an `unsigned int` is still a multiple of `b` when `stride` is. */
  lemma WrappedProductMultiple(lines: nat, stride: nat, b: nat) returns (down: nat)
    requires b in {8, 16, 32, 64, 128} && stride % b == 0
    ensures down == (lines * stride) % U32 && down % b == 0
  {
    var p := lines * stride;
    MultipleTimes(lines, stride, b);
    ModWord(p, b);
    down := p % U32;
  }

  /** Adding a multiple of `b` in `dma_addr_t` keeps the remainder mod `b`. */
  lemma WrappedAddKeepsMod(addr: nat, down: nat, b: nat)
    requires b in {8, 16, 32, 64, 128} && down % b == 0
    ensures ((addr + down) % U64) % b == addr % b
  {
    AddMultiple(addr, down, b);
    ModWord(addr + down, b);
  }

  /**
   * Exact value of the tiled base address when nothing wraps: the x and y
   * corrections are added to the caller's address, the stride used for y
   * covers a whole line and is a multiple of the burst size.
   */
  lemma TiledBaseAddressExact(baddr: u64, width: u32, xOffset: u32, yOffset: u32,
                              mtW: u32, mtH: u32, bpp: nat)
    requires mtW != 0 && mtH > 0
    requires XAdjust(baddr, xOffset, mtW, bpp) % U32 != 0
    requires (xOffset % mtW) * (bpp / 8) < U32
    requires width * (bpp / 8) + 136 <= U32
    requires (yOffset % mtH) * TiledStride(width, bpp, XAdjust(baddr, xOffset, mtW, bpp)) < U32
    requires baddr + (xOffset % mtW) * (bpp / 8)
             + (yOffset % mtH) * TiledStride(width, bpp, XAdjust(baddr, xOffset, mtW, bpp)) < U64
    ensures TiledBaseAddress(baddr, width, xOffset, yOffset, mtW, mtH, bpp)
              == baddr + (xOffset % mtW) * (bpp / 8)
                 + (yOffset % mtH) * TiledStride(width, bpp, XAdjust(baddr, xOffset, mtW, bpp))
    ensures width * (bpp / 8) <= TiledStride(width, bpp, XAdjust(baddr, xOffset, mtW, bpp))
  {
    var addr := XAdjust(baddr, xOffset, mtW, bpp);
    var stride := TiledStride(width, bpp, addr);
    var lines := yOffset % mtH;
    assert TiledBaseAddress(baddr, width, xOffset, yOffset, mtW, mtH, bpp) == MoveDown(addr, lines, stride);
    MulNonnegative(lines, stride);
    XAdjustExact(baddr, xOffset, mtW, bpp);
    MoveDownExact(addr, lines, stride);
    TiledStrideBounds(width, bpp, addr);
  }

  /** Without wrap-around the x correction is plain addition. */
  lemma XAdjustExact(baddr: u64, xOffset: u32, mtW: u32, bpp: nat)
    requires mtW != 0
    requires (xOffset % mtW) * (bpp / 8) < U32
    requires baddr + (xOffset % mtW) * (bpp / 8) < U64
    ensures XAdjust(baddr, xOffset, mtW, bpp) == baddr + (xOffset % mtW) * (bpp / 8)
  {
    var dx := (xOffset % mtW) * (bpp / 8);
    SmallMod(dx, U32);
    SmallMod(baddr + dx, U64);
  }

  /** Without wrap-around the y correction is plain addition. */
  lemma MoveDownExact(addr: u64, lines: nat, stride: u32)
    requires lines * stride < U32
    requires addr + lines * stride < U64
    ensures MoveDown(addr, lines, stride) == addr + lines * stride
  {
    var dy := lines * stride;
    SmallMod(dy, U32);
    SmallMod(addr + dy, U64);
  }

  /**
   * A worked case: a 64-pixel, 32-bpp line in 16x16 tiles at 0x1000, viewed
   * from pixel (20, 20). The x correction adds 4 pixels (16 bytes) and the
   * address 0x1010 gives 16-byte bursts, that is a burst length of 2.
   */
  lemma WorkedExampleFfs()
    ensures Ffs(0x1010) == 5
  {
    assert Ffs(0x101) == 1;
    assert Ffs(0x202) == 2;
    assert Ffs(0x404) == 3;
    assert Ffs(0x808) == 4;
  }

  lemma WorkedExampleBurst()
    ensures XAdjust(0x1000, 20, 16, 32) == 0x1010
    ensures BurstSize(0x1010) == 16
    ensures BurstLength(20, 16, 32, 0x1000, true) == 2
  {
    assert XAdjust(0x1000, 20, 16, 32) == 0x1010;
    WorkedExampleFfs();
    assert Pow2(4) == 16;
    assert RoundUp(16, 8) == 16;
  }

  /** In the worked case the y correction adds 4 lines of the 256-byte stride. */
  lemma WorkedExampleAddress()
    ensures TiledBaseAddress(0x1000, 64, 20, 20, 16, 16, 32) == 0x1410
  {
    WorkedExampleBurst();
    WorkedExampleStride();
    TiledBaseAddressUnfold(0x1000, 64, 20, 20, 16, 16, 32, 0x1010, 256);
    assert MoveDown(0x1010, 20 % 16, 256) == 0x1410;
  }

  /** In the worked case the fixed-up stride stays 256 bytes, one 64-pixel line. */
  lemma WorkedExampleStride()
    ensures TiledStride(64, 32, 0x1010) == 256
  {
    WorkedExampleBurst();
    assert AlignPad(0x1010) == 0;
    assert LineBytes(64, 32) == 256;
    assert RoundUp(256, 16) == 256;
  }

  /** The stride `fetchunit_set_src_stride` programs in the worked case is the same 256 bytes. */
  lemma WorkedExamplePrefetchStride()
    ensures PrefetchStride(64, 20, 16, 32, 0x1000) == 256
  {
    WorkedExampleBurst();
    WorkedExampleStride();
    assert PrefetchStride(64, 20, 16, 32, 0x1000) == TiledStride(64, 32, XAdjust(0x1000, 20, 16, 32));
  }
}
