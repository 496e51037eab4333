/**
 * Register layout of a fetch unit: the per-sub-unit register offsets
 * (0x28 bytes per sub-unit), the read-modify-write bit operations the
 * driver applies to a 32-bit register, and the header definitions the
 * driver relies on without this model seeing their values.
 *
 * A 32-bit register value is modelled as the set of positions of its one
 * bits, so `val | bits` is a union, `val & ~bits` a difference and a mask
 * test an intersection.
 */
module DpuRegisters {
  import opened FetchGeometry

  /**
   * A 32-bit register value: the positions of its one bits. Values built
   * from `Bit`, `Field` and the encoders stay below position 32.
   */
  type Word = set<nat>

  /** An unsigned 8-bit value, as the driver's `u8` layer masks. */
  type u8 = x: nat | x < 0x100

  /** The single bit at position `i` (`BIT(i)`). */
  function Bit(i: nat): (w: Word)
    requires i < 32
    ensures i in w && |w| == 1
  {
    {i}
  }

  /** The contiguous mask of bits `lo` to `hi - 1` (`GENMASK(hi - 1, lo)`). */
  function Field(lo: nat, hi: nat): (w: Word)
    requires lo <= hi <= 32
    ensures forall i :: i in w <==> lo <= i < hi
    decreases hi - lo
  {
    if lo == hi then {} else {lo} + Field(lo + 1, hi)
  }

  /** Bit k of the binary representation of x, `(x >> k) & 1`. */
  predicate BitOf(x: nat, k: nat)
  {
    (x / Pow2(k)) % 2 == 1
  }

  /** Bit k of x is bit k - 1 of x / 2. */
  lemma BitOfHalf(x: nat, k: nat)
    requires k > 0
    ensures BitOf(x, k) == BitOf(x / 2, k - 1)
  {
    HalfMod(x, Pow2(k - 1));
  }

  /**
   * The bits of `x` placed at positions `from` to 31: position `from + k`
   * holds bit k of x.
   */
  function BitsFrom(x: nat, from: nat): (w: Word)
    requires from <= 32
    ensures forall i :: i in w ==> from <= i < 32
    decreases 32 - from
  {
    if from == 32 then {}
    else (if x % 2 == 1 then {from} else {}) + BitsFrom(x / 2, from + 1)
  }

  /** Position `from + k` of `BitsFrom(x, from)` is set exactly when bit k of x is one. */
  lemma {:induction false} BitsFromBits(x: nat, from: nat)
    requires from <= 32
    ensures forall i :: i in BitsFrom(x, from) <==> from <= i < 32 && BitOf(x, i - from)
    decreases 32 - from
  {
    if from < 32 {
      BitsFromBits(x / 2, from + 1);
      forall k: nat | 0 < k
        ensures BitOf(x, k) == BitOf(x / 2, k - 1)
      {
        BitOfHalf(x, k);
      }
    }
  }

  /**
   * The value a 32-bit register receives for `x`: the one bits of x below
   * position 32, so `x` truncated to `u32`.
   */
  function Low32(x: nat): (w: Word)
  {
    BitsFrom(x, 0)
  }

  /** Bit i of a register written with `x` is bit i of x, for i below 32, and no other bit is set. */
  lemma Low32Bits(x: nat)
    ensures forall i :: i in Low32(x) <==> i < 32 && BitOf(x, i)
  {
    BitsFromBits(x, 0);
  }

  /** Only the low 32 - from bits of x matter. */
  lemma {:induction false} BitsFromMod(x: nat, from: nat)
    requires from <= 32
    ensures BitsFrom(x % Pow2(32 - from), from) == BitsFrom(x, from)
    decreases 32 - from
  {
    if from == 32 {
      DivModUnique(x, 1, x, 0);
    } else {
      var p := Pow2(31 - from);
      assert Pow2(32 - from) == 2 * p;
      HalfMod(x, p);
      var y := x % (2 * p);
      DivModUnique(y, 2, (x / 2) % p, x % 2);
      BitsFromMod(x / 2, from + 1);
    }
  }

  /** Equal bit sets come from values that agree in their low 32 - from bits. */
  lemma {:induction false} BitsFromInjective(a: nat, b: nat, from: nat)
    requires from <= 32 && BitsFrom(a, from) == BitsFrom(b, from)
    ensures a % Pow2(32 - from) == b % Pow2(32 - from)
    decreases 32 - from
  {
    if from == 32 {
      DivModUnique(a, 1, a, 0);
      DivModUnique(b, 1, b, 0);
    } else {
      var p := Pow2(31 - from);
      assert Pow2(32 - from) == 2 * p;
      var wa, wb := BitsFrom(a, from), BitsFrom(b, from);
      var ra, rb := BitsFrom(a / 2, from + 1), BitsFrom(b / 2, from + 1);
      assert (from in wa) == (a % 2 == 1) && (from in wb) == (b % 2 == 1);
      assert ra == wa - {from} && rb == wb - {from};
      BitsFromInjective(a / 2, b / 2, from + 1);
      HalfMod(a, p);
      HalfMod(b, p);
    }
  }

  /** The register receives the same bits for x and for x truncated to 32 bits. */
  lemma Low32Truncates(x: nat)
    ensures Low32(x % U32) == Low32(x)
  {
    Pow2Constants();
    BitsFromMod(x, 0);
  }

  /** Two values give the same register contents exactly when they agree modulo 2^32. */
  lemma Low32Injective(a: nat, b: nat)
    ensures Low32(a) == Low32(b) <==> a % U32 == b % U32
  {
    Pow2Constants();
    if Low32(a) == Low32(b) {
      BitsFromInjective(a, b, 0);
    }
    if a % U32 == b % U32 {
      Low32Truncates(a);
      Low32Truncates(b);
    }
  }

  lemma {:induction false} BitsFromZero(from: nat)
    requires from <= 32
    ensures BitsFrom(0, from) == {}
    decreases 32 - from
  {
    if from < 32 {
      BitsFromZero(from + 1);
    }
  }

  /** 2^n - 1 placed at `from` is the mask of bits `from` to `from + n - 1`. */
  lemma {:induction false} BitsFromOnes(n: nat, from: nat)
    requires from + n <= 32
    ensures BitsFrom(Pow2(n) - 1, from) == Field(from, from + n)
    decreases n
  {
    if n == 0 {
      BitsFromZero(from);
    } else {
      var m := Pow2(n - 1);
      var x := Pow2(n) - 1;
      assert x == 2 * (m - 1) + 1;
      DivModUnique(x, 2, m - 1, 1);
      assert BitsFrom(x, from) == {from} + BitsFrom(m - 1, from + 1);
      BitsFromOnes(n - 1, from + 1);
      assert Field(from, from + n) == {from} + Field(from + 1, from + n);
    }
  }

  /** Multiplying by 2^m moves every bit up by m positions. */
  lemma {:induction false} BitsFromShift(x: nat, m: nat, from: nat)
    requires from + m <= 32
    ensures BitsFrom(x * Pow2(m), from) == BitsFrom(x, from + m)
    decreases m
  {
    if m > 0 {
      var y := x * Pow2(m - 1);
      assert x * Pow2(m) == 2 * y;
      DivModUnique(2 * y, 2, y, 0);
      BitsFromShift(x, m - 1, from + 1);
    }
  }

  /** The ten registers every fetch sub-unit has, in address order. */
  datatype SubReg =
    | BaseAddress
    | SourceBufferAttributes
    | SourceBufferDimension
    | ColorComponentBits
    | ColorComponentShift
    | LayerOffset
    | ClipWindowOffset
    | ClipWindowDimensions
    | ConstantColor
    | LayerProperty

  /** Bytes between the register blocks of consecutive sub-units. */
  const SubUnitStride: nat := 0x28

  /** Byte offset of register `reg` of sub-unit `n` in the fetch unit's window. */
  function Offset(reg: SubReg, n: nat): (off: nat)
    ensures 0x10 + n * SubUnitStride <= off <= 0x34 + n * SubUnitStride
    ensures off % 4 == 0
  {
    match reg
    case BaseAddress => 0x10 + n * 0x28
    case SourceBufferAttributes => 0x14 + n * 0x28
    case SourceBufferDimension => 0x18 + n * 0x28
    case ColorComponentBits => 0x1C + n * 0x28
    case ColorComponentShift => 0x20 + n * 0x28
    case LayerOffset => 0x24 + n * 0x28
    case ClipWindowOffset => 0x28 + n * 0x28
    case ClipWindowDimensions => 0x2C + n * 0x28
    case ConstantColor => 0x30 + n * 0x28
    case LayerProperty => 0x34 + n * 0x28
  }

  /**
   * No two (register, sub-unit) pairs share an offset: each macro is
   * injective in the sub-unit and the blocks of distinct sub-units are
   * disjoint, since a block spans 0x24 bytes and they are 0x28 apart.
   */
  lemma OffsetInjective(r1: SubReg, n1: nat, r2: SubReg, n2: nat)
    requires Offset(r1, n1) == Offset(r2, n2)
    ensures r1 == r2 && n1 == n2
  {
  }

  /** `val | bits`: the bits are set, every other bit is kept. */
  function SetBits(val: Word, bits: Word): (r: Word)
    ensures bits <= r
    ensures r - bits == val - bits
  {
    val + bits
  }

  /** `val & ~bits`: the bits are cleared, every other bit is kept. */
  function ClearBits(val: Word, bits: Word): (r: Word)
    ensures r * bits == {}
    ensures r - bits == val - bits
  {
    val - bits
  }

  /**
   * `(val & ~mask) | field`: when the encoded field fits its mask, the
   * result holds exactly `field` under the mask and `val` everywhere else.
   */
  function ReplaceField(val: Word, mask: Word, field: Word): (r: Word)
    ensures field <= mask ==> r * mask == field && r - mask == val - mask
  {
    (val - mask) + field
  }

  /** Of two writes to the same field, only the last one is seen. */
  lemma {:induction false} ReplaceFieldLastWins(val: Word, mask: Word, f1: Word, f2: Word)
    requires f1 <= mask
    ensures ReplaceField(ReplaceField(val, mask, f1), mask, f2) == ReplaceField(val, mask, f2)
  {
    var once := ReplaceField(val, mask, f1);
    assert once - mask == val - mask;
  }

  /** Replacing a field is idempotent. */
  lemma ReplaceFieldIdempotent(val: Word, mask: Word, field: Word)
    requires field <= mask
    ensures ReplaceField(ReplaceField(val, mask, field), mask, field) == ReplaceField(val, mask, field)
  {
    ReplaceFieldLastWins(val, mask, field, field);
  }

  /** Writing a field back with the value it already holds leaves the register as it is. */
  lemma ReplaceFieldUnchanged(val: Word, mask: Word, field: Word)
    requires val * mask == field
    ensures ReplaceField(val, mask, field) == val
  {
    assert forall i :: i in val ==> i in (val - mask) + field;
  }

  /** Setting bits that are already set changes nothing. */
  lemma SetBitsUnchanged(val: Word, bits: Word)
    requires bits <= val
    ensures SetBits(val, bits) == val
  {
  }

  /** Clearing bits that are already clear changes nothing. */
  lemma ClearBitsUnchanged(val: Word, bits: Word)
    requires val * bits == {}
    ensures ClearBits(val, bits) == val
  {
    forall i | i in val
      ensures i in val - bits
    {
      assert i !in val * bits;
    }
  }

  /** A set after a clear of the same bits is the set alone, and the other way round. */
  lemma SetClearLastWins(val: Word, bits: Word)
    ensures SetBits(ClearBits(val, bits), bits) == SetBits(val, bits)
    ensures ClearBits(SetBits(val, bits), bits) == ClearBits(val, bits)
  {
  }

  /** The `DPU_PLANE_SRC_*` stream identifiers. */
  datatype PlaneSrc = PlaneSrc(toDispStream0: nat, toDispStream1: nat, disabled: nat)
  {
    predicate Wf()
    {
      toDispStream0 != toDispStream1 && toDispStream0 != disabled && toDispStream1 != disabled
    }

    /** The identifiers `fetchunit_set_stream_id` accepts. */
    predicate Accepts(id: nat)
    {
      id == toDispStream0 || id == toDispStream1 || id == disabled
    }
  }

  /**
   * The definitions the driver takes from its private header: the offsets
   * of the unit-wide STATICCONTROL and BURSTBUFFERMANAGEMENT registers, the
   * positions of the SHDEN and SOURCEBUFFERENABLE bits, the field masks and
   * the encoders that place a value into its field.
   */
  datatype Layout = Layout(
    staticControl: nat,
    burstBufferManagement: nat,
    shden: nat,
    baseAddressAutoUpdateMask: Word,
    baseAddressAutoUpdate: u8 -> Word,
    shdLdReqStickyMask: Word,
    shdLdReqSticky: u8 -> Word,
    setBurstLengthMask: Word,
    setBurstLength: nat -> Word,
    bitsPerPixel: nat -> Word,
    stride: nat -> Word,
    sourceBufferEnable: nat,
    planeSrc: PlaneSrc)
  {
    /**
     * What the driver relies on of the register layout: the unit-wide
     * registers are distinct and lie below the first sub-unit block, SHDEN
     * and SOURCEBUFFERENABLE are bits of a 32-bit register, and the three
     * stream identifiers are distinct.
     */
    predicate Wf()
    {
      && staticControl != burstBufferManagement
      && staticControl < 0x10 && burstBufferManagement < 0x10
      && shden < 32 && sourceBufferEnable < 32
      && planeSrc.Wf()
    }

    /**
     * Every encoder stays within the mask the driver clears before writing
     * it (0x3f0000 for bits per pixel, 0xffff for the stride), and the
     * three header masks are fields of a 32-bit register.
     */
    ghost predicate EncodersFit()
    {
      && (forall i :: i in baseAddressAutoUpdateMask ==> i < 32)
      && (forall i :: i in shdLdReqStickyMask ==> i < 32)
      && (forall i :: i in setBurstLengthMask ==> i < 32)
      && (forall m: u8 :: baseAddressAutoUpdate(m) <= baseAddressAutoUpdateMask)
      && (forall m: u8 :: shdLdReqSticky(m) <= shdLdReqStickyMask)
      && (forall n: nat :: setBurstLength(n) <= setBurstLengthMask)
      && (forall n: nat :: bitsPerPixel(n) <= BppMask())
      && (forall n: nat :: stride(n) <= StrideMask())
    }
  }

  /** The bits-per-pixel field of SOURCEBUFFERATTRIBUTES, 0x3f0000. */
  function BppMask(): (w: Word) { Field(16, 22) }

  /** The stride field of SOURCEBUFFERATTRIBUTES, 0xffff. */
  function StrideMask(): (w: Word) { Field(0, 16) }

  /** `BppMask` is the bit set of the literal 0x3f0000, bits 16 to 21. */
  lemma BppMaskLiteral()
    ensures Low32(0x3f0000) == BppMask()
  {
    Pow2Constants();
    assert Pow2(6) == 64;
    assert 0x3f0000 == (Pow2(6) - 1) * Pow2(16);
    BitsFromShift(Pow2(6) - 1, 16, 0);
    BitsFromOnes(6, 16);
  }

  /** `StrideMask` is the bit set of the literal 0xffff, bits 0 to 15. */
  lemma StrideMaskLiteral()
    ensures Low32(0xffff) == StrideMask()
  {
    Pow2Constants();
    BitsFromOnes(16, 0);
  }

  /** The unit-wide registers are never a sub-unit register. */
  lemma GlobalRegistersApart(hdr: Layout, reg: SubReg, n: nat)
    requires hdr.Wf()
    ensures Offset(reg, n) != hdr.staticControl
    ensures Offset(reg, n) != hdr.burstBufferManagement
  {
  }
}
