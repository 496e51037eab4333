/**
 * One fetch unit: its register window, seen as a map from byte offsets to
 * 32-bit register values, and its soft state (the display stream it feeds,
 * the pin-off flag and the bound prefetch companion). Each register
 * operation is one read-modify-write of one register; the per-unit mutex
 * that serializes them in the driver is left out, so each method is atomic.
 */
module FetchUnits {
  import opened FetchGeometry
  import opened DpuRegisters

  /** The four fetch-unit variants that share this register interface. */
  datatype FuType = FetchDecode | FetchEco | FetchLayer | FetchWarp

  /** The prefetch companion a unit may be bound to; only its identity matters here. */
  class Dprc {
    constructor ()
    {
    }
  }

  /**
   * The PRG x-offset correction the three address-dependent operations
   * share: `baddr += (x_offset % mt_w) * (bpp / 8)` when `mt_w` is nonzero.
   */
  method ApplyXOffset(baddr: u64, xOffset: u32, mtW: u32, bpp: nat) returns (addr: u64)
    ensures addr == XAdjust(baddr, xOffset, mtW, bpp)
    ensures mtW == 0 ==> addr == baddr
  {
    addr := baddr;
    if mtW != 0 {
      addr := (addr + ((xOffset % mtW) * (bpp / 8)) % U32) % U64;
    }
  }

  /** The PRG y-offset correction of a tiled buffer: `baddr += (y_offset % mt_h) * stride`. */
  method ApplyYOffset(addr: u64, yOffset: u32, mtH: u32, stride: u32) returns (r: u64)
    requires mtH > 0
    ensures r == MoveDown(addr, yOffset % mtH, stride)
  {
    r := (addr + ((yOffset % mtH) * stride) % U32) % U64;
  }

  /**
   * The burst-size computation `fetchunit_set_burstlength`,
   * `fetchunit_set_baseaddress` and `fetchunit_set_src_stride` each repeat:
   * `1 << (ffs(baddr) - 1)`, rounded up to 8 and capped at 128.
   */
  method ComputeBurstSize(addr: u64) returns (burstSize: nat)
    requires addr % U32 != 0
    ensures burstSize == BurstSize(addr)
    ensures addr % 8 == 0 ==> addr % burstSize == 0
  {
    burstSize := Pow2(Ffs(addr % U32) - 1);
    burstSize := RoundUp(burstSize, 8);
    burstSize := Min(burstSize, 128);
    BurstSizeAligned(addr);
  }

  /**
   * The TKT339017 stride fixup for a tiled buffer at `addr`, given the
   * burst size computed for it.
   */
  method ComputeTiledStride(width: u32, bpp: nat, addr: u64, burstSize: nat) returns (stride: u32)
    requires addr % U32 != 0 && burstSize == BurstSize(addr)
    ensures stride == TiledStride(width, bpp, addr)
    ensures stride % burstSize == 0
  {
    stride := (width * (bpp / 8)) % U32;
    stride := RoundUp(stride + RoundUp(addr % 8, 8), burstSize) % U32;
  }

  /** The burst length `fetchunit_set_burstlength` programs, in units of 8 bytes. */
  method ComputeBurstLength(xOffset: u32, mtW: u32, bpp: nat, baddr: u64, usePrefetch: bool)
    returns (burstLength: nat)
    requires usePrefetch ==> XAdjust(baddr, xOffset, mtW, bpp) % U32 != 0
    ensures burstLength == BurstLength(xOffset, mtW, bpp, baddr, usePrefetch)
    ensures 1 <= burstLength <= 16
  {
    if usePrefetch {
      var addr := ApplyXOffset(baddr, xOffset, mtW, bpp);
      var burstSize := ComputeBurstSize(addr);
      burstLength := burstSize / 8;
    } else {
      burstLength := 16;
    }
  }

  /**
   * The address `fetchunit_set_baseaddress` writes: without tiling the
   * buffer address itself; with tiling, the x correction, the stride fixup
   * for the burst size of the x-corrected address, and the y correction by
   * `y_offset % mt_h` lines of that stride.
   */
  method ComputeBaseAddress(width: u32, xOffset: u32, yOffset: u32, mtW: u32, mtH: u32,
                            bpp: nat, baddr: u64) returns (addr: u64)
    requires mtW != 0 ==> mtH > 0 && XAdjust(baddr, xOffset, mtW, bpp) % U32 != 0
    ensures addr == TiledBaseAddress(baddr, width, xOffset, yOffset, mtW, mtH, bpp)
    ensures mtW == 0 ==> addr == baddr
  {
    if mtW == 0 {
      return baddr;
    }
    var xa := ApplyXOffset(baddr, xOffset, mtW, bpp);
    var burstSize := ComputeBurstSize(xa);
    var stride := ComputeTiledStride(width, bpp, xa, burstSize);
    addr := ApplyYOffset(xa, yOffset, mtH, stride);
    assert TiledBaseAddress(baddr, width, xOffset, yOffset, mtW, mtH, bpp) == addr;
  }

  /** The stride `fetchunit_set_src_stride` programs. */
  method ComputeSrcStride(width: u32, xOffset: u32, mtW: u32, bpp: nat, stride: u32,
                          baddr: u64, usePrefetch: bool) returns (s: u32)
    requires usePrefetch ==> XAdjust(baddr, xOffset, mtW, bpp) % U32 != 0
    ensures s == SourceStride(width, xOffset, mtW, bpp, stride, baddr, usePrefetch)
    ensures !usePrefetch ==> s == stride
  {
    s := stride;
    if usePrefetch {
      var addr := ApplyXOffset(baddr, xOffset, mtW, bpp);
      var burstSize := ComputeBurstSize(addr);
      if mtW != 0 {
        s := ComputeTiledStride(width, bpp, addr, burstSize);
      } else {
        s := (width * (bpp / 8)) % U32;
        s := RoundUp(s, burstSize) % U32;
      }
    }
  }

  class FetchUnit {
    const hdr: Layout
    const kind: FuType
    const subId: nat
    var regs: map<nat, Word>
    var streamId: nat
    var pinOff: bool
    var dprc: Dprc?

    /** The registers the unit uses exist, and the stream id is one the unit accepts. */
    ghost predicate Valid()
      reads this
    {
      && hdr.Wf()
      && hdr.staticControl in regs
      && hdr.burstBufferManagement in regs
      && (forall reg: SubReg :: Offset(reg, subId) in regs)
      && hdr.planeSrc.Accepts(streamId)
    }

    /** A unit as the owning device creates it: not routed to a stream, not pinned off, unbound. */
    constructor (hdr: Layout, kind: FuType, subId: nat, regs: map<nat, Word>)
      requires hdr.Wf() && hdr.EncodersFit()
      requires hdr.staticControl in regs && hdr.burstBufferManagement in regs
      requires forall reg: SubReg :: Offset(reg, subId) in regs
      ensures Valid()
      ensures this.hdr == hdr && this.kind == kind && this.subId == subId && this.regs == regs
      ensures streamId == hdr.planeSrc.disabled && !pinOff && dprc == null
    {
      this.hdr := hdr;
      this.kind := kind;
      this.subId := subId;
      this.regs := regs;
      streamId := hdr.planeSrc.disabled;
      pinOff := false;
      dprc := null;
    }

    /** Whether shadow loading is enabled (the SHDEN bit of STATICCONTROL). */
    ghost predicate ShadowEnabled()
      reads this
      requires Valid()
    {
      hdr.shden in regs[hdr.staticControl]
    }

    /** `fetchunit_shden`: set or clear the SHDEN bit of STATICCONTROL. */
    method Shden(enable: bool)
      requires Valid()
      modifies this`regs
      ensures Valid()
      ensures regs == old(regs)[hdr.staticControl :=
        if enable then SetBits(old(regs)[hdr.staticControl], Bit(hdr.shden))
        else ClearBits(old(regs)[hdr.staticControl], Bit(hdr.shden))]
      ensures ShadowEnabled() == enable
      ensures old(ShadowEnabled()) == enable ==> regs == old(regs)
      ensures regs[hdr.staticControl] - Bit(hdr.shden) == old(regs)[hdr.staticControl] - Bit(hdr.shden)
    {
      var val := regs[hdr.staticControl];
      if enable {
        if hdr.shden in val { SetBitsUnchanged(val, Bit(hdr.shden)); }
        val := SetBits(val, Bit(hdr.shden));
      } else {
        if hdr.shden !in val { ClearBitsUnchanged(val, Bit(hdr.shden)); }
        val := ClearBits(val, Bit(hdr.shden));
      }
      regs := regs[hdr.staticControl := val];
    }

    /** `fetchunit_baddr_autoupdate`: replace the BASEADDRESSAUTOUPDATE field of STATICCONTROL. */
    method BaddrAutoupdate(layerMask: u8)
      requires Valid() && hdr.EncodersFit()
      modifies this`regs
      ensures Valid()
      ensures regs == old(regs)[hdr.staticControl := ReplaceField(old(regs)[hdr.staticControl],
        hdr.baseAddressAutoUpdateMask, hdr.baseAddressAutoUpdate(layerMask))]
      ensures regs[hdr.staticControl] * hdr.baseAddressAutoUpdateMask == hdr.baseAddressAutoUpdate(layerMask)
      ensures regs[hdr.staticControl] - hdr.baseAddressAutoUpdateMask
              == old(regs)[hdr.staticControl] - hdr.baseAddressAutoUpdateMask
      ensures (old(regs)[hdr.staticControl] * hdr.baseAddressAutoUpdateMask
               == hdr.baseAddressAutoUpdate(layerMask)) ==> regs == old(regs)
    {
      var val := regs[hdr.staticControl];
      if val * hdr.baseAddressAutoUpdateMask == hdr.baseAddressAutoUpdate(layerMask) {
        ReplaceFieldUnchanged(val, hdr.baseAddressAutoUpdateMask, hdr.baseAddressAutoUpdate(layerMask));
      }
      val := ReplaceField(val, hdr.baseAddressAutoUpdateMask, hdr.baseAddressAutoUpdate(layerMask));
      regs := regs[hdr.staticControl := val];
    }

    /** `fetchunit_shdldreq_sticky`: replace the SHDLDREQSTICKY field of STATICCONTROL. */
    method ShdldreqSticky(layerMask: u8)
      requires Valid() && hdr.EncodersFit()
      modifies this`regs
      ensures Valid()
      ensures regs == old(regs)[hdr.staticControl := ReplaceField(old(regs)[hdr.staticControl],
        hdr.shdLdReqStickyMask, hdr.shdLdReqSticky(layerMask))]
      ensures regs[hdr.staticControl] * hdr.shdLdReqStickyMask == hdr.shdLdReqSticky(layerMask)
      ensures regs[hdr.staticControl] - hdr.shdLdReqStickyMask
              == old(regs)[hdr.staticControl] - hdr.shdLdReqStickyMask
      ensures (old(regs)[hdr.staticControl] * hdr.shdLdReqStickyMask
               == hdr.shdLdReqSticky(layerMask)) ==> regs == old(regs)
    {
      var val := regs[hdr.staticControl];
      if val * hdr.shdLdReqStickyMask == hdr.shdLdReqSticky(layerMask) {
        ReplaceFieldUnchanged(val, hdr.shdLdReqStickyMask, hdr.shdLdReqSticky(layerMask));
      }
      val := ReplaceField(val, hdr.shdLdReqStickyMask, hdr.shdLdReqSticky(layerMask));
      regs := regs[hdr.staticControl := val];
    }

    /**
     * `fetchunit_set_burstlength`: derive the burst length from the
     * (x-corrected) address when prefetch is in use, 16 otherwise, and
     * write it into the SETBURSTLENGTH field of BURSTBUFFERMANAGEMENT.
     */
    method SetBurstLength(xOffset: u32, mtW: u32, bpp: nat, baddr: u64, usePrefetch: bool)
      requires Valid() && hdr.EncodersFit()
      requires usePrefetch ==> XAdjust(baddr, xOffset, mtW, bpp) % U32 != 0
      modifies this`regs
      ensures Valid()
      ensures regs == old(regs)[hdr.burstBufferManagement := ReplaceField(
        old(regs)[hdr.burstBufferManagement], hdr.setBurstLengthMask,
        hdr.setBurstLength(BurstLength(xOffset, mtW, bpp, baddr, usePrefetch)))]
      ensures !usePrefetch ==>
        regs[hdr.burstBufferManagement] * hdr.setBurstLengthMask == hdr.setBurstLength(16)
      ensures regs[hdr.burstBufferManagement] - hdr.setBurstLengthMask
              == old(regs)[hdr.burstBufferManagement] - hdr.setBurstLengthMask
    {
      var burstLength := ComputeBurstLength(xOffset, mtW, bpp, baddr, usePrefetch);
      var val := regs[hdr.burstBufferManagement];
      val := ReplaceField(val, hdr.setBurstLengthMask, hdr.setBurstLength(burstLength));
      regs := regs[hdr.burstBufferManagement := val];
    }

    /**
     * `fetchunit_set_baseaddress`: apply the tiling corrections and write the
     * low 32 bits of the result into BASEADDRESS of this sub-unit.
     */
    method SetBaseAddress(width: u32, xOffset: u32, yOffset: u32, mtW: u32, mtH: u32,
                          bpp: nat, baddr: u64)
      requires Valid()
      requires mtW != 0 ==> mtH > 0 && XAdjust(baddr, xOffset, mtW, bpp) % U32 != 0
      modifies this`regs
      ensures Valid()
      ensures regs == old(regs)[Offset(BaseAddress, subId) :=
        Low32(TiledBaseAddress(baddr, width, xOffset, yOffset, mtW, mtH, bpp))]
      ensures mtW == 0 ==> regs[Offset(BaseAddress, subId)] == Low32(baddr)
    {
      var addr := ComputeBaseAddress(width, xOffset, yOffset, mtW, mtH, bpp, baddr);
      regs := regs[Offset(BaseAddress, subId) := Low32(addr)];
    }

    /** `fetchunit_set_src_bpp`: replace the bits-per-pixel field (0x3f0000) of SOURCEBUFFERATTRIBUTES. */
    method SetSrcBpp(bpp: nat)
      requires Valid() && hdr.EncodersFit()
      modifies this`regs
      ensures Valid()
      ensures var sba := Offset(SourceBufferAttributes, subId);
        regs == old(regs)[sba := ReplaceField(old(regs)[sba], BppMask(), hdr.bitsPerPixel(bpp))]
      ensures var sba := Offset(SourceBufferAttributes, subId);
        && regs[sba] * BppMask() == hdr.bitsPerPixel(bpp)
        && regs[sba] - BppMask() == old(regs)[sba] - BppMask()
    {
      var sba := Offset(SourceBufferAttributes, subId);
      var val := regs[sba];
      val := ReplaceField(val, BppMask(), hdr.bitsPerPixel(bpp));
      regs := regs[sba := val];
    }

    /**
     * `fetchunit_set_src_stride`: with prefetch, recompute the stride from the
     * line width and the burst size; write it into the stride field (0xffff) of
     * SOURCEBUFFERATTRIBUTES.
     */
    method SetSrcStride(width: u32, xOffset: u32, mtW: u32, bpp: nat, stride: u32,
                        baddr: u64, usePrefetch: bool)
      requires Valid() && hdr.EncodersFit()
      requires usePrefetch ==> XAdjust(baddr, xOffset, mtW, bpp) % U32 != 0
      modifies this`regs
      ensures Valid()
      ensures var sba := Offset(SourceBufferAttributes, subId);
        regs == old(regs)[sba := ReplaceField(old(regs)[sba], StrideMask(),
          hdr.stride(SourceStride(width, xOffset, mtW, bpp, stride, baddr, usePrefetch)))]
      ensures var sba := Offset(SourceBufferAttributes, subId);
        && (!usePrefetch ==> regs[sba] * StrideMask() == hdr.stride(stride))
        && regs[sba] - StrideMask() == old(regs)[sba] - StrideMask()
    {
      var s := ComputeSrcStride(width, xOffset, mtW, bpp, stride, baddr, usePrefetch);
      var sba := Offset(SourceBufferAttributes, subId);
      var val := regs[sba];
      val := ReplaceField(val, StrideMask(), hdr.stride(s));
      regs := regs[sba := val];
    }

    /** `fetchunit_is_enabled`: whether the SOURCEBUFFERENABLE bit of LAYERPROPERTY is set. */
    predicate IsEnabled()
      reads this
      requires Valid()
      ensures IsEnabled() <==> regs[Offset(LayerProperty, subId)] * Bit(hdr.sourceBufferEnable) != {}
    {
      hdr.sourceBufferEnable in regs[Offset(LayerProperty, subId)]
    }

    /** `fetchunit_enable_src_buf`: set SOURCEBUFFERENABLE in LAYERPROPERTY. */
    method EnableSrcBuf()
      requires Valid()
      modifies this`regs
      ensures Valid()
      ensures var lp := Offset(LayerProperty, subId);
        regs == old(regs)[lp := SetBits(old(regs)[lp], Bit(hdr.sourceBufferEnable))]
      ensures IsEnabled()
      ensures old(IsEnabled()) ==> regs == old(regs)
    {
      var lp := Offset(LayerProperty, subId);
      var val := regs[lp];
      if hdr.sourceBufferEnable in val { SetBitsUnchanged(val, Bit(hdr.sourceBufferEnable)); }
      val := SetBits(val, Bit(hdr.sourceBufferEnable));
      regs := regs[lp := val];
    }

    /** `fetchunit_disable_src_buf`: clear SOURCEBUFFERENABLE in LAYERPROPERTY. */
    method DisableSrcBuf()
      requires Valid()
      modifies this`regs
      ensures Valid()
      ensures var lp := Offset(LayerProperty, subId);
        regs == old(regs)[lp := ClearBits(old(regs)[lp], Bit(hdr.sourceBufferEnable))]
      ensures !IsEnabled()
      ensures !old(IsEnabled()) ==> regs == old(regs)
    {
      var lp := Offset(LayerProperty, subId);
      var val := regs[lp];
      if hdr.sourceBufferEnable !in val { ClearBitsUnchanged(val, Bit(hdr.sourceBufferEnable)); }
      val := ClearBits(val, Bit(hdr.sourceBufferEnable));
      regs := regs[lp := val];
    }
  }

  /** `fetchunit_get_dprc`: bind the unit to its prefetch companion; a null unit is ignored. */
  method GetDprc(fu: FetchUnit?, data: Dprc?)
    modifies fu
    ensures fu != null ==> fu.dprc == data
    ensures fu != null ==> fu.regs == old(fu.regs) && fu.streamId == old(fu.streamId)
                           && fu.pinOff == old(fu.pinOff)
  {
    if fu == null {
      return;
    }
    fu.dprc := data;
  }

  /**
   * `fetchunit_get_stream_id`: the stored stream id, or DISABLED for a null
   * unit. `planeSrc` holds the driver-wide `DPU_PLANE_SRC_*` values, the
   * same ones a unit checks against.
   */
  function GetStreamId(fu: FetchUnit?, planeSrc: PlaneSrc): (id: nat)
    reads fu
    requires planeSrc.Wf()
    requires fu != null ==> fu.Valid() && fu.hdr.planeSrc == planeSrc
    ensures planeSrc.Accepts(id)
    ensures fu == null ==> id == planeSrc.disabled
    ensures fu != null ==> id == fu.streamId
  {
    if fu == null then planeSrc.disabled else fu.streamId
  }

  /**
   * `fetchunit_set_stream_id`: store `id` if it is STREAM0, STREAM1 or
   * DISABLED; any other id, or a null unit, changes nothing.
   */
  method SetStreamId(fu: FetchUnit?, id: nat)
    requires fu != null ==> fu.Valid()
    modifies fu
    ensures fu != null ==> fu.Valid()
    ensures fu != null ==> fu.streamId == if fu.hdr.planeSrc.Accepts(id) then id else old(fu.streamId)
    ensures fu != null ==> fu.regs == old(fu.regs) && fu.pinOff == old(fu.pinOff) && fu.dprc == old(fu.dprc)
  {
    if fu == null {
      return;
    }
    var src := fu.hdr.planeSrc;
    if id == src.toDispStream0 || id == src.toDispStream1 || id == src.disabled {
      fu.streamId := id;
    }
  }

  /** `fetchunit_is_pinned_off`: the pin-off flag; false for a null unit. */
  predicate IsPinnedOff(fu: FetchUnit?)
    reads fu
  {
    fu != null && fu.pinOff
  }

  /** `fetchunit_pin_off`: mark the unit pinned off. */
  method PinOff(fu: FetchUnit?)
    modifies fu
    ensures fu != null ==> IsPinnedOff(fu)
    ensures fu != null ==> fu.regs == old(fu.regs) && fu.streamId == old(fu.streamId) && fu.dprc == old(fu.dprc)
  {
    if fu == null {
      return;
    }
    fu.pinOff := true;
  }

  /** `fetchunit_unpin_off`: clear the pin-off mark. */
  method UnpinOff(fu: FetchUnit?)
    modifies fu
    ensures !IsPinnedOff(fu)
    ensures fu != null ==> fu.regs == old(fu.regs) && fu.streamId == old(fu.streamId) && fu.dprc == old(fu.dprc)
  {
    if fu == null {
      return;
    }
    fu.pinOff := false;
  }

  /** `fetchunit_is_fetchdecode`. */
  predicate IsFetchDecode(fu: FetchUnit?)
  {
    fu != null && fu.kind == FetchDecode
  }

  /** `fetchunit_is_fetcheco`. */
  predicate IsFetchEco(fu: FetchUnit?)
  {
    fu != null && fu.kind == FetchEco
  }

  /** `fetchunit_is_fetchlayer`. */
  predicate IsFetchLayer(fu: FetchUnit?)
  {
    fu != null && fu.kind == FetchLayer
  }

  /** `fetchunit_is_fetchwarp`. */
  predicate IsFetchWarp(fu: FetchUnit?)
  {
    fu != null && fu.kind == FetchWarp
  }

  /**
   * The worked case of the fetch geometry (a 64-pixel, 32-bpp line in 16x16
   * tiles at 0x1000, viewed from (20, 20)): BASEADDRESS receives 0x1410,
   * the bits 4, 10 and 12.
   */
  lemma WorkedExampleRegister()
    ensures Low32(TiledBaseAddress(0x1000, 64, 20, 20, 16, 16, 32)) == {4, 10, 12}
  {
    WorkedExampleAddress();
    BitsFromZero(13);
    assert BitsFrom(0x1, 12) == {12};
    assert BitsFrom(0x2, 11) == {12};
    assert BitsFrom(0x5, 10) == {10, 12};
    assert BitsFrom(0xa, 9) == {10, 12};
    assert BitsFrom(0x14, 8) == {10, 12};
    assert BitsFrom(0x28, 7) == {10, 12};
    assert BitsFrom(0x50, 6) == {10, 12};
    assert BitsFrom(0xa0, 5) == {10, 12};
    assert BitsFrom(0x141, 4) == {4, 10, 12};
    assert BitsFrom(0x282, 3) == {4, 10, 12};
    assert BitsFrom(0x504, 2) == {4, 10, 12};
    assert BitsFrom(0xa08, 1) == {4, 10, 12};
    assert BitsFrom(0x1410, 0) == {4, 10, 12};
  }

  /** A unit is exactly one of the four variants; a null unit is none of them. */
  lemma ExactlyOneVariant(fu: FetchUnit?)
    ensures fu == null ==> !IsFetchDecode(fu) && !IsFetchEco(fu) && !IsFetchLayer(fu) && !IsFetchWarp(fu)
    ensures fu != null ==>
      (if IsFetchDecode(fu) then 1 else 0) + (if IsFetchEco(fu) then 1 else 0)
      + (if IsFetchLayer(fu) then 1 else 0) + (if IsFetchWarp(fu) then 1 else 0) == 1
  {
  }
}
