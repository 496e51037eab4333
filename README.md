# i.MX DPU fetch-unit controller, modelled in Dafny

This project models the fetch-unit controller of the i.MX display processing
unit (DPU), `drivers/gpu/imx/dpu/dpu-fetchunit.c`. A fetch unit reads a pixel
buffer from memory for one display layer. The driver programs it through a
window of 32-bit registers: one block of ten registers per sub-unit, 0x28
bytes apart, plus the unit-wide STATICCONTROL and BURSTBUFFERMANAGEMENT
registers. It also keeps some soft state: the display stream the unit feeds,
a pin-off flag and a reference to the prefetch (DPRC) companion.

The model has three modules.

- `FetchGeometry` (`geometry.dfy`) holds the pure arithmetic the setters
  share:
  - the PRG x-offset correction of the buffer address;
  - the burst size chosen for erratum TKT343664 (the lowest set bit of the
    address, rounded up to 8 and capped at 128);
  - the stride fixup for erratum TKT339017;
  - the PRG y-offset correction that moves down by whole fixed-up strides.

  Every C integer type is written out. `unsigned int` is `u32` and wraps
  modulo 2^32. `dma_addr_t` is `u64` (a 64-bit platform) and wraps modulo
  2^64. `ffs` sees the address truncated to 32 bits. The functions compute
  what the C expressions compute, wrap-around included. Lemmas then give:
  - the bound, divisibility and alignment facts, which hold even through
    wrap-around;
  - the exact values when nothing wraps.
- `DpuRegisters` (`registers.dfy`) holds the register layout:
  - the per-sub-unit offsets;
  - the read-modify-write bit operations;
  - the definitions the driver takes from its private header, kept abstract
    in `Layout`.

  A register value is the set of positions of its one bits. So `val | bits`
  is a union, `val & ~bits` a difference, and `val & mask` an intersection.
- `FetchUnits` (`fetchunit.dfy`) holds the unit itself, as the class
  `FetchUnit`:
  - the register window is a `map` from byte offsets to register values;
  - `stream_id`, `pin_off` and `dprc` are mutable fields;
  - the unit type and sub-unit index are constants.

  Each exported register operation is a method with a `modifies` clause. Its
  `ensures` gives the new register map and the property the driver relies
  on. The exported accessors that take a possibly-null unit become
  module-level members on `FetchUnit?`. They keep the driver's `WARN_ON`
  early return as a no-op or a default result. The burst and address
  computations the setters perform step by step are methods proved equal to
  the `FetchGeometry` functions.

The source has four fetch-unit variants (decode, eco, layer, warp), each with
its own `is_fetch*` predicate. The model has all four.

## Model

| member | source | states |
|---|---|---|
| `DpuRegisters.Offset` | drivers/gpu/imx/dpu/dpu-fetchunit.c:18-27 | offset of each of the ten sub-unit registers for sub-unit n; it lies in [0x10 + n*0x28, 0x34 + n*0x28] and is 4-byte aligned |
| `DpuRegisters.OffsetInjective` | drivers/gpu/imx/dpu/dpu-fetchunit.c:18-27 | two (register, sub-unit) pairs with the same offset are equal, so the macros are injective in n and blocks of distinct sub-units are disjoint |
| `DpuRegisters.GlobalRegistersApart` | drivers/gpu/imx/dpu/dpu-fetchunit.c:18-27 | no sub-unit register offset is STATICCONTROL or BURSTBUFFERMANAGEMENT |
| `DpuRegisters.Field` | drivers/gpu/imx/dpu/dpu-fetchunit.c:160 | a contiguous mask holds exactly the bits lo to hi-1 (0x3f0000 is bits 16-21, 0xffff bits 0-15) |
| `DpuRegisters.BitsFrom` | drivers/gpu/imx/dpu/dpu-fetchunit.c:149 | the bits of a value placed from position `from` on all lie below 32, the width of the register |
| `DpuRegisters.Low32` | drivers/gpu/imx/dpu/dpu-fetchunit.c:149 | the `u32` store of a value into a register; no contract of its own: `Low32Bits`, `Low32Truncates` and `Low32Injective` state what it keeps |
| `DpuRegisters.BitsFromBits` | drivers/gpu/imx/dpu/dpu-fetchunit.c:149 | position from + k is set exactly when bit k of the value is one, for positions below 32 |
| `DpuRegisters.Low32Bits` | drivers/gpu/imx/dpu/dpu-fetchunit.c:149 | a register written with x holds bit i exactly when i < 32 and bit i of x is one |
| `DpuRegisters.BitsFromMod` | drivers/gpu/imx/dpu/dpu-fetchunit.c:149 | only the low 32 - from bits of the value reach the register |
| `DpuRegisters.BitsFromInjective` | drivers/gpu/imx/dpu/dpu-fetchunit.c:149 | equal register contents come from values that agree in their low 32 - from bits |
| `DpuRegisters.Low32Truncates` | drivers/gpu/imx/dpu/dpu-fetchunit.c:149 | writing x and writing x mod 2^32 give the same register contents |
| `DpuRegisters.Low32Injective` | drivers/gpu/imx/dpu/dpu-fetchunit.c:149 | two values give the same register contents if and only if they agree modulo 2^32 |
| `DpuRegisters.BppMaskLiteral` | drivers/gpu/imx/dpu/dpu-fetchunit.c:160 | the bits-per-pixel mask is the bit set of the literal 0x3f0000 |
| `DpuRegisters.StrideMaskLiteral` | drivers/gpu/imx/dpu/dpu-fetchunit.c:209 | the stride mask is the bit set of the literal 0xffff |
| `DpuRegisters.SetBits` | drivers/gpu/imx/dpu/dpu-fetchunit.c:45 | `val \| bits` has every bit of `bits` set and keeps every other bit of `val` |
| `DpuRegisters.ClearBits` | drivers/gpu/imx/dpu/dpu-fetchunit.c:47 | `val & ~bits` has every bit of `bits` clear and keeps every other bit of `val` |
| `DpuRegisters.ReplaceField` | drivers/gpu/imx/dpu/dpu-fetchunit.c:59-60 | clearing a mask and or-ing in a field that fits it leaves exactly the field under the mask and `val` elsewhere |
| `DpuRegisters.ReplaceFieldLastWins` | drivers/gpu/imx/dpu/dpu-fetchunit.c:106-109 | of two read-modify-writes of one field only the second is seen |
| `DpuRegisters.ReplaceFieldIdempotent` | drivers/gpu/imx/dpu/dpu-fetchunit.c:159-162 | writing the same field value twice equals writing it once |
| `DpuRegisters.ReplaceFieldUnchanged` | drivers/gpu/imx/dpu/dpu-fetchunit.c:58-61 | writing back the value a field already holds leaves the register unchanged |
| `DpuRegisters.SetBitsUnchanged` | drivers/gpu/imx/dpu/dpu-fetchunit.c:222 | setting bits that are already set leaves the register unchanged |
| `DpuRegisters.ClearBitsUnchanged` | drivers/gpu/imx/dpu/dpu-fetchunit.c:234 | clearing bits that are already clear leaves the register unchanged |
| `DpuRegisters.SetClearLastWins` | drivers/gpu/imx/dpu/dpu-fetchunit.c:44-47 | a set after a clear of the same bits is the set alone, and a clear after a set is the clear alone |
| `FetchGeometry.Ffs` | drivers/gpu/imx/dpu/dpu-fetchunit.c:97 | `ffs(x)` is 0 exactly for x = 0; otherwise 2^(ffs-1) divides x and the quotient is odd |
| `FetchGeometry.Pow2DividesIff` | drivers/gpu/imx/dpu/dpu-fetchunit.c:97 | 2^j divides a nonzero x if and only if ffs(x) > j |
| `FetchGeometry.RoundUp` | drivers/gpu/imx/dpu/dpu-fetchunit.c:98 | `round_up(x, y)` is a multiple of y in [x, x + y) |
| `FetchGeometry.BurstSize` | drivers/gpu/imx/dpu/dpu-fetchunit.c:97-99 | the burst size for a fetch from an address whose low 32 bits are nonzero is one of 8, 16, 32, 64, 128 |
| `FetchGeometry.CappedBurstInRange` | drivers/gpu/imx/dpu/dpu-fetchunit.c:97-99 | `min(round_up(1 << (f-1), 8), 128)` is one of the five burst sizes |
| `FetchGeometry.CappedBurstAsPow2` | drivers/gpu/imx/dpu/dpu-fetchunit.c:97-99 | `min(round_up(1 << (f-1), 8), 128)` is 2^j with j = f-1 clamped to 3..7 |
| `FetchGeometry.BurstSizeAsPow2` | drivers/gpu/imx/dpu/dpu-fetchunit.c:133-135 | the burst size is 2^j, j the 0-based index of the lowest set bit of the truncated address, clamped to 3..7 |
| `FetchGeometry.BurstSizeAligned` | drivers/gpu/imx/dpu/dpu-fetchunit.c:93-99 | the burst size divides an 8-byte aligned address (the erratum's alignment demand); for an unaligned address it is 8 |
| `FetchGeometry.BurstSizeMaximal` | drivers/gpu/imx/dpu/dpu-fetchunit.c:191-193 | below the 128 cap, twice the burst size does not divide the address; for an 8-byte aligned address, where the burst size divides it (`BurstSizeAligned`), it is therefore the largest power of two dividing the address |
| `FetchGeometry.NotDivisibleAboveFfs` | drivers/gpu/imx/dpu/dpu-fetchunit.c:191 | 2^(j+1) does not divide an address whose `ffs` of the low 32 bits is at most j+1 (1-based, so its lowest set bit is at most j) |
| `FetchGeometry.BurstLength` | drivers/gpu/imx/dpu/dpu-fetchunit.c:88-103 | burst length is in {1,2,4,8,16}; exactly 16 without prefetch; with prefetch, 8 times it is the burst size of the x-corrected address |
| `FetchGeometry.XAdjust` | drivers/gpu/imx/dpu/dpu-fetchunit.c:91 | x correction: the address is unchanged when mt_w is 0, when x_offset is a whole number of tiles, or when x_offset is 0 |
| `FetchGeometry.XAdjustWithinTileRow` | drivers/gpu/imx/dpu/dpu-fetchunit.c:127 | for bpp >= 8, when one tile row is at most 2^32 bytes and the address plus a tile row is at most 2^64, the corrected address moves forward by whole pixels and by less than one tile row |
| `FetchGeometry.XAdjustExact` | drivers/gpu/imx/dpu/dpu-fetchunit.c:185 | without wrap-around the x correction adds exactly (x_offset % mt_w) * (bpp / 8) |
| `FetchGeometry.LineBytes` | drivers/gpu/imx/dpu/dpu-fetchunit.c:137 | `width * (bpp >> 3)` as an `unsigned int`; no contract of its own: `LineBytesExact` gives its value when it does not wrap; `TiledStride` and `PrefetchStride` build on it |
| `FetchGeometry.LineBytesExact` | drivers/gpu/imx/dpu/dpu-fetchunit.c:137 | a line that fits an `unsigned int` is exactly width * (bpp >> 3) bytes |
| `FetchGeometry.AlignPad` | drivers/gpu/imx/dpu/dpu-fetchunit.c:142 | `round_up(baddr % 8, 8)` is 0 for an 8-byte aligned address and 8 otherwise |
| `FetchGeometry.TiledStride` | drivers/gpu/imx/dpu/dpu-fetchunit.c:137-142 | the fixed-up tiled stride is a multiple of the burst size of the corrected address, even after truncation to 32 bits |
| `FetchGeometry.TiledStrideBounds` | drivers/gpu/imx/dpu/dpu-fetchunit.c:137-142 | for a line at least 136 bytes short of 2^32 (so nothing wraps) the fixed-up stride covers the line plus the alignment pad and exceeds it by less than one burst |
| `FetchGeometry.RoundUpNoWrap` | drivers/gpu/imx/dpu/dpu-fetchunit.c:204 | a `round_up` that fits 32 bits is not changed by the `unsigned int` store and stays within one step of its input |
| `FetchGeometry.PrefetchStride` | drivers/gpu/imx/dpu/dpu-fetchunit.c:195-204 | the prefetch stride (tiled fixup or line rounded to the burst) is a multiple of the burst size of the x-corrected address |
| `FetchGeometry.UntiledPrefetchStrideBounds` | drivers/gpu/imx/dpu/dpu-fetchunit.c:203-204 | without tiling, for a line at least 128 bytes short of 2^32 (so nothing wraps), the prefetch stride is the line length rounded up to less than one burst more |
| `FetchGeometry.SourceStride` | drivers/gpu/imx/dpu/dpu-fetchunit.c:182-205 | without prefetch the caller's stride is kept verbatim; with prefetch the stride is a multiple of the burst size |
| `FetchGeometry.StrideIsWholeBursts` | drivers/gpu/imx/dpu/dpu-fetchunit.c:88-103 | with prefetch the stride `set_src_stride` programs is a multiple of 8 times the burst length `set_burstlength` programs for the same buffer |
| `FetchGeometry.MoveDown` | drivers/gpu/imx/dpu/dpu-fetchunit.c:145 | moving down zero lines leaves the address unchanged |
| `FetchGeometry.MoveDownExact` | drivers/gpu/imx/dpu/dpu-fetchunit.c:145 | without wrap-around the y correction adds exactly lines * stride |
| `FetchGeometry.LinesKeepAlignment` | drivers/gpu/imx/dpu/dpu-fetchunit.c:145 | moving down by whole strides that are multiples of the burst keeps the burst alignment, wrap-around included |
| `FetchGeometry.WrappedProductMultiple` | drivers/gpu/imx/dpu/dpu-fetchunit.c:145 | `(lines * stride)` as an `unsigned int` is a multiple of the burst when the stride is |
| `FetchGeometry.WrappedAddKeepsMod` | drivers/gpu/imx/dpu/dpu-fetchunit.c:145 | adding a multiple of the burst in `dma_addr_t` keeps the remainder modulo the burst |
| `FetchGeometry.TiledBaseAddress` | drivers/gpu/imx/dpu/dpu-fetchunit.c:125-146 | the address written is the caller's address when mt_w is 0, and also when x_offset and y_offset are 0 |
| `FetchGeometry.TiledBaseAddressAligned` | drivers/gpu/imx/dpu/dpu-fetchunit.c:125-146 | the tiled address written has the same remainder modulo the burst size as the x-corrected address |
| `FetchGeometry.TiledBaseAddressExact` | drivers/gpu/imx/dpu/dpu-fetchunit.c:125-146 | when the x correction, the y correction and the address sum do not wrap and the line is at least 136 bytes short of 2^32, the tiled address is baddr + (x_offset % mt_w)*(bpp/8) + (y_offset % mt_h)*stride, with stride at least width*(bpp>>3) |
| `FetchGeometry.WorkedExampleFfs` | drivers/gpu/imx/dpu/dpu-fetchunit.c:97 | ffs(0x1010) is 5 |
| `FetchGeometry.WorkedExampleBurst` | drivers/gpu/imx/dpu/dpu-fetchunit.c:88-103 | 32 bpp, 16-pixel tiles, x_offset 20 at 0x1000: corrected address 0x1010, burst 16 bytes, burst length 2 |
| `FetchGeometry.WorkedExampleStride` | drivers/gpu/imx/dpu/dpu-fetchunit.c:137-142 | a 64-pixel 32-bpp line at 0x1010 keeps a 256-byte stride |
| `FetchGeometry.WorkedExampleAddress` | drivers/gpu/imx/dpu/dpu-fetchunit.c:125-146 | the same buffer viewed from (20, 20) in 16x16 tiles is fetched from 0x1410, four lines of 256 bytes below 0x1010 |
| `FetchGeometry.WorkedExamplePrefetchStride` | drivers/gpu/imx/dpu/dpu-fetchunit.c:195-204 | in the same case `set_src_stride` with prefetch programs a 256-byte stride |
| `FetchUnits.ApplyXOffset` | drivers/gpu/imx/dpu/dpu-fetchunit.c:90-91 | the step-by-step x correction computes `XAdjust` and leaves the address alone when mt_w is 0 |
| `FetchUnits.ApplyYOffset` | drivers/gpu/imx/dpu/dpu-fetchunit.c:145 | the step-by-step y correction computes `MoveDown` by y_offset % mt_h lines |
| `FetchUnits.ComputeBurstSize` | drivers/gpu/imx/dpu/dpu-fetchunit.c:97-99 | the three assignments compute `BurstSize`, which divides an 8-byte aligned address |
| `FetchUnits.ComputeTiledStride` | drivers/gpu/imx/dpu/dpu-fetchunit.c:137-142 | the two assignments compute `TiledStride`, a multiple of the burst size |
| `FetchUnits.ComputeBurstLength` | drivers/gpu/imx/dpu/dpu-fetchunit.c:88-103 | the branch computes `BurstLength`, which lies in 1..16 |
| `FetchUnits.ComputeBaseAddress` | drivers/gpu/imx/dpu/dpu-fetchunit.c:125-146 | the tiling branch computes `TiledBaseAddress`, and the address is untouched when mt_w is 0 |
| `FetchUnits.ComputeSrcStride` | drivers/gpu/imx/dpu/dpu-fetchunit.c:182-205 | the prefetch branch computes `SourceStride`; without prefetch the caller's stride is kept |
| `FetchUnits.FetchUnit.Shden` | drivers/gpu/imx/dpu/dpu-fetchunit.c:38-50 | only STATICCONTROL changes; SHDEN ends up equal to `enable`, every other bit is kept, and a repeated call changes nothing |
| `FetchUnits.FetchUnit.BaddrAutoupdate` | drivers/gpu/imx/dpu/dpu-fetchunit.c:53-64 | only STATICCONTROL changes; its BASEADDRESSAUTOUPDATE field holds the encoded layer mask, the other bits are kept, a repeated call changes nothing |
| `FetchUnits.FetchUnit.ShdldreqSticky` | drivers/gpu/imx/dpu/dpu-fetchunit.c:66-77 | only STATICCONTROL changes; its SHDLDREQSTICKY field holds the encoded layer mask, the other bits are kept, a repeated call changes nothing |
| `FetchUnits.FetchUnit.SetBurstLength` | drivers/gpu/imx/dpu/dpu-fetchunit.c:79-114 | only the SETBURSTLENGTH field of BURSTBUFFERMANAGEMENT changes, to `BurstLength(...)`; exactly 16 without prefetch |
| `FetchUnits.FetchUnit.SetBaseAddress` | drivers/gpu/imx/dpu/dpu-fetchunit.c:117-151 | only BASEADDRESS(sub_id) changes, to the low 32 bits of `TiledBaseAddress(...)`; without tiling to the low 32 bits of baddr |
| `FetchUnits.FetchUnit.SetSrcBpp` | drivers/gpu/imx/dpu/dpu-fetchunit.c:154-165 | only bits 0x3f0000 of SOURCEBUFFERATTRIBUTES(sub_id) change, to BITSPERPIXEL(bpp) |
| `FetchUnits.FetchUnit.SetSrcStride` | drivers/gpu/imx/dpu/dpu-fetchunit.c:173-213 | only bits 0xffff of SOURCEBUFFERATTRIBUTES(sub_id) change, to STRIDE(`SourceStride(...)`); the caller's stride without prefetch |
| `FetchUnits.FetchUnit.IsEnabled` | drivers/gpu/imx/dpu/dpu-fetchunit.c:240-250 | true exactly when LAYERPROPERTY(sub_id) and SOURCEBUFFERENABLE share a bit; it reads and changes no state |
| `FetchUnits.FetchUnit.EnableSrcBuf` | drivers/gpu/imx/dpu/dpu-fetchunit.c:216-226 | only LAYERPROPERTY(sub_id) changes, by setting SOURCEBUFFERENABLE; afterwards `IsEnabled`; idempotent |
| `FetchUnits.FetchUnit.DisableSrcBuf` | drivers/gpu/imx/dpu/dpu-fetchunit.c:228-238 | only LAYERPROPERTY(sub_id) changes, by clearing SOURCEBUFFERENABLE; afterwards not `IsEnabled`; idempotent |
| `FetchUnits.GetDprc` | drivers/gpu/imx/dpu/dpu-fetchunit.c:29-35 | a non-null unit is bound to `data`, nothing else changes; a null unit is ignored |
| `FetchUnits.GetStreamId` | drivers/gpu/imx/dpu/dpu-fetchunit.c:252-259 | the stored stream id, or DISABLED for a null unit; in both cases one of STREAM0, STREAM1, DISABLED |
| `FetchUnits.SetStreamId` | drivers/gpu/imx/dpu/dpu-fetchunit.c:261-276 | the id is stored exactly when it is STREAM0, STREAM1 or DISABLED, otherwise the old id stays; registers and other fields are kept |
| `FetchUnits.IsPinnedOff` | drivers/gpu/imx/dpu/dpu-fetchunit.c:296-303 | the pin-off flag, false for a null unit; no contract of its own: `PinOff` and `UnpinOff` state what makes it true and false |
| `FetchUnits.PinOff` | drivers/gpu/imx/dpu/dpu-fetchunit.c:278-285 | afterwards `IsPinnedOff` (`fetchunit_is_pinned_off`) holds for a non-null unit; registers and other fields are kept |
| `FetchUnits.UnpinOff` | drivers/gpu/imx/dpu/dpu-fetchunit.c:287-294 | afterwards `IsPinnedOff` (`fetchunit_is_pinned_off`) is false, for a null unit too; registers and other fields are kept |
| `FetchUnits.WorkedExampleRegister` | drivers/gpu/imx/dpu/dpu-fetchunit.c:149 | in the worked case BASEADDRESS receives 0x1410, the bits 4, 10 and 12 |
| `FetchUnits.IsFetchDecode` | drivers/gpu/imx/dpu/dpu-fetchunit.c:305-312 | the unit is a fetchdecode unit, false for a null unit; no contract of its own: `ExactlyOneVariant` states it |
| `FetchUnits.IsFetchEco` | drivers/gpu/imx/dpu/dpu-fetchunit.c:314-321 | the unit is a fetcheco unit, false for a null unit; no contract of its own: `ExactlyOneVariant` states it |
| `FetchUnits.IsFetchLayer` | drivers/gpu/imx/dpu/dpu-fetchunit.c:323-330 | the unit is a fetchlayer unit, false for a null unit; no contract of its own: `ExactlyOneVariant` states it |
| `FetchUnits.IsFetchWarp` | drivers/gpu/imx/dpu/dpu-fetchunit.c:332-339 | the unit is a fetchwarp unit, false for a null unit; no contract of its own: `ExactlyOneVariant` states it |
| `FetchUnits.ExactlyOneVariant` | drivers/gpu/imx/dpu/dpu-fetchunit.c:305-339 | a non-null unit satisfies exactly one of `IsFetchDecode`, `IsFetchEco`, `IsFetchLayer`, `IsFetchWarp`; a null unit satisfies none |

## Left out

- Locking: the per-unit mutex around each read-modify-write is not modelled. Each method is one atomic step.
- Register I/O: `dpu_fu_read` and `dpu_fu_write` become reads and updates of the `regs` map. Memory-mapped I/O side effects are not modelled.
- Logging: the `dev_dbg` message and the report side of `WARN_ON` are left out. Only the early return or the default result is kept.
- Header definitions: the bit encodings from the private DPU header and the `DPU_PLANE_SRC_*` values are not part of this model. `Layout` keeps them abstract. `Layout.Wf` and `Layout.EncodersFit` state only what the driver relies on: the encoders fit their masks, the masks lie below bit 32, the unit-wide registers are distinct and below the first sub-unit block, and the stream ids are distinct.
- Unit creation: units are created by the owning DPU device, which is not part of this model. `FetchUnits.FetchUnit.constructor` only fixes an initial state that satisfies the invariant. The device handle, `id`, `name` and the `dpu_soc` lifecycle are left out.
- The DPRC companion is an opaque reference (`Dprc`). Its behaviour is not part of this model.
- `ffs` of an address whose low 32 bits are zero makes `1 << (ffs - 1)` undefined. Every member that computes a burst size requires the (x-corrected) address to be nonzero modulo 2^32.
- `y_offset % mt_h` with `mt_h == 0` while `mt_w != 0` divides by zero. The base-address members require `mt_h > 0` in that case.
- `bpp` is a natural number. Negative bits per pixel are not modelled, and `bpp >> 3` is taken as `bpp / 8`, which agrees for non-negative values.
- `round_up` is modelled by its arithmetic meaning (least multiple not below x). This matches the kernel macro for the power-of-two divisors used here, including `round_up(0, y) == 0`.
- Register values are sets of bit positions. `Layout.Wf` keeps SHDEN and SOURCEBUFFERENABLE below bit 32, `Layout.EncodersFit` keeps the three header masks and every encoder output below bit 32, and `Low32` keeps stored addresses below bit 32. The type does not enforce a 32-bit width for arbitrary map contents.
- `FetchUnits.FetchUnit.IsEnabled`: the C function returns a copy of a register read taken under the lock. The model reads the map directly.
- `FetchUnits.GetStreamId`: requires the unit invariant of a non-null unit, and that the `DPU_PLANE_SRC_*` values it is given are the unit's own. In the driver these are one set of header constants, so the returned id is always one of the accepted values.
