# PPU translator: guest register and flag state

RPCS3 recompiles Cell PPU machine code to LLVM IR, one guest function at a time.
While it does so, the `PPUTranslator` keeps the guest's architectural state as IR
values. That state has four parts:

- the register file, with GPRs, FPRs and VRs in one 96-slot array at two scopes;
- the 32-bit condition register, made of eight lt/gt/eq/so fields;
- the XER summary-overflow, overflow and carry bits and the sticky VSCR saturation bit;
- the 32 bits of FPSCR, whose exception bits are sticky and summarised by FX.

This project models that state. It also models the width helpers that the
translator uses to move values between integer widths.

## How values are represented

An IR value is a sequence of bits, least significant first. Each bit is
`Zero`, `One` or `Undef`, which stands for an LLVM `undef`.

- `ToNat` and `ToInt` give the unsigned and two's-complement number of a value
  whose bits are all defined.
- A flag is a single bit.
- A one-bit OR, the operation behind every sticky `|=`, gives `One` if either
  operand is `One`. Otherwise it gives `Undef` if either operand is undefined.

## How the files are laid out

- `bits.dfy`: bits, values and their numeric meaning.
- `types.dfy`: the C++-to-IR type mapping `TypeGen` and `ScaleType`.
- `widths.dfy`:
  - `SExt`, `ZExt` and `Trunc`, with their array forms;
  - `DuplicateExt`;
  - the lane views of a vector register (`VrType`, `Solid`).
- `rotate.dfy`: both `RotateLeft` overloads.
- `flags.dfy`: the condition register fields and integer comparison, sticky
  accumulation, and the FPSCR bit layout.
- `translator.dfy`: the `PPUTranslator` class. It holds `globals` and `locals`
  (96 slots each), `cr`, XER.SO/OV/CA, VSCR.SAT and `fpscr`, and its methods
  update them in place.

## How the register file is modelled

- A local slot is `Empty` until the function being translated first reads or
  writes that register.
- A register reads as its local value once one is held, and as its global value
  before that (`Regs()`).
- The banks sit at slot offsets 0, 32 and 64, as in the header.

## Model

| member | source | states |
|---|---|---|
| Bits.Or | rpcs3/Emu/Cell/PPUTranslator.h:367-371 | The `\|=` of a sticky bit: it is set exactly when either operand is set, and clear exactly when both are clear. |
| IrTypes.TypeGen | rpcs3/Emu/Cell/PPUTranslator.h:30-102 | Each C++ type maps to the IR type of its kind, and nothing else maps there. The integer types, char, bool and u128 map to IR integers; f32 maps to float; f64 to double; pointers to pointers; arrays to vectors; void to void. Which integer width each gets is carried by `TypeGenWidth`. |
| IrTypes.TypeGenWidth | rpcs3/Emu/Cell/PPUTranslator.h:30-102 | Each pointer-free C++ type maps to an IR type as wide as its values. With the kinds fixed by `TypeGen`'s contract, this gives s64/u64 to i64, s32/u32 to i32, s16/u16 to i16, s8/u8/char to i8, bool to i1, u128 to i128 and f32/f64 to float/double. `T[N]` maps to N lanes of T. |
| IrTypes.ScaleType | rpcs3/Emu/Cell/PPUTranslator.h:221-222 | The result is defined exactly for integer and integer-vector types with a non-zero scaled width. It keeps the shape and lane count. For p >= 0 it multiplies the scalar width by 2^p; for p < 0 it divides the width by 2^-p, rounding down. |
| IrTypes.ScaleTypeRoundTrip | rpcs3/Emu/Cell/PPUTranslator.h:221-222 | For p >= 0, scaling by 2^p and then by 2^-p gives the type back. A narrowing first can lose bits, so the reverse order is not claimed. |
| IrTypes.ScaleTypeCompose | rpcs3/Emu/Cell/PPUTranslator.h:221-222 | For a, b >= 0, scaling by 2^a and then by 2^b is scaling by 2^(a+b). |
| Widths.SExt | rpcs3/Emu/Cell/PPUTranslator.h:299-300 | The result has the requested width, or double the width by default, and its low part is the argument. That the signed number is kept is carried by `SExtValue`. |
| Widths.SExtValue | rpcs3/Emu/Cell/PPUTranslator.h:299-300 | Sign extension has the requested width, or double the width when no type is given. Its low part is the argument, and it keeps the signed number. |
| Widths.SignFillValue | rpcs3/Emu/Cell/PPUTranslator.h:299-300 | Appending copies of the sign bit keeps the signed number. |
| Widths.ZExt | rpcs3/Emu/Cell/PPUTranslator.h:309-310 | The result has the requested width, or double the width by default, and its low part is the argument. That the unsigned number is kept is carried by `ZExtValue`. |
| Widths.ZExtValue | rpcs3/Emu/Cell/PPUTranslator.h:309-310 | Zero extension has the requested width, or double the width by default. Its low part is the argument, and it keeps the unsigned number. |
| Widths.Trunc | rpcs3/Emu/Cell/PPUTranslator.h:322-323 | The result has the requested width, or half the width by default, and keeps the low bits. Its number is carried by `TruncValue`. |
| Widths.TruncValue | rpcs3/Emu/Cell/PPUTranslator.h:322-323 | Truncation to w bits, or to half the width by default, gives the unsigned number modulo 2^w. |
| Widths.DefaultWidths | rpcs3/Emu/Cell/PPUTranslator.h:221-323 | The default widths of the extensions and of `Trunc` are `ScaleType` by 2^1 and 2^-1. `Trunc(SExt(x)) == x` and `Trunc(ZExt(x)) == x`. |
| Widths.DuplicateExt | rpcs3/Emu/Cell/PPUTranslator.h:224-225 | The result is twice as wide. That both halves are the argument is carried by `DuplicateExtValue`. |
| Widths.DuplicateExtValue | rpcs3/Emu/Cell/PPUTranslator.h:224-225 | The result is twice as wide and both of its halves are the argument. Its number is x + 2^w * x. |
| Widths.SExtAll | rpcs3/Emu/Cell/PPUTranslator.h:302-307 | The array form keeps the length. Element i becomes `SExt(values[i])`, which keeps the signed number. |
| Widths.ZExtAll | rpcs3/Emu/Cell/PPUTranslator.h:312-317 | The array form keeps the length. Element i becomes `ZExt(values[i])`, which keeps the unsigned number. |
| Widths.Split | rpcs3/Emu/Cell/PPUTranslator.h:251-262 | Reading a 128-bit register as a lane type gives `LaneCount` lanes of `LaneBits` bits each. |
| Widths.SplitLane | rpcs3/Emu/Cell/PPUTranslator.h:251-262 | Lane k is bits k*lw .. (k+1)*lw of the register. |
| Widths.Solid | rpcs3/Emu/Cell/PPUTranslator.h:275-276 | Lane 0 is the low part of the joined value. That it inverts `Split` is carried by `SolidSplit` and `SplitSolid`. |
| Widths.SolidSplit | rpcs3/Emu/Cell/PPUTranslator.h:275-276 | Joining the lanes of a register view with `Solid` gives the register back. |
| Widths.SplitSolid | rpcs3/Emu/Cell/PPUTranslator.h:275-276 | Splitting the result of `Solid` at the lane width gives the lanes back. |
| Rotate.RotateLeft | rpcs3/Emu/Cell/PPUTranslator.h:227-228 | Rotation by a constant n < width: result bit i is argument bit (i - n) mod w. |
| Rotate.RotateLeftCompose | rpcs3/Emu/Cell/PPUTranslator.h:227-228 | Two rotations add their amounts modulo the width. |
| Rotate.RotateLeftInverse | rpcs3/Emu/Cell/PPUTranslator.h:227-228 | Rotating by n and then by w - n gives the argument back. |
| Rotate.RotateLeftValue | rpcs3/Emu/Cell/PPUTranslator.h:227-228 | The number a rotation gives is (x * 2^n mod 2^w) + x / 2^(w-n). |
| Rotate.RotateLeftBy | rpcs3/Emu/Cell/PPUTranslator.h:230-231 | Rotation by a value keeps the width. When the low log2(w) bits of the amount are defined, it is rotation by the number they denote, so the rest of the amount is masked off. Otherwise every bit of the result is undefined. |
| Rotate.RotateLeftByMasks | rpcs3/Emu/Cell/PPUTranslator.h:230-231 | Rotating by a defined amount n is rotating by n mod w. |
| Flags.WithField | rpcs3/Emu/Cell/PPUTranslator.h:331-332 | Writing field g sets bits 4g..4g+3 to (lt, gt, eq, so). Every bit of another field is unchanged. |
| Flags.FieldIndependence | rpcs3/Emu/Cell/PPUTranslator.h:331-332 | Writing field g leaves every other field h != g as it was. |
| Flags.Compare | rpcs3/Emu/Cell/PPUTranslator.h:334-338 | The comparison is undefined exactly when some bit of an operand is undefined. Its meaning on defined operands is carried by `CompareTrichotomy`. |
| Flags.CompareTrichotomy | rpcs3/Emu/Cell/PPUTranslator.h:334-338 | On defined operands, exactly one of lt, gt and eq is set. eq is set iff the operands are equal. lt and gt are set iff the signed or unsigned numbers are ordered that way. |
| Flags.AccumulateSticky | rpcs3/Emu/Cell/PPUTranslator.h:367-371 | After any sequence of `\|=` updates, a sticky bit is set iff it was set or some update was set. It is clear iff it was clear and every update was clear. |
| Translator.GprSlot | rpcs3/Emu/Cell/PPUTranslator.h:166-174 | GPR r is a 64-bit slot in 0..31. |
| Translator.FprSlot | rpcs3/Emu/Cell/PPUTranslator.h:166-174 | FPR r is a 64-bit slot in 32..63, so it is disjoint from the GPRs. |
| Translator.VrSlot | rpcs3/Emu/Cell/PPUTranslator.h:166-174 | VR r is a 128-bit slot in 64..95, so it is disjoint from the other banks. |
| Translator.ViewAfterWrite | rpcs3/Emu/Cell/PPUTranslator.h:166-174 | Writing a local slot changes what that register reads as, and no other register. |
| Translator.ViewAfterLoad | rpcs3/Emu/Cell/PPUTranslator.h:166-174 | Loading the global value into an empty local slot changes no register. |
| Translator.ClobberReadsUndefined | rpcs3/Emu/Cell/PPUTranslator.h:233-237 | After a call, every bit of a volatile register is undefined and every other register is unchanged. That a later write is read back as written is a property of the class: `SetGpr`, `SetFpr` and `SetVr` replace the register in `Regs()`, and the getters return `Regs()`. |
| Translator.UndefineBits | rpcs3/Emu/Cell/PPUTranslator.h:236-237 | A loop over a CR or FPSCR array makes exactly the listed bits undefined and keeps every other bit. |
| Translator.PPUTranslator.constructor | rpcs3/Emu/Cell/PPUTranslator.h:166-217 | On entry the registers, CR, XER, VSCR.SAT and FPSCR are the thread context's, and no local slot is in use. |
| Translator.PPUTranslator.Load | rpcs3/Emu/Cell/PPUTranslator.h:166-174 | Reading a slot gives its current value and leaves it held locally. No register changes. |
| Translator.PPUTranslator.Store | rpcs3/Emu/Cell/PPUTranslator.h:166-174 | Writing a slot changes that register only. |
| Translator.PPUTranslator.GetGpr | rpcs3/Emu/Cell/PPUTranslator.h:239-240 | Gives the low num_bits bits of GPR r: the whole register by default, and its number modulo 2^num_bits. No register changes. |
| Translator.PPUTranslator.SetGpr | rpcs3/Emu/Cell/PPUTranslator.h:242-243 | GPR r becomes the value. No other GPR, FPR or VR changes. |
| Translator.PPUTranslator.GetFpr | rpcs3/Emu/Cell/PPUTranslator.h:245-246 | Gives the 64-bit pattern of FPR r. No register changes. |
| Translator.PPUTranslator.SetFpr | rpcs3/Emu/Cell/PPUTranslator.h:248-249 | FPR r becomes the value. No other register changes. |
| Translator.PPUTranslator.GetVr | rpcs3/Emu/Cell/PPUTranslator.h:251-262 | Gives VR r as lanes of the requested type, which `Solid` joins back to the register. No register changes. |
| Translator.PPUTranslator.SetVr | rpcs3/Emu/Cell/PPUTranslator.h:272-273 | VR r becomes the 128-bit value. No other register changes. |
| Translator.PPUTranslator.UndefineVolatileRegisters | rpcs3/Emu/Cell/PPUTranslator.h:233-237 | Every volatile register slot, CR bit and FPSCR bit becomes undefined. XER.SO/OV/CA and VSCR.SAT become undefined when they are volatile. Everything else is kept. |
| Translator.PPUTranslator.GetCrb | rpcs3/Emu/Cell/PPUTranslator.h:325-326 | Gives CR bit crb, which is the lt, gt, eq or so bit of field crb/4. |
| Translator.PPUTranslator.SetCrb | rpcs3/Emu/Cell/PPUTranslator.h:328-329 | CR bit crb becomes the value. No other bit changes. |
| Translator.PPUTranslator.SetCrField | rpcs3/Emu/Cell/PPUTranslator.h:331-332 | Field `group` becomes (lt, gt, eq, so), with so taken from XER.SO when omitted. No other field changes. |
| Translator.PPUTranslator.SetCrFieldSignedCmp | rpcs3/Emu/Cell/PPUTranslator.h:334-335 | Field n becomes the signed comparison of a and b, with so from XER.SO. |
| Translator.PPUTranslator.SetCrFieldUnsignedCmp | rpcs3/Emu/Cell/PPUTranslator.h:337-338 | Field n becomes the unsigned comparison of a and b, with so from XER.SO. |
| Translator.PPUTranslator.GetCarry | rpcs3/Emu/Cell/PPUTranslator.h:361-362 | Gives XER.CA. |
| Translator.PPUTranslator.SetCarry | rpcs3/Emu/Cell/PPUTranslator.h:364-365 | XER.CA becomes the value. No other flag changes. |
| Translator.PPUTranslator.SetOverflow | rpcs3/Emu/Cell/PPUTranslator.h:367-368 | XER.OV becomes v and XER.SO becomes old SO `\|` v. Once SO is set, it stays set. |
| Translator.PPUTranslator.SetSat | rpcs3/Emu/Cell/PPUTranslator.h:370-371 | VSCR.SAT becomes old SAT `\|` v. Once set, it stays set. |
| Translator.PPUTranslator.SetFPSCRException | rpcs3/Emu/Cell/PPUTranslator.h:352-353 | The exception bit becomes old `\|` v and FX becomes old FX `\|` v. When v is set both end set, and neither is ever cleared. |
| Translator.PPUTranslator.SetFPCC | rpcs3/Emu/Cell/PPUTranslator.h:339-340 | FPSCR bits FL, FG, FE, FU become lt, gt, eq, un and no other FPSCR bit changes. With set_cr, CR field 1 becomes (lt, gt, eq, un); otherwise CR is unchanged. |
| Translator.PPUTranslator.SetFPSCR_FR | rpcs3/Emu/Cell/PPUTranslator.h:346-347 | FPSCR.FR becomes the value; no other bit changes. |
| Translator.PPUTranslator.SetFPSCR_FI | rpcs3/Emu/Cell/PPUTranslator.h:349-350 | FPSCR.FI becomes the value, and XX and FX become old `\|` value: whenever FI is set, the sticky XX and FX end set. |
| Translator.PPUTranslator.GetFPSCRBit | rpcs3/Emu/Cell/PPUTranslator.h:355-356 | Gives the bit as it was. FX and the exception bits are cleared by the read. |
| Translator.PPUTranslator.SetFPSCRBit | rpcs3/Emu/Cell/PPUTranslator.h:358-359 | The bit becomes the value. With update_fx, FX also becomes old FX `\|` value. |

## Left out

- LLVM IR construction is not modelled: the builder, module, function declarations, call helpers, attributes and branch-weight metadata. It is a foreign library.
- The per-opcode handlers, `TranslateToIR`, the block map, the jump-table resolver, `CheckBranchCondition` and `UseCondition` are not modelled. Only their declarations exist.
- `GetMemory`, `ReadMemory` and `WriteMemory` are not modelled. They are host memory access.
- Floating-point numerics are not modelled: `Scale` and `SetFPRF`, which classifies a floating-point value. An FPR is kept as its 64-bit pattern, and a `vf` lane only as 32 bits.
- The function registry (`AddFunction`) and `CompilationError` are not modelled. They state no behaviour.
- `CallFunction` emits a call, which is not modelled. Only its effect on the state, `UndefineVolatileRegisters`, is modelled.
- Which registers are volatile is not listed in the header, so the volatile set is a parameter of `UndefineVolatileRegisters`.
- When the local values are written back to the thread context is not declared in the header, so it is not modelled. The model keeps `globals` as the entry values.
- The condition register, XER, VSCR.SAT and FPSCR are modelled as filled from the thread context on entry. The source may load them lazily; that is not modelled.
- LR, CTR, VRSAVE, XER.count and VSCR.NJ are not modelled, including whether a call clobbers them. No modelled member other than `UndefineVolatileRegisters`, whose body the header does not show, could touch them.
- FPSCR.FEX and FPSCR.VX are summaries with no member of their own in the header, so they are kept as plain bits.
- Translator.PPUTranslator.GetFpr: the `bits = 32` form converts to single precision, which is floating point. The `as_int` flag only changes the IR type of the same bits. Both are left out, and the method returns the 64-bit pattern.
- Translator.PPUTranslator.SetFpr: a single-precision argument is widened to double before the store, which is floating point. The model takes the 64-bit pattern.
- Translator.PPUTranslator.SetFPSCRException: the source passes a pointer to the FPSCR bit. The model passes its index, which must be one of the sticky exception bits.
- Translator.PPUTranslator.GetFPSCRBit: the header says only that exception bits are cleared by the read. The model also clears FX, following the Power ISA's mcrfs, which resets FX together with the exception bits it copies.
- Translator.PPUTranslator.SetFPSCRBit: with update_fx, FX is OR-ed with the value for any bit n, as the flag's name says. The Power ISA makes FX the summary of the exception bits only; the model does not restrict n.
- Translator.PPUTranslator.SetFPCC: the header says only "optionally updating CR1". The model writes the same lt, gt, eq, un bits to CR field 1.
- Translator.PPUTranslator.SetFPSCRException: FX is updated with `|` v on every call. The Power ISA's finer rule, that FX is set only when an exception bit changes from 0 to 1, is not modelled.
- Widths.SExtAll and Widths.ZExtAll: the source overwrites a fixed-size `std::array` taken by value and returns it. The model copies the input into a fresh array, extends that array in place, and returns its contents.
- SExt, ZExt and Trunc of vector-typed values are not modelled. The model covers scalar integers only, where the same per-lane rule applies.
- Rotate.RotateLeftBy: the masked form requires the width to be a power of two, as every integer width the translator rotates is. The amount must be as wide as the argument.
- IrTypes.ScaleType: for a non-integer type the model returns None. The source's behaviour there is not shown.
- Lane order: lane 0 is the least significant part of the register, as an LLVM bitcast is on a little-endian host. The header's big-endian flag does not change it here.
- `GetVrs` (several `GetVr` calls at once), `GetPtrType`, `GetUndef` and the remaining helpers of the header are not modelled. They add no state or width rule beyond the members above.
