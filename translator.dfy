/** The architectural register and flag state the PPU translator keeps for
    the guest while it lowers one function: the 96 register slots at two
    scopes, the condition register, XER.SO/OV/CA, VSCR.SAT and FPSCR. */
module Translator {
  import opened Wrappers
  import opened Bits
  import opened Widths
  import opened Flags

  const REG_SLOTS: nat := 96
  const GPR_BASE: nat := 0
  const FPR_BASE: nat := 32
  const VR_BASE: nat := 64

  /** Architectural width of each slot: GPRs and FPRs hold 64 bits, VRs 128. */
  function SlotWidth(i: nat): nat {
    if i < VR_BASE then 64 else 128
  }

  function GprSlot(r: nat): (i: nat)
    requires r < 32
    ensures GPR_BASE <= i < FPR_BASE && SlotWidth(i) == 64
  {
    GPR_BASE + r
  }

  function FprSlot(r: nat): (i: nat)
    requires r < 32
    ensures FPR_BASE <= i < VR_BASE && SlotWidth(i) == 64
  {
    FPR_BASE + r
  }

  function VrSlot(r: nat): (i: nat)
    requires r < 32
    ensures VR_BASE <= i < REG_SLOTS && SlotWidth(i) == 128
  {
    VR_BASE + r
  }

  /** A local register slot: untouched so far in this function (a null entry)
      or holding the register's current value. */
  datatype Slot = Empty | Holds(value: Value)

  /** The guest state in the thread context when translated code is entered. */
  datatype Context = Context(
    regs: seq<Value>,
    cr: seq<Bit>,
    so: Bit, ov: Bit, ca: Bit,
    sat: Bit,
    fpscr: seq<Bit>)

  predicate WellFormed(c: Context) {
    && |c.regs| == REG_SLOTS
    && (forall i :: 0 <= i < REG_SLOTS ==> |c.regs[i]| == SlotWidth(i))
    && |c.cr| == CR_BITS
    && |c.fpscr| == FPSCR_BITS
  }

  /** The registers a call may clobber: slots of the register file, condition
      register bits, FPSCR bits, XER.SO/OV/CA (when `xer` holds) and VSCR.SAT
      (when `sat` holds). Which ones are volatile is the platform ABI's
      choice, so it is a parameter here. */
  datatype VolatileSet = VolatileSet(
    slots: set<nat>,
    crBits: set<nat>,
    fpscrBits: set<nat>,
    xer: bool,
    sat: bool)

  /** What each register reads as: its local value once the function has read
      or written it, its global value before. */
  function RegisterView(globals: seq<Value>, locals: seq<Slot>): (regs: seq<Value>)
    requires |globals| == |locals|
  {
    seq(|globals|, i requires 0 <= i < |globals| =>
      if locals[i].Holds? then locals[i].value else globals[i])
  }

  /** Writing a slot's local value changes what that register, and only that
      register, reads as. */
  lemma ViewAfterWrite(globals: seq<Value>, locals: seq<Slot>, i: nat, v: Value)
    requires |globals| == |locals| && i < |locals|
    ensures RegisterView(globals, locals[i := Holds(v)]) == RegisterView(globals, locals)[i := v]
  {
  }

  /** Loading a global value into an empty local slot changes no register. */
  lemma ViewAfterLoad(globals: seq<Value>, locals: seq<Slot>, i: nat)
    requires |globals| == |locals| && i < |locals| && locals[i].Empty?
    ensures RegisterView(globals, locals[i := Holds(globals[i])]) == RegisterView(globals, locals)
  {
  }

  /** The register file after a call: each slot in `slots` reads as an
      undefined value of its width, every other slot as before. */
  function Clobber(regs: seq<Value>, slots: set<nat>): (r: seq<Value>)
    requires |regs| == REG_SLOTS
  {
    seq(REG_SLOTS, i requires 0 <= i < REG_SLOTS =>
      if i in slots then Fill(SlotWidth(i), Undef) else regs[i])
  }

  /** A flag register (CR or FPSCR) after a call: each bit in `bits` is
      undefined, every other bit is kept. */
  function ClobberBits(flags: seq<Bit>, bits: set<nat>): (r: seq<Bit>)
  {
    seq(|flags|, j requires 0 <= j < |flags| => if j in bits then Undef else flags[j])
  }

  /** After a call no bit of a volatile register is known, so nothing stale can
      be read from it; non-volatile registers keep their values. */
  lemma ClobberReadsUndefined(regs: seq<Value>, slots: set<nat>, i: nat)
    requires |regs| == REG_SLOTS && i < REG_SLOTS
    ensures i in slots ==> |Clobber(regs, slots)[i]| == SlotWidth(i)
    ensures i in slots ==>
              forall k :: 0 <= k < SlotWidth(i) ==> Clobber(regs, slots)[i][k] == Undef
    ensures i in slots && SlotWidth(i) > 0 ==> !Defined(Clobber(regs, slots)[i])
    ensures i !in slots ==> Clobber(regs, slots)[i] == regs[i]
  {
    var c := Clobber(regs, slots);
    if i in slots {
      assert c[i] == Fill(SlotWidth(i), Undef);
      assert c[i][0] == Undef;
    }
  }

  /** Makes every bit of a flag register whose index is in `bits` undefined. */
  method UndefineBits(flags: array<Bit>, bits: set<nat>)
    modifies flags
    ensures flags[..] == ClobberBits(old(flags[..]), bits)
  {
    for j := 0 to flags.Length
      invariant forall k :: 0 <= k < j ==> flags[k] == if k in bits then Undef else old(flags[k])
      invariant forall k :: j <= k < flags.Length ==> flags[k] == old(flags[k])
    {
      if j in bits {
        flags[j] := Undef;
      }
    }
  }

  class PPUTranslator {
    // Register slots 0..31 are GPRs, 32..63 FPRs, 64..95 VRs, at two scopes.
    var globals: array<Value>
    var locals: array<Slot>

    var cr: array<Bit>
    var xerSo: Bit
    var xerOv: Bit
    var xerCa: Bit
    var vscrSat: Bit
    var fpscr: array<Bit>

    ghost predicate Valid()
      reads this, globals, locals
    {
      && globals.Length == REG_SLOTS
      && locals.Length == REG_SLOTS
      && cr.Length == CR_BITS
      && fpscr.Length == FPSCR_BITS
      && cr != fpscr
      && (forall i :: 0 <= i < REG_SLOTS ==> |globals[i]| == SlotWidth(i))
      && (forall i :: 0 <= i < REG_SLOTS && locals[i].Holds? ==> |locals[i].value| == SlotWidth(i))
    }

    /** The 96 registers as the function being translated sees them. */
    function Regs(): seq<Value>
      reads this, globals, locals
      requires globals.Length == locals.Length
    {
      RegisterView(globals[..], locals[..])
    }

    function Cr(): seq<Bit>
      reads this, cr
    {
      cr[..]
    }

    function Fpscr(): seq<Bit>
      reads this, fpscr
    {
      fpscr[..]
    }

    /** The state on entry to a translated function: the globals and flags
        hold the context's values and no local slot is in use yet. */
    constructor (ctx: Context)
      requires WellFormed(ctx)
      ensures Valid() && fresh(globals) && fresh(locals) && fresh(cr) && fresh(fpscr)
      ensures Regs() == ctx.regs && Cr() == ctx.cr && Fpscr() == ctx.fpscr
      ensures xerSo == ctx.so && xerOv == ctx.ov && xerCa == ctx.ca && vscrSat == ctx.sat
      ensures forall i :: 0 <= i < REG_SLOTS ==> locals[i] == Empty
    {
      globals := new Value[REG_SLOTS](i requires 0 <= i < REG_SLOTS => ctx.regs[i]);
      locals := new Slot[REG_SLOTS](_ => Empty);
      cr := new Bit[CR_BITS](j requires 0 <= j < CR_BITS => ctx.cr[j]);
      fpscr := new Bit[FPSCR_BITS](j requires 0 <= j < FPSCR_BITS => ctx.fpscr[j]);
      xerSo, xerOv, xerCa, vscrSat := ctx.so, ctx.ov, ctx.ca, ctx.sat;
      new;
      assert globals[..] == ctx.regs;
    }

    /** Reads slot i, first loading the global value into an unused local
        slot; no register changes value. */
    method Load(i: nat) returns (v: Value)
      requires Valid() && i < REG_SLOTS
      modifies locals
      ensures Valid() && Regs() == old(Regs())
      ensures v == Regs()[i] && locals[i] == Holds(v)
      ensures forall j :: 0 <= j < REG_SLOTS && j != i ==> locals[j] == old(locals[j])
    {
      if locals[i].Empty? {
        ViewAfterLoad(globals[..], locals[..], i);
        locals[i] := Holds(globals[i]);
      }
      v := locals[i].value;
    }

    /** Writes slot i's local value. */
    method Store(i: nat, v: Value)
      requires Valid() && i < REG_SLOTS && |v| == SlotWidth(i)
      modifies locals
      ensures Valid() && Regs() == old(Regs())[i := v]
      ensures locals[i] == Holds(v)
      ensures forall j :: 0 <= j < REG_SLOTS && j != i ==> locals[j] == old(locals[j])
    {
      ViewAfterWrite(globals[..], locals[..], i, v);
      locals[i] := Holds(v);
    }

    /** Reads GPR r truncated to its low numBits bits. */
    method GetGpr(r: nat, numBits: nat := 64) returns (v: Value)
      requires Valid() && r < 32 && 0 < numBits <= 64
      modifies locals
      ensures Valid() && Regs() == old(Regs())
      ensures v == Trunc(Regs()[GprSlot(r)], Some(numBits))
      ensures numBits == 64 ==> v == Regs()[GprSlot(r)]
      ensures Defined(Regs()[GprSlot(r)]) ==>
                Defined(v) && ToNat(v) == ToNat(Regs()[GprSlot(r)]) % Pow2(numBits)
    {
      var full := Load(GprSlot(r));
      v := Trunc(full, Some(numBits));
      TruncValue(full, Some(numBits));
    }

    /** Writes GPR r; the value must already be 64 bits wide. No FPR or VR
        slot, and no other GPR, changes. */
    method SetGpr(r: nat, value: Value)
      requires Valid() && r < 32 && |value| == 64
      modifies locals
      ensures Valid() && Regs() == old(Regs())[GprSlot(r) := value]
    {
      Store(GprSlot(r), value);
    }

    /** Reads FPR r as its 64-bit pattern. */
    method GetFpr(r: nat) returns (v: Value)
      requires Valid() && r < 32
      modifies locals
      ensures Valid() && Regs() == old(Regs())
      ensures v == Regs()[FprSlot(r)] && |v| == 64
    {
      v := Load(FprSlot(r));
    }

    /** Writes FPR r with a 64-bit pattern. */
    method SetFpr(r: nat, value: Value)
      requires Valid() && r < 32 && |value| == 64
      modifies locals
      ensures Valid() && Regs() == old(Regs())[FprSlot(r) := value]
    {
      Store(FprSlot(r), value);
    }

    /** Reads VR r bit-cast to the lanes of the given type. */
    method GetVr(r: nat, ty: VrType) returns (lanes: seq<Value>)
      requires Valid() && r < 32
      modifies locals
      ensures Valid() && Regs() == old(Regs())
      ensures LaneCount(ty) * LaneBits(ty) == 128
      ensures lanes == Split(Regs()[VrSlot(r)], LaneBits(ty), LaneCount(ty))
      ensures Solid(lanes) == Regs()[VrSlot(r)]
    {
      var whole := Load(VrSlot(r));
      lanes := Split(whole, LaneBits(ty), LaneCount(ty));
      SolidSplit(whole, LaneBits(ty), LaneCount(ty));
    }

    /** Writes VR r with a 128-bit value (lanes are joined by `Solid` first). */
    method SetVr(r: nat, value: Value)
      requires Valid() && r < 32 && |value| == 128
      modifies locals
      ensures Valid() && Regs() == old(Regs())[VrSlot(r) := value]
    {
      Store(VrSlot(r), value);
    }

    /** After a call: every volatile slot and CR bit becomes undefined (and
        FPSCR bit, and XER.SO/OV/CA and VSCR.SAT if the set says so);
        everything else is kept. */
    method UndefineVolatileRegisters(vol: VolatileSet)
      requires Valid()
      modifies this, locals, cr, fpscr
      ensures Valid()
      ensures globals == old(globals) && locals == old(locals) && cr == old(cr) && fpscr == old(fpscr)
      ensures Regs() == Clobber(old(Regs()), vol.slots)
      ensures Cr() == ClobberBits(old(Cr()), vol.crBits)
      ensures Fpscr() == ClobberBits(old(Fpscr()), vol.fpscrBits)
      ensures vscrSat == if vol.sat then Undef else old(vscrSat)
      ensures (xerSo, xerOv, xerCa) ==
              if vol.xer then (Undef, Undef, Undef) else old((xerSo, xerOv, xerCa))
    {
      for i := 0 to REG_SLOTS
        modifies locals
        invariant Valid()
        invariant forall j :: 0 <= j < i ==>
                    locals[j] == if j in vol.slots then Holds(Fill(SlotWidth(j), Undef)) else old(locals[j])
        invariant forall j :: i <= j < REG_SLOTS ==> locals[j] == old(locals[j])
      {
        if i in vol.slots {
          locals[i] := Holds(Fill(SlotWidth(i), Undef));
        }
      }
      assert Regs() == Clobber(old(Regs()), vol.slots) by {
        forall i | 0 <= i < REG_SLOTS
          ensures Regs()[i] == Clobber(old(Regs()), vol.slots)[i]
        {
        }
      }
      UndefineBits(cr, vol.crBits);
      UndefineBits(fpscr, vol.fpscrBits);
      if vol.xer {
        xerSo, xerOv, xerCa := Undef, Undef, Undef;
      }
      if vol.sat {
        vscrSat := Undef;
      }
    }

    /** Reads CR bit crb. */
    method GetCrb(crb: nat) returns (b: Bit)
      requires Valid() && crb < CR_BITS
      ensures b == Cr()[crb]
      ensures var f := FieldOf(Cr(), crb / 4); b == [f.lt, f.gt, f.eq, f.so][crb % 4]
    {
      b := cr[crb];
    }

    /** Writes CR bit crb. */
    method SetCrb(crb: nat, value: Bit)
      requires Valid() && crb < CR_BITS
      modifies cr
      ensures Valid() && Cr() == old(Cr())[crb := value]
    {
      cr[crb] := value;
    }

    /** Writes field `group` (bits 4*group .. 4*group+3); the so bit is the
        given one, or XER.SO when none is given. No other field changes. */
    method SetCrField(group: nat, lt: Bit, gt: Bit, eq: Bit, so: Option<Bit> := None)
      requires Valid() && group < CR_FIELDS
      modifies cr
      ensures Valid()
      ensures Cr() == WithField(old(Cr()), group,
                                CrField(lt, gt, eq, if so.Some? then so.value else xerSo))
      ensures FieldOf(Cr(), group).so == if so.Some? then so.value else xerSo
      ensures forall h :: 0 <= h < CR_FIELDS && h != group ==> FieldOf(Cr(), h) == FieldOf(old(Cr()), h)
    {
      var soBit := if so.Some? then so.value else xerSo;
      SetCrb(4 * group, lt);
      SetCrb(4 * group + 1, gt);
      SetCrb(4 * group + 2, eq);
      SetCrb(4 * group + 3, soBit);
      forall h | 0 <= h < CR_FIELDS && h != group
        ensures FieldOf(Cr(), h) == FieldOf(old(Cr()), h)
      {
        FieldIndependence(old(Cr()), group, CrField(lt, gt, eq, soBit), h);
      }
    }

    /** Field n := signed comparison of a and b, with so from XER.SO. */
    method SetCrFieldSignedCmp(n: nat, a: Value, b: Value)
      requires Valid() && n < CR_FIELDS && |a| == |b| > 0
      modifies cr
      ensures Valid()
      ensures var rel := Compare(a, b, true);
              Cr() == WithField(old(Cr()), n, CrField(rel.lt, rel.gt, rel.eq, xerSo))
    {
      var rel := Compare(a, b, true);
      SetCrField(n, rel.lt, rel.gt, rel.eq);
    }

    /** Field n := unsigned comparison of a and b, with so from XER.SO. */
    method SetCrFieldUnsignedCmp(n: nat, a: Value, b: Value)
      requires Valid() && n < CR_FIELDS && |a| == |b| > 0
      modifies cr
      ensures Valid()
      ensures var rel := Compare(a, b, false);
              Cr() == WithField(old(Cr()), n, CrField(rel.lt, rel.gt, rel.eq, xerSo))
    {
      var rel := Compare(a, b, false);
      SetCrField(n, rel.lt, rel.gt, rel.eq);
    }

    /** FPSCR.FPCC := (lt, gt, eq, un) (bits FL, FG, FE, FU); with setCr, CR
        field 1 receives the same four bits. */
    method SetFPCC(lt: Bit, gt: Bit, eq: Bit, un: Bit, setCr: bool := false)
      requires Valid()
      modifies fpscr, cr
      ensures Valid()
      ensures Fpscr() == old(Fpscr())[FPCC_LT := lt][FPCC_GT := gt][FPCC_EQ := eq][FPCC_UN := un]
      ensures Cr() == if setCr then WithField(old(Cr()), 1, CrField(lt, gt, eq, un)) else old(Cr())
    {
      SetFPSCRBit(FPCC_LT, lt, false);
      SetFPSCRBit(FPCC_GT, gt, false);
      SetFPSCRBit(FPCC_EQ, eq, false);
      SetFPSCRBit(FPCC_UN, un, false);
      if setCr {
        SetCrField(1, lt, gt, eq, Some(un));
      }
    }

    /** FPSCR.FR := v; no other bit changes. */
    method SetFPSCR_FR(v: Bit)
      requires Valid()
      modifies fpscr
      ensures Valid() && Fpscr() == old(Fpscr())[FR := v]
    {
      SetFPSCRBit(FR, v, false);
    }

    /** FPSCR.FI := v, and v is recorded in the sticky inexact exception XX
        (and so in FX): whenever FI is set, XX and FX end set. */
    method SetFPSCR_FI(v: Bit)
      requires Valid()
      modifies fpscr
      ensures Valid()
      ensures Fpscr() == old(Fpscr())[FI := v][XX := Or(old(fpscr[XX]), v)][FX := Or(old(fpscr[FX]), v)]
      ensures v == One ==> fpscr[FI] == One && fpscr[XX] == One && fpscr[FX] == One
    {
      SetFPSCRBit(FI, v, false);
      SetFPSCRException(XX, v);
    }

    method GetCarry() returns (ca: Bit)
      ensures ca == xerCa
    {
      ca := xerCa;
    }

    method SetCarry(ca: Bit)
      modifies this
      ensures xerCa == ca
      ensures xerSo == old(xerSo) && xerOv == old(xerOv) && vscrSat == old(vscrSat)
      ensures globals == old(globals) && locals == old(locals) && cr == old(cr) && fpscr == old(fpscr)
    {
      xerCa := ca;
    }

    /** XER.OV := v and XER.SO |= v: once SO is set no call clears it. */
    method SetOverflow(v: Bit)
      modifies this
      ensures xerOv == v && xerSo == Or(old(xerSo), v)
      ensures old(xerSo) == One || v == One ==> xerSo == One
      ensures xerCa == old(xerCa) && vscrSat == old(vscrSat)
      ensures globals == old(globals) && locals == old(locals) && cr == old(cr) && fpscr == old(fpscr)
    {
      xerOv := v;
      xerSo := Or(xerSo, v);
    }

    /** VSCR.SAT |= v: once set, no call clears it. */
    method SetSat(v: Bit)
      modifies this
      ensures vscrSat == Or(old(vscrSat), v)
      ensures old(vscrSat) == One || v == One ==> vscrSat == One
      ensures xerSo == old(xerSo) && xerOv == old(xerOv) && xerCa == old(xerCa)
      ensures globals == old(globals) && locals == old(locals) && cr == old(cr) && fpscr == old(fpscr)
    {
      vscrSat := Or(vscrSat, v);
    }

    /** Sticky exception bit n |= v, and FX |= v: whenever v is set both are
        set afterwards, and neither is ever cleared here. */
    method SetFPSCRException(n: nat, v: Bit)
      requires Valid() && IsExceptionBit(n)
      modifies fpscr
      ensures Valid()
      ensures Fpscr() == old(Fpscr())[n := Or(old(fpscr[n]), v)][FX := Or(old(fpscr[FX]), v)]
      ensures v == One ==> fpscr[n] == One && fpscr[FX] == One
      ensures old(fpscr[FX]) == One ==> fpscr[FX] == One
      ensures old(fpscr[n]) == One ==> fpscr[n] == One
    {
      fpscr[n] := Or(fpscr[n], v);
      fpscr[FX] := Or(fpscr[FX], v);
    }

    /** Reads FPSCR bit n; FX and the exception bits are reset by the read. */
    method GetFPSCRBit(n: nat) returns (b: Bit)
      requires Valid() && n < FPSCR_BITS
      modifies fpscr
      ensures Valid()
      ensures b == old(fpscr[n])
      ensures Fpscr() == if ClearedOnRead(n) then old(Fpscr())[n := Zero] else old(Fpscr())
    {
      b := fpscr[n];
      if ClearedOnRead(n) {
        fpscr[n] := Zero;
      }
    }

    /** FPSCR bit n := v; with updateFx, also FX |= v. */
    method SetFPSCRBit(n: nat, v: Bit, updateFx: bool)
      requires Valid() && n < FPSCR_BITS
      modifies fpscr
      ensures Valid()
      ensures Fpscr() == if updateFx then old(Fpscr())[n := v][FX := Or(old(Fpscr())[n := v][FX], v)]
                         else old(Fpscr())[n := v]
      ensures fpscr[n] == v
      ensures updateFx && v == One ==> fpscr[FX] == One
    {
      fpscr[n] := v;
      if updateFx {
        fpscr[FX] := Or(fpscr[FX], v);
      }
    }
  }
}
