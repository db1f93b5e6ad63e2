/** The A64 instructions the code generator emits for constants and constant
    operands: decoding of a word and its effect on the general registers
    (Arm Architecture Reference Manual, DDI 0487, chapters C4 and C6). */
module A64 {
  import opened Wrappers
  import BitmaskImm

  datatype LogicalOp = Conj | Orr | Eor

  datatype ShiftOp = Lsl | Lsr | Asr

  datatype Insn =
    | Constant(rd: bv32, value: bv64)                                  // MOVZ, MOVN
    | Insert(rd: bv32, mask: bv64, bits: bv64)                         // MOVK
    | AddSubImm(wide: bool, sub: bool, rd: bv32, rn: bv32, imm: bv64)
    | AddSubReg(wide: bool, sub: bool, rd: bv32, rn: bv32, rm: bv32)
    | LogicalImm(wide: bool, op: LogicalOp, rd: bv32, rn: bv32, imm: bv64)
    | LogicalReg(wide: bool, op: LogicalOp, invert: bool, rd: bv32, rn: bv32, rm: bv32)
    | Bitfield(wide: bool, signed: bool, rd: bv32, rn: bv32, immr: bv32, imms: bv32)
    | ShiftReg(wide: bool, shift: ShiftOp, rd: bv32, rn: bv32, rm: bv32)
    | AddSubExt(wide: bool, sub: bool, rd: bv32, rn: bv32, rm: bv32)
    | Nop
    | Undefined

  // ----- decoding -----

  function Wide(w: bv32): bool {
    w & 0x8000_0000 != 0
  }

  function HalfwordMask(hw: bv32): bv64 {
    if hw == 0 then 0xffff
    else if hw == 1 then 0xffff_0000
    else if hw == 2 then 0xffff_0000_0000
    else 0xffff_0000_0000_0000
  }

  function HalfwordAt(imm: bv64, hw: bv32): bv64 {
    if hw == 0 then imm
    else if hw == 1 then imm << 16
    else if hw == 2 then imm << 32
    else imm << 48
  }

  /** What a 32-bit or 64-bit operation leaves in the register. */
  function Sized(wide: bool, x: bv64): bv64 {
    if wide then x else x & 0xffff_ffff
  }

  function Not(x: bv64): bv64 {
    !x
  }

  function MoveWide(wide: bool, opc: bv32, rd: bv32, hw: bv32, imm: bv64): Insn {
    if !wide && 2 <= hw then Undefined
    else if opc == 2 then Constant(rd, HalfwordAt(imm, hw))
    else if opc == 0 then Constant(rd, Sized(wide, Not(HalfwordAt(imm, hw))))
    else if opc == 3 then Insert(rd, HalfwordMask(hw), HalfwordAt(imm, hw))
    else Undefined
  }

  function AddSubImmediate(w: bv32): Insn {
    var imm := ((w >> 10) & 0xfff) as bv64;
    if w & 0x2000_0000 != 0 then Undefined
    else AddSubImm(Wide(w), w & 0x4000_0000 != 0, w & 31, (w >> 5) & 31, if w & 0x40_0000 != 0 then imm << 12 else imm)
  }

  function LogicalOpOf(opc: bv32): Option<LogicalOp> {
    if opc == 0 then Some(Conj) else if opc == 1 then Some(Orr) else if opc == 2 then Some(Eor) else None
  }

  function LogicalImmediate(w: bv32): Insn {
    var op := LogicalOpOf((w >> 29) & 3);
    var imm := BitmaskImm.Decode((w >> 10) & 0x1fff);
    if op.None? || imm.None? || (!Wide(w) && w & 0x40_0000 != 0) then Undefined
    else LogicalImm(Wide(w), op.value, w & 31, (w >> 5) & 31, Sized(Wide(w), imm.value))
  }

  function BitfieldMove(w: bv32): Insn {
    var opc := (w >> 29) & 3;
    if (opc == 0 || opc == 2) && ((w & 0x40_0000 != 0) == Wide(w)) then
      Bitfield(Wide(w), opc == 0, w & 31, (w >> 5) & 31, (w >> 16) & 63, (w >> 10) & 63)
    else Undefined
  }

  /** Shifted-register forms; only the unshifted operand is modelled. */
  function LogicalRegister(w: bv32): Insn {
    var op := LogicalOpOf((w >> 29) & 3);
    if op.None? || w & 0xc0_fc00 != 0 then Undefined
    else LogicalReg(Wide(w), op.value, w & 0x20_0000 != 0, w & 31, (w >> 5) & 31, (w >> 16) & 31)
  }

  function AddSubRegister(w: bv32): Insn {
    if w & 0x20c0_fc00 != 0 then Undefined
    else AddSubReg(Wide(w), w & 0x4000_0000 != 0, w & 31, (w >> 5) & 31, (w >> 16) & 31)
  }

  /** Extended-register forms; only UXTX without a shift is modelled. */
  function AddSubExtended(w: bv32): Insn {
    if w & 0x20c0_fc00 != 0x6000 then Undefined
    else AddSubExt(Wide(w), w & 0x4000_0000 != 0, w & 31, (w >> 5) & 31, (w >> 16) & 31)
  }

  function TwoSource(w: bv32): Insn {
    var op := (w >> 10) & 63;
    if op == 8 then ShiftReg(Wide(w), Lsl, w & 31, (w >> 5) & 31, (w >> 16) & 31)
    else if op == 9 then ShiftReg(Wide(w), Lsr, w & 31, (w >> 5) & 31, (w >> 16) & 31)
    else if op == 10 then ShiftReg(Wide(w), Asr, w & 31, (w >> 5) & 31, (w >> 16) & 31)
    else Undefined
  }

  function Decode(w: bv32): Insn {
    if w & 0x1f80_0000 == 0x1280_0000 then
      MoveWide(Wide(w), (w >> 29) & 3, w & 31, (w >> 21) & 3, ((w >> 5) & 0xffff) as bv64)
    else if w & 0x1f80_0000 == 0x1100_0000 then AddSubImmediate(w)
    else if w & 0x1f80_0000 == 0x1200_0000 then LogicalImmediate(w)
    else if w & 0x1f80_0000 == 0x1300_0000 then BitfieldMove(w)
    else if w & 0x1f00_0000 == 0x0a00_0000 then LogicalRegister(w)
    else if w & 0x1f20_0000 == 0x0b00_0000 then AddSubRegister(w)
    else if w & 0x1f20_0000 == 0x0b20_0000 then AddSubExtended(w)
    else if w & 0x7fe0_0000 == 0x1ac0_0000 then TwoSource(w)
    else if w == 0xd503_201f then Nop
    else Undefined
  }

  // ----- execution -----

  /** The general registers by number; number 31 is the stack pointer. */
  type Regs = bv32 -> bv64

  function Set(s: Regs, r: bv32, v: bv64): Regs {
    (q: bv32) => if q == r then v else s(q)
  }

  /** Data operands read and write number 31 as the zero register. */
  function Read(s: Regs, r: bv32): bv64 {
    if r == 31 then 0 else s(r)
  }

  function Write(s: Regs, r: bv32, v: bv64): Regs {
    if r == 31 then s else Set(s, r, v)
  }

  function Merge(before: bv64, mask: bv64, bits: bv64): bv64 {
    (before & !mask) | bits
  }

  function AddOrSub(sub: bool, a: bv64, b: bv64): bv64 {
    if sub then a - b else a + b
  }

  function Logical(op: LogicalOp, a: bv64, b: bv64): bv64 {
    match op
    case Conj => a & b
    case Orr => a | b
    case Eor => a ^ b
  }

  /** A shift by a register: the distance is taken modulo the width. */
  function Shifted(wide: bool, shift: ShiftOp, a: bv64, b: bv64): bv64 {
    if wide then
      match shift
      case Lsl => a << (b & 63)
      case Lsr => a >> (b & 63)
      case Asr => ArithmeticRight(a, b & 63)
    else
      match shift
      case Lsl => (a & 0xffff_ffff) << (b & 31)
      case Lsr => (a & 0xffff_ffff) >> (b & 31)
      case Asr => ArithmeticRight(SignExtend32(a), b & 31)
  }

  function SignExtend32(a: bv64): bv64 {
    if a & 0x8000_0000 != 0 then a | 0xffff_ffff_0000_0000 else a & 0xffff_ffff
  }

  function ArithmeticRight(a: bv64, n: bv64): bv64
    requires n < 64
  {
    if a & 0x8000_0000_0000_0000 != 0 then !(!a >> n) else a >> n
  }

  /** UBFM and SBFM in their shift forms: a right shift when imms is the top
      bit, a left shift when imms + 1 == immr. Other forms are not modelled. */
  function BitfieldValue(wide: bool, signed: bool, a: bv64, immr: bv32, imms: bv32): bv64 {
    var width: bv32 := if wide then 64 else 32;
    if imms == width - 1 && immr < width then
      Shifted(wide, if signed then Asr else Lsr, a, immr as bv64)
    else if !signed && imms < width - 1 && immr == imms + 1 then
      Shifted(wide, Lsl, a, (width - immr) as bv64)
    else 0
  }

  function Step(i: Insn, s: Regs): Regs {
    match i
    case Constant(rd, v) => Write(s, rd, v)
    case Insert(rd, mask, bits) => Write(s, rd, Merge(Read(s, rd), mask, bits))
    case AddSubImm(wide, sub, rd, rn, imm) => Set(s, rd, Sized(wide, AddOrSub(sub, s(rn), imm)))
    case AddSubReg(wide, sub, rd, rn, rm) => Write(s, rd, Sized(wide, AddOrSub(sub, Read(s, rn), Read(s, rm))))
    case LogicalImm(wide, op, rd, rn, imm) => Set(s, rd, Sized(wide, Logical(op, Read(s, rn), imm)))
    case LogicalReg(wide, op, inv, rd, rn, rm) =>
      Write(s, rd, Sized(wide, Logical(op, Read(s, rn), if inv then Not(Read(s, rm)) else Read(s, rm))))
    case ShiftReg(wide, shift, rd, rn, rm) => Write(s, rd, Sized(wide, Shifted(wide, shift, Read(s, rn), Read(s, rm))))
    case AddSubExt(wide, sub, rd, rn, rm) => Set(s, rd, Sized(wide, AddOrSub(sub, s(rn), Read(s, rm))))
    case Bitfield(wide, signed, rd, rn, immr, imms) =>
      Write(s, rd, Sized(wide, BitfieldValue(wide, signed, Read(s, rn), immr, imms)))
    case Nop => s
    case Undefined => s
  }

  function Run(ws: seq<bv32>, s: Regs): Regs {
    if ws == [] then s else Step(Decode(ws[|ws| - 1]), Run(ws[..|ws| - 1], s))
  }

  /** Every word is one of the instructions above. */
  ghost predicate Defined(ws: seq<bv32>) {
    forall i :: 0 <= i < |ws| ==> Decode(ws[i]) != Undefined
  }

  /** Executing ws leaves v in register r and changes no other register. */
  ghost predicate Leaves(ws: seq<bv32>, r: bv32, v: bv64) {
    Defined(ws) && forall s: Regs, q: bv32 :: Run(ws, s)(q) == if q == r then v else s(q)
  }

  lemma RunNext(ws: seq<bv32>, w: bv32, i: Insn, s: Regs)
    requires Decode(w) == i
    ensures Run(ws + [w], s) == Step(i, Run(ws, s))
  {
    hide Decode, Step;
    assert (ws + [w])[..|ws|] == ws;
  }

  // ----- words as they are known -----

  /** `movz x0, #1`, `movn x0, #0`, `movn w0, #0`, `movk x0, #1, lsl #16` and `nop`. */
  lemma KnownMoves()
    ensures Decode(0xd280_0020) == Constant(0, 1)
    ensures Decode(0x9280_0000) == Constant(0, 0xffff_ffff_ffff_ffff)
    ensures Decode(0x1280_0000) == Constant(0, 0xffff_ffff)
    ensures Decode(0xf2a0_0020) == Insert(0, 0xffff_0000, 0x1_0000)
    ensures Decode(0xd503_201f) == Nop
  {
  }

  /** `add x0, x1, #1`, `sub sp, sp, #16`, `add x0, x1, #1, lsl #12`,
      `add x0, x1, x2`, `sub w0, w1, w2` and `sub sp, sp, x16`. */
  lemma KnownSums()
    ensures Decode(0x9100_0420) == AddSubImm(true, false, 0, 1, 1)
    ensures Decode(0xd100_43ff) == AddSubImm(true, true, 31, 31, 16)
    ensures Decode(0x9140_0420) == AddSubImm(true, false, 0, 1, 0x1000)
    ensures Decode(0x8b02_0020) == AddSubReg(true, false, 0, 1, 2)
    ensures Decode(0x4b02_0020) == AddSubReg(false, true, 0, 1, 2)
    ensures Decode(0xcb30_63ff) == AddSubExt(true, true, 31, 31, 16)
  {
  }

  /** `and x0, x1, x2`, `orr x0, xzr, x1`, `eor w0, w1, w2`, `bic x0, x1, x2`,
      `lsl x0, x1, x2`, `lsr x0, x1, x2`, `asr x0, x1, x2`, `lsr x0, x1, #4`
      and `asr w0, w1, #4`. */
  lemma KnownLogic()
    ensures Decode(0x8a02_0020) == LogicalReg(true, Conj, false, 0, 1, 2)
    ensures Decode(0xaa01_03e0) == LogicalReg(true, Orr, false, 0, 31, 1)
    ensures Decode(0x4a02_0020) == LogicalReg(false, Eor, false, 0, 1, 2)
    ensures Decode(0x8a22_0020) == LogicalReg(true, Conj, true, 0, 1, 2)
    ensures Decode(0x9ac2_2020) == ShiftReg(true, Lsl, 0, 1, 2)
    ensures Decode(0x9ac2_2420) == ShiftReg(true, Lsr, 0, 1, 2)
    ensures Decode(0x9ac2_2820) == ShiftReg(true, Asr, 0, 1, 2)
    ensures Decode(0xd344_fc20) == Bitfield(true, false, 0, 1, 4, 63)
    ensures Decode(0x1304_7c20) == Bitfield(false, true, 0, 1, 4, 31)
  {
  }

  /** `and x0, x1, #0xff` and `eor w0, w1, #0x55555555`. */
  lemma KnownMasks()
    ensures BitmaskImm.Decode(0x1007) == Some(0xff) && BitmaskImm.Decode(0x3c) == Some(0x5555_5555_5555_5555)
    ensures Decode(0x9240_1c20) == LogicalImm(true, Conj, 0, 1, 0xff)
    ensures Decode(0x5200_f020) == LogicalImm(false, Eor, 0, 1, 0x5555_5555)
  {
  }

  /** What the operations of the instructions yield. */
  lemma KnownOperations()
    ensures AddOrSub(false, 5, 3) == 8 && AddOrSub(true, 3, 5) == 0xffff_ffff_ffff_fffe
    ensures Logical(Conj, 12, 10) == 8 && Logical(Orr, 12, 10) == 14 && Logical(Eor, 12, 10) == 6
  {
  }

  lemma KnownShifts()
    ensures Shifted(true, Lsl, 3, 65) == 6 && Shifted(false, Lsl, 0x8000_0003, 33) == 0x1_0000_0006
    ensures Shifted(true, Lsr, 0x8000_0000_0000_0006, 1) == 0x4000_0000_0000_0003
    ensures Shifted(false, Lsr, 0x1_8000_0006, 1) == 0x4000_0003
  {
  }

  lemma KnownSignShifts()
    ensures Shifted(true, Asr, 0x8000_0000_0000_0006, 1) == 0xc000_0000_0000_0003
    ensures Shifted(true, Asr, 6, 65) == 3
    ensures Shifted(false, Asr, 0x1_8000_0006, 1) == 0xffff_ffff_c000_0003
  {
  }

  lemma KnownInsertion()
    ensures Merge(0x1111_2222_3333_4444, 0xffff_0000, 0x5555_0000) == 0x1111_2222_5555_4444
  {
  }
}
