/** `arm64_gen_opic` (an integer operation with a constant operand) against
    `arm64_gen_opil` (the same operation on two registers). */
module ConstOperand {
  import opened Wrappers
  import opened A64
  import opened MoveImm
  import opened Text
  import opened StackSetup
  import BitmaskImm

  datatype Op = Add | Sub | And | Or | Xor | Shl | Shr | Sar

  predicate IsShift(op: Op) {
    op == Shl || op == Shr || op == Sar
  }

  predicate IsLogical(op: Op) {
    op == And || op == Or || op == Xor
  }

  // ----- instruction words -----

  /** `l << 31` */
  function Flag(wide: bool): bv32 {
    if wide then 0x8000_0000 else 0
  }

  predicate IsFlag(l: bv32) {
    l == 0x8000_0000 || l == 0
  }

  lemma FlagIs(wide: bool)
    ensures IsFlag(Flag(wide)) && (Flag(wide) != 0 <==> wide)
  {
  }

  /** A word with register x in bits 0 to 4 and a in bits 5 to 9. */
  function Word(opcode: bv32, l: bv32, x: bv32, a: bv32, rest: bv32): bv32 {
    opcode | l | x | (a << 5) | rest
  }

  function RegisterOpcode(op: Op): bv32 {
    match op
    case Add => 0x0b00_0000
    case Sub => 0x4b00_0000
    case And => 0x0a00_0000
    case Or => 0x2a00_0000
    case Xor => 0x4a00_0000
    case Shl => 0x1ac0_2000
    case Shr => 0x1ac0_2400
    case Sar => 0x1ac0_2800
  }

  /** The word `arm64_gen_opil` emits for x := a op b. */
  function RegisterWord(op: Op, wide: bool, x: bv32, a: bv32, b: bv32): bv32 {
    Word(RegisterOpcode(op), Flag(wide), x, a, b << 16)
  }

  function RegisterInsn(op: Op, wide: bool, x: bv32, a: bv32, b: bv32): Insn {
    match op
    case Add => AddSubReg(wide, false, x, a, b)
    case Sub => AddSubReg(wide, true, x, a, b)
    case And => LogicalReg(wide, Conj, false, x, a, b)
    case Or => LogicalReg(wide, Orr, false, x, a, b)
    case Xor => LogicalReg(wide, Eor, false, x, a, b)
    case Shl => ShiftReg(wide, Lsl, x, a, b)
    case Shr => ShiftReg(wide, Lsr, x, a, b)
    case Sar => ShiftReg(wide, Asr, x, a, b)
  }

  lemma AddSubRegDecodes(opcode: bv32, l: bv32, x: bv32, a: bv32, b: bv32, w: bv32)
    requires opcode == 0x0b00_0000 || opcode == 0x4b00_0000
    requires IsFlag(l) && x < 31 && a < 32 && b < 32 && w == Word(opcode, l, x, a, b << 16)
    ensures Decode(w) == AddSubReg(l != 0, opcode == 0x4b00_0000, x, a, b)
  {
    hide MoveWide, AddSubImmediate, LogicalImmediate, BitfieldMove, LogicalRegister, AddSubExtended, TwoSource;
  }

  predicate IsLogicalReg(op: LogicalOp, opc: bv32, inv: bv32, l: bv32, x: bv32, a: bv32, b: bv32, w: bv32) {
    && ((op == Conj && opc == 0x0a00_0000) || (op == Orr && opc == 0x2a00_0000) || (op == Eor && opc == 0x4a00_0000))
    && (inv == 0 || inv == 0x20_0000)
    && IsFlag(l) && x < 31 && a < 32 && b < 32 && w == opc | inv | l | x | (a << 5) | (b << 16)
  }

  lemma LogicalRegClass(op: LogicalOp, opc: bv32, inv: bv32, l: bv32, x: bv32, a: bv32, b: bv32, w: bv32)
    requires IsLogicalReg(op, opc, inv, l, x, a, b, w)
    ensures Decode(w) == LogicalRegister(w)
  {
    hide MoveWide, AddSubImmediate, LogicalImmediate, BitfieldMove, LogicalRegister, AddSubRegister, AddSubExtended;
    hide TwoSource, Wide;
  }

  lemma LogicalRegBits(op: LogicalOp, opc: bv32, inv: bv32, l: bv32, x: bv32, a: bv32, b: bv32, w: bv32)
    requires IsLogicalReg(op, opc, inv, l, x, a, b, w)
    ensures w & 0xc0_fc00 == 0 && (w & 0x20_0000 != 0) == (inv != 0) && Wide(w) == (l != 0)
  {
  }

  lemma LogicalRegNumbers(op: LogicalOp, opc: bv32, inv: bv32, l: bv32, x: bv32, a: bv32, b: bv32, w: bv32)
    requires IsLogicalReg(op, opc, inv, l, x, a, b, w)
    ensures w & 31 == x && (w >> 5) & 31 == a && (w >> 16) & 31 == b
  {
  }

  lemma LogicalRegOp(op: LogicalOp, opc: bv32, inv: bv32, l: bv32, x: bv32, a: bv32, b: bv32, w: bv32)
    requires IsLogicalReg(op, opc, inv, l, x, a, b, w)
    ensures LogicalOpOf((w >> 29) & 3) == Some(op)
  {
    assert (w >> 29) & 3 == if opc == 0x0a00_0000 then 0 else if opc == 0x2a00_0000 then 1 else 2;
  }

  lemma LogicalRegisterIs(w: bv32)
    requires w & 0xc0_fc00 == 0 && LogicalOpOf((w >> 29) & 3).Some?
    ensures LogicalRegister(w) == LogicalReg(Wide(w), LogicalOpOf((w >> 29) & 3).value, w & 0x20_0000 != 0,
                                             w & 31, (w >> 5) & 31, (w >> 16) & 31)
  {
    hide Wide, LogicalOpOf;
  }

  lemma LogicalRegFields(op: LogicalOp, opc: bv32, inv: bv32, l: bv32, x: bv32, a: bv32, b: bv32, w: bv32)
    requires IsLogicalReg(op, opc, inv, l, x, a, b, w)
    ensures LogicalRegister(w) == LogicalReg(l != 0, op, inv != 0, x, a, b)
  {
    hide *;
    LogicalRegBits(op, opc, inv, l, x, a, b, w);
    LogicalRegNumbers(op, opc, inv, l, x, a, b, w);
    LogicalRegOp(op, opc, inv, l, x, a, b, w);
    LogicalRegisterIs(w);
  }

  lemma LogicalRegDecodes(op: LogicalOp, opc: bv32, inv: bv32, l: bv32, x: bv32, a: bv32, b: bv32, w: bv32)
    requires (op == Conj && opc == 0x0a00_0000) || (op == Orr && opc == 0x2a00_0000) ||
      (op == Eor && opc == 0x4a00_0000)
    requires inv == 0 || inv == 0x20_0000
    requires IsFlag(l) && x < 31 && a < 32 && b < 32 && w == opc | inv | l | x | (a << 5) | (b << 16)
    ensures Decode(w) == LogicalReg(l != 0, op, inv != 0, x, a, b)
  {
    hide Decode, LogicalRegister;
    LogicalRegClass(op, opc, inv, l, x, a, b, w);
    LogicalRegFields(op, opc, inv, l, x, a, b, w);
  }

  lemma ShiftRegDecodes(shift: ShiftOp, opc: bv32, l: bv32, x: bv32, a: bv32, b: bv32, w: bv32)
    requires (shift == Lsl && opc == 0x1ac0_2000) || (shift == Lsr && opc == 0x1ac0_2400) ||
      (shift == Asr && opc == 0x1ac0_2800)
    requires IsFlag(l) && x < 31 && a < 32 && b < 32 && w == Word(opc, l, x, a, b << 16)
    ensures Decode(w) == ShiftReg(l != 0, shift, x, a, b)
  {
    hide MoveWide, AddSubImmediate, LogicalImmediate, BitfieldMove, AddSubRegister, AddSubExtended, LogicalRegister;
  }

  predicate IsAddImm(w: bv32, l: bv32, s: bv32, shift: bv32, x: bv32, a: bv32, f: bv32) {
    && IsFlag(l) && (s == 0 || s == 0x4000_0000) && (shift == 0 || shift == 0x40_0000) && x < 31 && a < 31 && f <= 0xfff
    && w == 0x1100_0000 | shift | l | s | x | (a << 5) | (f << 10)
  }

  lemma AddImmClass(w: bv32, l: bv32, s: bv32, shift: bv32, x: bv32, a: bv32, f: bv32)
    requires IsAddImm(w, l, s, shift, x, a, f)
    ensures w & 0x1f80_0000 == 0x1100_0000 && w & 0x2000_0000 == 0
    ensures (w & 0x4000_0000 != 0) == (s != 0) && (w & 0x40_0000 != 0) == (shift != 0) && Wide(w) == (l != 0)
  {
  }

  lemma AddImmRegs(w: bv32, l: bv32, s: bv32, shift: bv32, x: bv32, a: bv32, f: bv32)
    requires IsAddImm(w, l, s, shift, x, a, f)
    ensures w & 31 == x && (w >> 5) & 31 == a && (w >> 10) & 0xfff == f
  {
  }

  lemma AddImmDispatch(w: bv32)
    requires w & 0x1f80_0000 == 0x1100_0000
    ensures Decode(w) == AddSubImmediate(w)
  {
    hide Wide, MoveWide, AddSubImmediate, LogicalImmediate, BitfieldMove, LogicalRegister, AddSubRegister;
    hide AddSubExtended, TwoSource;
  }

  function Immediate12(f: bv32): bv64 {
    f as bv64
  }

  function ShiftedField(shifted: bool, v: bv64): bv64 {
    if shifted then v << 12 else v
  }

  lemma AddImmReads(w: bv32)
    requires w & 0x2000_0000 == 0
    ensures AddSubImmediate(w) == AddSubImm(Wide(w), w & 0x4000_0000 != 0, w & 31, (w >> 5) & 31,
                                            ShiftedField(w & 0x40_0000 != 0, Immediate12((w >> 10) & 0xfff)))
  {
    hide Wide;
  }

  lemma AddImmDecodes(w: bv32, l: bv32, s: bv32, shift: bv32, x: bv32, a: bv32, f: bv32)
    requires IsAddImm(w, l, s, shift, x, a, f)
    ensures Decode(w) == AddSubImm(l != 0, s != 0, x, a, ShiftedField(shift != 0, Immediate12(f)))
  {
    hide *;
    AddImmClass(w, l, s, shift, x, a, f);
    AddImmRegs(w, l, s, shift, x, a, f);
    AddImmDispatch(w);
    AddImmReads(w);
  }

  predicate IsLogicalImm(opcode: bv32, opc: bv32, l: bv32, x: bv32, a: bv32, e: bv32, w: bv32) {
    && ((opcode == 0x1200_0000 && opc == 0) || (opcode == 0x3200_0000 && opc == 1) ||
      (opcode == 0x5200_0000 && opc == 2))
    && IsFlag(l) && x < 31 && a < 31 && e < 0x2000 && w == Word(opcode, l, x, a, e << 10)
  }

  lemma LogicalImmClass(opcode: bv32, opc: bv32, l: bv32, x: bv32, a: bv32, e: bv32, w: bv32)
    requires IsLogicalImm(opcode, opc, l, x, a, e, w)
    ensures w & 0x1f80_0000 == 0x1200_0000 && (w >> 29) & 3 == opc && Wide(w) == (l != 0)
  {
  }

  lemma LogicalImmRegs(opcode: bv32, opc: bv32, l: bv32, x: bv32, a: bv32, e: bv32, w: bv32)
    requires IsLogicalImm(opcode, opc, l, x, a, e, w)
    ensures w & 31 == x && (w >> 5) & 31 == a
  {
  }

  lemma LogicalImmImm(opcode: bv32, opc: bv32, l: bv32, x: bv32, a: bv32, e: bv32, w: bv32)
    requires IsLogicalImm(opcode, opc, l, x, a, e, w)
    ensures (w >> 10) & 0x1fff == e && (w & 0x40_0000 != 0) == (e & 0x1000 != 0)
  {
  }

  lemma LogicalImmFields(opcode: bv32, opc: bv32, l: bv32, x: bv32, a: bv32, e: bv32, w: bv32)
    requires (opcode == 0x1200_0000 && opc == 0) || (opcode == 0x3200_0000 && opc == 1) ||
      (opcode == 0x5200_0000 && opc == 2)
    requires IsFlag(l) && x < 31 && a < 31 && e < 0x2000 && w == Word(opcode, l, x, a, e << 10)
    ensures w & 0x1f80_0000 == 0x1200_0000 && (w >> 29) & 3 == opc && (w >> 10) & 0x1fff == e
    ensures w & 31 == x && (w >> 5) & 31 == a && Wide(w) == (l != 0) && (w & 0x40_0000 != 0) == (e & 0x1000 != 0)
  {
    hide Word, Wide, IsFlag;
    assert IsLogicalImm(opcode, opc, l, x, a, e, w);
    hide IsLogicalImm;
    LogicalImmClass(opcode, opc, l, x, a, e, w);
    LogicalImmRegs(opcode, opc, l, x, a, e, w);
    LogicalImmImm(opcode, opc, l, x, a, e, w);
  }

  predicate IsBitfield(w: bv32, opcode: bv32, l: bv32, n: bv32, x: bv32, a: bv32, immr: bv32, imms: bv32) {
    && (opcode == 0x1300_0000 || opcode == 0x5300_0000) && ((l == 0 && n == 0) || (l == 0x8000_0000 && n == 0x40_0000))
    && x < 31 && a < 31 && immr < 64 && imms < 64
    && w == opcode | l | n | x | (a << 5) | (immr << 16) | (imms << 10)
  }

  lemma BitfieldClass(w: bv32, opcode: bv32, l: bv32, n: bv32, x: bv32, a: bv32, immr: bv32, imms: bv32)
    requires IsBitfield(w, opcode, l, n, x, a, immr, imms)
    ensures w & 0x1f80_0000 == 0x1300_0000 && (w >> 29) & 3 == (if opcode == 0x1300_0000 then 0 else 2)
    ensures (w & 0x40_0000 != 0) == (l != 0) && Wide(w) == (l != 0)
  {
  }

  lemma BitfieldRegs(w: bv32, opcode: bv32, l: bv32, n: bv32, x: bv32, a: bv32, immr: bv32, imms: bv32)
    requires IsBitfield(w, opcode, l, n, x, a, immr, imms)
    ensures w & 31 == x && (w >> 5) & 31 == a
  {
  }

  lemma BitfieldImmr(w: bv32, opcode: bv32, l: bv32, n: bv32, x: bv32, a: bv32, immr: bv32, imms: bv32)
    requires IsBitfield(w, opcode, l, n, x, a, immr, imms)
    ensures (w >> 16) & 63 == immr
  {
  }

  lemma BitfieldImms(w: bv32, opcode: bv32, l: bv32, n: bv32, x: bv32, a: bv32, immr: bv32, imms: bv32)
    requires IsBitfield(w, opcode, l, n, x, a, immr, imms)
    ensures (w >> 10) & 63 == imms
  {
  }

  lemma BitfieldReads(w: bv32, wide: bool, signed: bool, x: bv32, a: bv32, immr: bv32, imms: bv32)
    requires w & 0x1f80_0000 == 0x1300_0000 && (w >> 29) & 3 == (if signed then 0 else 2)
    requires (w & 0x40_0000 != 0) == wide && Wide(w) == wide
    requires w & 31 == x && (w >> 5) & 31 == a && (w >> 16) & 63 == immr && (w >> 10) & 63 == imms
    ensures Decode(w) == Bitfield(wide, signed, x, a, immr, imms)
  {
    hide Wide, MoveWide, AddSubImmediate, LogicalImmediate, LogicalRegister, AddSubRegister, AddSubExtended, TwoSource;
  }

  lemma BitfieldDecodes(w: bv32, opcode: bv32, l: bv32, n: bv32, x: bv32, a: bv32, immr: bv32, imms: bv32)
    requires IsBitfield(w, opcode, l, n, x, a, immr, imms)
    ensures Decode(w) == Bitfield(l != 0, opcode == 0x1300_0000, x, a, immr, imms)
  {
    hide *;
    BitfieldClass(w, opcode, l, n, x, a, immr, imms);
    BitfieldRegs(w, opcode, l, n, x, a, immr, imms);
    BitfieldImmr(w, opcode, l, n, x, a, immr, imms);
    BitfieldImms(w, opcode, l, n, x, a, immr, imms);
    BitfieldReads(w, l != 0, opcode == 0x1300_0000, x, a, immr, imms);
  }

  // ----- values -----

  /** `l ? val : (uint32_t)val` is `Sized`. The sign the addition path looks at. */
  function Negative(wide: bool, val: bv64): bool {
    if wide then val >> 63 != 0 else (val & 0xffff_ffff) >> 31 != 0
  }

  function Neg(val: bv64): bv64 {
    0 - val
  }

  /** What the addition path adds or subtracts. */
  function Magnitude(wide: bool, val: bv64): bv64 {
    Sized(wide, if Negative(wide, val) then Neg(Sized(wide, val)) else Sized(wide, val))
  }

  lemma ComplementIs(p: bv64)
    ensures 0xffff_ffff_ffff_ffff - p == !p
  {
  }

  lemma NarrowComplement(p: bv64)
    ensures (0xffff_ffff - p) & 0xffff_ffff == !p & 0xffff_ffff
  {
  }

  lemma XorOnes(p: bv64)
    ensures p ^ 0xffff_ffff_ffff_ffff == !p
  {
  }

  lemma NarrowXorOnes(p: bv64)
    ensures (p ^ 0xffff_ffff) & 0xffff_ffff == !p & 0xffff_ffff
  {
  }

  /** The value of p op q before it is cut to the width. */
  function Value(op: Op, wide: bool, p: bv64, q: bv64): bv64 {
    match op
    case Add => AddOrSub(false, p, q)
    case Sub => AddOrSub(true, p, q)
    case And => Logical(Conj, p, q)
    case Or => Logical(Orr, p, q)
    case Xor => Logical(Eor, p, q)
    case Shl => Shifted(wide, Lsl, p, q)
    case Shr => Shifted(wide, Lsr, p, q)
    case Sar => Shifted(wide, Asr, p, q)
  }

  /** The result with the constant val on one side, on the left if rev. */
  function Result(op: Op, wide: bool, rev: bool, p: bv64, val: bv64): bv64 {
    Sized(wide, if rev then Value(op, wide, val, p) else Value(op, wide, p, val))
  }

  /** Executing ws leaves the result of register a and the constant in register
      x and changes no other register, except x30. */
  ghost predicate Computes(ws: seq<bv32>, op: Op, wide: bool, rev: bool, val: bv64, x: bv32, a: bv32) {
    && Defined(ws)
    && forall s: Regs, q: bv32 :: q != 30 ==> Run(ws, s)(q) == if q == x then Result(op, wide, rev, s(a), val) else s(q)
  }

  /** A result of the same value is the same computation. */
  lemma Transfer(ws: seq<bv32>, op: Op, rev: bool, val: bv64, op': Op, rev': bool, val': bv64, wide: bool, x: bv32,
                 a: bv32)
    requires Computes(ws, op, wide, rev, val, x, a)
    requires forall p: bv64 :: Result(op, wide, rev, p, val) == Result(op', wide, rev', p, val')
    ensures Computes(ws, op', wide, rev', val', x, a)
  {
    hide Result;
  }

  lemma OneWord(w: bv32, i: Insn)
    requires Decode(w) == i && i != Undefined
    ensures Defined([w]) && forall s: Regs :: Run([w], s) == Step(i, s)
  {
    hide Decode, Step;
    assert [] + [w] == [w];
    forall s: Regs ensures Run([w], s) == Step(i, s) {
      RunNext([], w, i, s);
    }
  }

  /** One instruction that writes the result. */
  lemma OneComputes(w: bv32, i: Insn, op: Op, wide: bool, rev: bool, val: bv64, x: bv32, a: bv32)
    requires Decode(w) == i && i != Undefined
    requires forall s: Regs :: Step(i, s) == Set(s, x, Result(op, wide, rev, s(a), val))
    ensures Computes([w], op, wide, rev, val, x, a)
  {
    hide Decode, Result, Step;
    OneWord(w, i);
  }

  /** The same after x30 has been loaded. */
  lemma LoadedComputes(ws: seq<bv32>, v: bv64, w: bv32, i: Insn, op: Op, wide: bool, rev: bool, val: bv64, x: bv32,
                       a: bv32)
    requires Leaves(ws, 30, v) && Decode(w) == i && i != Undefined && a != 30 && x != 30
    requires forall s: Regs :: s(30) == v ==> Step(i, s) == Set(s, x, Result(op, wide, rev, s(a), val))
    ensures Computes(ws + [w], op, wide, rev, val, x, a)
  {
    hide Decode, Result, Step;
    forall s: Regs, q: bv32 | q != 30
      ensures Run(ws + [w], s)(q) == if q == x then Result(op, wide, rev, s(a), val) else s(q)
    {
      RunNext(ws, w, i, s);
    }
  }

  // ----- the addition path -----

  lemma AddOrSubIs(p: bv64, q: bv64)
    ensures AddOrSub(false, p, q) == Plus(p, q) && AddOrSub(true, p, q) == Minus(p, q)
  {
  }

  lemma NegIs(v: bv64)
    ensures Neg(v) == 0 - v
  {
  }

  lemma NarrowIs(v: bv64)
    ensures Sized(false, v) == v & 0xffff_ffff
  {
  }

  lemma PlusOfNegated(p: bv64, v: bv64)
    ensures Plus(p, 0 - v) == Minus(p, v) && Minus(p, 0 - v) == Plus(p, v)
  {
  }

  lemma PlusNegated(p: bv64, v: bv64)
    ensures Plus(p, Neg(v)) == Minus(p, v) && Minus(p, Neg(v)) == Plus(p, v)
  {
    hide *;
    NegIs(v);
    PlusOfNegated(p, v);
  }

  // 32-bit sums, differences and negations.

  function SumOf(p: bv64, q: bv64): bv64 {
    (p + q) & 0xffff_ffff
  }

  function DifferenceOf(p: bv64, q: bv64): bv64 {
    (p - q) & 0xffff_ffff
  }

  function NegationOf(q: bv64): bv64 {
    (0 - q) & 0xffff_ffff
  }

  lemma NarrowForms(p: bv64, q: bv64)
    ensures Sized(false, Plus(p, q)) == SumOf(p, q) && Sized(false, Minus(p, q)) == DifferenceOf(p, q)
    ensures Sized(false, Neg(q)) == NegationOf(q)
  {
  }

  lemma NegationNarrowed(v: bv64)
    ensures NegationOf(v & 0xffff_ffff) == (0 - (v & 0xffff_ffff)) & 0xffff_ffff
  {
  }

  lemma DifferenceNegated(p: bv64, v: bv64)
    ensures DifferenceOf(p, (0 - (v & 0xffff_ffff)) & 0xffff_ffff) == SumOf(p, v)
  {
    NarrowNegated(p, v);
  }

  lemma OperandNarrowed(p: bv64, v: bv64)
    ensures SumOf(p, v & 0xffff_ffff) == SumOf(p, v) && DifferenceOf(v & 0xffff_ffff, p) == DifferenceOf(v, p)
  {
  }

  lemma NarrowMinusNegated(p: bv64, v: bv64)
    ensures Sized(false, Minus(p, Sized(false, Neg(Sized(false, v))))) == Sized(false, Plus(p, v))
  {
    hide *;
    NarrowIs(v);
    NarrowForms(p, v);
    NarrowForms(p, Sized(false, v));
    NegationNarrowed(v);
    NarrowForms(p, NegationOf(v & 0xffff_ffff));
    DifferenceNegated(p, v);
  }

  lemma NarrowPlus(p: bv64, v: bv64)
    ensures Sized(false, Plus(p, Sized(false, v))) == Sized(false, Plus(p, v))
    ensures Sized(false, Minus(Sized(false, v), p)) == Sized(false, Minus(v, p))
  {
    hide *;
    NarrowIs(v);
    NarrowForms(p, Sized(false, v));
    NarrowForms(Sized(false, v), p);
    NarrowForms(p, v);
    NarrowForms(v, p);
    OperandNarrowed(p, v);
  }

  lemma SizedTwice(v: bv64)
    ensures Sized(false, Sized(false, v)) == Sized(false, v)
  {
  }

  lemma NarrowNegated(p: bv64, v: bv64)
    ensures (p - ((0 - (v & 0xffff_ffff)) & 0xffff_ffff)) & 0xffff_ffff == (p + v) & 0xffff_ffff
  {
  }

  lemma MagnitudeIs(wide: bool, val: bv64)
    ensures Magnitude(wide, val) == Sized(wide, if Negative(wide, val) then Neg(Sized(wide, val)) else Sized(wide, val))
  {
  }

  lemma SizedWide(v: bv64)
    ensures Sized(true, v) == v
  {
  }

  /** Adding or subtracting the magnitude is adding the constant. */
  lemma MagnitudeAdds(wide: bool, p: bv64, val: bv64)
    ensures Sized(wide, AddOrSub(Negative(wide, val), p, Magnitude(wide, val))) == Sized(wide, AddOrSub(false, p, val))
  {
    hide *;
    MagnitudeIs(wide, val);
    SizedWide(val);
    SizedWide(Neg(val));
    AddOrSubIs(p, Magnitude(wide, val));
    AddOrSubIs(p, val);
    PlusNegated(p, val);
    NarrowMinusNegated(p, val);
    NarrowPlus(p, val);
    SizedTwice(val);
  }

  function AddImmWord(shift: bv32, l: bv32, s: bv32, x: bv32, a: bv32, f: bv32): bv32 {
    0x1100_0000 | shift | l | s | x | (a << 5) | (f << 10)
  }

  function Sign(negative: bool): bv32 {
    if negative then 0x4000_0000 else 0
  }

  function LowField(m: bv64): bv32 {
    (m & 0xfff) as bv32
  }

  function UpperField(m: bv64): bv32 {
    ((m >> 12) & 0xfff) as bv32
  }

  predicate FitsLow(m: bv64) {
    m & 0xffff_ffff_ffff_f000 == 0
  }

  predicate FitsUpper(m: bv64) {
    m & 0xffff_ffff_ff00_0fff == 0
  }

  lemma LowFieldIs(m: bv64)
    requires FitsLow(m)
    ensures LowField(m) <= 0xfff && ShiftedField(false, Immediate12(LowField(m))) == m
  {
  }

  lemma UpperFieldIs(m: bv64)
    requires FitsUpper(m)
    ensures UpperField(m) <= 0xfff && ShiftedField(true, Immediate12(UpperField(m))) == m
  {
  }

  lemma AddImmWordIs(wide: bool, negative: bool, shifted: bool, x: bv32, a: bv32, f: bv32)
    requires x < 31 && a < 31 && f <= 0xfff
    ensures IsAddImm(AddImmWord(if shifted then 0x40_0000 else 0, Flag(wide), Sign(negative), x, a, f),
                     Flag(wide), Sign(negative), if shifted then 0x40_0000 else 0, x, a, f)
    ensures Sign(negative) != 0 <==> negative
  {
  }

  /** The immediate forms add the constant. */
  lemma AddImmComputes(w: bv32, wide: bool, val: bv64, shifted: bool, x: bv32, a: bv32, f: bv32)
    requires x < 31 && a < 31 && f <= 0xfff && ShiftedField(shifted, Immediate12(f)) == Magnitude(wide, val)
    requires w == AddImmWord(if shifted then 0x40_0000 else 0, Flag(wide), Sign(Negative(wide, val)), x, a, f)
    ensures Computes([w], Add, wide, false, val, x, a)
  {
    hide *;
    var negative := Negative(wide, val);
    FlagIs(wide);
    AddImmWordIs(wide, negative, shifted, x, a, f);
    AddImmDecodes(w, Flag(wide), Sign(negative), if shifted then 0x40_0000 else 0, x, a, f);
    AddImmSteps(w, wide, val, x, a);
  }

  lemma AddImmSteps(w: bv32, wide: bool, val: bv64, x: bv32, a: bv32)
    requires Decode(w) == AddSubImm(wide, Negative(wide, val), x, a, Magnitude(wide, val)) && x < 31 && a < 31
    ensures Computes([w], Add, wide, false, val, x, a)
  {
    hide Decode, Negative, Magnitude, Sized, AddOrSub, Computes;
    var i := AddSubImm(wide, Negative(wide, val), x, a, Magnitude(wide, val));
    forall s: Regs ensures Step(i, s) == Set(s, x, Result(Add, wide, false, s(a), val)) {
      MagnitudeAdds(wide, s(a), val);
    }
    OneComputes(w, i, Add, wide, false, val, x, a);
  }

  lemma AddLoadedSteps(ws: seq<bv32>, w: bv32, wide: bool, val: bv64, x: bv32, a: bv32)
    requires Leaves(ws, 30, Magnitude(wide, val)) && x < 30 && a < 30
    requires Decode(w) == AddSubReg(wide, Negative(wide, val), x, a, 30)
    ensures Computes(ws + [w], Add, wide, false, val, x, a)
  {
    hide Decode, Negative, Magnitude, Sized, AddOrSub, Computes, Leaves;
    var i := AddSubReg(wide, Negative(wide, val), x, a, 30);
    var v := Magnitude(wide, val);
    forall s: Regs | s(30) == v ensures Step(i, s) == Set(s, x, Result(Add, wide, false, s(a), val)) {
      MagnitudeAdds(wide, s(a), val);
    }
    LoadedComputes(ws, v, w, i, Add, wide, false, val, x, a);
  }

  /** Twelve bits, or twelve bits shifted left by twelve. */
  predicate Short(m: bv64) {
    m <= 0xfff || (m & 0xfff == 0 && m <= 0xff_f000)
  }

  lemma ShortIs(m: bv64)
    ensures FitsLow(m) || FitsUpper(m) <==> Short(m)
  {
  }

  /** neg is the negation of v at the width, and negative its sign bit. */
  predicate SignOf(wide: bool, v: bv64, neg: bv64, negative: bool) {
    if wide then neg == 0 - v && negative == (v >> 63 != 0)
    else v <= 0xffff_ffff && neg == (0 - v) & 0xffff_ffff && negative == (v >> 31 != 0)
  }

  lemma ShortWide(v: bv64, neg: bv64, negative: bool)
    requires SignOf(true, v, neg, negative)
    ensures Short(if negative then neg else v) <==> Short(v) || Short(neg)
  {
  }

  lemma ShortNarrow(v: bv64, neg: bv64, negative: bool)
    requires SignOf(false, v, neg, negative)
    ensures Short(if negative then neg else v) <==> Short(v) || Short(neg)
  {
  }

  /** The constant at the width, or its negation there, has an immediate form. */
  predicate ShortSum(wide: bool, val: bv64) {
    Short(Sized(wide, val)) || Short(Sized(wide, Neg(Sized(wide, val))))
  }

  lemma WideSign(val: bv64)
    ensures Sized(true, val) == val && SignOf(true, val, Sized(true, Neg(val)), Negative(true, val))
  {
  }

  lemma LowWord(val: bv64, v: bv64)
    requires v == Sized(false, val)
    ensures v <= 0xffff_ffff && Negative(false, val) == (v >> 31 != 0)
  {
  }

  lemma LowNegation(v: bv64)
    ensures Sized(false, Neg(v)) == (0 - v) & 0xffff_ffff
  {
  }

  lemma SignIsOf(v: bv64, neg: bv64, negative: bool)
    requires v <= 0xffff_ffff && neg == (0 - v) & 0xffff_ffff && negative == (v >> 31 != 0)
    ensures SignOf(false, v, neg, negative)
  {
  }

  lemma NarrowSign(val: bv64, v: bv64)
    requires v == Sized(false, val)
    ensures SignOf(false, v, Sized(false, Neg(v)), Negative(false, val))
  {
    hide *;
    LowWord(val, v);
    LowNegation(v);
    SignIsOf(v, Sized(false, Neg(v)), Negative(false, val));
  }

  lemma NarrowTwice(val: bv64)
    ensures Sized(false, Sized(false, val)) == Sized(false, val)
  {
  }

  lemma MagnitudeCases(wide: bool, val: bv64)
    ensures var v := Sized(wide, val);
      Magnitude(wide, val) == if Negative(wide, val) then Sized(wide, Neg(v)) else Sized(wide, v)
  {
    hide Sized, Neg, Negative;
  }

  /** What is added or subtracted has an immediate form. */
  lemma MagnitudeShort(wide: bool, val: bv64)
    ensures FitsLow(Magnitude(wide, val)) || FitsUpper(Magnitude(wide, val)) <==> ShortSum(wide, val)
  {
    hide *;
    var v := Sized(wide, val);
    ShortSumIs(wide, val);
    ShortIs(Magnitude(wide, val));
    MagnitudeCases(wide, val);
    if wide {
      WideSign(val);
      ShortWide(v, Sized(true, Neg(v)), Negative(true, val));
    } else {
      NarrowSign(val, v);
      NarrowTwice(val);
      ShortNarrow(v, Sized(false, Neg(v)), Negative(false, val));
    }
  }

  lemma ShortSumIs(wide: bool, val: bv64)
    ensures ShortSum(wide, val) <==> Short(Sized(wide, val)) || Short(Sized(wide, Neg(Sized(wide, val))))
  {
  }

  /** Adding a constant: an immediate form, or a register operation on x30. */
  method AddConstant(t: Section, wide: bool, val: bv64, x: bv32, a: bv32) returns (ghost ws: seq<bv32>)
    requires t.Valid() && x < 30 && a < 30
    modifies t
    ensures t.Valid() && t.Emitted(old(t.data), old(t.ind), ws)
    ensures Computes(ws, Add, wide, false, val, x, a)
    ensures |ws| == 1 <==> ShortSum(wide, val)
  {
    MagnitudeShort(wide, val);
    hide ShortSum;
    hide Magnitude, Negative, Sign, Flag, AddImmWord, LowField, UpperField, FitsLow, FitsUpper, Computes;
    hide ShiftedField, Immediate12;
    hide Leaves, Movi, MoveImm.InOneWord, AddRegisterWord;
    ghost var before, start := t.data, t.ind;
    var m, s := Magnitude(wide, val), Sign(Negative(wide, val));
    if FitsLow(m) {
      LowFieldIs(m);
      var w := AddImmWord(0, Flag(wide), s, x, a, LowField(m));
      AddImmComputes(w, wide, val, false, x, a, LowField(m));
      t.O(w);
      ws := [w];
    } else if FitsUpper(m) {
      UpperFieldIs(m);
      var w := AddImmWord(0x40_0000, Flag(wide), s, x, a, UpperField(m));
      AddImmComputes(w, wide, val, true, x, a, UpperField(m));
      t.O(w);
      ws := [w];
    } else {
      ws := Movimm(t, 30, m);
      var w := AddRegisterWord(Flag(wide), s, x, a);
      AddRegisterDecodes(w, wide, Negative(wide, val), x, a);
      AddLoadedSteps(ws, w, wide, val, x, a);
      PutAllNext(before, start, ws, w);
      t.O(w);
      ws := ws + [w];
    }
  }

  /** `0x0b1e0000 | l << 31 | s << 30 | x | a << 5` */
  function AddRegisterWord(l: bv32, s: bv32, x: bv32, a: bv32): bv32 {
    0x0b1e_0000 | l | s | x | (a << 5)
  }

  lemma AddRegisterReads(w: bv32, l: bv32, s: bv32, x: bv32, a: bv32)
    requires IsFlag(l) && (s == 0 || s == 0x4000_0000) && x < 31 && a < 32 && w == 0x0b1e_0000 | l | s | x | (a << 5)
    ensures Decode(w) == AddSubReg(l != 0, s != 0, x, a, 30)
  {
    hide MoveWide, AddSubImmediate, LogicalImmediate, BitfieldMove, LogicalRegister, AddSubExtended, TwoSource;
  }

  lemma AddRegisterWordIs(w: bv32, l: bv32, s: bv32, x: bv32, a: bv32)
    requires w == AddRegisterWord(l, s, x, a)
    ensures w == 0x0b1e_0000 | l | s | x | (a << 5)
  {
  }

  lemma SignIs(negative: bool)
    ensures (Sign(negative) == 0 || Sign(negative) == 0x4000_0000) && (Sign(negative) != 0 <==> negative)
  {
  }

  lemma AddRegisterDecodes(w: bv32, wide: bool, negative: bool, x: bv32, a: bv32)
    requires w == AddRegisterWord(Flag(wide), Sign(negative), x, a) && x < 30 && a < 30
    ensures Decode(w) == AddSubReg(wide, negative, x, a, 30)
  {
    hide *;
    FlagIs(wide);
    SignIs(negative);
    AddRegisterWordIs(w, Flag(wide), Sign(negative), x, a);
    AddRegisterReads(w, Flag(wide), Sign(negative), x, a);
  }

  /** Subtracting a constant is adding its negation. */
  lemma SubtractByAdding(ws: seq<bv32>, wide: bool, val: bv64, x: bv32, a: bv32)
    requires Computes(ws, Add, wide, false, Neg(val), x, a)
    ensures Computes(ws, Sub, wide, false, val, x, a)
  {
    hide Computes, Sized, AddOrSub;
    forall p: bv64 ensures Result(Add, wide, false, p, Neg(val)) == Result(Sub, wide, false, p, val) {
      AddOrSubIs(p, Neg(val));
      AddOrSubIs(p, val);
      PlusNegated(p, val);
    }
    Transfer(ws, Add, false, Neg(val), Sub, false, val, wide, x, a);
  }

  lemma Commutes(p: bv64, q: bv64)
    ensures p + q == q + p && p & q == q & p && p | q == q | p && p ^ q == q ^ p
  {
  }

  lemma ValueCommutes(op: Op, wide: bool, p: bv64, q: bv64)
    requires op == Add || IsLogical(op)
    ensures Value(op, wide, p, q) == Value(op, wide, q, p)
  {
    Commutes(p, q);
  }

  /** The order of the operands does not matter for these operations. */
  lemma EitherOrder(ws: seq<bv32>, op: Op, wide: bool, rev: bool, val: bv64, x: bv32, a: bv32)
    requires Computes(ws, op, wide, false, val, x, a) && (op == Add || IsLogical(op))
    ensures Computes(ws, op, wide, rev, val, x, a)
  {
    hide Computes, Sized, Value;
    forall p: bv64 ensures Result(op, wide, false, p, val) == Result(op, wide, rev, p, val) {
      ValueCommutes(op, wide, p, val);
    }
    Transfer(ws, op, false, val, op, rev, val, wide, x, a);
  }

  // ----- subtracting from a constant -----

  /** All ones at the width. */
  function Ones(wide: bool): bv64 {
    if wide then 0xffff_ffff_ffff_ffff else 0xffff_ffff
  }

  lemma FromConstant(wide: bool, p: bv64, val: bv64)
    ensures Sized(wide, AddOrSub(true, Sized(wide, val), p)) == Result(Sub, wide, true, p, val)
  {
    hide Sized, AddOrSub, Plus, Minus;
    AddOrSubIs(Sized(wide, val), p);
    AddOrSubIs(val, p);
    NarrowPlus(p, val);
    SizedWide(val);
  }

  lemma OnesMinus(p: bv64)
    ensures Minus(0xffff_ffff_ffff_ffff, p) == Not(p) && DifferenceOf(0xffff_ffff, p) == Sized(false, Not(p))
  {
    ComplementIs(p);
    NarrowComplement(p);
  }

  lemma FromOnes(wide: bool, p: bv64)
    ensures Sized(wide, AddOrSub(true, Ones(wide), p)) == Sized(wide, Logical(Orr, 0, Not(p)))
  {
    hide Sized, AddOrSub, Plus, Minus, Logical, Not, DifferenceOf;
    AddOrSubIs(Ones(wide), p);
    NarrowForms(Ones(wide), p);
    OnesMinus(p);
    OrrWithZero(Not(p));
  }

  /** `neg`, `mvn` and `sub` with rn the zero register or x30; rm is a. */
  function FromWord(opcode: bv32, l: bv32, x: bv32, a: bv32): bv32 {
    opcode | l | x | (a << 16)
  }

  lemma FromWordIs(opcode: bv32, l: bv32, x: bv32, a: bv32)
    ensures FromWord(opcode, l, x, a) == opcode | l | x | (a << 16)
  {
  }

  lemma SubFromReads(w: bv32, opcode: bv32, rn: bv32, l: bv32, x: bv32, a: bv32)
    requires (opcode == 0x4b00_03e0 && rn == 31) || (opcode == 0x4b00_03c0 && rn == 30)
    requires IsFlag(l) && x < 31 && a < 32 && w == opcode | l | x | (a << 16)
    ensures Decode(w) == AddSubReg(l != 0, true, x, rn, a)
  {
    hide MoveWide, AddSubImmediate, LogicalImmediate, BitfieldMove, LogicalRegister, AddSubExtended, TwoSource;
  }

  lemma OrrFromReads(w: bv32, opcode: bv32, l: bv32, x: bv32, a: bv32)
    requires opcode == 0x2a20_03e0 || opcode == 0x2a00_03e0
    requires IsFlag(l) && x < 31 && a < 32 && w == opcode | l | x | (a << 16)
    ensures Decode(w) == LogicalReg(l != 0, Orr, opcode == 0x2a20_03e0, x, 31, a)
  {
    hide MoveWide, AddSubImmediate, LogicalImmediate, BitfieldMove, AddSubRegister, AddSubExtended, TwoSource;
  }

  lemma SubFromDecodes(w: bv32, opcode: bv32, rn: bv32, wide: bool, x: bv32, a: bv32)
    requires (opcode == 0x4b00_03e0 && rn == 31) || (opcode == 0x4b00_03c0 && rn == 30)
    requires x < 31 && a < 32 && w == FromWord(opcode, Flag(wide), x, a)
    ensures Decode(w) == AddSubReg(wide, true, x, rn, a)
  {
    hide *;
    FlagIs(wide);
    FromWordIs(opcode, Flag(wide), x, a);
    SubFromReads(w, opcode, rn, Flag(wide), x, a);
  }

  lemma OrrFromDecodes(w: bv32, opcode: bv32, wide: bool, x: bv32, a: bv32)
    requires opcode == 0x2a20_03e0 || opcode == 0x2a00_03e0
    requires x < 31 && a < 32 && w == FromWord(opcode, Flag(wide), x, a)
    ensures Decode(w) == LogicalReg(wide, Orr, opcode == 0x2a20_03e0, x, 31, a)
  {
    hide *;
    FlagIs(wide);
    FromWordIs(opcode, Flag(wide), x, a);
    OrrFromReads(w, opcode, Flag(wide), x, a);
  }

  lemma NegComputes(w: bv32, wide: bool, val: bv64, x: bv32, a: bv32)
    requires Decode(w) == AddSubReg(wide, true, x, 31, a) && x < 30 && a < 30 && Sized(wide, val) == 0
    ensures Computes([w], Sub, wide, true, val, x, a)
  {
    hide Decode, Sized, AddOrSub, Computes, Result;
    var i := AddSubReg(wide, true, x, 31, a);
    forall s: Regs ensures Step(i, s) == Set(s, x, Result(Sub, wide, true, s(a), val)) {
      FromConstant(wide, s(a), val);
    }
    OneComputes(w, i, Sub, wide, true, val, x, a);
  }

  lemma MvnComputes(w: bv32, wide: bool, val: bv64, x: bv32, a: bv32)
    requires Decode(w) == LogicalReg(wide, Orr, true, x, 31, a) && x < 30 && a < 30 && Sized(wide, val) == Ones(wide)
    ensures Computes([w], Sub, wide, true, val, x, a)
  {
    hide Decode, Sized, AddOrSub, Computes, Result, Ones, Logical, Not;
    var i := LogicalReg(wide, Orr, true, x, 31, a);
    forall s: Regs ensures Step(i, s) == Set(s, x, Result(Sub, wide, true, s(a), val)) {
      FromConstant(wide, s(a), val);
      FromOnes(wide, s(a));
    }
    OneComputes(w, i, Sub, wide, true, val, x, a);
  }

  lemma FromLoadedComputes(ws: seq<bv32>, w: bv32, wide: bool, val: bv64, x: bv32, a: bv32)
    requires Leaves(ws, 30, Sized(wide, val)) && x < 30 && a < 30 && Decode(w) == AddSubReg(wide, true, x, 30, a)
    ensures Computes(ws + [w], Sub, wide, true, val, x, a)
  {
    hide Decode, Sized, AddOrSub, Computes, Result, Leaves;
    var i := AddSubReg(wide, true, x, 30, a);
    var v := Sized(wide, val);
    forall s: Regs | s(30) == v ensures Step(i, s) == Set(s, x, Result(Sub, wide, true, s(a), val)) {
      FromConstant(wide, s(a), val);
    }
    LoadedComputes(ws, v, w, i, Sub, wide, true, val, x, a);
  }

  /** A constant minus a register. */
  method SubtractFrom(t: Section, wide: bool, val: bv64, x: bv32, a: bv32) returns (ghost ws: seq<bv32>)
    requires t.Valid() && x < 30 && a < 30
    modifies t
    ensures t.Valid() && t.Emitted(old(t.data), old(t.ind), ws)
    ensures Computes(ws, Sub, wide, true, val, x, a)
    ensures |ws| == 1 <==> Sized(wide, val) == 0 || Sized(wide, val) == Ones(wide)
  {
    hide Computes, Sized, Ones, Flag, FromWord, Decode, Leaves, Movi, MoveImm.InOneWord;
    ghost var before, start := t.data, t.ind;
    if Sized(wide, val) == 0 {
      var w := FromWord(0x4b00_03e0, Flag(wide), x, a);
      SubFromDecodes(w, 0x4b00_03e0, 31, wide, x, a);
      NegComputes(w, wide, val, x, a);
      t.O(w);
      ws := [w];
    } else if Sized(wide, val) == Ones(wide) {
      var w := FromWord(0x2a20_03e0, Flag(wide), x, a);
      OrrFromDecodes(w, 0x2a20_03e0, wide, x, a);
      MvnComputes(w, wide, val, x, a);
      t.O(w);
      ws := [w];
    } else {
      ws := Movimm(t, 30, Sized(wide, val));
      var w := FromWord(0x4b00_03c0, Flag(wide), x, a);
      SubFromDecodes(w, 0x4b00_03c0, 30, wide, x, a);
      FromLoadedComputes(ws, w, wide, val, x, a);
      PutAllNext(before, start, ws, w);
      t.O(w);
      ws := ws + [w];
    }
  }

  // ----- and, or, exclusive or -----

  function LogicalOf(op: Op): LogicalOp {
    if op == And then Conj else if op == Or then Orr else Eor
  }

  function LogicalOpcode(op: Op): bv32 {
    if op == And then 0x1200_0000 else if op == Or then 0x3200_0000 else 0x5200_0000
  }

  function LogicalField(op: Op): bv32 {
    if op == And then 0 else if op == Or then 1 else 2
  }

  function Twice(v: bv64): bv64 {
    v | (v << 32)
  }

  /** `l ? val : val | val << 32` */
  function ImmediatePattern(wide: bool, val: bv64): bv64 {
    if wide then val else Twice(Sized(false, val))
  }

  lemma TwiceIs(v: bv64)
    ensures Twice(v) == v | (v << 32)
  {
  }

  lemma NarrowFits(val: bv64)
    ensures (val & 0xffff_ffff) >> 32 == 0
  {
  }

  lemma PatternFacts(wide: bool, val: bv64)
    ensures Sized(wide, ImmediatePattern(wide, val)) == Sized(wide, val)
    ensures !wide ==> BitmaskImm.HalvesAgree(ImmediatePattern(wide, val))
  {
    hide Sized, BitmaskImm.HalvesAgree, Twice;
    if !wide {
      NarrowIs(val);
      NarrowFits(val);
      TwiceIs(val & 0xffff_ffff);
      TwiceFacts(val & 0xffff_ffff, Twice(val & 0xffff_ffff));
    }
  }

  // 32-bit logical operations.

  function AndOf(p: bv64, q: bv64): bv64 {
    (p & q) & 0xffff_ffff
  }

  function OrOf(p: bv64, q: bv64): bv64 {
    (p | q) & 0xffff_ffff
  }

  function XorOf(p: bv64, q: bv64): bv64 {
    (p ^ q) & 0xffff_ffff
  }

  lemma AndForm(p: bv64, q: bv64)
    ensures Sized(false, Logical(Conj, p, q)) == AndOf(p, q)
  {
  }

  lemma OrForm(p: bv64, q: bv64)
    ensures Sized(false, Logical(Orr, p, q)) == OrOf(p, q)
  {
  }

  lemma XorForm(p: bv64, q: bv64)
    ensures Sized(false, Logical(Eor, p, q)) == XorOf(p, q)
  {
  }

  lemma AndNarrowed(p: bv64, v: bv64)
    ensures AndOf(p, v & 0xffff_ffff) == AndOf(p, v)
  {
  }

  lemma OrNarrowed(p: bv64, v: bv64)
    ensures OrOf(p, v & 0xffff_ffff) == OrOf(p, v)
  {
  }

  lemma XorNarrowed(p: bv64, v: bv64)
    ensures XorOf(p, v & 0xffff_ffff) == XorOf(p, v)
  {
  }

  lemma LogicalSized(op: LogicalOp, wide: bool, p: bv64, v: bv64)
    ensures Sized(wide, Logical(op, p, Sized(wide, v))) == Sized(wide, Logical(op, p, v))
  {
    hide *;
    SizedWide(v);
    NarrowIs(v);
    match op
    case Conj =>
      AndForm(p, Sized(false, v));
      AndForm(p, v);
      AndNarrowed(p, v);
    case Orr =>
      OrForm(p, Sized(false, v));
      OrForm(p, v);
      OrNarrowed(p, v);
    case Eor =>
      XorForm(p, Sized(false, v));
      XorForm(p, v);
      XorNarrowed(p, v);
  }

  lemma XorOfOnes(p: bv64)
    ensures Logical(Eor, p, 0xffff_ffff_ffff_ffff) == Not(p) && XorOf(p, 0xffff_ffff) == Sized(false, Not(p))
  {
    XorOnes(p);
    NarrowXorOnes(p);
  }

  lemma XorIsNot(wide: bool, p: bv64)
    ensures Sized(wide, Logical(Eor, p, Ones(wide))) == Sized(wide, Logical(Orr, 0, Not(p)))
  {
    hide Sized, Logical, Not, XorOf;
    XorForm(p, Ones(wide));
    XorOfOnes(p);
    OrrWithZero(Not(p));
  }

  lemma NotComputes(w: bv32, wide: bool, val: bv64, x: bv32, a: bv32)
    requires Decode(w) == LogicalReg(wide, Orr, true, x, 31, a) && x < 30 && a < 30 && Sized(wide, val) == Ones(wide)
    ensures Computes([w], Xor, wide, false, val, x, a)
  {
    hide Decode, Sized, Computes, Ones, Logical, Not;
    var i := LogicalReg(wide, Orr, true, x, 31, a);
    forall s: Regs ensures Step(i, s) == Set(s, x, Result(Xor, wide, false, s(a), val)) {
      LogicalSized(Eor, wide, s(a), val);
      XorIsNot(wide, s(a));
    }
    OneComputes(w, i, Xor, wide, false, val, x, a);
  }

  lemma LogicalImmDecodes(w: bv32, op: Op, wide: bool, val: bv64, x: bv32, a: bv32, e: bv32)
    requires x < 30 && a < 30 && BitmaskImm.Encode(ImmediatePattern(wide, val)) == Some(e) && IsLogical(op)
    requires w == Word(LogicalOpcode(op), Flag(wide), x, a, e << 10)
    ensures Decode(w) == LogicalImm(wide, LogicalOf(op), x, a, Sized(wide, val))
  {
    hide *;
    var pattern := ImmediatePattern(wide, val);
    BitmaskImm.EncodeSound(pattern, e);
    PatternFacts(wide, val);
    if !wide {
      BitmaskImm.EncodeNarrow(pattern, e);
    }
    FlagIs(wide);
    LogicalOpcodes(op);
    LogicalImmFields(LogicalOpcode(op), LogicalField(op), Flag(wide), x, a, e, w);
    LogicalFields(w, x, a, LogicalField(op), LogicalOf(op), e, wide, pattern);
  }

  lemma LogicalOpcodes(op: Op)
    ensures IsLogical(op) ==>
      (LogicalOpcode(op) == 0x1200_0000 && LogicalField(op) == 0) ||
      (LogicalOpcode(op) == 0x3200_0000 && LogicalField(op) == 1)
      || (LogicalOpcode(op) == 0x5200_0000 && LogicalField(op) == 2)
    ensures LogicalOpOf(LogicalField(op)) == Some(LogicalOf(op))
  {
  }

  lemma LogicalImmComputes(w: bv32, op: Op, wide: bool, val: bv64, x: bv32, a: bv32)
    requires IsLogical(op) && x < 30 && a < 30 && Decode(w) == LogicalImm(wide, LogicalOf(op), x, a, Sized(wide, val))
    ensures Computes([w], op, wide, false, val, x, a)
  {
    hide Decode, Sized, Computes, Logical;
    var i := LogicalImm(wide, LogicalOf(op), x, a, Sized(wide, val));
    forall s: Regs ensures Step(i, s) == Set(s, x, Result(op, wide, false, s(a), val)) {
      LogicalSized(LogicalOf(op), wide, s(a), val);
    }
    OneComputes(w, i, op, wide, false, val, x, a);
  }

  /** Some logical immediate decodes to the constant. */
  ghost predicate HasImmediate(wide: bool, val: bv64) {
    exists e :: BitmaskImm.Decode(e) == Some(ImmediatePattern(wide, val))
  }

  /** The three logical operations; nothing is emitted when there is no immediate. */
  method LogicalConstant(t: Section, op: Op, wide: bool, val: bv64, x: bv32, a: bv32)
    returns (ok: bool, ghost ws: seq<bv32>)
    requires t.Valid() && x < 30 && a < 30 && IsLogical(op)
    modifies t
    ensures t.Valid() && t.Emitted(old(t.data), old(t.ind), ws)
    ensures ok <==> (op == Xor && Sized(wide, val) == Ones(wide)) || HasImmediate(wide, val)
    ensures if ok then Computes(ws, op, wide, false, val, x, a) && |ws| == 1 else ws == []
  {
    hide Computes, Sized, Ones, Flag, FromWord, Decode, Word, ImmediatePattern, BitmaskImm.Encode, BitmaskImm.Decode;
    hide LogicalOpcode;
    ok := true;
    if op == Xor && Sized(wide, val) == Ones(wide) {
      var w := FromWord(0x2a20_03e0, Flag(wide), x, a);
      OrrFromDecodes(w, 0x2a20_03e0, wide, x, a);
      NotComputes(w, wide, val, x, a);
      t.O(w);
      ws := [w];
    } else {
      var e := BitmaskImm.Encode(ImmediatePattern(wide, val));
      BitmaskImm.EncodeExact(ImmediatePattern(wide, val));
      if e.None? {
        ok, ws := false, [];
      } else {
        var w := Word(LogicalOpcode(op), Flag(wide), x, a, e.value << 10);
        LogicalImmDecodes(w, op, wide, val, x, a, e.value);
        LogicalImmComputes(w, op, wide, val, x, a);
        t.O(w);
        ws := [w];
      }
    }
  }

  // ----- shifts -----

  function Width(wide: bool): bv32 {
    if wide then 64 else 32
  }

  /** `val & (n - 1)` */
  function Distance(wide: bool, val: bv64): bv64 {
    if wide then val & 63 else val & 31
  }

  function ShiftOf(op: Op): ShiftOp {
    if op == Shl then Lsl else if op == Shr then Lsr else Asr
  }

  function Narrow(d: bv64): bv32 {
    (d & 63) as bv32
  }

  lemma DistanceFacts(wide: bool, val: bv64)
    ensures Narrow(Distance(wide, val)) < Width(wide) && Widened(Narrow(Distance(wide, val))) == Distance(wide, val)
    ensures Distance(wide, val) != 0 ==> 0 < Narrow(Distance(wide, val))
  {
  }

  /** The register form takes the distance modulo the width too. */
  lemma WideDistance(shift: ShiftOp, p: bv64, val: bv64)
    ensures Shifted(true, shift, p, val & 63) == Shifted(true, shift, p, val)
  {
    hide ArithmeticRight;
    match shift case Lsl => case Lsr => case Asr =>
  }

  lemma NarrowDistance(shift: ShiftOp, p: bv64, val: bv64)
    ensures Shifted(false, shift, p, val & 31) == Shifted(false, shift, p, val)
  {
    hide ArithmeticRight, SignExtend32;
    match shift case Lsl => case Lsr => case Asr =>
  }

  /** The register form takes the distance modulo the width too. */
  lemma ShiftedByDistance(wide: bool, shift: ShiftOp, p: bv64, val: bv64)
    ensures Shifted(wide, shift, p, Distance(wide, val)) == Shifted(wide, shift, p, val)
  {
    hide Shifted;
    if wide { WideDistance(shift, p, val); } else { NarrowDistance(shift, p, val); }
  }

  lemma RightShift(wide: bool, signed: bool, p: bv64, k: bv32)
    requires k < Width(wide)
    ensures BitfieldValue(wide, signed, p, k, Width(wide) - 1) 
         == Shifted(wide, if signed then Asr else Lsr, p, k as bv64)
  {
    hide Shifted;
  }

  lemma LeftFields(n: bv32, k: bv32)
    requires (n == 32 || n == 64) && 0 < k < n
    ensures n - 1 - k < n - 1 && n - k == (n - 1 - k) + 1 && n - (n - k) == k
    ensures n - k < 64 && n - 1 - k < 64
  {
  }

  lemma LeftShift(wide: bool, p: bv64, k: bv32)
    requires 0 < k < Width(wide)
    ensures BitfieldValue(wide, false, p, Width(wide) - k, Width(wide) - 1 - k) == Shifted(wide, Lsl, p, k as bv64)
  {
    hide Shifted;
    LeftFields(Width(wide), k);
  }

  /** `l << 22` */
  function Bit22(wide: bool): bv32 {
    if wide then 0x40_0000 else 0
  }

  function BitfieldWord(opcode: bv32, l: bv32, n: bv32, x: bv32, a: bv32, immr: bv32, imms: bv32): bv32 {
    opcode | l | n | x | (a << 5) | (immr << 16) | (imms << 10)
  }

  function ShiftOpcode(op: Op): bv32 {
    if op == Sar then 0x1300_0000 else 0x5300_0000
  }

  /** The fields of the bitfield move that shifts by k. */
  function Immr(op: Op, wide: bool, k: bv32): bv32 {
    if op == Shl then Width(wide) - k else k
  }

  function Imms(op: Op, wide: bool, k: bv32): bv32 {
    if op == Shl then Width(wide) - 1 - k else Width(wide) - 1
  }

  function ShiftWord(op: Op, wide: bool, k: bv32, x: bv32, a: bv32): bv32 {
    BitfieldWord(ShiftOpcode(op), Flag(wide), Bit22(wide), x, a, Immr(op, wide, k), Imms(op, wide, k))
  }

  lemma BitfieldWordIs(opcode: bv32, wide: bool, x: bv32, a: bv32, immr: bv32, imms: bv32)
    requires opcode == 0x1300_0000 || opcode == 0x5300_0000
    requires x < 31 && a < 31 && immr < 64 && imms < 64
    ensures IsBitfield(BitfieldWord(opcode, Flag(wide), Bit22(wide), x, a, immr, imms),
                       opcode, Flag(wide), Bit22(wide), x, a, immr, imms)
  {
  }

  lemma BitfieldShifts(opcode: bv32, wide: bool, x: bv32, a: bv32, immr: bv32, imms: bv32, w: bv32)
    requires opcode == 0x1300_0000 || opcode == 0x5300_0000
    requires x < 31 && a < 31 && immr < 64 && imms < 64 &&
      w == BitfieldWord(opcode, Flag(wide), Bit22(wide), x, a, immr, imms)
    ensures Decode(w) == Bitfield(wide, opcode == 0x1300_0000, x, a, immr, imms)
  {
    hide *;
    FlagIs(wide);
    BitfieldWordIs(opcode, wide, x, a, immr, imms);
    BitfieldDecodes(w, opcode, Flag(wide), Bit22(wide), x, a, immr, imms);
  }

  lemma ImmrFits(op: Op, wide: bool, k: bv32)
    requires 0 < k < Width(wide)
    ensures Immr(op, wide, k) < 64
  {
  }

  lemma ImmsFits(op: Op, wide: bool, k: bv32)
    requires 0 < k < Width(wide)
    ensures Imms(op, wide, k) < 64
  {
  }

  lemma ShiftOpcodeIs(op: Op)
    ensures ShiftOpcode(op) == 0x1300_0000 || ShiftOpcode(op) == 0x5300_0000
    ensures ShiftOpcode(op) == 0x1300_0000 <==> op == Sar
  {
  }

  lemma ShiftWordIs(op: Op, wide: bool, k: bv32, x: bv32, a: bv32)
    ensures ShiftWord(op, wide, k, x, a)
         == BitfieldWord(ShiftOpcode(op), Flag(wide), Bit22(wide), x, a, Immr(op, wide, k), Imms(op, wide, k))
  {
  }

  lemma ShiftDecodes(op: Op, wide: bool, k: bv32, x: bv32, a: bv32)
    requires IsShift(op) && 0 < k < Width(wide) && x < 31 && a < 31
    ensures Decode(ShiftWord(op, wide, k, x, a))
      == Bitfield(wide, op == Sar, x, a, Immr(op, wide, k), Imms(op, wide, k))
  {
    hide *;
    ImmrFits(op, wide, k);
    ImmsFits(op, wide, k);
    ShiftOpcodeIs(op);
    ShiftWordIs(op, wide, k, x, a);
    BitfieldShifts(ShiftOpcode(op), wide, x, a, Immr(op, wide, k), Imms(op, wide, k), ShiftWord(op, wide, k, x, a));
  }

  function Widened(k: bv32): bv64 {
    k as bv64
  }

  lemma BitfieldIsShift(op: Op, wide: bool, p: bv64, k: bv32)
    requires IsShift(op) && 0 < k < Width(wide)
    ensures BitfieldValue(wide, op == Sar, p, Immr(op, wide, k), Imms(op, wide, k))
      == Shifted(wide, ShiftOf(op), p, Widened(k))
  {
    hide BitfieldValue, Shifted, Width;
    if op == Shl { LeftShift(wide, p, k); } else { RightShift(wide, op == Sar, p, k); }
  }

  lemma ShiftValue(op: Op, wide: bool, p: bv64, val: bv64)
    requires IsShift(op)
    ensures Result(op, wide, false, p, val) == Sized(wide, Shifted(wide, ShiftOf(op), p, val))
  {
    hide Sized, Shifted;
  }

  /** UBFM and SBFM shift by the constant. */
  lemma ShiftComputes(op: Op, wide: bool, val: bv64, x: bv32, a: bv32, k: bv32)
    requires IsShift(op) && x < 30 && a < 30 && k == Narrow(Distance(wide, val)) && Distance(wide, val) != 0
    ensures Computes([ShiftWord(op, wide, k, x, a)], op, wide, false, val, x, a)
  {
    hide *;
    DistanceFacts(wide, val);
    ShiftDecodes(op, wide, k, x, a);
    forall p: bv64
      ensures Sized(wide, BitfieldValue(wide, op == Sar, p, Immr(op, wide, k), Imms(op, wide, k)))
        == Result(op, wide, false, p, val)
    {
      BitfieldIsShift(op, wide, p, k);
      ShiftedByDistance(wide, ShiftOf(op), p, val);
      ShiftValue(op, wide, p, val);
    }
    BitfieldSteps(ShiftWord(op, wide, k, x, a), op, wide, val, x, a, Immr(op, wide, k), Imms(op, wide, k));
  }

  lemma BitfieldSteps(w: bv32, op: Op, wide: bool, val: bv64, x: bv32, a: bv32, immr: bv32, imms: bv32)
    requires Decode(w) == Bitfield(wide, op == Sar, x, a, immr, imms) && x < 30 && a < 30
    requires forall p: bv64 ::
      Sized(wide, BitfieldValue(wide, op == Sar, p, immr, imms)) == Result(op, wide, false, p, val)
    ensures Computes([w], op, wide, false, val, x, a)
  {
    hide Decode, Sized, BitfieldValue, Result, Computes;
    OneComputes(w, Bitfield(wide, op == Sar, x, a, immr, imms), op, wide, false, val, x, a);
  }

  // A distance of 0 modulo the width: the word is a move into register 0.

  lemma ShiftByZero(wide: bool, shift: ShiftOp, p: bv64)
    ensures Sized(wide, Shifted(wide, shift, p, 0)) == Sized(wide, p)
  {
  }

  lemma ShiftByNothing(op: Op, wide: bool, p: bv64, val: bv64)
    requires IsShift(op) && Distance(wide, val) == 0
    ensures Result(op, wide, false, p, val) == Sized(wide, p)
  {
    hide Sized, Shifted, Distance, Result;
    ShiftValue(op, wide, p, val);
    ShiftedByDistance(wide, ShiftOf(op), p, val);
    ShiftByZero(wide, ShiftOf(op), p);
  }

  lemma SizedSmall(wide: bool)
    ensures Sized(wide, 1) == 1 && Sized(wide, 0) == 0
  {
  }

  lemma MoveSteps(w: bv32, wide: bool, a: bv32, s: Regs)
    requires Decode(w) == LogicalReg(wide, Orr, false, 0, 31, a) && a < 30
    ensures Run([w], s) == Set(s, 0, Sized(wide, s(a)))
  {
    hide Decode, Sized, Logical;
    OneWord(w, LogicalReg(wide, Orr, false, 0, 31, a));
    OrrWithZero(s(a));
  }

  /** It is the shift exactly when the result belongs in register 0. */
  lemma MoveComputes(w: bv32, op: Op, wide: bool, val: bv64, x: bv32, a: bv32)
    requires Decode(w) == LogicalReg(wide, Orr, false, 0, 31, a) && a < 30 && x < 30
    requires IsShift(op) && Distance(wide, val) == 0
    ensures Computes([w], op, wide, false, val, x, a) <==> x == 0
  {
    hide Decode, Sized, Distance, Result, IsShift;
    if x == 0 {
      OneWord(w, LogicalReg(wide, Orr, false, 0, 31, a));
      forall s: Regs, q: bv32 ensures Run([w], s)(q) == if q == x then Result(op, wide, false, s(a), val) else s(q) {
        MoveSteps(w, wide, a, s);
        ShiftByNothing(op, wide, s(a), val);
      }
    } else {
      var s: Regs := (q: bv32) => if q == a then 1 else 0;
      MoveSteps(w, wide, a, s);
      SizedSmall(wide);
      ShiftByNothing(op, wide, 1, val);
      var q: bv32 := if a == 0 then x else 0;
      assert q != 30 && Run([w], s)(q) != if q == x then Result(op, wide, false, s(a), val) else s(q);
    }
  }

  /** The shift cases. */
  method ShiftConstant(t: Section, op: Op, wide: bool, val: bv64, x: bv32, a: bv32) returns (ghost ws: seq<bv32>)
    requires t.Valid() && x < 30 && a < 30 && IsShift(op)
    modifies t
    ensures t.Valid() && t.Emitted(old(t.data), old(t.ind), ws)
    ensures Computes(ws, op, wide, false, val, x, a) <==> Distance(wide, val) != 0 || x == 0
    ensures |ws| == 1
  {
    hide Computes, Distance, Flag, FromWord, Decode, ShiftWord, IsShift, Narrow;
    var d := Distance(wide, val);
    if d == 0 {
      var w := FromWord(0x2a00_03e0, Flag(wide), 0, a);
      OrrFromDecodes(w, 0x2a00_03e0, wide, 0, a);
      MoveComputes(w, op, wide, val, x, a);
      t.O(w);
      ws := [w];
    } else {
      var w := ShiftWord(op, wide, Narrow(d), x, a);
      ShiftComputes(op, wide, val, x, a, Narrow(d));
      t.O(w);
      ws := [w];
    }
  }

  // ----- `arm64_gen_opic` -----

  /** When there is a form with a constant operand. */
  ghost predicate HasForm(op: Op, wide: bool, rev: bool, val: bv64) {
    if IsShift(op) then !rev
    else IsLogical(op) ==> (op == Xor && Sized(wide, val) == Ones(wide)) || HasImmediate(wide, val)
  }

  /** When a single word does it; otherwise x30 holds the constant. */
  predicate InOneWord(op: Op, wide: bool, rev: bool, val: bv64) {
    (op == Add ==> ShortSum(wide, val)) && (op == Sub && !rev ==> ShortSum(wide, Neg(val)))
    && (op == Sub && rev ==> Sized(wide, val) == 0 || Sized(wide, val) == Ones(wide))
  }

  /** `arm64_gen_opic`: refused exactly when there is no form, and then nothing
      is emitted. Otherwise the result is right, except that a shift by 0
      modulo the width is right only in register 0. */
  method Opic(t: Section, op: Op, wide: bool, rev: bool, val: bv64, x: bv32, a: bv32)
    returns (ok: bool, ghost ws: seq<bv32>)
    requires t.Valid() && x < 30 && a < 30
    modifies t
    ensures t.Valid() && t.Emitted(old(t.data), old(t.ind), ws)
    ensures ok <==> HasForm(op, wide, rev, val)
    ensures !ok ==> ws == []
    ensures ok ==> (Computes(ws, op, wide, rev, val, x, a) <==> (IsShift(op) && Distance(wide, val) == 0 ==> x == 0))
    ensures ok ==> (|ws| == 1 <==> InOneWord(op, wide, rev, val))
  {
    hide Computes, Distance, Sized, Ones, HasImmediate, Neg, ShortSum;
    ok := true;
    if op == Sub && !rev {
      ws := AddConstant(t, wide, Neg(val), x, a);
      SubtractByAdding(ws, wide, val, x, a);
    } else if op == Add {
      ws := AddConstant(t, wide, val, x, a);
      EitherOrder(ws, Add, wide, rev, val, x, a);
    } else if op == Sub {
      ws := SubtractFrom(t, wide, val, x, a);
    } else if IsLogical(op) {
      ok, ws := LogicalConstant(t, op, wide, val, x, a);
      if ok {
        EitherOrder(ws, op, wide, rev, val, x, a);
      }
    } else if rev {
      ok, ws := false, [];
    } else {
      ws := ShiftConstant(t, op, wide, val, x, a);
    }
  }

  // ----- what is computed, and when -----

  lemma WideSum(p: bv64, q: bv64)
    ensures Result(Add, true, false, p, q) == p + q
  {
  }

  lemma WideDifference(p: bv64, q: bv64)
    ensures Result(Sub, true, false, p, q) == p - q
  {
  }

  lemma NarrowSum(p: bv64, q: bv64)
    ensures Result(Add, false, false, p, q) == (p + q) & 0xffff_ffff
  {
  }

  lemma NarrowDifference(p: bv64, q: bv64)
    ensures Result(Sub, false, false, p, q) == (p - q) & 0xffff_ffff
  {
  }

  lemma WideAnd(p: bv64, q: bv64)
    ensures Result(And, true, false, p, q) == p & q
  {
  }

  lemma WideOr(p: bv64, q: bv64)
    ensures Result(Or, true, false, p, q) == p | q
  {
  }

  lemma WideXor(p: bv64, q: bv64)
    ensures Result(Xor, true, false, p, q) == p ^ q
  {
  }

  lemma WideShifts(p: bv64, q: bv64)
    ensures Result(Shl, true, false, p, q) == p << (q & 63)
    ensures Result(Shr, true, false, p, q) == p >> (q & 63)
  {
  }

  lemma NarrowShifts(p: bv64, q: bv64)
    ensures Result(Shl, false, false, p, q) == ((p & 0xffff_ffff) << (q & 31)) & 0xffff_ffff
    ensures Result(Shr, false, false, p, q) == ((p & 0xffff_ffff) >> (q & 31)) & 0xffff_ffff
  {
  }

  /** With rev the operands change places. */
  lemma Reversed(op: Op, wide: bool, p: bv64, q: bv64)
    ensures Result(op, wide, true, p, q) == Result(op, wide, false, q, p)
  {
    hide Sized, Value;
  }

  lemma PatternsAre(val: bv64, low: bv64)
    requires low == val & 0xffff_ffff
    ensures Sized(true, val) == val && Sized(false, val) == low
    ensures ImmediatePattern(true, val) == val && ImmediatePattern(false, val) == low | (low << 32)
    ensures Ones(true) == 0xffff_ffff_ffff_ffff && Ones(false) == 0xffff_ffff
  {
  }

  lemma KindsOf(op: Op, wide: bool, rev: bool, val: bv64)
    ensures op == Add || op == Sub ==> HasForm(op, wide, rev, val)
    ensures op == Shl || op == Shr || op == Sar ==> (HasForm(op, wide, rev, val) <==> !rev)
    ensures op == And || op == Or || op == Xor ==>
      (HasForm(op, wide, rev, val) <==> (op == Xor && Sized(wide, val) == Ones(wide)) || HasImmediate(wide, val))
  {
    hide Sized, Ones, HasImmediate;
  }

  lemma ImmediateIs(wide: bool, val: bv64, pattern: bv64)
    requires pattern == ImmediatePattern(wide, val)
    ensures HasImmediate(wide, val) <==> exists e :: BitmaskImm.Decode(e) == Some(pattern)
  {
    hide BitmaskImm.Decode, ImmediatePattern;
  }

  /** The constant forms: sums and differences always, shifts unless reversed;
      logical operations with a bitmask immediate, for 32 bits that of the low
      word repeated, and the inversion. */
  lemma FormExactly(op: Op, wide: bool, rev: bool, val: bv64, low: bv64)
    requires low == val & 0xffff_ffff
    ensures op == Add || op == Sub ==> HasForm(op, wide, rev, val)
    ensures op == Shl || op == Shr || op == Sar ==> (HasForm(op, wide, rev, val) <==> !rev)
    ensures op == And || op == Or || op == Xor ==>
      (HasForm(op, true, rev, val)
       <==> (op == Xor && val == 0xffff_ffff_ffff_ffff) || exists e :: BitmaskImm.Decode(e) == Some(val))
    ensures op == And || op == Or || op == Xor ==>
      (HasForm(op, false, rev, val)
       <==> (op == Xor && low == 0xffff_ffff) || exists e :: BitmaskImm.Decode(e) == Some(low | (low << 32)))
  {
    hide *;
    KindsOf(op, wide, rev, val);
    KindsOf(op, true, rev, val);
    KindsOf(op, false, rev, val);
    PatternsAre(val, low);
    ImmediateIs(true, val, val);
    ImmediateIs(false, val, low | (low << 32));
  }

  // ----- against the register form -----

  lemma LogicalWordDecodes(op: LogicalOp, opc: bv32, wide: bool, x: bv32, a: bv32, b: bv32, w: bv32)
    requires (op == Conj && opc == 0x0a00_0000) || (op == Orr && opc == 0x2a00_0000) ||
      (op == Eor && opc == 0x4a00_0000)
    requires x < 30 && a < 30 && b < 30 && w == Word(opc, Flag(wide), x, a, b << 16)
    ensures Decode(w) == LogicalReg(wide, op, false, x, a, b)
  {
    hide *;
    FlagIs(wide);
    LogicalWordIs(opc, Flag(wide), x, a, b, w);
    LogicalRegDecodes(op, opc, 0, Flag(wide), x, a, b, w);
  }

  lemma LogicalWordIs(opcode: bv32, l: bv32, x: bv32, a: bv32, b: bv32, w: bv32)
    requires w == Word(opcode, l, x, a, b << 16)
    ensures w == opcode | 0 | l | x | (a << 5) | (b << 16)
  {
  }

  lemma RegisterWordIs(op: Op, wide: bool, x: bv32, a: bv32, b: bv32)
    ensures RegisterWord(op, wide, x, a, b) == Word(RegisterOpcode(op), Flag(wide), x, a, b << 16)
    ensures RegisterOpcode(Add) == 0x0b00_0000 && RegisterOpcode(Sub) == 0x4b00_0000
    ensures RegisterOpcode(And) == 0x0a00_0000 && RegisterOpcode(Or) == 0x2a00_0000 &&
      RegisterOpcode(Xor) == 0x4a00_0000
    ensures RegisterOpcode(Shl) == 0x1ac0_2000 && RegisterOpcode(Shr) == 0x1ac0_2400 &&
      RegisterOpcode(Sar) == 0x1ac0_2800
  {
    hide Flag, Word;
  }

  lemma RegisterInsnIs(wide: bool, x: bv32, a: bv32, b: bv32)
    ensures RegisterInsn(Add, wide, x, a, b) == AddSubReg(wide, false, x, a, b)
    ensures RegisterInsn(Sub, wide, x, a, b) == AddSubReg(wide, true, x, a, b)
    ensures RegisterInsn(And, wide, x, a, b) == LogicalReg(wide, Conj, false, x, a, b)
    ensures RegisterInsn(Or, wide, x, a, b) == LogicalReg(wide, Orr, false, x, a, b)
    ensures RegisterInsn(Xor, wide, x, a, b) == LogicalReg(wide, Eor, false, x, a, b)
    ensures RegisterInsn(Shl, wide, x, a, b) == ShiftReg(wide, Lsl, x, a, b)
    ensures RegisterInsn(Shr, wide, x, a, b) == ShiftReg(wide, Lsr, x, a, b)
    ensures RegisterInsn(Sar, wide, x, a, b) == ShiftReg(wide, Asr, x, a, b)
  {
  }

  /** The words of `arm64_gen_opil` are the operations they should be. */
  lemma RegisterWordDecodes(op: Op, wide: bool, x: bv32, a: bv32, b: bv32)
    requires x < 30 && a < 30 && b < 30
    ensures Decode(RegisterWord(op, wide, x, a, b)) == RegisterInsn(op, wide, x, a, b)
  {
    hide *;
    var w, l := RegisterWord(op, wide, x, a, b), Flag(wide);
    FlagIs(wide);
    RegisterWordIs(op, wide, x, a, b);
    RegisterInsnIs(wide, x, a, b);
    match op
    case Add => AddSubRegDecodes(0x0b00_0000, l, x, a, b, w);
    case Sub => AddSubRegDecodes(0x4b00_0000, l, x, a, b, w);
    case And => LogicalWordDecodes(Conj, 0x0a00_0000, wide, x, a, b, w);
    case Or => LogicalWordDecodes(Orr, 0x2a00_0000, wide, x, a, b, w);
    case Xor => LogicalWordDecodes(Eor, 0x4a00_0000, wide, x, a, b, w);
    case Shl => ShiftRegDecodes(Lsl, 0x1ac0_2000, l, x, a, b, w);
    case Shr => ShiftRegDecodes(Lsr, 0x1ac0_2400, l, x, a, b, w);
    case Sar => ShiftRegDecodes(Asr, 0x1ac0_2800, l, x, a, b, w);
  }

  lemma PlainRegister(s: Regs, r: bv32, v: bv64)
    requires r < 30
    ensures Read(s, r) == s(r) && Write(s, r, v) == Set(s, r, v)
  {
  }

  lemma RegisterSteps(op: Op, wide: bool, x: bv32, a: bv32, b: bv32, s: Regs)
    requires x < 30 && a < 30 && b < 30
    ensures Step(RegisterInsn(op, wide, x, a, b), s) == Set(s, x, Sized(wide, Value(op, wide, s(a), s(b))))
  {
    hide Sized, AddOrSub, Logical, Shifted, Read, Write, Set;
    PlainRegister(s, a, 0);
    PlainRegister(s, b, 0);
    PlainRegister(s, x, Sized(wide, Value(op, wide, s(a), s(b))));
  }

  /** Refinement: the constant form and the register form, with the constant in
      any register c, agree on every register but x30. */
  lemma RefinesRegisters(ws: seq<bv32>, op: Op, wide: bool, rev: bool, val: bv64, x: bv32, a: bv32, c: bv32, s: Regs,
                         q: bv32)
    requires Computes(ws, op, wide, rev, val, x, a) && x < 30 && a < 30 && c < 30 && s(c) == val && q != 30
    ensures var first, second := if rev then c else a, if rev then a else c;
      Run(ws, s)(q) == Run([RegisterWord(op, wide, x, first, second)], s)(q)
  {
    hide Decode, RegisterWord, RegisterInsn, Step, Sized, Value;
    var first, second := if rev then c else a, if rev then a else c;
    var w := RegisterWord(op, wide, x, first, second);
    RegisterWordDecodes(op, wide, x, first, second);
    RegisterSteps(op, wide, x, first, second, s);
    assert [] + [w] == [w];
    RunNext([], w, RegisterInsn(op, wide, x, first, second), s);
  }
}
