/** Loading a constant into a register: `arm64_movi`, `arm64_movimm` and the
    assembler's `gen_mov_imm`. */
module MoveImm {
  import opened Wrappers
  import opened A64
  import BitmaskImm
  import opened Text

  /** An instruction word: opcode bits, register, and the low word of a field
      that the source computes in 64 bits. */
  function Assemble(opcode: bv32, r: bv32, field: bv64): bv32 {
    opcode | r | ((field & 0xffff_ffff) as bv32)
  }

  function OrrWord(opcode: bv32, r: bv32, e: bv32): bv32 {
    opcode | r | (e << 10)
  }

  // The tests of the source, one by one. Zeros k: every bit outside halfword k is 0.
  // NarrowOnes k: so is the high word, and the other low halfword is all ones.
  // Ones k: every bit outside halfword k is 1.

  predicate Zeros0(x: bv64) { x & 0xffff_ffff_ffff_0000 == 0 }
  predicate Zeros1(x: bv64) { x & 0xffff_ffff_0000_ffff == 0 }
  predicate Zeros2(x: bv64) { x & 0xffff_0000_ffff_ffff == 0 }
  predicate Zeros3(x: bv64) { x & 0x0000_ffff_ffff_ffff == 0 }
  predicate NarrowOnes0(x: bv64) { x & 0xffff_ffff_ffff_0000 == 0xffff_0000 }
  predicate NarrowOnes1(x: bv64) { x & 0xffff_ffff_0000_ffff == 0xffff }
  predicate Ones0(x: bv64) { !(x | 0xffff) == 0 }
  predicate Ones1(x: bv64) { !(x | 0xffff_0000) == 0 }
  predicate Ones2(x: bv64) { !(x | 0xffff_0000_0000) == 0 }
  predicate Ones3(x: bv64) { !(x | 0xffff_0000_0000_0000) == 0 }

  /** Which of the move-wide forms `arm64_movi` picks, in the order of its tests. */
  datatype Form = Z0 | Z1 | Z2 | Z3 | NarrowN0 | NarrowN1 | N0 | N1 | N2 | N3 | NoForm

  function FormOf(x: bv64): Form {
    if Zeros0(x) then Z0
    else if Zeros1(x) then Z1
    else if Zeros2(x) then Z2
    else if Zeros3(x) then Z3
    else if NarrowOnes0(x) then NarrowN0
    else if NarrowOnes1(x) then NarrowN1
    else if Ones0(x) then N0
    else if Ones1(x) then N1
    else if Ones2(x) then N2
    else if Ones3(x) then N3
    else NoForm
  }

  /** `arm64_movi`: one instruction that loads x, or 0 when there is none. */
  function Movi(r: bv32, x: bv64): bv32 {
    MoviAs(FormOf(x), r, x)
  }

  function MoviAs(form: Form, r: bv32, x: bv64): bv32 {
    match form
    case Z0 => Assemble(0x5280_0000, r, x << 5)
    case Z1 => Assemble(0x52a0_0000, r, x >> 11)
    case Z2 => Assemble(0xd2c0_0000, r, x >> 27)
    case Z3 => Assemble(0xd2e0_0000, r, x >> 43)
    case NarrowN0 => Assemble(0x1280_0000, r, (!x << 5) & 0x1f_ffe0)
    case NarrowN1 => Assemble(0x12a0_0000, r, (!x >> 11) & 0x1f_ffe0)
    case N0 => Assemble(0x9280_0000, r, (!x << 5) & 0x1f_ffe0)
    case N1 => Assemble(0x92a0_0000, r, (!x >> 11) & 0x1f_ffe0)
    case N2 => Assemble(0x92c0_0000, r, (!x >> 27) & 0x1f_ffe0)
    case N3 => Assemble(0x92e0_0000, r, (!x >> 43) & 0x1f_ffe0)
    case NoForm => MoviOrr(r, x >> 32 == 0, BitmaskImm.Encode(x | (x << 32)), BitmaskImm.Encode(x))
  }

  /** The last two tests: ORR with a bitmask immediate, 32-bit form first. */
  function MoviOrr(r: bv32, narrow: bool, twice: Option<bv32>, once: Option<bv32>): bv32 {
    if narrow && twice.Some? then OrrWord(0x3200_03e0, r, twice.value)
    else if once.Some? then OrrWord(0xb200_03e0, r, once.value)
    else 0
  }

  // ----- each single-instruction form loads its constant -----

  lemma Movz0(r: bv32, x: bv64, w: bv32)
    requires r < 31 && x & 0xffff_ffff_ffff_0000 == 0 && w == Assemble(0x5280_0000, r, x << 5)
    ensures Decode(w) == Constant(r, x) && w != 0
  {
  }

  lemma Movz1(r: bv32, x: bv64, w: bv32)
    requires r < 31 && x & 0xffff_ffff_0000_ffff == 0 && w == Assemble(0x52a0_0000, r, x >> 11)
    ensures Decode(w) == Constant(r, x) && w != 0
  {
  }

  lemma Movz2(r: bv32, x: bv64, w: bv32)
    requires r < 31 && x & 0xffff_0000_ffff_ffff == 0 && w == Assemble(0xd2c0_0000, r, x >> 27)
    ensures Decode(w) == Constant(r, x) && w != 0
  {
  }

  lemma Movz3(r: bv32, x: bv64, w: bv32)
    requires r < 31 && x & 0x0000_ffff_ffff_ffff == 0 && w == Assemble(0xd2e0_0000, r, x >> 43)
    ensures Decode(w) == Constant(r, x) && w != 0
  {
  }

  lemma MovnNarrow0(r: bv32, x: bv64, w: bv32)
    requires r < 31 && x & 0xffff_ffff_ffff_0000 == 0xffff_0000 && w == Assemble(0x1280_0000, r, (!x << 5) & 0x1f_ffe0)
    ensures Decode(w) == Constant(r, x) && w != 0
  {
  }

  lemma MovnNarrow1(r: bv32, x: bv64, w: bv32)
    requires r < 31 && x & 0xffff_ffff_0000_ffff == 0xffff && w == Assemble(0x12a0_0000, r, (!x >> 11) & 0x1f_ffe0)
    ensures Decode(w) == Constant(r, x) && w != 0
  {
  }

  lemma Movn0(r: bv32, x: bv64, w: bv32)
    requires r < 31 && !(x | 0xffff) == 0 && w == Assemble(0x9280_0000, r, (!x << 5) & 0x1f_ffe0)
    ensures Decode(w) == Constant(r, x) && w != 0
  {
  }

  lemma Movn1(r: bv32, x: bv64, w: bv32)
    requires r < 31 && !(x | 0xffff_0000) == 0 && w == Assemble(0x92a0_0000, r, (!x >> 11) & 0x1f_ffe0)
    ensures Decode(w) == Constant(r, x) && w != 0
  {
  }

  lemma Movn2(r: bv32, x: bv64, w: bv32)
    requires r < 31 && !(x | 0xffff_0000_0000) == 0 && w == Assemble(0x92c0_0000, r, (!x >> 27) & 0x1f_ffe0)
    ensures Decode(w) == Constant(r, x) && w != 0
  {
  }

  lemma Movn3(r: bv32, x: bv64, w: bv32)
    requires r < 31 && !(x | 0xffff_0000_0000_0000) == 0 && w == Assemble(0x92e0_0000, r, (!x >> 43) & 0x1f_ffe0)
    ensures Decode(w) == Constant(r, x) && w != 0
  {
  }

  lemma OrrFieldsNarrow(w: bv32, r: bv32, e: bv32)
    requires r < 31 && e < 0x2000 && w == OrrWord(0x3200_03e0, r, e)
    ensures w != 0 && w & 0x1f80_0000 == 0x1200_0000 && (w >> 29) & 3 == 1 && (w >> 10) & 0x1fff == e
    ensures w & 31 == r && (w >> 5) & 31 == 31 && !Wide(w) && (w & 0x40_0000 != 0) == (e & 0x1000 != 0)
  {
  }

  lemma OrrFieldsWide(w: bv32, r: bv32, e: bv32)
    requires r < 31 && e < 0x2000 && w == OrrWord(0xb200_03e0, r, e)
    ensures w != 0 && w & 0x1f80_0000 == 0x1200_0000 && (w >> 29) & 3 == 1 && (w >> 10) & 0x1fff == e
    ensures w & 31 == r && (w >> 5) & 31 == 31 && Wide(w)
  {
  }

  lemma LogicalFields(w: bv32, rd: bv32, rn: bv32, opc: bv32, op: LogicalOp, e: bv32, wide: bool, x: bv64)
    requires w & 0x1f80_0000 == 0x1200_0000 && (w >> 29) & 3 == opc && LogicalOpOf(opc) == Some(op)
    requires (w >> 10) & 0x1fff == e && w & 31 == rd && (w >> 5) & 31 == rn && Wide(w) == wide
    requires !wide ==> w & 0x40_0000 == 0
    requires BitmaskImm.Decode(e) == Some(x)
    ensures Decode(w) == LogicalImm(wide, op, rd, rn, Sized(wide, x))
  {
    hide BitmaskImm.Decode, Sized, LogicalOpOf, MoveWide, AddSubImmediate, BitfieldMove, LogicalRegister;
    hide AddSubRegister, AddSubExtended, TwoSource;
  }

  lemma FormTests(x: bv64, form: Form)
    requires form == FormOf(x)
    ensures form == Z0 ==> Zeros0(x)
    ensures form == Z1 ==> Zeros1(x)
    ensures form == Z2 ==> Zeros2(x)
    ensures form == Z3 ==> Zeros3(x)
    ensures form == NarrowN0 ==> NarrowOnes0(x)
    ensures form == NarrowN1 ==> NarrowOnes1(x)
    ensures form == N0 ==> Ones0(x)
    ensures form == N1 ==> Ones1(x)
    ensures form == N2 ==> Ones2(x)
    ensures form == N3 ==> Ones3(x)
  {
    hide Zeros0, Zeros1, Zeros2, Zeros3, NarrowOnes0, NarrowOnes1, Ones0, Ones1, Ones2, Ones3;
  }

  lemma WordZ0(r: bv32, x: bv64)
    requires r < 31 && Zeros0(x)
    ensures Decode(MoviAs(Z0, r, x)) == Constant(r, x)
  {
    hide Decode, Assemble;
    Movz0(r, x, MoviAs(Z0, r, x));
  }

  lemma WordZ1(r: bv32, x: bv64)
    requires r < 31 && Zeros1(x)
    ensures Decode(MoviAs(Z1, r, x)) == Constant(r, x)
  {
    hide Decode, Assemble;
    Movz1(r, x, MoviAs(Z1, r, x));
  }

  lemma WordZ2(r: bv32, x: bv64)
    requires r < 31 && Zeros2(x)
    ensures Decode(MoviAs(Z2, r, x)) == Constant(r, x)
  {
    hide Decode, Assemble;
    Movz2(r, x, MoviAs(Z2, r, x));
  }

  lemma WordZ3(r: bv32, x: bv64)
    requires r < 31 && Zeros3(x)
    ensures Decode(MoviAs(Z3, r, x)) == Constant(r, x)
  {
    hide Decode, Assemble;
    Movz3(r, x, MoviAs(Z3, r, x));
  }

  lemma WordNarrowN0(r: bv32, x: bv64)
    requires r < 31 && NarrowOnes0(x)
    ensures Decode(MoviAs(NarrowN0, r, x)) == Constant(r, x)
  {
    hide Decode, Assemble;
    MovnNarrow0(r, x, MoviAs(NarrowN0, r, x));
  }

  lemma WordNarrowN1(r: bv32, x: bv64)
    requires r < 31 && NarrowOnes1(x)
    ensures Decode(MoviAs(NarrowN1, r, x)) == Constant(r, x)
  {
    hide Decode, Assemble;
    MovnNarrow1(r, x, MoviAs(NarrowN1, r, x));
  }

  lemma WordN0(r: bv32, x: bv64)
    requires r < 31 && Ones0(x)
    ensures Decode(MoviAs(N0, r, x)) == Constant(r, x)
  {
    hide Decode, Assemble;
    Movn0(r, x, MoviAs(N0, r, x));
  }

  lemma WordN1(r: bv32, x: bv64)
    requires r < 31 && Ones1(x)
    ensures Decode(MoviAs(N1, r, x)) == Constant(r, x)
  {
    hide Decode, Assemble;
    Movn1(r, x, MoviAs(N1, r, x));
  }

  lemma WordN2(r: bv32, x: bv64)
    requires r < 31 && Ones2(x)
    ensures Decode(MoviAs(N2, r, x)) == Constant(r, x)
  {
    hide Decode, Assemble;
    Movn2(r, x, MoviAs(N2, r, x));
  }

  lemma WordN3(r: bv32, x: bv64)
    requires r < 31 && Ones3(x)
    ensures Decode(MoviAs(N3, r, x)) == Constant(r, x)
  {
    hide Decode, Assemble;
    Movn3(r, x, MoviAs(N3, r, x));
  }

  /** A word that loads x into r in one step. */
  ghost predicate LoadsAtOnce(w: bv32, r: bv32, x: bv64) {
    Decode(w) == Constant(r, x)
    || exists wide, imm :: Decode(w) == LogicalImm(wide, Orr, r, 31, imm) && Sized(wide, imm) == x
  }

  lemma SizedFacts(wide: bool, x: bv64)
    ensures Sized(wide, Sized(wide, x)) == Sized(wide, x) && Sized(true, x) == x
  {
  }

  lemma TwiceFacts(x: bv64, y: bv64)
    requires x >> 32 == 0 && y == x | (x << 32)
    ensures BitmaskImm.HalvesAgree(y) && Sized(false, y) == x
  {
  }

  lemma NarrowOrrLoads(r: bv32, x: bv64, y: bv64, e: bv32)
    requires r < 31 && x >> 32 == 0 && y == x | (x << 32) && BitmaskImm.Encode(y) == Some(e)
    ensures LoadsAtOnce(OrrWord(0x3200_03e0, r, e), r, x)
  {
    hide *;
    var w := OrrWord(0x3200_03e0, r, e);
    BitmaskImm.EncodeSound(y, e);
    TwiceFacts(x, y);
    BitmaskImm.EncodeNarrow(y, e);
    OrrFieldsNarrow(w, r, e);
    OrrIsOne();
    LogicalFields(w, r, 31, 1, Orr, e, false, y);
    SizedFacts(false, y);
    LoadsByOrr(w, r, x, false, Sized(false, y));
  }

  lemma WideOrrLoads(r: bv32, x: bv64, e: bv32)
    requires r < 31 && BitmaskImm.Encode(x) == Some(e)
    ensures LoadsAtOnce(OrrWord(0xb200_03e0, r, e), r, x)
  {
    hide *;
    var w := OrrWord(0xb200_03e0, r, e);
    BitmaskImm.EncodeSound(x, e);
    OrrFieldsWide(w, r, e);
    OrrIsOne();
    LogicalFields(w, r, 31, 1, Orr, e, true, x);
    SizedFacts(true, x);
    LoadsByOrr(w, r, x, true, Sized(true, x));
  }

  lemma OrrIsOne()
    ensures LogicalOpOf(1) == Some(Orr)
  {
  }

  lemma LoadsByOrr(w: bv32, r: bv32, x: bv64, wide: bool, imm: bv64)
    requires Decode(w) == LogicalImm(wide, Orr, r, 31, imm) && Sized(wide, imm) == x
    ensures LoadsAtOnce(w, r, x)
  {
    hide Decode, Sized;
  }

  lemma WordOrr(r: bv32, x: bv64, y: bv64, w: bv32)
    requires r < 31 && y == x | (x << 32) && w != 0 && w == MoviAs(NoForm, r, x)
    ensures LoadsAtOnce(w, r, x)
  {
    hide BitmaskImm.Encode, LoadsAtOnce, OrrWord;
    if x >> 32 == 0 && BitmaskImm.Encode(y).Some? {
      NarrowOrrLoads(r, x, y, BitmaskImm.Encode(y).value);
    } else {
      WideOrrLoads(r, x, BitmaskImm.Encode(x).value);
    }
  }

  /** `arm64_movi` is right: a nonzero word loads exactly x. */
  lemma MoviLoads(r: bv32, x: bv64, w: bv32)
    requires r < 31 && w == Movi(r, x) && w != 0
    ensures LoadsAtOnce(w, r, x)
  {
    hide FormOf, MoviAs, Decode, Sized, Zeros0, Zeros1, Zeros2, Zeros3, NarrowOnes0, NarrowOnes1, Ones0, Ones1, Ones2;
    hide Ones3;
    var form := FormOf(x);
    FormTests(x, form);
    match form
    case Z0 => WordZ0(r, x);
    case Z1 => WordZ1(r, x);
    case Z2 => WordZ2(r, x);
    case Z3 => WordZ3(r, x);
    case NarrowN0 => WordNarrowN0(r, x);
    case NarrowN1 => WordNarrowN1(r, x);
    case N0 => WordN0(r, x);
    case N1 => WordN1(r, x);
    case N2 => WordN2(r, x);
    case N3 => WordN3(r, x);
    case NoForm => WordOrr(r, x, x | (x << 32), w);
  }

  // ----- no single instruction is missed -----

  /** Some MOVZ, MOVN or ORR with an immediate loads x into r. */
  ghost predicate InOneWord(r: bv32, x: bv64) {
    exists w: bv32 :: LoadsAtOnce(w, r, x)
  }

  lemma OtherClasses(w: bv32)
    ensures !AddSubImmediate(w).LogicalImm? && !AddSubImmediate(w).Constant?
    ensures !BitfieldMove(w).LogicalImm? && !BitfieldMove(w).Constant?
    ensures !LogicalRegister(w).LogicalImm? && !LogicalRegister(w).Constant?
    ensures !AddSubRegister(w).LogicalImm? && !AddSubRegister(w).Constant?
    ensures !AddSubExtended(w).LogicalImm? && !AddSubExtended(w).Constant?
    ensures !TwoSource(w).LogicalImm? && !TwoSource(w).Constant?
  {
    hide Wide, LogicalOpOf;
  }

  lemma MoveWideOnly(wide: bool, opc: bv32, rd: bv32, hw: bv32, imm: bv64)
    ensures !MoveWide(wide, opc, rd, hw, imm).LogicalImm?
  {
    hide Sized, HalfwordAt, HalfwordMask;
  }

  lemma LogicalOnly(w: bv32)
    ensures !LogicalImmediate(w).Constant?
  {
    hide Wide, LogicalOpOf, BitmaskImm.Decode, Sized;
  }

  lemma DecodedConstant(w: bv32)
    requires Decode(w).Constant?
    ensures Decode(w) == MoveWide(Wide(w), (w >> 29) & 3, w & 31, (w >> 21) & 3, ((w >> 5) & 0xffff) as bv64)
  {
    OtherClasses(w);
    LogicalOnly(w);
    hide MoveWide, Wide, AddSubImmediate, LogicalImmediate, BitfieldMove, LogicalRegister, AddSubRegister;
    hide AddSubExtended, TwoSource;
  }

  lemma DecodedLogical(w: bv32)
    requires Decode(w).LogicalImm?
    ensures Decode(w) == LogicalImmediate(w)
  {
    OtherClasses(w);
    MoveWideOnly(Wide(w), (w >> 29) & 3, w & 31, (w >> 21) & 3, ((w >> 5) & 0xffff) as bv64);
    hide MoveWide, Wide, AddSubImmediate, LogicalImmediate, BitfieldMove, LogicalRegister, AddSubRegister;
    hide AddSubExtended, TwoSource;
  }

  lemma HalfFields(w: bv32)
    ensures (w >> 21) & 3 <= 3 && ((w >> 5) & 0xffff) as bv64 <= 0xffff
  {
  }

  lemma PlacedHalf(h: bv64, hw: bv32, v: bv64)
    requires h <= 0xffff && hw <= 3 && v == HalfwordAt(h, hw)
    ensures Zeros0(v) || Zeros1(v) || Zeros2(v) || Zeros3(v)
    ensures hw <= 1 ==> Zeros0(v) || Zeros1(v)
  {
  }

  lemma NotIs(v: bv64)
    ensures Not(v) == 0xffff_ffff_ffff_ffff - v
  {
  }

  lemma Inverted0(v: bv64, x: bv64)
    requires x == 0xffff_ffff_ffff_ffff - v && Zeros0(v)
    ensures Ones0(x)
  {
  }

  lemma Inverted1(v: bv64, x: bv64)
    requires x == 0xffff_ffff_ffff_ffff - v && Zeros1(v)
    ensures Ones1(x)
  {
  }

  lemma Inverted2(v: bv64, x: bv64)
    requires x == 0xffff_ffff_ffff_ffff - v && Zeros2(v)
    ensures Ones2(x)
  {
  }

  lemma Inverted3(v: bv64, x: bv64)
    requires x == 0xffff_ffff_ffff_ffff - v && Zeros3(v)
    ensures Ones3(x)
  {
  }

  lemma InvertedHalf(v: bv64)
    requires Zeros0(v) || Zeros1(v) || Zeros2(v) || Zeros3(v)
    ensures Ones0(Not(v)) || Ones1(Not(v)) || Ones2(Not(v)) || Ones3(Not(v))
  {
    hide *;
    NotIs(v);
    if Zeros0(v) { Inverted0(v, Not(v)); }
    if Zeros1(v) { Inverted1(v, Not(v)); }
    if Zeros2(v) { Inverted2(v, Not(v)); }
    if Zeros3(v) { Inverted3(v, Not(v)); }
  }

  lemma NarrowInvertedHalf(v: bv64, n: bv64, x: bv64)
    requires n == Not(v) && x == Sized(false, n)
    ensures Zeros0(v) ==> NarrowOnes0(x)
    ensures Zeros1(v) ==> NarrowOnes1(x)
  {
  }

  lemma FormNeeded(x: bv64)
    ensures FormOf(x) == NoForm ==> !Zeros0(x) && !Zeros1(x) && !Zeros2(x) && !Zeros3(x)
    ensures FormOf(x) == NoForm ==> !NarrowOnes0(x) && !NarrowOnes1(x)
    ensures FormOf(x) == NoForm ==> !Ones0(x) && !Ones1(x) && !Ones2(x) && !Ones3(x)
  {
    hide Zeros0, Zeros1, Zeros2, Zeros3, NarrowOnes0, NarrowOnes1, Ones0, Ones1, Ones2, Ones3;
  }

  lemma WideIs(n: bv64)
    ensures Sized(true, n) == n
  {
  }

  lemma MoveWideHas(wide: bool, opc: bv32, rd: bv32, hw: bv32, h: bv64, r: bv32, x: bv64)
    requires MoveWide(wide, opc, rd, hw, h) == Constant(r, x)
    ensures x == HalfwordAt(h, hw) || x == Sized(wide, Not(HalfwordAt(h, hw)))
    ensures wide || hw == 0 || hw == 1
  {
    hide Sized, Not, HalfwordAt, HalfwordMask;
  }

  /** What a MOVZ or MOVN loads has a form. */
  lemma ConstantHasForm(wide: bool, opc: bv32, rd: bv32, hw: bv32, h: bv64, r: bv32, x: bv64)
    requires MoveWide(wide, opc, rd, hw, h) == Constant(r, x) && h <= 0xffff && hw <= 3
    ensures FormOf(x) != NoForm
  {
    hide *;
    MoveWideHas(wide, opc, rd, hw, h, r, x);
    FormNeeded(x);
    var v := HalfwordAt(h, hw);
    PlacedHalf(h, hw, v);
    if x != v {
      var n := Not(v);
      if wide {
        WideIs(n);
        InvertedHalf(v);
      } else {
        NarrowInvertedHalf(v, n, x);
      }
    }
  }

  lemma AssembleIs(opcode: bv32, r: bv32, field: bv64)
    requires opcode != 0
    ensures Assemble(opcode, r, field) != 0
  {
  }

  lemma FormEmitted(r: bv32, x: bv64)
    requires FormOf(x) != NoForm
    ensures Movi(r, x) != 0
  {
    hide FormOf, Assemble;
    AssembleIs(0x5280_0000, r, x << 5);
    AssembleIs(0x52a0_0000, r, x >> 11);
    AssembleIs(0xd2c0_0000, r, x >> 27);
    AssembleIs(0xd2e0_0000, r, x >> 43);
    AssembleIs(0x1280_0000, r, (!x << 5) & 0x1f_ffe0);
    AssembleIs(0x12a0_0000, r, (!x >> 11) & 0x1f_ffe0);
    AssembleIs(0x9280_0000, r, (!x << 5) & 0x1f_ffe0);
    AssembleIs(0x92a0_0000, r, (!x >> 11) & 0x1f_ffe0);
    AssembleIs(0x92c0_0000, r, (!x >> 27) & 0x1f_ffe0);
    AssembleIs(0x92e0_0000, r, (!x >> 43) & 0x1f_ffe0);
  }

  lemma OrrWordIs(opcode: bv32, r: bv32, e: bv32)
    requires opcode != 0
    ensures OrrWord(opcode, r, e) != 0
  {
  }

  lemma MoviNoForm(r: bv32, x: bv64)
    requires FormOf(x) == NoForm
    ensures Movi(r, x) == MoviOrr(r, x >> 32 == 0, BitmaskImm.Encode(x | (x << 32)), BitmaskImm.Encode(x))
  {
    hide FormOf, MoviOrr, BitmaskImm.Encode, Assemble;
  }

  lemma OrrEmitted(r: bv32, x: bv64, y: bv64)
    requires y == x | (x << 32)
    requires BitmaskImm.Encode(x).Some? || (x >> 32 == 0 && BitmaskImm.Encode(y).Some?)
    ensures Movi(r, x) != 0
  {
    hide *;
    if FormOf(x) != NoForm {
      FormEmitted(r, x);
    } else {
      MoviNoForm(r, x);
      OrrGiven(r, x >> 32 == 0, BitmaskImm.Encode(y), BitmaskImm.Encode(x));
    }
  }

  lemma OrrGiven(r: bv32, narrow: bool, twice: Option<bv32>, once: Option<bv32>)
    requires once.Some? || (narrow && twice.Some?)
    ensures MoviOrr(r, narrow, twice, once) != 0
  {
    hide OrrWord;
    if twice.Some? { OrrWordIs(0x3200_03e0, r, twice.value); }
    if once.Some? { OrrWordIs(0xb200_03e0, r, once.value); }
  }

  lemma LogicalHas(w: bv32, wide: bool, op: LogicalOp, rd: bv32, rn: bv32, imm: bv64)
    requires LogicalImmediate(w) == LogicalImm(wide, op, rd, rn, imm)
    ensures var e := (w >> 10) & 0x1fff;
      && BitmaskImm.Decode(e).Some? && imm == Sized(wide, BitmaskImm.Decode(e).value)
      && (!wide ==> w & 0x40_0000 == 0)
  {
    hide LogicalOpOf, BitmaskImm.Decode, Sized;
  }

  lemma FieldNarrow(w: bv32, e: bv32)
    requires w & 0x40_0000 == 0 && e == (w >> 10) & 0x1fff
    ensures e & 0x1000 == 0
  {
  }

  lemma HalvesTwice(v: bv64, x: bv64)
    requires BitmaskImm.HalvesAgree(v) && x == Sized(false, Sized(false, v))
    ensures x >> 32 == 0 && v == x | (x << 32)
  {
  }

  lemma OrrNotMissed(w: bv32, r: bv32, x: bv64, wide: bool, imm: bv64)
    requires Decode(w) == LogicalImm(wide, Orr, r, 31, imm) && Sized(wide, imm) == x
    ensures Movi(r, x) != 0
  {
    hide *;
    DecodedLogical(w);
    LogicalHas(w, wide, Orr, r, 31, imm);
    var e := (w >> 10) & 0x1fff;
    var v := BitmaskImm.Decode(e).value;
    BitmaskImm.EncodeComplete(v, e);
    if wide {
      SizedFacts(true, v);
      WideIs(imm);
      OrrEmitted(r, x, x | (x << 32));
    } else {
      FieldNarrow(w, e);
      BitmaskImm.DecodeNarrow(e, v);
      HalvesTwice(v, x);
      OrrEmitted(r, x, v);
    }
  }

  lemma ConstantNotMissed(w: bv32, r: bv32, x: bv64)
    requires Decode(w) == Constant(r, x)
    ensures Movi(r, x) != 0
  {
    hide *;
    DecodedConstant(w);
    HalfFields(w);
    ConstantHasForm(Wide(w), (w >> 29) & 3, w & 31, (w >> 21) & 3, ((w >> 5) & 0xffff) as bv64, r, x);
    FormEmitted(r, x);
  }

  lemma NotMissed(w: bv32, r: bv32, x: bv64)
    requires LoadsAtOnce(w, r, x)
    ensures Movi(r, x) != 0
  {
    hide Movi, Decode, Sized;
    if Decode(w) == Constant(r, x) {
      ConstantNotMissed(w, r, x);
    } else {
      var wide, imm :| Decode(w) == LogicalImm(wide, Orr, r, 31, imm) && Sized(wide, imm) == x;
      OrrNotMissed(w, r, x, wide, imm);
    }
  }

  /** `arm64_movi` finds an instruction if and only if there is one. */
  lemma MoviExactly(r: bv32, x: bv64)
    requires r < 31
    ensures Movi(r, x) != 0 <==> InOneWord(r, x)
  {
    hide Movi, LoadsAtOnce;
    if Movi(r, x) != 0 {
      MoviLoads(r, x, Movi(r, x));
    }
    forall w: bv32 | LoadsAtOnce(w, r, x) ensures Movi(r, x) != 0 {
      NotMissed(w, r, x);
    }
  }

  // ----- halfwords -----

  /** Halfword k of x, for k < 4. */
  function Half(x: bv64, k: nat): bv64 {
    if k == 0 then x & 0xffff
    else if k == 1 then (x >> 16) & 0xffff
    else if k == 2 then (x >> 32) & 0xffff
    else (x >> 48) & 0xffff
  }

  function Flip(h: bv64): bv64 {
    0xffff - h
  }

  lemma EqualHalves(x: bv64, y: bv64)
    requires Half(x, 0) == Half(y, 0) && Half(x, 1) == Half(y, 1) && Half(x, 2) == Half(y, 2) &&
      Half(x, 3) == Half(y, 3)
    ensures x == y
  {
    assert (x ^ y) & 0xffff == 0;
    assert ((x ^ y) >> 16) & 0xffff == 0;
    assert ((x ^ y) >> 32) & 0xffff == 0;
    assert ((x ^ y) >> 48) & 0xffff == 0;
  }

  /** A word is determined by its halfwords. */
  lemma SameHalves(x: bv64, y: bv64)
    requires forall j: nat :: j < 4 ==> Half(x, j) == Half(y, j)
    ensures x == y
  {
    hide Half;
    EqualHalves(x, y);
  }

  lemma HalfRange(x: bv64, k: nat)
    ensures Half(x, k) <= 0xffff
  {
  }

  lemma HalfOfNot0(x: bv64)
    ensures Half(Not(x), 0) == Flip(Half(x, 0))
  {
  }

  lemma HalfOfNot1(x: bv64)
    ensures Half(Not(x), 1) == Flip(Half(x, 1))
  {
  }

  lemma HalfOfNot2(x: bv64)
    ensures Half(Not(x), 2) == Flip(Half(x, 2))
  {
  }

  lemma HalfOfNot3(x: bv64)
    ensures Half(Not(x), 3) == Flip(Half(x, 3))
  {
  }

  lemma HalfOfNot(x: bv64, k: nat)
    requires k < 4
    ensures Half(Not(x), k) == Flip(Half(x, k))
  {
    hide *;
    if k == 0 { HalfOfNot0(x); }
    else if k == 1 { HalfOfNot1(x); }
    else if k == 2 { HalfOfNot2(x); }
    else { HalfOfNot3(x); }
  }

  lemma FlipFacts(h: bv64)
    requires h <= 0xffff
    ensures Flip(0) == 0xffff && Flip(Flip(h)) == h && (Flip(h) == 0 <==> h == 0xffff) && Flip(h) <= 0xffff
  {
  }

  function Hw(k: nat): bv32 {
    if k == 0 then 0 else if k == 1 then 1 else if k == 2 then 2 else 3
  }

  /** `mov1 | r | half << 5 | i << 17` with i = 16 * k. */
  function MoveWord(opcode: bv32, r: bv32, half: bv64, hw: bv32): bv32 {
    opcode | r | (((half & 0xffff) as bv32) << 5) | (hw << 21)
  }

  lemma MoveWordFields(opcode: bv32, opc: bv32, r: bv32, half: bv64, hw: bv32, w: bv32)
    requires (opcode == 0xd280_0000 && opc == 2) || (opcode == 0x9280_0000 && opc == 0) ||
      (opcode == 0xf280_0000 && opc == 3)
    requires r < 31 && half <= 0xffff && hw < 4 && w == MoveWord(opcode, r, half, hw)
    ensures w & 0x1f80_0000 == 0x1280_0000 && (w >> 29) & 3 == opc && w & 31 == r && (w >> 21) & 3 == hw
    ensures ((w >> 5) & 0xffff) as bv64 == half && Wide(w)
  {
  }

  lemma MoveWideFields(w: bv32, wide: bool, opc: bv32, r: bv32, half: bv64, hw: bv32)
    requires w & 0x1f80_0000 == 0x1280_0000 && (w >> 29) & 3 == opc && w & 31 == r && (w >> 21) & 3 == hw
    requires ((w >> 5) & 0xffff) as bv64 == half && Wide(w) == wide
    ensures Decode(w) == MoveWide(wide, opc, r, hw, half)
  {
    hide MoveWide, AddSubImmediate, LogicalImmediate, BitfieldMove, LogicalRegister, AddSubRegister, AddSubExtended;
    hide TwoSource, Wide;
  }

  lemma MoveWordDecodes(opcode: bv32, opc: bv32, r: bv32, half: bv64, k: nat)
    requires (opcode == 0xd280_0000 && opc == 2) || (opcode == 0x9280_0000 && opc == 0) ||
      (opcode == 0xf280_0000 && opc == 3)
    requires r < 31 && half <= 0xffff && k < 4
    ensures Decode(MoveWord(opcode, r, half, Hw(k))) == MoveWide(true, opc, r, Hw(k), half)
  {
    hide *;
    HwRange(k);
    var w, hw := MoveWord(opcode, r, half, Hw(k)), Hw(k);
    MoveWordFields(opcode, opc, r, half, hw, w);
    MoveWideFields(w, true, opc, r, half, hw);
  }

  lemma HwRange(k: nat)
    ensures Hw(k) < 4
  {
  }

  lemma HalvesOfPlaced(h: bv64, k: nat, j: nat)
    requires h <= 0xffff && k < 4 && j < 4
    ensures Half(HalfwordAt(h, Hw(k)), j) == if j == k then h else 0
  {
  }

  lemma HalvesOfMerged(v: bv64, h: bv64, k: nat, j: nat)
    requires h <= 0xffff && k < 4 && j < 4
    ensures Half(Merge(v, HalfwordMask(Hw(k)), HalfwordAt(h, Hw(k))), j) == if j == k then h else Half(v, j)
  {
  }

  // ----- sequences of moves -----

  lemma OrrWithZero(imm: bv64)
    ensures Logical(Orr, 0, imm) == imm
  {
  }

  lemma LeavesConstant(w: bv32, r: bv32, x: bv64)
    requires r < 31 && Decode(w) == Constant(r, x)
    ensures Leaves([w], r, x)
  {
    hide Decode;
    assert [] + [w] == [w];
    forall s: Regs, q: bv32 ensures A64.Run([w], s)(q) == if q == r then x else s(q) {
      RunNext([], w, Constant(r, x), s);
    }
  }

  lemma LeavesLogical(w: bv32, wide: bool, r: bv32, imm: bv64, x: bv64)
    requires r < 31 && Decode(w) == LogicalImm(wide, Orr, r, 31, imm) && Sized(wide, imm) == x
    ensures Leaves([w], r, x)
  {
    hide Decode, Sized, Logical;
    assert [] + [w] == [w];
    OrrWithZero(imm);
    forall s: Regs, q: bv32 ensures A64.Run([w], s)(q) == if q == r then x else s(q) {
      RunNext([], w, LogicalImm(wide, Orr, r, 31, imm), s);
    }
  }

  lemma LeavesAtOnce(w: bv32, r: bv32, x: bv64)
    requires r < 31 && LoadsAtOnce(w, r, x)
    ensures Leaves([w], r, x)
  {
    hide Decode, Sized, Leaves;
    if Decode(w) == Constant(r, x) {
      LeavesConstant(w, r, x);
    } else {
      var wide, imm :| Decode(w) == LogicalImm(wide, Orr, r, 31, imm) && Sized(wide, imm) == x;
      LeavesLogical(w, wide, r, imm, x);
    }
  }

  lemma LeavesMerged(ws: seq<bv32>, r: bv32, v: bv64, w: bv32, mask: bv64, bits: bv64)
    requires r < 31 && Leaves(ws, r, v) && Decode(w) == Insert(r, mask, bits)
    ensures Leaves(ws + [w], r, Merge(v, mask, bits))
  {
    hide Decode, Merge;
    forall s: Regs, q: bv32 ensures A64.Run(ws + [w], s)(q) == if q == r then Merge(v, mask, bits) else s(q) {
      RunNext(ws, w, Insert(r, mask, bits), s);
    }
  }

  // ----- `arm64_movimm` -----

  /** Halfwords of v agree with x below k and are f from k on. */
  ghost predicate Partial(v: bv64, x: bv64, f: bv64, k: nat) {
    forall j: nat :: j < 4 ==> Half(v, j) == if j < k then Half(x, j) else f
  }

  /** How many of the first k halfwords of x are h. */
  function Count(x: bv64, h: bv64, k: nat): (n: nat)
    ensures n <= k
  {
    if k == 0 then 0 else Count(x, h, k - 1) + (if Half(x, k - 1) == h then 1 else 0)
  }

  function Max(a: nat, b: nat): nat {
    if a < b then b else a
  }

  lemma FlippedToZero(x: bv64, k: nat)
    requires k < 4
    ensures Half(Not(x), k) == 0 <==> Half(x, k) == 0xffff
  {
    hide Half, Not, Flip;
    HalfOfNot(x, k);
    HalfRange(x, k);
    FlipFacts(Half(x, k));
  }

  /** The fill that the first word leaves in the halfwords not yet written. */
  function Fill(neg: bool): bv64 {
    if neg then 0xffff else 0
  }

  /** The word whose nonzero halfwords are emitted. */
  function Base(x: bv64, neg: bool): bv64 {
    if neg then Not(x) else x
  }

  lemma BaseZero(x: bv64, neg: bool, k: nat)
    requires k < 4
    ensures Half(Base(x, neg), k) == 0 <==> Half(x, k) == Fill(neg)
  {
    hide Half, Not;
    FlippedToZero(x, k);
  }

  function FirstOpcode(neg: bool): bv32 {
    if neg then 0x9280_0000 else 0xd280_0000
  }

  /** The first word sets one halfword and fills all the others. */
  lemma FirstWord(x: bv64, r: bv32, neg: bool, k: nat, w: bv32) returns (v: bv64)
    requires r < 31 && k < 4 && w == MoveWord(FirstOpcode(neg), r, Half(Base(x, neg), k), Hw(k))
    requires forall j: nat :: j < k ==> Half(x, j) == Fill(neg)
    ensures Leaves([w], r, v) && Partial(v, x, Fill(neg), k + 1)
  {
    hide Half, Not, MoveWord, HalfwordAt, Decode, Flip, Hw;
    var h := Half(Base(x, neg), k);
    HalfRange(Base(x, neg), k);
    HalfRange(x, k);
    HwRange(k);
    MoveWordDecodes(FirstOpcode(neg), if neg then 0 else 2, r, h, k);
    var p := HalfwordAt(h, Hw(k));
    v := if neg then Not(p) else p;
    HalfOfNot(x, k);
    FlipFacts(Half(x, k));
    forall j: nat | j < 4 ensures Half(v, j) == if j < k + 1 then Half(x, j) else Fill(neg) {
      HalvesOfPlaced(h, k, j);
      HalfOfNot(p, j);
    }
    LeavesAtOnce(w, r, v);
  }

  /** Each later word replaces one fill halfword. */
  lemma NextWord(ws: seq<bv32>, v: bv64, x: bv64, r: bv32, f: bv64, k: nat, w: bv32) returns (v': bv64)
    requires r < 31 && k < 4 && w == MoveWord(0xf280_0000, r, Half(x, k), Hw(k))
    requires Leaves(ws, r, v) && Partial(v, x, f, k)
    ensures Leaves(ws + [w], r, v') && Partial(v', x, f, k + 1)
  {
    hide Half, MoveWord, HalfwordAt, HalfwordMask, Decode, Hw, Merge, Leaves;
    var h := Half(x, k);
    HalfRange(x, k);
    HwRange(k);
    MoveWordDecodes(0xf280_0000, 3, r, h, k);
    v' := Merge(v, HalfwordMask(Hw(k)), HalfwordAt(h, Hw(k)));
    forall j: nat | j < 4 ensures Half(v', j) == if j < k + 1 then Half(x, j) else f {
      HalvesOfMerged(v, h, k, j);
    }
    LeavesMerged(ws, r, v, w, HalfwordMask(Hw(k)), HalfwordAt(h, Hw(k)));
  }

  /** All zeros and all ones are single instructions. */
  lemma TrivialConstants(r: bv32, x: bv64, neg: bool)
    requires r < 31 && forall j: nat :: j < 4 ==> Half(x, j) == Fill(neg)
    ensures Movi(r, x) != 0
  {
    hide Half, Movi;
    ConstantHalves();
    SameHalves(x, if neg then 0xffff_ffff_ffff_ffff else 0);
    MoviOfZero(r);
    MoviOfOnes(r);
  }

  lemma ConstantHalves()
    ensures forall j: nat :: j < 4 ==> Half(0, j) == 0 && Half(0xffff_ffff_ffff_ffff, j) == 0xffff
  {
  }

  lemma MoviOfZero(r: bv32)
    requires r < 31
    ensures Movi(r, 0) != 0
  {
    hide Decode, Assemble;
    Movz0(r, 0, Assemble(0x5280_0000, r, 0));
  }

  lemma MoviOfOnes(r: bv32)
    requires r < 31
    ensures Movi(r, 0xffff_ffff_ffff_ffff) != 0
  {
    hide Decode, Assemble;
    Movn0(r, 0xffff_ffff_ffff_ffff, Assemble(0x9280_0000, r, 0));
  }

  /** The counting loop: how many halfwords are 0 and how many are all ones. */
  method CountHalves(x: bv64) returns (z: nat, m: nat)
    ensures z == Count(x, 0, 4) && m == Count(x, 0xffff, 4)
  {
    hide Half, Not;
    z, m := 0, 0;
    for k := 0 to 4
      invariant z == Count(x, 0, k) && m == Count(x, 0xffff, k)
    {
      FlippedToZero(x, k);
      if Half(x, k) == 0 { z := z + 1; }
      if Half(Not(x), k) == 0 { m := m + 1; }
    }
  }

  /** The loop that emits MOVZ or MOVN for the first halfword that differs from the fill. */
  method FirstMove(t: Section, r: bv32, x: bv64, neg: bool) returns (k: nat, ghost w: bv32, ghost v: bv64)
    requires t.Valid() && r < 31 && Movi(r, x) == 0
    modifies t
    ensures t.Valid() && t.Emitted(old(t.data), old(t.ind), [w])
    ensures k < 4 && Count(x, Fill(neg), k + 1) == k
    ensures Leaves([w], r, v) && Partial(v, x, Fill(neg), k + 1)
  {
    hide Half, Movi, Decode, Not, MoveWord, Leaves, Hw, Base, Fill, Partial, FirstOpcode;
    k := 0;
    while k < 4
      invariant k <= 4 && t.data == old(t.data) && t.ind == old(t.ind)
      invariant forall j: nat :: j < k ==> Half(x, j) == Fill(neg)
      invariant Count(x, Fill(neg), k) == k
    {
      BaseZero(x, neg, k);
      var h := Half(Base(x, neg), k);
      if h != 0 {
        var w' := MoveWord(FirstOpcode(neg), r, h, Hw(k));
        t.O(w');
        w := w';
        v := FirstWord(x, r, neg, k, w);
        return;
      }
      k := k + 1;
    }
    TrivialConstants(r, x, neg);
    assert false;
  }

  /** The MOVZ or MOVN and the MOVKs, for a constant no single instruction loads. */
  method MoveSequence(t: Section, r: bv32, x: bv64, neg: bool) returns (ghost ws: seq<bv32>)
    requires t.Valid() && r < 31 && Movi(r, x) == 0
    modifies t
    ensures t.Valid() && t.Emitted(old(t.data), old(t.ind), ws)
    ensures Leaves(ws, r, x)
    ensures |ws| + Count(x, Fill(neg), 4) == 4 && 1 <= |ws|
  {
    hide Half, Movi, Decode, Not, MoveWord, Leaves, Hw, Base, Fill, Partial, Text.PutAll, Text.Put;
    ghost var before, start := t.data, t.ind;
    var k, w0, v0 := FirstMove(t, r, x, neg);
    ghost var v := v0;
    ws := [w0];
    k := k + 1;
    while k < 4
      invariant k <= 4 && t.Valid() && t.Emitted(before, start, ws)
      invariant Leaves(ws, r, v) && Partial(v, x, Fill(neg), k)
      invariant |ws| + Count(x, Fill(neg), k) == k && 1 <= |ws|
    {
      BaseZero(x, neg, k);
      if Half(Base(x, neg), k) != 0 {
        var w := MoveWord(0xf280_0000, r, Half(x, k), Hw(k));
        PutAllNext(before, start, ws, w);
        t.O(w);
        v := NextWord(ws, v, x, r, Fill(neg), k, w);
        ws := ws + [w];
      } else {
        PartialSkip(v, x, Fill(neg), k);
      }
      k := k + 1;
    }
    WholePartial(v, x, Fill(neg));
  }

  lemma PartialSkip(v: bv64, x: bv64, f: bv64, k: nat)
    requires Partial(v, x, f, k) && Half(x, k) == f
    ensures Partial(v, x, f, k + 1)
  {
    hide Half;
  }

  lemma WholePartial(v: bv64, x: bv64, f: bv64)
    requires Partial(v, x, f, 4)
    ensures v == x
  {
    hide Half;
    SameHalves(v, x);
  }

  /** `arm64_movimm`: at most four words, after which r holds exactly x. */
  method Movimm(t: Section, r: bv32, x: bv64) returns (ghost ws: seq<bv32>)
    requires t.Valid() && r < 31
    modifies t
    ensures t.Valid() && t.Emitted(old(t.data), old(t.ind), ws)
    ensures Leaves(ws, r, x)
    ensures |ws| == (if InOneWord(r, x) then 1 else 4 - Max(Count(x, 0, 4), Count(x, 0xffff, 4))) && 1 <= |ws| <= 4
  {
    hide Half, Movi, Leaves, LoadsAtOnce;
    MoviExactly(r, x);
    hide InOneWord;
    var i := Movi(r, x);
    if i != 0 {
      t.O(i);
      ws := [i];
      MoviLoads(r, x, i);
      LeavesAtOnce(i, r, x);
    } else {
      var z, m := CountHalves(x);
      ws := MoveSequence(t, r, x, m > z);
    }
  }

  // ----- the assembler's `gen_mov_imm` -----

  /** `gen_movz` and `gen_movk`; the MOVK opcode carries the 64-bit flag already. */
  function AsmWord(keep: bool, wide: bool, rd: bv32, half: bv64, hw: bv32): bv32 {
    MoveWord(if keep then 0xf280_0000 else if wide then 0xd280_0000 else 0x5280_0000, rd, half, hw)
  }

  lemma NarrowMovz(rd: bv32, h: bv64, w: bv32)
    requires rd < 31 && h <= 0xffff && w == MoveWord(0x5280_0000, rd, h, 0)
    ensures Decode(w) == Constant(rd, h)
  {
  }

  /** The constant that `gen_mov_imm` is asked for. */
  function Asked(imm: bv64, wide: bool): bv64 {
    if wide then imm else imm & 0xffff_ffff
  }

  lemma AskedHalves(imm: bv64, wide: bool, k: nat)
    requires k < 4
    ensures Half(Asked(imm, wide), k) == if wide || k < 2 then Half(imm, k) else 0
  {
  }

  lemma AsmFirst(imm: bv64, rd: bv32, wide: bool, w: bv32) returns (v: bv64)
    requires rd < 31 && w == AsmWord(false, wide, rd, Half(imm, 0), Hw(0))
    ensures Leaves([w], rd, v) && Partial(v, imm, 0, 1)
  {
    hide Half, Not, MoveWord, HalfwordAt, Decode, Flip, Leaves;
    if wide {
      v := FirstWord(imm, rd, false, 0, w);
    } else {
      var h := Half(imm, 0);
      HalfRange(imm, 0);
      NarrowMovz(rd, h, w);
      v := h;
      forall j: nat | j < 4 ensures Half(v, j) == if j < 1 then Half(imm, j) else 0 {
        HalvesOfHalf(h, j);
      }
      LeavesAtOnce(w, rd, v);
    }
  }

  lemma HalvesOfHalf(h: bv64, j: nat)
    requires h <= 0xffff && j < 4
    ensures Half(h, j) == if j == 0 then h else 0
  {
  }

  /** `gen_mov_imm` always starts with halfword 0, so it emits one word per
      halfword; it loads the same constant as `arm64_movimm`. */
  method GenMovImm(t: Section, rd: bv32, imm: bv64, wide: bool) returns (ghost ws: seq<bv32>)
    requires t.Valid() && rd < 31
    modifies t
    ensures t.Valid() && t.Emitted(old(t.data), old(t.ind), ws)
    ensures Leaves(ws, rd, Asked(imm, wide))
    ensures |ws| == if wide then 4 else 2
  {
    hide Half, Decode, Not, MoveWord, Leaves, Hw, AsmWord, Partial, Text.PutAll, Text.Put, Asked;
    ghost var before, start := t.data, t.ind;
    var n := if wide then 4 else 2;
    var first := true;
    ws := [];
    ghost var v: bv64 := 0;
    var i := 0;
    while i < n
      invariant 0 <= i <= n && first == (i == 0) && t.Valid() && |ws| == i
      invariant i == 0 ==> t.data == before && t.ind == start
      invariant i > 0 ==> t.Emitted(before, start, ws) && Leaves(ws, rd, v) && Partial(v, imm, 0, i)
    {
      var hw := Half(imm, i);
      if hw != 0 || i == 0 {
        if first {
          var w := AsmWord(false, wide, rd, hw, Hw(i));
          PutAllOne(before, start, w);
          t.O(w);
          v := AsmFirst(imm, rd, wide, w);
          ws := [w];
          first := false;
        } else {
          var w := AsmWord(true, wide, rd, hw, Hw(i));
          PutAllNext(before, start, ws, w);
          t.O(w);
          v := AsmNext(ws, v, imm, rd, wide, i, w);
          ws := ws + [w];
        }
      } else if !first {
        var w := AsmWord(true, wide, rd, hw, Hw(i));
        PutAllNext(before, start, ws, w);
        t.O(w);
        v := AsmNext(ws, v, imm, rd, wide, i, w);
        ws := ws + [w];
      }
      i := i + 1;
    }
    AskedPartial(v, imm, wide);
  }

  lemma AsmNext(ws: seq<bv32>, v: bv64, imm: bv64, rd: bv32, wide: bool, k: nat, w: bv32) returns (v': bv64)
    requires rd < 31 && k < 4 && w == AsmWord(true, wide, rd, Half(imm, k), Hw(k))
    requires Leaves(ws, rd, v) && Partial(v, imm, 0, k)
    ensures Leaves(ws + [w], rd, v') && Partial(v', imm, 0, k + 1)
  {
    hide Half, MoveWord, Decode, Hw, Leaves, Partial;
    v' := NextWord(ws, v, imm, rd, 0, k, w);
  }

  lemma AskedPartial(v: bv64, imm: bv64, wide: bool)
    requires Partial(v, imm, 0, if wide then 4 else 2)
    ensures v == Asked(imm, wide)
  {
    hide Half, Asked;
    forall j: nat | j < 4 ensures Half(v, j) == Half(Asked(imm, wide), j) {
      AskedHalves(imm, wide, j);
    }
    SameHalves(v, Asked(imm, wide));
  }
}
