/** The loads and stores of the A64 generator, `arm64_ldrx`, `arm64_ldrv`,
    `arm64_strx` and `arm64_strv`, and access to a symbol plus an offset. */
module LoadStore {
  import opened A64
  import opened A64Access
  import opened MoveImm
  import opened StackSetup
  import opened SymbolAccess
  import opened Text
  import opened Wrappers

  /** Which of the four functions. */
  datatype Kind = LoadX(signed: bool) | LoadV | StoreX | StoreV

  predicate IsVector(kind: Kind) {
    kind.LoadV? || kind.StoreV?
  }

  /** Sizes 1 to 8 bytes for integers, to 16 for vectors. */
  predicate Sizes(kind: Kind, sz: bv32) {
    sz <= 3 || (sz == 4 && IsVector(kind))
  }

  // ----- the instruction words -----

  function SizeBits(sz: bv32): bv32 {
    if sz == 0 then 0
    else if sz == 1 then 0x4000_0000
    else if sz == 2 then 0x8000_0000
    else if sz == 3 then 0xc000_0000
    else 0x80_0000
  }

  /** Load or store, sign extension, vector and size: the same in all three
      addressing forms. */
  function Operation(kind: Kind, sz: bv32): bv32 {
    match kind
    case LoadX(signed) => SizeBits(sz) | (if signed && sz < 2 then 0xc0_0000 else 0x40_0000)
    case LoadV => SizeBits(sz) | 0x440_0000
    case StoreX => SizeBits(sz)
    case StoreV => SizeBits(sz) | 0x400_0000
  }

  predicate IsOperation(op: bv32) {
    op & 0xc4c0_0000 == op
  }

  /** The twelve-bit field of a scaled offset: `off << (10 - sz)`, at bit 10. */
  function ScaledField(sz: bv32, off: bv64): bv32 {
    if sz == 0 then (off & 0xfff) as bv32
    else if sz == 1 then ((off >> 1) & 0xfff) as bv32
    else if sz == 2 then ((off >> 2) & 0xfff) as bv32
    else if sz == 3 then ((off >> 3) & 0xfff) as bv32
    else ((off >> 4) & 0xfff) as bv32
  }

  function ScaledWord(op: bv32, dst: bv32, bas: bv32, f: bv32): bv32 {
    0x3900_0000 | op | dst | (bas << 5) | (f << 10)
  }

  function UnscaledField(off: bv64): bv32 {
    (off & 511) as bv32
  }

  function UnscaledWord(op: bv32, dst: bv32, bas: bv32, f: bv32): bv32 {
    0x3800_0000 | op | dst | (bas << 5) | (f << 12)
  }

  function RegisterWord(op: bv32, dst: bv32, bas: bv32): bv32 {
    0x3820_6800 | op | dst | (bas << 5) | (30 << 16)
  }

  // ----- what is transferred -----

  function BytesOf(sz: bv32): nat {
    if sz == 0 then 1 else if sz == 1 then 2 else if sz == 2 then 4 else if sz == 3 then 8 else 16
  }

  /** Loads load and stores store, of a general or a vector register, 2^sz bytes;
      only signed loads of one or two bytes extend the sign, to 32 bits. */
  predicate Moves(what: Transfer, kind: Kind, sz: bv32) {
    && (what.load <==> kind.LoadX? || kind.LoadV?)
    && (what.vector <==> kind.LoadV? || kind.StoreV?)
    && what.bytes == (if sz == 0 then 1 else if sz == 1 then 2 else if sz == 2 then 4 else if sz == 3 then 8 else 16)
    && what.extension == if kind == LoadX(true) && sz <= 1 then Sign32 else Zeros
  }

  lemma OperationIs(kind: Kind, sz: bv32)
    requires Sizes(kind, sz)
    ensures IsOperation(Operation(kind, sz))
  {
  }

  lemma LoadXMoves(signed: bool, sz: bv32)
    requires Sizes(LoadX(signed), sz)
    ensures TransferOf(Operation(LoadX(signed), sz)).Some?
    ensures Moves(TransferOf(Operation(LoadX(signed), sz)).value, LoadX(signed), sz)
  {
  }

  lemma StoreXMoves(sz: bv32)
    requires Sizes(StoreX, sz)
    ensures TransferOf(Operation(StoreX, sz)).Some? && Moves(TransferOf(Operation(StoreX, sz)).value, StoreX, sz)
  {
  }

  lemma LoadVMoves(sz: bv32)
    requires Sizes(LoadV, sz)
    ensures TransferOf(Operation(LoadV, sz)).Some? && Moves(TransferOf(Operation(LoadV, sz)).value, LoadV, sz)
  {
  }

  lemma StoreVMoves(sz: bv32)
    requires Sizes(StoreV, sz)
    ensures TransferOf(Operation(StoreV, sz)).Some? && Moves(TransferOf(Operation(StoreV, sz)).value, StoreV, sz)
  {
  }

  /** The operation bits decode to what they should move. */
  lemma OperationMoves(kind: Kind, sz: bv32)
    requires Sizes(kind, sz)
    ensures TransferOf(Operation(kind, sz)).Some? && Moves(TransferOf(Operation(kind, sz)).value, kind, sz)
  {
    hide *;
    match kind
    case LoadX(signed) => LoadXMoves(signed, sz);
    case LoadV => LoadVMoves(sz);
    case StoreX => StoreXMoves(sz);
    case StoreV => StoreVMoves(sz);
  }

  // ----- the words decode -----

  predicate IsScaledWord(w: bv32, op: bv32, dst: bv32, bas: bv32, f: bv32) {
    w == ScaledWord(op, dst, bas, f) && IsOperation(op) && dst < 32 && bas < 32 && f <= 0xfff
  }

  lemma ScaledClass(w: bv32, op: bv32, dst: bv32, bas: bv32, f: bv32)
    requires IsScaledWord(w, op, dst, bas, f)
    ensures w & 0x3b00_0000 == 0x3900_0000
  {
  }

  lemma ScaledOp(w: bv32, op: bv32, dst: bv32, bas: bv32, f: bv32)
    requires IsScaledWord(w, op, dst, bas, f)
    ensures TransferOf(w) == TransferOf(op)
  {
    hide DecodeTransfer;
  }

  lemma ScaledRegs(w: bv32, op: bv32, dst: bv32, bas: bv32, f: bv32)
    requires IsScaledWord(w, op, dst, bas, f)
    ensures w & 31 == dst && (w >> 5) & 31 == bas
  {
  }

  lemma ScaledImm(w: bv32, op: bv32, dst: bv32, bas: bv32, f: bv32)
    requires IsScaledWord(w, op, dst, bas, f)
    ensures (w >> 10) & 0xfff == f
  {
  }

  lemma ScaledDecodes(w: bv32, op: bv32, dst: bv32, bas: bv32, f: bv32)
    requires IsScaledWord(w, op, dst, bas, f) && TransferOf(op).Some?
    ensures var what := TransferOf(op).value;
      DecodeAccess(w) == Some(Access(what, dst, bas, Fixed(Scaled(what.bytes, f as bv64))))
  {
    hide IsScaledWord, TransferOf, Scaled;
    ScaledClass(w, op, dst, bas, f);
    ScaledOp(w, op, dst, bas, f);
    ScaledRegs(w, op, dst, bas, f);
    ScaledImm(w, op, dst, bas, f);
  }

  predicate IsUnscaledWord(w: bv32, op: bv32, dst: bv32, bas: bv32, f: bv32) {
    w == UnscaledWord(op, dst, bas, f) && IsOperation(op) && dst < 32 && bas < 32 && f <= 0x1ff
  }

  lemma UnscaledClass(w: bv32, op: bv32, dst: bv32, bas: bv32, f: bv32)
    requires IsUnscaledWord(w, op, dst, bas, f)
    ensures w & 0x3b00_0000 != 0x3900_0000 && w & 0x3b20_0c00 == 0x3800_0000
  {
  }

  lemma UnscaledOp(w: bv32, op: bv32, dst: bv32, bas: bv32, f: bv32)
    requires IsUnscaledWord(w, op, dst, bas, f)
    ensures TransferOf(w) == TransferOf(op)
  {
    hide DecodeTransfer;
  }

  lemma UnscaledRegs(w: bv32, op: bv32, dst: bv32, bas: bv32, f: bv32)
    requires IsUnscaledWord(w, op, dst, bas, f)
    ensures w & 31 == dst && (w >> 5) & 31 == bas && (w >> 12) & 0x1ff == f
  {
  }

  lemma UnscaledDecodes(w: bv32, op: bv32, dst: bv32, bas: bv32, f: bv32)
    requires IsUnscaledWord(w, op, dst, bas, f) && TransferOf(op).Some?
    ensures DecodeAccess(w) == Some(Access(TransferOf(op).value, dst, bas, Fixed(SignExtend9(f as bv64))))
  {
    hide IsUnscaledWord, TransferOf, Scaled, SignExtend9;
    UnscaledClass(w, op, dst, bas, f);
    UnscaledOp(w, op, dst, bas, f);
    UnscaledRegs(w, op, dst, bas, f);
  }

  predicate IsRegisterWord(w: bv32, op: bv32, dst: bv32, bas: bv32) {
    w == RegisterWord(op, dst, bas) && IsOperation(op) && dst < 32 && bas < 32
  }

  lemma RegisterClass(w: bv32, op: bv32, dst: bv32, bas: bv32)
    requires IsRegisterWord(w, op, dst, bas)
    ensures w & 0x3b00_0000 != 0x3900_0000 && w & 0x3b20_0c00 != 0x3800_0000 && w & 0x3b20_fc00 == 0x3820_6800
  {
  }

  lemma RegisterFields(w: bv32, op: bv32, dst: bv32, bas: bv32)
    requires IsRegisterWord(w, op, dst, bas)
    ensures w & 31 == dst && (w >> 5) & 31 == bas && (w >> 16) & 31 == 30
  {
  }

  lemma RegisterOp(w: bv32, op: bv32, dst: bv32, bas: bv32)
    requires IsRegisterWord(w, op, dst, bas)
    ensures TransferOf(w) == TransferOf(op)
  {
    hide DecodeTransfer;
  }

  lemma RegisterDecodes(w: bv32, op: bv32, dst: bv32, bas: bv32)
    requires IsRegisterWord(w, op, dst, bas) && TransferOf(op).Some?
    ensures DecodeAccess(w) == Some(Access(TransferOf(op).value, dst, bas, Register(30)))
  {
    hide IsRegisterWord, TransferOf, Scaled, SignExtend9;
    RegisterOp(w, op, dst, bas);
    RegisterClass(w, op, dst, bas);
    RegisterFields(w, op, dst, bas);
  }

  // ----- offsets in the immediate forms -----

  predicate InScaledRange(sz: bv32, off: bv64) {
    off & !ScaledMask(sz) == 0
  }

  predicate InUnscaledRange(off: bv64) {
    off < 256 || 0 - off <= 256
  }

  lemma Immediately(sz: bv32, off: bv64)
    ensures Immediate(ScaledMask(sz), off) <==> InScaledRange(sz, off) || InUnscaledRange(off)
  {
    hide ScaledMask;
  }

  lemma ScaledBytes(off: bv64)
    requires InScaledRange(0, off)
    ensures Scaled(1, ScaledField(0, off) as bv64) == off
  {
  }

  lemma ScaledHalves(off: bv64)
    requires InScaledRange(1, off)
    ensures Scaled(2, ScaledField(1, off) as bv64) == off
  {
  }

  lemma ScaledWords(off: bv64)
    requires InScaledRange(2, off)
    ensures Scaled(4, ScaledField(2, off) as bv64) == off
  {
  }

  lemma ScaledDoubles(off: bv64)
    requires InScaledRange(3, off)
    ensures Scaled(8, ScaledField(3, off) as bv64) == off
  {
  }

  lemma ScaledQuads(off: bv64)
    requires InScaledRange(4, off)
    ensures Scaled(16, ScaledField(4, off) as bv64) == off
  {
  }

  /** A scaled offset reads back from its field. */
  lemma ScaledReads(sz: bv32, off: bv64)
    requires sz <= 4 && InScaledRange(sz, off)
    ensures Scaled(BytesOf(sz), ScaledField(sz, off) as bv64) == off
  {
    hide *;
    FiveSizes(sz);
    SizesAre();
    if sz == 0 { ScaledBytes(off); }
    if sz == 1 { ScaledHalves(off); }
    if sz == 2 { ScaledWords(off); }
    if sz == 3 { ScaledDoubles(off); }
    if sz == 4 { ScaledQuads(off); }
  }

  lemma FiveSizes(sz: bv32)
    requires sz <= 4
    ensures sz == 0 || sz == 1 || sz == 2 || sz == 3 || sz == 4
  {
  }

  lemma SizesAre()
    ensures BytesOf(0) == 1 && BytesOf(1) == 2 && BytesOf(2) == 4 && BytesOf(3) == 8 && BytesOf(4) == 16
  {
  }

  lemma ScaledFieldFits(sz: bv32, off: bv64)
    ensures ScaledField(sz, off) <= 0xfff
  {
  }

  lemma UnscaledFieldFits(off: bv64)
    ensures UnscaledField(off) <= 0x1ff
  {
  }

  lemma UnscaledReads(off: bv64)
    requires InUnscaledRange(off)
    ensures SignExtend9(UnscaledField(off) as bv64) == off
  {
  }

  // ----- one access -----

  /** pre and then w: the load or store of the given kind and size, of register
      dst at bas plus off; before it only x30 may have changed. */
  ghost predicate Reaches(pre: seq<bv32>, w: bv32, kind: Kind, sz: bv32, dst: bv32, bas: bv32, off: bv64) {
    && Defined(pre) && DecodeAccess(w).Some?
    && var a := DecodeAccess(w).value;
       && Moves(a.what, kind, sz) && a.rt == dst && a.rn == bas && (a.offset.Fixed? <==> pre == [])
       && forall s: Regs ::
            && AddressOf(a, A64.Run(pre, s)) == Plus(s(bas), off)
            && forall q: bv32 :: q != 30 ==> A64.Run(pre, s)(q) == s(q)
  }

  lemma ReachesDirectly(w: bv32, what: Transfer, kind: Kind, sz: bv32, dst: bv32, bas: bv32, off: bv64)
    requires DecodeAccess(w) == Some(Access(what, dst, bas, Fixed(off))) && Moves(what, kind, sz)
    ensures Reaches([], w, kind, sz, dst, bas, off)
  {
    hide DecodeAccess, Plus, Moves;
  }

  lemma ReachesByRegister(pre: seq<bv32>, w: bv32, what: Transfer, kind: Kind, sz: bv32, dst: bv32, bas: bv32,
                          off: bv64)
    requires Leaves(pre, 30, off) && pre != [] && bas != 30 && Moves(what, kind, sz)
    requires DecodeAccess(w) == Some(Access(what, dst, bas, Register(30)))
    ensures Reaches(pre, w, kind, sz, dst, bas, off)
  {
    hide DecodeAccess, Plus, Decode, Moves;
  }

  lemma SizeBound(kind: Kind, sz: bv32)
    requires Sizes(kind, sz)
    ensures sz <= 4
  {
  }

  lemma ScaledWordIs(w: bv32, op: bv32, dst: bv32, bas: bv32, f: bv32)
    requires w == ScaledWord(op, dst, bas, f) && IsOperation(op) && dst < 32 && bas < 32 && f <= 0xfff
    ensures IsScaledWord(w, op, dst, bas, f)
  {
    hide ScaledWord, IsOperation;
  }

  lemma UnscaledWordIs(w: bv32, op: bv32, dst: bv32, bas: bv32, f: bv32)
    requires w == UnscaledWord(op, dst, bas, f) && IsOperation(op) && dst < 32 && bas < 32 && f <= 0x1ff
    ensures IsUnscaledWord(w, op, dst, bas, f)
  {
    hide UnscaledWord, IsOperation;
  }

  lemma RegisterWordIs(w: bv32, op: bv32, dst: bv32, bas: bv32)
    requires w == RegisterWord(op, dst, bas) && IsOperation(op) && dst < 32 && bas < 32
    ensures IsRegisterWord(w, op, dst, bas)
  {
    hide RegisterWord, IsOperation;
  }

  lemma MovesBytes(what: Transfer, kind: Kind, sz: bv32)
    requires Moves(what, kind, sz)
    ensures what.bytes == BytesOf(sz)
  {
  }

  lemma ScaledReaches(kind: Kind, sz: bv32, op: bv32, dst: bv32, bas: bv32, off: bv64, f: bv32, w: bv32)
    requires Sizes(kind, sz) && op == Operation(kind, sz) && dst < 32 && bas < 32 && InScaledRange(sz, off)
    requires f == ScaledField(sz, off) && w == ScaledWord(op, dst, bas, f)
    ensures Reaches([], w, kind, sz, dst, bas, off)
  {
    hide *;
    OperationIs(kind, sz);
    OperationMoves(kind, sz);
    SizeBound(kind, sz);
    ScaledFieldFits(sz, off);
    ScaledWordIs(w, op, dst, bas, f);
    ScaledDecodes(w, op, dst, bas, f);
    ScaledReads(sz, off);
    MovesBytes(TransferOf(op).value, kind, sz);
    ReachesDirectly(w, TransferOf(op).value, kind, sz, dst, bas, off);
  }

  lemma UnscaledReaches(kind: Kind, sz: bv32, op: bv32, dst: bv32, bas: bv32, off: bv64, f: bv32, w: bv32)
    requires Sizes(kind, sz) && op == Operation(kind, sz) && dst < 32 && bas < 32 && InUnscaledRange(off)
    requires f == UnscaledField(off) && w == UnscaledWord(op, dst, bas, f)
    ensures Reaches([], w, kind, sz, dst, bas, off)
  {
    hide *;
    OperationIs(kind, sz);
    OperationMoves(kind, sz);
    UnscaledFieldFits(off);
    UnscaledWordIs(w, op, dst, bas, f);
    UnscaledDecodes(w, op, dst, bas, f);
    UnscaledReads(off);
    ReachesDirectly(w, TransferOf(op).value, kind, sz, dst, bas, off);
  }

  /** `arm64_ldrx`, `arm64_ldrv`, `arm64_strx` and `arm64_strv`: an immediate
      form if there is one; otherwise the offset goes through x30, which must
      then not be the base. */
  method EmitAccess(t: Section, kind: Kind, sz: bv32, dst: bv32, bas: bv32, off: bv64)
    returns (ghost pre: seq<bv32>, w: bv32)
    requires t.Valid() && Sizes(kind, sz) && dst < 32 && bas < 32
    requires Immediate(ScaledMask(sz), off) || bas != 30
    modifies t
    ensures t.Valid() && t.Emitted(old(t.data), old(t.ind), pre + [w])
    ensures Reaches(pre, w, kind, sz, dst, bas, off)
    ensures Immediate(ScaledMask(sz), off) <==> pre == []
  {
    hide Sizes, Operation, IsOperation, TransferOf, Moves, Scaled, ScaledField, ScaledWord, UnscaledField, UnscaledWord;
    hide RegisterWord;
    hide IsScaledWord, IsUnscaledWord, IsRegisterWord, DecodeAccess, SignExtend9, Immediate, ScaledMask, Leaves;
    hide Reaches;
    hide InScaledRange, InUnscaledRange, Movi, InOneWord, PutAll, Put;
    ghost var before, start := t.data, t.ind;
    var op := Operation(kind, sz);
    OperationIs(kind, sz);
    OperationMoves(kind, sz);
    SizeBound(kind, sz);
    Immediately(sz, off);
    if InScaledRange(sz, off) {
      var f := ScaledField(sz, off);
      w := ScaledWord(op, dst, bas, f);
      ScaledReaches(kind, sz, op, dst, bas, off, f, w);
      PutAllOne(before, start, w);
      t.O(w);
      pre := [];
      assert pre + [w] == [w];
    } else if InUnscaledRange(off) {
      var f := UnscaledField(off);
      w := UnscaledWord(op, dst, bas, f);
      UnscaledReaches(kind, sz, op, dst, bas, off, f, w);
      PutAllOne(before, start, w);
      t.O(w);
      pre := [];
      assert pre + [w] == [w];
    } else {
      pre := Movimm(t, 30, off);
      w := RegisterWord(op, dst, bas);
      RegisterWordIs(w, op, dst, bas);
      RegisterDecodes(w, op, dst, bas);
      ReachesByRegister(pre, w, TransferOf(op).value, kind, sz, dst, bas, off);
      PutAllNext(before, start, pre, w);
      t.O(w);
    }
  }

  // ----- access to a symbol plus an offset -----

  /** adds and then w: from any machine with the symbol's address in x30, a load
      or store of register dst at that address plus off, by an immediate form.
      Only x30 has changed, and the doubleword below the stack. */
  ghost predicate ReachesSymbol(adds: seq<bv32>, w: bv32, kind: Kind, sz: bv32, dst: bv32, off: bv64) {
    && DefinedM(adds) && DecodeAccess(w).Some?
    && var a := DecodeAccess(w).value;
       && Moves(a.what, kind, sz) && a.rt == dst && a.rn == 30 && a.offset.Fixed?
       && forall m: Machine {:trigger RunM(adds, m)} ::
            && AddressOf(a, RunM(adds, m).regs) == Plus(m.regs(30), off)
            && (forall q: bv32 :: q != 30 ==> RunM(adds, m).regs(q) == m.regs(q))
            && (forall p: bv64 :: p != Minus(m.regs(31), 16) ==> RunM(adds, m).mem(p) == m.mem(p))
  }

  lemma MaskOfSize(sz: bv32)
    ensures IsScaledMask(ScaledMask(sz))
  {
  }

  lemma BothParts(mask: bv64, off: bv64, n: bv64)
    ensures Plus(Plus(n, HighPart(mask, off)), LowPart(mask, off)) == Plus(n, off)
  {
    hide And, AndNot, CheckOffset, Plus;
    PartsRejoin(off, CheckOffset(mask, off));
    PlusTwice(n, HighPart(mask, off), LowPart(mask, off));
  }

  /** An access without a preceding word is through its own base and immediate. */
  lemma ImmediateForm(w: bv32, kind: Kind, sz: bv32, dst: bv32, off: bv64)
    requires Reaches([], w, kind, sz, dst, 30, off)
    ensures forall s: Regs :: AddressOf(DecodeAccess(w).value, s) == Plus(s(30), off)
  {
    hide DecodeAccess, Moves, Plus, AddressOf;
    forall s: Regs ensures AddressOf(DecodeAccess(w).value, s) == Plus(s(30), off) {
      assert A64.Run([], s) == s;
    }
  }

  lemma SymbolReached(adds: seq<bv32>, w: bv32, kind: Kind, sz: bv32, dst: bv32, mask: bv64, off: bv64)
    requires Adds(adds, 30, HighPart(mask, off)) && Reaches([], w, kind, sz, dst, 30, LowPart(mask, off))
    ensures ReachesSymbol(adds, w, kind, sz, dst, off)
  {
    hide DecodeAccess, Moves, Plus, AddressOf, Minus, HighPart, LowPart, RunM;
    ImmediateForm(w, kind, sz, dst, LowPart(mask, off));
    forall m: Machine
      ensures AddressOf(DecodeAccess(w).value, RunM(adds, m).regs) == Plus(m.regs(30), off)
    {
      BothParts(mask, off, m.regs(30));
      assert Added(m, RunM(adds, m), 30, HighPart(mask, off));
    }
  }

  /** The symbol case of `load` and `store`: the high part of the offset is added
      to the symbol's address in x30 and the low part goes into the access. */
  method AccessSymbol(t: Section, kind: Kind, sz: bv32, dst: bv32, off: bv64)
    returns (ghost adds: seq<bv32>, ghost w: bv32)
    requires t.Valid() && Sizes(kind, sz) && dst < 32
    modifies t
    ensures t.Valid() && t.Emitted(old(t.data), old(t.ind), adds + [w])
    ensures ReachesSymbol(adds, w, kind, sz, dst, off)
    ensures Immediate(ScaledMask(sz), off) ==> adds == []
  {
    hide Sizes, Operation, DecodeAccess, Immediate, ScaledMask, Adds, ReachesSymbol, Reaches, CheckOffset, And, AndNot;
    var mask := ScaledMask(sz);
    MaskOfSize(sz);
    LowIsImmediate(mask, off);
    SplitExactly(mask, off);
    ghost var before, start := t.data, t.ind;
    adds := AddAddend(t, 30, HighPart(mask, off));
    ghost var pre, word := EmitAccess(t, kind, sz, dst, 30, LowPart(mask, off));
    w := word;
    assert pre + [w] == [w];
    PutAllMore(before, start, adds, [w]);
    SymbolReached(adds, w, kind, sz, dst, mask, off);
  }

  // ----- what a store leaves for a load -----

  /** What a load of 2^sz bytes makes of a stored register. */
  function Reloaded(sz: bv32, signed: bool, x: bv64): bv64 {
    if sz == 0 then
      if signed && x & 0x80 != 0 then (x & 0xff) | 0xffff_ff00 else x & 0xff
    else if sz == 1 then
      if signed && x & 0x8000 != 0 then (x & 0xffff) | 0xffff_0000 else x & 0xffff
    else if sz == 2 then x & 0xffff_ffff
    else x
  }

  lemma LowOf(x: bv64)
    ensures Number(LowBytes(x, 1)) == x & 0xff && Number(LowBytes(x, 2)) == x & 0xffff
    ensures Number(LowBytes(x, 4)) == x & 0xffff_ffff && Number(LowBytes(x, 8)) == x
  {
    hide *;
    LowMasks();
    NumberOfLow(x, 1);
    NumberOfLow(x, 2);
    NumberOfLow(x, 4);
    NumberOfLow(x, 8);
    Masks(x);
  }

  lemma Masks(x: bv64)
    ensures Masked(x, 0xff) == x & 0xff && Masked(x, 0xffff) == x & 0xffff
    ensures Masked(x, 0xffff_ffff) == x & 0xffff_ffff && Masked(x, 0xffff_ffff_ffff_ffff) == x
  {
  }

  lemma SignBits(x: bv64)
    ensures (x & 0xff) & 0x80 == x & 0x80 && (x & 0xffff) & 0x8000 == x & 0x8000
  {
  }

  lemma ReloadedIs(what: Transfer, signed: bool, sz: bv32, x: bv64)
    requires sz <= 3 && Moves(what, LoadX(signed), sz)
    ensures Extended(what.extension, what.bytes, Number(LowBytes(x, what.bytes))) == Reloaded(sz, signed, x)
  {
    LowOf(x);
    SignBits(x);
    ThreeSizes(sz);
    hide Number, LowBytes;
  }

  lemma ThreeSizes(sz: bv32)
    requires sz <= 3
    ensures sz == 0 || sz == 1 || sz == 2 || sz == 3
    ensures sz <= 1 <==> sz == 0 || sz == 1
  {
  }

  /** A store changes 2^sz bytes from its address on, and nothing else. */
  lemma StoreSpares(a: Access, kind: Kind, sz: bv32, m: State, p: nat)
    requires Moves(a.what, kind, sz) && (kind.StoreX? || kind.StoreV?) && |m.vectors(a.rt)| == 16
    requires var at := AddressOf(a, m.regs) as nat; forall k: nat :: k < a.what.bytes ==> Cell(at, k) != p
    ensures Perform(a, m) == m.(mem := Perform(a, m).mem) && Perform(a, m).mem(p) == m.mem(p)
  {
    hide AddressOf, Cell, LowBytes;
    StoredElsewhere(m.mem, AddressOf(a, m.regs) as nat, Outgoing(a, m), p);
  }

  /** A register that is stored and loaded again with the same size at the same
      address comes back: its lowest bytes, extended as the load says. */
  lemma StoredLoaded(store: Access, load: Access, sz: bv32, signed: bool, m: State)
    requires sz <= 3 && Moves(store.what, StoreX, sz) && Moves(load.what, LoadX(signed), sz)
    requires AddressOf(load, m.regs) == AddressOf(store, m.regs)
    ensures var m' := Perform(load, Perform(store, m));
      && m'.regs == Write(m.regs, load.rt, Reloaded(sz, signed, Read(m.regs, store.rt)))
      && m'.vectors == m.vectors && m'.mem == Perform(store, m).mem
  {
    hide AddressOf, Read, Write, Extended, Number, LowBytes, Reloaded, Fetch, Stored;
    FetchStored(m.mem, AddressOf(store, m.regs) as nat, Outgoing(store, m));
    ReloadedIs(load.what, signed, sz, Read(m.regs, store.rt));
  }

  /** The same for vector registers: the other bytes are zero. */
  lemma VectorStoredLoaded(store: Access, load: Access, sz: bv32, m: State)
    requires sz <= 4 && Moves(store.what, StoreV, sz) && Moves(load.what, LoadV, sz) && |m.vectors(store.rt)| == 16
    requires AddressOf(load, m.regs) == AddressOf(store, m.regs)
    ensures var m', n := Perform(load, Perform(store, m)), store.what.bytes;
      && n in {1, 2, 4, 8, 16} && m'.regs == m.regs
      && m'.vectors == SetVector(m.vectors, load.rt, m.vectors(store.rt)[..n] + ZeroBytes(16 - n))
  {
    hide AddressOf, Fetch, Stored;
    FetchStored(m.mem, AddressOf(store, m.regs) as nat, Outgoing(store, m));
  }

  // ----- words as they are known -----

  /** Some words and what they are: `ldr x0, [x1]`, `str x0, [x1]`,
      `ldrsb w0, [x1]`, `ldur q0, [x1, #-16]`, `str d2, [sp, x30]` and
      `strb w3, [x4, #4095]`. */
  lemma KnownWords()
    ensures DecodeAccess(0xf940_0020) == Some(Access(Transfer(true, false, 8, Zeros), 0, 1, Fixed(0)))
    ensures DecodeAccess(0xf900_0020) == Some(Access(Transfer(false, false, 8, Zeros), 0, 1, Fixed(0)))
    ensures DecodeAccess(0x39c0_0020) == Some(Access(Transfer(true, false, 1, Sign32), 0, 1, Fixed(0)))
    ensures DecodeAccess(0x3cdf_0020)
         == Some(Access(Transfer(true, true, 16, Zeros), 0, 1, Fixed(0xffff_ffff_ffff_fff0)))
    ensures DecodeAccess(0xfc3e_6be2) == Some(Access(Transfer(false, true, 8, Zeros), 2, 31, Register(30)))
    ensures DecodeAccess(0x393f_fc83) == Some(Access(Transfer(false, false, 1, Zeros), 3, 4, Fixed(4095)))
  {
  }

  /** The immediate forms: a multiple of the access size with a quotient below
      4096, or a signed number of nine bits. */
  lemma ImmediateExactly(sz: bv32, off: bv64)
    requires sz <= 4
    ensures Immediate(ScaledMask(sz), off) <==>
      || (sz == 0 && off < 0x1000) || (sz == 1 && off & 1 == 0 && off < 0x2000)
      || (sz == 2 && off & 3 == 0 && off < 0x4000) || (sz == 3 && off & 7 == 0 && off < 0x8000)
      || (sz == 4 && off & 15 == 0 && off < 0x1_0000) || off < 256 || off >= 0xffff_ffff_ffff_ff00
  {
    FiveSizes(sz);
  }
}
