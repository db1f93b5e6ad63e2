/** A symbol plus an offset in the A64 generator: `arm64_check_offset` and the
    addend part of `arm64_sym`. */
module SymbolAccess {
  import opened A64
  import opened MoveImm
  import opened StackSetup
  import opened Text

  // ----- splitting an offset -----

  /** `0xffful << sz`, for the size classes 1 to 16 bytes. */
  function ScaledMask(sz: bv32): bv64 {
    if sz == 0 then 0xfff
    else if sz == 1 then 0x1ffe
    else if sz == 2 then 0x3ffc
    else if sz == 3 then 0x7ff8
    else 0xfff0
  }

  /** The offset has an immediate form: scaled, or nine signed bits. */
  predicate Immediate(mask: bv64, off: bv64) {
    off & !mask == 0 || off < 256 || 0 - off <= 256
  }

  /** `arm64_check_offset`, for the scaled mask of the size class. */
  function CheckOffset(mask: bv64, off: bv64): bv64 {
    if Immediate(mask, off) then 0xffff_ffff_ffff_ffff
    else if off & mask != 0 then mask
    else if off & 0x1ff != 0 then 0x1ff
    else 0
  }

  function And(a: bv64, m: bv64): bv64 {
    a & m
  }

  function AndNot(a: bv64, m: bv64): bv64 {
    a & !m
  }

  /** `svcoff & mask`, which goes into the instruction. */
  function LowPart(mask: bv64, off: bv64): bv64 {
    And(off, CheckOffset(mask, off))
  }

  /** `svcoff & ~mask`, which is added to the symbol. */
  function HighPart(mask: bv64, off: bv64): bv64 {
    AndNot(off, CheckOffset(mask, off))
  }

  predicate IsScaledMask(mask: bv64) {
    mask == 0xfff || mask == 0x1ffe || mask == 0x3ffc || mask == 0x7ff8 || mask == 0xfff0
  }

  lemma WholeOffset(off: bv64)
    ensures And(off, 0xffff_ffff_ffff_ffff) == off && And(off, 0) == 0
  {
  }

  lemma ScaledPart(off: bv64, mask: bv64)
    ensures Immediate(mask, And(off, mask))
  {
  }

  lemma SmallPart(off: bv64, mask: bv64)
    requires IsScaledMask(mask) && off & mask == 0
    ensures Immediate(mask, And(off, 0x1ff))
  {
  }

  lemma ZeroImmediate(mask: bv64)
    ensures Immediate(mask, 0)
  {
  }

  lemma CheckedOffset(mask: bv64, off: bv64)
    ensures Immediate(mask, off) ==> CheckOffset(mask, off) == 0xffff_ffff_ffff_ffff
    ensures !Immediate(mask, off) ==>
      (off & mask != 0 && CheckOffset(mask, off) == mask) || (off & mask == 0 && CheckOffset(mask, off) in {0x1ff, 0})
  {
    hide Immediate;
  }

  /** The low part always has an immediate form. */
  lemma LowIsImmediate(mask: bv64, off: bv64)
    requires IsScaledMask(mask)
    ensures Immediate(mask, LowPart(mask, off))
  {
    CheckedOffset(mask, off);
    hide Immediate, And, CheckOffset, IsScaledMask;
    WholeOffset(off);
    ScaledPart(off, mask);
    ZeroImmediate(mask);
    if !Immediate(mask, off) && off & mask == 0 {
      SmallPart(off, mask);
    }
  }

  lemma Rejoined(off: bv64, m: bv64)
    ensures (off & !m) + (off & m) == off
  {
  }

  lemma PartsAre(off: bv64, m: bv64)
    ensures AndNot(off, m) == off & !m && And(off, m) == off & m
  {
  }

  /** The two parts add up to the offset. */
  lemma PartsRejoin(off: bv64, m: bv64)
    ensures Plus(AndNot(off, m), And(off, m)) == off
  {
    hide *;
    Rejoined(off, m);
    PartsAre(off, m);
    MinusIs(off & !m, off & m);
  }

  lemma NothingAnd(off: bv64)
    ensures And(off, 0xffff_ffff_ffff_ffff) == off && AndNot(off, 0xffff_ffff_ffff_ffff) == 0
    ensures And(off, 0) == 0 && AndNot(off, 0) == off
  {
  }

  lemma NoLowBits(off: bv64)
    requires off & 0x1ff == 0
    ensures And(off, 0x1ff) == 0 && AndNot(off, 0x1ff) == off
  {
  }

  /** An offset with an immediate form is not split; otherwise the bits of the
      scaled field are split off if there are any, and else the lowest nine. */
  lemma SplitExactly(mask: bv64, off: bv64)
    ensures Immediate(mask, off) ==> LowPart(mask, off) == off && HighPart(mask, off) == 0
    ensures !Immediate(mask, off) && off & mask != 0 ==>
      LowPart(mask, off) == And(off, mask) && HighPart(mask, off) == AndNot(off, mask)
    ensures !Immediate(mask, off) && off & mask == 0 ==>
      LowPart(mask, off) == And(off, 0x1ff) && HighPart(mask, off) == AndNot(off, 0x1ff)
  {
    hide Immediate, And, AndNot;
    NothingAnd(off);
    if off & 0x1ff == 0 {
      NoLowBits(off);
    }
  }

  // ----- memory -----

  /** The registers and the doublewords of memory. */
  datatype Machine = Machine(regs: Regs, mem: bv64 -> bv64)

  function Store(mem: bv64 -> bv64, a: bv64, v: bv64): bv64 -> bv64 {
    (p: bv64) => if p == a then v else mem(p)
  }

  /** `str xt, [sp, #-16]!` and `ldr xt, [sp], #16` */
  function Push(t: bv32): bv32 {
    0xf81f_0fe0 | t
  }

  function Pop(t: bv32): bv32 {
    0xf841_07e0 | t
  }

  predicate IsPush(w: bv32) {
    w & 0xffff_ffe0 == 0xf81f_0fe0
  }

  predicate IsPop(w: bv32) {
    w & 0xffff_ffe0 == 0xf841_07e0
  }

  function StepM(w: bv32, m: Machine): Machine {
    var s, sp := m.regs, m.regs(31);
    if IsPush(w) then Machine(Set(s, 31, Minus(sp, 16)), Store(m.mem, Minus(sp, 16), Read(s, w & 31)))
    else if IsPop(w) then Machine(Set(Write(s, w & 31, m.mem(sp)), 31, Plus(sp, 16)), m.mem)
    else Machine(Step(Decode(w), s), m.mem)
  }

  /** Every word is a push, a pop or one of the register instructions. */
  ghost predicate DefinedM(ws: seq<bv32>) {
    forall i :: 0 <= i < |ws| ==> IsPush(ws[i]) || IsPop(ws[i]) || Decode(ws[i]) != Undefined
  }

  function RunM(ws: seq<bv32>, m: Machine): Machine {
    if ws == [] then m else StepM(ws[|ws| - 1], RunM(ws[..|ws| - 1], m))
  }

  lemma RunMNext(ws: seq<bv32>, w: bv32, m: Machine)
    ensures RunM(ws + [w], m) == StepM(w, RunM(ws, m))
  {
    hide StepM;
    assert (ws + [w])[..|ws|] == ws;
  }

  lemma PushIs(t: bv32)
    requires t < 31
    ensures IsPush(Push(t)) && Push(t) & 31 == t
  {
  }

  lemma PopIs(t: bv32)
    requires t < 31
    ensures !IsPush(Pop(t)) && IsPop(Pop(t)) && Pop(t) & 31 == t
  {
  }

  /** Pushes and pops are none of the register instructions. */
  lemma MemoryUndefined(w: bv32)
    requires IsPush(w) || IsPop(w)
    ensures Decode(w) == Undefined
  {
    hide MoveWide, AddSubImmediate, LogicalImmediate, BitfieldMove, LogicalRegister, AddSubRegister, AddSubExtended;
    hide TwoSource;
  }

  /** Register instructions do not touch memory. */
  lemma {:induction false} RegistersOnly(ws: seq<bv32>, m: Machine)
    requires Defined(ws)
    ensures RunM(ws, m) == Machine(A64.Run(ws, m.regs), m.mem)
  {
    hide Decode, Step, IsPush, IsPop;
    if ws != [] {
      var front, w := ws[..|ws| - 1], ws[|ws| - 1];
      assert Defined(front);
      RegistersOnly(front, m);
      if IsPush(w) || IsPop(w) {
        MemoryUndefined(w);
      }
    }
  }

  // ----- adding a constant to a register -----

  /** m' is m with a added to register r and no other register changed; the
      doubleword below the stack may have been overwritten. */
  ghost predicate Added(m: Machine, m': Machine, r: bv32, a: bv64) {
    && (forall q: bv32 :: m'.regs(q) == if q == r then Plus(m.regs(r), a) else m.regs(q))
    && (forall p: bv64 :: p != Minus(m.regs(31), 16) ==> m'.mem(p) == m.mem(p))
  }

  /** Executing ws does that. */
  ghost predicate Adds(ws: seq<bv32>, r: bv32, a: bv64) {
    DefinedM(ws) && forall m: Machine :: Added(m, RunM(ws, m), r, a)
  }

  /** `add xr, xr, #imm` and `add xr, xr, #imm, lsl #12` */
  function AddImm(r: bv32, shifted: bool, imm: bv32): bv32 {
    (if shifted then 0x9140_0000 else 0x9100_0000) | (r << 5) | r | (imm << 10)
  }

  /** `add xr, xr, xt` */
  function AddRegister(r: bv32, t: bv32): bv32 {
    0x8b00_0000 | (t << 16) | (r << 5) | r
  }

  function Field(a: bv64): bv32 {
    (a & 0xfff) as bv32
  }

  lemma AddImmDecodes(r: bv32, imm: bv32)
    requires r < 31 && imm <= 0xfff
    ensures Decode(AddImm(r, false, imm)) == AddSubImm(true, false, r, r, imm as bv64)
    ensures Decode(AddImm(r, true, imm)) == AddSubImm(true, false, r, r, (imm as bv64) << 12)
  {
    hide MoveWide, LogicalImmediate, BitfieldMove, LogicalRegister, AddSubRegister, AddSubExtended, TwoSource;
  }

  lemma AddRegisterDecodes(r: bv32, t: bv32)
    requires r < 31 && t < 2
    ensures Decode(AddRegister(r, t)) == AddSubReg(true, false, r, r, t)
  {
    hide MoveWide, LogicalImmediate, BitfieldMove, LogicalRegister, AddSubImmediate, AddSubExtended, TwoSource;
  }

  lemma FieldIs(a: bv64)
    ensures Field(a) <= 0xfff && Field(a) as bv64 == And(a, 0xfff)
  {
  }

  lemma PlusReassociates(n: bv64, x: bv64, y: bv64)
    ensures Plus(n + x, y) == Plus(n, x + y)
  {
  }

  lemma PlusTwice(n: bv64, x: bv64, y: bv64)
    ensures Plus(Plus(n, x), y) == Plus(n, Plus(x, y))
  {
    hide *;
    MinusIs(n, x);
    MinusIs(x, y);
    PlusReassociates(n, x, y);
  }

  lemma PlusZero(n: bv64)
    ensures Plus(n, 0) == n
  {
  }

  lemma StackRestored(n: bv64)
    ensures Plus(n - 16, 16) == n
  {
  }

  lemma PushPop(n: bv64)
    ensures Plus(Minus(n, 16), 16) == n
  {
    hide *;
    MinusIs(n, 16);
    StackRestored(n);
  }

  lemma AddSubIsPlus(a: bv64, b: bv64)
    ensures Sized(true, AddOrSub(false, a, b)) == Plus(a, b)
  {
  }

  lemma AddsNothing(r: bv32)
    ensures Adds([], r, 0)
  {
    hide Plus, Minus;
    forall m: Machine ensures Added(m, RunM([], m), r, 0) {
      PlusZero(m.regs(r));
    }
  }

  lemma AddedTwice(m: Machine, mid: Machine, m': Machine, r: bv32, a: bv64, b: bv64)
    requires Added(m, mid, r, a) && Added(mid, m', r, b) && r < 31
    ensures Added(m, m', r, Plus(a, b))
  {
    hide Plus, Minus;
    PlusTwice(m.regs(r), a, b);
  }

  lemma AddedByImmediate(m: Machine, r: bv32, w: bv32, b: bv64)
    requires r < 31 && Decode(w) == AddSubImm(true, false, r, r, b)
    ensures Added(m, StepM(w, m), r, b)
  {
    hide Decode, IsPush, IsPop, Plus, Minus, Sized, AddOrSub;
    if IsPush(w) || IsPop(w) {
      MemoryUndefined(w);
    }
    AddSubIsPlus(m.regs(r), b);
  }

  lemma AddsImmediate(ws: seq<bv32>, r: bv32, a: bv64, w: bv32, b: bv64)
    requires Adds(ws, r, a) && r < 31 && Decode(w) == AddSubImm(true, false, r, r, b)
    ensures Adds(ws + [w], r, Plus(a, b))
  {
    hide Decode, StepM, Plus, Added, IsPush, IsPop;
    forall m: Machine ensures Added(m, RunM(ws + [w], m), r, Plus(a, b)) {
      RunMNext(ws, w, m);
      AddedByImmediate(RunM(ws, m), r, w, b);
      AddedTwice(m, RunM(ws, m), RunM(ws + [w], m), r, a, b);
    }
  }

  lemma {:induction false} RunMAppend(a: seq<bv32>, b: seq<bv32>, m: Machine)
    ensures RunM(a + b, m) == RunM(b, RunM(a, m))
  {
    hide StepM;
    if b == [] {
      assert a + b == a;
    } else {
      var front, w := b[..|b| - 1], b[|b| - 1];
      assert a + b == (a + front) + [w] && b == front + [w];
      RunMNext(a + front, w, m);
      RunMAppend(a, front, m);
      RunMNext(front, w, RunM(a, m));
    }
  }

  /** The scratch register is saved, loaded with b, added and restored. */
  function Detour(r: bv32, t: bv32, movs: seq<bv32>): seq<bv32> {
    (([Push(t)] + movs) + [AddRegister(r, t)]) + [Pop(t)]
  }

  lemma SingleM(w: bv32, m: Machine)
    ensures RunM([w], m) == StepM(w, m)
  {
    hide StepM;
    assert [] + [w] == [w];
    RunMNext([], w, m);
  }

  /** The machine before the register is restored. */
  lemma DetourRuns(r: bv32, t: bv32, movs: seq<bv32>, b: bv64, m: Machine)
    requires r < 31 && t < 2 && t != r && Leaves(movs, t, b)
    ensures var m' := RunM(([Push(t)] + movs) + [AddRegister(r, t)], m);
      && (forall q: bv32 :: q != t && q != r && q != 31 ==> m'.regs(q) == m.regs(q))
      && m'.regs(r) == Plus(m.regs(r), b) && m'.regs(31) == Minus(m.regs(31), 16)
      && m'.mem(Minus(m.regs(31), 16)) == m.regs(t)
      && (forall p: bv64 :: p != Minus(m.regs(31), 16) ==> m'.mem(p) == m.mem(p))
  {
    hide Decode, IsPush, IsPop, Plus, Minus, Sized, AddOrSub, Push, AddRegister;
    PushIs(t);
    AddRegisterDecodes(r, t);
    var w := AddRegister(r, t);
    if IsPush(w) || IsPop(w) {
      MemoryUndefined(w);
    }
    var pushed := RunM([Push(t)], m);
    SingleM(Push(t), m);
    RunMAppend([Push(t)], movs, m);
    RegistersOnly(movs, pushed);
    RunMNext([Push(t)] + movs, w, m);
    AddSubIsPlus(m.regs(r), b);
  }

  lemma DetourAdded(m: Machine, r: bv32, t: bv32, movs: seq<bv32>, b: bv64)
    requires r < 31 && t < 2 && t != r && Leaves(movs, t, b)
    ensures Added(m, RunM(Detour(r, t, movs), m), r, b)
  {
    hide Decode, IsPush, IsPop, Plus, Minus, Push, Pop, AddRegister, Leaves;
    PopIs(t);
    RunMNext(([Push(t)] + movs) + [AddRegister(r, t)], Pop(t), m);
    DetourRuns(r, t, movs, b, m);
    PushPop(m.regs(31));
  }

  lemma DetourDefined(r: bv32, t: bv32, movs: seq<bv32>, b: bv64)
    requires r < 31 && t < 2 && Leaves(movs, t, b)
    ensures DefinedM(Detour(r, t, movs))
  {
    hide Decode, IsPush, IsPop, Push, Pop, AddRegister;
    PushIs(t);
    PopIs(t);
    AddRegisterDecodes(r, t);
  }

  lemma DetourAdds(ws: seq<bv32>, r: bv32, a: bv64, t: bv32, movs: seq<bv32>, b: bv64)
    requires Adds(ws, r, a) && r < 31 && t < 2 && t != r && Leaves(movs, t, b)
    ensures Adds(ws + Detour(r, t, movs), r, Plus(a, b))
  {
    hide Leaves, Detour, Plus, Added, IsPush, IsPop, Decode;
    DetourDefined(r, t, movs, b);
    forall m: Machine ensures Added(m, RunM(ws + Detour(r, t, movs), m), r, Plus(a, b)) {
      RunMAppend(ws, Detour(r, t, movs), m);
      DetourAdded(RunM(ws, m), r, t, movs, b);
      AddedTwice(m, RunM(ws, m), RunM(ws + Detour(r, t, movs), m), r, a, b);
    }
  }

  // ----- the addend of a symbol -----

  lemma LowWord(r: bv32, a: bv64)
    requires r < 31
    ensures Decode(AddImm(r, false, Field(a))) == AddSubImm(true, false, r, r, And(a, 0xfff))
  {
    FieldIs(a);
    AddImmDecodes(r, Field(a));
    hide Decode, AddImm, And, Field;
  }

  lemma MidField(a: bv64, f: bv32)
    requires f == ((a >> 12) & 0xfff) as bv32
    ensures f <= 0xfff && (f as bv64) << 12 == a & 0xfff000
  {
  }

  function Upper(a: bv64): bv64 {
    a >> 12
  }

  lemma MidWord(r: bv32, a: bv64)
    requires r < 31
    ensures Decode(AddImm(r, true, Field(Upper(a)))) == AddSubImm(true, false, r, r, And(a, 0xfff000))
  {
    hide *;
    var f := Field(Upper(a));
    MidFieldIs(a);
    MidField(a, f);
    PartsAre(a, 0xfff000);
    AddImmDecodes(r, f);
  }

  lemma MidFieldIs(a: bv64)
    ensures Field(Upper(a)) == ((a >> 12) & 0xfff) as bv32
  {
  }

  lemma LowPieces(a: bv64)
    ensures Plus(And(a, 0xfff), And(a, 0xfff000)) == And(a, 0xff_ffff)
  {
  }

  lemma NoMiddle(a: bv64)
    requires And(a, 0xfff000) == 0
    ensures And(a, 0xfff) == And(a, 0xff_ffff)
  {
  }

  lemma OneField(a: bv64)
    requires a <= 0xfff
    ensures And(a, 0xfff) == a
  {
  }

  lemma TwoFields(a: bv64)
    requires a <= 0xff_ffff
    ensures And(a, 0xff_ffff) == a
  {
  }

  lemma AllPieces(a: bv64)
    ensures Plus(And(a, 0xff_ffff), AndNot(a, 0xff_ffff)) == a
  {
  }

  lemma NoPieces(addend: bv64)
    ensures addend == 0 ==> And(addend, 0xfff) == 0
    ensures addend <= 0xfff ==> And(addend, 0xfff000) == 0
  {
  }

  /** The addend part of `arm64_sym`, in up to three pieces; the last goes
      through a register that is saved on the stack. */
  method AddAddend(t: Section, r: bv32, addend: bv64) returns (ghost ws: seq<bv32>)
    requires t.Valid() && r < 31
    modifies t
    ensures t.Valid() && t.Emitted(old(t.data), old(t.ind), ws) && Adds(ws, r, addend)
    ensures addend == 0 ==> ws == []
    ensures addend <= 0xff_ffff ==>
      |ws| == (if And(addend, 0xfff) != 0 then 1 else 0) + if And(addend, 0xfff000) != 0 then 1 else 0
  {
    NoPieces(addend);
    hide Decode, Adds, Leaves, And, AndNot, Upper, Field, AddImm, AddRegister, Push, Pop, Plus;
    ghost var before, start := t.data, t.ind;
    ws := [];
    Starts(t);
    AddsNothing(r);
    if addend == 0 {
      return;
    }
    LowPieces(addend);
    ghost var sum := And(addend, 0xfff);
    if And(addend, 0xfff) != 0 {
      LowWord(r, addend);
      AddsImmediate(ws, r, 0, AddImm(r, false, Field(addend)), sum);
      ZeroPlus(sum);
      PutAllNext(before, start, ws, AddImm(r, false, Field(addend)));
      t.O(AddImm(r, false, Field(addend)));
      ws := ws + [AddImm(r, false, Field(addend))];
    }
    if addend > 0xfff {
      if And(addend, 0xfff000) != 0 {
        MidWord(r, addend);
        AddsImmediate(ws, r, sum, AddImm(r, true, Field(Upper(addend))), And(addend, 0xfff000));
        PutAllNext(before, start, ws, AddImm(r, true, Field(Upper(addend))));
        t.O(AddImm(r, true, Field(Upper(addend))));
        ws := ws + [AddImm(r, true, Field(Upper(addend)))];
      } else {
        NoMiddle(addend);
      }
      sum := And(addend, 0xff_ffff);
      if addend <= 0xff_ffff {
        TwoFields(addend);
      } else {
        ghost var more := AddRest(t, r, AndNot(addend, 0xff_ffff), before, start, ws, sum);
        AllPieces(addend);
        ws := more;
      }
    } else {
      OneField(addend);
    }
  }

  lemma ZeroPlus(n: bv64)
    ensures Plus(0, n) == n
  {
  }

  /** The very unlikely part: b is added through a scratch register. */
  method AddRest(t: Section, r: bv32, b: bv64, ghost before: seq<bv32>, ghost start: nat, ghost ws: seq<bv32>,
                 ghost a: bv64) returns (ghost all: seq<bv32>)
    requires t.Valid() && r < 31 && t.Emitted(before, start, ws) && Adds(ws, r, a)
    modifies t
    ensures t.Valid() && t.Emitted(before, start, all) && Adds(all, r, Plus(a, b))
  {
    hide Adds, Leaves, AddRegister, Push, Pop, Plus, PutAll, Put, Movi, InOneWord, Count;
    var x: bv32 := if r != 0 then 0 else 1;
    PutAllNext(before, start, ws, Push(x));
    t.O(Push(x));
    ghost var saved := ws + [Push(x)];
    ghost var data, ind := t.data, t.ind;
    ghost var movs := Movimm(t, x, b);
    PutAllMore(before, start, saved, movs);
    PutAllNext(before, start, saved + movs, AddRegister(r, x));
    t.O(AddRegister(r, x));
    PutAllNext(before, start, (saved + movs) + [AddRegister(r, x)], Pop(x));
    t.O(Pop(x));
    all := ((saved + movs) + [AddRegister(r, x)]) + [Pop(x)];
    assert all == ws + Detour(r, x, movs);
    DetourAdds(ws, r, a, x, movs, b);
  }
}
