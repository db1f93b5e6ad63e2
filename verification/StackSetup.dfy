/** `arm64_sub_sp` and the patching of the reserved prologue slots in `gfunc_epilog`. */
module StackSetup {
  import opened A64
  import opened MoveImm
  import opened Text

  const SETUP_SLOTS: nat := 6
  const NOP: bv32 := 0xd503_201f

  /** `ARM64_SUB_IMM | SF(1) | SH(sh) | RN(31) | RD(31) | IMM12(imm)` */
  function SubImmWord(shifted: bool, imm: bv64): bv32 {
    (if shifted then 0xd140_03ff else 0xd100_03ff) | (((imm & 0xfff) as bv32) << 10)
  }

  /** `sub sp, sp, x16` (extended register form, UXTX). */
  const SUB_SP_X16: bv32 := 0xcb30_63ff

  /** Executing ws lowers the stack pointer by diff and changes no other
      register except possibly x16. */
  ghost predicate Lowers(ws: seq<bv32>, diff: bv64) {
    Defined(ws) && forall s: Regs, q: bv32 :: q != 16 ==> Run(ws, s)(q) == if q == 31 then Minus(s(31), diff) else s(q)
  }

  function Minus(a: bv64, b: bv64): bv64 {
    a - b
  }

  function Low12(diff: bv64): bv64 {
    diff & 0xfff
  }

  function Mid12(diff: bv64): bv64 {
    (diff >> 12) & 0xfff
  }

  function Up12(imm: bv64): bv64 {
    imm << 12
  }

  lemma SubImmDecodes(shifted: bool, imm: bv64)
    requires imm <= 0xfff
    ensures Decode(SubImmWord(shifted, imm)) == AddSubImm(true, true, 31, 31, if shifted then Up12(imm) else imm)
  {
  }

  lemma SubSpDecodes()
    ensures Decode(SUB_SP_X16) == AddSubExt(true, true, 31, 31, 16)
    ensures Decode(NOP) == Nop
  {
  }

  lemma Pieces(diff: bv64)
    ensures Low12(diff) <= 0xfff && Mid12(diff) <= 0xfff
    ensures diff & 0xfff == Low12(diff)
  {
  }

  function Plus(a: bv64, b: bv64): bv64 {
    a + b
  }

  lemma Rejoin(diff: bv64)
    requires diff >> 24 == 0
    ensures Plus(Low12(diff), Up12(Mid12(diff))) == diff
  {
  }

  lemma MinusIs(a: bv64, b: bv64)
    ensures Minus(a, b) == a - b && Plus(a, b) == a + b
  {
  }

  lemma MinusReassociates(a: bv64, lo: bv64, up: bv64)
    ensures Minus(a - lo, up) == Minus(a, lo + up)
  {
  }

  lemma MinusTwice(a: bv64, lo: bv64, up: bv64)
    ensures Minus(Minus(a, lo), up) == Minus(a, Plus(lo, up))
  {
    hide *;
    MinusIs(a, lo);
    MinusIs(lo, up);
    MinusReassociates(a, lo, up);
  }

  lemma TwoSubtractions(a: bv64, diff: bv64)
    requires diff >> 24 == 0
    ensures Minus(Minus(a, Low12(diff)), Up12(Mid12(diff))) == Minus(a, diff)
  {
    hide *;
    Rejoin(diff);
    MinusTwice(a, Low12(diff), Up12(Mid12(diff)));
  }

  lemma OneSubtraction(diff: bv64)
    requires diff >> 24 == 0
    ensures diff >> 12 == 0 ==> Low12(diff) == diff
    ensures diff & 0xfff == 0 ==> Up12(Mid12(diff)) == diff
  {
  }

  // ----- the sequences of `arm64_sub_sp` -----

  lemma AddOrSubIsMinus(a: bv64, b: bv64)
    ensures Sized(true, AddOrSub(true, a, b)) == Minus(a, b)
  {
  }

  lemma LowersBy(shifted: bool, imm: bv64, w: bv32)
    requires imm <= 0xfff && w == SubImmWord(shifted, imm)
    ensures Lowers([w], if shifted then Up12(imm) else imm)
  {
    hide Decode, SubImmWord, Up12, Minus, Sized, AddOrSub;
    SubImmDecodes(shifted, imm);
    var d := if shifted then Up12(imm) else imm;
    assert [] + [w] == [w];
    forall s: Regs, q: bv32 ensures Run([w], s)(q) == if q == 31 then Minus(s(31), d) else s(q) {
      RunNext([], w, AddSubImm(true, true, 31, 31, d), s);
      AddOrSubIsMinus(s(31), d);
    }
  }

  lemma LowersTwice(w: bv32, w': bv32, diff: bv64)
    requires diff >> 24 == 0
    requires w == SubImmWord(false, Low12(diff)) && w' == SubImmWord(true, Mid12(diff))
    ensures Lowers([w, w'], diff)
  {
    hide Decode, SubImmWord, Up12, Minus, Sized, AddOrSub, Low12, Mid12;
    Pieces(diff);
    LowersBy(false, Low12(diff), w);
    SubImmDecodes(true, Mid12(diff));
    var d := Up12(Mid12(diff));
    assert [w] + [w'] == [w, w'];
    forall s: Regs, q: bv32 | q != 16 ensures Run([w, w'], s)(q) == if q == 31 then Minus(s(31), diff) else s(q) {
      RunNext([w], w', AddSubImm(true, true, 31, 31, d), s);
      AddOrSubIsMinus(Run([w], s)(31), d);
      TwoSubtractions(s(31), diff);
    }
  }

  lemma LowersByRegister(ws: seq<bv32>, diff: bv64)
    requires Leaves(ws, 16, diff)
    ensures Lowers(ws + [SUB_SP_X16], diff)
  {
    hide Decode, Minus, Sized, AddOrSub;
    SubSpDecodes();
    forall s: Regs, q: bv32 | q != 16
      ensures Run(ws + [SUB_SP_X16], s)(q) == if q == 31 then Minus(s(31), diff) else s(q)
    {
      RunNext(ws, SUB_SP_X16, AddSubExt(true, true, 31, 31, 16), s);
      AddOrSubIsMinus(Run(ws, s)(31), diff);
    }
  }

  lemma LowersNothing()
    ensures Lowers([], 0)
  {
  }

  /** Whichever of the two pieces are nonzero, their SUBs lower sp by diff. */
  lemma LowersCases(diff: bv64, w: bv32, w': bv32)
    requires diff != 0 && diff >> 24 == 0
    requires w == SubImmWord(false, Low12(diff)) && w' == SubImmWord(true, Mid12(diff))
    ensures Lowers([w, w'], diff)
    ensures diff >> 12 == 0 ==> diff & 0xfff != 0 && Lowers([w], diff)
    ensures diff & 0xfff == 0 ==> diff >> 12 != 0 && Lowers([w'], diff)
  {
    hide *;
    Pieces(diff);
    OneSubtraction(diff);
    LowersBy(false, Low12(diff), w);
    LowersBy(true, Mid12(diff), w');
    LowersTwice(w, w', diff);
    SomePiece(diff);
  }

  lemma SomePiece(diff: bv64)
    requires diff != 0
    ensures diff >> 12 != 0 || diff & 0xfff != 0
  {
  }

  /** The immediate form: one SUB per nonzero 12-bit piece. */
  method SubSpImmediate(t: Section, diff: bv64) returns (ghost ws: seq<bv32>)
    requires t.Valid() && diff != 0 && diff >> 24 == 0
    modifies t
    ensures t.Valid() && t.Emitted(old(t.data), old(t.ind), ws)
    ensures Lowers(ws, diff)
    ensures |ws| == (if diff & 0xfff != 0 then 1 else 0) + if diff >> 12 != 0 then 1 else 0
  {
    hide Decode, SubImmWord, Lowers, Leaves, Low12, Mid12, Up12, PutAll, Put;
    ghost var before, start := t.data, t.ind;
    Starts(t);
    ghost var w0, w1 := SubImmWord(false, Low12(diff)), SubImmWord(true, Mid12(diff));
    LowersCases(diff, w0, w1);
    ws := [];
    if diff & 0xfff != 0 {
      PutAllOne(before, start, w0);
      t.O(SubImmWord(false, Low12(diff)));
      ws := [w0];
    }
    if diff >> 12 != 0 {
      PutAllNext(before, start, ws, w1);
      t.O(SubImmWord(true, Mid12(diff)));
      ws := ws + [w1];
      assert ws == [w0, w1] || ws == [w1];
    }
  }

  lemma ZeroIsSmall()
    ensures (0 as bv64) >> 24 == 0
  {
  }

  /** `arm64_sub_sp`: at most five words, so always within the reserved slots. */
  method SubSp(t: Section, diff: bv64) returns (ghost ws: seq<bv32>)
    requires t.Valid()
    modifies t
    ensures t.Valid() && t.Emitted(old(t.data), old(t.ind), ws)
    ensures Lowers(ws, diff) && |ws| < SETUP_SLOTS
    ensures diff == 0 ==> ws == []
    ensures diff != 0 && diff >> 24 == 0 ==>
      |ws| == (if diff & 0xfff != 0 then 1 else 0) + if diff >> 12 != 0 then 1 else 0
    ensures diff >> 24 != 0 ==>
      |ws| == 1 + if InOneWord(16, diff) then 1 else 4 - Max(Count(diff, 0, 4), Count(diff, 0xffff, 4))
  {
    hide Decode, Lowers, Leaves, InOneWord, Count;
    ZeroIsSmall();
    if diff == 0 {
      LowersNothing();
      ws := [];
    } else if diff >> 24 == 0 {
      ws := SubSpImmediate(t, diff);
    } else {
      ghost var before, start := t.data, t.ind;
      ws := Movimm(t, 16, diff);
      LowersByRegister(ws, diff);
      PutAllNext(before, start, ws, SUB_SP_X16);
      t.O(SUB_SP_X16);
      ws := ws + [SUB_SP_X16];
    }
  }

  // ----- `gfunc_epilog` -----

  /** The frame size rounded up to 16. */
  function FrameSize(frame: bv64): bv64 {
    (frame + 15) & 0xffff_ffff_ffff_fff0
  }

  lemma FrameSizeFits(frame: bv64)
    requires 0 < frame < 0x8000_0000
    ensures frame <= FrameSize(frame) && FrameSize(frame) - frame < 16 && FrameSize(frame) & 15 == 0
  {
  }

  lemma LowersThenNop(ws: seq<bv32>, diff: bv64)
    requires Lowers(ws, diff)
    ensures Lowers(ws + [NOP], diff)
  {
    hide Decode, Minus;
    SubSpDecodes();
    forall s: Regs, q: bv32 | q != 16 ensures Run(ws + [NOP], s)(q) == if q == 31 then Minus(s(31), diff) else s(q) {
      RunNext(ws, NOP, Nop, s);
    }
  }

  /** The part of `gfunc_epilog` that fills the slots reserved by the
      prologue; `frame` is -loc. Only the six slots change, and executing
      them lowers sp by the rounded frame size. */
  method PatchPrologue(t: Section, slot: nat, frame: bv64) returns (ghost code: seq<bv32>)
    requires t.Valid() && slot + SETUP_SLOTS <= t.ind && 0 < frame < 0x8000_0000
    modifies t
    ensures t.Valid() && t.ind == old(t.ind)
    ensures |code| == SETUP_SLOTS && Lowers(code, FrameSize(frame))
    ensures t.data == old(t.data)[..slot] + code + old(t.data)[slot + SETUP_SLOTS..]
  {
    hide Decode, Lowers, FrameSize;
    ghost var before := t.data;
    var saved := t.ind;
    t.ind := slot;
    code := SubSp(t, FrameSize(frame));
    var i := t.ind;
    while i < slot + SETUP_SLOTS
      invariant slot <= i <= slot + SETUP_SLOTS <= saved <= |t.data| == |before|
      invariant |code| == i - slot && t.data == before[..slot] + code + before[i..]
      invariant Lowers(code, FrameSize(frame))
    {
      LowersThenNop(code, FrameSize(frame));
      t.data := t.data[i := NOP];
      code := code + [NOP];
      i := i + 1;
    }
    t.ind := saved;
  }
}
