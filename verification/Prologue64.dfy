/** The register saves of `gfunc_prolog`: every register that carries a
    parameter reaches the frame slot the parameter is read from. */
module Prologue64 {
  import opened Aapcs64
  import opened Arithmetic
  import opened Wrappers

  // ----- the store instructions -----

  /** size bytes of an integer or vector register stored at an offset from sp. */
  datatype Store = Store(vec: bool, reg: nat, off: int, size: nat)

  /** STP (signed offset, and pre-index for the first word) and STR (unsigned
      offset), DDI 0487 section C6.2; other words store nothing. Offsets are
      from the new stack pointer. */
  function Stores(w: nat): seq<Store> {
    var kind, rn, rt, rt2 := w / 0x40_0000, w / 32 % 32, w % 32, w / 0x400 % 32;
    var imm7, imm12 := w / 0x8000 % 128, w / 0x400 % 0x1000;
    if rn != 31 then []
    else if kind == 0x2b4 then [Store(true, rt, 16 * imm7, 16), Store(true, rt2, 16 * imm7 + 16, 16)]
    else if kind == 0x2a4 then [Store(false, rt, 8 * imm7, 8), Store(false, rt2, 8 * imm7 + 8, 8)]
    else if kind == 0x2a6 then [Store(false, rt, 0, 8), Store(false, rt2, 8, 8)]
    else if kind == 0x3f4 then [Store(true, rt, 8 * imm12, 8)]
    else if kind == 0x2f4 then [Store(true, rt, 4 * imm12, 4)]
    else []
  }

  function Effects(ws: seq<nat>): seq<Store> {
    if ws == [] then [] else Effects(ws[..|ws| - 1]) + Stores(ws[|ws| - 1])
  }

  lemma EffectsNext(ws: seq<nat>, w: nat)
    ensures Effects(ws + [w]) == Effects(ws) + Stores(w)
  {
    hide Stores;
    assert (ws + [w])[..|ws|] == ws;
  }

  /** How far a word moves sp: the pre-index form of STP adds its signed offset. */
  function SpStep(w: nat): int {
    var imm7 := w / 0x8000 % 128;
    if w / 0x40_0000 == 0x2a6 && w / 32 % 32 == 31 then 8 * (if imm7 < 64 then imm7 else imm7 - 128) else 0
  }

  function SpShift(ws: seq<nat>): int {
    if ws == [] then 0 else SpShift(ws[..|ws| - 1]) + SpStep(ws[|ws| - 1])
  }

  lemma SpNext(ws: seq<nat>, w: nat)
    ensures SpShift(ws + [w]) == SpShift(ws) + SpStep(w)
  {
    hide SpStep;
    assert (ws + [w])[..|ws|] == ws;
  }

  predicate Clear(s: Store, off: int, n: nat) {
    s.off + s.size <= off || off + n <= s.off
  }

  /** After st, the n bytes at off are the low n bytes of the register. */
  predicate Holds(st: seq<Store>, vec: bool, reg: nat, off: int, n: nat) {
    st != [] &&
    var s := st[|st| - 1];
    (s.vec == vec && s.reg == reg && s.off == off && n <= s.size) ||
    (Clear(s, off, n) && Holds(st[..|st| - 1], vec, reg, off, n))
  }

  lemma HoldsNext(st: seq<Store>, s: Store, vec: bool, reg: nat, off: int, n: nat)
    requires (s.vec == vec && s.reg == reg && s.off == off && n <= s.size) ||
      (Clear(s, off, n) && Holds(st, vec, reg, off, n))
    ensures Holds(st + [s], vec, reg, off, n)
  {
    assert (st + [s])[..|st|] == st;
  }

  /** Two stores that are clear of the bytes, or put the register there. */
  lemma HoldsAfterPair(st: seq<Store>, s: Store, s': Store, vec: bool, reg: nat, off: int, n: nat)
    requires Clear(s', off, n) || s' == Store(vec, reg, off, n)
    requires s' == Store(vec, reg, off, n) || s == Store(vec, reg, off, n) ||
      (Clear(s, off, n) && Holds(st, vec, reg, off, n))
    ensures Holds(st + [s, s'], vec, reg, off, n)
  {
    assert st + [s, s'] == (st + [s]) + [s'];
    if s' != Store(vec, reg, off, n) {
      HoldsNext(st, s, vec, reg, off, n);
    }
    HoldsNext(st + [s], s', vec, reg, off, n);
  }

  // ----- saving the argument registers -----

  const FRAME: nat := 0xa9b2_7bfd // stp x29,x30,[sp,#-224]!
  const SET_FP: nat := 0x9100_03fd // mov x29,sp
  const SAVE_X8: nat := 0xa909_23e8 // stp x8,x8,[sp,#144]

  function SaveVectors(i: nat): nat {
    0xad00_87e0 + i * 0x1_0000 + i * 0x800 + i * 2
  }

  function SaveIntegers(i: nat): nat {
    0xa90a_07e0 + i * 0x1_0000 + i * 0x800 + i * 2
  }

  lemma VectorWords()
    ensures Stores(0xad00_87e0) == [Store(true, 0, 16, 16), Store(true, 1, 32, 16)]
    ensures Stores(0xad01_8fe2) == [Store(true, 2, 48, 16), Store(true, 3, 64, 16)]
    ensures Stores(0xad02_97e4) == [Store(true, 4, 80, 16), Store(true, 5, 96, 16)]
    ensures Stores(0xad03_9fe6) == [Store(true, 6, 112, 16), Store(true, 7, 128, 16)]
  {
  }

  lemma IntegerWords()
    ensures Stores(0xa90a_07e0) == [Store(false, 0, 160, 8), Store(false, 1, 168, 8)]
    ensures Stores(0xa90b_0fe2) == [Store(false, 2, 176, 8), Store(false, 3, 184, 8)]
    ensures Stores(0xa90c_17e4) == [Store(false, 4, 192, 8), Store(false, 5, 200, 8)]
    ensures Stores(0xa90d_1fe6) == [Store(false, 6, 208, 8), Store(false, 7, 216, 8)]
  {
  }

  lemma SaveWords(i: nat)
    requires i < 4
    ensures Stores(SaveVectors(i)) == [Store(true, 2 * i, 16 + 32 * i, 16), Store(true, 2 * i + 1, 32 + 32 * i, 16)]
    ensures Stores(SaveIntegers(i)) == [Store(false, 2 * i, 160 + 16 * i, 8), Store(false, 2 * i + 1, 168 + 16 * i, 8)]
  {
    hide Stores;
    VectorWords();
    IntegerWords();
  }

  /** Only the first word moves sp: down by 224. */
  lemma SpSteps(i: nat)
    requires i < 4
    ensures SpStep(FRAME) == -224 && SpStep(SET_FP) == 0 && SpStep(SAVE_X8) == 0
    ensures SpStep(SaveVectors(i)) == 0 && SpStep(SaveIntegers(i)) == 0
  {
  }

  lemma FrameWords()
    ensures Stores(FRAME) == [Store(false, 29, 0, 8), Store(false, 30, 8, 8)]
    ensures Stores(SET_FP) == []
    ensures Stores(SAVE_X8) == [Store(false, 8, 144, 8), Store(false, 8, 152, 8)]
  {
  }

  /** The first `vs` vector and `xs` integer argument registers are in their slots. */
  predicate Saved(st: seq<Store>, vs: nat, xs: nat) {
    && (forall r :: 0 <= r < vs ==> Holds(st, true, r, 16 + 16 * r, 16))
    && (forall r :: 0 <= r < xs ==> Holds(st, false, r, 160 + 8 * r, 8))
  }

  lemma SavedVectors(st: seq<Store>, i: nat)
    requires i < 4 && Saved(st, 2 * i, 0)
    ensures Saved(st + Stores(SaveVectors(i)), 2 * i + 2, 0)
  {
    hide Stores, SaveVectors, Holds;
    SaveWords(i);
    var s, s' := Store(true, 2 * i, 16 + 32 * i, 16), Store(true, 2 * i + 1, 32 + 32 * i, 16);
    forall r | 0 <= r < 2 * i + 2 ensures Holds(st + [s, s'], true, r, 16 + 16 * r, 16) {
      HoldsAfterPair(st, s, s', true, r, 16 + 16 * r, 16);
    }
  }

  lemma SavedX8(st: seq<Store>, vs: nat)
    requires vs <= 8 && Saved(st, vs, 0)
    ensures Saved(st + Stores(SAVE_X8), vs, 0) && Holds(st + Stores(SAVE_X8), false, 8, 144, 8)
  {
    hide Stores, Holds;
    FrameWords();
    var s, s' := Store(false, 8, 144, 8), Store(false, 8, 152, 8);
    forall r | 0 <= r < vs ensures Holds(st + [s, s'], true, r, 16 + 16 * r, 16) {
      HoldsAfterPair(st, s, s', true, r, 16 + 16 * r, 16);
    }
    HoldsAfterPair(st, s, s', false, 8, 144, 8);
  }

  lemma SavedIntegers(st: seq<Store>, vs: nat, i: nat, x8: bool)
    requires vs <= 8 && i < 4 && Saved(st, vs, 2 * i) && (x8 ==> Holds(st, false, 8, 144, 8))
    ensures Saved(st + Stores(SaveIntegers(i)), vs, 2 * i + 2)
    ensures x8 ==> Holds(st + Stores(SaveIntegers(i)), false, 8, 144, 8)
  {
    hide Stores, SaveIntegers, Holds;
    SaveWords(i);
    var s, s' := Store(false, 2 * i, 160 + 16 * i, 8), Store(false, 2 * i + 1, 168 + 16 * i, 8);
    forall r | 0 <= r < vs ensures Holds(st + [s, s'], true, r, 16 + 16 * r, 16) {
      HoldsAfterPair(st, s, s', true, r, 16 + 16 * r, 16);
    }
    forall r | 0 <= r < 2 * i + 2 ensures Holds(st + [s, s'], false, r, 160 + 8 * r, 8) {
      HoldsAfterPair(st, s, s', false, r, 160 + 8 * r, 8);
    }
    if x8 {
      HoldsAfterPair(st, s, s', false, 8, 144, 8);
    }
  }

  /** The stores of the prologue up to the parameters. */
  method SaveRegisters(lastInt: nat, lastFloat: nat, useX8: bool) returns (code: seq<nat>)
    requires lastInt <= 4 && lastFloat <= 4
    ensures Saved(Effects(code), 2 * lastFloat, 2 * lastInt)
    ensures useX8 ==> Holds(Effects(code), false, 8, 144, 8)
    ensures SpShift(code) == -224
  {
    hide Effects, Stores, Saved, Holds, SpShift, SpStep, SaveVectors, SaveIntegers;
    code := [FRAME, SET_FP];
    SpSteps(0);
    NothingShifted();
    SpNext([], FRAME);
    SpNext([FRAME], SET_FP);
    assert [] + [FRAME] == [FRAME] && [FRAME] + [SET_FP] == [FRAME, SET_FP];
    NothingSaved(Effects(code));
    for i := 0 to lastFloat
      invariant Saved(Effects(code), 2 * i, 0) && SpShift(code) == -224
    {
      SpSteps(i);
      SpNext(code, SaveVectors(i));
      EffectsNext(code, SaveVectors(i));
      SavedVectors(Effects(code), i);
      code := code + [SaveVectors(i)];
    }
    if useX8 {
      SpNext(code, SAVE_X8);
      EffectsNext(code, SAVE_X8);
      SavedX8(Effects(code), 2 * lastFloat);
      code := code + [SAVE_X8];
    }
    for i := 0 to lastInt
      invariant Saved(Effects(code), 2 * lastFloat, 2 * i) && (useX8 ==> Holds(Effects(code), false, 8, 144, 8))
      invariant SpShift(code) == -224
    {
      SpSteps(i);
      SpNext(code, SaveIntegers(i));
      EffectsNext(code, SaveIntegers(i));
      SavedIntegers(Effects(code), 2 * lastFloat, i, useX8);
      code := code + [SaveIntegers(i)];
    }
  }

  lemma NothingShifted()
    ensures SpShift([]) == 0
  {
  }

  lemma NothingSaved(st: seq<Store>)
    ensures Saved(st, 0, 0)
  {
  }

  // ----- how many registers are saved -----

  /** The pairs of registers that a parameter with the code a needs saved. */
  predicate Covered(t: Type, a: nat, lastInt: nat, lastFloat: nat) {
    match PlaceOf(t, a)
    case X(_, hi) => hi <= 2 * lastInt
    case V(_, hi) => hi <= 2 * lastFloat
    case Stack(_, _) => true
  }

  function Max(m: nat, n: nat): nat {
    if m < n then n else m
  }

  function Min4(n: nat): nat {
    if n > 4 then 4 else n
  }

  /** `last` for an integer register; C division truncates. */
  function LastInt(t: Type, a: nat): nat {
    a / 4 + 1 + (if t.size == 0 then 0 else (t.size - 1) / 8)
  }

  /** `last` for a vector register. */
  function LastFloat(t: Type, a: nat): nat
    requires 16 <= a
  {
    a / 4 - 3 + (if t.hfa > 0 then t.hfa - 1 else 0)
  }

  lemma CoversInt(t: Type, a: nat)
    requires Sized(t) && a < 16
    ensures a / 2 + Words(t) <= 2 * LastInt(t, a)
  {
    hide Sized, ByReference;
    Facts(t);
    var q := a / 4;
    assert a / 2 <= 2 * q + 1;
    if t.size > 0 {
      var w := (t.size - 1) / 8;
      assert (t.size + 7) / 8 == w + 1;
    }
  }

  lemma CoversFloat(t: Type, a: nat)
    requires 16 <= a < 32
    ensures a / 2 - 8 + Vectors(t) <= 2 * LastFloat(t, a)
  {
    var q := a / 4;
    assert a / 2 <= 2 * q + 1;
  }

  /** The loop that finds how many pairs of registers to save. */
  method CountSaves(ts: seq<Type>, a: array<nat>, variadic: bool) returns (lastInt: nat, lastFloat: nat)
    requires AllSized(ts) && a.Length == 1 + |ts|
    requires forall i :: 0 <= i < |ts| ==> a[1 + i] == CodeOf(ts, i)
    ensures lastInt <= 4 && lastFloat <= 4
    ensures forall i :: 0 <= i < |ts| ==> Covered(ts[i], CodeOf(ts, i), lastInt, lastFloat)
    ensures variadic ==> lastInt == 4 && lastFloat == 4
  {
    hide Sized, Next, Code, LastInt, LastFloat, Words, Vectors;
    lastInt, lastFloat := if variadic then 4 else 0, if variadic then 4 else 0;
    for i := 0 to |ts|
      invariant forall k :: 0 <= k < i ==> Covered(ts[k], CodeOf(ts, k), lastInt, lastFloat)
      invariant variadic ==> lastInt >= 4 && lastFloat >= 4
    {
      Facts(ts[i]);
      var code := a[1 + i];
      if code < 16 {
        CoversInt(ts[i], code);
        lastInt := Max(LastInt(ts[i], code), lastInt);
      } else if code < 32 {
        CoversFloat(ts[i], code);
        lastFloat := Max(LastFloat(ts[i], code), lastFloat);
      }
    }
    forall i | 0 <= i < |ts| ensures Covered(ts[i], CodeOf(ts, i), Min4(lastInt), Min4(lastFloat)) {
      StartBounds(ts, i);
      PlaceLimit(ts[i], Start(ts, i));
    }
    lastInt, lastFloat := Min4(lastInt), Min4(lastFloat);
  }

  lemma PlaceLimit(t: Type, c: Cursor)
    requires Sized(t) && InBounds(c)
    ensures var p := PlaceOf(t, Code(t, c)); !p.Stack? ==> p.hi <= 8
  {
    hide Sized, Code, Next, Words, Vectors, Alignment, VectorClass, PlaceOf, StackSlot;
    ReadsAsGiven(t, c);
  }

  // ----- where the parameters are read from -----

  /** The frame offset recorded for a parameter. */
  function FrameOff(a: nat): nat {
    if a < 16 then 160 + a / 2 * 8
    else if a < 32 then 16 + (a - 16) / 2 * 16
    else 224 + (a - 32) / 2 * 2
  }

  /** The bytes of the frame, or of the caller's area above it, that belong to a parameter. */
  function FrameLength(t: Type, a: nat): nat {
    if 16 <= a < 32 then 16 * Vectors(t) else 8 * Words(t)
  }

  /** The parameters' bytes lie inside the save areas, or above the 224-byte frame. */
  lemma FrameBounds(t: Type, a: nat)
    requires var p := PlaceOf(t, a); p.Stack? || p.hi <= 8
    ensures var o, p := FrameOff(a), PlaceOf(t, a); match p
      case X(lo, hi) => o == 160 + 8 * lo && o + FrameLength(t, a) == 160 + 8 * hi <= 224
      case V(lo, hi) => o == 16 + 16 * lo && o + FrameLength(t, a) == 16 + 16 * hi <= 144
      case Stack(lo, hi) => o == 224 + lo && o + FrameLength(t, a) == 224 + hi
  {
    hide Words, Vectors;
    if 16 <= a < 32 {
      assert a / 2 - 8 == (a - 16) / 2;
    }
  }

  /** No two parameters share a byte of the frame. */
  lemma FramesApart(ts: seq<Type>, i: nat, j: nat)
    requires AllSized(ts) && i < |ts| && j < |ts| && i != j && !MisreadAt(ts, i) && !MisreadAt(ts, j)
    ensures var a, b := CodeOf(ts, i), CodeOf(ts, j);
      FrameOff(a) + FrameLength(ts[i], a) <= FrameOff(b) || FrameOff(b) + FrameLength(ts[j], b) <= FrameOff(a)
  {
    hide Sized, Code, Next, PlaceOf, FrameOff, FrameLength;
    if i < j {
      NoOverlap(ts, i, j);
    } else {
      NoOverlap(ts, j, i);
    }
    StartBounds(ts, i);
    StartBounds(ts, j);
    PlaceLimit(ts[i], Start(ts, i));
    PlaceLimit(ts[j], Start(ts, j));
    FrameBounds(ts[i], CodeOf(ts, i));
    FrameBounds(ts[j], CodeOf(ts, j));
  }

  /** Parameter registers sit one after the other at the parameter's offset,
      vector registers `unit` bytes apart. */
  predicate InFrame(st: seq<Store>, t: Type, a: nat, unit: nat) {
    var o := FrameOff(a);
    match PlaceOf(t, a)
    case X(lo, hi) => forall k :: 0 <= k < hi - lo ==> HoldsAt(st, false, lo, k, o, 8)
    case V(lo, hi) => forall k :: 0 <= k < hi - lo ==> HoldsAt(st, true, lo, k, o, unit)
    case Stack(_, _) => true
  }

  /** Register first + k is the k-th unit from offset o. */
  predicate HoldsAt(st: seq<Store>, vec: bool, first: nat, k: nat, o: nat, unit: nat) {
    Holds(st, vec, first + k, o + unit * k, unit)
  }

  /** The distance between the members of a vector parameter in memory. */
  function Unit(t: Type): nat {
    if t.hfa > 0 && Element(t) < 16 then Element(t) else 16
  }

  lemma InFrameFromSaves(st: seq<Store>, t: Type, c: Cursor, lastInt: nat, lastFloat: nat)
    requires Sized(t) && InBounds(c) && Covered(t, Code(t, c), lastInt, lastFloat)
    requires Saved(st, 2 * lastFloat, 2 * lastInt)
    ensures InFrame(st, t, Code(t, c), 16)
  {
    hide Sized, Code, Holds, PlaceOf, FrameOff, FrameLength;
    PlaceLimit(t, c);
    FrameBounds(t, Code(t, c));
    var o := FrameOff(Code(t, c));
    match PlaceOf(t, Code(t, c)) {
      case X(lo, hi) =>
        forall k | 0 <= k < hi - lo ensures HoldsAt(st, false, lo, k, o, 8) {
          assert Holds(st, false, lo + k, 160 + 8 * (lo + k), 8);
        }
      case V(lo, hi) =>
        forall k | 0 <= k < hi - lo ensures HoldsAt(st, true, lo, k, o, 16) {
          assert Holds(st, true, lo + k, 16 + 16 * (lo + k), 16);
        }
      case Stack(_, _) =>
    }
  }

  ghost predicate KeepsOutside(before: seq<Store>, after: seq<Store>, lo: nat, hi: nat) {
    forall vec, reg, off: int, n :: Holds(before, vec, reg, off, n) && (off + n <= lo || hi <= off) ==>
      Holds(after, vec, reg, off, n)
  }

  lemma KeepsInFrame(before: seq<Store>, after: seq<Store>, lo: nat, hi: nat, t: Type, a: nat, unit: nat)
    requires KeepsOutside(before, after, lo, hi) && InFrame(before, t, a, unit) && unit <= 16
    requires var p := PlaceOf(t, a); p.Stack? || p.hi <= 8
    requires FrameOff(a) + FrameLength(t, a) <= lo || hi <= FrameOff(a)
    ensures InFrame(after, t, a, unit)
  {
    hide Holds, FrameOff, FrameLength, PlaceOf;
    FrameBounds(t, a);
    var o := FrameOff(a);
    match PlaceOf(t, a) {
      case X(first, last) =>
        forall k | 0 <= k < last - first ensures HoldsAt(after, false, first, k, o, 8) {
          KeepsOne(before, after, lo, hi, false, first, k, last - first, o, 8, 8);
        }
      case V(first, last) =>
        forall k | 0 <= k < last - first ensures HoldsAt(after, true, first, k, o, unit) {
          KeepsOne(before, after, lo, hi, true, first, k, last - first, o, unit, 16);
        }
      case Stack(_, _) =>
    }
  }

  lemma KeepsOne(before: seq<Store>, after: seq<Store>, lo: nat, hi: nat, vec: bool, first: nat, k: nat, n: nat, o: nat,
                 unit: nat, slot: nat)
    requires KeepsOutside(before, after, lo, hi) && HoldsAt(before, vec, first, k, o, unit) && k < n && unit <= slot
    requires o + slot * n <= lo || hi <= o
    ensures HoldsAt(after, vec, first, k, o, unit)
  {
    hide Holds;
    UnitInside(unit, slot, k, n);
    assert Holds(before, vec, first + k, o + unit * k, unit);
  }

  lemma UnitInside(unit: nat, slot: nat, k: nat, n: nat)
    requires k < n && unit <= slot
    ensures 0 <= unit * k && unit * k + unit <= slot * n
  {
    assert unit * k + unit == unit * (k + 1);
    assert unit * (k + 1) <= unit * n <= slot * n;
  }

  /** `str s/d(reg),[sp,#(sz * unit)]` for members of 4 and of 8 bytes. */
  function StoreMember(sz: nat, reg: nat, k: nat): nat {
    (if sz == 8 then 0xfd00_03e0 else 0xbd00_03e0) + reg + k * 0x400
  }

  lemma StoreMemberIs(sz: nat, reg: nat, k: nat)
    requires sz in {4, 8} && reg < 8 && k < 64
    ensures Stores(StoreMember(sz, reg, k)) == [Store(true, reg, sz * k, sz)] && SpStep(StoreMember(sz, reg, k)) == 0
  {
    MemberFields(if sz == 8 then 0x3f4 else 0x2f4, reg, k, StoreMember(sz, reg, k));
  }

  lemma MemberFields(kind: nat, reg: nat, k: nat, w: nat)
    requires reg < 8 && k < 64 && w == kind * 0x40_0000 + k * 0x400 + 0x3e0 + reg
    ensures w / 0x40_0000 == kind && w / 32 % 32 == 31 && w % 32 == reg && w / 0x400 % 0x1000 == k
  {
    DivUnique(w, 0x40_0000, kind, k * 0x400 + 0x3e0 + reg);
    DivUnique(w, 32, kind * 0x2_0000 + k * 32 + 31, reg);
    DivUnique(w / 32, 32, kind * 0x1000 + k, 31);
    DivUnique(w, 0x400, kind * 0x1000 + k, 0x3e0 + reg);
    DivUnique(w / 0x400, 0x1000, kind, k);
  }

  /** The members of a float or double aggregate are stored side by side at
      its offset; bytes outside its slots stay. */
  method PackMembers(code: seq<nat>, t: Type, a: nat) returns (code': seq<nat>)
    requires Sized(t) && 16 <= a < 32 && t.hfa > 0 && Element(t) < 16 && a / 2 - 8 + t.hfa <= 8
    ensures InFrame(Effects(code'), t, a, Element(t))
    ensures KeepsOutside(Effects(code), Effects(code'), FrameOff(a), FrameOff(a) + 16 * t.hfa)
    ensures SpShift(code') == SpShift(code)
  {
    hide SpShift, SpStep, Effects, Stores, Holds, FrameOff, StoreMember, KeepsOutside, PlaceOf;
    PlaceIs(t, a);
    FrameBounds(t, a);
    var off, sz, first := FrameOff(a), Element(t), a / 2 - 8;
    code' := code;
    KeepsAll(Effects(code), off, off + 16 * t.hfa);
    for j := 0 to t.hfa
      invariant forall m :: 0 <= m < j ==> Holds(Effects(code'), true, first + m, off + sz * m, sz)
      invariant KeepsOutside(Effects(code), Effects(code'), off, off + 16 * t.hfa) && SpShift(code') == SpShift(code)
    {
      var w := StoreMember(sz, (a - 16) / 2 + j, off / sz + j);
      Member(sz, off, first, j, t.hfa);
      ghost var s := Store(true, first + j, off + sz * j, sz);
      assert Stores(w) == [s];
      SpNext(code', w);
      EffectsNext(code', w);
      KeepsMore(Effects(code), Effects(code'), s, off, off + 16 * t.hfa);
      forall m | 0 <= m <= j ensures Holds(Effects(code') + [s], true, first + m, off + sz * m, sz) {
        HoldsNext(Effects(code'), s, true, first + m, off + sz * m, sz);
      }
      code' := code' + [w];
    }
    forall k | 0 <= k < t.hfa ensures HoldsAt(Effects(code'), true, first, k, off, sz) {
    }
  }

  lemma PlaceIs(t: Type, a: nat)
    requires 16 <= a < 32 && t.hfa > 0
    ensures PlaceOf(t, a) == V(a / 2 - 8, a / 2 - 8 + t.hfa)
  {
  }

  lemma Member(sz: nat, off: nat, first: nat, j: nat, hfa: nat)
    requires sz in {4, 8} && first + hfa <= 8 && hfa <= 4 && j < hfa && off == 16 + 16 * first
    ensures Stores(StoreMember(sz, first + j, off / sz + j)) == [Store(true, first + j, off + sz * j, sz)]
    ensures SpStep(StoreMember(sz, first + j, off / sz + j)) == 0
    ensures off <= off + sz * j && off + sz * j + sz <= off + 16 * hfa
  {
    hide Stores, StoreMember;
    var q := off / sz;
    assert sz * q == off;
    StoreMemberIs(sz, first + j, q + j);
    assert sz * (q + j) == off + sz * j;
  }

  lemma KeepsAll(st: seq<Store>, lo: nat, hi: nat)
    ensures KeepsOutside(st, st, lo, hi)
  {
  }

  lemma KeepsMore(before: seq<Store>, mid: seq<Store>, s: Store, lo: nat, hi: nat)
    requires KeepsOutside(before, mid, lo, hi) && lo <= s.off && s.off + s.size <= hi
    ensures KeepsOutside(before, mid + [s], lo, hi)
  {
    hide Holds;
    forall vec, reg, off: int, n | Holds(before, vec, reg, off, n) && (off + n <= lo || hi <= off)
      ensures Holds(mid + [s], vec, reg, off, n)
    {
      HoldsNext(mid, s, vec, reg, off, n);
    }
  }

  /** The argument registers behind the cursor c are in their save slots. */
  predicate Unnamed(st: seq<Store>, c: Cursor) {
    && (forall r :: c.nv <= r < 8 ==> Holds(st, true, r, 16 + 16 * r, 16))
    && (forall r :: c.nx <= r < 8 ==> Holds(st, false, r, 160 + 8 * r, 8))
  }

  /** Packing a parameter leaves the registers behind all parameters alone. */
  lemma KeepsUnnamed(ts: seq<Type>, i: nat, before: seq<Store>, after: seq<Store>)
    requires AllSized(ts) && i < |ts| && ts[i].hfa > 0 && 16 <= CodeOf(ts, i) < 32
    requires Unnamed(before, Start(ts, |ts|))
    requires KeepsOutside(before, after, FrameOff(CodeOf(ts, i)), FrameOff(CodeOf(ts, i)) + 16 * ts[i].hfa)
    ensures Unnamed(after, Start(ts, |ts|))
  {
    hide Sized, Code, Next, Holds, PlaceOf, FrameOff, FrameLength, VectorClass, Alignment, Vectors, Words;
    var a := CodeOf(ts, i);
    StartBounds(ts, i);
    StartGrows(ts, i + 1, |ts|);
    NotMisread(ts, i);
    Placed(ts[i], Start(ts, i));
    VectorPlace(ts[i], a);
    FrameBounds(ts[i], a);
  }

  /** `gfunc_prolog`: after the emitted words every register that carries a
      parameter is in the frame at the offset recorded for the parameter, and
      the pointer to an indirect result is at offset 144. In a variadic
      function the argument registers that no parameter takes are saved too. */
  method Prolog(result: Option<Type>, ts: seq<Type>, variadic: bool)
    returns (code: seq<nat>, offs: seq<nat>, refs: seq<bool>)
    requires AllSized(ts) && (result.Some? ==> Sized(result.value))
    ensures |offs| == |ts| && forall i :: 0 <= i < |ts| ==> offs[i] == FrameOff(CodeOf(ts, i))
    ensures |refs| == |ts| && forall i :: 0 <= i < |ts| ==>
      (refs[i] <==> ts[i].basic == Struct && ts[i].hfa == 0 && ts[i].size > 16)
    ensures forall i :: 0 <= i < |ts| && !MisreadAt(ts, i) ==>
      var t := ts[i];
      InFrame(Effects(code), t, CodeOf(ts, i), if t.hfa > 0 && t.size / t.hfa < 16 then t.size / t.hfa else 16)
    ensures (result.Some? && ByReference(result.value)) || variadic ==> Holds(Effects(code), false, 8, 144, 8)
    ensures variadic ==> Unnamed(Effects(code), Start(ts, |ts|))
    ensures SpShift(code) == -224
  {
    hide SpShift, Unnamed, Sized, Code, Next, Effects, Holds, InFrame, KeepsOutside, Saved, Covered, FrameOff;
    hide FrameLength;
    hide PlaceOf, ByReference, AllInFrame, CodeOf;
    var a := new nat[1 + |ts|];
    var stack := Pcs(result, ts, a);
    if result.Some? {
      ResultCode(result.value);
    }
    var useX8 := variadic || a[0] == 1;
    var lastInt, lastFloat := CountSaves(ts, a, variadic);
    code := SaveRegisters(lastInt, lastFloat, useX8);
    AllSaved(Effects(code), ts, lastInt, lastFloat);
    if variadic {
      AllRegisters(Effects(code), Start(ts, |ts|));
    }
    offs, refs := [], [];
    for i := 0 to |ts|
      invariant |offs| == i && forall k :: 0 <= k < i ==> offs[k] == FrameOff(CodeOf(ts, k))
      invariant |refs| == i && forall k :: 0 <= k < i ==>
        (refs[k] <==> ts[k].basic == Struct && ts[k].hfa == 0 && ts[k].size > 16)
      invariant AllInFrame(Effects(code), ts, i)
      invariant forall k :: 0 <= k < |ts| ==> a[1 + k] == CodeOf(ts, k)
      invariant useX8 ==> Holds(Effects(code), false, 8, 144, 8)
      invariant variadic ==> Unnamed(Effects(code), Start(ts, |ts|))
      invariant SpShift(code) == -224
    {
      assert a[1 + i] == CodeOf(ts, i);
      offs := offs + [FrameOff(a[1 + i])];
      OddCode(ts, i);
      refs := refs + [a[1 + i] % 2 == 1];
      HfaFits(ts, i);
      if 16 <= a[1 + i] < 32 && ts[i].hfa > 0 && Element(ts[i]) < 16 {
        var packed := PackMembers(code, ts[i], a[1 + i]);
        Repack(ts, i, Effects(code), Effects(packed), useX8);
        if variadic {
          KeepsUnnamed(ts, i, Effects(code), Effects(packed));
        }
        code := packed;
      } else {
        NoRepack(ts, i, Effects(code));
      }
    }
    AllDone(Effects(code), ts);
  }

  lemma AllRegisters(st: seq<Store>, c: Cursor)
    requires Saved(st, 8, 8)
    ensures Unnamed(st, c)
  {
    hide Holds;
  }

  lemma AllSaved(st: seq<Store>, ts: seq<Type>, lastInt: nat, lastFloat: nat)
    requires AllSized(ts) && Saved(st, 2 * lastFloat, 2 * lastInt)
    requires forall i :: 0 <= i < |ts| ==> Covered(ts[i], CodeOf(ts, i), lastInt, lastFloat)
    ensures AllInFrame(st, ts, 0)
  {
    hide Sized, Code, Next, Holds, InFrame, Saved, Covered;
    forall i | 0 <= i < |ts| ensures InFrame(st, ts[i], CodeOf(ts, i), 16) {
      StartBounds(ts, i);
      InFrameFromSaves(st, ts[i], Start(ts, i), lastInt, lastFloat);
    }
  }

  lemma AllDone(st: seq<Store>, ts: seq<Type>)
    requires AllSized(ts) && AllInFrame(st, ts, |ts|)
    ensures forall i :: 0 <= i < |ts| && !MisreadAt(ts, i) ==> InFrame(st, ts[i], CodeOf(ts, i), Unit(ts[i]))
  {
    hide Sized, CodeOf, InFrame;
  }

  lemma NoRepack(ts: seq<Type>, i: nat, st: seq<Store>)
    requires AllSized(ts) && i < |ts| && AllInFrame(st, ts, i)
    requires !(16 <= CodeOf(ts, i) < 32 && ts[i].hfa > 0 && Element(ts[i]) < 16)
    ensures AllInFrame(st, ts, i + 1)
  {
    hide Sized, CodeOf, InFrame;
    if !MisreadAt(ts, i) {
      SameUnit(st, ts[i], CodeOf(ts, i));
    }
  }

  /** The parameters below i are where the code reads them; the others are in the save areas. */
  predicate AllInFrame(st: seq<Store>, ts: seq<Type>, i: nat)
    requires AllSized(ts)
  {
    forall k :: 0 <= k < |ts| && !MisreadAt(ts, k) ==>
      InFrame(st, ts[k], CodeOf(ts, k), if k < i then Unit(ts[k]) else 16)
  }

  lemma ResultCode(t: Type)
    requires Sized(t)
    ensures CodeOf([t], 0) == 1 <==> ByReference(t)
    ensures CodeOf([t], 0) != VOID
  {
    ReturnClass(t);
    SomeUnits(t);
  }

  lemma HfaFits(ts: seq<Type>, i: nat)
    requires AllSized(ts) && i < |ts|
    ensures var a := CodeOf(ts, i); 16 <= a < 32 && ts[i].hfa > 0 ==> a / 2 - 8 + ts[i].hfa <= 8
  {
    hide Sized, Code, Next;
    StartBounds(ts, i);
    PlaceLimit(ts[i], Start(ts, i));
  }

  /** A parameter that is not repacked is read 16 bytes apart, or not from vector registers. */
  lemma SameUnit(st: seq<Store>, t: Type, a: nat)
    requires InFrame(st, t, a, 16) && !(16 <= a < 32 && t.hfa > 0 && Element(t) < 16)
    ensures InFrame(st, t, a, Unit(t))
  {
    hide Holds, FrameOff;
  }

  /** Packing parameter i keeps the other parameters and x8. */
  lemma Repack(ts: seq<Type>, i: nat, before: seq<Store>, after: seq<Store>, useX8: bool)
    requires AllSized(ts) && i < |ts|
    requires AllInFrame(before, ts, i) && 16 <= CodeOf(ts, i) < 32 && ts[i].hfa > 0 && Element(ts[i]) < 16
    requires InFrame(after, ts[i], CodeOf(ts, i), Element(ts[i]))
    requires KeepsOutside(before, after, FrameOff(CodeOf(ts, i)), FrameOff(CodeOf(ts, i)) + 16 * ts[i].hfa)
    requires useX8 ==> Holds(before, false, 8, 144, 8)
    ensures AllInFrame(after, ts, i + 1)
    ensures useX8 ==> Holds(after, false, 8, 144, 8)
  {
    hide Sized, Code, Next, Holds, InFrame, PlaceOf, FrameOff;
    var a := CodeOf(ts, i);
    StartBounds(ts, i);
    PlaceLimit(ts[i], Start(ts, i));
    VectorPlace(ts[i], a);
    FrameBounds(ts[i], a);
    NotMisread(ts, i);
    forall k | 0 <= k < |ts| && k != i && !MisreadAt(ts, k)
      ensures InFrame(after, ts[k], CodeOf(ts, k), if k < i + 1 then Unit(ts[k]) else 16)
    {
      FramesApart(ts, i, k);
      StartBounds(ts, k);
      PlaceLimit(ts[k], Start(ts, k));
      KeepsInFrame(before, after, FrameOff(a), FrameOff(a) + 16 * ts[i].hfa, ts[k], CodeOf(ts, k),
        if k < i then Unit(ts[k]) else 16);
    }
  }

  lemma NotMisread(ts: seq<Type>, i: nat)
    requires AllSized(ts) && i < |ts| && ts[i].hfa > 0
    ensures !MisreadAt(ts, i)
  {
  }

  lemma VectorPlace(t: Type, a: nat)
    requires 16 <= a < 32 && t.hfa > 0
    ensures PlaceOf(t, a).V? && Vectors(t) == t.hfa && FrameLength(t, a) == 16 * t.hfa
  {
  }
}
