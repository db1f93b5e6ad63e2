/** Out-of-range offsets in the 32-bit ARM generator: `calcaddr`. */
module ArmAddress {
  import opened Arm32
  import opened ArmConst
  import opened ArmWindows
  import opened Text

  const LR: bv32 := 14

  /** The largest offset and the alignment mask of an addressing mode, for the
      modes of the callers: VFP loads, halfword loads, word and byte loads. */
  predicate Mode(maxoff: bv32, low: bv32) {
    (maxoff == 1020 && low == 3) || (maxoff == 255 && low == 0) || (maxoff == 4095 && low == 0)
  }

  /** base plus or minus the offset. */
  function Address(b: bv32, off: bv32, sgn: bool): bv32 {
    if sgn then Minus(b, off) else Plus(b, off)
  }

  /** `add lr, base, #0` or `sub lr, base, #0` */
  function Adjust(base: bv32, sgn: bool): bv32 {
    (if sgn then 0xe240_e000 else 0xe280_e000) | (base << 16)
  }

  function High(off: bv32, maxoff: bv32): bv32 {
    off & !maxoff
  }

  function Low(off: bv32, maxoff: bv32): bv32 {
    off & maxoff
  }

  /** The offset rounded up to the next high part. */
  function Up(off: bv32, maxoff: bv32): bv32 {
    (off + maxoff) & !maxoff
  }

  /** In range of the addressing mode. */
  predicate Fits(off: bv32, maxoff: bv32, low: bv32) {
    off <= maxoff && off & low == 0
  }

  /** An int below 0; the callers keep the sign apart, so only the least int can be. */
  predicate IsNegative(off: bv32) {
    off >= 0x8000_0000
  }

  /** `calcaddr` leaves the offset as it is: the comparison with maxoff is signed. */
  predicate Untouched(off: bv32, maxoff: bv32, low: bv32) {
    (IsNegative(off) || off <= maxoff) && off & low == 0
  }

  lemma UntouchedFits(off: bv32, maxoff: bv32, low: bv32)
    requires Mode(maxoff, low)
    ensures Untouched(off, maxoff, low) ==> (Fits(off, maxoff, low) <==> !IsNegative(off))
    ensures Untouched(off, maxoff, low) <==> Fits(off, maxoff, low) || (IsNegative(off) && off & low == 0)
  {
  }

  lemma AdjustAdds(base: bv32, w: bv32)
    requires base < 15 && w == 0xe280_e000 | (base << 16)
    ensures w & 0xfff == 0 && IsImmediate(w) && Class(w) == ADD && Rn(w) == base && Rd(w) == LR
  {
  }

  lemma AdjustSubtracts(base: bv32, w: bv32)
    requires base < 15 && w == 0xe240_e000 | (base << 16)
    ensures w & 0xfff == 0 && IsImmediate(w) && Class(w) == SUB && Rn(w) == base && Rd(w) == LR
  {
  }

  lemma AdjustFields(base: bv32, sgn: bool, w: bv32)
    requires base < 15 && w == Adjust(base, sgn)
    ensures Adder(w) && Class(w) == (if sgn then SUB else ADD) && Rn(w) == base && Rd(w) == LR
  {
    hide IsImmediate, Class, Rn, Rd;
    if sgn {
      AdjustSubtracts(base, w);
    } else {
      AdjustAdds(base, w);
    }
  }

  lemma Halves(off: bv32, m: bv32)
    ensures (off & !m) + (off & m) == off
  {
  }

  lemma LowFits(off: bv32, maxoff: bv32, low: bv32)
    requires Mode(maxoff, low)
    ensures Fits(Low(off, maxoff), maxoff, low)
  {
  }

  /** How far `Up` is above the offset. */
  function Excess(off: bv32, maxoff: bv32): bv32 {
    ((off + maxoff) & !maxoff) - off
  }

  lemma ByteExcess(off: bv32)
    ensures Fits(Excess(off, 255), 255, 0)
  {
  }

  lemma WordExcess(off: bv32)
    ensures Fits(Excess(off, 4095), 4095, 0)
  {
  }

  lemma VfpExcess(off: bv32)
    ensures Fits(Excess(off, 1020), 1020, 3)
  {
  }

  lemma ExcessFits(off: bv32, maxoff: bv32, low: bv32)
    requires Mode(maxoff, low)
    ensures Fits(Excess(off, maxoff), maxoff, low)
  {
    hide Excess, Fits;
    ByteExcess(off);
    WordExcess(off);
    VfpExcess(off);
  }

  lemma DownThenUp(b: bv32, up: bv32, off: bv32)
    ensures Minus(b + up, up - off) == Plus(b, off) && Plus(b - up, up - off) == Minus(b, off)
  {
  }

  lemma RoundingIs(off: bv32, m: bv32)
    ensures Up(off, m) == (off + m) & !m && Excess(off, m) == ((off + m) & !m) - off
  {
  }

  /** Adding the rounded-up part and taking the excess back is adding the offset. */
  lemma RoundedAddress(b: bv32, off: bv32, maxoff: bv32, sgn: bool)
    ensures Address(Address(b, Up(off, maxoff), sgn), Excess(off, maxoff), !sgn) == Address(b, off, sgn)
  {
    hide Up, Excess, Plus, Minus;
    RoundingIs(off, maxoff);
    PlusIs(b, (off + maxoff) & !maxoff);
    DownThenUp(b, (off + maxoff) & !maxoff, off);
  }

  lemma HighPlusLow(off: bv32, maxoff: bv32)
    ensures Plus(High(off, maxoff), Low(off, maxoff)) == off
  {
    hide *;
    HalvesAre(off, maxoff);
    Halves(off, maxoff);
    PlusIs(off & !maxoff, off & maxoff);
  }

  lemma HalvesAre(off: bv32, m: bv32)
    ensures High(off, m) == off & !m && Low(off, m) == off & m
  {
  }

  /** Adding the high part and then the low part is adding the offset. */
  lemma SplitAddress(b: bv32, off: bv32, maxoff: bv32, sgn: bool)
    ensures Address(Address(b, High(off, maxoff), sgn), Low(off, maxoff), sgn) == Address(b, off, sgn)
  {
    HighPlusLow(off, maxoff);
    PlusTwice(b, High(off, maxoff), Low(off, maxoff));
    hide High, Low, Plus, Minus;
  }

  /** The words leave the adjusted base in lr and change nothing else. */
  ghost predicate Moves(ws: seq<bv32>, base: bv32, step: bv32, sgn: bool) {
    forall s: Regs, q: bv32 :: Run(ws, s)(q) == if q == LR then Address(s(base), step, sgn) else s(q)
  }

  lemma ComputesMoves(ws: seq<bv32>, base: bv32, sgn: bool, x: bv32, step: bv32)
    requires base < 15 && x == Adjust(base, sgn) && Computes(ws, x, step)
    ensures Moves(ws, base, step, sgn)
  {
    AdjustFields(base, sgn, x);
    hide Adder, Class, Rn, Rd, Adjust, Plus, Minus;
    forall s: Regs, q: bv32 ensures Run(ws, s)(q) == if q == LR then Address(s(base), step, sgn) else s(q) {
      AddressIs(s(base), step, sgn);
    }
  }

  lemma AddressIs(b: bv32, step: bv32, sgn: bool)
    ensures Value(if sgn then SUB else ADD, b, step) == Address(b, step, sgn)
  {
    hide Plus, Minus;
  }

  /** After executing ws, the new base and offset reach the same address, and
      only lr may have changed. */
  ghost predicate SameAddress(ws: seq<bv32>, base: bv32, off: bv32, sgn: bool, base': bv32, off': bv32, sgn': bool) {
    forall s: Regs ::
      Address(Run(ws, s)(base'), off', sgn') == Address(s(base), off, sgn) &&
      forall q: bv32 :: q != LR ==> Run(ws, s)(q) == s(q)
  }

  lemma MovedLow(ws: seq<bv32>, base: bv32, off: bv32, sgn: bool, maxoff: bv32)
    requires Moves(ws, base, High(off, maxoff), sgn)
    ensures SameAddress(ws, base, off, sgn, LR, Low(off, maxoff), sgn)
  {
    hide High, Low, Address, Run;
    forall s: Regs ensures Address(Run(ws, s)(LR), Low(off, maxoff), sgn) == Address(s(base), off, sgn) {
      SplitAddress(s(base), off, maxoff, sgn);
    }
  }

  lemma MovedUp(ws: seq<bv32>, base: bv32, off: bv32, sgn: bool, maxoff: bv32)
    requires Moves(ws, base, Up(off, maxoff), sgn)
    ensures SameAddress(ws, base, off, sgn, LR, Excess(off, maxoff), !sgn)
  {
    hide Up, Excess, Address, Run;
    forall s: Regs ensures Address(Run(ws, s)(LR), Excess(off, maxoff), !sgn) == Address(s(base), off, sgn) {
      RoundedAddress(s(base), off, maxoff, sgn);
    }
  }

  /** One instruction adds or subtracts c. */
  ghost predicate OneAdd(c: bv32) {
    RotatedByte(c) || RotatedByte(0 - c)
  }

  lemma OneAddIs(c: bv32)
    ensures OneAdd(c) <==> RotatedByte(c) || RotatedByte(0 - c)
  {
  }

  lemma RangeIs(off: bv32, maxoff: bv32, low: bv32)
    ensures Fits(off, maxoff, low) <==> off <= maxoff && off & low == 0
    ensures Untouched(off, maxoff, low) <==> (off >= 0x8000_0000 || off <= maxoff) && off & low == 0
    ensures IsNegative(off) <==> off >= 0x8000_0000
  {
  }

  lemma AddressesAre(b: bv32, off: bv32)
    ensures Address(b, off, false) == b + off && Address(b, off, true) == b - off
  {
  }

  /** `calcaddr`: bring an offset into the range of the addressing mode. That
      fails exactly for an aligned negative int. */
  method CalcAddr(t: Section, base: bv32, off: bv32, sgn: bool, maxoff: bv32, low: bv32)
    returns (base': bv32, off': bv32, sgn': bool, ghost ws: seq<bv32>)
    requires t.Valid() && base < 15 && Mode(maxoff, low)
    modifies t
    ensures t.Valid() && t.Emitted(old(t.data), old(t.ind), ws) && |ws| <= 4
    ensures SameAddress(ws, base, off, sgn, base', off', sgn')
    ensures Fits(off', maxoff, low) <==> !(IsNegative(off) && off & low == 0)
    ensures Untouched(off, maxoff, low) ==> ws == [] && base' == base && off' == off && sgn' == sgn
    ensures !Untouched(off, maxoff, low) ==>
      && |ws| == (if OneAdd(High(off, maxoff)) || OneAdd(Up(off, maxoff)) then 1
                  else Needed(Adjust(base, sgn), High(off, maxoff)))
      && (sgn' == sgn <==> OneAdd(High(off, maxoff)) || !OneAdd(Up(off, maxoff)))
  {
    hide Fits, Untouched, IsNegative, Mode, Low, High, Up, Excess, Address, Adjust, Class, Template, Possible, Does;
    hide Computes, Moves, SameAddress;
    ghost var before, start := t.data, t.ind;
    base', off', sgn' := base, off, sgn;
    UntouchedFits(off, maxoff, low);
    hide OneAdd, Needed, RotatedByte;
    if Untouched(off, maxoff, low) {
      Starts(t);
      ws := [];
      Nothing(base, off, sgn);
      return;
    }
    var x := Adjust(base, sgn);
    AdjustFields(base, sgn, x);
    AdderForms(x, High(off, maxoff));
    AdderForms(x, Up(off, maxoff));
    OneAddIs(High(off, maxoff));
    OneAddIs(Up(off, maxoff));
    base' := LR;
    var y := StuffConst(x, High(off, maxoff));
    if y != 0 {
      PutAllOne(before, start, y);
      t.O(y);
      FirstWord(x, y, High(off, maxoff));
      ws := [y];
      ComputesMoves(ws, base, sgn, x, High(off, maxoff));
      MovedLow(ws, base, off, sgn, maxoff);
      LowFits(off, maxoff, low);
      off' := Low(off, maxoff);
      return;
    }
    y := StuffConst(x, Up(off, maxoff));
    if y != 0 {
      PutAllOne(before, start, y);
      t.O(y);
      FirstWord(x, y, Up(off, maxoff));
      ws := [y];
      ComputesMoves(ws, base, sgn, x, Up(off, maxoff));
      MovedUp(ws, base, off, sgn, maxoff);
      ExcessFits(off, maxoff, low);
      sgn' := !sgn;
      off' := Excess(off, maxoff);
      return;
    }
    ws := StuffConstHarder(t, x, High(off, maxoff));
    ComputesMoves(ws, base, sgn, x, High(off, maxoff));
    MovedLow(ws, base, off, sgn, maxoff);
    LowFits(off, maxoff, low);
    off' := Low(off, maxoff);
  }

  lemma Nothing(base: bv32, off: bv32, sgn: bool)
    ensures SameAddress([], base, off, sgn, base, off, sgn)
  {
  }
}
