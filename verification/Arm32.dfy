/** The data-processing instructions of 32-bit ARM that the generator emits
    for constants (ARMv7-A Architecture Reference Manual, DDI 0406, section
    A5.2): decoding of a word and its effect on the registers. */
module Arm32 {

  /** The register number rn, rd and the class (opcode and S bit) of a word. */
  function Rn(w: bv32): bv32 {
    (w >> 16) & 15
  }

  function Rd(w: bv32): bv32 {
    (w >> 12) & 15
  }

  function Class(w: bv32): bv32 {
    w & 0x1f0_0000
  }

  const AND: bv32 := 0
  const EOR: bv32 := 0x20_0000
  const SUB: bv32 := 0x40_0000
  const RSB: bv32 := 0x60_0000
  const ADD: bv32 := 0x80_0000
  const ORR: bv32 := 0x180_0000
  const MOV: bv32 := 0x1a0_0000
  const BIC: bv32 := 0x1c0_0000
  const MVN: bv32 := 0x1e0_0000

  /** ROR(b, r), for r < 32. */
  function Ror(b: bv32, r: bv32): bv32
    requires r < 32
  {
    if r == 0 then b else (b >> r) | (b << (32 - r))
  }

  /** The modified immediate constant of a word. */
  function Operand(w: bv32): bv32 {
    Ror(w & 255, (w >> 7) & 30)
  }

  predicate IsImmediate(w: bv32) {
    w & 0xe00_0000 == 0x200_0000
  }

  function Plus(a: bv32, b: bv32): bv32 {
    a + b
  }

  function Minus(a: bv32, b: bv32): bv32 {
    a - b
  }

  /** The result of an operation. The carry-dependent ones, the comparisons
      and those that set the flags are not modelled. */
  function Value(class_: bv32, n: bv32, x: bv32): bv32 {
    if class_ == AND then n & x
    else if class_ == EOR then n ^ x
    else if class_ == SUB then Minus(n, x)
    else if class_ == RSB then x - n
    else if class_ == ADD then Plus(n, x)
    else if class_ == ORR then n | x
    else if class_ == MOV then x
    else if class_ == BIC then n & !x
    else if class_ == MVN then !x
    else 0
  }

  type Regs = bv32 -> bv32

  function Set(s: Regs, r: bv32, v: bv32): Regs {
    (q: bv32) => if q == r then v else s(q)
  }

  /** The effect of one word. */
  function Exec(w: bv32, s: Regs): Regs {
    Set(s, Rd(w), Value(Class(w), s(Rn(w)), if IsImmediate(w) then Operand(w) else s(w & 15)))
  }

  function Run(ws: seq<bv32>, s: Regs): Regs {
    if ws == [] then s else Exec(ws[|ws| - 1], Run(ws[..|ws| - 1], s))
  }

  lemma RunNext(ws: seq<bv32>, w: bv32, s: Regs)
    ensures Run(ws + [w], s) == Exec(w, Run(ws, s))
  {
    hide Exec;
    assert (ws + [w])[..|ws|] == ws;
  }

  // ----- words as they are known -----

  /** `add r0, r1, #1`, `sub r0, r1, #1`, `rsb r0, r1, #1` and
      `mov r0, #0xff000000`; no other register changes. */
  lemma KnownSums(s: Regs, q: bv32)
    ensures Exec(0xe281_0001, s)(q) == if q == 0 then s(1) + 1 else s(q)
    ensures Exec(0xe241_0001, s)(q) == if q == 0 then s(1) - 1 else s(q)
    ensures Exec(0xe261_0001, s)(q) == if q == 0 then 1 - s(1) else s(q)
    ensures Exec(0xe3a0_04ff, s)(q) == if q == 0 then 0xff00_0000 else s(q)
  {
  }

  /** `and r0, r1, #255`, `orr r0, r1, #4`, `eor r0, r1, #1`, `bic r0, r1, #1`
      and `mvn r0, r1`, for one value of r1. */
  lemma KnownLogic(s: Regs)
    requires s(1) == 0x1f3
    ensures Exec(0xe201_00ff, s)(0) == 0xf3 && Exec(0xe381_0004, s)(0) == 0x1f7
    ensures Exec(0xe221_0001, s)(0) == 0x1f2 && Exec(0xe3c1_0001, s)(0) == 0x1f2
    ensures Exec(0xe1e0_0001, s)(0) == 0xffff_fe0c
  {
  }

  /** `mov r0, r0` changes nothing. */
  lemma KnownNop(s: Regs, q: bv32)
    ensures Exec(0xe1a0_0000, s)(q) == s(q)
  {
  }
}
