/** Constants in the 32-bit ARM generator: `stuff_const`, `stuff_const_harder`
    and `calcaddr`. */
module ArmConst {
  import opened Arm32
  import opened Text

  // ----- rotated bytes -----

  predicate Even(i: bv32) {
    i < 32 && i & 1 == 0
  }

  /** c is a byte rotated right by i: it lies in the window 0xff ROR i. */
  predicate FitsAt(c: bv32, i: bv32)
    requires i < 32
  {
    if i == 0 then c < 256 else c & !((0xff >> i) | (0xff << (32 - i))) == 0
  }

  ghost predicate Encodable(c: bv32) {
    exists i: bv32 :: Even(i) && FitsAt(c, i)
  }

  /** The instruction op with c in its immediate field, rotated by i. */
  function Encoded(op: bv32, c: bv32, i: bv32): bv32
    requires i < 32
  {
    if i == 0 then op | c else op | (i << 7) | (c << i) | (c >> (32 - i))
  }

  lemma Rotated(c: bv32, i: bv32, b: bv32)
    requires 2 <= i < 32 && c & !((0xff >> i) | (0xff << (32 - i))) == 0 && b == (c << i) | (c >> (32 - i))
    ensures b < 256 && (b >> i) | (b << (32 - i)) == c
  {
  }

  /** x is the immediate field with the byte b and the rotation i; w is op with it. */
  predicate HasField(w: bv32, op: bv32, x: bv32, i: bv32, b: bv32) {
    w == op | x && x == (i << 7) | b && b < 256
  }

  lemma FieldParts(w: bv32, op: bv32, x: bv32, i: bv32, b: bv32)
    requires HasField(w, op, x, i, b) && op & 0xfff == 0 && i & 1 == 0 && i < 32
    ensures (w >> 7) & 30 == i && w & 255 == b
  {
  }

  lemma FieldSmall(w: bv32, op: bv32, x: bv32, i: bv32, b: bv32)
    requires HasField(w, op, x, i, b) && i & 1 == 0 && i < 32
    ensures Joined(w, op, x)
  {
  }

  /** w is op with the low twelve bits x. */
  predicate Joined(w: bv32, op: bv32, x: bv32) {
    x < 0x1000 && w == op | x
  }

  lemma SameRn(w: bv32, op: bv32, x: bv32)
    requires Joined(w, op, x)
    ensures Rn(w) == Rn(op)
  {
  }

  lemma SameRd(w: bv32, op: bv32, x: bv32)
    requires Joined(w, op, x)
    ensures Rd(w) == Rd(op)
  {
  }

  lemma SameClass(w: bv32, op: bv32, x: bv32)
    requires Joined(w, op, x)
    ensures Class(w) == Class(op)
  {
  }

  lemma SameCond(w: bv32, op: bv32, x: bv32)
    requires Joined(w, op, x)
    ensures w & 0xf000_0000 == op & 0xf000_0000
  {
  }

  lemma StillImmediate(w: bv32, op: bv32, x: bv32)
    requires Joined(w, op, x) && IsImmediate(op)
    ensures IsImmediate(w) && w != 0
  {
  }

  /** Two instructions that differ at most in the immediate field. */
  predicate SameBut(w: bv32, op: bv32) {
    Rn(w) == Rn(op) && Rd(w) == Rd(op) && Class(w) == Class(op) && w & 0xf000_0000 == op & 0xf000_0000
  }

  lemma OtherFields(w: bv32, op: bv32, x: bv32)
    requires Joined(w, op, x)
    ensures SameBut(w, op)
  {
    hide Joined, Rn, Rd, Class;
    SameRn(w, op, x);
    SameRd(w, op, x);
    SameClass(w, op, x);
    SameCond(w, op, x);
  }

  lemma RorIs(b: bv32, i: bv32, c: bv32)
    requires 2 <= i < 32 && (b >> i) | (b << (32 - i)) == c
    ensures Ror(b, i) == c
  {
  }

  lemma OperandIs(w: bv32, b: bv32, i: bv32)
    requires i < 32 && (w >> 7) & 30 == i && w & 255 == b
    ensures Operand(w) == Ror(b, i)
  {
    hide Ror;
  }

  lemma RotatedField(op: bv32, c: bv32, i: bv32, w: bv32) returns (x: bv32, b: bv32)
    requires i != 0 && Even(i) && FitsAt(c, i) && w == Encoded(op, c, i)
    ensures HasField(w, op, x, i, b) && Ror(b, i) == c
  {
    hide Ror;
    AtLeastTwo(i);
    b := (c << i) | (c >> (32 - i));
    x := (i << 7) | b;
    Rotated(c, i, b);
    RorIs(b, i, c);
  }

  lemma PlainField(op: bv32, c: bv32, w: bv32)
    requires FitsAt(c, 0) && w == Encoded(op, c, 0)
    ensures HasField(w, op, c, 0, c)
  {
  }

  lemma LowClear(op: bv32)
    requires Template(op)
    ensures op & 0xfff == 0 && IsImmediate(op)
  {
  }

  lemma EvenIs(i: bv32)
    requires Even(i)
    ensures i & 1 == 0 && i < 32
  {
  }

  /** The immediate operand reads back as c, and no other field changes. */
  lemma EncodedReads(op: bv32, c: bv32, i: bv32, w: bv32)
    requires Even(i) && FitsAt(c, i) && Template(op) && w == Encoded(op, c, i)
    ensures Operand(w) == c && SameBut(w, op) && IsImmediate(w) && w != 0
  {
    hide *;
    var x, b := c, c;
    if i == 0 {
      PlainField(op, c, w);
      RorZero(c);
    } else {
      x, b := RotatedField(op, c, i, w);
    }
    EvenIs(i);
    LowClear(op);
    FieldParts(w, op, x, i, b);
    OperandIs(w, b, i);
    FieldSmall(w, op, x, i, b);
    OtherFields(w, op, x);
    StillImmediate(w, op, x);
  }

  lemma RorZero(c: bv32)
    ensures Ror(c, 0) == c
  {
  }

  lemma AtLeastTwo(i: bv32)
    requires i & 1 == 0 && i != 0
    ensures 2 <= i
  {
  }

  // ----- stuff_const -----

  /** An instruction with an empty immediate field. */
  predicate Template(op: bv32) {
    op & 0xfff == 0 && IsImmediate(op)
  }

  /** Executing w does what op with the constant c would do. */
  ghost predicate Does(w: bv32, op: bv32, c: bv32) {
    && w & 0xf000_0000 == op & 0xf000_0000
    && forall s: Regs, q: bv32 :: Exec(w, s)(q) == if q == Rd(op) then Value(Class(op), s(Rn(op)), c) else s(q)
  }

  /** The operation that does the same with the negated or inverted constant. */
  predicate HasOpposite(op: bv32) {
    Class(op) in {ADD, SUB, MOV, MVN, AND, BIC}
  }

  function Opposite(op: bv32): bv32 {
    if Class(op) == ADD || Class(op) == SUB then op ^ 0xc0_0000
    else if Class(op) == MOV || Class(op) == MVN then op ^ 0x40_0000
    else op ^ 0x1c0_0000
  }

  function Turned(op: bv32, c: bv32): bv32 {
    if Class(op) == ADD || Class(op) == SUB then 0 - c else !c
  }

  /** All bits set, for an operation that has a shorter form then. */
  predicate Special(op: bv32, c: bv32) {
    c == 0xffff_ffff && Class(op) in {EOR, AND, ORR}
  }

  function SpecialWord(op: bv32): bv32 {
    if Class(op) == EOR then (op & 0xf010_f000) | ((op >> 16) & 15) | 0x1e0_0000
    else if Class(op) == AND then (op & 0xf010_f000) | ((op >> 16) & 15) | 0x1a0_0000
    else (op & 0xfff0_ffff) | 0x1e0_0000
  }

  /** Some form of the instruction exists. */
  ghost predicate Possible(op: bv32, c: bv32) {
    Special(op, c) || Encodable(c) || (HasOpposite(op) && Encodable(Turned(op, c)))
  }

  lemma Straight(op: bv32, c: bv32, i: bv32, w: bv32)
    requires Template(op) && Even(i) && FitsAt(c, i) && w == Encoded(op, c, i)
    ensures Does(w, op, c) && w != 0
  {
    hide *;
    EncodedReads(op, c, i, w);
    DoesIt(w, op, c);
  }

  lemma DoesIt(w: bv32, op: bv32, c: bv32)
    requires SameBut(w, op) && IsImmediate(w) && Operand(w) == c
    ensures Does(w, op, c)
  {
    hide Value, Operand, Rn, Rd, Class, IsImmediate;
  }

  lemma OppositeFields(op: bv32)
    requires Template(op) && HasOpposite(op)
    ensures Template(Opposite(op)) && Rn(Opposite(op)) == Rn(op) && Rd(Opposite(op)) == Rd(op)
    ensures Opposite(op) & 0xf000_0000 == op & 0xf000_0000
    ensures Class(Opposite(op)) ==
      if Class(op) == ADD then SUB else if Class(op) == SUB then ADD else if Class(op) == MOV then MVN
      else if Class(op) == MVN then MOV else if Class(op) == AND then BIC else AND
  {
  }

  lemma NegatedSum(n: bv32, c: bv32, m: bv32)
    requires m == 0 - c
    ensures Value(SUB, n, m) == Value(ADD, n, c) && Value(ADD, n, m) == Value(SUB, n, c)
  {
  }

  lemma InvertedMove(n: bv32, c: bv32, m: bv32)
    requires m == !c
    ensures Value(MVN, n, m) == Value(MOV, n, c) && Value(MOV, n, m) == Value(MVN, n, c)
  {
  }

  lemma InvertedMask(n: bv32, c: bv32, m: bv32)
    requires m == !c
    ensures Value(BIC, n, m) == Value(AND, n, c) && Value(AND, n, m) == Value(BIC, n, c)
  {
  }

  lemma OppositeValue(op: bv32, n: bv32, c: bv32)
    requires HasOpposite(op) && Class(Opposite(op)) ==
      if Class(op) == ADD then SUB else if Class(op) == SUB then ADD else if Class(op) == MOV then MVN
      else if Class(op) == MVN then MOV else if Class(op) == AND then BIC else AND
    ensures Value(Class(Opposite(op)), n, Turned(op, c)) == Value(Class(op), n, c)
  {
    hide Class, Opposite, Value;
    var m := Turned(op, c);
    if Class(op) == ADD || Class(op) == SUB {
      NegatedSum(n, c, m);
    } else {
      InvertedMove(n, c, m);
      InvertedMask(n, c, m);
    }
  }

  /** The opposite operation with the turned constant does the same. */
  lemma TurnedDoes(w: bv32, op: bv32, c: bv32)
    requires Template(op) && HasOpposite(op) && Does(w, Opposite(op), Turned(op, c))
    ensures Does(w, op, c)
  {
    OppositeFields(op);
    hide Value, Rn, Rd, Class, Opposite, Turned, HasOpposite, Exec;
    forall s: Regs, q: bv32 ensures Exec(w, s)(q) == if q == Rd(op) then Value(Class(op), s(Rn(op)), c) else s(q) {
      OppositeValue(op, s(Rn(op)), c);
    }
  }

  lemma SpecialFields(op: bv32)
    requires Template(op) && Class(op) in {EOR, AND, ORR}
    ensures var w := SpecialWord(op);
      && w != 0 && Rd(w) == Rd(op) && w & 0xf000_0000 == op & 0xf000_0000
      && (Class(op) == EOR ==> Class(w) == MVN && !IsImmediate(w) && w & 15 == Rn(op))
      && (Class(op) == AND ==> Class(w) == MOV && !IsImmediate(w) && w & 15 == Rn(op))
      && (Class(op) == ORR ==> Class(w) == MVN && IsImmediate(w) && Operand(w) == 0)
  {
  }

  lemma AllOnes(n: bv32)
    ensures n ^ 0xffff_ffff == !n && n & 0xffff_ffff == n && n | 0xffff_ffff == !(0 as bv32)
  {
  }

  lemma SpecialValues(n: bv32)
    ensures Value(MVN, n, n) == Value(EOR, n, 0xffff_ffff)
    ensures Value(MOV, n, n) == Value(AND, n, 0xffff_ffff)
    ensures Value(MVN, n, 0) == Value(ORR, n, 0xffff_ffff)
    ensures forall m: bv32, x: bv32 :: Value(MVN, m, x) == Value(MVN, n, x) && Value(MOV, m, x) == Value(MOV, n, x)
  {
    AllOnes(n);
  }

  lemma SpecialDoes(op: bv32, w: bv32)
    requires Template(op) && Class(op) in {EOR, AND, ORR} && w == SpecialWord(op)
    ensures Does(w, op, 0xffff_ffff) && w != 0
  {
    SpecialFields(op);
    hide Operand, Rn, Rd, Class, IsImmediate, SpecialWord, Value;
    forall s: Regs, q: bv32
      ensures Exec(w, s)(q) == if q == Rd(op) then Value(Class(op), s(Rn(op)), 0xffff_ffff) else s(q)
    {
      SpecialValues(s(Rn(op)));
    }
  }

  /** None of the windows below i takes c. */
  ghost predicate NoneBelow(c: bv32, i: bv32) {
    forall j: bv32 :: Even(j) && j < i ==> !FitsAt(c, j)
  }

  lemma NoneStart(c: bv32)
    requires c >= 256
    ensures NoneBelow(c, 2)
  {
    forall j: bv32 | Even(j) && j < 2 ensures !FitsAt(c, j) {
      OnlyZero(j);
    }
  }

  lemma OnlyZero(j: bv32)
    requires j & 1 == 0 && j < 2
    ensures j == 0
  {
  }

  lemma NoneNext(c: bv32, i: bv32)
    requires Even(i) && NoneBelow(c, i) && !FitsAt(c, i)
    ensures NoneBelow(c, i + 2)
  {
    hide FitsAt;
    forall j: bv32 | Even(j) && j < i + 2 ensures !FitsAt(c, j) {
      EvenBelow(i, j);
    }
  }

  lemma EvenBelow(i: bv32, j: bv32)
    requires i < 32 && i & 1 == 0 && j & 1 == 0 && j < i + 2
    ensures j < i || j == i
  {
  }

  lemma NextEven(i: bv32)
    requires i < 32 && i & 1 == 0
    ensures Even(i) && i < i + 2 <= 32 && (i + 2) & 1 == 0
  {
  }

  lemma NoneAtAll(c: bv32)
    requires NoneBelow(c, 32)
    ensures !Encodable(c)
  {
    hide FitsAt;
  }

  lemma SomeWindow(c: bv32, i: bv32)
    requires Even(i) && FitsAt(c, i)
    ensures Encodable(c)
  {
  }

  lemma SmallFits(c: bv32)
    requires c < 256
    ensures Even(0) && FitsAt(c, 0)
  {
  }

  /** One round of the search over the windows. */
  method FindWindow(op: bv32, c: bv32) returns (w: bv32)
    requires Template(op)
    ensures w != 0 ==> Does(w, op, c)
    ensures w != 0 <==> Encodable(c)
  {
    hide *;
    if c < 256 {
      SmallFits(c);
      w := Encoded(op, c, 0);
      Straight(op, c, 0, w);
      SomeWindow(c, 0);
      return;
    }
    NoneStart(c);
    var i: bv32 := 2;
    while i < 32
      invariant 2 <= i <= 32 && i & 1 == 0 && NoneBelow(c, i)
      decreases 32 - i
    {
      NextEven(i);
      if FitsAt(c, i) {
        w := Encoded(op, c, i);
        Straight(op, c, i, w);
        SomeWindow(c, i);
        return;
      }
      NoneNext(c, i);
      i := i + 2;
    }
    assert i == 32;
    NoneAtAll(c);
    w := 0;
  }

  /** `stuff_const`: an instruction that does what op with the constant c
      would do, or 0 when no form of it exists. */
  method StuffConst(op: bv32, c: bv32) returns (w: bv32)
    requires Template(op)
    ensures w != 0 ==> Does(w, op, c)
    ensures w != 0 <==> Possible(op, c)
  {
    hide Template, Does, Encodable, Class, SpecialWord, Opposite, Turned;
    if Special(op, c) {
      w := SpecialWord(op);
      SpecialDoes(op, w);
      return;
    }
    w := FindWindow(op, c);
    if w == 0 && HasOpposite(op) {
      OppositeFields(op);
      w := FindWindow(Opposite(op), Turned(op, c));
      if w != 0 {
        TurnedDoes(w, op, c);
      }
    }
  }

  // ----- windows that cover a constant -----

  /** The i-th of the sixteen windows. */
  function Slot(i: bv32): bv32
    requires i < 16
  {
    if i == 0 then 0xff else (0xff >> (i + i)) | (0xff << (32 - (i + i)))
  }

  /** The table of the source is built by rotating the first window. */
  lemma SlotsRotate(i: bv32, a: bv32)
    requires i < 15 && a == Slot(i)
    ensures Slot(i + 1) == (a >> 2) | (a << 30)
  {
  }

  /** The bits of a and of b; disjoint bits; bits that lie within m. */
  function Both(a: bv32, b: bv32): bv32 {
    a | b
  }

  predicate Disjoint(a: bv32, b: bv32) {
    a & b == 0
  }

  predicate Within(v: bv32, m: bv32) {
    v & m == v
  }

  /** Windows four to twelve places apart have no common bit. */
  predicate Spread(i: bv32, j: bv32) {
    i < 16 && j < 16 && i + 4 <= j && j <= i + 12
  }

  lemma SpreadDisjoint(i: bv32, j: bv32, a: bv32, b: bv32)
    requires Spread(i, j) && a == Slot(i) && b == Slot(j)
    ensures Disjoint(a, b)
  {
  }

  lemma TwoParts(v: bv32, a: bv32, b: bv32)
    requires a & b == 0 && v & (a | b) == v
    ensures (v & a) + (v & b) == v
  {
  }

  lemma PartFits(v: bv32, i: bv32, a: bv32)
    requires i < 16 && a == Slot(i)
    ensures Even(i + i) && FitsAt(v & a, i + i)
  {
  }

  // ----- searching for windows -----

  predicate Covers2(v: bv32, a: bv32, b: bv32) {
    v & (a | b) == v
  }

  predicate Covers3(v: bv32, a: bv32, b: bv32, c: bv32) {
    v & (a | b | c) == v
  }

  predicate IsPair(v: bv32, i: bv32, j: bv32) {
    Spread(i, j) && Covers2(v, Slot(i), Slot(j))
  }

  predicate Triad(i: bv32, j: bv32, k: bv32) {
    i < 16 && j < 16 && k < 16 && i + 4 <= j && j + 4 <= k && k <= i + 12
  }

  predicate IsTriple(v: bv32, i: bv32, j: bv32, k: bv32) {
    Triad(i, j, k) && Covers3(v, Slot(i), Slot(j), Slot(k))
  }

  /** Two, or three, windows cover v. */
  ghost predicate HasPair(v: bv32) {
    exists i: bv32, j: bv32 :: IsPair(v, i, j)
  }

  ghost predicate HasTriple(v: bv32) {
    exists i: bv32, j: bv32, k: bv32 :: IsTriple(v, i, j, k)
  }

  /** Where the inner loops start. */
  function Top(i: bv32): bv32 {
    if i < 4 then i + 12 else 15
  }

  lemma SpreadBounds(i: bv32, j: bv32)
    requires i < 12
    ensures Spread(i, j) <==> i + 4 <= j && j <= Top(i)
    ensures Top(i) < 16 && i + 4 <= Top(i)
  {
  }

  lemma SpreadStarts(i: bv32, j: bv32)
    requires Spread(i, j)
    ensures i < 12
  {
  }

  lemma TriadGives(i: bv32, j: bv32, k: bv32)
    requires Triad(i, j, k)
    ensures i < 8 && i + 4 <= j && j < 12 && j + 4 <= k && k <= Top(i) && k < 16
  {
  }

  lemma TriadBounds(i: bv32, j: bv32, k: bv32)
    ensures Triad(i, j, k) ==> i < 8 && i + 4 <= j && j < 12 && j + 4 <= k && k <= Top(i) && k < 16
    ensures i < 8 ==> Top(i) < 16
  {
    hide Triad;
    if Triad(i, j, k) {
      TriadGives(i, j, k);
    }
  }

  lemma TriadSpread(i: bv32, j: bv32, k: bv32)
    requires Triad(i, j, k)
    ensures Spread(i, j) && Spread(i, k) && Spread(j, k)
  {
  }

  /** No pair starts below i; none starts at i with a second window above j. */
  ghost predicate NoPairBelow(v: bv32, i: bv32) {
    forall p: bv32, q: bv32 :: p < i ==> !IsPair(v, p, q)
  }

  ghost predicate NoPairAbove(v: bv32, i: bv32, j: bv32) {
    forall q: bv32 :: j < q && q < 16 ==> !IsPair(v, i, q)
  }

  method FindPair(v: bv32) returns (found: bool, i: bv32, j: bv32)
    ensures found <==> HasPair(v)
    ensures found ==> IsPair(v, i, j)
  {
    hide *;
    i, j, found := 0, 0, false;
    PairsStart(v);
    while i < 12
      invariant i <= 12 && NoPairBelow(v, i)
      decreases 12 - i
    {
      SpreadBounds(i, 0);
      j := Top(i);
      PairsTop(v, i, j);
      while j >= i + 4
        invariant i + 3 <= j && j <= Top(i) && j < 16 && NoPairAbove(v, i, j)
        decreases j
      {
        PairIs(v, i, j);
        if Covers2(v, Slot(i), Slot(j)) {
          found := true;
          PairFound(v, i, j);
          return;
        }
        PairsDown(v, i, j);
        j := j - 1;
      }
      PairsNext(v, i, j);
      i := i + 1;
    }
    PairsEnd(v, i);
  }

  lemma PairIs(v: bv32, i: bv32, j: bv32)
    requires i < 12 && i + 4 <= j && j <= Top(i) && j < 16
    ensures IsPair(v, i, j) <==> Covers2(v, Slot(i), Slot(j))
  {
    hide Covers2, Slot, Spread, Top;
    SpreadBounds(i, j);
  }

  lemma PairsStart(v: bv32)
    ensures NoPairBelow(v, 0)
  {
  }

  lemma PairsTop(v: bv32, i: bv32, j: bv32)
    requires i < 12 && j == Top(i)
    ensures NoPairAbove(v, i, j)
  {
    hide Covers2, Slot, Spread, Top;
    forall q: bv32 | j < q && q < 16 ensures !IsPair(v, i, q) {
      SpreadBounds(i, q);
    }
  }

  lemma PairsDown(v: bv32, i: bv32, j: bv32)
    requires NoPairAbove(v, i, j) && !IsPair(v, i, j) && 0 < j && j < 16
    ensures NoPairAbove(v, i, j - 1)
  {
    hide IsPair;
    forall q: bv32 | j - 1 < q && q < 16 ensures !IsPair(v, i, q) {
      AboveBelow(j, q);
    }
  }

  lemma AboveBelow(j: bv32, q: bv32)
    requires 0 < j && j < 16 && q < 16 && j - 1 < q
    ensures j < q || j == q
  {
  }

  lemma PairsNext(v: bv32, i: bv32, j: bv32)
    requires NoPairBelow(v, i) && NoPairAbove(v, i, j) && i < 12 && j < i + 4 && j < 16
    ensures NoPairBelow(v, i + 1)
  {
    hide Covers2, Slot, Spread;
    forall p: bv32, q: bv32 | p < i + 1 ensures !IsPair(v, p, q) {
      BelowNext(i, p);
      if p == i && IsPair(v, p, q) {
        SpreadBounds(i, q);
        Between(i, j, q);
      }
    }
  }

  lemma BelowNext(i: bv32, p: bv32)
    requires p < i + 1 && i < 16
    ensures p < i || p == i
  {
  }

  lemma Between(i: bv32, j: bv32, q: bv32)
    requires i < 16 && j < i + 4 && i + 4 <= q
    ensures j < q
  {
  }

  lemma PairFound(v: bv32, i: bv32, j: bv32)
    requires IsPair(v, i, j)
    ensures HasPair(v)
  {
  }

  lemma PairsEnd(v: bv32, i: bv32)
    requires NoPairBelow(v, i) && i >= 12
    ensures !HasPair(v)
  {
    hide Covers2, Slot, Spread;
    forall p: bv32, q: bv32 ensures !IsPair(v, p, q) {
      if IsPair(v, p, q) {
        SpreadStarts(p, q);
      }
    }
  }

  ghost predicate NoTripleBelow(v: bv32, i: bv32) {
    forall p: bv32, q: bv32, r: bv32 :: p < i ==> !IsTriple(v, p, q, r)
  }

  ghost predicate NoTripleAt(v: bv32, i: bv32, j: bv32) {
    forall q: bv32, r: bv32 :: q < j ==> !IsTriple(v, i, q, r)
  }

  ghost predicate NoTripleAbove(v: bv32, i: bv32, j: bv32, k: bv32) {
    forall r: bv32 :: k < r && r < 16 ==> !IsTriple(v, i, j, r)
  }

  method FindTriple(v: bv32) returns (found: bool, i: bv32, j: bv32, k: bv32)
    ensures found <==> HasTriple(v)
    ensures found ==> IsTriple(v, i, j, k)
  {
    hide *;
    i, j, k, found := 0, 0, 0, false;
    TriplesStart(v);
    while i < 8
      invariant i <= 8 && NoTripleBelow(v, i)
      decreases 8 - i
    {
      j := i + 4;
      TriplesAtStart(v, i);
      while j < 12
        invariant i + 4 <= j && j <= 12 && NoTripleAt(v, i, j)
        decreases 12 - j
      {
        k := Top(i);
        TriadBounds(i, 0, 0);
        TriplesTop(v, i, j, k);
        while k >= j + 4
          invariant k <= Top(i) && k < 16 && NoTripleAbove(v, i, j, k)
          decreases k
        {
          TripleIs(v, i, j, k);
          if Covers3(v, Slot(i), Slot(j), Slot(k)) {
            found := true;
            TripleFound(v, i, j, k);
            return;
          }
          TriplesDown(v, i, j, k);
          k := k - 1;
        }
        TriplesNextAt(v, i, j, k);
        j := j + 1;
      }
      TriplesNext(v, i, j);
      i := i + 1;
    }
    TriplesEnd(v, i);
  }

  lemma TripleIs(v: bv32, i: bv32, j: bv32, k: bv32)
    requires i < 8 && i + 4 <= j && j < 12 && j + 4 <= k && k <= Top(i) && k < 16
    ensures IsTriple(v, i, j, k) <==> Covers3(v, Slot(i), Slot(j), Slot(k))
  {
    hide Covers3, Slot, Triad, Top;
    TriadFrom(i, j, k);
  }

  lemma TriadFrom(i: bv32, j: bv32, k: bv32)
    requires i < 8 && i + 4 <= j && j < 12 && j + 4 <= k && k <= Top(i) && k < 16
    ensures Triad(i, j, k)
  {
  }

  lemma TriplesStart(v: bv32)
    ensures NoTripleBelow(v, 0)
  {
  }

  lemma TriplesAtStart(v: bv32, i: bv32)
    requires i < 8
    ensures NoTripleAt(v, i, i + 4)
  {
    hide Covers3, Slot, Triad;
    forall q: bv32, r: bv32 | q < i + 4 ensures !IsTriple(v, i, q, r) {
      TriadBounds(i, q, r);
    }
  }

  lemma TriplesTop(v: bv32, i: bv32, j: bv32, k: bv32)
    requires k == Top(i)
    ensures NoTripleAbove(v, i, j, k)
  {
    hide Covers3, Slot, Triad, Top;
    forall r: bv32 | k < r && r < 16 ensures !IsTriple(v, i, j, r) {
      TriadBounds(i, j, r);
    }
  }

  lemma TriplesDown(v: bv32, i: bv32, j: bv32, k: bv32)
    requires NoTripleAbove(v, i, j, k) && !IsTriple(v, i, j, k) && 0 < k && k < 16
    ensures NoTripleAbove(v, i, j, k - 1)
  {
    hide IsTriple;
    forall r: bv32 | k - 1 < r && r < 16 ensures !IsTriple(v, i, j, r) {
      AboveBelow(k, r);
    }
  }

  lemma TriplesNextAt(v: bv32, i: bv32, j: bv32, k: bv32)
    requires NoTripleAt(v, i, j) && NoTripleAbove(v, i, j, k) && j < 12 && k < j + 4
    ensures NoTripleAt(v, i, j + 1)
  {
    hide Covers3, Slot, Triad;
    forall q: bv32, r: bv32 | q < j + 1 ensures !IsTriple(v, i, q, r) {
      BelowNext(j, q);
      if q == j && IsTriple(v, i, q, r) {
        TriadBounds(i, j, r);
        Between(j, k, r);
      }
    }
  }

  lemma TriplesNext(v: bv32, i: bv32, j: bv32)
    requires NoTripleBelow(v, i) && NoTripleAt(v, i, j) && i < 8 && j >= 12
    ensures NoTripleBelow(v, i + 1)
  {
    hide Covers3, Slot, Triad;
    forall p: bv32, q: bv32, r: bv32 | p < i + 1 ensures !IsTriple(v, p, q, r) {
      BelowNext(i, p);
      if p == i && IsTriple(v, p, q, r) {
        TriadBounds(i, q, r);
      }
    }
  }

  lemma TripleFound(v: bv32, i: bv32, j: bv32, k: bv32)
    requires IsTriple(v, i, j, k)
    ensures HasTriple(v)
  {
  }

  lemma TriplesEnd(v: bv32, i: bv32)
    requires NoTripleBelow(v, i) && i >= 8
    ensures !HasTriple(v)
  {
    hide Covers3, Slot, Triad;
    forall p: bv32, q: bv32, r: bv32 ensures !IsTriple(v, p, q, r) {
      if IsTriple(v, p, q, r) {
        TriadBounds(p, q, r);
      }
    }
  }

  // ----- stuff_const_harder -----

  /** The register that an addition or subtraction leaves its result in. */
  predicate Adder(op: bv32) {
    Template(op) && (Class(op) == ADD || Class(op) == SUB)
  }

  /** The same operation on its own result: `o2`. */
  function Chained(op: bv32): bv32 {
    (op & 0xfff0_ffff) | ((op & 0xf000) << 4)
  }

  lemma ChainedFields(op: bv32)
    requires Template(op)
    ensures Template(Chained(op)) && Rn(Chained(op)) == Rd(op) && Rd(Chained(op)) == Rd(op) &&
      Class(Chained(op)) == Class(op)
  {
  }

  /** Executing ws leaves in Rd what op with the constant v would leave, and
      changes no other register. */
  ghost predicate Computes(ws: seq<bv32>, op: bv32, v: bv32) {
    forall s: Regs, q: bv32 :: Run(ws, s)(q) == if q == Rd(op) then Value(Class(op), s(Rn(op)), v) else s(q)
  }

  lemma FirstWord(op: bv32, w: bv32, x: bv32)
    requires Does(w, op, x)
    ensures Computes([w], op, x)
  {
    hide Exec, Value, Rn, Rd, Class;
    assert [] + [w] == [w];
    forall s: Regs, q: bv32 ensures Run([w], s)(q) == if q == Rd(op) then Value(Class(op), s(Rn(op)), x) else s(q) {
      RunNext([], w, s);
    }
  }

  lemma PlusIs(a: bv32, b: bv32)
    ensures Plus(a, b) == a + b && Minus(a, b) == a - b
  {
  }

  lemma Reassociates(n: bv32, x: bv32, y: bv32)
    ensures Plus(n + x, y) == Plus(n, x + y) && Minus(n - x, y) == Minus(n, x + y)
  {
  }

  lemma PlusTwice(n: bv32, x: bv32, y: bv32)
    ensures Plus(Plus(n, x), y) == Plus(n, Plus(x, y)) && Minus(Minus(n, x), y) == Minus(n, Plus(x, y))
  {
    hide *;
    PlusIs(n, x);
    PlusIs(x, y);
    Reassociates(n, x, y);
  }

  lemma Sums(n: bv32, x: bv32, y: bv32)
    ensures Value(ADD, Value(ADD, n, x), y) == Value(ADD, n, Plus(x, y))
    ensures Value(SUB, Value(SUB, n, x), y) == Value(SUB, n, Plus(x, y))
  {
    hide Plus, Minus;
    PlusTwice(n, x, y);
  }

  lemma NextWord(op: bv32, ws: seq<bv32>, w: bv32, x: bv32, y: bv32)
    requires Adder(op) && Computes(ws, op, x) && Does(w, Chained(op), y)
    ensures Computes(ws + [w], op, Plus(x, y))
  {
    ChainedFields(op);
    hide Exec, Value, Rn, Rd, Class, Chained, Plus, Template;
    forall s: Regs, q: bv32
      ensures Run(ws + [w], s)(q) == if q == Rd(op) then Value(Class(op), s(Rn(op)), Plus(x, y)) else s(q)
    {
      RunNext(ws, w, s);
      Sums(s(Rn(op)), x, y);
    }
  }

  function Part(v: bv32, a: bv32): bv32 {
    v & a
  }

  lemma PartPossible(op: bv32, v: bv32, i: bv32)
    requires i < 16
    ensures Possible(op, Part(v, Slot(i)))
  {
    var a := Slot(i);
    PartFits(v, i, a);
    SomeWindow(Part(v, a), i + i);
  }

  /** Emit op (or its chained form) with the bits of v in window i. */
  method EmitPart(t: Section, op: bv32, v: bv32, i: bv32, ghost before: seq<bv32>, ghost start: nat,
                  ghost ws: seq<bv32>) returns (ghost w: bv32)
    requires t.Valid() && t.Emitted(before, start, ws) && Template(op) && i < 16
    modifies t
    ensures t.Valid() && t.Emitted(before, start, ws + [w])
    ensures Does(w, op, Part(v, Slot(i)))
  {
    hide Template, Does, Possible, Slot, Part;
    PartPossible(op, v, i);
    var x := StuffConst(op, Part(v, Slot(i)));
    PutAllNext(before, start, ws, x);
    t.O(x);
    w := x;
  }

  lemma PartIs(v: bv32, a: bv32)
    ensures Part(v, a) == v & a
  {
  }

  lemma WithinBoth(v: bv32, a: bv32, b: bv32)
    requires Within(v, Both(a, b)) && Disjoint(a, b)
    ensures a & b == 0 && v & (a | b) == v
  {
  }

  lemma TwoSum(v: bv32, a: bv32, b: bv32)
    requires Disjoint(a, b) && Within(v, Both(a, b))
    ensures Plus(Part(v, a), Part(v, b)) == v
  {
    hide *;
    WithinBoth(v, a, b);
    TwoParts(v, a, b);
    PartIs(v, a);
    PartIs(v, b);
    PlusIs(v & a, v & b);
  }

  /** The parts of v in a and b are those of its part in both. */
  lemma PartOfLeft(v: bv32, a: bv32, b: bv32, u: bv32)
    requires u == v & (a | b)
    ensures Part(u, a) == Part(v, a)
  {
  }

  lemma PartOfRight(v: bv32, a: bv32, b: bv32, u: bv32)
    requires u == v & (a | b)
    ensures Part(u, b) == Part(v, b)
  {
  }

  lemma PartWithin(v: bv32, a: bv32, b: bv32, u: bv32)
    requires u == v & (a | b)
    ensures Within(u, Both(a, b)) && Part(v, Both(a, b)) == u
  {
  }

  lemma DisjointUnion(a: bv32, b: bv32, c: bv32)
    requires Disjoint(a, c) && Disjoint(b, c)
    ensures Disjoint(Both(a, b), c)
  {
  }

  lemma ThreeSum(v: bv32, a: bv32, b: bv32, c: bv32)
    requires Disjoint(a, b) && Disjoint(a, c) && Disjoint(b, c) && Within(v, Both(Both(a, b), c))
    ensures Plus(Plus(Part(v, a), Part(v, b)), Part(v, c)) == v
  {
    hide *;
    var u := v & (a | b);
    PartOfLeft(v, a, b, u);
    PartOfRight(v, a, b, u);
    PartWithin(v, a, b, u);
    TwoSum(u, a, b);
    DisjointUnion(a, b, c);
    TwoSum(v, Both(a, b), c);
  }

  lemma CoversWithin(v: bv32, a: bv32, b: bv32)
    requires Covers2(v, a, b)
    ensures Within(v, Both(a, b))
  {
  }

  lemma Covers3Within(v: bv32, a: bv32, b: bv32, c: bv32)
    requires Covers3(v, a, b, c)
    ensures Within(v, Both(Both(a, b), c))
  {
  }

  lemma PairIsSpread(v: bv32, i: bv32, j: bv32, a: bv32, b: bv32)
    requires IsPair(v, i, j) && a == Slot(i) && b == Slot(j)
    ensures Disjoint(a, b) && Within(v, Both(a, b))
  {
    hide Slot, Spread, Covers2, Disjoint, Within, Both;
    SpreadDisjoint(i, j, a, b);
    CoversWithin(v, a, b);
  }

  lemma PairSum(v: bv32, i: bv32, j: bv32)
    requires IsPair(v, i, j) && i < 16 && j < 16
    ensures Plus(Part(v, Slot(i)), Part(v, Slot(j))) == v
  {
    hide *;
    var a, b := Slot(i), Slot(j);
    PairIsSpread(v, i, j, a, b);
    TwoSum(v, a, b);
  }

  lemma TripleIsSpread(v: bv32, i: bv32, j: bv32, k: bv32, a: bv32, b: bv32, c: bv32)
    requires IsTriple(v, i, j, k) && a == Slot(i) && b == Slot(j) && c == Slot(k)
    ensures Disjoint(a, b) && Disjoint(a, c) && Disjoint(b, c) && Within(v, Both(Both(a, b), c))
  {
    hide Slot, Spread, Triad, Covers3, Disjoint, Within, Both;
    TriadSpread(i, j, k);
    SpreadDisjoint(i, j, a, b);
    SpreadDisjoint(i, k, a, c);
    SpreadDisjoint(j, k, b, c);
    Covers3Within(v, a, b, c);
  }

  lemma TripleSum(v: bv32, i: bv32, j: bv32, k: bv32)
    requires IsTriple(v, i, j, k) && i < 16 && j < 16 && k < 16
    ensures Plus(Plus(Part(v, Slot(i)), Part(v, Slot(j))), Part(v, Slot(k))) == v
  {
    hide *;
    var a, b, c := Slot(i), Slot(j), Slot(k);
    TripleIsSpread(v, i, j, k, a, b, c);
    ThreeSum(v, a, b, c);
  }

  lemma QuadSum(v: bv32)
    ensures Plus(Plus(Plus(Part(v, Slot(0)), Part(v, Slot(4))), Part(v, Slot(8))), Part(v, Slot(12))) == v
  {
    hide *;
    SlotBytes();
    var u := Part(v, 0xffff_00ff);
    BytesDisjoint();
    ThreeBytes(v, u);
    PartBelow(v, 0xffff_00ff, 0xff, u);
    PartBelow(v, 0xffff_00ff, 0xff00_0000, u);
    PartBelow(v, 0xffff_00ff, 0xff_0000, u);
    ThreeSum(u, 0xff, 0xff00_0000, 0xff_0000);
    LastByte(v);
    TwoSum(v, 0xffff_00ff, 0xff00);
  }

  lemma PartBelow(v: bv32, m: bv32, a: bv32, u: bv32)
    requires u == Part(v, m) && a & m == a
    ensures Part(u, a) == Part(v, a)
  {
  }

  lemma ThreeBytes(v: bv32, u: bv32)
    requires u == Part(v, 0xffff_00ff)
    ensures Within(u, Both(Both(0xff, 0xff00_0000), 0xff_0000))
  {
  }

  lemma BytesDisjoint()
    ensures Disjoint(0xff, 0xff00_0000) && Disjoint(0xff, 0xff_0000) && Disjoint(0xff00_0000, 0xff_0000)
    ensures (0xff as bv32) & 0xffff_00ff == 0xff && (0xff00_0000 as bv32) & 0xffff_00ff == 0xff00_0000
    ensures (0xff_0000 as bv32) & 0xffff_00ff == 0xff_0000
  {
  }

  lemma LastByte(v: bv32)
    ensures Disjoint(0xffff_00ff, 0xff00) && Within(v, Both(0xffff_00ff, 0xff00))
  {
  }

  lemma SlotBytes()
    ensures Slot(0) == 0xff && Slot(4) == 0xff00_0000 && Slot(8) == 0xff_0000 && Slot(12) == 0xff00
  {
  }

  method EmitPair(t: Section, op: bv32, v: bv32, i: bv32, j: bv32) returns (ghost ws: seq<bv32>)
    requires t.Valid() && Adder(op) && IsPair(v, i, j)
    modifies t
    ensures t.Valid() && t.Emitted(old(t.data), old(t.ind), ws) && |ws| == 2 && Computes(ws, op, v)
  {
    SpreadSmall(i, j);
    ghost var before, start := t.data, t.ind;
    Starts(t);
    ChainedFields(op);
    hide Template, Does, Slot, Part, Plus, Chained, Class, Computes, IsPair, Rn, Rd;
    ghost var w := EmitPart(t, op, v, i, before, start, []);
    assert [] + [w] == [w];
    ghost var x := EmitPart(t, Chained(op), v, j, before, start, [w]);
    FirstWord(op, w, Part(v, Slot(i)));
    NextWord(op, [w], x, Part(v, Slot(i)), Part(v, Slot(j)));
    PairSum(v, i, j);
    ws := [w] + [x];
  }

  method EmitTriple(t: Section, op: bv32, v: bv32, i: bv32, j: bv32, k: bv32) returns (ghost ws: seq<bv32>)
    requires t.Valid() && Adder(op) && IsTriple(v, i, j, k)
    modifies t
    ensures t.Valid() && t.Emitted(old(t.data), old(t.ind), ws) && |ws| == 3 && Computes(ws, op, v)
  {
    TriadSmall(i, j, k);
    ghost var before, start := t.data, t.ind;
    Starts(t);
    ChainedFields(op);
    hide Template, Does, Slot, Part, Plus, Chained, Class, Computes, IsTriple, Rn, Rd;
    ghost var w := EmitPart(t, op, v, i, before, start, []);
    assert [] + [w] == [w];
    ghost var x := EmitPart(t, Chained(op), v, j, before, start, [w]);
    ghost var y := EmitPart(t, Chained(op), v, k, before, start, [w] + [x]);
    FirstWord(op, w, Part(v, Slot(i)));
    NextWord(op, [w], x, Part(v, Slot(i)), Part(v, Slot(j)));
    NextWord(op, [w] + [x], y, Plus(Part(v, Slot(i)), Part(v, Slot(j))), Part(v, Slot(k)));
    TripleSum(v, i, j, k);
    ws := ([w] + [x]) + [y];
  }

  method EmitQuad(t: Section, op: bv32, v: bv32) returns (ghost ws: seq<bv32>)
    requires t.Valid() && Adder(op)
    modifies t
    ensures t.Valid() && t.Emitted(old(t.data), old(t.ind), ws) && |ws| == 4 && Computes(ws, op, v)
  {
    ghost var before, start := t.data, t.ind;
    Starts(t);
    ChainedFields(op);
    hide Template, Does, Slot, Part, Plus, Chained, Class, Computes, Rn, Rd;
    ghost var w := EmitPart(t, op, v, 0, before, start, []);
    assert [] + [w] == [w];
    ghost var x := EmitPart(t, Chained(op), v, 4, before, start, [w]);
    ghost var y := EmitPart(t, Chained(op), v, 8, before, start, [w] + [x]);
    ghost var z := EmitPart(t, Chained(op), v, 12, before, start, ([w] + [x]) + [y]);
    ghost var a, b, c := Part(v, Slot(0)), Part(v, Slot(4)), Part(v, Slot(8));
    FirstWord(op, w, a);
    NextWord(op, [w], x, a, b);
    NextWord(op, [w] + [x], y, Plus(a, b), c);
    NextWord(op, ([w] + [x]) + [y], z, Plus(Plus(a, b), c), Part(v, Slot(12)));
    QuadSum(v);
    ws := (([w] + [x]) + [y]) + [z];
  }

  lemma SpreadSmall(i: bv32, j: bv32)
    requires Spread(i, j)
    ensures i < 16 && j < 16
  {
  }

  lemma TriadSmall(i: bv32, j: bv32, k: bv32)
    requires Triad(i, j, k)
    ensures i < 16 && j < 16 && k < 16
  {
  }

  function Negated(v: bv32): bv32 {
    0 - v
  }

  function OppositeAdder(op: bv32): bv32 {
    op ^ 0xc0_0000
  }

  lemma OppositeComputes(ws: seq<bv32>, op: bv32, v: bv32)
    requires Adder(op) && Computes(ws, OppositeAdder(op), Negated(v))
    ensures Computes(ws, op, v)
  {
    OppositeAdderIs(op, v);
    OppositeFields(op);
    hide Value, Rn, Rd, Class, Opposite, Turned, OppositeAdder, Negated, Run, Template;
    forall s: Regs, q: bv32 ensures Run(ws, s)(q) == if q == Rd(op) then Value(Class(op), s(Rn(op)), v) else s(q) {
      OppositeValue(op, s(Rn(op)), v);
    }
  }

  lemma OppositeAdderIs(op: bv32, v: bv32)
    requires Adder(op)
    ensures OppositeAdder(op) == Opposite(op) && Negated(v) == Turned(op, v) && HasOpposite(op)
  {
    hide Class, Template;
  }

  lemma OppositeIsAdder(op: bv32)
    requires Adder(op)
    ensures Adder(OppositeAdder(op))
  {
    OppositeAdderIs(op, 0);
    OppositeFields(op);
    hide Class, Template, Opposite, OppositeAdder, Turned, Negated;
  }

  /** How many instructions are emitted for op with the constant v. */
  ghost function Needed(op: bv32, v: bv32): nat {
    if Possible(op, v) then 1
    else if HasPair(v) || HasPair(Negated(v)) then 2
    else if HasTriple(v) || HasTriple(Negated(v)) then 3
    else 4
  }

  /** `stuff_const_harder`: add or subtract any constant, in at most four instructions. */
  method StuffConstHarder(t: Section, op: bv32, v: bv32) returns (ghost ws: seq<bv32>)
    requires t.Valid() && Adder(op)
    modifies t
    ensures t.Valid() && t.Emitted(old(t.data), old(t.ind), ws)
    ensures Computes(ws, op, v) && |ws| == Needed(op, v) <= 4
  {
    hide Computes, Possible, HasPair, HasTriple, IsPair, IsTriple, OppositeAdder, Negated, Does, Class, Template;
    ghost var before, start := t.data, t.ind;
    var x := StuffConst(op, v);
    if x != 0 {
      PutAllOne(before, start, x);
      t.O(x);
      FirstWord(op, x, v);
      ws := [x];
      return;
    }
    var no, nv := OppositeAdder(op), Negated(v);
    OppositeIsAdder(op);
    var found, i, j := FindPair(v);
    if found {
      ws := EmitPair(t, op, v, i, j);
      return;
    }
    found, i, j := FindPair(nv);
    if found {
      ws := EmitPair(t, no, nv, i, j);
      OppositeComputes(ws, op, v);
      return;
    }
    var k;
    found, i, j, k := FindTriple(v);
    if found {
      ws := EmitTriple(t, op, v, i, j, k);
      return;
    }
    found, i, j, k := FindTriple(nv);
    if found {
      ws := EmitTriple(t, no, nv, i, j, k);
      OppositeComputes(ws, op, v);
      return;
    }
    ws := EmitQuad(t, op, v);
  }
}
