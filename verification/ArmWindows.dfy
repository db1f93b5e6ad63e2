/** Which constants one, two and three instructions of the 32-bit ARM generator
    can add, independently of the windows that the search goes through. */
module ArmWindows {
  import opened Arm32
  import opened ArmConst

  // ----- one constant -----

  /** A byte rotated right by an even distance. */
  ghost predicate RotatedByte(c: bv32) {
    exists b: bv32, r: bv32 :: IsRotated(c, b, r)
  }

  predicate IsRotated(c: bv32, b: bv32, r: bv32) {
    b < 256 && r < 32 && r & 1 == 0 && c == if r == 0 then b else (b >> r) | (b << (32 - r))
  }

  lemma FitsRotated(c: bv32, i: bv32, b: bv32)
    requires 2 <= i < 32 && i & 1 == 0 && FitsAt(c, i) && b == (c << i) | (c >> (32 - i))
    ensures IsRotated(c, b, i)
  {
  }

  lemma RotatedFits(c: bv32, b: bv32, r: bv32)
    requires IsRotated(c, b, r)
    ensures Even(r) && FitsAt(c, r)
  {
  }

  /** The window that a rotated byte lies in. */
  lemma RotatedWindow(c: bv32, b: bv32, r: bv32, n: bv32)
    requires IsRotated(c, b, r) && n == r >> 1
    ensures n < 16 && Within(c, Slot(n))
  {
  }

  lemma EncodableExactly(c: bv32)
    ensures Encodable(c) <==> RotatedByte(c)
  {
    hide FitsAt, IsRotated;
    if Encodable(c) {
      var i: bv32 :| Even(i) && FitsAt(c, i);
      if i == 0 {
        SmallRotated(c);
      } else {
        EvenIs(i);
        FitsRotated(c, i, (c << i) | (c >> (32 - i)));
      }
    }
    if RotatedByte(c) {
      var b: bv32, r: bv32 :| IsRotated(c, b, r);
      RotatedFits(c, b, r);
    }
  }

  lemma SmallRotated(c: bv32)
    requires FitsAt(c, 0)
    ensures IsRotated(c, c, 0)
  {
  }

  lemma EvenIs(i: bv32)
    requires Even(i) && i != 0
    ensures 2 <= i < 32 && i & 1 == 0
  {
  }

  /** The single instructions: the constant itself, its negation for ADD and
      SUB, its inversion for MOV, MVN, AND and BIC, and all ones for EOR, AND
      and ORR. The class is that of bits 20 to 24. */
  ghost predicate SomeForm(class_: bv32, c: bv32) {
    || RotatedByte(c)
    || (class_ in {0x80_0000, 0x40_0000} && RotatedByte(0 - c))
    || (class_ in {0x1a0_0000, 0x1e0_0000, 0, 0x1c0_0000} && RotatedByte(!c))
    || (class_ in {0x20_0000, 0, 0x180_0000} && c == 0xffff_ffff)
  }

  /** `stuff_const` refuses exactly what no single instruction does. */
  lemma PossibleExactly(op: bv32, c: bv32)
    ensures Possible(op, c) <==> SomeForm(op & 0x1f0_0000, c)
  {
    hide Encodable, RotatedByte;
    EncodableExactly(c);
    EncodableExactly(0 - c);
    EncodableExactly(!c);
  }

  // ----- two constants -----

  predicate Inside(a: bv32, b: bv32, c: bv32) {
    a & !(b | c) == 0
  }

  /** A window lies within two that are four places apart around it, on the
      circle of sixteen. */
  lemma Nearby(t: bv32, e: bv32)
    requires t < 16 && e <= 4
    ensures Inside(Slot((t + e) & 15), Slot(t), Slot((t + 4) & 15))
  {
  }

  lemma CoversMore(v: bv32, a: bv32, b: bv32, c: bv32, d: bv32)
    requires Covers2(v, a, b) && Inside(a, c, d) && Inside(b, c, d)
    ensures Covers2(v, c, d)
  {
  }

  lemma InsideItself(a: bv32, b: bv32)
    ensures Inside(a, a, b) && Inside(b, a, b)
  {
  }

  lemma Covers2Turns(v: bv32, a: bv32, b: bv32)
    ensures Covers2(v, a, b) == Covers2(v, b, a)
  {
  }

  lemma PairNumbers(t: bv32, e: bv32, j: bv32, n: bv32)
    requires t < 16 && j < 16 && e < 4 && j == (t + e) & 15 && n == (t + 4) & 15
    ensures if t < n then Spread(t, n) else Spread(n, t)
  {
  }

  /** Two windows closer than four places: the first and the one four behind it. */
  lemma PairNear(v: bv32, t: bv32, e: bv32, j: bv32)
    requires t < 16 && j < 16 && e < 4 && j == (t + e) & 15 && Covers2(v, Slot(t), Slot(j))
    ensures HasPair(v)
  {
    hide *;
    var n := (t + 4) & 15;
    Nearby(t, e);
    InsideItself(Slot(t), Slot(n));
    CoversMore(v, Slot(t), Slot(j), Slot(t), Slot(n));
    PairNumbers(t, e, j, n);
    Covers2Turns(v, Slot(t), Slot(n));
    if t < n {
      PairIs(v, t, n);
    } else {
      PairIs(v, n, t);
    }
  }

  lemma PairIs(v: bv32, i: bv32, j: bv32)
    requires Spread(i, j) && Covers2(v, Slot(i), Slot(j))
    ensures HasPair(v)
  {
    hide Spread, Covers2, Slot;
    assert IsPair(v, i, j);
  }

  predicate Close(i: bv32, j: bv32, e: bv32) {
    e < 4 && j == (i + e) & 15
  }

  lemma PairCases(i: bv32, j: bv32)
    requires i < 16 && j < 16 && i <= j
    ensures Spread(i, j) || Close(i, j, j - i) || Close(j, i, i + 16 - j)
  {
  }

  /** Any two windows will do. */
  lemma AnyPair(v: bv32, i: bv32, j: bv32)
    requires i < 16 && j < 16 && Covers2(v, Slot(i), Slot(j))
    ensures HasPair(v)
  {
    hide Slot, HasPair, Covers2, Spread;
    Covers2Turns(v, Slot(i), Slot(j));
    var p, q := if i <= j then i else j, if i <= j then j else i;
    PairCases(p, q);
    if Spread(p, q) {
      PairIs(v, p, q);
    } else if Close(p, q, q - p) {
      PairNear(v, p, q - p, q);
    } else {
      PairNear(v, q, p + 16 - q, p);
    }
  }

  /** The bits of two rotated bytes. */
  ghost predicate TwoBytes(v: bv32) {
    exists x: bv32, y: bv32 :: RotatedByte(x) && RotatedByte(y) && v == Both(x, y)
  }

  lemma Covered2(v: bv32, x: bv32, y: bv32, a: bv32, b: bv32)
    requires v == Both(x, y) && Within(x, a) && Within(y, b)
    ensures Covers2(v, a, b)
  {
  }

  lemma Split2(v: bv32, a: bv32, b: bv32)
    requires Covers2(v, a, b)
    ensures v == Both(Part(v, a), Part(v, b))
  {
  }

  lemma PartRotated(v: bv32, i: bv32)
    requires i < 16
    ensures RotatedByte(Part(v, Slot(i)))
  {
    hide *;
    PartFits(v, i, Slot(i));
    PartIs(v, Slot(i));
    SomeWindow(Part(v, Slot(i)), i + i);
    EncodableExactly(Part(v, Slot(i)));
  }

  lemma PartIs(v: bv32, a: bv32)
    ensures Part(v, a) == v & a
  {
  }

  lemma WindowOf(x: bv32) returns (n: bv32)
    requires RotatedByte(x)
    ensures n < 16 && Within(x, Slot(n))
  {
    hide IsRotated, Slot, Within;
    var b: bv32, r: bv32 :| IsRotated(x, b, r);
    n := r >> 1;
    RotatedWindow(x, b, r, n);
  }

  lemma SpreadBelow(i: bv32, j: bv32)
    requires Spread(i, j)
    ensures i < 16 && j < 16
  {
  }

  /** The search for pairs succeeds exactly for the bits of two rotated bytes. */
  lemma PairExactly(v: bv32)
    ensures HasPair(v) <==> TwoBytes(v)
  {
    hide Slot, Covers2, Spread, RotatedByte, Both, Part, Within;
    if HasPair(v) {
      var i: bv32, j: bv32 :| IsPair(v, i, j);
      SpreadBelow(i, j);
      Split2(v, Slot(i), Slot(j));
      PartRotated(v, i);
      PartRotated(v, j);
    }
    if TwoBytes(v) {
      var x: bv32, y: bv32 :| RotatedByte(x) && RotatedByte(y) && v == Both(x, y);
      var i := WindowOf(x);
      var j := WindowOf(y);
      Covered2(v, x, y, Slot(i), Slot(j));
      AnyPair(v, i, j);
    }
  }

  // ----- three constants -----

  predicate Inside3(a: bv32, b: bv32, c: bv32, d: bv32) {
    a & !(b | c | d) == 0
  }

  lemma InsideMore(a: bv32, b: bv32, c: bv32, d: bv32)
    requires Inside(a, b, c)
    ensures Inside3(a, b, c, d) && Inside3(a, d, b, c)
  {
  }

  lemma InsideThree(a: bv32, b: bv32, c: bv32)
    ensures Inside3(a, a, b, c) && Inside3(b, a, b, c) && Inside3(c, a, b, c)
  {
  }

  lemma CoversMore3(v: bv32, a: bv32, b: bv32, c: bv32, d: bv32, e: bv32, f: bv32)
    requires Covers3(v, a, b, c) && Inside3(a, d, e, f) && Inside3(b, d, e, f) && Inside3(c, d, e, f)
    ensures Covers3(v, d, e, f)
  {
  }

  lemma Covers3Turns(v: bv32, a: bv32, b: bv32, c: bv32)
    requires Covers3(v, a, b, c)
    ensures Covers3(v, b, c, a) && Covers3(v, c, a, b) && Covers3(v, b, a, c) && Covers3(v, a, c, b)
  {
  }

  /** The place n behind s on the circle. */
  function Round(s: bv32, n: bv32): bv32 {
    (s + n) & 15
  }

  predicate Offsets(m: bv32, n: bv32) {
    4 <= m && m + 4 <= n && n <= 12 && m <= 8
  }

  lemma TriadRound(s: bv32, m: bv32, n: bv32)
    requires s < 16 && Offsets(m, n)
    ensures Triad(s, Round(s, m), Round(s, n)) || Triad(Round(s, n), s, Round(s, m))
            || Triad(Round(s, m), Round(s, n), s)
  {
  }

  lemma TripleFrom(v: bv32, i: bv32, j: bv32, k: bv32)
    requires Triad(i, j, k) && Covers3(v, Slot(i), Slot(j), Slot(k))
    ensures HasTriple(v)
  {
    hide Triad, Covers3, Slot;
    assert IsTriple(v, i, j, k);
  }

  lemma RoundBelow(s: bv32, n: bv32)
    ensures Round(s, n) < 16
  {
  }

  /** Windows at least four places apart around the circle, wherever it starts. */
  lemma TripleRound(v: bv32, s: bv32, m: bv32, n: bv32)
    requires s < 16 && Offsets(m, n) && Round(s, m) < 16 && Round(s, n) < 16
    requires Covers3(v, Slot(s), Slot(Round(s, m)), Slot(Round(s, n)))
    ensures HasTriple(v)
  {
    hide *;
    TriadRound(s, m, n);
    Covers3Turns(v, Slot(s), Slot(Round(s, m)), Slot(Round(s, n)));
    if Triad(s, Round(s, m), Round(s, n)) {
      TripleFrom(v, s, Round(s, m), Round(s, n));
    } else if Triad(Round(s, n), s, Round(s, m)) {
      TripleFrom(v, Round(s, n), s, Round(s, m));
    } else {
      TripleFrom(v, Round(s, m), Round(s, n), s);
    }
  }

  /** Window t + e lies within windows t and t + 4. */
  predicate Beside(o: bv32, k: bv32) {
    k <= o && o <= k + 4
  }

  lemma RoundNearby(s: bv32, o: bv32, k: bv32)
    requires s < 16 && k <= 12 && Beside(o, k) && Round(s, o) < 16 && Round(s, k) < 16 && Round(s, k + 4) < 16
    ensures Inside(Slot(Round(s, o)), Slot(Round(s, k)), Slot(Round(s, k + 4)))
  {
    RoundIs(s, o, k);
    Nearby(Round(s, k), o - k);
  }

  lemma RoundIs(s: bv32, o: bv32, k: bv32)
    requires s < 16 && k <= 12 && Beside(o, k)
    ensures Round(s, k) < 16 && o - k <= 4
    ensures Round(s, o) == (Round(s, k) + (o - k)) & 15 && Round(s, k + 4) == (Round(s, k) + 4) & 15
  {
  }

  lemma RoundStart(s: bv32)
    requires s < 16
    ensures Round(s, 0) == s
  {
  }

  /** A window up to eight places behind s lies within those at 0, 4 and 8. */
  lemma InGrid(s: bv32, o: bv32)
    requires s < 16 && o <= 8 && Round(s, o) < 16 && Round(s, 4) < 16 && Round(s, 8) < 16
    ensures Inside3(Slot(Round(s, o)), Slot(s), Slot(Round(s, 4)), Slot(Round(s, 8)))
  {
    RoundStart(s);
    var a, b, c, d := Slot(Round(s, o)), Slot(s), Slot(Round(s, 4)), Slot(Round(s, 8));
    if o <= 4 {
      RoundNearby(s, o, 0);
      hide Inside, Inside3, Slot, Round;
      InsideMore(a, b, c, d);
    } else {
      RoundNearby(s, o, 4);
      hide Inside, Inside3, Slot, Round;
      InsideMore(a, c, d, b);
    }
  }

  lemma OffsetsGrid(v: bv32, s: bv32, a: bv32, b: bv32)
    requires s < 16 && a <= 8 && b <= 8 && Round(s, a) < 16 && Round(s, b) < 16
    requires Covers3(v, Slot(s), Slot(Round(s, a)), Slot(Round(s, b)))
    ensures HasTriple(v)
  {
    hide Slot, Round, Covers3, Inside3, HasTriple;
    RoundBelow(s, 4);
    RoundBelow(s, 8);
    InGrid(s, a);
    InGrid(s, b);
    InsideThree(Slot(s), Slot(Round(s, 4)), Slot(Round(s, 8)));
    CoversMore3(v, Slot(s), Slot(Round(s, a)), Slot(Round(s, b)), Slot(s), Slot(Round(s, 4)), Slot(Round(s, 8)));
    TripleRound(v, s, 4, 8);
  }

  /** The second window close behind the first. */
  lemma OffsetsFront(v: bv32, s: bv32, a: bv32, b: bv32)
    requires s < 16 && a <= 4 && 8 <= b && b <= 12 && Round(s, a) < 16 && Round(s, b) < 16
    requires Covers3(v, Slot(s), Slot(Round(s, a)), Slot(Round(s, b)))
    ensures HasTriple(v)
  {
    hide Slot, Round, Covers3, Inside, Inside3, HasTriple;
    RoundBelow(s, 4);
    RoundStart(s);
    RoundNearby(s, a, 0);
    InsideMore(Slot(Round(s, a)), Slot(s), Slot(Round(s, 4)), Slot(Round(s, b)));
    InsideThree(Slot(s), Slot(Round(s, 4)), Slot(Round(s, b)));
    CoversMore3(v, Slot(s), Slot(Round(s, a)), Slot(Round(s, b)), Slot(s), Slot(Round(s, 4)), Slot(Round(s, b)));
    TripleRound(v, s, 4, b);
  }

  /** The second window close before the third. */
  lemma OffsetsBack(v: bv32, s: bv32, a: bv32, k: bv32, b: bv32)
    requires s < 16 && 4 <= k && k <= 8 && b == k + 4 && Beside(a, k)
    requires Round(s, a) < 16 && Round(s, b) < 16 && Round(s, k) < 16
    requires Covers3(v, Slot(s), Slot(Round(s, a)), Slot(Round(s, b)))
    ensures HasTriple(v)
  {
    hide Slot, Round, Covers3, Inside, Inside3, HasTriple, Beside;
    RoundNearby(s, a, k);
    InsideMore(Slot(Round(s, a)), Slot(Round(s, k)), Slot(Round(s, b)), Slot(s));
    InsideThree(Slot(s), Slot(Round(s, k)), Slot(Round(s, b)));
    CoversMore3(v, Slot(s), Slot(Round(s, a)), Slot(Round(s, b)), Slot(s), Slot(Round(s, k)), Slot(Round(s, b)));
    TripleRound(v, s, k, b);
  }

  lemma OffsetNumbers(a: bv32, b: bv32)
    requires a <= b && b <= 10 && 8 < b && 4 < a
    ensures Offsets(a, b) || (4 <= b - 4 && b - 4 <= 8 && b == (b - 4) + 4 && Beside(a, b - 4))
  {
  }

  /** Three windows from s on, with a gap behind the last. */
  lemma TripleOffsets(v: bv32, s: bv32, a: bv32, b: bv32)
    requires s < 16 && a <= b && b <= 10 && Round(s, a) < 16 && Round(s, b) < 16
    requires Covers3(v, Slot(s), Slot(Round(s, a)), Slot(Round(s, b)))
    ensures HasTriple(v)
  {
    hide Slot, Round, Covers3, HasTriple, Beside, Offsets;
    if b <= 8 {
      OffsetsGrid(v, s, a, b);
    } else if a <= 4 {
      OffsetsFront(v, s, a, b);
    } else {
      OffsetNumbers(a, b);
      RoundBelow(s, b - 4);
      if Offsets(a, b) {
        TripleRound(v, s, a, b);
      } else {
        OffsetsBack(v, s, a, b - 4, b);
      }
    }
  }

  /** Where to start, with offsets a and b to the other two. */
  predicate StartsAt(s: bv32, q: bv32, r: bv32, a: bv32, b: bv32) {
    s < 16 && a <= b && b <= 10 && q == Round(s, a) && r == Round(s, b)
  }

  lemma StartNumbers(p: bv32, q: bv32, r: bv32)
    requires p <= q && q <= r && r < 16
    ensures StartsAt(p, q, r, q - p, r - p) || StartsAt(q, r, p, r - q, p + 16 - q) ||
            StartsAt(r, p, q, p + 16 - r, q + 16 - r)
  {
  }

  lemma StartedTriple(v: bv32, s: bv32, q: bv32, r: bv32, a: bv32, b: bv32)
    requires StartsAt(s, q, r, a, b) && q < 16 && r < 16 && Covers3(v, Slot(s), Slot(q), Slot(r))
    ensures HasTriple(v)
  {
    hide Slot, Round, Covers3, HasTriple;
    TripleOffsets(v, s, a, b);
  }

  lemma SortedTriple(v: bv32, p: bv32, q: bv32, r: bv32)
    requires p <= q && q <= r && r < 16 && Covers3(v, Slot(p), Slot(q), Slot(r))
    ensures HasTriple(v)
  {
    hide Slot, StartsAt, Covers3, HasTriple;
    StartNumbers(p, q, r);
    Covers3Turns(v, Slot(p), Slot(q), Slot(r));
    if StartsAt(p, q, r, q - p, r - p) {
      StartedTriple(v, p, q, r, q - p, r - p);
    } else if StartsAt(q, r, p, r - q, p + 16 - q) {
      StartedTriple(v, q, r, p, r - q, p + 16 - q);
    } else {
      StartedTriple(v, r, p, q, p + 16 - r, q + 16 - r);
    }
  }

  /** Any three windows will do. */
  lemma AnyTriple(v: bv32, i: bv32, j: bv32, k: bv32)
    requires i < 16 && j < 16 && k < 16 && Covers3(v, Slot(i), Slot(j), Slot(k))
    ensures HasTriple(v)
  {
    hide Slot, Covers3, HasTriple;
    Covers3Turns(v, Slot(i), Slot(j), Slot(k));
    Covers3Turns(v, Slot(j), Slot(i), Slot(k));
    if i <= j {
      if j <= k {
        SortedTriple(v, i, j, k);
      } else if i <= k {
        SortedTriple(v, i, k, j);
      } else {
        SortedTriple(v, k, i, j);
      }
    } else if i <= k {
      SortedTriple(v, j, i, k);
    } else if j <= k {
      SortedTriple(v, j, k, i);
    } else {
      SortedTriple(v, k, j, i);
    }
  }

  /** The bits of three rotated bytes. */
  ghost predicate ThreeBytes(v: bv32) {
    exists x: bv32, y: bv32, z: bv32 :: RotatedByte(x) && RotatedByte(y) && RotatedByte(z) && v == Both(Both(x, y), z)
  }

  lemma Covered3(v: bv32, x: bv32, y: bv32, z: bv32, a: bv32, b: bv32, c: bv32)
    requires v == Both(Both(x, y), z) && Within(x, a) && Within(y, b) && Within(z, c)
    ensures Covers3(v, a, b, c)
  {
  }

  lemma Split3(v: bv32, a: bv32, b: bv32, c: bv32)
    requires Covers3(v, a, b, c)
    ensures v == Both(Both(Part(v, a), Part(v, b)), Part(v, c))
  {
  }

  lemma TriadBelow(i: bv32, j: bv32, k: bv32)
    requires Triad(i, j, k)
    ensures i < 16 && j < 16 && k < 16
  {
  }

  /** The search for triples succeeds exactly for the bits of three rotated bytes. */
  lemma TripleExactly(v: bv32)
    ensures HasTriple(v) <==> ThreeBytes(v)
  {
    hide Slot, Covers3, Triad, RotatedByte, Both, Part, Within;
    if HasTriple(v) {
      var i: bv32, j: bv32, k: bv32 :| IsTriple(v, i, j, k);
      TriadBelow(i, j, k);
      Split3(v, Slot(i), Slot(j), Slot(k));
      PartRotated(v, i);
      PartRotated(v, j);
      PartRotated(v, k);
    }
    if ThreeBytes(v) {
      var x: bv32, y: bv32, z: bv32 :|
        RotatedByte(x) && RotatedByte(y) && RotatedByte(z) && v == Both(Both(x, y), z);
      var i := WindowOf(x);
      var j := WindowOf(y);
      var k := WindowOf(z);
      Covered3(v, x, y, z, Slot(i), Slot(j), Slot(k));
      AnyTriple(v, i, j, k);
    }
  }

  /** How many instructions add or subtract v: as many as rotated bytes make up
      the bits of v or of its negation, and four if three do not. */
  lemma NeededExactly(op: bv32, v: bv32)
    requires Adder(op)
    ensures Needed(op, v) ==
      if RotatedByte(v) || RotatedByte(0 - v) then 1
      else if TwoBytes(v) || TwoBytes(0 - v) then 2
      else if ThreeBytes(v) || ThreeBytes(0 - v) then 3
      else 4
  {
    hide RotatedByte, TwoBytes, ThreeBytes, Possible, HasPair, HasTriple, Template;
    AdderForms(op, v);
    NegatedIs(v);
    PairExactly(v);
    PairExactly(0 - v);
    TripleExactly(v);
    TripleExactly(0 - v);
  }

  lemma NegatedIs(v: bv32)
    ensures Negated(v) == 0 - v
  {
  }

  lemma AdderForms(op: bv32, v: bv32)
    requires Adder(op)
    ensures Possible(op, v) <==> RotatedByte(v) || RotatedByte(0 - v)
  {
    hide RotatedByte, Possible, Template;
    PossibleExactly(op, v);
  }
}
