/** Argument passing of the A64 generator: `arm64_pcs_aux`, `arm64_pcs` and the
    register saves of `gfunc_prolog` (AAPCS64, section 6.8.2). */
module Aapcs64 {
  import opened Arithmetic
  import opened Wrappers

  datatype Basic = Integer | Pointer | Function | Float | Double | LongDouble | Struct

  /** A parameter type; hfa is the number of members of a homogeneous
      floating-point aggregate and 0 for every other type. */
  datatype Type = Type(basic: Basic, size: nat, align: nat, hfa: nat)

  predicate IsFloat(b: Basic) {
    b == Float || b == Double || b == LongDouble
  }

  /** The sizes and alignments that the front end produces; an alignment is a
      power of two, an aggregate is a whole number of alignment units. Only a
      struct can be empty. */
  predicate Sized(t: Type) {
    && (0 < t.size || (t.basic == Struct && t.hfa == 0)) && 0 < t.align && (t.align in {1, 2, 4} || t.align % 8 == 0)
    && (t.basic == Integer ==> t.size in {1, 2, 4, 8, 16} && t.align <= (if t.size == 16 then 16 else 8))
    && (t.basic == Float ==> t.size == 4 == t.align)
    && (t.basic == Double ==> t.size == 8 == t.align)
    && (t.basic == LongDouble ==> t.size == 16 == t.align)
    && (t.hfa > 0 ==> t.basic == Struct && t.hfa <= 4 && Element(t) in {4, 8, 16} && t.size == t.hfa * Element(t))
  }

  /** The size of a member of a homogeneous aggregate. */
  function Element(t: Type): nat
    requires t.hfa > 0
  {
    t.size / t.hfa
  }

  /** The least multiple of align from n on. */
  function AlignUp(n: nat, align: nat): (r: nat)
    requires 0 < align
    ensures n <= r < n + align
  {
    n + align - 1 - (n + align - 1) % align
  }

  lemma AlignUpIs(n: nat, align: nat)
    requires 0 < align
    ensures AlignUp(n, align) % align == 0
  {
    Multiple(n + align - 1, align);
  }

  lemma EightDivides(x: nat, m: nat)
    requires 0 < m && m % 8 == 0 && x % m == 0
    ensures x % 8 == 0
  {
    var q, k := x / m, m / 8;
    assert x == m * q && m == 8 * k;
    assert x == 8 * (k * q) by {
      assert (8 * k) * q == 8 * (k * q);
    }
  }

  lemma AlignUpSmall(n: nat, align: nat)
    requires n % 8 == 0 && align in {1, 2, 4, 8}
    ensures AlignUp(n, align) == n
  {
    var k := n / 8;
    assert n == 8 * k;
    DivUnique(n + align - 1, align, 8 / align * k, align - 1);
  }

  lemma AlignUpWords(n: nat)
    ensures AlignUp(n, 8) == 8 * ((n + 7) / 8)
  {
  }

  /** The next integer register, vector register and stack offset. */
  datatype Cursor = Cursor(nx: nat, nv: nat, ns: nat)

  predicate InBounds(c: Cursor) {
    c.nx <= 8 && c.nv <= 8 && 32 <= c.ns && c.ns % 8 == 0
  }

  // ----- the rules of the standard -----

  /** Passed as a pointer to a copy. */
  predicate ByReference(t: Type) {
    t.basic == Struct && t.hfa == 0 && t.size > 16
  }

  /** Passed in vector registers as long as they suffice. */
  predicate VectorClass(t: Type) {
    t.hfa > 0 || IsFloat(t.basic)
  }

  /** Vector registers, or 8-byte words, that the argument takes. */
  function Vectors(t: Type): nat {
    if t.hfa > 0 then t.hfa else 1
  }

  function Words(t: Type): nat {
    if ByReference(t) || t.basic in {Pointer, Function} then 1 else (t.size + 7) / 8
  }

  function Alignment(t: Type): nat {
    if ByReference(t) || t.basic in {Pointer, Function} then 8 else t.align
  }

  /** The first integer register an argument could take: even for 16-byte alignment. */
  function FirstWord(t: Type, nx: nat): nat {
    if Alignment(t) == 16 then (nx + 1) / 2 * 2 else nx
  }

  function StackSlot(t: Type, ns: nat): nat
    requires Sized(t)
  {
    AlignUp(ns, if Alignment(t) < 8 then 8 else Alignment(t))
  }

  /** The location code of an argument: twice the number of a register (vector
      registers from 16 on) or 32 plus a stack offset, odd for a pointer. */
  function Code(t: Type, c: Cursor): nat
    requires Sized(t)
  {
    if VectorClass(t) then (if c.nv + Vectors(t) <= 8 then 16 + 2 * c.nv else StackSlot(t, c.ns))
    else
      (if FirstWord(t, c.nx) + Words(t) <= 8 then 2 * FirstWord(t, c.nx) else StackSlot(t, c.ns))
      + if ByReference(t) then 1 else 0
  }

  function Next(t: Type, c: Cursor): Cursor
    requires Sized(t)
  {
    if VectorClass(t) then
      if c.nv + Vectors(t) <= 8 then c.(nv := c.nv + Vectors(t))
      else c.(nv := 8, ns := StackSlot(t, c.ns) + 8 * Words(t))
    else if FirstWord(t, c.nx) + Words(t) <= 8 then c.(nx := FirstWord(t, c.nx) + Words(t))
    else c.(nx := 8, ns := StackSlot(t, c.ns) + 8 * Words(t))
  }

  // ----- one argument -----

  lemma SlotIs(t: Type, ns: nat)
    requires Sized(t) && ns % 8 == 0
    ensures AlignUp(ns, 8) == ns
    ensures StackSlot(t, ns) == AlignUp(ns, Alignment(t))
    ensures Alignment(t) in {1, 2, 4, 8} ==> StackSlot(t, ns) == ns
  {
    hide AlignUp;
    AlignUpSmall(ns, 8);
    if Alignment(t) in {1, 2, 4, 8} {
      AlignUpSmall(ns, Alignment(t));
    }
  }

  /** The body of the loop of `arm64_pcs_aux`. */
  method PassOne(t: Type, nx0: nat, nv0: nat, ns0: nat) returns (a: nat, nx: nat, nv: nat, ns: nat)
    requires Sized(t) && InBounds(Cursor(nx0, nv0, ns0))
    ensures a == Code(t, Cursor(nx0, nv0, ns0))
    ensures Cursor(nx, nv, ns) == Next(t, Cursor(nx0, nv0, ns0))
  {
    hide AlignUp, StackSlot, Sized;
    SlotIs(t, ns0);
    AlignUpWords(t.size);
    Facts(t);
    nx, nv, ns := nx0, nv0, ns0;
    var hfa, size, align := t.hfa, t.size, t.align;
    if t.basic == Pointer || t.basic == Function {
      size, align := 8, 8;
    }
    if hfa != 0 {
    } else if size > 16 {
      if nx < 8 {
        a := 2 * nx + 1;
        nx := nx + 1;
      } else {
        ns := AlignUp(ns, 8);
        a := ns + 1;
        ns := ns + 8;
      }
      return;
    } else if t.basic == Struct {
      size := AlignUp(size, 8);
    }
    if IsFloat(t.basic) && nv < 8 {
      a := 16 + 2 * nv;
      nv := nv + 1;
      return;
    }
    if hfa != 0 && nv + hfa <= 8 {
      a := 16 + 2 * nv;
      nv := nv + hfa;
      return;
    }
    if hfa != 0 {
      nv := 8;
      size := AlignUp(size, 8);
    }
    if hfa != 0 || t.basic == LongDouble {
      ns := AlignUp(ns, 8);
      ns := AlignUp(ns, align);
    }
    if t.basic == Float {
      size := 8;
    }
    if hfa != 0 || IsFloat(t.basic) {
      a := ns;
      ns := ns + size;
      return;
    }
    if t.basic != Struct && size <= 8 && nx < 8 {
      a := 2 * nx;
      nx := nx + 1;
      return;
    }
    if align == 16 {
      nx := (nx + 1) / 2 * 2;
    }
    if t.basic != Struct && size == 16 && nx < 7 {
      a := 2 * nx;
      nx := nx + 2;
      return;
    }
    if t.basic == Struct && size <= (8 - nx) * 8 {
      a := 2 * nx;
      nx := nx + (size + 7) / 8;
      return;
    }
    nx := 8;
    ns := AlignUp(ns, 8);
    ns := AlignUp(ns, align);
    if t.basic == Struct {
      a := ns;
      ns := ns + size;
      return;
    }
    if size < 8 {
      size := 8;
    }
    a := ns;
    ns := ns + size;
  }

  lemma Facts(t: Type)
    requires Sized(t)
    ensures t.align > 0 && (t.size == 0 ==> t.basic == Struct && t.hfa == 0)
    ensures t.hfa > 0 ==> t.basic == Struct
    ensures t.basic == Integer ==> t.size in {1, 2, 4, 8, 16} && (t.size <= 8 ==> t.align <= 8)
    ensures t.basic == Float ==> t.size == 4 == t.align
    ensures t.basic == Double ==> t.size == 8 == t.align
    ensures t.basic == LongDouble ==> t.size == 16 == t.align
  {
  }

  // ----- all arguments -----

  predicate AllSized(ts: seq<Type>) {
    forall i :: 0 <= i < |ts| ==> Sized(ts[i])
  }

  /** The cursor before argument i. */
  function Start(ts: seq<Type>, i: nat): Cursor
    requires AllSized(ts) && i <= |ts|
  {
    if i == 0 then Cursor(0, 0, 32) else Next(ts[i - 1], Start(ts, i - 1))
  }

  /** The location code of argument i. */
  function CodeOf(ts: seq<Type>, i: nat): nat
    requires AllSized(ts) && i < |ts|
  {
    Code(ts[i], Start(ts, i))
  }

  /** What a location code stands for: integer registers, vector registers or
      bytes of the caller's argument area, from lo up to hi. */
  datatype Place = X(lo: nat, hi: nat) | V(lo: nat, hi: nat) | Stack(lo: nat, hi: nat)

  function PlaceOf(t: Type, a: nat): Place {
    if a < 16 then X(a / 2, a / 2 + Words(t))
    else if a < 32 then V(a / 2 - 8, a / 2 - 8 + Vectors(t))
    else var lo := (a - 32) / 2 * 2; Stack(lo, lo + 8 * Words(t))
  }

  predicate Apart(p: Place, q: Place) {
    (p.X? && q.X?) || (p.V? && q.V?) || (p.Stack? && q.Stack?) ==> p.hi <= q.lo || q.hi <= p.lo
  }

  lemma SlotBounds(t: Type, ns: nat)
    requires Sized(t) && ns % 8 == 0
    ensures ns <= StackSlot(t, ns) && StackSlot(t, ns) % 8 == 0
    ensures Alignment(t) == 16 ==> StackSlot(t, ns) % 16 == 0
  {
    hide AlignUp;
    var m := if Alignment(t) < 8 then 8 else Alignment(t);
    AlignUpIs(ns, m);
    assert m % 8 == 0;
    EightDivides(AlignUp(ns, m), m);
  }

  lemma NextBounds(t: Type, c: Cursor)
    requires Sized(t) && InBounds(c)
    ensures InBounds(Next(t, c))
    ensures var d := Next(t, c); c.nx <= d.nx && c.nv <= d.nv && c.ns <= d.ns
  {
    hide Sized, StackSlot, AlignUp, Words, Vectors, VectorClass;
    SlotBounds(t, c.ns);
  }

  lemma Halves(x: nat)
    ensures 2 * x / 2 == x && (2 * x + 1) / 2 == x && 2 * x % 2 == 0 && (2 * x + 1) % 2 == 1
  {
  }

  lemma SomeUnits(t: Type)
    requires Sized(t)
    ensures Vectors(t) > 0 && (Words(t) == 0 <==> t.size == 0 && t.basic == Struct)
    ensures ByReference(t) ==> !VectorClass(t)
  {
  }

  /** The place that an argument is given. */
  function Given(t: Type, c: Cursor): Place
    requires Sized(t) && InBounds(c)
  {
    var slot := StackSlot(t, c.ns);
    SlotBounds(t, c.ns);
    if VectorClass(t) && c.nv + Vectors(t) <= 8 then V(c.nv, c.nv + Vectors(t))
    else if !VectorClass(t) && FirstWord(t, c.nx) + Words(t) <= 8 then
      X(FirstWord(t, c.nx), FirstWord(t, c.nx) + Words(t))
    else Stack(slot - 32, slot - 32 + 8 * Words(t))
  }

  /** An empty struct passes the test `size <= (8 - nx) * 8` with no register left. */
  predicate Misread(t: Type, c: Cursor) {
    !VectorClass(t) && t.size == 0 && FirstWord(t, c.nx) == 8
  }

  /** What the place p of an argument has to do with the cursors c and d around it. */
  predicate Between(t: Type, p: Place, c: Cursor, d: Cursor) {
    (p.lo < p.hi || (t.size == 0 && p.lo == p.hi)) && match p
    case X(lo, hi) => c.nx <= lo && hi == d.nx <= 8 && !VectorClass(t) && (Alignment(t) == 16 ==> lo % 2 == 0)
    case V(lo, hi) => c.nv == lo && hi == d.nv <= 8 && VectorClass(t)
    case Stack(lo, hi) => c.ns - 32 <= lo && hi == d.ns - 32 && lo % 8 == 0 && (Alignment(t) == 16 ==> lo % 16 == 0)
  }

  lemma OnStack(t: Type, c: Cursor, odd: nat)
    requires Sized(t) && InBounds(c) && odd < 2
    ensures var slot := StackSlot(t, c.ns); var p := PlaceOf(t, slot + odd);
      p == Stack(slot - 32, slot - 32 + 8 * Words(t)) && slot % 2 == 0 && (slot + odd) % 2 == odd
    ensures var lo := StackSlot(t, c.ns) - 32; c.ns - 32 <= lo && lo % 8 == 0 && (Alignment(t) == 16 ==> lo % 16 == 0)
  {
    hide Sized, StackSlot, Alignment, Words, Vectors;
    SlotBounds(t, c.ns);
    var half := StackSlot(t, c.ns) / 8 * 4;
    assert StackSlot(t, c.ns) == 2 * half;
    Halves(half);
    Halves(half - 16);
  }

  lemma InVectors(t: Type, nv: nat)
    requires nv + Vectors(t) <= 8 && 0 < Vectors(t)
    ensures PlaceOf(t, 16 + 2 * nv) == V(nv, nv + Vectors(t)) && (16 + 2 * nv) % 2 == 0
  {
    hide Vectors, Words;
    Halves(8 + nv);
  }

  lemma InWords(t: Type, first: nat, odd: nat)
    requires first + Words(t) <= 8 && first < 8 && odd < 2
    ensures PlaceOf(t, 2 * first + odd) == X(first, first + Words(t)) && (2 * first + odd) % 2 == odd
  {
    hide Vectors, Words;
    Halves(first);
  }

  /** A location code reads back as the place that was given, except that an
      empty struct with no register left reads as the first vector register. */
  lemma ReadsAsGiven(t: Type, c: Cursor)
    requires Sized(t) && InBounds(c)
    ensures PlaceOf(t, Code(t, c)) == Given(t, c) <==> !Misread(t, c)
    ensures Misread(t, c) ==> Code(t, c) == 16 && PlaceOf(t, Code(t, c)) == V(0, 1) && Given(t, c) == X(8, 8)
  {
    hide Sized, StackSlot, Alignment, VectorClass, Words, Vectors, PlaceOf, ByReference, InBounds;
    var odd := if ByReference(t) then 1 else 0;
    SomeUnits(t);
    Facts(t);
    OnStack(t, c, odd);
    if VectorClass(t) {
      if c.nv + Vectors(t) <= 8 {
        InVectors(t, c.nv);
      }
    } else if FirstWord(t, c.nx) + Words(t) <= 8 {
      if FirstWord(t, c.nx) < 8 {
        InWords(t, FirstWord(t, c.nx), odd);
      } else {
        NoWords(t);
      }
    }
  }

  lemma NoWords(t: Type)
    requires Sized(t) && Words(t) == 0
    ensures t.size == 0 && !ByReference(t) && Vectors(t) == 1 && PlaceOf(t, 16) == V(0, 1)
  {
  }

  /** An argument takes what lies between the cursors before and after it; a
      16-byte aligned one starts at an even register or a 16-byte boundary. */
  lemma Placed(t: Type, c: Cursor)
    requires Sized(t) && InBounds(c) && !Misread(t, c)
    ensures Between(t, PlaceOf(t, Code(t, c)), c, Next(t, c))
    ensures Code(t, c) % 2 == (if ByReference(t) then 1 else 0)
  {
    hide Sized, StackSlot, Alignment, VectorClass, Words, Vectors, PlaceOf, ByReference, InBounds;
    var odd := if ByReference(t) then 1 else 0;
    SomeUnits(t);
    ReadsAsGiven(t, c);
    OnStack(t, c, odd);
    if VectorClass(t) {
      if c.nv + Vectors(t) <= 8 {
        InVectors(t, c.nv);
      }
    } else if FirstWord(t, c.nx) + Words(t) <= 8 {
      if FirstWord(t, c.nx) < 8 {
        InWords(t, FirstWord(t, c.nx), odd);
      }
    }
  }

  lemma {:induction false} StartBounds(ts: seq<Type>, i: nat)
    requires AllSized(ts) && i <= |ts|
    ensures InBounds(Start(ts, i))
  {
    if i > 0 {
      StartBounds(ts, i - 1);
      NextBounds(ts[i - 1], Start(ts, i - 1));
    }
  }

  lemma {:induction false} StartGrows(ts: seq<Type>, i: nat, j: nat)
    requires AllSized(ts) && i <= j <= |ts|
    ensures var c, d := Start(ts, i), Start(ts, j); c.nx <= d.nx && c.nv <= d.nv && c.ns <= d.ns
  {
    if i < j {
      StartGrows(ts, i, j - 1);
      StartBounds(ts, j - 1);
      NextBounds(ts[j - 1], Start(ts, j - 1));
    }
  }

  /** Argument i is an empty struct that is read as being in a vector register. */
  predicate MisreadAt(ts: seq<Type>, i: nat)
    requires AllSized(ts) && i < |ts|
  {
    Misread(ts[i], Start(ts, i))
  }

  /** No two arguments share a register or a byte of the stack. */
  lemma NoOverlap(ts: seq<Type>, i: nat, j: nat)
    requires AllSized(ts) && i < j < |ts| && !MisreadAt(ts, i) && !MisreadAt(ts, j)
    ensures Apart(PlaceOf(ts[i], CodeOf(ts, i)), PlaceOf(ts[j], CodeOf(ts, j)))
  {
    hide Sized, Next, Code, PlaceOf, VectorClass, Alignment, Words;
    StartBounds(ts, i);
    StartBounds(ts, j);
    StartGrows(ts, i + 1, j);
    Placed(ts[i], Start(ts, i));
    Placed(ts[j], Start(ts, j));
  }

  lemma InsideStack(ts: seq<Type>, i: nat)
    requires AllSized(ts) && i < |ts|
    ensures var p := PlaceOf(ts[i], CodeOf(ts, i));
      p.Stack? ==> p.lo % 8 == 0 && p.hi <= Start(ts, |ts|).ns - 32
  {
    hide Sized, Next, Code, PlaceOf, VectorClass, Alignment, Words;
    StartBounds(ts, i);
    StartGrows(ts, i + 1, |ts|);
    if MisreadAt(ts, i) {
      ReadsAsGiven(ts[i], Start(ts, i));
    } else {
      Placed(ts[i], Start(ts, i));
    }
  }

  /** Once an argument has overflowed to the stack, no later one of its class
      gets a register; an empty struct is misread then. */
  lemma NoBackfill(ts: seq<Type>, i: nat, j: nat)
    requires AllSized(ts) && i < j < |ts| && VectorClass(ts[i]) == VectorClass(ts[j])
    requires PlaceOf(ts[i], CodeOf(ts, i)).Stack?
    ensures PlaceOf(ts[j], CodeOf(ts, j)).Stack? <==> ts[j].size > 0
  {
    hide Sized, StackSlot, VectorClass, Alignment;
    StartBounds(ts, i);
    StartBounds(ts, j);
    StartGrows(ts, i + 1, j);
    ReadsAsGiven(ts[i], Start(ts, i));
    Placed(ts[i], Start(ts, i));
    NoneLeft(ts[j], Start(ts, j));
  }

  /** No register of its class is left for the argument. */
  lemma NoneLeft(t: Type, c: Cursor)
    requires Sized(t) && InBounds(c) && (if VectorClass(t) then c.nv == 8 else c.nx == 8)
    ensures PlaceOf(t, Code(t, c)).Stack? <==> t.size > 0
  {
    hide Sized, StackSlot, Alignment, Words, Vectors, PlaceOf, ByReference;
    Facts(t);
    SomeUnits(t);
    ReadsAsGiven(t, c);
  }

  // ----- the same by size, alignment and kind alone -----

  /** A code is odd exactly for a struct of more than 16 bytes that is not a
      homogeneous aggregate. */
  lemma OddCode(ts: seq<Type>, i: nat)
    requires AllSized(ts) && i < |ts|
    ensures CodeOf(ts, i) % 2 == 1 <==> ts[i].basic == Struct && ts[i].hfa == 0 && ts[i].size > 16
  {
    hide Sized, Next, Code, PlaceOf, VectorClass, Alignment, Words;
    StartBounds(ts, i);
    if MisreadAt(ts, i) {
      ReadsAsGiven(ts[i], Start(ts, i));
    } else {
      Placed(ts[i], Start(ts, i));
    }
  }

  /** One register or 8-byte word for a pointer, to the argument itself or to a
      copy; otherwise as many as the size fills. */
  lemma WordsTaken(t: Type)
    requires Sized(t)
    ensures t.basic == Pointer || t.basic == Function || (t.basic == Struct && t.hfa == 0 && t.size > 16) ==>
      Words(t) == 1 && Alignment(t) == 8
    ensures !(t.basic == Pointer || t.basic == Function || (t.basic == Struct && t.hfa == 0 && t.size > 16)) ==>
      8 * Words(t) - 8 < t.size <= 8 * Words(t) && Alignment(t) == t.align
    ensures VectorClass(t) <==> t.hfa > 0 || t.basic == Float || t.basic == Double || t.basic == LongDouble
    ensures t.hfa > 0 ==> Vectors(t) == t.hfa
    ensures t.hfa == 0 ==> Vectors(t) == 1
  {
  }

  /** What the i-th argument takes: t, the cursors c and d before and after it,
      its code a, the words w or vectors v it fills, its alignment m. */
  predicate Takes(t: Type, c: Cursor, d: Cursor, a: nat, w: nat, v: nat, m: nat) {
    var first := if m == 16 then c.nx + c.nx % 2 else c.nx;
    var slot, unit := a - a % 2, if m < 8 then 8 else m;
    var stack := 32 <= c.ns <= slot < c.ns + unit && slot % unit == 0 && d.ns == slot + 8 * w;
    if t.hfa > 0 || t.basic == Float || t.basic == Double || t.basic == LongDouble then
      && d.nx == c.nx
      && if c.nv + v <= 8 then a == 16 + 2 * c.nv && d.nv == c.nv + v && d.ns == c.ns else stack && d.nv == 8
    else
      && d.nv == c.nv
      && if first + w <= 8 then a / 2 == first && d.nx == first + w && d.ns == c.ns else stack && d.nx == 8
  }

  /** The rules for every argument of every list, from its kind, its size and
      its alignment; the registers start at 0 and the stack area at code 32. */
  lemma ArgumentTakes(ts: seq<Type>, i: nat)
    requires AllSized(ts) && i < |ts|
    ensures Start(ts, 0) == Cursor(0, 0, 32)
    ensures var t, c, d, a := ts[i], Start(ts, i), Start(ts, i + 1), CodeOf(ts, i);
      if t.basic == Pointer || t.basic == Function || (t.basic == Struct && t.hfa == 0 && t.size > 16) then
        Takes(t, c, d, a, 1, 1, 8)
      else Takes(t, c, d, a, (t.size + 7) / 8, if t.hfa > 0 then t.hfa else 1, t.align)
  {
    var t, c := ts[i], Start(ts, i);
    StartBounds(ts, i);
    assert Start(ts, i + 1) == Next(t, c);
    TakesBy(t, c);
    WordsTaken(t);
    if !(t.basic == Pointer || t.basic == Function || (t.basic == Struct && t.hfa == 0 && t.size > 16)) {
      WordsExactly(t.size, Words(t));
    }
    hide Next, Code, StackSlot, Sized, Takes, Words, Vectors, VectorClass, Alignment;
  }

  lemma WordsExactly(size: nat, w: nat)
    requires 8 * w - 8 < size <= 8 * w
    ensures w == (size + 7) / 8
  {
  }

  lemma TakesBy(t: Type, c: Cursor)
    requires Sized(t) && InBounds(c)
    ensures Takes(t, c, Next(t, c), Code(t, c), Words(t), Vectors(t), Alignment(t))
  {
    hide AlignUp, Sized, Words, Vectors, Alignment, StackSlot;
    WordsTaken(t);
    SlotBounds(t, c.ns);
    SlotUnit(t, c.ns);
    SomeUnits(t);
    EvenSlot(StackSlot(t, c.ns));
    Halves(FirstWord(t, c.nx));
    EvenUp(c.nx);
  }

  lemma EvenUp(nx: nat)
    ensures (nx + 1) / 2 * 2 == nx + nx % 2
  {
  }

  lemma EvenSlot(slot: nat)
    requires slot % 8 == 0
    ensures slot % 2 == 0 && (slot + 1) % 2 == 1
  {
    Halves(slot / 8 * 4);
  }

  /** The slot is the first one at the argument's alignment, or at 8 bytes. */
  lemma SlotUnit(t: Type, ns: nat)
    requires Sized(t) && ns % 8 == 0
    ensures var unit := if Alignment(t) < 8 then 8 else Alignment(t);
      ns <= StackSlot(t, ns) < ns + unit && StackSlot(t, ns) % unit == 0
  {
    hide AlignUp;
    AlignUpIs(ns, if Alignment(t) < 8 then 8 else Alignment(t));
  }

  /** Which registers or bytes a code stands for, and which arguments are misread. */
  lemma PlaceTaken(ts: seq<Type>, i: nat)
    requires AllSized(ts) && i < |ts|
    ensures MisreadAt(ts, i) <==> ts[i].size == 0 && CodeOf(ts, i) == 16
    ensures var d, a, p := Start(ts, i + 1), CodeOf(ts, i), PlaceOf(ts[i], CodeOf(ts, i));
      !MisreadAt(ts, i) ==>
        p == if a < 16 then X(a / 2, d.nx)
             else if a < 32 then V(a / 2 - 8, d.nv)
             else Stack(a - a % 2 - 32, d.ns - 32)
  {
    var t, c := ts[i], Start(ts, i);
    StartBounds(ts, i);
    assert Start(ts, i + 1) == Next(t, c);
    PlaceBy(t, c);
  }

  lemma PlaceBy(t: Type, c: Cursor)
    requires Sized(t) && InBounds(c)
    ensures Misread(t, c) <==> t.size == 0 && Code(t, c) == 16
    ensures var d, a, p := Next(t, c), Code(t, c), PlaceOf(t, Code(t, c));
      !Misread(t, c) ==>
        p == if a < 16 then X(a / 2, d.nx)
             else if a < 32 then V(a / 2 - 8, d.nv)
             else Stack(a - a % 2 - 32, d.ns - 32)
  {
    ReadsAsGiven(t, c);
    OnStack(t, c, if ByReference(t) then 1 else 0);
    Facts(t);
    SomeUnits(t);
    Halves(FirstWord(t, c.nx));
    Halves(c.nv + 8);
    if !Misread(t, c) {
      Placed(t, c);
    }
    hide Sized, StackSlot, Words, Vectors, Alignment, PlaceOf;
  }

  /** A struct of 24 bytes goes by pointer and a struct of 16 bytes in two
      registers; the integer behind either takes the next register. */
  lemma BigStructByPointer(align: nat)
    requires align in {1, 2, 4, 8}
    ensures var big, small, long := Type(Struct, 24, align, 0), Type(Struct, 16, align, 0), Type(Integer, 8, 8, 0);
      && AllSized([big, long]) && CodeOf([big, long], 0) == 1 && CodeOf([big, long], 1) == 2
      && AllSized([small, long]) && CodeOf([small, long], 0) == 0 && CodeOf([small, long], 1) == 4
  {
    var big, small, long := Type(Struct, 24, align, 0), Type(Struct, 16, align, 0), Type(Integer, 8, 8, 0);
    TwoArguments(big, long);
    TwoArguments(small, long);
    hide StackSlot;
    assert Code(big, Cursor(0, 0, 32)) == 1 && Next(big, Cursor(0, 0, 32)) == Cursor(1, 0, 32);
    assert Code(small, Cursor(0, 0, 32)) == 0 && Next(small, Cursor(0, 0, 32)) == Cursor(2, 0, 32);
    assert Code(long, Cursor(1, 0, 32)) == 2 && Code(long, Cursor(2, 0, 32)) == 4;
  }

  lemma TwoArguments(t: Type, u: Type)
    requires Sized(t) && Sized(u)
    ensures AllSized([t, u]) && CodeOf([t, u], 0) == Code(t, Cursor(0, 0, 32))
    ensures CodeOf([t, u], 1) == Code(u, Next(t, Cursor(0, 0, 32)))
  {
    hide Sized, Code, Next;
    assert Start([t, u], 0) == Cursor(0, 0, 32);
    assert Start([t, u], 1) == Next(t, Start([t, u], 0));
  }

  /** Eight integers, an empty struct and a double: the struct and the double
      have the same code, that of the first vector register. */
  lemma EmptyStructMisread(ts: seq<Type>)
    requires |ts| == 10 && ts[8] == Type(Struct, 0, 1, 0) && ts[9] == Type(Double, 8, 8, 0)
    requires forall i :: 0 <= i < 8 ==> ts[i] == Type(Integer, 8, 8, 0)
    ensures AllSized(ts) && Start(ts, 8) == Start(ts, 9) == Cursor(8, 0, 32)
    ensures CodeOf(ts, 8) == CodeOf(ts, 9) == 16
    ensures Given(ts[8], Cursor(8, 0, 32)) == X(8, 8) && Given(ts[9], Cursor(8, 0, 32)) == V(0, 1)
  {
    hide Sized, Next, Code, Given;
    EmptyTaken();
    LongTaken(0);
    assert AllSized(ts);
    hide Start, CodeOf, AllSized;
    StartNext(ts, 0);
    for n := 0 to 8
      invariant Start(ts, n) == Cursor(n, 0, 32)
    {
      LongTaken(n);
      StartNext(ts, n);
    }
    StartNext(ts, 8);
    StartNext(ts, 9);
  }

  lemma StartNext(ts: seq<Type>, i: nat)
    requires AllSized(ts) && i < |ts|
    ensures Start(ts, 0) == Cursor(0, 0, 32)
    ensures Start(ts, i + 1) == Next(ts[i], Start(ts, i)) && CodeOf(ts, i) == Code(ts[i], Start(ts, i))
  {
    hide Sized, Next, Code;
  }

  lemma LongTaken(n: nat)
    requires n < 8
    ensures var long := Type(Integer, 8, 8, 0); Sized(long) && Next(long, Cursor(n, 0, 32)) == Cursor(n + 1, 0, 32)
  {
  }

  lemma EmptyTaken()
    ensures var empty, c := Type(Struct, 0, 1, 0), Cursor(8, 0, 32);
      Sized(empty) && Next(empty, c) == c && Code(empty, c) == 16 && Given(empty, c) == X(8, 8)
    ensures var double, c := Type(Double, 8, 8, 0), Cursor(8, 0, 32);
      Sized(double) && Code(double, c) == 16 && Given(double, c) == V(0, 1)
  {
  }

  /** `arm64_pcs_aux`: the location codes of the arguments, stored from a[lo]
      on, and the size of the argument area. */
  method PcsAux(ts: seq<Type>, a: array<nat>, lo: nat) returns (stack: nat)
    requires AllSized(ts) && lo + |ts| <= a.Length
    modifies a
    ensures forall i :: 0 <= i < |ts| ==> a[lo + i] == CodeOf(ts, i)
    ensures forall k :: 0 <= k < a.Length && !(lo <= k < lo + |ts|) ==> a[k] == old(a[k])
    ensures Start(ts, |ts|).ns == stack + 32
  {
    hide Sized, Next, Code;
    var nx, nv, ns := 0, 0, 32;
    for i := 0 to |ts|
      invariant Start(ts, i) == Cursor(nx, nv, ns)
      invariant forall k :: 0 <= k < i ==> a[lo + k] == CodeOf(ts, k)
      invariant forall k :: 0 <= k < a.Length && !(lo <= k < lo + i) ==> a[k] == old(a[k])
    {
      StartBounds(ts, i);
      var code;
      code, nx, nv, ns := PassOne(ts[i], nx, nv, ns);
      a[lo + i] := code;
    }
    StartBounds(ts, |ts|);
    stack := ns - 32;
  }

  const VOID: nat := 0xffff_ffff_ffff_ffff

  /** The class of a result: 16 in V0, 1 through the pointer in X8, 0 in X0. */
  function ResultClass(t: Type): nat {
    if t.hfa > 0 || t.basic == Float || t.basic == Double || t.basic == LongDouble then 16
    else if t.basic == Struct && t.size > 16 then 1
    else 0
  }

  /** The class of a returned value, by its kind and its size. */
  lemma ReturnClass(t: Type)
    requires Sized(t)
    ensures CodeOf([t], 0) == ResultClass(t)
  {
    assert Start([t], 0) == Cursor(0, 0, 32);
  }

  /** `arm64_pcs`: codes of the returned value and of the arguments. */
  method Pcs(result: Option<Type>, ts: seq<Type>, a: array<nat>) returns (stack: nat)
    requires AllSized(ts) && a.Length == 1 + |ts| && (result.Some? ==> Sized(result.value))
    modifies a
    ensures a[0] == if result.None? then 0xffff_ffff_ffff_ffff else ResultClass(result.value)
    ensures result.Some? ==> a[0] == CodeOf([result.value], 0)
    ensures forall i :: 0 <= i < |ts| ==> a[1 + i] == CodeOf(ts, i)
    ensures Start(ts, |ts|).ns == stack + 32
  {
    hide Sized, Next, Code;
    match result {
      case None => a[0] := VOID;
      case Some(t) =>
        var _ := PcsAux([t], a, 0);
        assert a[0 + 0] == CodeOf([t], 0);
        ReturnClass(t);
    }
    stack := PcsAux(ts, a, 1);
  }
}
