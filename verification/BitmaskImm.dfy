/** A64 bitmask immediates: the encoder of the code generator against the
    decoder of the architecture (DecodeBitMasks in the shared pseudocode of
    the Arm Architecture Reference Manual, DDI 0487).

    Throughout, a word that results from a function is bound to a variable
    before a bit operation is applied to it; the solver needs that. */
module BitmaskImm {
  import opened Wrappers

  /** The low `n` bits set. */
  function Mask(n: bv8): bv64
    requires n <= 64
  {
    if n == 64 then 0xffff_ffff_ffff_ffff else ((1 as bv64) << n) - 1
  }

  predicate IsSize(size: bv8) {
    size == 2 || size == 4 || size == 8 || size == 16 || size == 32 || size == 64
  }

  // ----- the architecture's decoder -----

  /** The element size selected by N:imms, 0 for the reserved patterns. */
  function ElementSize(e: bv32): (size: bv8)
    ensures size == 0 || IsSize(size)
  {
    if e & 0x1000 != 0 then 64
    else if e & 0x20 == 0 then 32
    else if e & 0x10 == 0 then 16
    else if e & 0x8 == 0 then 8
    else if e & 0x4 == 0 then 4
    else if e & 0x2 == 0 then 2
    else 0
  }

  /** Rotation of the low `size` bits. */
  function RotateRight(v: bv64, r: bv8, size: bv8): bv64
    requires r <= size && IsSize(size)
  {
    ShiftBoth(v, r, size - r, size)
  }

  function ShiftBoth(v: bv64, right: bv8, left: bv8, size: bv8): bv64
    requires right <= 64 && left <= 64
  {
    LowBits((v >> right) | (v << left), size)
  }

  /** The low `size` bits of `x`. */
  function LowBits(x: bv64, size: bv8): bv64 {
    if size == 2 then x & 0x3
    else if size == 4 then x & 0xf
    else if size == 8 then x & 0xff
    else if size == 16 then x & 0xffff
    else if size == 32 then x & 0xffff_ffff
    else x
  }

  /** The low `size` bits of `v` repeated to 64 bits, for a power of two `size`. */
  function Replicate(v: bv64, size: bv8): bv64 {
    var v2 := if size <= 2 then v | (v << 2) else v;
    var v4 := if size <= 4 then v2 | (v2 << 4) else v2;
    var v8 := if size <= 8 then v4 | (v4 << 8) else v4;
    var v16 := if size <= 16 then v8 | (v8 << 16) else v8;
    if size <= 32 then v16 | (v16 << 32) else v16
  }

  /** `len` ones rotated right by `r` within `size` bits, repeated to 64 bits. */
  function Pattern(size: bv8, len: bv8, r: bv8): bv64
    requires IsSize(size) && len <= size && r < size
  {
    Replicate(RotateRight(Mask(len), r, size), size)
  }

  /** The fields of N:immr:imms once the element size is known. */
  function Length(e: bv32, size: bv8): (len: bv8)
    requires IsSize(size)
    ensures 1 <= len <= size
  {
    if size == 2 then ((e & 0x1) as bv8) + 1
    else if size == 4 then ((e & 0x3) as bv8) + 1
    else if size == 8 then ((e & 0x7) as bv8) + 1
    else if size == 16 then ((e & 0xf) as bv8) + 1
    else if size == 32 then ((e & 0x1f) as bv8) + 1
    else ((e & 0x3f) as bv8) + 1
  }

  function Rotation(e: bv32, size: bv8): (r: bv8)
    requires IsSize(size)
    ensures r < size
  {
    if size == 2 then ((e >> 6) & 0x1) as bv8
    else if size == 4 then ((e >> 6) & 0x3) as bv8
    else if size == 8 then ((e >> 6) & 0x7) as bv8
    else if size == 16 then ((e >> 6) & 0xf) as bv8
    else if size == 32 then ((e >> 6) & 0x1f) as bv8
    else ((e >> 6) & 0x3f) as bv8
  }

  /** DecodeBitMasks for a logical immediate: the 13 bits N:immr:imms. */
  function Decode(e: bv32): Option<bv64> {
    var size := ElementSize(e);
    if size == 0 || Length(e, size) == size then None
    else Some(Pattern(size, Length(e, size), Rotation(e, size)))
  }

  // ----- the compiler's encoder -----

  /** The smallest power-of-two period of x, as the cascade of tests finds it. */
  function Period(x: bv64): (n: bv8)
    ensures IsSize(n)
  {
    if x >> 2 == x & 0x3fff_ffff_ffff_ffff then 2
    else if x >> 4 == x & 0x0fff_ffff_ffff_ffff then 4
    else if x >> 8 == x & 0x00ff_ffff_ffff_ffff then 8
    else if x >> 16 == x & 0x0000_ffff_ffff_ffff then 16
    else if x >> 32 == x & 0x0000_0000_ffff_ffff then 32
    else 64
  }

  /** x after the six lines that strip low zeros. */
  function StripZeros(x0: bv64): bv64 {
    var x1 := if x0 & 0xffff_ffff == 0 then x0 >> 32 else x0;
    var x2 := if x1 & 0xffff == 0 then x1 >> 16 else x1;
    var x3 := if x2 & 0xff == 0 then x2 >> 8 else x2;
    var x4 := if x3 & 0xf == 0 then x3 >> 4 else x3;
    var x5 := if x4 & 0x3 == 0 then x4 >> 2 else x4;
    if x5 & 0x1 == 0 then x5 >> 1 else x5
  }

  /** `pos` after those lines. */
  function TrailingZeros(x0: bv64): (pos: bv8)
    ensures pos < 64
  {
    var x1 := if x0 & 0xffff_ffff == 0 then x0 >> 32 else x0;
    var x2 := if x1 & 0xffff == 0 then x1 >> 16 else x1;
    var x3 := if x2 & 0xff == 0 then x2 >> 8 else x2;
    var x4 := if x3 & 0xf == 0 then x3 >> 4 else x3;
    var x5 := if x4 & 0x3 == 0 then x4 >> 2 else x4;
    (if x0 & 0xffff_ffff == 0 then 32 else 0) + (if x1 & 0xffff == 0 then 16 else 0)
    + (if x2 & 0xff == 0 then 8 else 0) + (if x3 & 0xf == 0 then 4 else 0)
    + (if x4 & 0x3 == 0 then 2 else 0) + (if x5 & 0x1 == 0 then 1 else 0)
  }

  /** x after the six lines that strip low ones. */
  function StripOnes(x0: bv64): bv64 {
    var x1 := if !x0 & 0xffff_ffff == 0 then x0 >> 32 else x0;
    var x2 := if !x1 & 0xffff == 0 then x1 >> 16 else x1;
    var x3 := if !x2 & 0xff == 0 then x2 >> 8 else x2;
    var x4 := if !x3 & 0xf == 0 then x3 >> 4 else x3;
    var x5 := if !x4 & 0x3 == 0 then x4 >> 2 else x4;
    if !x5 & 0x1 == 0 then x5 >> 1 else x5
  }

  /** `len` after those lines. */
  function TrailingOnes(x0: bv64): (len: bv8)
    ensures len < 64
  {
    var x1 := if !x0 & 0xffff_ffff == 0 then x0 >> 32 else x0;
    var x2 := if !x1 & 0xffff == 0 then x1 >> 16 else x1;
    var x3 := if !x2 & 0xff == 0 then x2 >> 8 else x2;
    var x4 := if !x3 & 0xf == 0 then x3 >> 4 else x3;
    var x5 := if !x4 & 0x3 == 0 then x4 >> 2 else x4;
    (if !x0 & 0xffff_ffff == 0 then 32 else 0) + (if !x1 & 0xffff == 0 then 16 else 0)
    + (if !x2 & 0xff == 0 then 8 else 0) + (if !x3 & 0xf == 0 then 4 else 0)
    + (if !x4 & 0x3 == 0 then 2 else 0) + (if !x5 & 0x1 == 0 then 1 else 0)
  }

  /** The final expression of the encoder, before and after the correction for `neg`. */
  function Pack(rep: bv8, pos: bv8, len: bv8): bv32 {
    var rep', pos', len' := rep as bv32, pos as bv32, len as bv32;
    (0x1000 & (rep' << 6)) | ((((rep' - 1) ^ 31) << 1) & 63) | (((rep' - pos') & (rep' - 1)) << 6) | (len' - 1)
  }

  function PackNegated(rep: bv8, pos: bv8, len: bv8): bv32 {
    Pack(rep, (pos + len) & (rep - 1), rep - len)
  }

  /** The part of the encoder after the choice between x and ~x. */
  function EncodeEven(x: bv64, neg: bool): Option<bv32> {
    if x == 0 then None else
    var rep := Period(x);
    var y := LowBits(x, rep);
    var z := StripZeros(y);
    if StripOnes(z) != 0 then None
    else if neg then Some(PackNegated(rep, TrailingZeros(y), TrailingOnes(z)))
    else Some(Pack(rep, TrailingZeros(y), TrailingOnes(z)))
  }

  /** The source's encoder; None stands for its result -1. */
  function Encode(x: bv64): Option<bv32> {
    if x & 1 != 0 then EncodeEven(!x, true) else EncodeEven(x, false)
  }

  /** A run of `l` ones starting at bit `p`. */
  function Run(p: bv8, l: bv8): bv64
    requires p <= 64 && l < 64
  {
    (((1 as bv64) << l) - 1) << p
  }

  predicate IsRun(size: bv8, p: bv8, l: bv8) {
    IsSize(size) && 1 <= p < size && 1 <= l < size && p + l <= size
  }

  // ----- masks and runs -----

  lemma MaskDown(a: bv8, b: bv8, x: bv64, y: bv64)
    requires b <= a <= 64 && x == Mask(a) && y == Mask(a - b)
    ensures x >> b == y
  {
  }

  lemma MaskOrder(a: bv8, b: bv8, x: bv64, y: bv64)
    requires a <= b <= 64 && x == Mask(a) && y == Mask(b)
    ensures x & y == x
  {
  }

  lemma Vanishes(x: bv64, b: bv8, y: bv64)
    requires b < 64 && y == Mask(b) && x & y == x
    ensures x >> b == 0
  {
  }

  predicate Difference(v: bv64, hi: bv64, lo: bv64) {
    v ^ hi ^ lo == 0
  }

  // One distance at a time: a run and its two bounds, moved down by a fixed distance.

  lemma RunLower32(p: bv8, l: bv8, v: bv64, w: bv64)
    requires 32 <= p < 64 && l < 64 && v == Run(p, l) && w == Run(p - 32, l)
    ensures v == w << 32
  {
  }

  lemma MaskLower32(p: bv8, v: bv64, w: bv64)
    requires 32 <= p <= 64 && v == Mask(p) && w == Mask(p - 32)
    ensures v == (w << 32) | 0xffff_ffff
  {
  }

  lemma DifferenceUp32(v: bv64, hi: bv64, lo: bv64, w: bv64, ih: bv64, ol: bv64)
    requires Difference(w, ih, ol)
    requires v == w << 32 && hi == (ih << 32) | 0xffff_ffff && lo == (ol << 32) | 0xffff_ffff
    ensures Difference(v, hi, lo)
  {
  }

  lemma RunLower16(p: bv8, l: bv8, v: bv64, w: bv64)
    requires 16 <= p < 32 && l < 64 && v == Run(p, l) && w == Run(p - 16, l)
    ensures v == w << 16
  {
  }

  lemma MaskLower16(p: bv8, v: bv64, w: bv64)
    requires 16 <= p <= 64 && v == Mask(p) && w == Mask(p - 16)
    ensures v == (w << 16) | 0xffff
  {
  }

  lemma DifferenceUp16(v: bv64, hi: bv64, lo: bv64, w: bv64, ih: bv64, ol: bv64)
    requires Difference(w, ih, ol)
    requires v == w << 16 && hi == (ih << 16) | 0xffff && lo == (ol << 16) | 0xffff
    ensures Difference(v, hi, lo)
  {
  }

  lemma RunLower8(p: bv8, l: bv8, v: bv64, w: bv64)
    requires 8 <= p < 16 && l < 64 && v == Run(p, l) && w == Run(p - 8, l)
    ensures v == w << 8
  {
  }

  lemma MaskLower8(p: bv8, v: bv64, w: bv64)
    requires 8 <= p <= 64 && v == Mask(p) && w == Mask(p - 8)
    ensures v == (w << 8) | 0xff
  {
  }

  lemma DifferenceUp8(v: bv64, hi: bv64, lo: bv64, w: bv64, ih: bv64, ol: bv64)
    requires Difference(w, ih, ol)
    requires v == w << 8 && hi == (ih << 8) | 0xff && lo == (ol << 8) | 0xff
    ensures Difference(v, hi, lo)
  {
  }

  lemma RunLower4(p: bv8, l: bv8, v: bv64, w: bv64)
    requires 4 <= p < 8 && l < 64 && v == Run(p, l) && w == Run(p - 4, l)
    ensures v == w << 4
  {
  }

  lemma MaskLower4(p: bv8, v: bv64, w: bv64)
    requires 4 <= p <= 64 && v == Mask(p) && w == Mask(p - 4)
    ensures v == (w << 4) | 0xf
  {
  }

  lemma DifferenceUp4(v: bv64, hi: bv64, lo: bv64, w: bv64, ih: bv64, ol: bv64)
    requires Difference(w, ih, ol)
    requires v == w << 4 && hi == (ih << 4) | 0xf && lo == (ol << 4) | 0xf
    ensures Difference(v, hi, lo)
  {
  }

  lemma RunLower1(p: bv8, l: bv8, v: bv64, w: bv64)
    requires 1 <= p < 4 && l < 64 && v == Run(p, l) && w == Run(p - 1, l)
    ensures v == w << 1
  {
  }

  lemma MaskLower1(p: bv8, v: bv64, w: bv64)
    requires 1 <= p <= 64 && v == Mask(p) && w == Mask(p - 1)
    ensures v == (w << 1) | 0x1
  {
  }

  lemma DifferenceUp1(v: bv64, hi: bv64, lo: bv64, w: bv64, ih: bv64, ol: bv64)
    requires Difference(w, ih, ol)
    requires v == w << 1 && hi == (ih << 1) | 0x1 && lo == (ol << 1) | 0x1
    ensures Difference(v, hi, lo)
  {
  }

  lemma LowerNumbers(p: bv8, q: bv8, l: bv8, d: bv8, a: bv8, b: bv8)
    requires p < 64 && l < 64 && q == p + l <= 64 && d <= p && a == p - d && b == q - d
    ensures a < 64 && b == a + l && b <= 64 && d <= q && a < 64 - d
  {
  }

  lemma RunAtZero(q: bv8, l: bv8, v: bv64, hi: bv64, lo: bv64)
    requires q < 64 && l == q && v == Run(0, l) && hi == Mask(q) && lo == Mask(0)
    ensures Difference(v, hi, lo)
  {
  }

  lemma {:induction false} RunSplit4(p: bv8, q: bv8, l: bv8, v: bv64, hi: bv64, lo: bv64)
    requires p < 4 && l < 64 && q == p + l <= 64 && v == Run(p, l) && hi == Mask(q) && lo == Mask(p)
    ensures Difference(v, hi, lo)
    decreases p
  {
    hide *;
    if p == 0 {
      RunAtZero(q, l, v, hi, lo);
    } else {
      var a, b := p - 1, q - 1;
      LowerNumbers(p, q, l, 1, a, b);
      var w, ih, ol := Run(a, l), Mask(b), Mask(a);
      RunSplit4(a, b, l, w, ih, ol);
      RunLower1(p, l, v, w);
      MaskLower1(q, hi, ih);
      MaskLower1(p, lo, ol);
      DifferenceUp1(v, hi, lo, w, ih, ol);
    }
  }

  lemma RunSplit8(p: bv8, q: bv8, l: bv8, v: bv64, hi: bv64, lo: bv64)
    requires p < 8 && l < 64 && q == p + l <= 64 && v == Run(p, l) && hi == Mask(q) && lo == Mask(p)
    ensures Difference(v, hi, lo)
  {
    hide *;
    if p < 4 {
      RunSplit4(p, q, l, v, hi, lo);
    } else {
      var a, b := p - 4, q - 4;
      LowerNumbers(p, q, l, 4, a, b);
      var w, ih, ol := Run(a, l), Mask(b), Mask(a);
      RunSplit4(a, b, l, w, ih, ol);
      RunLower4(p, l, v, w);
      MaskLower4(q, hi, ih);
      MaskLower4(p, lo, ol);
      DifferenceUp4(v, hi, lo, w, ih, ol);
    }
  }

  lemma RunSplit16(p: bv8, q: bv8, l: bv8, v: bv64, hi: bv64, lo: bv64)
    requires p < 16 && l < 64 && q == p + l <= 64 && v == Run(p, l) && hi == Mask(q) && lo == Mask(p)
    ensures Difference(v, hi, lo)
  {
    hide *;
    if p < 8 {
      RunSplit8(p, q, l, v, hi, lo);
    } else {
      var a, b := p - 8, q - 8;
      LowerNumbers(p, q, l, 8, a, b);
      var w, ih, ol := Run(a, l), Mask(b), Mask(a);
      RunSplit8(a, b, l, w, ih, ol);
      RunLower8(p, l, v, w);
      MaskLower8(q, hi, ih);
      MaskLower8(p, lo, ol);
      DifferenceUp8(v, hi, lo, w, ih, ol);
    }
  }

  lemma RunSplit32(p: bv8, q: bv8, l: bv8, v: bv64, hi: bv64, lo: bv64)
    requires p < 32 && l < 64 && q == p + l <= 64 && v == Run(p, l) && hi == Mask(q) && lo == Mask(p)
    ensures Difference(v, hi, lo)
  {
    hide *;
    if p < 16 {
      RunSplit16(p, q, l, v, hi, lo);
    } else {
      var a, b := p - 16, q - 16;
      LowerNumbers(p, q, l, 16, a, b);
      var w, ih, ol := Run(a, l), Mask(b), Mask(a);
      RunSplit16(a, b, l, w, ih, ol);
      RunLower16(p, l, v, w);
      MaskLower16(q, hi, ih);
      MaskLower16(p, lo, ol);
      DifferenceUp16(v, hi, lo, w, ih, ol);
    }
  }

  /** A run of ones is the difference of two masks. */
  lemma RunSplit(p: bv8, q: bv8, l: bv8, v: bv64, hi: bv64, lo: bv64)
    requires p < 64 && l < 64 && q == p + l <= 64 && v == Run(p, l) && hi == Mask(q) && lo == Mask(p)
    ensures Difference(v, hi, lo)
  {
    hide *;
    if p < 32 {
      RunSplit32(p, q, l, v, hi, lo);
    } else {
      var a, b := p - 32, q - 32;
      LowerNumbers(p, q, l, 32, a, b);
      var w, ih, ol := Run(a, l), Mask(b), Mask(a);
      RunSplit32(a, b, l, w, ih, ol);
      RunLower32(p, l, v, w);
      MaskLower32(q, hi, ih);
      MaskLower32(p, lo, ol);
      DifferenceUp32(v, hi, lo, w, ih, ol);
    }
  }

  // ----- what a packed run decodes to -----

  lemma PackFieldsSmall(size: bv8, p: bv8, l: bv8, e: bv32)
    requires size == 2 || size == 4 || size == 8
    requires p < size && 1 <= l < size && e == Pack(size, p, l)
    ensures ElementSize(e) == size && Length(e, size) == l && Rotation(e, size) == (size - p) & (size - 1)
    ensures e < 0x2000
  {
  }

  lemma PackFields16(p: bv8, l: bv8, e: bv32)
    requires p < 16 && 1 <= l < 16 && e == Pack(16, p, l)
    ensures ElementSize(e) == 16 && Length(e, 16) == l && Rotation(e, 16) == (16 - p) & 15
    ensures e < 0x2000
  {
  }

  lemma PackFields32(p: bv8, l: bv8, e: bv32)
    requires p < 32 && 1 <= l < 32 && e == Pack(32, p, l)
    ensures ElementSize(e) == 32 && Length(e, 32) == l && Rotation(e, 32) == (32 - p) & 31
    ensures e < 0x2000
  {
  }

  lemma PackFields64(p: bv8, l: bv8, e: bv32)
    requires p < 64 && 1 <= l < 64 && e == Pack(64, p, l)
    ensures ElementSize(e) == 64 && Length(e, 64) == l && Rotation(e, 64) == (64 - p) & 63
    ensures e < 0x2000
  {
  }

  lemma PackFields(size: bv8, p: bv8, l: bv8, e: bv32, r: bv8)
    requires IsSize(size) && p < size && 1 <= l < size && e == Pack(size, p, l)
    requires r == (size - p) & (size - 1)
    ensures ElementSize(e) == size && Length(e, size) == l && Rotation(e, size) == r
    ensures e < 0x2000
  {
    if size == 64 { PackFields64(p, l, e); }
    else if size == 32 { PackFields32(p, l, e); }
    else if size == 16 { PackFields16(p, l, e); }
    else { PackFieldsSmall(size, p, l, e); }
  }

  lemma ShiftBothParts(m: bv64, r: bv8, p: bv8, size: bv8, a: bv64, b: bv64, v: bv64)
    requires r <= 64 && p <= 64 && a == m >> r && b == m << p && v == a | b
    ensures ShiftBoth(m, r, p, size) == LowBits(v, size)
  {
  }

  lemma RotateIsShifts(m: bv64, r: bv8, p: bv8, size: bv8)
    requires IsSize(size) && r <= size <= 64 && p == size - r && p <= 64
    ensures RotateRight(m, r, size) == ShiftBoth(m, r, p, size)
  {
    hide ShiftBoth;
  }

  lemma RunIsShift(p: bv8, l: bv8, m: bv64)
    requires p <= 64 && l < 64 && m == Mask(l)
    ensures m << p == Run(p, l)
  {
  }

  /** The run stays inside the element. */
  lemma RunInside(size: bv8, q: bv8, v: bv64, hi: bv64, lo: bv64, full: bv64)
    requires IsSize(size) && q <= size && hi == Mask(q) && full == Mask(size) && lo & hi == lo && Difference(v, hi, lo)
    ensures LowBits(v, size) == v
  {
  }

  lemma NothingBelow(l: bv8, r: bv8, m: bv64)
    requires l <= r < 64 && m == Mask(l)
    ensures m >> r == 0
  {
    hide *;
    var rest := Mask(r);
    MaskOrder(l, r, m, rest);
    Vanishes(m, r, rest);
  }

  /** Rotating `l` ones right by size - p is the run starting at p. */
  lemma RotatedRun(size: bv8, p: bv8, q: bv8, l: bv8, r: bv8, m: bv64, v: bv64, hi: bv64, lo: bv64)
    requires q == p + l && p < 64 && l < 64 && q <= 64 && IsSize(size) && m == Mask(l)
    requires p <= q <= size <= 64 && p < 64 && l <= r < 64 && 1 <= r <= size && p == size - r
    requires lo == Mask(p) && hi == Mask(q)
    requires v == Run(p, l)
    ensures RotateRight(m, r, size) == v
  {
    hide *;
    var full := Mask(size);
    NothingBelow(l, r, m);
    MaskOrder(p, q, lo, hi);
    RunSplit(p, q, l, v, hi, lo);
    RunInside(size, q, v, hi, lo, full);
    RunIsShift(p, l, m);
    ShiftBothParts(m, r, p, size, 0, v, v);
    RotateIsShifts(m, r, p, size);
  }

  /** Rotating size - l ones right by size - q leaves a gap where the run is. */
  lemma RotatedGap(size: bv8, p: bv8, q: bv8, l: bv8, r: bv8, k: bv8, n: bv64, v: bv64, hi: bv64, lo: bv64)
    requires q == p + l && p < 64 && l < 64 && q <= 64 && IsSize(size) && k == size - l && k <= 64 && n == Mask(k)
    requires p <= q < size <= 64 && l <= q <= 64 && r <= k && 1 <= r <= size && q == size - r && k - r == p
    requires lo == Mask(p) && hi == Mask(q) && v == Run(p, l)
    ensures RotateRight(n, r, size) == LowBits(!v, size)
  {
    hide *;
    var full := Mask(size);
    MaskDown(k, r, n, lo);
    MaskOrder(p, q, lo, hi);
    RunSplit(p, q, l, v, hi, lo);
    var b := n << q;
    ShiftBothParts(n, r, q, size, lo, b, lo | b);
    RotateIsShifts(n, r, q, size);
    GapAbove(size, l, k, q, n, b, hi, full);
    GapCombine(size, v, hi, lo, b, full);
  }

  lemma GapAbove64(l: bv8, k: bv8, q: bv8, n: bv64, b: bv64, hi: bv64)
    requires l <= q < 64 && k == 64 - l && n == Mask(k) && b == n << q && hi == Mask(q)
    ensures b == !hi
  {
  }

  lemma GapXor(b: bv64, top: bv64, hi: bv64, full: bv64)
    requires Difference(b, top, hi) && full & top == full
    ensures b & full == full & !hi
  {
  }

  lemma GapAboveSmall(size: bv8, k: bv8, q: bv8, t: bv8, n: bv64, b: bv64, top: bv64, hi: bv64, full: bv64)
    requires q < 64 && k < 64 && size <= t <= 64
    requires n == Mask(k) && b == Run(q, k) && hi == Mask(q) && full == Mask(size) && top == Mask(t)
    requires t == q + k
    ensures n << q == b && b & full == full & !hi
  {
    hide *;
    RunIsShift(q, k, n);
    RunSplit(q, t, k, b, top, hi);
    MaskOrder(size, t, full, top);
    GapXor(b, top, hi, full);
  }

  lemma GapAbove(size: bv8, l: bv8, k: bv8, q: bv8, n: bv64, b: bv64, hi: bv64, full: bv64)
    requires IsSize(size) && l <= q < size <= 64 && k == size - l && k <= 64
    requires n == Mask(k) && b == n << q && hi == Mask(q) && full == Mask(size)
    ensures b & full == full & !hi
  {
    hide Mask, Run;
    if size == 64 {
      GapAbove64(l, k, q, n, b, hi);
    } else {
      var t := q + k;
      assert size <= t <= 64 && q < 64 && k < 64;
      GapAboveSmall(size, k, q, t, n, Run(q, k), Mask(t), hi, full);
    }
  }

  lemma GapCombine(size: bv8, v: bv64, hi: bv64, lo: bv64, b: bv64, full: bv64)
    requires IsSize(size) && full == Mask(size) && b & full == full & !hi && lo & hi == lo && Difference(v, hi, lo)
    ensures LowBits(lo | b, size) == LowBits(!v, size)
  {
  }

  lemma RunNumbers(size: bv8, p: bv8, l: bv8, q: bv8, r: bv8)
    requires IsRun(size, p, l) && q == p + l && r == size - p
    ensures IsSize(size) && size <= 64 && p < 64 && l < 64 && p <= q <= size
    ensures 1 <= l <= r < 64 && 1 <= r <= size && l < size && (size - p) & (size - 1) == r
  {
  }

  lemma TopNumbers(size: bv8, p: bv8, l: bv8)
    requires IsRun(size, p, l) && p + l == size
    ensures IsSize(size) && 1 <= p < size <= 64 && p < 64 && l < 64 && size - l == p
    ensures (p + l) & (size - 1) == 0 && (size - 0) & (size - 1) == 0
  {
  }

  lemma InsideNumbers(size: bv8, p: bv8, l: bv8, q: bv8, k: bv8, r: bv8)
    requires IsRun(size, p, l) && q == p + l < size && k == size - l && r == size - q
    ensures IsSize(size) && p <= q < size <= 64 && l <= q && p < 64 && l < 64
    ensures 1 <= r <= k < size && k - r == p && (size - q) & (size - 1) == r && q & (size - 1) == q
  {
  }

  lemma DecodeFields(e: bv32, size: bv8, l: bv8, r: bv8, m: bv64, v: bv64)
    requires IsSize(size) && l < size && r < size
    requires ElementSize(e) == size && Length(e, size) == l && Rotation(e, size) == r
    requires l <= 64 && m == Mask(l) && RotateRight(m, r, size) == v
    ensures Decode(e) == Some(Replicate(v, size))
  {
    hide Mask, RotateRight, Replicate, ElementSize, Length, Rotation;
  }

  /** The encoding of a run decodes to the run. */
  lemma DecodeRun(size: bv8, p: bv8, l: bv8, e: bv32)
    requires IsRun(size, p, l) && p < 64 && l < 64 && e == Pack(size, p, l)
    ensures Decode(e) == Some(Replicate(Run(p, l), size))
    ensures ElementSize(e) == size && e < 0x2000
  {
    hide *;
    var q, r := p + l, size - p;
    RunNumbers(size, p, l, q, r);
    var v, hi, lo, m := Run(p, l), Mask(q), Mask(p), Mask(l);
    RotatedRun(size, p, q, l, r, m, v, hi, lo);
    PackFields(size, p, l, e, r);
    DecodeFields(e, size, l, r, m, v);
  }

  lemma RotateByNothing(size: bv8, n: bv64, lo: bv64)
    requires IsSize(size) && LowBits(n, size) == n
    ensures RotateRight(n, 0, size) == n
  {
  }

  lemma GapAtTop(size: bv8, v: bv64, hi: bv64, lo: bv64)
    requires IsSize(size) && hi == Mask(size) && lo & hi == lo && Difference(v, hi, lo)
    ensures LowBits(lo, size) == lo && LowBits(!v, size) == lo
  {
  }

  lemma DecodeGapAtTop(size: bv8, p: bv8, l: bv8, e: bv32, v: bv64, hi: bv64, n: bv64)
    requires IsSize(size) && p < size && 1 <= p && size <= 64 && p < 64 && l < 64 && size == p + l
    requires v == Run(p, l) && e == Pack(size, 0, p) && hi == Mask(size) && n == Mask(p)
    requires (size - 0) & (size - 1) == 0
    ensures Decode(e) == Some(Replicate(LowBits(!v, size), size))
    ensures ElementSize(e) == size && e < 0x2000
  {
    hide *;
    PackFields(size, 0, p, e, 0);
    MaskOrder(p, size, n, hi);
    RunSplit(p, size, l, v, hi, n);
    GapAtTop(size, v, hi, n);
    RotateByNothing(size, n, n);
    DecodeFields(e, size, p, 0, n, n);
  }

  lemma DecodeGapInside(size: bv8, p: bv8, l: bv8, q: bv8, r: bv8, k: bv8, e: bv32, v: bv64, hi: bv64, lo: bv64)
    requires IsSize(size) && p <= q < size <= 64 && l <= q && p < 64 && l < 64 && k == size - l && r == size - q
    requires 1 <= r <= k < size && k - r == p && (size - q) & (size - 1) == r
    requires v == Run(p, l) && e == Pack(size, q, k) && hi == Mask(q) && lo == Mask(p) && q == p + l
    ensures Decode(e) == Some(Replicate(LowBits(!v, size), size))
    ensures ElementSize(e) == size && e < 0x2000
  {
    hide *;
    var n := Mask(k);
    PackFields(size, q, k, e, r);
    RotatedGap(size, p, q, l, r, k, n, v, hi, lo);
    DecodeFields(e, size, k, r, n, LowBits(!v, size));
  }

  lemma PackNegatedIs(size: bv8, p: bv8, l: bv8, q: bv8, pos: bv8, k: bv8, e: bv32)
    requires q == p + l && pos == q & (size - 1) && k == size - l && e == PackNegated(size, p, l)
    ensures e == Pack(size, pos, k)
  {
    hide Pack;
  }

  lemma DecodeGapTop(size: bv8, p: bv8, l: bv8, e: bv32, v: bv64)
    requires IsRun(size, p, l) && p < 64 && l < 64 && e == PackNegated(size, p, l) && v == Run(p, l)
    requires p + l == size
    ensures Decode(e) == Some(Replicate(LowBits(!v, size), size))
    ensures ElementSize(e) == size && e < 0x2000
  {
    hide *;
    TopNumbers(size, p, l);
    var hi, lo := Mask(size), Mask(p);
    PackNegatedIs(size, p, l, size, 0, p, e);
    DecodeGapAtTop(size, p, l, e, v, hi, lo);
  }

  lemma DecodeGapBelow(size: bv8, p: bv8, l: bv8, q: bv8, k: bv8, r: bv8, e: bv32, v: bv64)
    requires IsRun(size, p, l) && p < 64 && l < 64 && e == PackNegated(size, p, l) && v == Run(p, l)
    requires q == p + l < size && k == size - l && r == size - q
    ensures Decode(e) == Some(Replicate(LowBits(!v, size), size))
    ensures ElementSize(e) == size && e < 0x2000
  {
    hide *;
    InsideNumbers(size, p, l, q, k, r);
    var hi, lo := Mask(q), Mask(p);
    PackNegatedIs(size, p, l, q, q, k, e);
    DecodeGapInside(size, p, l, q, r, k, e, v, hi, lo);
  }

  /** The negated encoding decodes to the complement inside the element. */
  lemma DecodeGap(size: bv8, p: bv8, l: bv8, e: bv32, v: bv64)
    requires IsRun(size, p, l) && p < 64 && l < 64 && e == PackNegated(size, p, l) && v == Run(p, l)
    ensures Decode(e) == Some(Replicate(LowBits(!v, size), size))
    ensures ElementSize(e) == size && e < 0x2000
  {
    hide Decode, Replicate, LowBits, PackNegated, Run;
    var q := p + l;
    if q == size {
      DecodeGapTop(size, p, l, e, v);
    } else {
      DecodeGapBelow(size, p, l, q, size - l, size - q, e, v);
    }
  }

  // ----- periods -----

  lemma Repeats2(x: bv64)
    requires x >> 2 == x & 0x3fff_ffff_ffff_ffff
    ensures x == Replicate(x & 0x3, 2)
  {
    assert ((x >> 2) ^ x) & 0x3fff_ffff_ffff_ffff == 0;
  }

  lemma Repeats4(x: bv64)
    requires x >> 4 == x & 0x0fff_ffff_ffff_ffff
    ensures x == Replicate(x & 0xf, 4)
  {
    assert ((x >> 4) ^ x) & 0x0fff_ffff_ffff_ffff == 0;
  }

  lemma Repeats8(x: bv64)
    requires x >> 8 == x & 0x00ff_ffff_ffff_ffff
    ensures x == Replicate(x & 0xff, 8)
  {
    assert ((x >> 8) ^ x) & 0x00ff_ffff_ffff_ffff == 0;
  }

  lemma SameAsXor16(x: bv64)
    requires x >> 16 == x & 0x0000_ffff_ffff_ffff
    ensures ((x >> 16) ^ x) & 0x0000_ffff_ffff_ffff == 0
  {
  }

  lemma Repeats16(x: bv64)
    requires ((x >> 16) ^ x) & 0x0000_ffff_ffff_ffff == 0
    ensures x == Replicate(x & 0xffff, 16)
  {
  }

  lemma Repeats32(x: bv64)
    requires x >> 32 == x & 0x0000_0000_ffff_ffff
    ensures x == Replicate(x & 0xffff_ffff, 32)
  {
  }

  /** The element found really does repeat. */
  lemma PeriodRepeats(x: bv64)
    ensures x == Replicate(LowBits(x, Period(x)), Period(x))
  {
    hide Replicate;
    if x >> 2 == x & 0x3fff_ffff_ffff_ffff { Repeats2(x); }
    else if x >> 4 == x & 0x0fff_ffff_ffff_ffff { Repeats4(x); }
    else if x >> 8 == x & 0x00ff_ffff_ffff_ffff { Repeats8(x); }
    else if x >> 16 == x & 0x0000_ffff_ffff_ffff { SameAsXor16(x); Repeats16(x); }
    else if x >> 32 == x & 0x0000_0000_ffff_ffff { Repeats32(x); }
    else { Replicate64(x); }
  }

  lemma Replicate64(x: bv64)
    ensures Replicate(x, 64) == x
  {
  }

  // ----- the two cascades -----

  lemma ZerosOfRunLow(x: bv64, p: bv8, l: bv8)
    requires 1 <= l && p + l <= 64 && p < 32 && l < 64 && x == Run(p, l)
    ensures TrailingZeros(x) == p
  {
  }

  lemma ZerosOfRunHigh(x: bv64, p: bv8, l: bv8)
    requires 1 <= l && p + l <= 64 && 32 <= p < 64 && l < 64 && x == Run(p, l)
    ensures TrailingZeros(x) == p
  {
  }

  // "Down": stripping shifted right; "Back": shifting left undoes it.
  predicate Down(x: bv64, z: bv64, p: bv8) {
    p < 64 && x >> p == z
  }

  predicate Back(x: bv64, z: bv64, p: bv8) {
    p < 64 && z << p == x
  }

  lemma DownLow(x: bv64)
    requires x & 0xffff_ffff != 0
    ensures Down(x, StripZeros(x), TrailingZeros(x))
  {
  }

  lemma DownHigh(x: bv64)
    requires x & 0xffff_ffff == 0 && x != 0
    ensures Down(x, StripZeros(x), TrailingZeros(x))
  {
  }

  lemma BackLow(x: bv64)
    requires x & 0xffff != 0
    ensures Back(x, StripZeros(x), TrailingZeros(x))
  {
  }

  lemma BackMid(x: bv64)
    requires x & 0xffff == 0 && x & 0xffff_ffff != 0
    ensures Back(x, StripZeros(x), TrailingZeros(x))
  {
  }

  lemma BackHigh(x: bv64)
    requires x & 0xffff_ffff == 0 && x != 0
    ensures Back(x, StripZeros(x), TrailingZeros(x))
  {
  }

  lemma DownBackMeans(x: bv64, z: bv64, p: bv8)
    requires Down(x, z, p) && Back(x, z, p)
    ensures p < 64 && x >> p == z && z << p == x
  {
  }

  lemma OddRemains(x: bv64)
    requires x != 0
    ensures StripZeros(x) & 1 == 1
  {
  }

  lemma EvenShifts(x: bv64)
    requires x & 1 == 0
    ensures 1 <= TrailingZeros(x)
    ensures StripZeros(x) & 0x8000_0000_0000_0000 == 0
  {
  }

  /** The zero-stripping cascade divides out exactly the trailing zeros. */
  lemma StripZerosExact(x: bv64, p: bv8, z: bv64)
    requires x != 0 && p == TrailingZeros(x) && z == StripZeros(x)
    ensures x >> p == z && z << p == x
  {
    hide *;
    if x & 0xffff_ffff == 0 {
      DownHigh(x);
      BackHigh(x);
    } else {
      DownLow(x);
      if x & 0xffff == 0 { BackMid(x); } else { BackLow(x); }
    }
    DownBackMeans(x, z, p);
  }

  lemma OnesOfRun(x: bv64, l: bv8)
    requires 1 <= l < 64 && x == Mask(l)
    ensures TrailingOnes(x) == l && StripOnes(x) == 0
  {
  }

  lemma AllOnes(x: bv64)
    requires x & 0x8000_0000_0000_0000 == 0 && StripOnes(x) == 0
    ensures x == Mask(TrailingOnes(x))
    ensures x & 1 == 1 ==> 1 <= TrailingOnes(x)
  {
  }

  lemma Fits(x: bv64, z: bv64, p: bv8, l: bv8, size: bv8)
    requires IsSize(size) && p < 64 && 1 <= l < 64
    requires z == Mask(l) && x >> p == z && z << p == x && LowBits(x, size) == x
    ensures p + l <= size
  {
  }

  lemma StripRunLow(p: bv8, l: bv8)
    requires p < 16 && 1 <= l < 64 && p + l <= 64
    ensures StripZeros(Run(p, l)) == Mask(l)
  {
  }

  lemma StripRunMid(p: bv8, l: bv8)
    requires 16 <= p < 32 && 1 <= l < 64 && p + l <= 64
    ensures StripZeros(Run(p, l)) == Mask(l)
  {
  }

  lemma StripRunHigh(p: bv8, l: bv8)
    requires 32 <= p < 64 && 1 <= l < 64 && p + l <= 64
    ensures StripZeros(Run(p, l)) == Mask(l)
  {
  }

  /** The two cascades take a run apart into its position and its length. */
  lemma CascadesOnRun(p: bv8, l: bv8, v: bv64, m: bv64)
    requires 1 <= l < 64 && p < 64 && p + l <= 64 && v == Run(p, l) && m == Mask(l)
    ensures TrailingZeros(v) == p && StripZeros(v) == m && TrailingOnes(m) == l && StripOnes(m) == 0
  {
    hide *;
    OnesOfRun(m, l);
    if p < 16 { StripRunLow(p, l); ZerosOfRunLow(v, p, l); }
    else if p < 32 { StripRunMid(p, l); ZerosOfRunLow(v, p, l); }
    else { StripRunHigh(p, l); ZerosOfRunHigh(v, p, l); }
  }

  /** And back: when nothing is left, the input was a run. */
  lemma CascadesFindRun(x: bv64, size: bv8, p: bv8, z: bv64, l: bv8)
    requires x != 0 && x & 1 == 0 && IsSize(size) && LowBits(x, size) == x
    requires p == TrailingZeros(x) && z == StripZeros(x) && l == TrailingOnes(z) && StripOnes(z) == 0
    ensures 1 <= p < 64 && 1 <= l < 64 && p + l <= size && x == Run(p, l)
  {
    hide *;
    StripZerosExact(x, p, z);
    OddRemains(x);
    EvenShifts(x);
    AllOnes(z);
    CountsBelow64(x, z);
    Fits(x, z, p, l, size);
    RunIsShift(p, l, z);
  }

  lemma CountsBelow64(x: bv64, z: bv64)
    ensures TrailingZeros(x) < 64 && TrailingOnes(z) < 64
  {
  }

  // ----- the period of a replicated run is the element size -----

  lemma HalvesDiffer32(e: bv64, x: bv64)
    requires x == e | (e << 32)
    requires e >> 32 == 0 && ((e >> 16) ^ e) & 0xffff != 0
    ensures ((x >> 32) ^ x) & 0x0000_0000_ffff_ffff == 0
    ensures ((x >> 16) ^ x) & 0x0000_ffff_ffff_ffff != 0
    ensures ((x >> 8) ^ x) & 0x00ff_ffff_ffff_ffff != 0
    ensures ((x >> 4) ^ x) & 0x0fff_ffff_ffff_ffff != 0
    ensures ((x >> 2) ^ x) & 0x3fff_ffff_ffff_ffff != 0
  {
  }

  lemma PeriodIs32(x: bv64)
    requires ((x >> 32) ^ x) & 0x0000_0000_ffff_ffff == 0
    requires ((x >> 16) ^ x) & 0x0000_ffff_ffff_ffff != 0
    requires ((x >> 8) ^ x) & 0x00ff_ffff_ffff_ffff != 0
    requires ((x >> 4) ^ x) & 0x0fff_ffff_ffff_ffff != 0
    requires ((x >> 2) ^ x) & 0x3fff_ffff_ffff_ffff != 0
    ensures Period(x) == 32 && LowBits(x, 32) == x & 0xffff_ffff
  {
  }

  lemma RunHalves32(e: bv64, p: bv8, l: bv8)
    requires 1 <= l && p + l <= 32 && 1 <= p < 32 && l < 32 && e == Run(p, l)
    ensures e >> 32 == 0 && ((e >> 16) ^ e) & 0xffff != 0
  {
  }

  lemma Replicate32(e: bv64)
    ensures Replicate(e, 32) == e | (e << 32)
  {
  }

  lemma LowHalf(e: bv64)
    requires e >> 32 == 0
    ensures (e | (e << 32)) & 0xffff_ffff == e
  {
  }

  lemma Element32(p: bv8, l: bv8, e: bv64, x: bv64)
    requires 1 <= l && p + l <= 32 && 1 <= p < 32 && l < 32 && e == Run(p, l) && x == Replicate(e, 32)
    ensures Period(x) == 32 && LowBits(x, 32) == e
  {
    hide *;
    RunHalves32(e, p, l);
    Replicate32(e);
    LowHalf(e);
    HalvesDiffer32(e, x);
    PeriodIs32(x);
  }

  lemma Element64(p: bv8, l: bv8, e: bv64, x: bv64)
    requires 1 <= l && p + l <= 64 && 1 <= p < 64 && l < 64 && e == Run(p, l) && x == Replicate(e, 64)
    ensures Period(x) == 64 && LowBits(x, 64) == e
  {
  }

  lemma Element16(p: bv8, l: bv8, e: bv64, x: bv64)
    requires 1 <= l && p + l <= 16 && 1 <= p < 16 && l < 16 && e == Run(p, l) && x == Replicate(e, 16)
    ensures Period(x) == 16 && LowBits(x, 16) == e
  {
  }

  lemma Element8(p: bv8, l: bv8, e: bv64, x: bv64)
    requires 1 <= l && p + l <= 8 && 1 <= p < 8 && l < 8 && e == Run(p, l) && x == Replicate(e, 8)
    ensures Period(x) == 8 && LowBits(x, 8) == e
  {
  }

  lemma Element4(p: bv8, l: bv8, e: bv64, x: bv64)
    requires 1 <= l && p + l <= 4 && 1 <= p < 4 && l < 4 && e == Run(p, l) && x == Replicate(e, 4)
    ensures Period(x) == 4 && LowBits(x, 4) == e
  {
  }

  lemma Element2(p: bv8, l: bv8, e: bv64, x: bv64)
    requires 1 <= l && p + l <= 2 && 1 <= p < 2 && l < 2 && e == Run(p, l) && x == Replicate(e, 2)
    ensures Period(x) == 2 && LowBits(x, 2) == e
  {
  }

  lemma ElementNumbers(size: bv8, p: bv8, l: bv8)
    requires IsRun(size, p, l)
    ensures IsSize(size) && 1 <= l < 64 && 1 <= p < 64 && p + l <= 64 && p < size && l < size && p + l <= size &&
      size <= 64
  {
  }

  lemma ElementOfRun(size: bv8, p: bv8, l: bv8, e: bv64, x: bv64)
    requires IsRun(size, p, l) && p < 64 && l < 64 && e == Run(p, l) && x == Replicate(e, size)
    ensures Period(x) == size && LowBits(x, size) == e
  {
    hide Run, Replicate, Period, LowBits;
    if size == 64 { Element64(p, l, e, x); }
    else if size == 32 { Element32(p, l, e, x); }
    else if size == 16 { Element16(p, l, e, x); }
    else if size == 8 { Element8(p, l, e, x); }
    else if size == 4 { Element4(p, l, e, x); }
    else { Element2(p, l, e, x); }
  }

  lemma RunIsEven(size: bv8, p: bv8, l: bv8, e: bv64, x: bv64)
    requires IsRun(size, p, l) && p < 64 && l < 64 && e == Run(p, l) && x == Replicate(e, size)
    ensures x != 0 && x & 1 == 0
  {
  }

  // ----- the encoder -----

  /** A replicated run is always encoded, and as that run. */
  lemma EncodeRun(size: bv8, p: bv8, l: bv8, x: bv64, neg: bool)
    requires IsRun(size, p, l) && p < 64 && l < 64 && x == Replicate(Run(p, l), size)
    ensures EncodeEven(x, neg) == Some(if neg then PackNegated(size, p, l) else Pack(size, p, l))
  {
    hide *;
    var v, m := Run(p, l), Mask(l);
    ElementNumbers(size, p, l);
    RunIsEven(size, p, l, v, x);
    ElementOfRun(size, p, l, v, x);
    CascadesOnRun(p, l, v, m);
    EncodeParts(x, neg, size, v, p, m, l);
  }

  lemma EncodeParts(x: bv64, neg: bool, size: bv8, y: bv64, p: bv8, z: bv64, l: bv8)
    requires x != 0 && size == Period(x) && y == LowBits(x, size) && z == StripZeros(y) && StripOnes(z) == 0
    requires p == TrailingZeros(y) && l == TrailingOnes(z)
    ensures EncodeEven(x, neg) == Some(if neg then PackNegated(size, p, l) else Pack(size, p, l))
  {
    hide Period, LowBits, StripZeros, StripOnes, TrailingZeros, TrailingOnes, Pack, PackNegated;
  }

  predicate Opposites(a: bv64, b: bv64) {
    !a ^ b == 0
  }

  /** Complementing inside the element complements the whole word. */
  lemma Complement(v: bv64, size: bv8)
    requires IsSize(size) && LowBits(v, size) == v
    ensures Opposites(Replicate(LowBits(!v, size), size), Replicate(v, size))
  {
  }

  lemma Opposite(a: bv64, b: bv64)
    requires Opposites(a, b)
    ensures a == !b
  {
  }

  lemma LowBitsFacts(x: bv64, size: bv8, y: bv64)
    requires IsSize(size) && y == LowBits(x, size)
    ensures LowBits(y, size) == y && (x & 1 == 0 ==> y & 1 == 0)
  {
  }

  lemma NothingRepeats(size: bv8)
    ensures Replicate(0, size) == 0
  {
  }

  lemma RunFromBounds(size: bv8, p: bv8, l: bv8)
    requires IsSize(size) && 1 <= p < 64 && 1 <= l < 64 && p + l <= size
    ensures IsRun(size, p, l)
  {
  }

  lemma EncodedParts(x: bv64, neg: bool, size: bv8, y: bv64, p: bv8, z: bv64, l: bv8, e: bv32)
    requires size == Period(x) && y == LowBits(x, size) && z == StripZeros(y)
    requires p == TrailingZeros(y) && l == TrailingOnes(z)
    requires EncodeEven(x, neg) == Some(e)
    ensures x != 0 && StripOnes(z) == 0 && IsSize(size)
    ensures e == if neg then PackNegated(size, p, l) else Pack(size, p, l)
  {
    hide LowBits, StripZeros, StripOnes, TrailingZeros, TrailingOnes, Pack, PackNegated;
  }

  lemma EncodeEvenSound(x: bv64, neg: bool, e: bv32)
    requires x & 1 == 0 && EncodeEven(x, neg) == Some(e)
    ensures Decode(e) == Some(if neg then !x else x)
    ensures ElementSize(e) == Period(x) && e < 0x2000
  {
    hide *;
    var size := Period(x);
    var y := LowBits(x, size);
    var z := StripZeros(y);
    var p, l := TrailingZeros(y), TrailingOnes(z);
    EncodedParts(x, neg, size, y, p, z, l, e);
    PeriodRepeats(x);
    NothingRepeats(size);
    LowBitsFacts(x, size, y);
    CascadesFindRun(y, size, p, z, l);
    RunFromBounds(size, p, l);
    if neg {
      DecodeGap(size, p, l, e, y);
      Complement(y, size);
      Opposite(Replicate(LowBits(!y, size), size), Replicate(y, size));
    } else {
      DecodeRun(size, p, l, e);
    }
  }

  lemma EncodeChoice(x: bv64, y: bv64)
    requires y == if x & 1 != 0 then !x else x
    ensures y & 1 == 0 && Encode(x) == EncodeEven(y, x & 1 != 0)
    ensures x == if x & 1 != 0 then !y else y
  {
    hide EncodeEven;
  }

  /** The upper and the lower half of x are equal. */
  predicate HalvesAgree(x: bv64) {
    ((x >> 32) ^ x) & 0xffff_ffff == 0
  }

  lemma ComplementHalves(x: bv64, y: bv64)
    requires HalvesAgree(x) && (y == x || y == !x)
    ensures HalvesAgree(y)
  {
    if y == x { hide HalvesAgree; } else { assert ((!x >> 32) ^ !x) & 0xffff_ffff == 0; }
  }

  lemma PeriodAtMost32(y: bv64)
    requires HalvesAgree(y)
    ensures Period(y) != 64
  {
  }

  lemma NarrowElement(y: bv64, e: bv32)
    requires HalvesAgree(y) && ElementSize(e) == Period(y)
    ensures e & 0x1000 == 0
  {
    hide Period, HalvesAgree;
    PeriodAtMost32(y);
  }

  /** Soundness: whatever the encoder returns, the architecture decodes to the input. */
  lemma EncodeSound(x: bv64, e: bv32)
    requires Encode(x) == Some(e)
    ensures Decode(e) == Some(x)
    ensures e < 0x2000
  {
    hide *;
    var y := if x & 1 != 0 then !x else x;
    EncodeChoice(x, y);
    EncodeEvenSound(y, x & 1 != 0, e);
  }

  /** A pattern with equal halves gets N = 0, which 32-bit operations need. */
  lemma EncodeNarrow(x: bv64, e: bv32)
    requires Encode(x) == Some(e) && HalvesAgree(x)
    ensures e & 0x1000 == 0
  {
    hide *;
    var y := if x & 1 != 0 then !x else x;
    EncodeChoice(x, y);
    EncodeEvenSound(y, x & 1 != 0, e);
    ComplementHalves(x, y);
    NarrowElement(y, e);
  }

  // ----- completeness: every decodable pattern is a run or the complement of one -----

  lemma SameFields(e: bv32, f: bv32, size: bv8)
    requires IsSize(size) && ElementSize(e) == size && ElementSize(f) == size
    requires Length(e, size) == Length(f, size) && Rotation(e, size) == Rotation(f, size)
    ensures Decode(e) == Decode(f)
  {
    hide ElementSize, Length, Rotation, Pattern;
  }

  lemma DecodedFields(e: bv32)
    requires Decode(e).Some?
    ensures var size := ElementSize(e); IsSize(size) && 1 <= Length(e, size) < size && Rotation(e, size) < size
  {
    hide ElementSize, Length, Rotation, Pattern, IsSize;
  }

  lemma UnrotatedNumbers(size: bv8, len: bv8, l: bv8)
    requires IsSize(size) && 1 <= len < size && l == size - len
    ensures IsRun(size, len, l) && len + l == size && len < 64 && l < 64 && 0 < size
    ensures size & (size - 1) == 0 && (size - 0) & (size - 1) == 0 && size - l == len
  {
  }

  lemma UnbrokenNumbers(size: bv8, len: bv8, r: bv8, p: bv8)
    requires IsSize(size) && 1 <= len < size && len <= r < size && p == size - r
    ensures IsRun(size, p, len) && p < 64 && len < 64 && p < size && (size - p) & (size - 1) == r
  {
  }

  lemma BrokenNumbers(size: bv8, len: bv8, r: bv8, q: bv8, l: bv8, p: bv8)
    requires IsSize(size) && 1 <= r < len < size && q == size - r && l == size - len && p == len - r
    ensures IsRun(size, p, l) && p < 64 && l < 64 && q == p + l && q < size
    ensures q & (size - 1) == q && (size - q) & (size - 1) == r && size - l == len
  {
  }

  /** The run behind a decodable pattern; `neg` says that the pattern is its complement. */
  lemma RunBehind(e: bv32, x: bv64) returns (size: bv8, p: bv8, l: bv8, neg: bool)
    requires Decode(e) == Some(x)
    ensures IsRun(size, p, l) && p < 64 && l < 64
    ensures Some(x) == Decode(if neg then PackNegated(size, p, l) else Pack(size, p, l))
  {
    hide *;
    DecodedFields(e);
    size := ElementSize(e);
    var len, r := Length(e, size), Rotation(e, size);
    if r == 0 {
      neg, p, l := true, len, size - len;
      UnrotatedNumbers(size, len, l);
      var f := PackNegated(size, p, l);
      PackNegatedIs(size, p, l, size, 0, len, f);
      PackFields(size, 0, len, f, 0);
      SameFields(e, f, size);
    } else if len <= r {
      neg, p, l := false, size - r, len;
      UnbrokenNumbers(size, len, r, p);
      var f := Pack(size, p, l);
      PackFields(size, p, l, f, r);
      SameFields(e, f, size);
    } else {
      neg, p, l := true, len - r, size - len;
      var q := size - r;
      BrokenNumbers(size, len, r, q, l, p);
      var f := PackNegated(size, p, l);
      PackNegatedIs(size, p, l, q, q, len, f);
      PackFields(size, q, len, f, r);
      SameFields(e, f, size);
    }
  }

  lemma RunInsideElement(size: bv8, p: bv8, l: bv8, v: bv64)
    requires IsRun(size, p, l) && p < 64 && l < 64 && v == Run(p, l)
    ensures LowBits(v, size) == v
  {
    hide *;
    ElementNumbers(size, p, l);
    var x := Replicate(v, size);
    ElementOfRun(size, p, l, v, x);
    LowBitsFacts(x, size, v);
  }

  /** Completeness: the encoder refuses only what no encoding decodes to. */
  lemma EncodeComplete(x: bv64, e: bv32)
    requires Decode(e) == Some(x)
    ensures Encode(x).Some?
  {
    hide *;
    var size, p, l, neg := RunBehind(e, x);
    var v := Run(p, l);
    var y := Replicate(v, size);
    RunIsEven(size, p, l, v, y);
    EncodeRun(size, p, l, y, neg);
    if neg {
      DecodeGap(size, p, l, PackNegated(size, p, l), v);
      RunInsideElement(size, p, l, v);
      ElementNumbers(size, p, l);
      Complement(v, size);
      Opposite(Replicate(LowBits(!v, size), size), Replicate(v, size));
      EncodeOdd(x, y);
    } else {
      DecodeRun(size, p, l, Pack(size, p, l));
      EncodeEvenCase(x);
    }
  }

  lemma EncodeOdd(x: bv64, y: bv64)
    requires x == !y && y & 1 == 0
    ensures Encode(x) == EncodeEven(y, true)
  {
    hide EncodeEven;
    assert x & 1 == 1 && !x == y;
  }

  lemma EncodeEvenCase(x: bv64)
    requires x & 1 == 0
    ensures Encode(x) == EncodeEven(x, false)
  {
    hide EncodeEven;
  }

  /** The encoder answers exactly for the decodable patterns. */
  lemma EncodeExact(x: bv64)
    ensures Encode(x).Some? <==> exists e :: Decode(e) == Some(x)
  {
    hide *;
    if Encode(x).Some? {
      EncodeSound(x, Encode(x).value);
    }
    forall e | Decode(e) == Some(x) ensures Encode(x).Some? {
      EncodeComplete(x, e);
    }
  }

  // ----- 32-bit patterns -----

  lemma HalvesOf2(y: bv64, x: bv64)
    requires y <= 0x3 && x == Replicate(y, 2)
    ensures HalvesAgree(x)
  {
  }

  lemma HalvesOf4(y: bv64, x: bv64)
    requires y <= 0xf && x == Replicate(y, 4)
    ensures HalvesAgree(x)
  {
  }

  lemma HalvesOf8(y: bv64, x: bv64)
    requires y <= 0xff && x == Replicate(y, 8)
    ensures HalvesAgree(x)
  {
  }

  lemma HalvesOf16(y: bv64, x: bv64)
    requires y <= 0xffff && x == Replicate(y, 16)
    ensures HalvesAgree(x)
  {
  }

  lemma HalvesOf32(y: bv64, x: bv64)
    requires y <= 0xffff_ffff && x == Replicate(y, 32)
    ensures HalvesAgree(x)
  {
  }

  lemma ElementBelow(x: bv64, size: bv8, y: bv64)
    requires IsSize(size) && y == LowBits(x, size)
    ensures size == 2 ==> y <= 0x3
    ensures size == 4 ==> y <= 0xf
    ensures size == 8 ==> y <= 0xff
    ensures size == 16 ==> y <= 0xffff
    ensures size == 32 ==> y <= 0xffff_ffff
  {
  }

  lemma RotatedIs(m: bv64, r: bv8, size: bv8)
    requires r <= size && IsSize(size)
    ensures RotateRight(m, r, size) == LowBits((m >> r) | (m << (size - r)), size)
  {
  }

  lemma PatternHalves(size: bv8, len: bv8, r: bv8)
    requires IsSize(size) && size != 64 && len <= size && r < size
    ensures HalvesAgree(Pattern(size, len, r))
  {
    hide HalvesAgree, Replicate, RotateRight, LowBits, Mask;
    var m := Mask(len);
    var y := RotateRight(m, r, size);
    RotatedIs(m, r, size);
    ElementBelow((m >> r) | (m << (size - r)), size, y);
    var x := Replicate(y, size);
    if size == 2 { HalvesOf2(y, x); }
    if size == 4 { HalvesOf4(y, x); }
    if size == 8 { HalvesOf8(y, x); }
    if size == 16 { HalvesOf16(y, x); }
    if size == 32 { HalvesOf32(y, x); }
  }

  lemma NarrowSize(e: bv32)
    requires e & 0x1000 == 0
    ensures ElementSize(e) != 64
  {
  }

  /** What decodes with N = 0 has equal halves, as 32-bit operations need. */
  lemma DecodeNarrow(e: bv32, x: bv64)
    requires Decode(e) == Some(x) && e & 0x1000 == 0
    ensures HalvesAgree(x)
  {
    hide HalvesAgree, ElementSize, Pattern, Length, Rotation;
    NarrowSize(e);
    DecodedFields(e);
    PatternHalves(ElementSize(e), Length(e, ElementSize(e)), Rotation(e, ElementSize(e)));
  }
}
