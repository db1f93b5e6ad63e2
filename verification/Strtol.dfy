/** The firmware's `strtol`, and when it undoes `fw_fmt_u64`. */
module Strtol {
  import opened Arithmetic
  import opened FwFormat

  const LONG: int := 0x8000_0000_0000_0000 // 2^63

  /** A long: 64 bits, wrapping. */
  function Wrap(n: int): int {
    var r := n % (2 * LONG);
    if r >= LONG then r - 2 * LONG else r
  }

  predicate IsSpace(c: char) {
    c == ' ' || c == '\t' || c == '\n' || c == '\r'
  }

  /** The digit value of a letter or decimal digit; 36 for anything else. */
  function DigitValue(c: char): (d: nat)
    ensures d <= 36
  {
    if '0' <= c <= '9' then c as int - '0' as int
    else if 'a' <= c <= 'z' then c as int - 'a' as int + 10
    else if 'A' <= c <= 'Z' then c as int - 'A' as int + 10
    else 36
  }

  function SkipSpaces(s: string, i: nat): (r: nat)
    ensures i <= r && (i <= |s| ==> r <= |s|)
    decreases |s| - i
  {
    if i < |s| && IsSpace(s[i]) then SkipSpaces(s, i + 1) else i
  }

  /** The value of the digits from i on, continuing v, and where they stop. */
  function Scan(s: string, i: nat, base: nat, v: int): (r: (int, nat))
    ensures i <= r.1 && (i <= |s| ==> r.1 <= |s|)
    decreases |s| - i
  {
    if i < |s| && DigitValue(s[i]) < base then Scan(s, i + 1, base, Wrap(v * base + DigitValue(s[i]))) else (v, i)
  }

  predicate HexPrefix(s: string, i: nat) {
    CharAt(s, i) == '0' && (CharAt(s, i + 1) == 'x' || CharAt(s, i + 1) == 'X')
  }

  /** The value read from s and the offset of the first character not read. */
  function Read(s: string, base: int): (int, nat) {
    if base != 0 && (base < 2 || base > 36) then (0, 0)
    else
      var i := SkipSpaces(s, 0);
      var signed := CharAt(s, i) == '+' || CharAt(s, i) == '-';
      var sign := if CharAt(s, i) == '-' then -1 else 1;
      var j := if signed then i + 1 else i;
      var b := if base != 0 then base else if HexPrefix(s, j) then 16 else if CharAt(s, j) == '0' then 8 else 10;
      var k := if b == 16 && (base == 0 || base == 16) && HexPrefix(s, j) then j + 2 else j;
      var (v, end) := Scan(s, k, b, 0);
      (Wrap(sign * v), end)
  }

  /** `strtol` on a string without its terminating NUL. */
  method Strtol(s: string, base0: int) returns (value: int, end: nat)
    requires '\0' !in s
    ensures (value, end) == Read(s, base0)
  {
    var base, sign, v := base0, 1, 0;
    if base != 0 && (base < 2 || base > 36) {
      return 0, 0;
    }
    var i := 0;
    while IsSpace(CharAt(s, i))
      invariant i <= |s| && SkipSpaces(s, i) == SkipSpaces(s, 0)
      decreases |s| - i
    {
      i := i + 1;
    }
    if CharAt(s, i) == '+' || CharAt(s, i) == '-' {
      if CharAt(s, i) == '-' {
        sign := -1;
      }
      i := i + 1;
    }
    if base == 0 {
      if HexPrefix(s, i) {
        base := 16;
        i := i + 2;
      } else if CharAt(s, i) == '0' {
        base := 8;
      } else {
        base := 10;
      }
    } else if base == 16 && HexPrefix(s, i) {
      i := i + 2;
    }
    ghost var start := i;
    while DigitValue(CharAt(s, i)) < base
      invariant start <= i <= |s| && Scan(s, i, base, v) == Scan(s, start, base, 0)
      decreases |s| - i
    {
      v := Wrap(v * base + DigitValue(s[i]));
      i := i + 1;
    }
    value, end := Wrap(sign * v), i;
  }

  // ----- reading digits -----

  /** The value of a digit string that continues v. */
  function Value(v: nat, ds: string, base: nat): nat
    decreases ds
  {
    if ds == "" then v else Value(v * base + DigitValue(ds[0]), ds[1..], base)
  }

  predicate AllDigits(ds: string, base: nat) {
    forall k :: 0 <= k < |ds| ==> DigitValue(ds[k]) < base
  }

  lemma {:induction false} ValueGrows(v: nat, ds: string, base: nat)
    requires base > 0
    ensures v <= Value(v, ds, base)
    decreases ds
  {
    if ds != "" {
      ValueGrows(v * base + DigitValue(ds[0]), ds[1..], base);
      assert v <= v * base;
    }
  }

  lemma {:induction false} ValueAppend(v: nat, ds: string, c: char, base: nat)
    ensures Value(v, ds + [c], base) == Value(v, ds, base) * base + DigitValue(c)
    decreases ds
  {
    if ds == "" {
      assert ds + [c] == [c] && [c][1..] == "";
    } else {
      assert (ds + [c])[1..] == ds[1..] + [c];
      ValueAppend(v * base + DigitValue(ds[0]), ds[1..], c, base);
    }
  }

  lemma DigitRead(d: nat, upper: bool)
    requires d < 16
    ensures DigitValue(Digit(d, upper)) == d
  {
  }

  /** The printed digits have the value they were printed from. */
  lemma {:induction false} PositiveValue(v: nat, base: nat, upper: bool)
    requires 2 <= base <= 16
    ensures Value(0, Positive(v, base, upper), base) == v && AllDigits(Positive(v, base, upper), base)
    ensures v > 0 ==> Positive(v, base, upper) != ""
  {
    hide Digit, Quotient, Remainder;
    if v > 0 {
      PositiveValue(Quotient(v, base), base, upper);
      DigitRead(Remainder(v, base), upper);
      ValueAppend(0, Positive(Quotient(v, base), base, upper), Digit(Remainder(v, base), upper), base);
    }
  }

  lemma DigitsValue(v: nat, base: nat, upper: bool)
    requires 2 <= base <= 16
    ensures var ds := Digits(v, base, upper); ds != "" && AllDigits(ds, base) && Value(0, ds, base) == v
  {
    hide Positive, Digit;
    PositiveValue(v, base, upper);
    assert "0"[1..] == "";
  }

  lemma {:induction false} ZerosValue(n: nat, ds: string, base: nat)
    requires base > 0
    ensures Value(0, Repeat('0', n) + ds, base) == Value(0, ds, base)
  {
    if n == 0 {
      assert Repeat('0', 0) + ds == ds;
    } else {
      ZerosValue(n - 1, ds, base);
      assert (Repeat('0', n) + ds)[1..] == Repeat('0', n - 1) + ds;
    }
  }

  lemma WrapSmall(n: int)
    requires -LONG < n < LONG
    ensures Wrap(n) == n
  {
  }

  /** Scanning takes exactly the digits, as long as the value fits a long. */
  lemma {:induction false} ScanDigits(s: string, i: nat, ds: string, base: nat, v: nat)
    requires i + |ds| <= |s| && s[i..i + |ds|] == ds && AllDigits(ds, base) && base > 0 && Value(v, ds, base) < LONG
    ensures Scan(s, i, base, v) == Scan(s, i + |ds|, base, Value(v, ds, base))
    decreases ds
  {
    hide Wrap, DigitValue;
    if ds != "" {
      assert s[i] == s[i..i + |ds|][0] == ds[0];
      var next := v * base + DigitValue(ds[0]);
      ValueGrows(next, ds[1..], base);
      WrapSmall(next);
      assert s[i + 1..i + 1 + |ds[1..]|] == s[i..i + |ds|][1..];
      ScanDigits(s, i + 1, ds[1..], base, next);
    }
  }

  lemma {:induction false} SkipsSpaces(s: string, i: nat, n: nat)
    requires i + n <= |s| && s[i..i + n] == Repeat(' ', n) && (i + n < |s| ==> !IsSpace(s[i + n]))
    ensures SkipSpaces(s, i) == i + n
    decreases n
  {
    if n > 0 {
      assert s[i] == s[i..i + n][0] == Repeat(' ', n)[0];
      assert s[i + 1..i + 1 + (n - 1)] == s[i..i + n][1..] == Repeat(' ', n)[1..] == Repeat(' ', n - 1);
      SkipsSpaces(s, i + 1, n - 1);
    }
  }

  // ----- the round trip -----

  /** Spaces, an optional sign, digits, and something that is not a digit. */
  lemma ReadNumber(s: string, spaces: nat, sign: string, ds: string, rest: string, base: nat, v: nat)
    requires s == Repeat(' ', spaces) + (sign + (ds + rest)) && sign in {"", "+", "-"}
    requires base == 8 || base == 10 || base == 16
    requires ds != "" && AllDigits(ds, base) && Value(0, ds, base) == v < LONG
    requires rest == "" || rest[0] == ' ' || rest[0] == '-' || rest[0] == '+'
    ensures Read(s, base) == (Signed(sign == "-", v), spaces + |sign| + |ds|)
  {
    hide *;
    var i := spaces;
    var j := i + |sign|;
    var end := j + |ds|;
    NumberPieces(s, spaces, sign, ds, rest, base);
    SkipsSpaces(s, 0, spaces);
    ScanDigits(s, j, ds, base, 0);
    ScanStops(s, end, base, v);
    ReadParts(s, base, i, sign, v, end);
  }

  lemma ReadParts(s: string, base: nat, i: nat, sign: string, v: nat, end: nat)
    requires base == 8 || base == 10 || base == 16
    requires sign in {"", "+", "-"} && i < |s| && SkipSpaces(s, 0) == i && v < LONG
    requires (sign != "" ==> s[i] == sign[0]) && (sign == "" ==> s[i] != '+' && s[i] != '-')
    requires !HexPrefix(s, i + |sign|) && Scan(s, i + |sign|, base, 0) == (v, end)
    ensures Read(s, base) == (Signed(sign == "-", v), end)
  {
    hide Wrap, Scan, SkipSpaces, HexPrefix;
    WrapSmall(v);
    WrapSmall(Signed(true, v));
  }

  function Signed(neg: bool, v: nat): int {
    if neg then 0 - v as int else v
  }

  lemma ScanStops(s: string, i: nat, base: nat, v: int)
    requires i >= |s| || DigitValue(s[i]) >= base
    ensures Scan(s, i, base, v) == (v, i)
  {
  }

  lemma NumberPieces(s: string, spaces: nat, sign: string, ds: string, rest: string, base: nat)
    requires s == Repeat(' ', spaces) + (sign + (ds + rest)) && sign in {"", "+", "-"}
    requires base == 8 || base == 10 || base == 16
    requires ds != "" && AllDigits(ds, base)
    requires rest == "" || rest[0] == ' ' || rest[0] == '-' || rest[0] == '+'
    ensures var i := spaces; var j := i + |sign|; var end := j + |ds|;
      && s[0..0 + spaces] == Repeat(' ', spaces) && i < |s| && !IsSpace(s[i])
      && (sign != "" ==> s[i] == sign[0]) && (sign == "" ==> s[i] != '+' && s[i] != '-')
      && end <= |s| && s[j..end] == ds && !HexPrefix(s, j) && (end < |s| ==> DigitValue(s[end]) >= base)
  {
    hide HexPrefix, DigitValue, IsSpace, Repeat;
    RepeatLength(' ', spaces);
    FourParts(s, Repeat(' ', spaces), sign, ds, rest);
    DigitChar(ds[0]);
    if |ds| > 1 {
      DigitChar(ds[1]);
    }
    NotSpaces();
    NoPrefix(s, spaces + |sign|);
  }

  lemma FourParts(s: string, a: string, b: string, c: string, d: string)
    requires s == a + (b + (c + d)) && c != ""
    ensures var i := |a|; var j := i + |b|; var end := j + |c|;
      && s[0..0 + i] == a && i < |s| && end <= |s| && s[j..end] == c
      && (b != "" ==> s[i] == b[0]) && (b == "" ==> s[i] == c[0]) && s[j] == c[0]
      && (|c| > 1 ==> s[j + 1] == c[1]) && (|c| == 1 && j + 1 < |s| ==> d != "" && s[j + 1] == d[0])
      && (end < |s| ==> d != "" && s[end] == d[0])
  {
  }

  lemma DigitChar(c: char)
    requires DigitValue(c) < 16
    ensures !IsSpace(c) && c != '+' && c != '-' && c != 'x' && c != 'X'
  {
  }

  lemma NotSpaces()
    ensures !IsSpace('+') && !IsSpace('-') && DigitValue(' ') == 36 && DigitValue('+') == 36 && DigitValue('-') == 36
  {
  }

  lemma NoPrefix(s: string, j: nat)
    requires j + 1 < |s| ==> s[j + 1] != 'x' && s[j + 1] != 'X'
    ensures !HexPrefix(s, j)
  {
  }

  /** A zero-padded sign: zeros are read and the sign stops the reading. */
  lemma ReadZeros(s: string, zeros: nat, sign: string, ds: string, base: nat)
    requires s == Repeat('0', zeros) + (sign + ds) && zeros > 0 && sign in {"-", "+", " "}
    requires base == 8 || base == 10 || base == 16
    ensures Read(s, base) == (Signed(false, 0), zeros)
  {
    hide Wrap;
    RepeatLength('0', zeros);
    assert Repeat('0', zeros) + "" == Repeat('0', zeros);
    ZerosValue(zeros, "", base);
    assert s == Repeat(' ', 0) + ("" + (Repeat('0', zeros) + (sign + ds)));
    assert (sign + ds)[0] == sign[0];
    ReadNumber(s, 0, "", Repeat('0', zeros), sign + ds, base, 0);
  }

  /** The offset behind the last digit of what `fw_fmt_u64` prints. */
  function DigitsEnd(text: string, v: nat, base: nat, upper: bool, left: bool, sign: string): nat
    requires 2 <= base <= 16
  {
    if left then |sign| + |Digits(v, base, upper)| else |text|
  }

  /** Zeros were put in front of a sign. */
  predicate ZerosBeforeSign(v: nat, base: nat, upper: bool, width: nat, pad: char, left: bool, sign: string)
    requires 2 <= base <= 16
  {
    pad == '0' && !left && sign != "" && width > |sign| + |Digits(v, base, upper)|
  }

  /** `strtol` undoes `fw_fmt_u64`, for every long but its minimum, unless
      zero padding went in front of a sign. */
  lemma ReadsBack(v: nat, base: nat, upper: bool, width: nat, pad: char, left: bool, neg: bool, plus: bool, space: bool)
    requires (base == 8 || base == 10 || base == 16) && v < LONG && (pad == ' ' || pad == '0')
    ensures var sign := Sign(neg, plus, space); var text := Number(v, base, upper, width, pad, left, sign);
      Read(text, base) == (Signed(neg, v), DigitsEnd(text, v, base, upper, left, sign))
      <==> !ZerosBeforeSign(v, base, upper, width, pad, left, sign)
  {
    hide Read, Digits, Value, AllDigits;
    var sign, ds := Sign(neg, plus, space), Digits(v, base, upper);
    var body, text := sign + ds, Number(v, base, upper, width, pad, left, sign);
    DigitsValue(v, base, upper);
    if width <= |body| {
      assert text == Repeat(' ', 0) + (sign + (ds + ""));
      ReadSigned(text, 0, sign, ds, "", base, v);
    } else if left {
      var rest := Repeat(' ', width - |body|);
      assert text == Repeat(' ', 0) + (sign + (ds + rest));
      RepeatLength(' ', width - |body|);
      ReadSigned(text, 0, sign, ds, rest, base, v);
    } else if pad == ' ' {
      assert text == Repeat(' ', width - |body|) + (sign + (ds + ""));
      RepeatLength(' ', width - |body|);
      ReadSigned(text, width - |body|, sign, ds, "", base, v);
    } else if sign == "" {
      ZeroPadded(text, width - |body|, ds, base, v);
    } else {
      RepeatLength('0', width - |body|);
      ReadZeros(text, width - |body|, sign, ds, base);
    }
  }

  /** The space that stands for a sign is one more leading space. */
  lemma ReadSigned(s: string, spaces: nat, sign: string, ds: string, rest: string, base: nat, v: nat)
    requires s == Repeat(' ', spaces) + (sign + (ds + rest)) && sign in {"", "+", "-", " "}
    requires base == 8 || base == 10 || base == 16
    requires ds != "" && AllDigits(ds, base) && Value(0, ds, base) == v < LONG
    requires rest == "" || rest[0] == ' '
    ensures Read(s, base) == (Signed(sign == "-", v), spaces + |sign| + |ds|)
  {
    hide Read, Value, AllDigits;
    if sign == " " {
      assert Repeat(' ', spaces + 1) == Repeat(' ', spaces) + " ";
      assert s == Repeat(' ', spaces + 1) + ("" + (ds + rest));
      ReadNumber(s, spaces + 1, "", ds, rest, base, v);
    } else {
      ReadNumber(s, spaces, sign, ds, rest, base, v);
    }
  }

  lemma ZeroPadded(s: string, zeros: nat, ds: string, base: nat, v: nat)
    requires s == Repeat('0', zeros) + ("" + ds) && (base == 8 || base == 10 || base == 16)
    requires ds != "" && AllDigits(ds, base) && Value(0, ds, base) == v < LONG
    ensures Read(s, base) == (Signed(false, v), |s|)
  {
    hide Read, Value;
    ZerosValue(zeros, ds, base);
    RepeatLength('0', zeros);
    var all := Repeat('0', zeros) + ds;
    assert s == Repeat(' ', 0) + ("" + (all + ""));
    ReadNumber(s, 0, "", all, "", base, v);
  }

  // ----- every base, every prefix -----

  /** A letter or decimal digit counts as its place in the digits of base 36. */
  lemma DigitPlaces(c: char)
    ensures '0' <= c <= '9' ==> DigitValue(c) == c as int - 48
    ensures 'a' <= c <= 'z' ==> DigitValue(c) == c as int - 97 + 10
    ensures 'A' <= c <= 'Z' ==> DigitValue(c) == c as int - 65 + 10
    ensures DigitValue(c) < 36 <==> '0' <= c <= '9' || 'a' <= c <= 'z' || 'A' <= c <= 'Z'
  {
  }

  /** The base of digits ds behind a prefix, when base0 is asked for. */
  predicate BaseIs(base0: int, prefix: string, ds: string, base: nat) {
    if prefix != "" then prefix in {"0x", "0X"} && base0 in {0, 16} && base == 16
    else if base0 == 0 then base == if ds != "" && ds[0] == '0' then 8 else 10
    else 2 <= base0 <= 36 && base == base0
  }

  /** What `strtol` reads of s: white space, a sign, a prefix, as many digits as
      there are, and the rest. */
  predicate Splits(s: string, blank: string, sign: string, prefix: string, ds: string, rest: string, base0: int,
                   base: nat)
  {
    var tail := prefix + ds + rest;
    && s == blank + (sign + tail)
    && (forall k :: 0 <= k < |blank| ==> blank[k] in {' ', '\t', '\n', '\r'})
    && (sign + tail == "" || (sign + tail)[0] !in {' ', '\t', '\n', '\r'})
    && sign in {"", "+", "-"} && (sign == "" && tail != "" ==> tail[0] !in {'+', '-'})
    && BaseIs(base0, prefix, ds, base)
    && (prefix == "" && base0 in {0, 16} ==> !("0x" <= tail) && !("0X" <= tail))
    && AllDigits(ds, base) && (rest == "" || DigitValue(rest[0]) >= base)
  }

  /** n reduced to 64 bits in two's complement. */
  predicate IsLong(r: int, n: int) {
    -0x8000_0000_0000_0000 <= r < 0x8000_0000_0000_0000 && (r - n) % 0x1_0000_0000_0000_0000 == 0
  }

  lemma WrapIs(n: int)
    ensures IsLong(Wrap(n), n)
  {
    var q := n / (2 * LONG);
    assert n == q * (2 * LONG) + n % (2 * LONG);
    var d := if n % (2 * LONG) >= LONG then -q - 1 else -q;
    assert Wrap(n) - n == d * (2 * LONG) + 0;
    DivUnique(Wrap(n) - n, 2 * LONG, d, 0);
  }

  lemma WrapShift(n: int, q: int)
    ensures Wrap(n + q * (2 * LONG)) == Wrap(n)
  {
    var m := n / (2 * LONG);
    assert n == m * (2 * LONG) + n % (2 * LONG);
    assert n + q * (2 * LONG) == (m + q) * (2 * LONG) + n % (2 * LONG);
    DivUnique(n + q * (2 * LONG), 2 * LONG, m + q, n % (2 * LONG));
  }

  /** How often the modulus was subtracted. */
  lemma WrapBy(n: int) returns (q: int)
    ensures Wrap(n) == n + q * (2 * LONG)
  {
    q := -(n / (2 * LONG));
    assert n == n / (2 * LONG) * (2 * LONG) + n % (2 * LONG);
    if n % (2 * LONG) >= LONG {
      q := q - 1;
    }
  }

  lemma WrapDigit(w: int, base: int, d: int)
    ensures Wrap(Wrap(w) * base + d) == Wrap(w * base + d)
  {
    var q := WrapBy(w);
    assert (w + q * (2 * LONG)) * base + d == (w * base + d) + (q * base) * (2 * LONG);
    WrapShift(w * base + d, q * base);
  }

  lemma WrapNegated(w: int)
    ensures Wrap(-1 * Wrap(w)) == Wrap(-w) && Wrap(1 * Wrap(w)) == Wrap(w)
    ensures w >= 0 ==> Signed(true, w) == -w && Signed(false, w) == w
  {
    var q := WrapBy(w);
    assert -1 * (w + q * (2 * LONG)) == -w + (-q) * (2 * LONG);
    WrapShift(-w, -q);
    WrapShift(w, q);
  }

  /** Scanning wraps around, digit by digit. */
  lemma {:induction false} ScanWraps(s: string, i: nat, ds: string, base: nat, w: nat)
    requires i + |ds| <= |s| && s[i..i + |ds|] == ds && AllDigits(ds, base)
    ensures Scan(s, i, base, Wrap(w)) == Scan(s, i + |ds|, base, Wrap(Value(w, ds, base)))
    decreases ds
  {
    hide Wrap, DigitValue;
    if ds != "" {
      assert s[i] == s[i..i + |ds|][0] == ds[0];
      WrapDigit(w, base, DigitValue(ds[0]));
      assert s[i + 1..i + 1 + |ds[1..]|] == s[i..i + |ds|][1..];
      ScanWraps(s, i + 1, ds[1..], base, w * base + DigitValue(ds[0]));
    }
  }

  lemma {:induction false} SkipsBlanks(s: string, i: nat, blank: string)
    requires i + |blank| <= |s| && s[i..i + |blank|] == blank && forall k :: 0 <= k < |blank| ==> IsSpace(blank[k])
    requires i + |blank| < |s| ==> !IsSpace(s[i + |blank|])
    ensures SkipSpaces(s, i) == i + |blank|
    decreases blank
  {
    hide IsSpace;
    if blank != "" {
      assert s[i] == s[i..i + |blank|][0] == blank[0];
      assert s[i + 1..i + 1 + |blank[1..]|] == s[i..i + |blank|][1..];
      SkipsBlanks(s, i + 1, blank[1..]);
    }
  }

  lemma FiveParts(s: string, a: string, b: string, c: string, d: string, e: string)
    requires s == a + (b + (c + d + e))
    ensures var i := |a|; var j := i + |b|; var k := j + |c|; var end := k + |d|;
      && end == |s| - |e| && s[0..0 + i] == a && s[i..] == b + (c + d + e) && s[j..] == c + d + e
      && s[k..end] == d && s[end..] == e
  {
    var t := c + d + e;
    assert s[|a|..] == b + t;
    assert (b + t)[|b|..] == t;
    assert t[|c|..] == d + e;
    assert t[|c|..|c| + |d|] == d && t[|c| + |d|..] == e;
  }

  lemma StartAt(s: string, i: nat, tail: string)
    requires i <= |s| && s[i..] == tail
    ensures CharAt(s, i) == (if tail == "" then '\0' else tail[0])
    ensures HexPrefix(s, i) <==> "0x" <= tail || "0X" <= tail
  {
    assert |tail| > 0 ==> tail[0] == s[i];
    assert |tail| > 1 ==> tail[1] == s[i + 1];
  }

  /** What `strtol` returns for every string and every base: the digits it
      takes, their value in the base found, as a long, and where they end. */
  lemma ReadExactly(s: string, blank: string, sign: string, prefix: string, ds: string, rest: string, base0: int,
                    base: nat)
    requires Splits(s, blank, sign, prefix, ds, rest, base0, base)
    ensures var (value, end) := Read(s, base0); var v := Value(0, ds, base);
      IsLong(value, Signed(sign == "-", v)) && end == |s| - |rest|
  {
    ScanParts(s, blank, sign, prefix, ds, rest, base0, base);
    BaseParts(s, blank, sign, prefix, ds, rest, base0, base);
    hide *;
    var v := Value(0, ds, base);
    var i := |blank|;
    var k := i + |sign| + |prefix|;
    ReadBy(s, base0, i, sign, base, |prefix|, Wrap(v), k + |ds|);
    WrapNegated(v);
    WrapIs(Signed(sign == "-", v));
  }

  lemma SplitPieces(s: string, blank: string, sign: string, prefix: string, ds: string, rest: string, base0: int,
                    base: nat)
    requires Splits(s, blank, sign, prefix, ds, rest, base0, base)
    ensures var i := |blank|; var k := i + |sign| + |prefix|; var end := k + |ds|;
      && end == |s| - |rest| && s[0..0 + i] == blank && s[k..end] == ds && s[end..] == rest
      && (forall q :: 0 <= q < |blank| ==> IsSpace(blank[q])) && (i < |s| ==> !IsSpace(s[i]))
      && AllDigits(ds, base) && (end < |s| ==> DigitValue(s[end]) >= base)
  {
    hide DigitValue, AllDigits, BaseIs;
    FiveParts(s, blank, sign, prefix, ds, rest);
    FirstAt(s, |blank|, sign + (prefix + ds + rest));
    FirstAt(s, |s| - |rest|, rest);
  }

  lemma FirstAt(s: string, i: nat, tail: string)
    requires i <= |s| && s[i..] == tail
    ensures (i < |s| <==> tail != "") && (i < |s| ==> s[i] == tail[0])
  {
    assert |tail| == |s| - i;
  }

  /** Where the scan starts and what it yields. */
  lemma ScanParts(s: string, blank: string, sign: string, prefix: string, ds: string, rest: string, base0: int,
                  base: nat)
    requires Splits(s, blank, sign, prefix, ds, rest, base0, base)
    ensures var i := |blank|; var k := i + |sign| + |prefix|;
      && SkipSpaces(s, 0) == i && k + |ds| == |s| - |rest|
      && Scan(s, k, base, 0) == (Wrap(Value(0, ds, base)), k + |ds|)
  {
    hide *;
    SplitPieces(s, blank, sign, prefix, ds, rest, base0, base);
    var k := |blank| + |sign| + |prefix|;
    SkipsBlanks(s, 0, blank);
    WrapZero();
    ScanWraps(s, k, ds, base, 0);
    ScanStops(s, k + |ds|, base, Wrap(Value(0, ds, base)));
  }

  /** What `strtol` looks at to find sign, prefix and base. */
  predicate Looks(s: string, base0: int, i: nat, sign: string, base: nat, skip: nat) {
    var j := i + |sign|;
    && (base0 == 0 || 2 <= base0 <= 36) && sign in {"", "+", "-"}
    && (sign == "+" <==> CharAt(s, i) == '+') && (sign == "-" <==> CharAt(s, i) == '-')
    && base == (if base0 != 0 then base0 else if HexPrefix(s, j) then 16 else if CharAt(s, j) == '0' then 8 else 10)
    && skip == if base == 16 && (base0 == 0 || base0 == 16) && HexPrefix(s, j) then 2 else 0
  }

  lemma BaseParts(s: string, blank: string, sign: string, prefix: string, ds: string, rest: string, base0: int,
                  base: nat)
    requires Splits(s, blank, sign, prefix, ds, rest, base0, base)
    ensures Looks(s, base0, |blank|, sign, base, |prefix|)
  {
    hide AllDigits, IsSpace;
    FiveParts(s, blank, sign, prefix, ds, rest);
    PrefixStart(prefix, ds, rest, base);
    TailLooks(s, |blank|, sign, prefix + ds + rest, prefix, ds, base0, base);
  }

  /** The same from the text behind the white space. */
  lemma TailLooks(s: string, i: nat, sign: string, tail: string, prefix: string, ds: string, base0: int, base: nat)
    requires i + |sign| <= |s| && s[i..] == sign + tail && s[i + |sign|..] == tail
    requires sign in {"", "+", "-"} && (sign == "" && tail != "" ==> tail[0] !in {'+', '-'})
    requires BaseIs(base0, prefix, ds, base)
    requires prefix == "" && base0 in {0, 16} ==> !("0x" <= tail) && !("0X" <= tail)
    requires prefix in {"0x", "0X"} ==> "0x" <= tail || "0X" <= tail
    requires prefix == "" && ds != "" ==> tail != "" && tail[0] == ds[0]
    requires prefix == "" && ds == "" ==> tail == "" || tail[0] != '0'
    ensures Looks(s, base0, i, sign, base, |prefix|)
  {
    StartAt(s, i, sign + tail);
    StartAt(s, i + |sign|, tail);
    hide HexPrefix, CharAt;
  }

  lemma ReadBy(s: string, base0: int, i: nat, sign: string, base: nat, skip: nat, v: int, end: nat)
    requires Looks(s, base0, i, sign, base, skip) && SkipSpaces(s, 0) == i
    requires Scan(s, i + |sign| + skip, base, 0) == (v, end)
    ensures Read(s, base0) == (Wrap(if sign == "-" then -1 * v else 1 * v), end)
  {
    hide Wrap, Scan, SkipSpaces, HexPrefix, CharAt;
  }

  lemma WrapZero()
    ensures Wrap(0) == 0
  {
  }

  lemma PrefixStart(prefix: string, ds: string, rest: string, base: nat)
    requires AllDigits(ds, base) && (rest == "" || DigitValue(rest[0]) >= base) && base >= 2
    ensures var tail := prefix + ds + rest;
      && (prefix in {"0x", "0X"} ==> "0x" <= tail || "0X" <= tail)
      && (prefix == "" && ds != "" ==> tail != "" && tail[0] == ds[0])
      && (prefix == "" && ds == "" ==> tail == rest && (tail == "" || tail[0] != '0'))
  {
  }

  lemma DigitRun(v: string, base: nat) returns (n: nat)
    ensures n <= |v| && AllDigits(v[..n], base) && (n < |v| ==> DigitValue(v[n]) >= base)
  {
    hide DigitValue;
    n := 0;
    while n < |v| && DigitValue(v[n]) < base
      invariant n <= |v| && forall k :: 0 <= k < n ==> DigitValue(v[k]) < base
    {
      n := n + 1;
    }
  }

  lemma BlankRun(s: string) returns (n: nat)
    ensures n <= |s| && (forall k :: 0 <= k < n ==> s[k] in {' ', '\t', '\n', '\r'})
    ensures n < |s| ==> s[n] !in {' ', '\t', '\n', '\r'}
  {
    n := 0;
    while n < |s| && s[n] in {' ', '\t', '\n', '\r'}
      invariant n <= |s| && forall k :: 0 <= k < n ==> s[k] in {' ', '\t', '\n', '\r'}
    {
      n := n + 1;
    }
  }

  predicate Prefixed(u: string, base0: int) {
    base0 in {0, 16} && ("0x" <= u || "0X" <= u)
  }

  /** Prefix, digits and rest behind the sign. */
  predicate TailParts(u: string, base0: int, prefix: string, ds: string, rest: string, base: nat) {
    && u == prefix + ds + rest && BaseIs(base0, prefix, ds, base) && (prefix == "" ==> !Prefixed(u, base0))
    && AllDigits(ds, base) && (rest == "" || DigitValue(rest[0]) >= base)
  }

  lemma PrefixedTail(u: string, base0: int) returns (prefix: string, ds: string, rest: string)
    requires Prefixed(u, base0)
    ensures TailParts(u, base0, prefix, ds, rest, 16)
  {
    hide DigitValue;
    prefix := u[..2];
    assert prefix == "0x" || prefix == "0X";
    var v := u[2..];
    var n := DigitRun(v, 16);
    ds, rest := v[..n], v[n..];
    hide AllDigits;
    assert v == ds + rest && u == prefix + v;
  }

  lemma PlainTail(u: string, base0: int) returns (ds: string, rest: string, base: nat)
    requires (base0 == 0 || 2 <= base0 <= 36) && !Prefixed(u, base0)
    ensures TailParts(u, base0, "", ds, rest, base)
  {
    base := if base0 != 0 then base0 else if u != "" && u[0] == '0' then 8 else 10;
    var n := DigitRun(u, base);
    ds, rest := u[..n], u[n..];
    assert DigitValue('0') == 0;
    hide DigitValue, AllDigits, Prefixed;
    assert u == ds + rest && "" + ds == ds;
    assert ds != "" ==> ds[0] == u[0];
  }

  /** Every string splits for every base, so `ReadExactly` covers them all. */
  lemma EverySplits(s: string, base0: int)
    returns (blank: string, sign: string, prefix: string, ds: string, rest: string, base: nat)
    requires base0 == 0 || 2 <= base0 <= 36
    ensures Splits(s, blank, sign, prefix, ds, rest, base0, base)
  {
    var i := BlankRun(s);
    blank := s[..i];
    var t := s[i..];
    sign := if t != "" && t[0] == '+' then "+" else if t != "" && t[0] == '-' then "-" else "";
    var u := t[|sign|..];
    assert t == sign + u;
    prefix, base := "", 16;
    if Prefixed(u, base0) {
      prefix, ds, rest := PrefixedTail(u, base0);
    } else {
      ds, rest, base := PlainTail(u, base0);
    }
    SplitsOf(s, blank, sign, prefix, ds, rest, base0, base, t, u);
  }

  lemma SplitsOf(s: string, blank: string, sign: string, prefix: string, ds: string, rest: string, base0: int,
                 base: nat, t: string, u: string)
    requires s == blank + t && t == sign + u && TailParts(u, base0, prefix, ds, rest, base)
    requires forall k :: 0 <= k < |blank| ==> blank[k] in {' ', '\t', '\n', '\r'}
    requires t == "" || t[0] !in {' ', '\t', '\n', '\r'}
    requires sign in {"", "+", "-"} && (sign == "" && u != "" ==> u[0] !in {'+', '-'})
    ensures Splits(s, blank, sign, prefix, ds, rest, base0, base)
  {
    hide BaseIs, AllDigits, DigitValue;
  }

  /** A base that is not 0 and not between 2 and 36 reads nothing. */
  lemma ReadRefused(s: string, base0: int)
    requires base0 != 0 && (base0 < 2 || 36 < base0)
    ensures Read(s, base0) == (0, 0)
  {
  }

  lemma DigitBelow36(ds: string, base: nat)
    requires AllDigits(ds, base) && ds != "" && base <= 16
    ensures ds[0] !in {' ', '\t', '\n', '\r', '+', '-'}
  {
    DigitChar(ds[0]);
  }

  /** What `%p` prints is read back as the same long with base 0 and with base 16. */
  lemma PointerReadsBack(p: nat, base0: int)
    requires base0 == 0 || base0 == 16
    ensures var text := "0x" + Digits(p, 16, false);
      IsLong(Read(text, base0).0, p) && Read(text, base0).1 == |text|
  {
    var ds := Digits(p, 16, false);
    var text := "0x" + ds;
    DigitsValue(p, 16, false);
    hide Digits, Value, AllDigits, Read, IsLong, DigitValue;
    assert text == "" + ("" + ("0x" + ds + ""));
    assert Splits(text, "", "", "0x", ds, "", base0, 16);
    ReadExactly(text, "", "", "0x", ds, "", base0, 16);
  }

  lemma PlainDecimal(v: nat)
    ensures var ds := Digits(v, 10, false);
      ds != "" && ds[0] !in {'x', 'X'} && (|ds| > 1 ==> ds[0] != '0') && (ds[0] == '0' ==> v == 0 && ds == "0")
  {
    NoLeadingZero(v, 10, false);
    DigitsValue(v, 10, false);
    DigitChar(Digits(v, 10, false)[0]);
  }

  lemma DecimalSplits(text: string, sign: string, ds: string, base: nat)
    requires text == sign + ds && sign in {"", "+", "-"} && ds != "" && AllDigits(ds, base) && AllDigits(ds, 10)
    requires ds[0] !in {'x', 'X'} && (|ds| > 1 ==> ds[0] != '0') && base == if ds[0] == '0' then 8 else 10
    ensures Splits(text, "", sign, "", ds, "", 0, base)
  {
    DigitBelow36(ds, 10);
    hide DigitValue, AllDigits;
    assert text == "" + (sign + ("" + ds + ""));
    assert "" + ds + "" == ds && (sign == "" ==> sign + ds == ds);
  }

  /** A decimal number without padding is read back with base 0 as well. */
  lemma DecimalReadsBack(v: nat, neg: bool, plus: bool)
    ensures var text := Number(v, 10, false, 0, ' ', false, Sign(neg, plus, false));
      IsLong(Read(text, 0).0, Signed(neg, v)) && Read(text, 0).1 == |text|
  {
    var sign, ds := Sign(neg, plus, false), Digits(v, 10, false);
    var text := Number(v, 10, false, 0, ' ', false, sign);
    DigitsValue(v, 10, false);
    PlainDecimal(v);
    var base := if ds[0] == '0' then 8 else 10;
    if ds[0] == '0' {
      ZeroDigit(ds, base);
    }
    hide Digits, Value, Read, IsLong, AllDigits;
    DecimalSplits(text, sign, ds, base);
    ReadExactly(text, "", sign, "", ds, "", 0, base);
  }

  lemma ZeroDigit(ds: string, base: nat)
    requires ds == "0" && base > 0
    ensures AllDigits(ds, base) && Value(0, ds, base) == 0
  {
    assert ds[1..] == "";
  }

  lemma OctalSplits(text: string)
    requires text != "" && text[0] == '0' && AllDigits(text, 8)
    requires |text| > 1 ==> DigitValue(text[1]) < 8
    ensures Splits(text, "", "", "", text, "", 0, 8)
  {
    if |text| > 1 {
      DigitChar(text[1]);
    }
    hide DigitValue, AllDigits;
    assert "" + text + "" == text && "" + text == text;
    assert "" + ("" + ("" + text + "")) == text;
  }

  /** Zeros in front make a number octal for base 0. */
  lemma ZerosAreOctal(v: nat, zeros: nat)
    requires zeros > 0
    ensures var text := Repeat('0', zeros) + Digits(v, 8, false);
      IsLong(Read(text, 0).0, v) && Read(text, 0).1 == |text|
  {
    var ds := Digits(v, 8, false);
    var text := Repeat('0', zeros) + ds;
    DigitsValue(v, 8, false);
    ZerosValue(zeros, ds, 8);
    assert DigitValue('0') == 0;
    hide Digits, Value, Read, IsLong, DigitValue;
    assert AllDigits(text, 8);
    OctalSplits(text);
    ReadExactly(text, "", "", "", text, "", 0, 8);
  }
}
