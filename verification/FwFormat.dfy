/** The firmware's bounded formatter: `fw_fmt_u64` and `fw_vsnprintf`, against
    one rendering that does not depend on the size of the buffer. */
module FwFormat {
  import opened Arithmetic
  import opened Wrappers

  // ----- numbers -----

  const DIGITS: nat := 68 // char tmp[68]
  const ULLONG: nat := 0x1_0000_0000_0000_0000

  function Digit(d: nat, upper: bool): char
    requires d < 16
  {
    if upper then "0123456789ABCDEF"[d] else "0123456789abcdef"[d]
  }

  function Quotient(v: nat, base: nat): (q: nat)
    requires 2 <= base
    ensures (v > 0 ==> q < v) && q * base + Remainder(v, base) == v
  {
    var q := v / base;
    assert v == q * base + v % base;
    Shrinks(v, base, q);
    q
  }

  lemma Shrinks(v: nat, base: nat, q: int)
    requires 2 <= base && v == q * base + v % base
    ensures 0 <= q && (v > 0 ==> q < v)
  {
    ProductGrows(q, base);
    Doubles(q, base);
  }

  lemma Doubles(q: int, base: nat)
    requires 2 <= base
    ensures q > 0 ==> q * base >= 2 * q
  {
  }

  function Remainder(v: nat, base: nat): (r: nat)
    requires 2 <= base
    ensures r < base
  {
    v % base
  }

  /** The digits of a positive number, most significant first. */
  function Positive(v: nat, base: nat, upper: bool): string
    requires 2 <= base <= 16
  {
    if v == 0 then "" else Positive(Quotient(v, base), base, upper) + [Digit(Remainder(v, base), upper)]
  }

  function Digits(v: nat, base: nat, upper: bool): string
    requires 2 <= base <= 16
  {
    if v == 0 then "0" else Positive(v, base, upper)
  }

  function Sign(neg: bool, plus: bool, space: bool): string {
    if neg then "-" else if plus then "+" else if space then " " else ""
  }

  function Repeat(c: char, n: nat): string {
    seq(n, _ => c)
  }

  /** text in a field of the given width; padding on the right is always spaces. */
  function Padded(text: string, width: nat, pad: char, left: bool): string {
    if width <= |text| then text
    else if left then text + Repeat(' ', width - |text|)
    else Repeat(pad, width - |text|) + text
  }

  /** What `fw_fmt_u64` prints: the padding comes before the sign, zeros too. */
  function Number(v: nat, base: nat, upper: bool, width: nat, pad: char, left: bool, sign: string): string
    requires 2 <= base <= 16
  {
    Padded(sign + Digits(v, base, upper), width, pad, left)
  }

  /** A 64-bit number has at most 22 digits in base 8 and above. */
  lemma {:induction false} FewDigits(v: nat, base: nat, upper: bool, k: nat)
    requires 8 <= base <= 16 && v < Power(k)
    ensures |Positive(v, base, upper)| <= k
  {
    if v > 0 {
      assert v < 8 * Power(k - 1);
      Smaller(v, base, Power(k - 1));
      FewDigits(Quotient(v, base), base, upper, k - 1);
    }
  }

  function Power(k: nat): nat {
    if k == 0 then 1 else 8 * Power(k - 1)
  }

  lemma Smaller(v: nat, base: nat, m: nat)
    requires 8 <= base && v < 8 * m
    ensures v / base < m
  {
    var q := v / base;
    assert v == q * base + v % base;
    Grows(q, base, m);
  }

  lemma Grows(q: nat, base: nat, m: nat)
    requires 8 <= base
    ensures q >= m ==> q * base >= 8 * m
  {
  }

  lemma FitsTmp(v: nat, base: nat, upper: bool)
    requires 8 <= base <= 16 && v < ULLONG
    ensures |Digits(v, base, upper)| <= 22
  {
    assert Power(11) == 0x2_0000_0000;
    assert Power(22) == 0x4_0000_0000_0000_0000 by {
      assert Power(16) == 0x1_0000_0000_0000;
      assert Power(20) == 0x1000_0000_0000_0000;
    }
    FewDigits(v, base, upper, 22);
  }

  // ----- the rendering of a format -----

  datatype Arg = Signed(n: int) | Unsigned(u: nat) | Character(c: char) | Text(s: Option<string>) | Pointer(p: nat)

  datatype Flags = Flags(left: bool, pad: char, plus: bool, space: bool)

  /** A conversion: flags, width, length modifier, the conversion letter and its place. */
  datatype Spec = Spec(flags: Flags, width: nat, lmod: int, conv: char, at: nat)

  /** *p; a format ends with a NUL. */
  function CharAt(fmt: string, i: nat): char {
    if i < |fmt| then fmt[i] else '\0'
  }

  predicate IsFlag(c: char) {
    c == '-' || c == '0' || c == '+' || c == ' '
  }

  function SetFlag(f: Flags, c: char): Flags {
    if c == '-' then f.(left := true)
    else if c == '0' then f.(pad := '0')
    else if c == '+' then f.(plus := true)
    else f.(space := true)
  }

  function ReadFlags(fmt: string, i: nat, f: Flags): (r: (Flags, nat))
    ensures r.1 >= i && (i <= |fmt| ==> r.1 <= |fmt|)
    decreases |fmt| - i
  {
    if i < |fmt| && IsFlag(fmt[i]) then ReadFlags(fmt, i + 1, SetFlag(f, fmt[i])) else (f, i)
  }

  predicate IsDecimal(c: char) {
    '0' <= c <= '9'
  }

  function ReadWidth(fmt: string, i: nat, width: nat): (r: (nat, nat))
    ensures r.1 >= i && (i <= |fmt| ==> r.1 <= |fmt|)
    decreases |fmt| - i
  {
    if i < |fmt| && IsDecimal(fmt[i]) then ReadWidth(fmt, i + 1, 10 * width + (fmt[i] as int - '0' as int))
    else (width, i)
  }

  function ReadLongs(fmt: string, i: nat, lmod: int): (r: (int, nat))
    ensures r.1 >= i && (i <= |fmt| ==> r.1 <= |fmt|)
    decreases |fmt| - i
  {
    if i < |fmt| && fmt[i] == 'l' then ReadLongs(fmt, i + 1, lmod + 1) else (lmod, i)
  }

  /** What follows the percent sign before i. */
  function ReadSpec(fmt: string, i: nat): (r: Spec)
    ensures r.at >= i && (i <= |fmt| ==> r.at <= |fmt|) && r.conv == CharAt(fmt, r.at)
  {
    var (flags, i1) := ReadFlags(fmt, i, Flags(false, ' ', false, false));
    var (width, i2) := ReadWidth(fmt, i1, 0);
    var (lmod, i3) := ReadLongs(fmt, i2, 0);
    if CharAt(fmt, i3) != 'h' then Spec(flags, width, lmod, CharAt(fmt, i3), i3)
    else
      var i4 := if CharAt(fmt, i3 + 1) == 'h' then i3 + 2 else i3 + 1;
      Spec(flags, width, -1, CharAt(fmt, i4), i4)
  }

  predicate IsSigned(conv: char) {
    conv == 'd' || conv == 'i'
  }

  predicate IsUnsigned(conv: char) {
    conv == 'u' || conv == 'x' || conv == 'X' || conv == 'o'
  }

  predicate TakesArg(conv: char) {
    IsSigned(conv) || IsUnsigned(conv) || conv == 'c' || conv == 's' || conv == 'p'
  }

  /** The type that the conversion reads from the argument list. */
  predicate Matches(spec: Spec, arg: Arg) {
    if IsSigned(spec.conv) then
      arg.Signed? &&
      (if spec.lmod >= 1 then -0x8000_0000_0000_0000 <= arg.n < 0x8000_0000_0000_0000
       else -0x8000_0000 <= arg.n < 0x8000_0000)
    else if IsUnsigned(spec.conv) then arg.Unsigned? && arg.u < if spec.lmod >= 1 then ULLONG else 0x1_0000_0000
    else if spec.conv == 'c' then arg.Character?
    else if spec.conv == 's' then arg.Text? && (arg.s.Some? ==> '\0' !in arg.s.value)
    else spec.conv == 'p' && arg.Pointer? && arg.p < ULLONG
  }

  function Base(conv: char): nat {
    if conv == 'u' || IsSigned(conv) then 10 else if conv == 'o' then 8 else 16
  }

  function Abs(n: int): nat {
    if n < 0 then -n else n
  }

  /** Strings are padded on the left only. */
  function StringField(text: string, spec: Spec): string {
    if spec.flags.left || spec.width <= |text| then text else Repeat(spec.flags.pad, spec.width - |text|) + text
  }

  function CharText(c: char): string {
    if c == '\0' then "" else [c]
  }

  function NullText(s: Option<string>): string {
    if s.None? then "(null)" else s.value
  }

  /** The text of a conversion that takes an argument. */
  function Converted(spec: Spec, arg: Arg): string
    requires Matches(spec, arg)
  {
    var f := spec.flags;
    if IsSigned(spec.conv) then
      Number(Abs(arg.n), 10, false, spec.width, f.pad, f.left, Sign(arg.n < 0, f.plus, f.space))
    else if IsUnsigned(spec.conv) then
      Number(arg.u, Base(spec.conv), spec.conv == 'X', spec.width, f.pad, f.left, Sign(false, f.plus, f.space))
    else if spec.conv == 'c' then StringField(CharText(arg.c), spec)
    else if spec.conv == 's' then StringField(NullText(arg.s), spec)
    else "0x" + Number(arg.p, 16, false, 0, ' ', false, "")
  }

  /** Any other conversion is printed as it stands. */
  function Literal(spec: Spec): string {
    if spec.conv == '%' || spec.conv == '\0' then "%" else "%" + [spec.conv]
  }

  /** The arguments are those that the rest of the format reads. */
  predicate Supplied(fmt: string, i: nat, args: seq<Arg>)
    decreases |fmt| - i
  {
    if i >= |fmt| then true
    else if fmt[i] != '%' then Supplied(fmt, i + 1, args)
    else
      var spec := ReadSpec(fmt, i + 1);
      if TakesArg(spec.conv) then args != [] && Matches(spec, args[0]) && Supplied(fmt, After(fmt, spec), args[1..])
      else Supplied(fmt, After(fmt, spec), args)
  }

  function After(fmt: string, spec: Spec): nat {
    if spec.conv != '\0' then spec.at + 1 else spec.at
  }

  /** The whole text, whatever the size of the buffer. */
  function Render(fmt: string, i: nat, args: seq<Arg>): string
    requires Supplied(fmt, i, args)
    decreases |fmt| - i
  {
    if i >= |fmt| then ""
    else if fmt[i] != '%' then [fmt[i]] + Render(fmt, i + 1, args)
    else
      var spec := ReadSpec(fmt, i + 1);
      if TakesArg(spec.conv) then Converted(spec, args[0]) + Render(fmt, After(fmt, spec), args[1..])
      else Literal(spec) + Render(fmt, After(fmt, spec), args)
  }

  // ----- what conversions print -----

  /** No number but zero starts with the digit zero. */
  lemma {:induction false} NoLeadingZero(v: nat, base: nat, upper: bool)
    requires 2 <= base <= 16
    ensures v > 0 ==> Positive(v, base, upper) != "" && Positive(v, base, upper)[0] != '0'
    ensures v == 0 ==> Digits(v, base, upper) == "0"
  {
    if v > 0 {
      var q := Quotient(v, base);
      NoLeadingZero(q, base, upper);
      NoQuotient(v, base);
      assert q == 0 ==> Positive(q, base, upper) == "";
    }
  }

  lemma NoQuotient(v: nat, base: nat)
    requires v > 0 && 2 <= base
    ensures Quotient(v, base) == 0 ==> Remainder(v, base) == v
  {
  }

  // ----- writing into the buffer -----

  /** The buffer holds the first cap - 1 characters of text from `at` on, and
      is otherwise as before. */
  predicate Shows(before: seq<char>, now: seq<char>, at: nat, cap: nat, text: string) {
    |now| == |before| &&
    forall k :: 0 <= k < |now| ==>
      now[k] == if at <= k && k - at < |text| && k - at + 1 < cap then text[k - at] else before[k]
  }

  lemma ShowsNothing(s: seq<char>, at: nat, cap: nat)
    ensures Shows(s, s, at, cap, "")
  {
  }

  lemma ShowsMore(before: seq<char>, mid: seq<char>, now: seq<char>, at: nat, cap: nat, text: string, more: string)
    requires Shows(before, mid, at, cap, text) &&
      Shows(mid, now, at + |text|, if cap < |text| then 0 else cap - |text|, more)
    ensures Shows(before, now, at, cap, text + more)
  {
  }

  /** `if (w + 1 < cap) out[w] = c; w++` */
  method Put(out: array<char>, at: nat, cap: nat, w: nat, c: char, ghost before: seq<char>, ghost text: string)
    requires at + cap <= out.Length || cap == 0
    requires |text| == w && Shows(before, out[..], at, cap, text)
    modifies out
    ensures Shows(before, out[..], at, cap, text + [c])
  {
    if w + 1 < cap {
      out[at + w] := c;
    }
  }

  method PutRepeated(out: array<char>, at: nat, cap: nat, w: nat, c: char, n: nat, ghost before: seq<char>,
                     ghost text: string)
    requires at + cap <= out.Length || cap == 0
    requires |text| == w && Shows(before, out[..], at, cap, text)
    modifies out
    ensures Shows(before, out[..], at, cap, text + Repeat(c, n))
  {
    hide Shows;
    assert text + Repeat(c, 0) == text;
    for i := 0 to n
      invariant Shows(before, out[..], at, cap, text + Repeat(c, i))
    {
      Put(out, at, cap, w + i, c, before, text + Repeat(c, i));
      assert (text + Repeat(c, i)) + [c] == text + Repeat(c, i + 1);
    }
  }

  // ----- fw_fmt_u64 -----

  /** The digits of v, least significant first. */
  method PutDigits(tmp: array<char>, v: nat, base: nat, upper: bool) returns (n: nat)
    requires tmp.Length == DIGITS && v < ULLONG && 8 <= base <= 16
    modifies tmp
    ensures n <= 22 && Reverse(tmp[..n]) == Digits(v, base, upper)
  {
    hide Reverse, Digit, Positive;
    FitsTmp(v, base, upper);
    n := 0;
    if v == 0 {
      tmp[n] := '0';
      n := n + 1;
      assert tmp[..1] == ['0'];
      ReverseOne('0');
    }
    ghost var all := Digits(v, base, upper);
    var rest: nat := v;
    if v != 0 {
      DigitsStart(v, base, upper, tmp[..0]);
    }
    while rest != 0
      invariant n <= 22
      invariant v != 0 ==> Positive(rest, base, upper) + Reverse(tmp[..n]) == all
      invariant v == 0 ==> rest == 0 && Reverse(tmp[..n]) == all
    {
      ghost var before := tmp[..n];
      DigitStep(rest, base, upper, before, all);
      tmp[n] := Digit(Remainder(rest, base), upper);
      n := n + 1;
      assert tmp[..n] == before + [tmp[n - 1]];
      rest := Quotient(rest, base);
    }
    if v != 0 {
      DigitsEnd(base, upper, tmp[..n]);
    }
  }

  lemma ReverseOne(c: char)
    ensures Reverse([c]) == [c]
  {
    ReverseNext("", c);
    assert "" + [c] == [c];
  }

  lemma DigitsStart(v: nat, base: nat, upper: bool, empty: string)
    requires v != 0 && 2 <= base <= 16 && empty == ""
    ensures Positive(v, base, upper) + Reverse(empty) == Digits(v, base, upper)
  {
  }

  lemma DigitsEnd(base: nat, upper: bool, back: string)
    requires 2 <= base <= 16
    ensures Positive(0, base, upper) + Reverse(back) == Reverse(back)
  {
  }

  /** Moving the last digit of rest to the back of the reversed digits. */
  lemma DigitStep(rest: nat, base: nat, upper: bool, back: string, all: string)
    requires rest != 0 && 2 <= base <= 16 && Positive(rest, base, upper) + Reverse(back) == all && |all| <= 22
    ensures |back| < 22
    ensures Positive(Quotient(rest, base), base, upper) + Reverse(back + [Digit(Remainder(rest, base), upper)]) == all
  {
    hide *;
    var d := Digit(Remainder(rest, base), upper);
    ReverseLength(back);
    ReverseNext(back, d);
    PositiveIs(rest, base, upper);
    Moved(Positive(Quotient(rest, base), base, upper), d, Reverse(back));
  }

  lemma PositiveIs(v: nat, base: nat, upper: bool)
    requires v != 0 && 2 <= base <= 16
    ensures Positive(v, base, upper) == Positive(Quotient(v, base), base, upper) + [Digit(Remainder(v, base), upper)]
  {
  }

  lemma Moved(front: string, d: char, back: string)
    ensures (front + [d]) + back == front + ([d] + back)
  {
  }

  /** The digits of v, least significant first, with the sign last. */
  method Backwards(v: nat, base: nat, upper: bool, neg: bool, plus: bool, space: bool)
    returns (tmp: array<char>, n: nat)
    requires v < ULLONG && 8 <= base <= 16
    ensures fresh(tmp) && tmp.Length == DIGITS && n <= DIGITS
    ensures Reverse(tmp[..n]) == Sign(neg, plus, space) + Digits(v, base, upper)
  {
    hide Reverse, Digits;
    tmp := new char[DIGITS];
    n := PutDigits(tmp, v, base, upper);
    ghost var before := tmp[..n];
    if neg || plus || space {
      tmp[n] := if neg then '-' else if plus then '+' else ' ';
      n := n + 1;
      assert tmp[..n] == before + [tmp[n - 1]];
      ReverseNext(before, tmp[n - 1]);
    } else {
      assert "" + Digits(v, base, upper) == Digits(v, base, upper);
    }
  }

  function Reverse(s: string): string {
    if s == "" then "" else Reverse(s[1..]) + [s[0]]
  }

  lemma {:induction false} ReverseNext(s: string, c: char)
    ensures Reverse(s + [c]) == [c] + Reverse(s)
  {
    if s == "" {
      assert s + [c] == [c] && [c][1..] == "";
    } else {
      assert (s + [c])[1..] == s[1..] + [c];
      ReverseNext(s[1..], c);
    }
  }

  lemma {:induction false} ReverseLength(s: string)
    ensures |Reverse(s)| == |s|
  {
    if s != "" {
      ReverseLength(s[1..]);
    }
  }

  lemma {:induction false} ReverseAt(s: string, i: nat)
    requires i < |s|
    ensures |Reverse(s)| == |s| && Reverse(s)[|s| - 1 - i] == s[i]
  {
    ReverseLength(s);
    ReverseLength(s[1..]);
    if i > 0 {
      ReverseAt(s[1..], i - 1);
    }
  }

  /** The loop that writes the digits, the last of tmp first. */
  method PutReversed(out: array<char>, at: nat, cap: nat, w: nat, tmp: array<char>, n: nat, ghost before: seq<char>,
                     ghost text: string)
    requires out != tmp && n <= tmp.Length && (at + cap <= out.Length || cap == 0)
    requires |text| == w && Shows(before, out[..], at, cap, text)
    modifies out
    ensures Shows(before, out[..], at, cap, text + Reverse(tmp[..n])) && |Reverse(tmp[..n])| == n
  {
    hide Shows, Reverse;
    ghost var body := Reverse(tmp[..n]);
    ReverseLength(tmp[..n]);
    assert text + body[..0] == text;
    for i := n downto 0
      invariant Shows(before, out[..], at, cap, text + body[..n - i])
      invariant Reverse(tmp[..n]) == body
    {
      ReverseAt(tmp[..n], i);
      assert text + body[..n - i] == (text + body[..n - i - 1]) + [tmp[i]];
      Put(out, at, cap, w + (n - 1 - i), tmp[i], before, text + body[..n - i - 1]);
    }
    assert body[..n] == body;
  }

  /** `fw_fmt_u64` on the buffer from `at` on, of which cap characters are free. */
  method FmtU64(out: array<char>, at: nat, cap: nat, v: nat, base: nat, upper: bool, width: nat, pad: char, left: bool,
                neg: bool, plus: bool, space: bool) returns (written: nat)
    requires at + cap <= out.Length || cap == 0
    requires v < ULLONG && 8 <= base <= 16
    modifies out
    ensures var text := Number(v, base, upper, width, pad, left, Sign(neg, plus, space));
      written == |text| && Shows(old(out[..]), out[..], at, cap, text)
  {
    hide *;
    ghost var before := out[..];
    var tmp, n := Backwards(v, base, upper, neg, plus, space);
    ghost var body := Sign(neg, plus, space) + Digits(v, base, upper);
    ghost var text := "";
    ShowsNothing(before, at, cap);
    var w := 0;
    if !left && width > n {
      PutRepeated(out, at, cap, w, pad, width - n, before, text);
      text := text + Repeat(pad, width - n);
      RepeatLength(pad, width - n);
      w := w + (width - n);
    }
    PutReversed(out, at, cap, w, tmp, n, before, text);
    text := text + body;
    w := w + n;
    if left && width > n {
      PutRepeated(out, at, cap, w, ' ', width - n, before, text);
      RepeatLength(' ', width - n);
      text := text + Repeat(' ', width - n);
      w := w + (width - n);
    }
    NumberIs(v, base, upper, width, pad, left, Sign(neg, plus, space));
    assert "" + body == body;
    assert !left && width > n ==> "" + Repeat(pad, width - n) + body == Repeat(pad, width - n) + body;
    assert left && width > n ==> "" + body + Repeat(' ', width - n) == body + Repeat(' ', width - n);
    written := w;
  }

  lemma NumberIs(v: nat, base: nat, upper: bool, width: nat, pad: char, left: bool, sign: string)
    requires 2 <= base <= 16
    ensures var body := sign + Digits(v, base, upper);
      Number(v, base, upper, width, pad, left, sign)
      == if width <= |body| then body
         else if left then body + Repeat(' ', width - |body|)
         else Repeat(pad, width - |body|) + body
  {
  }

  lemma RepeatLength(c: char, n: nat)
    ensures |Repeat(c, n)| == n
  {
  }

  // ----- fw_vsnprintf -----

  /** The loops that read flags, width and length modifiers after a percent sign. */
  method ScanSpec(fmt: string, start: nat) returns (spec: Spec)
    requires '\0' !in fmt && start <= |fmt|
    ensures spec == ReadSpec(fmt, start)
  {
    var p, flags := start, Flags(false, ' ', false, false);
    while IsFlag(CharAt(fmt, p))
      invariant start <= p <= |fmt| &&
        ReadFlags(fmt, p, flags) == ReadFlags(fmt, start, Flags(false, ' ', false, false))
      decreases |fmt| - p
    {
      flags := SetFlag(flags, fmt[p]);
      p := p + 1;
    }
    ghost var p1 := p;
    var width: nat := 0;
    while IsDecimal(CharAt(fmt, p))
      invariant p1 <= p <= |fmt| && ReadWidth(fmt, p, width) == ReadWidth(fmt, p1, 0)
      decreases |fmt| - p
    {
      width := width * 10 + (fmt[p] as int - '0' as int);
      p := p + 1;
    }
    ghost var p2 := p;
    var lmod: int := 0;
    while CharAt(fmt, p) == 'l'
      invariant p2 <= p <= |fmt| && ReadLongs(fmt, p, lmod) == ReadLongs(fmt, p2, 0)
      decreases |fmt| - p
    {
      lmod := lmod + 1;
      p := p + 1;
    }
    if CharAt(fmt, p) == 'h' {
      lmod := -1;
      p := p + 1;
      if CharAt(fmt, p) == 'h' {
        p := p + 1;
      }
    }
    spec := Spec(flags, width, lmod, CharAt(fmt, p), p);
  }

  /** The buffer of `fw_vsnprintf` with the text so far; `w` counts all of it. */
  predicate Written(before: seq<char>, now: seq<char>, size: nat, w: nat, text: string) {
    Shows(before, now, 0, size, text) && |text| == w
  }

  function Room(size: nat, w: nat): nat {
    size - if w < size then w else size
  }

  method PutNumber(str: array<char>, size: nat, w: nat, v: nat, base: nat, upper: bool, width: nat, pad: char,
                   left: bool, neg: bool, plus: bool, space: bool, ghost before: seq<char>, ghost text: string)
    returns (w': nat)
    requires size <= str.Length && Written(before, str[..], size, w, text) && v < ULLONG && 8 <= base <= 16
    modifies str
    ensures Written(before, str[..], size, w', text + Number(v, base, upper, width, pad, left, Sign(neg, plus, space)))
  {
    hide Shows, Number, Sign;
    ghost var mid := str[..];
    var sw := FmtU64(str, w, Room(size, w), v, base, upper, width, pad, left, neg, plus, space);
    ShowsMore(before, mid, str[..], 0, size, text, Number(v, base, upper, width, pad, left, Sign(neg, plus, space)));
    w' := w + sw;
  }

  /** `str_out` */
  method PutString(str: array<char>, size: nat, w: nat, s: string, spec: Spec, ghost before: seq<char>,
                   ghost text: string) returns (w': nat)
    requires size <= str.Length && Written(before, str[..], size, w, text)
    modifies str
    ensures Written(before, str[..], size, w', text + StringField(s, spec))
  {
    hide Shows, Repeat;
    w' := w;
    ghost var front := text;
    if !spec.flags.left && spec.width > 0 && |s| < spec.width {
      PutRepeated(str, 0, size, w, spec.flags.pad, spec.width - |s|, before, text);
      RepeatLength(spec.flags.pad, spec.width - |s|);
      front := text + Repeat(spec.flags.pad, spec.width - |s|);
      w' := w' + (spec.width - |s|);
    }
    assert front + s[..0] == front;
    for i := 0 to |s|
      invariant Shows(before, str[..], 0, size, front + s[..i]) && |front| + i == w'
    {
      Put(str, 0, size, w', s[i], before, front + s[..i]);
      assert (front + s[..i]) + [s[i]] == front + s[..i + 1];
      w' := w' + 1;
    }
    assert s[..|s|] == s;
    if front != text {
      assert (text + Repeat(spec.flags.pad, spec.width - |s|)) + s
        == text + (Repeat(spec.flags.pad, spec.width - |s|) + s);
    }
  }

  method PutChars(str: array<char>, size: nat, w: nat, s: string, ghost before: seq<char>, ghost text: string)
    returns (w': nat)
    requires size <= str.Length && Written(before, str[..], size, w, text)
    modifies str
    ensures Written(before, str[..], size, w', text + s)
  {
    w' := PutString(str, size, w, s, Spec(Flags(false, ' ', false, false), 0, 0, 's', 0), before, text);
  }

  /** The switch on the conversion letter, for one that takes an argument. */
  method PutArg(str: array<char>, size: nat, w: nat, spec: Spec, arg: Arg, ghost before: seq<char>, ghost text: string)
    returns (w': nat)
    requires size <= str.Length && Written(before, str[..], size, w, text) && TakesArg(spec.conv) && Matches(spec, arg)
    modifies str
    ensures Written(before, str[..], size, w', text + Converted(spec, arg))
  {
    hide Written, Number, StringField, Sign;
    var f := spec.flags;
    if IsSigned(spec.conv) {
      w' := PutNumber(str, size, w, Abs(arg.n), 10, false, spec.width, f.pad, f.left, arg.n < 0, f.plus, f.space,
        before, text);
    } else if IsUnsigned(spec.conv) {
      w' := PutNumber(str, size, w, arg.u, Base(spec.conv), spec.conv == 'X', spec.width, f.pad, f.left, false, f.plus,
        f.space, before, text);
    } else if spec.conv == 'c' {
      w' := PutString(str, size, w, CharText(arg.c), spec, before, text);
    } else if spec.conv == 's' {
      w' := PutString(str, size, w, NullText(arg.s), spec, before, text);
    } else {
      w' := PutChars(str, size, w, "0x", before, text);
      NoSign();
      w' := PutNumber(str, size, w', arg.p, 16, false, 0, ' ', false, false, false, false, before, text + "0x");
      assert (text + "0x") + Number(arg.p, 16, false, 0, ' ', false, "")
        == text + ("0x" + Number(arg.p, 16, false, 0, ' ', false, ""));
    }
  }

  lemma NoSign()
    ensures Sign(false, false, false) == ""
  {
  }

  /** What the caller finds in the buffer: the first characters of the text
      that fit, and a NUL; the bytes behind it, and all from `size` on, are as before. */
  predicate Delivered(before: seq<char>, now: seq<char>, size: nat, text: string) {
    && |now| == |before|
    && var end := if |text| < size then |text| else size - 1;
    forall k :: 0 <= k < |now| ==>
      now[k] == if size == 0 || k > end then before[k] else if k == end then '\0'
                else if k < |text| then text[k] else before[k]
  }

  /** `fw_vsnprintf` */
  method FwVsnprintf(str: array<char>, size: nat, fmt: string, args: seq<Arg>) returns (n: nat)
    requires size <= str.Length && '\0' !in fmt && Supplied(fmt, 0, args)
    modifies str
    ensures n == |Render(fmt, 0, args)|
    ensures Delivered(old(str[..]), str[..], size, Render(fmt, 0, args))
  {
    hide *;
    ghost var before := str[..];
    var w: nat, p: nat, ap := 0, 0, args;
    ghost var text := "";
    StartWriting(before, size);
    assert "" + Render(fmt, 0, args) == Render(fmt, 0, args);
    while p < |fmt|
      invariant p <= |fmt| && Supplied(fmt, p, ap) && Written(before, str[..], size, w, text)
      invariant text + Render(fmt, p, ap) == Render(fmt, 0, args)
      decreases |fmt| - p
    {
      ghost var more, rest := [fmt[p]], Render(fmt, p, ap);
      RenderStep(fmt, p, ap);
      if fmt[p] != '%' {
        w := PutChars(str, size, w, [fmt[p]], before, text);
        p := p + 1;
      } else {
        var spec := ScanSpec(fmt, p + 1);
        AfterSpec(fmt, p + 1);
        p := if spec.conv != '\0' then spec.at + 1 else spec.at;
        if TakesArg(spec.conv) {
          more := Converted(spec, ap[0]);
          w := PutArg(str, size, w, spec, ap[0], before, text);
          ap := ap[1..];
        } else {
          more := Literal(spec);
          w := PutChars(str, size, w, Literal(spec), before, text);
        }
      }
      assert (text + more) + Render(fmt, p, ap) == text + (more + Render(fmt, p, ap));
      text := text + more;
    }
    RenderEnd(fmt, p, ap);
    assert text + "" == text;
    EndWriting(before, str[..], size, w, text);
    if size > 0 {
      str[if w < size - 1 then w else size - 1] := '\0';
    }
    n := w;
  }

  lemma RenderStep(fmt: string, p: nat, ap: seq<Arg>)
    requires p < |fmt| && Supplied(fmt, p, ap)
    ensures fmt[p] != '%' ==> Supplied(fmt, p + 1, ap) && Render(fmt, p, ap) == [fmt[p]] + Render(fmt, p + 1, ap)
    ensures fmt[p] == '%' ==> var spec := ReadSpec(fmt, p + 1);
      if TakesArg(spec.conv) then
        && ap != [] && Matches(spec, ap[0]) && Supplied(fmt, After(fmt, spec), ap[1..])
        && Render(fmt, p, ap) == Converted(spec, ap[0]) + Render(fmt, After(fmt, spec), ap[1..])
      else
        Supplied(fmt, After(fmt, spec), ap) && Render(fmt, p, ap) == Literal(spec) + Render(fmt, After(fmt, spec), ap)
  {
    hide ReadSpec, TakesArg, Matches, Converted, Literal;
  }

  lemma RenderEnd(fmt: string, p: nat, ap: seq<Arg>)
    requires p >= |fmt|
    ensures Supplied(fmt, p, ap) && Render(fmt, p, ap) == ""
  {
  }

  lemma AfterSpec(fmt: string, i: nat)
    requires i <= |fmt| && '\0' !in fmt
    ensures var spec := ReadSpec(fmt, i);
      i <= After(fmt, spec) <= |fmt| && After(fmt, spec) == if spec.conv != '\0' then spec.at + 1 else spec.at
  {
  }

  lemma StartWriting(s: seq<char>, size: nat)
    ensures Written(s, s, size, 0, "")
  {
  }

  lemma EndWriting(before: seq<char>, now: seq<char>, size: nat, w: nat, text: string)
    requires Written(before, now, size, w, text) && size <= |now|
    ensures |text| == w && |now| == |before| && (size == 0 ==> Delivered(before, now, size, text))
    ensures size > 0 ==> Delivered(before, now[(if w < size - 1 then w else size - 1) := '\0'], size, text)
  {
  }

  // ----- where fields and signs differ from C -----

  /** The text of a `%c` or `%s` before it is put into its field. */
  function FieldText(spec: Spec, arg: Arg): string
    requires Matches(spec, arg) && (spec.conv == 'c' || spec.conv == 's')
  {
    if spec.conv == 'c' then CharText(arg.c) else NullText(arg.s)
  }

  /** A character or string fills its field, as numbers do (section 7.21.6.1 of
      C11), exactly if the `-` flag is absent or there is nothing to fill. */
  lemma FieldFilled(spec: Spec, arg: Arg)
    requires Matches(spec, arg) && (spec.conv == 'c' || spec.conv == 's')
    ensures var text := FieldText(spec, arg);
      |Converted(spec, arg)| >= spec.width <==> !spec.flags.left || spec.width <= |text|
    ensures var text := FieldText(spec, arg);
      Converted(spec, arg) == Padded(text, spec.width, spec.flags.pad, spec.flags.left)
      <==> !spec.flags.left || spec.width <= |text|
  {
  }

  /** `%-5s` of a short string leaves the field unfilled; `%5s` does not. */
  lemma UnfilledField()
    ensures var args := [Text(Some("ab"))];
      && Supplied("%-5s", 0, args) && Render("%-5s", 0, args) == "ab"
      && Supplied("%5s", 0, args) && Render("%5s", 0, args) == "   ab"
  {
    var left, right := "%-5s", "%5s";
    assert ReadSpec(left, 1) == Spec(Flags(true, ' ', false, false), 5, 0, 's', 3);
    assert ReadSpec(right, 1) == Spec(Flags(false, ' ', false, false), 5, 0, 's', 2);
  }

  /** Padding is by spaces or zeros. */
  lemma {:induction false} PadOf(fmt: string, i: nat, f: Flags)
    requires f.pad == ' ' || f.pad == '0'
    ensures ReadFlags(fmt, i, f).0.pad == ' ' || ReadFlags(fmt, i, f).0.pad == '0'
    decreases |fmt| - i
  {
    if i < |fmt| && IsFlag(fmt[i]) {
      PadOf(fmt, i + 1, SetFlag(f, fmt[i]));
    }
  }

  lemma PadOfSpec(fmt: string, i: nat)
    ensures ReadSpec(fmt, i).flags.pad == ' ' || ReadSpec(fmt, i).flags.pad == '0'
  {
    PadOf(fmt, i, Flags(false, ' ', false, false));
  }

  lemma {:induction false} NoSignInside(v: nat, base: nat, upper: bool)
    requires 2 <= base <= 16
    ensures forall c :: c in Positive(v, base, upper) ==> c != '+' && c != ' '
    ensures v > 0 ==> |Positive(v, base, upper)| > 0
  {
    if v > 0 {
      NoSignInside(Quotient(v, base), base, upper);
    }
  }

  /** In every format an unsigned number gets a sign exactly if the `+` or the
      space flag is given. The printed text shows it, except that the space can
      coincide with a space of the padding. */
  lemma UnsignedSign(fmt: string, i: nat, arg: Arg)
    requires Matches(ReadSpec(fmt, i), arg) && IsUnsigned(ReadSpec(fmt, i).conv)
    ensures var spec := ReadSpec(fmt, i);
      var f := spec.flags;
      && (Sign(false, f.plus, f.space) == "" <==> !f.plus && !f.space)
      && ('+' in Converted(spec, arg) <==> f.plus)
    ensures var spec := ReadSpec(fmt, i);
      var f, upper := spec.flags, spec.conv == 'X';
      Converted(spec, arg) == Number(arg.u, Base(spec.conv), upper, spec.width, f.pad, f.left, "")
      <==> !f.plus && (!f.space || (f.pad == ' ' && !f.left && spec.width > |Digits(arg.u, Base(spec.conv), upper)|))
  {
    var spec := ReadSpec(fmt, i);
    var f := spec.flags;
    var digits := Digits(arg.u, Base(spec.conv), spec.conv == 'X');
    PadOfSpec(fmt, i);
    NoSignInside(arg.u, Base(spec.conv), spec.conv == 'X');
    PaddedSign(digits, spec.width, f.pad, f.left, f.plus, f.space);
  }

  lemma PaddedSign(digits: string, width: nat, pad: char, left: bool, plus: bool, space: bool)
    requires digits != "" && (pad == ' ' || pad == '0') && forall c :: c in digits ==> c != '+' && c != ' '
    ensures '+' in Padded(Sign(false, plus, space) + digits, width, pad, left) <==> plus
    ensures Padded(Sign(false, plus, space) + digits, width, pad, left) == Padded("" + digits, width, pad, left)
      <==> !plus && (!space || (pad == ' ' && !left && width > |digits|))
  {
    var sign := Sign(false, plus, space);
    var text, plain := Padded(sign + digits, width, pad, left), Padded(digits, width, pad, left);
    assert "" + digits == digits;
    var at := if left || width <= |digits| + 1 then 0 else width - |digits| - 1;
    assert '+' !in plain;
    if plus {
      assert text[at] == '+';
    } else if space {
      assert '+' !in text && text[at] == ' ';
      if pad == ' ' && !left && width > |digits| {
        assert Repeat(' ', width - |digits|) == Repeat(' ', width - |digits| - 1) + " ";
        assert text == plain;
      } else if width > |digits| {
        assert digits[0] in digits && plain[at] == if left then digits[0] else '0';
      } else {
        assert |text| == |digits| + 1 && |plain| == |digits|;
      }
    }
  }

  /** `%+u` and `% u` print a sign. */
  lemma SignedUnsigned()
    ensures var args := [Unsigned(7)];
      && Supplied("%+u", 0, args) && Render("%+u", 0, args) == "+7"
      && Supplied("% u", 0, args) && Render("% u", 0, args) == " 7"
  {
    var plus, space := "%+u", "% u";
    assert ReadSpec(plus, 1) == Spec(Flags(false, ' ', true, false), 0, 0, 'u', 2);
    assert ReadSpec(space, 1) == Spec(Flags(false, ' ', false, true), 0, 0, 'u', 2);
    assert Positive(7, 10, false) == "7" by {
      assert Quotient(7, 10) == 0 && Positive(0, 10, false) == "";
    }
  }

  // ----- what conversions print -----

  /** Letters are of the case asked for. */
  lemma {:induction false} DigitChars(v: nat, base: nat, upper: bool)
    requires 2 <= base <= 16
    ensures forall c :: c in Positive(v, base, upper) ==>
      '0' <= c <= '9' || if upper then 'A' <= c <= 'F' else 'a' <= c <= 'f'
  {
    if v > 0 {
      DigitChars(Quotient(v, base), base, upper);
    }
  }

  /** body stands in a field of the given width, at its left with spaces behind
      it, or at its right with pad before it. */
  predicate Fills(text: string, body: string, width: nat, pad: char, left: bool) {
    && |text| == (if |body| < width then width else |body|)
    && if left then body <= text && forall k :: |body| <= k < |text| ==> text[k] == ' '
       else text[|text| - |body|..] == body && forall k :: 0 <= k < |text| - |body| ==> text[k] == pad
  }

  /** What each conversion prints: the base of its letter, the sign of the flags. */
  lemma NumberText(spec: Spec, arg: Arg)
    requires Matches(spec, arg)
    ensures var f, text := spec.flags, Converted(spec, arg);
      && (spec.conv in {'d', 'i'} ==>
            var sign := if arg.n < 0 then "-" else if f.plus then "+" else if f.space then " " else "";
            Fills(text, sign + Digits(if arg.n < 0 then -arg.n else arg.n, 10, false), spec.width, f.pad, f.left))
      && (spec.conv in {'u', 'x', 'X', 'o'} ==>
            var sign := if f.plus then "+" else if f.space then " " else "";
            var base := if spec.conv == 'u' then 10 else if spec.conv == 'o' then 8 else 16;
            Fills(text, sign + Digits(arg.u, base, spec.conv == 'X'), spec.width, f.pad, f.left))
      && (spec.conv == 'p' ==> text == "0x" + Digits(arg.p, 16, false))
  {
    hide Digits, Padded, Fills, StringField;
    if spec.conv in {'d', 'i'} {
      var sign := Sign(arg.n < 0, spec.flags.plus, spec.flags.space);
      PaddedFills(sign + Digits(Abs(arg.n), 10, false), spec.width, spec.flags.pad, spec.flags.left);
    } else if spec.conv in {'u', 'x', 'X', 'o'} {
      var sign := Sign(false, spec.flags.plus, spec.flags.space);
      PaddedFills(sign + Digits(arg.u, Base(spec.conv), spec.conv == 'X'), spec.width, spec.flags.pad, spec.flags.left);
    } else if spec.conv == 'p' {
      assert "" + Digits(arg.p, 16, false) == Digits(arg.p, 16, false);
      PaddedFills(Digits(arg.p, 16, false), 0, ' ', false);
      FillsNothing(Padded(Digits(arg.p, 16, false), 0, ' ', false), Digits(arg.p, 16, false));
    }
  }

  lemma PaddedFills(text: string, width: nat, pad: char, left: bool)
    ensures Fills(Padded(text, width, pad, left), text, width, pad, left)
  {
  }

  lemma FillsNothing(text: string, body: string)
    requires Fills(text, body, 0, ' ', false)
    ensures text == body
  {
  }

  lemma StringText(spec: Spec, arg: Arg)
    requires Matches(spec, arg) && spec.conv in {'c', 's'}
    ensures var f, text := spec.flags, Converted(spec, arg);
      var body := if spec.conv == 'c' then if arg.c == '\0' then "" else [arg.c]
                  else if arg.s.None? then "(null)" else arg.s.value;
      if f.left then text == body else Fills(text, body, spec.width, f.pad, false)
  {
    hide Number;
  }

  /** The format is one conversion. */
  predicate OneSpec(fmt: string, spec: Spec) {
    fmt != "" && fmt[0] == '%' && ReadSpec(fmt, 1) == spec && After(fmt, spec) == |fmt|
  }

  lemma RenderConversion(fmt: string, spec: Spec, arg: Arg)
    requires OneSpec(fmt, spec) && TakesArg(spec.conv) && Matches(spec, arg)
    ensures Supplied(fmt, 0, [arg]) && Render(fmt, 0, [arg]) == Converted(spec, arg)
  {
    hide Converted, Matches, ReadSpec;
    assert [arg][1..] == [] && Converted(spec, arg) + "" == Converted(spec, arg);
  }

  lemma RenderPlain(fmt: string, spec: Spec)
    requires OneSpec(fmt, spec) && !TakesArg(spec.conv)
    ensures Supplied(fmt, 0, []) && Render(fmt, 0, []) == Literal(spec)
  {
    hide Literal, ReadSpec;
    assert Literal(spec) + "" == Literal(spec);
  }

  lemma OneDigit(v: nat, base: nat, upper: bool)
    requires 0 < v < base <= 16
    ensures Positive(v, base, upper) == [Digit(v, upper)]
  {
    hide Digit;
    DivUnique(v, base, 0, v);
    assert Positive(0, base, upper) == "";
  }

  lemma TwoDigits(q: nat, r: nat, base: nat, upper: bool)
    requires 0 < q < base <= 16 && r < base
    ensures Positive(q * base + r, base, upper) == [Digit(q, upper), Digit(r, upper)]
  {
    hide Digit;
    DivUnique(q * base + r, base, q, r);
    OneDigit(q, base, upper);
    assert q * base >= q;
  }

  lemma SmallDigits()
    ensures Digits(255, 16, false) == "ff" && Digits(255, 16, true) == "FF"
    ensures Digits(8, 8, false) == "10" && Digits(7, 10, false) == "7"
  {
    hide Positive;
    TwoDigits(15, 15, 16, false);
    TwoDigits(15, 15, 16, true);
    TwoDigits(1, 0, 8, false);
    OneDigit(7, 10, false);
  }

  /** The texts of some formats. */
  lemma RenderedNumbers()
    ensures Supplied("%x", 0, [Unsigned(255)]) && Render("%x", 0, [Unsigned(255)]) == "ff"
    ensures Supplied("%X", 0, [Unsigned(255)]) && Render("%X", 0, [Unsigned(255)]) == "FF"
    ensures Supplied("%o", 0, [Unsigned(8)]) && Render("%o", 0, [Unsigned(8)]) == "10"
    ensures Supplied("%p", 0, [Pointer(255)]) && Render("%p", 0, [Pointer(255)]) == "0xff"
  {
    SmallDigits();
    hide Digits;
    var plain := Flags(false, ' ', false, false);
    RenderConversion("%x", Spec(plain, 0, 0, 'x', 1), Unsigned(255));
    RenderConversion("%X", Spec(plain, 0, 0, 'X', 1), Unsigned(255));
    RenderConversion("%o", Spec(plain, 0, 0, 'o', 1), Unsigned(8));
    RenderConversion("%p", Spec(plain, 0, 0, 'p', 1), Pointer(255));
  }

  lemma RenderedFields()
    ensures Supplied("%d", 0, [Signed(-7)]) && Render("%d", 0, [Signed(-7)]) == "-7"
    ensures Supplied("%04d", 0, [Signed(-7)]) && Render("%04d", 0, [Signed(-7)]) == "00-7"
    ensures Supplied("%-4d", 0, [Signed(-7)]) && Render("%-4d", 0, [Signed(-7)]) == "-7  "
    ensures Supplied("%4lld", 0, [Signed(-7)]) && Render("%4lld", 0, [Signed(-7)]) == "  -7"
  {
    SmallDigits();
    hide Digits;
    var zero, left := "%04d", "%-4d";
    var longer := "%4lld";
    assert ReadSpec("%d", 1) == Spec(Flags(false, ' ', false, false), 0, 0, 'd', 1);
    assert ReadSpec(zero, 1) == Spec(Flags(false, '0', false, false), 4, 0, 'd', 3);
    assert ReadSpec(left, 1) == Spec(Flags(true, ' ', false, false), 4, 0, 'd', 3);
    assert ReadSpec(longer, 1) == Spec(Flags(false, ' ', false, false), 4, 2, 'd', 4);
    RenderConversion("%d", Spec(Flags(false, ' ', false, false), 0, 0, 'd', 1), Signed(-7));
    RenderConversion(zero, Spec(Flags(false, '0', false, false), 4, 0, 'd', 3), Signed(-7));
    RenderConversion(left, Spec(Flags(true, ' ', false, false), 4, 0, 'd', 3), Signed(-7));
    RenderConversion(longer, Spec(Flags(false, ' ', false, false), 4, 2, 'd', 4), Signed(-7));
  }

  /** A percent sign, a letter that is no conversion, and a format that ends
      inside a conversion. */
  lemma RenderedLiterals()
    ensures Supplied("%%", 0, []) && Render("%%", 0, []) == "%"
    ensures Supplied("%5q", 0, []) && Render("%5q", 0, []) == "%q"
    ensures Supplied("%", 0, []) && Render("%", 0, []) == "%"
  {
    var five := "%5q";
    assert ReadSpec(five, 1) == Spec(Flags(false, ' ', false, false), 5, 0, 'q', 2);
    RenderPlain("%%", ReadSpec("%%", 1));
    RenderPlain(five, ReadSpec(five, 1));
    RenderPlain("%", ReadSpec("%", 1));
  }
}
