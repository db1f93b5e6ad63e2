/** The Rust text of a generated program: how it is printed, how Rust reads
    it, and what it computes on wrapping 32-bit arithmetic. */
module FuzzRust {
  import opened Wrappers
  import opened Arithmetic
  import opened Fuzz

  datatype Token =
    | Num(n: nat) | Name(s: string) | Fn(k: nat)
    | Open | Close | OpenBrace | CloseBrace | Comma | Semi | Colon | Assign
    | Arith(op: ArithOp) | Compare(cmp: CmpOp) | Amp
    | KwIf | KwElse | KwLet | TypeU32

  // ----- printing -----

  /** `emit_expr` */
  function Emit(e: Expr): seq<Token> {
    match e
    case Lit(v) => [Num(v)]
    case Param(i) => [Name(ParamName(i))]
    case Bin(op, l, r) => [Open, Open] + Emit(l) + [Close, Arith(op), Open] + Emit(r) + [Close, Close, Amp, Num(255)]
    case Call(k, a, b, c) =>
      [Fn(k), Open, Open] + Emit(a) + [Close, Comma, Open] + Emit(b) + [Close, Comma, Open] + Emit(c) + [Close, Close]
    case If(cond, t, f) =>
      [KwIf, Open] + EmitCond(cond) + [Close, OpenBrace] + Emit(t) +
      [CloseBrace, KwElse, OpenBrace] + Emit(f) + [CloseBrace]
  }

  function EmitCond(c: Cond): seq<Token> {
    [Open] + Emit(c.l) + [Close, Compare(c.op), Open] + Emit(c.r) + [Close]
  }

  function EmitLet(name: string, e: Expr): seq<Token> {
    [KwLet, Name(name), Colon, TypeU32, Assign] + Emit(e) + [Semi]
  }

  /** The lines of a function between its braces, and the closing brace. */
  function EmitBody(lets: seq<(string, Expr)>, tail: Expr): seq<Token> {
    if lets == [] then Emit(tail) + [CloseBrace]
    else EmitLet(lets[0].0, lets[0].1) + EmitBody(lets[1..], tail)
  }

  // ----- reading -----

  /** Expressions as Rust parses them. */
  datatype Tree =
    | TNum(n: nat)
    | TName(s: string)
    | TCall(k: nat, a: Tree, b: Tree, c: Tree)
    | TArith(op: ArithOp, l: Tree, r: Tree)
    | TAnd(l: Tree, r: Tree)
    | TCompare(cmp: CmpOp, l: Tree, r: Tree)
    | TIf(cond: Tree, t: Tree, f: Tree)

  type Parsed = Option<(Tree, seq<Token>)>

  predicate Next(ts: seq<Token>, t: Token) {
    ts != [] && ts[0] == t
  }

  /** A comparison of two `&` expressions, or one of them. */
  function ParseExpr(ts: seq<Token>): (r: Parsed)
    ensures r.Some? ==> |r.value.1| < |ts|
    decreases |ts|, 4
  {
    var l := ParseAnd(ts);
    if l.None? then None
    else if l.value.1 != [] && l.value.1[0].Compare? then
      var r := ParseAnd(l.value.1[1..]);
      if r.None? then None else Some((TCompare(l.value.1[0].cmp, l.value.0, r.value.0), r.value.1))
    else l
  }

  function ParseAnd(ts: seq<Token>): (r: Parsed)
    ensures r.Some? ==> |r.value.1| < |ts|
    decreases |ts|, 3
  {
    var l := ParseSum(ts);
    if l.None? then None else AndRest(l.value.0, l.value.1)
  }

  /** `&` binds weaker than `+` and `-`. */
  function AndRest(l: Tree, ts: seq<Token>): (r: Parsed)
    ensures r.Some? ==> |r.value.1| <= |ts|
    decreases |ts|, 3
  {
    if Next(ts, Amp) then
      var r := ParseSum(ts[1..]);
      if r.None? then None else AndRest(TAnd(l, r.value.0), r.value.1)
    else Some((l, ts))
  }

  function ParseSum(ts: seq<Token>): (r: Parsed)
    ensures r.Some? ==> |r.value.1| < |ts|
    decreases |ts|, 2
  {
    var l := ParseProduct(ts);
    if l.None? then None else SumRest(l.value.0, l.value.1)
  }

  function SumRest(l: Tree, ts: seq<Token>): (r: Parsed)
    ensures r.Some? ==> |r.value.1| <= |ts|
    decreases |ts|, 2
  {
    if ts != [] && ts[0].Arith? && ts[0].op != Times then
      var r := ParseProduct(ts[1..]);
      if r.None? then None else SumRest(TArith(ts[0].op, l, r.value.0), r.value.1)
    else Some((l, ts))
  }

  function ParseProduct(ts: seq<Token>): (r: Parsed)
    ensures r.Some? ==> |r.value.1| < |ts|
    decreases |ts|, 1
  {
    var l := ParsePrimary(ts);
    if l.None? then None else ProductRest(l.value.0, l.value.1)
  }

  function ProductRest(l: Tree, ts: seq<Token>): (r: Parsed)
    ensures r.Some? ==> |r.value.1| <= |ts|
    decreases |ts|, 1
  {
    if Next(ts, Arith(Times)) then
      var r := ParsePrimary(ts[1..]);
      if r.None? then None else ProductRest(TArith(Times, l, r.value.0), r.value.1)
    else Some((l, ts))
  }

  /** An expression followed by the token `close`. */
  function ParseUpTo(ts: seq<Token>, close: Token): (r: Parsed)
    ensures r.Some? ==> |r.value.1| < |ts|
    decreases |ts|, 5
  {
    var e := ParseExpr(ts);
    if e.None? || !Next(e.value.1, close) then None else Some((e.value.0, e.value.1[1..]))
  }

  function ParsePrimary(ts: seq<Token>): (r: Parsed)
    ensures r.Some? ==> |r.value.1| < |ts|
    decreases |ts|, 0
  {
    if ts == [] then None
    else match ts[0]
      case Num(n) => Some((TNum(n), ts[1..]))
      case Name(s) => Some((TName(s), ts[1..]))
      case Open => ParseUpTo(ts[1..], Close)
      case Fn(k) => if Next(ts[1..], Open) then ParseArguments(k, ts[2..]) else None
      case KwIf => ParseIf(ts[1..])
      case _ => None
  }

  function ParseArguments(k: nat, ts: seq<Token>): (r: Parsed)
    ensures r.Some? ==> |r.value.1| < |ts|
    decreases |ts|, 6
  {
    var a := ParseUpTo(ts, Comma);
    if a.None? then None
    else
      var b := ParseUpTo(a.value.1, Comma);
      if b.None? then None
      else
        var c := ParseUpTo(b.value.1, Close);
        if c.None? then None else Some((TCall(k, a.value.0, b.value.0, c.value.0), c.value.1))
  }

  function ParseIf(ts: seq<Token>): (r: Parsed)
    ensures r.Some? ==> |r.value.1| < |ts|
    decreases |ts|, 6
  {
    var cond := ParseUpTo(ts, OpenBrace);
    if cond.None? then None
    else
      var t := ParseUpTo(cond.value.1, CloseBrace);
      if t.None? || !Next(t.value.1, KwElse) || !Next(t.value.1[1..], OpenBrace) then None
      else
        var f := ParseUpTo(t.value.1[2..], CloseBrace);
        if f.None? then None else Some((TIf(cond.value.0, t.value.0, f.value.0), f.value.1))
  }

  /** A function body as Rust reads it. */
  datatype Block = Block(lets: seq<(string, Tree)>, tail: Tree)

  function ParseBlock(ts: seq<Token>): Option<Block>
    decreases |ts|
  {
    if Next(ts, KwLet) then
      if |ts| > 5 && ts[1].Name? && ts[2] == Colon && ts[3] == TypeU32 && ts[4] == Assign then
        var e := ParseUpTo(ts[5..], Semi);
        if e.None? then None
        else
          var rest := ParseBlock(e.value.1);
          if rest.None? then None
          else Some(Block([(ts[1].s, e.value.0)] + rest.value.lets, rest.value.tail))
      else None
    else
      var e := ParseUpTo(ts, CloseBrace);
      if e.None? || e.value.1 != [] then None else Some(Block([], e.value.0))
  }

  // ----- printing and reading agree -----

  /** What the text of an expression should be read as. */
  function TreeOf(e: Expr): Tree {
    match e
    case Lit(v) => TNum(v)
    case Param(i) => TName(ParamName(i))
    case Bin(op, l, r) => TAnd(TArith(op, TreeOf(l), TreeOf(r)), TNum(255))
    case Call(k, a, b, c) => TCall(k, TreeOf(a), TreeOf(b), TreeOf(c))
    case If(cond, t, f) => TIf(TCompare(cond.op, TreeOf(cond.l), TreeOf(cond.r)), TreeOf(t), TreeOf(f))
  }

  function BlockOf(lets: seq<(string, Expr)>, tail: Expr): Block {
    if lets == [] then Block([], TreeOf(tail))
    else
      var rest := BlockOf(lets[1..], tail);
      Block([(lets[0].0, TreeOf(lets[0].1))] + rest.lets, rest.tail)
  }

  /** The token after an expression ends it. */
  predicate Ends(rest: seq<Token>) {
    rest == [] || rest[0] in {Close, CloseBrace, OpenBrace, Comma, Semi}
  }

  lemma ProductOf(ts: seq<Token>, x: Tree, rest: seq<Token>)
    requires ParsePrimary(ts) == Some((x, rest)) && !Next(rest, Arith(Times))
    ensures ParseProduct(ts) == Some((x, rest))
  {
    assert ProductRest(x, rest) == Some((x, rest));
  }

  lemma SumOf(ts: seq<Token>, x: Tree, rest: seq<Token>)
    requires ParseProduct(ts) == Some((x, rest)) && (rest == [] || !rest[0].Arith?)
    ensures ParseSum(ts) == Some((x, rest))
  {
    assert SumRest(x, rest) == Some((x, rest));
  }

  lemma AndOf(ts: seq<Token>, x: Tree, rest: seq<Token>)
    requires ParseSum(ts) == Some((x, rest)) && !Next(rest, Amp)
    ensures ParseAnd(ts) == Some((x, rest))
  {
    assert AndRest(x, rest) == Some((x, rest));
  }

  lemma ExprOf(ts: seq<Token>, x: Tree, rest: seq<Token>)
    requires ParseAnd(ts) == Some((x, rest)) && (rest == [] || !rest[0].Compare?)
    ensures ParseExpr(ts) == Some((x, rest))
  {
  }

  /** An expression that stands alone is read as its primary. */
  lemma Alone(ts: seq<Token>, x: Tree, rest: seq<Token>)
    requires ParsePrimary(ts) == Some((x, rest)) && Ends(rest)
    ensures ParseExpr(ts) == Some((x, rest))
  {
    hide ParseExpr, ParseAnd, ParseSum, ParseProduct, ParsePrimary;
    ProductOf(ts, x, rest);
    SumOf(ts, x, rest);
    AndOf(ts, x, rest);
    ExprOf(ts, x, rest);
  }

  lemma ProductStep(ts: seq<Token>, x: Tree, mid: seq<Token>, y: Tree, rest: seq<Token>)
    requires ParsePrimary(ts) == Some((x, [Arith(Times)] + mid)) && ParsePrimary(mid) == Some((y, rest)) &&
      !Next(rest, Arith(Times))
    ensures ParseProduct(ts) == Some((TArith(Times, x, y), rest))
  {
    hide ParsePrimary;
    var all := [Arith(Times)] + mid;
    assert all[1..] == mid;
    assert ProductRest(TArith(Times, x, y), rest) == Some((TArith(Times, x, y), rest));
    assert ProductRest(x, all) == Some((TArith(Times, x, y), rest));
  }

  lemma SumStep(ts: seq<Token>, op: ArithOp, x: Tree, mid: seq<Token>, y: Tree, rest: seq<Token>)
    requires ParseProduct(ts) == Some((x, [Arith(op)] + mid)) && ParseProduct(mid) == Some((y, rest)) && op != Times
    requires rest == [] || !rest[0].Arith?
    ensures ParseSum(ts) == Some((TArith(op, x, y), rest))
  {
    hide ParseProduct;
    var all := [Arith(op)] + mid;
    assert all[1..] == mid;
    assert SumRest(TArith(op, x, y), rest) == Some((TArith(op, x, y), rest));
    assert SumRest(x, all) == Some((TArith(op, x, y), rest));
  }

  lemma AndStep(ts: seq<Token>, x: Tree, mid: seq<Token>, y: Tree, rest: seq<Token>)
    requires ParseSum(ts) == Some((x, [Amp] + mid)) && ParseSum(mid) == Some((y, rest)) && !Next(rest, Amp)
    ensures ParseAnd(ts) == Some((TAnd(x, y), rest))
  {
    hide ParseSum;
    var all := [Amp] + mid;
    assert all[1..] == mid;
    assert AndRest(TAnd(x, y), rest) == Some((TAnd(x, y), rest));
    assert AndRest(x, all) == Some((TAnd(x, y), rest));
  }

  lemma CompareStep(ts: seq<Token>, op: CmpOp, x: Tree, mid: seq<Token>, y: Tree, rest: seq<Token>)
    requires ParseAnd(ts) == Some((x, [Compare(op)] + mid)) && ParseAnd(mid) == Some((y, rest))
    ensures ParseExpr(ts) == Some((TCompare(op, x, y), rest))
  {
    hide ParseAnd;
    var all := [Compare(op)] + mid;
    assert all[1..] == mid;
  }

  /** Two primaries with an operator between them. */
  lemma Operation(ts: seq<Token>, op: ArithOp, x: Tree, mid: seq<Token>, y: Tree, rest: seq<Token>)
    requires ParsePrimary(ts) == Some((x, [Arith(op)] + mid)) && ParsePrimary(mid) == Some((y, rest)) && Ends(rest)
    ensures ParseExpr(ts) == Some((TArith(op, x, y), rest))
  {
    hide ParseExpr, ParseAnd, ParseSum, ParseProduct, ParsePrimary;
    if op == Times {
      ProductStep(ts, x, mid, y, rest);
      SumOf(ts, TArith(op, x, y), rest);
    } else {
      ProductOf(ts, x, [Arith(op)] + mid);
      ProductOf(mid, y, rest);
      SumStep(ts, op, x, mid, y, rest);
    }
    AndOf(ts, TArith(op, x, y), rest);
    ExprOf(ts, TArith(op, x, y), rest);
  }

  lemma Masked(ts: seq<Token>, x: Tree, rest: seq<Token>)
    requires ParsePrimary(ts) == Some((x, [Amp] + ([Num(255)] + rest))) && Ends(rest)
    ensures ParseExpr(ts) == Some((TAnd(x, TNum(255)), rest))
  {
    var mid := [Num(255)] + rest;
    assert ParsePrimary(mid) == Some((TNum(255), rest)) by { assert mid[1..] == rest; }
    hide ParseExpr, ParseAnd, ParseSum, ParseProduct, ParsePrimary;
    ProductOf(mid, TNum(255), rest);
    SumOf(mid, TNum(255), rest);
    ProductOf(ts, x, [Amp] + mid);
    SumOf(ts, x, [Amp] + mid);
    AndStep(ts, x, mid, TNum(255), rest);
    ExprOf(ts, TAnd(x, TNum(255)), rest);
  }

  lemma Comparison(ts: seq<Token>, op: CmpOp, x: Tree, mid: seq<Token>, y: Tree, rest: seq<Token>)
    requires ParsePrimary(ts) == Some((x, [Compare(op)] + mid)) && ParsePrimary(mid) == Some((y, rest)) && Ends(rest)
    ensures ParseExpr(ts) == Some((TCompare(op, x, y), rest))
  {
    hide ParseExpr, ParseAnd, ParseSum, ParseProduct, ParsePrimary;
    ProductOf(mid, y, rest);
    SumOf(mid, y, rest);
    AndOf(mid, y, rest);
    var all := [Compare(op)] + mid;
    ProductOf(ts, x, all);
    SumOf(ts, x, all);
    AndOf(ts, x, all);
    CompareStep(ts, op, x, mid, y, rest);
  }

  /** Text in parentheses is a primary. */
  lemma Bracketed(inner: seq<Token>, x: Tree, rest: seq<Token>)
    requires ParseExpr(inner + ([Close] + rest)) == Some((x, [Close] + rest))
    ensures ParsePrimary([Open] + (inner + ([Close] + rest))) == Some((x, rest))
  {
    hide ParseExpr;
    var ts := [Open] + (inner + ([Close] + rest));
    assert ts[1..] == inner + ([Close] + rest);
    assert ([Close] + rest)[1..] == rest;
    assert ParseUpTo(ts[1..], Close) == Some((x, rest));
  }

  /** An expression in parentheses, with `rest` behind it. */
  function Wrapped(e: Expr, rest: seq<Token>): seq<Token> {
    [Open] + (Emit(e) + ([Close] + rest))
  }

  lemma {:induction false} ParseEmit(e: Expr, rest: seq<Token>)
    requires Ends(rest)
    ensures ParseExpr(Emit(e) + rest) == Some((TreeOf(e), rest))
    decreases e, 1
  {
    match e {
      case Lit(v) => ParseAtom(e, rest);
      case Param(i) => ParseAtom(e, rest);
      case Bin(op, l, r) => ParseBin(e, rest);
      case Call(k, a, b, c) => ParseCall(e, rest);
      case If(cond, t, f) => ParseConditional(e, rest);
    }
  }

  lemma ParseAtom(e: Expr, rest: seq<Token>)
    requires Ends(rest) && (e.Lit? || e.Param?)
    ensures ParseExpr(Emit(e) + rest) == Some((TreeOf(e), rest))
  {
    var ts := Emit(e) + rest;
    assert ts[1..] == rest;
    assert ParsePrimary(ts) == Some((TreeOf(e), rest));
    Alone(ts, TreeOf(e), rest);
  }

  lemma {:induction false} ParseWrapped(e: Expr, rest: seq<Token>)
    ensures ParsePrimary(Wrapped(e, rest)) == Some((TreeOf(e), rest))
    decreases e, 2
  {
    hide ParseExpr, ParsePrimary, TreeOf, Emit;
    ParseEmit(e, [Close] + rest);
    Bracketed(Emit(e), TreeOf(e), rest);
  }

  lemma BinText(e: Expr, rest: seq<Token>)
    requires e.Bin?
    ensures Emit(e) + rest
         == [Open] + (Wrapped(e.l, [Arith(e.op)] + Wrapped(e.r, [])) + ([Close] + ([Amp] + ([Num(255)] + rest))))
    ensures var tail := [Close] + ([Amp] + ([Num(255)] + rest));
      Wrapped(e.l, [Arith(e.op)] + Wrapped(e.r, [])) + tail == Wrapped(e.l, [Arith(e.op)] + Wrapped(e.r, tail))
  {
  }

  lemma {:induction false} ParseBin(e: Expr, rest: seq<Token>)
    requires Ends(rest) && e.Bin?
    ensures ParseExpr(Emit(e) + rest) == Some((TreeOf(e), rest))
    decreases e, 0
  {
    var mask := [Amp] + ([Num(255)] + rest);
    var inner := Wrapped(e.l, [Arith(e.op)] + Wrapped(e.r, []));
    var x := TArith(e.op, TreeOf(e.l), TreeOf(e.r));
    assert TreeOf(e) == TAnd(x, TNum(255));
    BinText(e, rest);
    hide ParseExpr, ParsePrimary, TreeOf, Emit, Wrapped;
    ParseWrapped(e.l, [Arith(e.op)] + Wrapped(e.r, [Close] + mask));
    ParseWrapped(e.r, [Close] + mask);
    Operation(inner + ([Close] + mask), e.op, TreeOf(e.l), Wrapped(e.r, [Close] + mask), TreeOf(e.r), [Close] + mask);
    Bracketed(inner, x, mask);
    Masked(Emit(e) + rest, x, rest);
  }

  /** A bracketed expression before a closing token. */
  lemma {:induction false} WrappedUpTo(e: Expr, close: Token, rest: seq<Token>)
    requires Ends([close])
    ensures ParseUpTo(Wrapped(e, [close] + rest), close) == Some((TreeOf(e), rest))
    decreases e, 3
  {
    hide ParseExpr, ParsePrimary, TreeOf, Emit, Wrapped;
    ParseWrapped(e, [close] + rest);
    Alone(Wrapped(e, [close] + rest), TreeOf(e), [close] + rest);
    assert ([close] + rest)[1..] == rest;
  }

  lemma CallText(e: Expr, rest: seq<Token>)
    requires e.Call?
    ensures Emit(e) + rest
         == [Fn(e.k), Open] + Wrapped(e.a, [Comma] + Wrapped(e.b, [Comma] + Wrapped(e.c, [Close] + rest)))
  {
  }

  lemma {:induction false} ParseCall(e: Expr, rest: seq<Token>)
    requires Ends(rest) && e.Call?
    ensures ParseExpr(Emit(e) + rest) == Some((TreeOf(e), rest))
    decreases e, 0
  {
    var ts := Emit(e) + rest;
    var third := Wrapped(e.c, [Close] + rest);
    var second := Wrapped(e.b, [Comma] + third);
    var first := Wrapped(e.a, [Comma] + second);
    CallText(e, rest);
    WrappedUpTo(e.a, Comma, second);
    WrappedUpTo(e.b, Comma, third);
    WrappedUpTo(e.c, Close, rest);
    assert TreeOf(e) == TCall(e.k, TreeOf(e.a), TreeOf(e.b), TreeOf(e.c));
    hide ParseExpr, TreeOf, Emit, Wrapped, ParseUpTo;
    assert ParseArguments(e.k, first) == Some((TreeOf(e), rest));
    assert ts[2..] == first && Next(ts[1..], Open);
    assert ParsePrimary(ts) == Some((TreeOf(e), rest));
    Alone(ts, TreeOf(e), rest);
  }

  lemma CondText(c: Cond, rest: seq<Token>)
    ensures EmitCond(c) + ([Close] + rest) == Wrapped(c.l, [Compare(c.op)] + Wrapped(c.r, [Close] + rest))
  {
  }

  lemma {:induction false} ParseCondition(c: Cond, rest: seq<Token>)
    ensures ParsePrimary([Open] + (EmitCond(c) + ([Close] + rest)))
         == Some((TCompare(c.op, TreeOf(c.l), TreeOf(c.r)), rest))
    decreases c, 0
  {
    var tail := [Close] + rest;
    var x := TCompare(c.op, TreeOf(c.l), TreeOf(c.r));
    CondText(c, rest);
    hide ParseExpr, ParsePrimary, TreeOf, Emit, Wrapped, EmitCond;
    ParseWrapped(c.l, [Compare(c.op)] + Wrapped(c.r, tail));
    ParseWrapped(c.r, tail);
    Comparison(EmitCond(c) + tail, c.op, TreeOf(c.l), Wrapped(c.r, tail), TreeOf(c.r), tail);
    Bracketed(EmitCond(c), x, rest);
  }

  lemma {:induction false} EmitUpTo(e: Expr, close: Token, rest: seq<Token>)
    requires Ends([close])
    ensures ParseUpTo(Emit(e) + ([close] + rest), close) == Some((TreeOf(e), rest))
    decreases e, 2
  {
    hide ParseExpr, TreeOf, Emit;
    ParseEmit(e, [close] + rest);
    assert ([close] + rest)[1..] == rest;
  }

  lemma IfText(e: Expr, rest: seq<Token>)
    requires e.If?
    ensures Emit(e) + rest
         == [KwIf] + ([Open] + (EmitCond(e.cond) + ([Close] + ([OpenBrace] +
            (Emit(e.t) + ([CloseBrace] + ([KwElse, OpenBrace] + (Emit(e.f) + ([CloseBrace] + rest)))))))))
  {
    hide EmitCond;
  }

  lemma {:induction false} ParseConditional(e: Expr, rest: seq<Token>)
    requires Ends(rest) && e.If?
    ensures ParseExpr(Emit(e) + rest) == Some((TreeOf(e), rest))
    decreases e, 0
  {
    var ts := Emit(e) + rest;
    var third := Emit(e.f) + ([CloseBrace] + rest);
    var second := Emit(e.t) + ([CloseBrace] + ([KwElse, OpenBrace] + third));
    var first := [Open] + (EmitCond(e.cond) + ([Close] + ([OpenBrace] + second)));
    var test := TCompare(e.cond.op, TreeOf(e.cond.l), TreeOf(e.cond.r));
    IfText(e, rest);
    assert TreeOf(e) == TIf(test, TreeOf(e.t), TreeOf(e.f));
    EmitUpTo(e.f, CloseBrace, rest);
    EmitUpTo(e.t, CloseBrace, [KwElse, OpenBrace] + third);
    ParseCondition(e.cond, [OpenBrace] + second);
    ReadIf(ts, first, test, second, TreeOf(e.t), third, TreeOf(e.f), rest);
    hide *;
    Alone(ts, TIf(test, TreeOf(e.t), TreeOf(e.f)), rest);
  }

  lemma ReadIf(ts: seq<Token>, first: seq<Token>, cond: Tree, second: seq<Token>, t: Tree, third: seq<Token>, f: Tree,
               rest: seq<Token>)
    requires ts == [KwIf] + first && ParsePrimary(first) == Some((cond, [OpenBrace] + second))
    requires ParseUpTo(second, CloseBrace) == Some((t, [KwElse, OpenBrace] + third))
    requires ParseUpTo(third, CloseBrace) == Some((f, rest))
    ensures ParsePrimary(ts) == Some((TIf(cond, t, f), rest))
  {
    Alone(first, cond, [OpenBrace] + second);
    assert ([OpenBrace] + second)[1..] == second && ([KwElse, OpenBrace] + third)[2..] == third;
    assert ParseUpTo(first, OpenBrace) == Some((cond, second)) by { hide ParseExpr; }
    hide ParseExpr, ParseUpTo;
    assert ts[1..] == first;
    assert ParseIf(first) == Some((TIf(cond, t, f), rest));
  }

  /** Every generated function body is read back as the expressions it was printed from. */
  lemma {:induction false} ReadBack(lets: seq<(string, Expr)>, tail: Expr)
    ensures ParseBlock(EmitBody(lets, tail)) == Some(BlockOf(lets, tail))
  {
    var ts := EmitBody(lets, tail);
    if lets == [] {
      assert [CloseBrace] + [] == [CloseBrace];
      EmitUpTo(tail, CloseBrace, []);
      NoLet(tail, [CloseBrace]);
    } else {
      var (name, e) := lets[0];
      var rest := EmitBody(lets[1..], tail);
      LetText(name, e, rest);
      EmitUpTo(e, Semi, rest);
      ReadBack(lets[1..], tail);
      ReadLet(name, ts, Emit(e) + ([Semi] + rest), TreeOf(e), rest, BlockOf(lets[1..], tail));
    }
  }

  lemma NoLet(e: Expr, rest: seq<Token>)
    ensures Emit(e) != [] && !Next(Emit(e) + rest, KwLet)
  {
  }

  lemma LetText(name: string, e: Expr, rest: seq<Token>)
    ensures EmitLet(name, e) + rest == [KwLet, Name(name), Colon, TypeU32, Assign] + (Emit(e) + ([Semi] + rest))
  {
    hide Emit;
  }

  lemma ReadLet(name: string, ts: seq<Token>, text: seq<Token>, x: Tree, rest: seq<Token>, block: Block)
    requires ts == [KwLet, Name(name), Colon, TypeU32, Assign] + text && text != []
    requires ParseUpTo(text, Semi) == Some((x, rest)) && ParseBlock(rest) == Some(block)
    ensures ParseBlock(ts) == Some(Block([(name, x)] + block.lets, block.tail))
  {
    hide ParseUpTo;
    assert ts[5..] == text;
  }

  // ----- what the text computes -----

  datatype Val = Word(n: nat) | Truth(b: bool)

  /** Bitwise and of two unsigned numbers. */
  function BitAnd(x: nat, y: nat): nat {
    if x == 0 || y == 0 then 0 else 2 * BitAnd(x / 2, y / 2) + (x % 2) * (y % 2)
  }

  /** n one bits. */
  function Ones(n: nat): nat {
    if n == 0 then 0 else 2 * Ones(n - 1) + 1
  }

  lemma {:induction false} LowBits(x: nat, n: nat)
    ensures BitAnd(x, Ones(n)) == x % (Ones(n) + 1)
  {
    if n > 0 && x > 0 {
      LowBits(x / 2, n - 1);
      var m := Ones(n - 1) + 1;
      LowBit(x, m);
      assert Ones(n) + 1 == 2 * m;
      assert Ones(n) / 2 == Ones(n - 1) && Ones(n) % 2 == 1;
    }
  }

  lemma LowBit(x: nat, m: nat)
    requires m > 0
    ensures x % (2 * m) == 2 * (x / 2 % m) + x % 2
  {
    var q, r := x / 2 / m, x / 2 % m;
    assert x / 2 == q * m + r;
    assert 2 * (q * m) == q * (2 * m);
    DivUnique(x, 2 * m, q, 2 * r + x % 2);
  }

  lemma MaskKeepsByte(x: nat)
    ensures BitAnd(x, 255) == x % 256
  {
    LowBits(x, 8);
    assert Ones(2) == 3;
    assert Ones(4) == 15;
    assert Ones(6) == 63;
    assert Ones(8) == 255;
  }

  /** A u32 expression inside function k; None for an ill-typed one, an
      unknown name, or a call that does not go to an earlier function. */
  function Run(blocks: seq<Block>, k: nat, t: Tree, env: map<string, nat>): Option<Val>
    decreases k, 1, t
  {
    match t
    case TNum(n) => if n < U32 then Some(Word(n)) else None
    case TName(s) => if s in env then Some(Word(env[s])) else None
    case TCall(j, a, b, c) =>
      var x, y, z := Run(blocks, k, a, env), Run(blocks, k, b, env), Run(blocks, k, c, env);
      if j < k && IsWord(x) && IsWord(y) && IsWord(z) then RunCall(blocks, j, x.value.n, y.value.n, z.value.n) else None
    case TArith(op, l, r) =>
      var x, y := Run(blocks, k, l, env), Run(blocks, k, r, env);
      if IsWord(x) && IsWord(y) then Some(Word(Apply(op, x.value.n, y.value.n) % U32)) else None
    case TAnd(l, r) =>
      var x, y := Run(blocks, k, l, env), Run(blocks, k, r, env);
      if IsWord(x) && IsWord(y) then Some(Word(BitAnd(x.value.n, y.value.n))) else None
    case TCompare(op, l, r) =>
      var x, y := Run(blocks, k, l, env), Run(blocks, k, r, env);
      if IsWord(x) && IsWord(y) then Some(Truth(Compares(op, x.value.n, y.value.n))) else None
    case TIf(cond, yes, no) =>
      var c := Run(blocks, k, cond, env);
      if c.None? || !c.value.Truth? then None
      else if c.value.b then Run(blocks, k, yes, env) else Run(blocks, k, no, env)
  }

  predicate IsWord(x: Option<Val>) {
    x.Some? && x.value.Word?
  }

  function RunCall(blocks: seq<Block>, k: nat, a: nat, b: nat, c: nat): Option<Val>
    decreases k + 1, 0
  {
    if k < |blocks| then
      var env := RunLets(blocks, k, blocks[k].lets, map["a" := a, "b" := b, "c" := c]);
      if env.None? then None else Run(blocks, k, blocks[k].tail, env.value)
    else None
  }

  function RunLets(blocks: seq<Block>, k: nat, lets: seq<(string, Tree)>, env: map<string, nat>)
    : Option<map<string, nat>>
    decreases k, 2, |lets|
  {
    if lets == [] then Some(env)
    else
      var x := Run(blocks, k, lets[0].1, env);
      if IsWord(x) then RunLets(blocks, k, lets[1..], env[lets[0].0 := x.value.n]) else None
  }

  lemma WordsAre(x: nat, y: nat)
    requires x < 0x1_0000_0000 && y < 0x1_0000_0000
    ensures Apply(Plus, x, y) % U32 == if x + y < 0x1_0000_0000 then x + y else x + y - 0x1_0000_0000
    ensures Apply(Minus, x, y) % U32 == if x < y then 0x1_0000_0000 + x - y else x - y
    ensures Apply(Times, x, y) == x * y && U32 == 0x1_0000_0000
  {
  }

  lemma RunBinary(blocks: seq<Block>, k: nat, op: ArithOp, cmp: CmpOp, l: Tree, r: Tree, env: map<string, nat>, x: nat,
                  y: nat)
    requires Run(blocks, k, l, env) == Some(Word(x)) && Run(blocks, k, r, env) == Some(Word(y))
    ensures Run(blocks, k, TArith(op, l, r), env) == Some(Word(Apply(op, x, y) % U32))
    ensures Run(blocks, k, TCompare(cmp, l, r), env) == Some(Truth(Compares(cmp, x, y)))
  {
    hide RunCall, Apply, Compares;
  }

  /** Wrapping arithmetic of unsigned 32-bit words. */
  lemma WordArithmetic(blocks: seq<Block>, k: nat, l: Tree, r: Tree, env: map<string, nat>, x: nat, y: nat)
    requires Run(blocks, k, l, env) == Some(Word(x)) && Run(blocks, k, r, env) == Some(Word(y))
    requires x < 0x1_0000_0000 && y < 0x1_0000_0000
    ensures Run(blocks, k, TArith(Plus, l, r), env)
         == Some(Word(if x + y < 0x1_0000_0000 then x + y else x + y - 0x1_0000_0000))
    ensures Run(blocks, k, TArith(Minus, l, r), env) == Some(Word(if x < y then 0x1_0000_0000 + x - y else x - y))
    ensures Run(blocks, k, TArith(Times, l, r), env) == Some(Word(x * y % 0x1_0000_0000))
  {
    RunBinary(blocks, k, Plus, Eq, l, r, env, x, y);
    RunBinary(blocks, k, Minus, Eq, l, r, env, x, y);
    RunBinary(blocks, k, Times, Eq, l, r, env, x, y);
    hide Run, Apply;
    WordsAre(x, y);
  }

  /** Comparisons of words. */
  lemma WordComparison(blocks: seq<Block>, k: nat, cmp: CmpOp, l: Tree, r: Tree, env: map<string, nat>, x: nat, y: nat)
    requires Run(blocks, k, l, env) == Some(Word(x)) && Run(blocks, k, r, env) == Some(Word(y))
    ensures Run(blocks, k, TCompare(cmp, l, r), env)
         == Some(Truth((cmp == Eq && x == y) || (cmp == Ne && x != y) || (cmp == Lt && x < y) || (cmp == Gt && y < x)
                       || (cmp == Le && !(y < x)) || (cmp == Ge && !(x < y))))
  {
    RunBinary(blocks, k, Plus, cmp, l, r, env, x, y);
    hide Run;
  }

  // ----- the text computes what was predicted -----

  /** The parameters are bytes and have the same values on both sides. */
  predicate SameParams(names: Names, env: map<string, nat>) {
    HasParams(names) && forall i :: 0 <= i < 3 ==>
      ParamName(i) in names && ParamName(i) in env && env[ParamName(i)] == names[ParamName(i)] < 256
  }

  predicate Prints(blocks: seq<Block>, prog: seq<Body>) {
    |blocks| == |prog| && forall k :: 0 <= k < |prog| ==> blocks[k] == BlockOf(prog[k].lets, prog[k].tail)
  }

  /** Arithmetic modulo 2^32 and then 256 is arithmetic modulo 256. */
  lemma MaskedArithmetic(op: ArithOp, x: nat, y: nat)
    requires x < 256 && y < 256
    ensures BitAnd(Apply(op, x, y) % U32, 255) == Apply(op, x, y) % 256
  {
    hide BitAnd, Apply;
    var z := Apply(op, x, y);
    MaskKeepsByte(z % U32);
    Nested(z);
  }

  lemma Nested(z: int)
    ensures z % U32 % 256 == z % 256
  {
    var q := z / U32;
    assert z == q * U32 + z % U32;
    assert z % U32 == z % U32 / 256 * 256 + z % U32 % 256;
    DivUnique(z, 256, q * 0x100_0000 + z % U32 / 256, z % U32 % 256);
  }

  lemma {:induction false} Agrees(blocks: seq<Block>, prog: seq<Body>, k: nat, e: Expr, names: Names,
                                  env: map<string, nat>)
    requires ValidProgram(prog) && Prints(blocks, prog) && k <= |prog| && Valid(e, k) && SameParams(names, env)
    ensures Run(blocks, k, TreeOf(e), env) == Some(Word(Predict(prog, k, e, names)))
    decreases k, 1, e
  {
    match e {
      case Lit(v) => AtomRuns(blocks, prog, k, e, names, env);
      case Param(i) => AtomRuns(blocks, prog, k, e, names, env);
      case Bin(op, l, r) =>
        Agrees(blocks, prog, k, l, names, env);
        Agrees(blocks, prog, k, r, names, env);
        var x, y := Predict(prog, k, l, names), Predict(prog, k, r, names);
        assert Predict(prog, k, e, names) == Apply(op, x, y) % 256;
        hide *;
        BinRuns(blocks, k, op, TreeOf(l), TreeOf(r), env, x, y);
        TreeIs(e);
      case Call(j, a, b, c) =>
        Agrees(blocks, prog, k, a, names, env);
        Agrees(blocks, prog, k, b, names, env);
        Agrees(blocks, prog, k, c, names, env);
        var x, y, z := Predict(prog, k, a, names), Predict(prog, k, b, names), Predict(prog, k, c, names);
        CallAgrees(blocks, prog, j, x, y, z);
        assert Predict(prog, k, e, names) == PredictCall(prog, j, x, y, z);
        hide *;
        CallRuns(blocks, k, j, TreeOf(a), TreeOf(b), TreeOf(c), env, x, y, z);
        TreeIs(e);
      case If(cond, t, f) =>
        Agrees(blocks, prog, k, cond.l, names, env);
        Agrees(blocks, prog, k, cond.r, names, env);
        Agrees(blocks, prog, k, t, names, env);
        Agrees(blocks, prog, k, f, names, env);
        var x, y := Predict(prog, k, cond.l, names), Predict(prog, k, cond.r, names);
        var yes, no := Predict(prog, k, t, names), Predict(prog, k, f, names);
        assert Predict(prog, k, e, names) == if Compares(cond.op, x, y) then yes else no;
        hide *;
        IfRuns(blocks, k, cond.op, TreeOf(cond.l), TreeOf(cond.r), TreeOf(t), TreeOf(f), env, x, y, yes, no);
        TreeIs(e);
    }
  }

  lemma TreeIs(e: Expr)
    ensures match e
      case Bin(op, l, r) => TreeOf(e) == TAnd(TArith(op, TreeOf(l), TreeOf(r)), TNum(255))
      case Call(j, a, b, c) => TreeOf(e) == TCall(j, TreeOf(a), TreeOf(b), TreeOf(c))
      case If(cond, t, f) => TreeOf(e) == TIf(TCompare(cond.op, TreeOf(cond.l), TreeOf(cond.r)), TreeOf(t), TreeOf(f))
      case _ => true
  {
  }

  lemma AtomRuns(blocks: seq<Block>, prog: seq<Body>, k: nat, e: Expr, names: Names, env: map<string, nat>)
    requires ValidProgram(prog) && k <= |prog| && Valid(e, k) && SameParams(names, env) && (e.Lit? || e.Param?)
    ensures Run(blocks, k, TreeOf(e), env) == Some(Word(Predict(prog, k, e, names)))
  {
    hide ValidProgram;
  }

  lemma CallRuns(blocks: seq<Block>, k: nat, j: nat, a: Tree, b: Tree, c: Tree, env: map<string, nat>, x: nat, y: nat,
                 z: nat)
    requires Run(blocks, k, a, env) == Some(Word(x)) && Run(blocks, k, b, env) == Some(Word(y)) &&
      Run(blocks, k, c, env) == Some(Word(z))
    requires j < k
    ensures Run(blocks, k, TCall(j, a, b, c), env) == RunCall(blocks, j, x, y, z)
  {
    hide RunCall;
  }

  lemma IfRuns(blocks: seq<Block>, k: nat, op: CmpOp, l: Tree, r: Tree, t: Tree, f: Tree, env: map<string, nat>,
               x: nat, y: nat, yes: nat, no: nat)
    requires Run(blocks, k, l, env) == Some(Word(x)) && Run(blocks, k, r, env) == Some(Word(y))
    requires Run(blocks, k, t, env) == Some(Word(yes)) && Run(blocks, k, f, env) == Some(Word(no))
    ensures Run(blocks, k, TIf(TCompare(op, l, r), t, f), env) == Some(Word(if Compares(op, x, y) then yes else no))
  {
    hide Compares, RunCall;
    assert Run(blocks, k, TCompare(op, l, r), env) == Some(Truth(Compares(op, x, y)));
  }

  lemma BinRuns(blocks: seq<Block>, k: nat, op: ArithOp, l: Tree, r: Tree, env: map<string, nat>, x: nat, y: nat)
    requires Run(blocks, k, l, env) == Some(Word(x)) && Run(blocks, k, r, env) == Some(Word(y)) && x < 256 && y < 256
    ensures Run(blocks, k, TAnd(TArith(op, l, r), TNum(255)), env) == Some(Word(Apply(op, x, y) % 256))
  {
    hide Apply, BitAnd;
    MaskedArithmetic(op, x, y);
    assert Run(blocks, k, TArith(op, l, r), env) == Some(Word(Apply(op, x, y) % U32));
    assert Run(blocks, k, TNum(255), env) == Some(Word(255));
  }

  /** For byte arguments every function returns the predicted value. */
  lemma {:induction false} CallAgrees(blocks: seq<Block>, prog: seq<Body>, k: nat, a: nat, b: nat, c: nat)
    requires ValidProgram(prog) && Prints(blocks, prog) && k < |prog| && a < 256 && b < 256 && c < 256
    ensures RunCall(blocks, k, a, b, c) == Some(Word(PredictCall(prog, k, a, b, c)))
    decreases k + 1, 0
  {
    var names: Names := map["a" := a % 256, "b" := b % 256, "c" := c % 256];
    var env := map["a" := a, "b" := b, "c" := c];
    var env' := LetsAgree(blocks, prog, k, prog[k].lets, prog[k].tail, names, env);
    var names' := PredictLets(prog, k, prog[k].lets, names);
    Agrees(blocks, prog, k, prog[k].tail, names', env');
    TailOf(prog[k].lets, prog[k].tail);
    PredictCallIs(prog, k, a, b, c);
    hide Run, Predict, PredictLets, PredictCall, TreeOf, BlockOf, RunLets;
  }

  lemma PredictCallIs(prog: seq<Body>, k: nat, a: nat, b: nat, c: nat)
    requires ValidProgram(prog) && k < |prog|
    ensures var names: Names := map["a" := a % 256, "b" := b % 256, "c" := c % 256];
      PredictCall(prog, k, a, b, c) == Predict(prog, k, prog[k].tail, PredictLets(prog, k, prog[k].lets, names))
  {
  }

  lemma {:induction false} TailOf(lets: seq<(string, Expr)>, tail: Expr)
    ensures BlockOf(lets, tail).tail == TreeOf(tail)
  {
    if lets != [] {
      TailOf(lets[1..], tail);
    }
  }

  lemma {:induction false} LetsAgree(blocks: seq<Block>, prog: seq<Body>, k: nat, lets: seq<(string, Expr)>, tail: Expr,
                                     names: Names, env: map<string, nat>) returns (env': map<string, nat>)
    requires ValidProgram(prog) && Prints(blocks, prog) && k < |prog| && SameParams(names, env)
    requires forall i :: 0 <= i < |lets| ==> Valid(lets[i].1, k) && lets[i].0 in {"t0", "t1", "t2"}
    ensures RunLets(blocks, k, BlockOf(lets, tail).lets, env) == Some(env')
    ensures SameParams(PredictLets(prog, k, lets, names), env')
    decreases k, 2, |lets|
  {
    if lets == [] {
      env' := env;
    } else {
      var (name, e) := lets[0];
      Agrees(blocks, prog, k, e, names, env);
      var v := Predict(prog, k, e, names);
      NotParam(name);
      assert SameParams(names[name := v], env[name := v]);
      env' := LetsAgree(blocks, prog, k, lets[1..], tail, names[name := v], env[name := v]);
      var bound := BlockOf(lets, tail).lets;
      assert bound[0] == (name, TreeOf(e)) && bound[1..] == BlockOf(lets[1..], tail).lets;
    }
  }

  lemma NotParam(name: string)
    requires name in {"t0", "t1", "t2"}
    ensures forall i :: 0 <= i < 3 ==> ParamName(i) != name
  {
    assert |name| == 2;
  }

  // ----- whole programs -----

  /** The text of each function, as `gen_program` prints it. */
  predicate Printed(texts: seq<seq<Token>>, prog: seq<Body>) {
    |texts| == |prog| && forall k :: 0 <= k < |prog| ==> texts[k] == EmitBody(prog[k].lets, prog[k].tail)
  }

  predicate Readable(texts: seq<seq<Token>>) {
    forall k :: 0 <= k < |texts| ==> ParseBlock(texts[k]).Some?
  }

  function Read(texts: seq<seq<Token>>): seq<Block>
    requires Readable(texts)
  {
    seq(|texts|, k requires 0 <= k < |texts| => ParseBlock(texts[k]).value)
  }

  /** The text of every valid program is readable, and run on byte arguments
      each of its functions returns what the evaluator predicts. */
  lemma TextMeansPrediction(texts: seq<seq<Token>>, prog: seq<Body>, k: nat, a: nat, b: nat, c: nat)
    requires ValidProgram(prog) && Printed(texts, prog) && k < |prog| && a < 256 && b < 256 && c < 256
    ensures Readable(texts) && RunCall(Read(texts), k, a, b, c) == Some(Word(PredictCall(prog, k, a, b, c)))
  {
    hide ParseBlock, EmitBody, BlockOf, RunCall, PredictCall, ValidBody;
    forall j | 0 <= j < |texts| ensures ParseBlock(texts[j]) == Some(BlockOf(prog[j].lets, prog[j].tail)) {
      ReadBack(prog[j].lets, prog[j].tail);
    }
    CallAgrees(Read(texts), prog, k, a, b, c);
  }

  /** `gen_program`, for any random choices: the texts of the sixteen functions
      and their values on the grid. */
  method GenProgram() returns (prog: seq<Body>, texts: seq<seq<Token>>, expected: seq<seq<nat>>)
    ensures |prog| == FUNCS && ValidProgram(prog) && Printed(texts, prog) && Readable(texts)
    ensures |expected| == FUNCS && forall k :: 0 <= k < FUNCS ==> |expected[k]| == |GRID|
    ensures forall k, g :: 0 <= k < FUNCS && 0 <= g < |GRID| ==>
      RunCall(Read(texts), k, GRID[g].0, GRID[g].1, GRID[g].2) == Some(Word(expected[k][g]))
  {
    hide EmitBody, RunCall, PredictCall, ParseBlock, Read;
    prog, texts := [], [];
    while |prog| < FUNCS
      invariant |prog| <= FUNCS && ValidProgram(prog) && Printed(texts, prog)
    {
      var k := |prog|;
      var depth := RandRange(4);
      depth := depth + 1;
      var lets: seq<(string, Expr)> := [];
      var n := RandRange(4);
      while |lets| < n
        invariant forall i :: 0 <= i < |lets| ==> Valid(lets[i].1, k) && lets[i].0 in {"t0", "t1", "t2"}
        decreases n - |lets|
      {
        var name := RandRange(3);
        var e := GenExpr(depth, k);
        lets := lets + [(["t0", "t1", "t2"][name], e)];
      }
      var tail := GenExpr(depth, k);
      prog := prog + [Body(lets, tail)];
      texts := texts + [EmitBody(lets, tail)];
    }
    expected := [];
    for k := 0 to FUNCS
      invariant |expected| == k && forall j :: 0 <= j < k ==> |expected[j]| == |GRID|
      invariant forall j, g :: 0 <= j < k && 0 <= g < |GRID| ==>
        expected[j][g] == PredictCall(prog, j, GRID[g].0, GRID[g].1, GRID[g].2)
    {
      var row := [];
      for g := 0 to |GRID|
        invariant |row| == g && forall h :: 0 <= h < g ==>
          row[h] == PredictCall(prog, k, GRID[h].0, GRID[h].1, GRID[h].2)
      {
        row := row + [PredictCall(prog, k, GRID[g].0, GRID[g].1, GRID[g].2)];
      }
      expected := expected + [row];
    }
    TextMeansPrediction(texts, prog, 0, 0, 0, 0);
    forall k, g | 0 <= k < FUNCS && 0 <= g < |GRID|
      ensures RunCall(Read(texts), k, GRID[g].0, GRID[g].1, GRID[g].2) == Some(Word(expected[k][g]))
    {
      TextMeansPrediction(texts, prog, k, GRID[g].0, GRID[g].1, GRID[g].2);
    }
  }
}
