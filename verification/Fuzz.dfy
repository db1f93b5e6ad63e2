/** The generator of the compiler fuzzer: random programs, the Rust text they
    are printed as, and the mod-256 evaluator that predicts their results. */
module Fuzz {
  import opened Wrappers

  const U32: int := 0x1_0000_0000
  const FUNCS: nat := 16
  const GRID: seq<(nat, nat, nat)> := [(3, 5, 7), (0, 1, 255), (17, 200, 42), (255, 255, 255)]

  datatype ArithOp = Plus | Minus | Times

  datatype CmpOp = Eq | Ne | Lt | Gt | Le | Ge

  datatype Expr =
    | Lit(v: nat)
    | Param(i: nat)
    | Bin(op: ArithOp, l: Expr, r: Expr)
    | Call(k: nat, a: Expr, b: Expr, c: Expr)
    | If(cond: Cond, t: Expr, f: Expr)

  datatype Cond = Cmp(op: CmpOp, l: Expr, r: Expr)

  /** let-bindings and the tail expression of one function. */
  datatype Body = Body(lets: seq<(string, Expr)>, tail: Expr)

  function ParamName(i: nat): string {
    if i == 0 then "a" else if i == 1 then "b" else "c"
  }

  /** Literals are bytes, parameters exist, calls go below `bound`. */
  predicate Valid(e: Expr, bound: nat) {
    match e
    case Lit(v) => v < 256
    case Param(i) => i < 3
    case Bin(_, l, r) => Valid(l, bound) && Valid(r, bound)
    case Call(k, a, b, c) => k < bound && Valid(a, bound) && Valid(b, bound) && Valid(c, bound)
    case If(cond, t, f) => Valid(cond.l, bound) && Valid(cond.r, bound) && Valid(t, bound) && Valid(f, bound)
  }

  /** let names are never parameter names. */
  predicate ValidBody(body: Body, bound: nat) {
    && Valid(body.tail, bound)
    && forall i :: 0 <= i < |body.lets| ==> Valid(body.lets[i].1, bound) && body.lets[i].0 in {"t0", "t1", "t2"}
  }

  predicate ValidProgram(prog: seq<Body>) {
    forall k :: 0 <= k < |prog| ==> ValidBody(prog[k], k)
  }

  // ----- the generator -----

  function Height(e: Expr): nat {
    match e
    case Lit(_) => 1
    case Param(_) => 1
    case Bin(_, l, r) => 1 + Max(Height(l), Height(r))
    case Call(_, a, b, c) => 1 + Max(Height(a), Max(Height(b), Height(c)))
    case If(cond, t, f) => 1 + Max(1 + Max(Height(cond.l), Height(cond.r)), Max(Height(t), Height(f)))
  }

  function Max(m: nat, n: nat): nat {
    if m < n then n else m
  }

  /** `rng.random()` */
  method Random() returns (r: real)
    ensures 0.0 <= r < 1.0
  {
    r :| 0.0 <= r < 1.0;
  }

  /** `rng.randrange(n)` */
  method RandRange(n: nat) returns (k: nat)
    requires n > 0
    ensures k < n
  {
    k :| k < n;
  }

  /** `gen_expr`, for any random choices; `bound` functions can be called. */
  method GenExpr(depth: nat, bound: nat) returns (e: Expr)
    ensures Valid(e, bound) && Height(e) <= (if depth == 0 then 1 else depth + 2)
    decreases depth, 0
  {
    if depth == 0 {
      var coin := Random();
      if coin < 0.5 {
        var v := RandRange(256);
        return Lit(v);
      }
      var i := RandRange(3);
      return Param(i);
    }
    var r := Random();
    if r < 0.34 {
      var op := RandRange(3);
      var left := GenExpr(depth - 1, bound);
      var right := GenExpr(depth - 1, bound);
      return Bin([Plus, Minus, Times][op], left, right);
    }
    if r < 0.48 {
      var v := RandRange(256);
      return Lit(v);
    }
    if r < 0.62 {
      var i := RandRange(3);
      return Param(i);
    }
    if r < 0.82 || bound == 0 {
      var cond := GenCond(depth - 1, bound);
      var t := GenExpr(depth - 1, bound);
      var f := GenExpr(depth - 1, bound);
      return If(cond, t, f);
    }
    var k := RandRange(bound);
    var a := GenExpr(depth - 1, bound);
    var b := GenExpr(depth - 1, bound);
    var c := GenExpr(depth - 1, bound);
    e := Call(k, a, b, c);
  }

  method GenCond(depth: nat, bound: nat) returns (c: Cond)
    ensures Valid(c.l, bound) && Valid(c.r, bound) &&
      Max(Height(c.l), Height(c.r)) <= (if depth <= 1 then 1 else depth + 1)
    decreases depth, 1
  {
    var op := RandRange(6);
    var l := GenExpr(if depth == 0 then 0 else depth - 1, bound);
    var r := GenExpr(if depth == 0 then 0 else depth - 1, bound);
    c := Cmp([Eq, Ne, Lt, Gt, Le, Ge][op], l, r);
  }

  // ----- the mod-256 evaluator -----

  function Apply(op: ArithOp, x: int, y: int): int {
    match op
    case Plus => x + y
    case Minus => x - y
    case Times => x * y
  }

  predicate Compares(op: CmpOp, x: int, y: int) {
    match op
    case Eq => x == y
    case Ne => x != y
    case Lt => x < y
    case Gt => x > y
    case Le => x <= y
    case Ge => x >= y
  }

  type Names = map<string, nat>

  predicate HasParams(names: Names) {
    "a" in names && "b" in names && "c" in names
  }

  /** `eval_expr_named`; a call uses the functions below k only, so it ends. */
  function Predict(prog: seq<Body>, k: nat, e: Expr, names: Names): (r: nat)
    requires ValidProgram(prog) && k <= |prog| && Valid(e, k) && HasParams(names)
    ensures r < 256
    decreases k, 1, e
  {
    match e
    case Lit(v) => v % 256
    case Param(i) => names[ParamName(i)] % 256
    case Bin(op, l, r) => Apply(op, Predict(prog, k, l, names), Predict(prog, k, r, names)) % 256
    case Call(j, a, b, c) =>
      PredictCall(prog, j, Predict(prog, k, a, names), Predict(prog, k, b, names), Predict(prog, k, c, names)) % 256
    case If(cond, t, f) =>
      if Compares(cond.op, Predict(prog, k, cond.l, names), Predict(prog, k, cond.r, names))
      then Predict(prog, k, t, names) else Predict(prog, k, f, names)
  }

  /** The function made by `_make_eval_fn` for body k. */
  function PredictCall(prog: seq<Body>, k: nat, a: nat, b: nat, c: nat): (r: nat)
    requires ValidProgram(prog) && k < |prog|
    ensures r < 256
    decreases k + 1, 0
  {
    var names: Names := map["a" := a % 256, "b" := b % 256, "c" := c % 256];
    var names' := PredictLets(prog, k, prog[k].lets, names);
    Predict(prog, k, prog[k].tail, names') % 256
  }

  function PredictLets(prog: seq<Body>, k: nat, lets: seq<(string, Expr)>, names: Names): (r: Names)
    requires ValidProgram(prog) && k < |prog| && HasParams(names)
    requires forall i :: 0 <= i < |lets| ==> Valid(lets[i].1, k)
    ensures HasParams(r)
    decreases k, 2, |lets|
  {
    if lets == [] then names
    else PredictLets(prog, k, lets[1..], names[lets[0].0 := Predict(prog, k, lets[0].1, names)])
  }

  // ----- what is predicted -----

  lemma PredictedAtoms(prog: seq<Body>, k: nat, v: nat, names: Names)
    requires ValidProgram(prog) && k <= |prog| && HasParams(names) && v < 256
    ensures Predict(prog, k, Lit(v), names) == v
    ensures Predict(prog, k, Param(0), names) == names["a"] % 256
    ensures Predict(prog, k, Param(1), names) == names["b"] % 256
    ensures Predict(prog, k, Param(2), names) == names["c"] % 256
  {
  }

  lemma BytesAre(x: nat, y: nat)
    requires x < 256 && y < 256
    ensures Apply(Plus, x, y) % 256 == if x + y < 256 then x + y else x + y - 256
    ensures Apply(Minus, x, y) % 256 == if x < y then x - y + 256 else x - y
    ensures Apply(Times, x, y) == x * y
  {
  }

  lemma PredictedBin(prog: seq<Body>, k: nat, op: ArithOp, l: Expr, r: Expr, names: Names)
    requires ValidProgram(prog) && k <= |prog| && Valid(l, k) && Valid(r, k) && HasParams(names)
    ensures Predict(prog, k, Bin(op, l, r), names)
         == Apply(op, Predict(prog, k, l, names), Predict(prog, k, r, names)) % 256
  {
    hide ValidProgram, Apply;
  }

  /** Sums and products modulo 256; a difference below zero gains 256. */
  lemma PredictedArithmetic(prog: seq<Body>, k: nat, l: Expr, r: Expr, names: Names)
    requires ValidProgram(prog) && k <= |prog| && Valid(l, k) && Valid(r, k) && HasParams(names)
    ensures var x, y := Predict(prog, k, l, names), Predict(prog, k, r, names);
      && Predict(prog, k, Bin(Plus, l, r), names) == (if x + y < 256 then x + y else x + y - 256)
      && Predict(prog, k, Bin(Minus, l, r), names) == (if x < y then x - y + 256 else x - y)
      && Predict(prog, k, Bin(Times, l, r), names) == x * y % 256
  {
    PredictedBin(prog, k, Plus, l, r, names);
    PredictedBin(prog, k, Minus, l, r, names);
    PredictedBin(prog, k, Times, l, r, names);
    hide Predict, ValidProgram, Apply;
    BytesAre(Predict(prog, k, l, names), Predict(prog, k, r, names));
  }

  lemma PredictedIf(prog: seq<Body>, k: nat, op: CmpOp, l: Expr, r: Expr, t: Expr, f: Expr, names: Names)
    requires ValidProgram(prog) && k <= |prog| && HasParams(names)
    requires Valid(l, k) && Valid(r, k) && Valid(t, k) && Valid(f, k)
    ensures Valid(If(Cmp(op, l, r), t, f), k)
    ensures Predict(prog, k, If(Cmp(op, l, r), t, f), names)
         == if Compares(op, Predict(prog, k, l, names), Predict(prog, k, r, names)) then Predict(prog, k, t, names)
            else Predict(prog, k, f, names)
  {
    hide ValidProgram, Compares, PredictCall, Apply;
  }

  /** The branch taken, for each of the six comparisons. */
  lemma PredictedBranch(prog: seq<Body>, k: nat, op: CmpOp, l: Expr, r: Expr, t: Expr, f: Expr, names: Names, x: nat,
                        y: nat)
    requires ValidProgram(prog) && k <= |prog| && HasParams(names)
    requires Valid(l, k) && Valid(r, k) && Valid(t, k) && Valid(f, k)
    requires Predict(prog, k, l, names) == x && Predict(prog, k, r, names) == y
    ensures Predict(prog, k, If(Cmp(op, l, r), t, f), names)
         == if (op == Eq && x == y) || (op == Ne && x != y) || (op == Lt && x < y) || (op == Gt && y < x)
               || (op == Le && !(y < x)) || (op == Ge && !(x < y))
            then Predict(prog, k, t, names) else Predict(prog, k, f, names)
  {
    hide Predict, ValidProgram, Valid;
    PredictedIf(prog, k, op, l, r, t, f, names);
  }
}
