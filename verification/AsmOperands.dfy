/** Register allocation for the operands of an inline assembly statement on
    32-bit ARM: `asm_compute_constraints`, without register variables. */
module AsmOperands {
  import opened Wrappers

  const REGS: nat := 16
  const LAST: nat := 8 // r0 to r8 are handed out
  const FP: nat := 11
  const SP: nat := 13

  datatype Role = In | Out

  const BOTH: set<Role> := {In, Out}

  /** What the allocator asks about a C value: a constant, a constant without
      a symbol, an lvalue whose address is itself in memory. */
  datatype Value = Value(isConst: bool, isNumber: bool, viaPointer: bool)

  datatype Operand = Operand(
    id: Option<string>,
    constraint: string,
    value: Value,
    refIndex: int,
    inputIndex: int,
    priority: nat,
    reg: int,
    isLlong: bool,
    isMemory: bool,
    isRw: bool)

  // ----- constraints -----

  predicate IsNum(c: char) {
    '0' <= c <= '9'
  }

  predicate IsModifier(c: char) {
    c in {'=', '&', '+', '%'}
  }

  /** `skip_constraint_modifiers` */
  function SkipModifiers(s: string): string {
    if s != [] && IsModifier(s[0]) then SkipModifiers(s[1..]) else s
  }

  /** The modifiers that `skip_constraint_modifiers` skips. */
  function Modifiers(s: string): set<char> {
    if s != [] && IsModifier(s[0]) then {s[0]} + Modifiers(s[1..]) else {}
  }

  predicate IsReference(s: string) {
    var p := SkipModifiers(s);
    p != [] && (IsNum(p[0]) || p[0] == '[')
  }

  predicate Known(c: char) {
    c in {'l', 'r', 'p', 'M', 'I', 'J', 'i', 'm', 'g'}
  }

  function CharPriority(c: char): nat {
    if c in {'l', 'r', 'p'} then 3 else 4
  }

  /** The greatest priority of its letters. */
  function Priority(s: string): nat {
    if s == [] then 0 else Max(Priority(s[..|s| - 1]), CharPriority(s[|s| - 1]))
  }

  function Max(m: nat, n: nat): nat {
    if n > m then n else m
  }

  /** `constraint_priority`; None for an unknown constraint letter. */
  method ConstraintPriority(s: string) returns (priority: Option<nat>)
    ensures priority.Some? <==> forall i :: 0 <= i < |s| ==> Known(s[i])
    ensures priority.Some? ==> priority.value == Priority(s)
  {
    var best := 0;
    for i := 0 to |s|
      invariant forall j :: 0 <= j < i ==> Known(s[j])
      invariant best == Priority(s[..i])
    {
      if !Known(s[i]) {
        return None;
      }
      assert s[..i + 1][..i] == s[..i];
      best := Max(best, CharPriority(s[i]));
    }
    assert s[..|s|] == s;
    priority := Some(best);
  }

  // ----- references to other operands -----

  /** The leading decimal number of s. */
  function Number(s: string, acc: nat): nat {
    if s != [] && IsNum(s[0]) then Number(s[1..], 10 * acc + (s[0] as int - '0' as int)) else acc
  }

  /** The name between the bracket that s starts with and the next closing one. */
  function BracketName(s: string): Option<string> {
    if s == [] then None
    else if s[0] == ']' then Some([])
    else
      var rest := BracketName(s[1..]);
      if rest.None? then None else Some([s[0]] + rest.value)
  }

  /** The first operand with the given name, or -1. */
  function FirstNamed(ops: seq<Operand>, name: string): (k: int)
    ensures -1 <= k < |ops|
    ensures k >= 0 ==> ops[k].id == Some(name) && forall j :: 0 <= j < k ==> ops[j].id != Some(name)
    ensures k < 0 ==> forall j :: 0 <= j < |ops| ==> ops[j].id != Some(name)
  {
    if ops == [] then -1
    else
      var k := FirstNamed(ops[..|ops| - 1], name);
      if k >= 0 then k else if ops[|ops| - 1].id == Some(name) then |ops| - 1 else -1
  }

  /** `find_constraint`: the operand that a reference names by number or by
      id, or -1. */
  function FindConstraint(ops: seq<Operand>, s: string): (k: int)
    ensures -1 <= k < |ops|
  {
    if s != [] && IsNum(s[0]) then
      var k := Number(s, 0);
      if k < |ops| then k else -1
    else if s != [] && s[0] == '[' then
      var name := BracketName(s[1..]);
      if name.Some? then FirstNamed(ops, name.value) else -1
    else -1
  }

  /** The operand that operand i refers to, or -1. */
  function Ref(ops: seq<Operand>, i: nat): (k: int)
    requires i < |ops|
    ensures -1 <= k < |ops|
  {
    if IsReference(ops[i].constraint) then FindConstraint(ops, SkipModifiers(ops[i].constraint)) else -1
  }

  predicate AllKnown(s: string) {
    forall i :: 0 <= i < |s| ==> Known(s[i])
  }

  /** The first loop accepts operand i: an input that refers to an earlier
      operand nobody else refers to yet, or a constraint of known letters. */
  predicate Acceptable(ops: seq<Operand>, outputs: nat, i: nat)
    requires i < |ops|
  {
    if IsReference(ops[i].constraint) then
      outputs <= i && 0 <= Ref(ops, i) < i && forall j :: 0 <= j < i ==> Ref(ops, j) != Ref(ops, i)
    else AllKnown(SkipModifiers(ops[i].constraint))
  }

  predicate SameSource(op: Operand, op': Operand) {
    op.id == op'.id && op.constraint == op'.constraint && op.value == op'.value && op.isLlong == op'.isLlong
  }

  /** The fields after the first two loops. */
  predicate Prepared(ops0: seq<Operand>, ops: seq<Operand>, outputs: nat) {
    && |ops| == |ops0|
    && (forall i :: 0 <= i < |ops| ==>
          && SameSource(ops0[i], ops[i]) && ops[i].reg == -1 && !ops[i].isMemory && !ops[i].isRw
          && ops[i].refIndex == Ref(ops0, i) && -1 <= ops[i].inputIndex < |ops|
          && ops[i].priority == if ops[i].refIndex >= 0 then 5 else Priority(SkipModifiers(ops[i].constraint)))
    && (forall i :: 0 <= i < |ops| && ops[i].refIndex >= 0 ==>
          outputs <= i && ops[i].refIndex < i && ops[ops[i].refIndex].inputIndex == i)
    && (forall i :: 0 <= i < |ops| && ops[i].inputIndex >= 0 ==> ops[ops[i].inputIndex].refIndex == i)
    && (forall i :: 0 <= i < |ops| && ops[i].refIndex < 0 ==> AllKnown(SkipModifiers(ops[i].constraint)))
  }

  /** Prepared, as far as the second loop has come. */
  predicate PreparedTo(ops0: seq<Operand>, ops: seq<Operand>, outputs: nat, n: nat) {
    && |ops| == |ops0| && n <= |ops|
    && (forall i :: 0 <= i < |ops| ==>
          SameSource(ops0[i], ops[i]) && ops[i].reg == -1 && !ops[i].isMemory && !ops[i].isRw &&
          -1 <= ops[i].inputIndex < n)
    && (forall i :: 0 <= i < n ==>
          && ops[i].refIndex == Ref(ops0, i)
          && ops[i].priority == (if ops[i].refIndex >= 0 then 5 else Priority(SkipModifiers(ops[i].constraint)))
          && Acceptable(ops0, outputs, i) && (ops[i].refIndex >= 0 ==> ops[ops[i].refIndex].inputIndex == i))
    && (forall i :: n <= i < |ops| ==> ops[i].refIndex == -1)
    && (forall i :: 0 <= i < |ops| && ops[i].inputIndex >= 0 ==> ops[ops[i].inputIndex].refIndex == i)
  }

  /** The first two loops of `asm_compute_constraints`. */
  method Prepare(ops: array<Operand>, outputs: nat) returns (ok: bool)
    modifies ops
    ensures ok <==> forall i :: 0 <= i < ops.Length ==> Acceptable(old(ops[..]), outputs, i)
    ensures ok ==> Prepared(old(ops[..]), ops[..], outputs)
  {
    hide Priority, SkipModifiers, FindConstraint, Known, PreparedTo, Prepared, Acceptable;
    ghost var ops0 := ops[..];
    var n := ops.Length;
    for i := 0 to n
      invariant forall j :: 0 <= j < i ==>
        SameSource(ops0[j], ops[j]) && ops[j].reg == -1 && !ops[j].isMemory && !ops[j].isRw &&
        ops[j].refIndex == -1 == ops[j].inputIndex
      invariant forall j :: i <= j < n ==> ops[j] == ops0[j]
    {
      ops[i] := ops[i].(inputIndex := -1, refIndex := -1, reg := -1, isMemory := false, isRw := false);
    }
    NothingPrepared(ops0, ops[..], outputs);
    for i := 0 to n
      invariant PreparedTo(ops0, ops[..], outputs, i)
    {
      ghost var before := ops[..];
      Unprepared(ops0, before, outputs, i);
      var str := SkipModifiers(ops[i].constraint);
      if IsReference(ops[i].constraint) {
        FindSame(ops0, before, str);
        var k := FindConstraint(ops[..], str);
        if !(0 <= k < i) || i < outputs {
          BadReference(ops0, outputs, i);
          return false;
        }
        if ops[k].inputIndex >= 0 {
          Twice(ops0, before, outputs, i, k);
          return false;
        }
        NotTwice(ops0, before, outputs, i, k);
        ops[i] := ops[i].(refIndex := k);
        ops[k] := ops[k].(inputIndex := i);
        ops[i] := ops[i].(priority := 5);
        assert ops[..] == before[i := before[i].(refIndex := k, priority := 5)][k := before[k].(inputIndex := i)];
        ReferenceStep(ops0, before, ops[..], outputs, i, k);
      } else {
        var priority := ConstraintPriority(str);
        if priority.None? {
          NotKnown(ops0, outputs, i);
          return false;
        }
        ops[i] := ops[i].(priority := priority.value);
        assert ops[..] == before[i := before[i].(priority := priority.value)];
        KnownStep(ops0, before, ops[..], outputs, i);
      }
    }
    AllPrepared(ops0, ops[..], outputs);
    ok := true;
  }

  lemma NothingPrepared(ops0: seq<Operand>, ops: seq<Operand>, outputs: nat)
    requires |ops| == |ops0| && forall j :: 0 <= j < |ops| ==>
      SameSource(ops0[j], ops[j]) && ops[j].reg == -1 && !ops[j].isMemory && !ops[j].isRw &&
      ops[j].refIndex == -1 == ops[j].inputIndex
    ensures PreparedTo(ops0, ops, outputs, 0)
  {
    hide Acceptable, Ref, Priority, SkipModifiers;
  }

  lemma Unprepared(ops0: seq<Operand>, ops: seq<Operand>, outputs: nat, i: nat)
    requires PreparedTo(ops0, ops, outputs, i) && i < |ops|
    ensures |ops| == |ops0| && ops[i].constraint == ops0[i].constraint
    ensures forall j :: 0 <= j < |ops| ==> ops[j].id == ops0[j].id
  {
    hide Acceptable, Ref, Priority, SkipModifiers;
  }

  lemma AllPrepared(ops0: seq<Operand>, ops: seq<Operand>, outputs: nat)
    requires PreparedTo(ops0, ops, outputs, |ops|)
    ensures |ops| == |ops0| && Prepared(ops0, ops, outputs)
    ensures forall i :: 0 <= i < |ops| ==> Acceptable(ops0, outputs, i)
  {
    hide Priority, SkipModifiers, AllKnown, FindConstraint;
    forall i | 0 <= i < |ops| && ops[i].refIndex < 0 ensures AllKnown(SkipModifiers(ops[i].constraint)) {
      assert Acceptable(ops0, outputs, i);
    }
    forall i | 0 <= i < |ops| && ops[i].refIndex >= 0 ensures outputs <= i && ops[i].refIndex < i {
      assert Acceptable(ops0, outputs, i);
    }
  }

  lemma BadReference(ops0: seq<Operand>, outputs: nat, i: nat)
    requires i < |ops0| && IsReference(ops0[i].constraint) && (!(0 <= Ref(ops0, i) < i) || i < outputs)
    ensures !Acceptable(ops0, outputs, i)
  {
  }

  lemma NotKnown(ops0: seq<Operand>, outputs: nat, i: nat)
    requires i < |ops0| && !IsReference(ops0[i].constraint) && !AllKnown(SkipModifiers(ops0[i].constraint))
    ensures !Acceptable(ops0, outputs, i)
  {
  }

  /** References are resolved from the ids alone. */
  lemma {:induction false} FindSame(ops0: seq<Operand>, ops: seq<Operand>, s: string)
    requires |ops| == |ops0| && forall i :: 0 <= i < |ops| ==> ops[i].id == ops0[i].id
    ensures FindConstraint(ops, s) == FindConstraint(ops0, s)
  {
    if s != [] && s[0] == '[' && BracketName(s[1..]).Some? {
      NamedSame(ops0, ops, BracketName(s[1..]).value);
    }
  }

  lemma {:induction false} NamedSame(ops0: seq<Operand>, ops: seq<Operand>, name: string)
    requires |ops| == |ops0| && forall i :: 0 <= i < |ops| ==> ops[i].id == ops0[i].id
    ensures FirstNamed(ops, name) == FirstNamed(ops0, name)
  {
    if ops != [] {
      NamedSame(ops0[..|ops| - 1], ops[..|ops| - 1], name);
    }
  }

  lemma Twice(ops0: seq<Operand>, ops: seq<Operand>, outputs: nat, i: nat, k: nat)
    requires i < |ops| && PreparedTo(ops0, ops, outputs, i) && IsReference(ops0[i].constraint) && k < i
    requires Ref(ops0, i) == k && ops[k].inputIndex >= 0
    ensures !Acceptable(ops0, outputs, i)
  {
    hide IsReference, Priority, SkipModifiers, Ref;
    var j := ops[k].inputIndex;
    assert Ref(ops0, j) == k;
  }

  lemma NotTwice(ops0: seq<Operand>, ops: seq<Operand>, outputs: nat, i: nat, k: nat)
    requires i < |ops| && PreparedTo(ops0, ops, outputs, i) && IsReference(ops0[i].constraint) && k < i && outputs <= i
    requires Ref(ops0, i) == k && ops[k].inputIndex < 0
    ensures Acceptable(ops0, outputs, i)
  {
    hide IsReference, Priority, SkipModifiers, Ref;
    forall j | 0 <= j < i ensures Ref(ops0, j) != k {
      assert ops[j].refIndex == Ref(ops0, j);
    }
  }

  lemma ReferenceStep(ops0: seq<Operand>, before: seq<Operand>, ops: seq<Operand>, outputs: nat, i: nat, k: nat)
    requires i < |before| && PreparedTo(ops0, before, outputs, i) && Acceptable(ops0, outputs, i) && k < i &&
      Ref(ops0, i) == k
    requires before[k].inputIndex < 0
    requires ops == before[i := before[i].(refIndex := k, priority := 5)][k := before[k].(inputIndex := i)]
    ensures PreparedTo(ops0, ops, outputs, i + 1)
  {
    hide Priority, SkipModifiers, Ref, Acceptable;
  }

  lemma KnownStep(ops0: seq<Operand>, before: seq<Operand>, ops: seq<Operand>, outputs: nat, i: nat)
    requires i < |before| && PreparedTo(ops0, before, outputs, i) && !IsReference(ops0[i].constraint)
    requires AllKnown(SkipModifiers(ops0[i].constraint))
    requires ops == before[i := before[i].(priority := Priority(SkipModifiers(before[i].constraint)))]
    ensures PreparedTo(ops0, ops, outputs, i + 1)
  {
    hide Priority, SkipModifiers, AllKnown, FindConstraint;
    assert Ref(ops0, i) == -1 by { hide FindConstraint; }
    assert Acceptable(ops0, outputs, i);
    hide Ref, Acceptable;
  }

  // ----- sorting by priority -----

  /** Every number below |s| occurs exactly once. */
  predicate Permutation(s: seq<nat>) {
    && (forall i :: 0 <= i < |s| ==> s[i] < |s|)
    && (forall i, j :: 0 <= i < j < |s| ==> s[i] != s[j])
    && (forall k :: 0 <= k < |s| ==> k in s)
  }

  /** The first i places hold their final values, in ascending order of priority. */
  predicate Settled(s: seq<nat>, priorities: seq<nat>, i: nat)
    requires forall p :: 0 <= p < |s| ==> s[p] < |priorities|
  {
    forall p, q :: 0 <= p < i && p < q < |s| ==> priorities[s[p]] <= priorities[s[q]]
  }

  /** The value at i is least among those up to j. */
  predicate Least(s: seq<nat>, priorities: seq<nat>, i: nat, j: nat)
    requires i < |s| && j <= |s| && forall p :: 0 <= p < |s| ==> s[p] < |priorities|
  {
    forall q :: i < q < j ==> priorities[s[i]] <= priorities[s[q]]
  }

  lemma SwapKeepsPermutation(s: seq<nat>, t: seq<nat>, i: nat, j: nat)
    requires i < j < |s| && Permutation(s) && t == s[i := s[j]][j := s[i]]
    ensures Permutation(t)
  {
    forall k | 0 <= k < |t| ensures k in t {
      assert k in s;
      var p :| 0 <= p < |s| && s[p] == k;
      assert t[if p == i then j else if p == j then i else p] == k;
    }
  }

  lemma SwapKeepsSettled(s: seq<nat>, t: seq<nat>, priorities: seq<nat>, i: nat, j: nat)
    requires i < j < |s| && t == s[i := s[j]][j := s[i]]
    requires forall p :: 0 <= p < |s| ==> s[p] < |priorities|
    requires Settled(s, priorities, i) && Least(s, priorities, i, j) && priorities[s[j]] < priorities[s[i]]
    ensures Settled(t, priorities, i) && Least(t, priorities, i, j + 1)
  {
  }

  /** The selection sort of the operand numbers. */
  method SortOperands(priorities: seq<nat>) returns (sorted: array<nat>)
    ensures fresh(sorted) && sorted.Length == |priorities|
    ensures Permutation(sorted[..]) && Settled(sorted[..], priorities, sorted.Length)
  {
    hide Permutation, Settled, Least;
    var n := |priorities|;
    sorted := new nat[n](i => i);
    Identity(sorted[..], priorities);
    for i := 0 to if n == 0 then 0 else n - 1
      invariant Permutation(sorted[..]) && Below(sorted[..], n)
      invariant Settled(sorted[..], priorities, i)
    {
      StartLeast(sorted[..], priorities, i);
      for j := i + 1 to n
        invariant Permutation(sorted[..]) && Below(sorted[..], n)
        invariant Settled(sorted[..], priorities, i) && Least(sorted[..], priorities, i, j)
      {
        if priorities[sorted[j]] < priorities[sorted[i]] {
          ghost var before := sorted[..];
          sorted[i], sorted[j] := sorted[j], sorted[i];
          assert sorted[..] == before[i := before[j]][j := before[i]];
          SwapKeepsPermutation(before, sorted[..], i, j);
          SwapKeepsSettled(before, sorted[..], priorities, i, j);
        } else {
          MoreLeast(sorted[..], priorities, i, j);
        }
      }
      OneMoreSettled(sorted[..], priorities, i);
    }
    LastSettled(sorted[..], priorities);
  }

  lemma LastSettled(s: seq<nat>, priorities: seq<nat>)
    requires Below(s, |priorities|) && (s != [] ==> Settled(s, priorities, |s| - 1))
    ensures Settled(s, priorities, |s|)
  {
  }

  predicate Below(s: seq<nat>, n: nat) {
    |s| == n && forall p :: 0 <= p < |s| ==> s[p] < n
  }

  lemma Identity(s: seq<nat>, priorities: seq<nat>)
    requires |s| == |priorities| && forall p :: 0 <= p < |s| ==> s[p] == p
    ensures Permutation(s) && Settled(s, priorities, 0)
  {
    forall k | 0 <= k < |s| ensures k in s {
      assert s[k] == k;
    }
  }

  lemma StartLeast(s: seq<nat>, priorities: seq<nat>, i: nat)
    requires i < |s| && Below(s, |priorities|)
    ensures Least(s, priorities, i, i + 1)
  {
  }

  lemma MoreLeast(s: seq<nat>, priorities: seq<nat>, i: nat, j: nat)
    requires i < j < |s| && Below(s, |priorities|) && Least(s, priorities, i, j) && priorities[s[i]] <= priorities[s[j]]
    ensures Least(s, priorities, i, j + 1)
  {
  }

  lemma OneMoreSettled(s: seq<nat>, priorities: seq<nat>, i: nat)
    requires i < |s| && Below(s, |priorities|) && Settled(s, priorities, i) && Least(s, priorities, i, |s|)
    ensures Settled(s, priorities, i + 1)
  {
  }

  // ----- placing one operand -----

  predicate AllFree(regs: seq<set<Role>>, r: nat, mask: set<Role>)
    requires r < |regs|
  {
    regs[r] !! mask
  }

  predicate AnyFree(regs: seq<set<Role>>, mask: set<Role>)
    requires |regs| == REGS
  {
    exists r :: 0 <= r <= LAST && AllFree(regs, r, mask)
  }

  /** The lowest register from r on that is free in the given roles. */
  function FirstFree(regs: seq<set<Role>>, mask: set<Role>, r: nat): (first: nat)
    requires |regs| == REGS && r <= LAST + 1
    ensures r <= first <= LAST + 1 && (first <= LAST ==> AllFree(regs, first, mask))
    ensures forall k :: r <= k < first ==> !AllFree(regs, k, mask)
    decreases LAST + 1 - r
  {
    if r > LAST || AllFree(regs, r, mask) then r else FirstFree(regs, mask, r + 1)
  }

  /** The search for a register: one past the last if none is free. */
  method FindFree(regs: array<set<Role>>, mask: set<Role>) returns (reg: nat)
    requires regs.Length == REGS
    ensures reg <= LAST + 1 && (reg <= LAST ==> AllFree(regs[..], reg, mask))
    ensures forall r :: 0 <= r < reg ==> !AllFree(regs[..], r, mask)
    ensures AnyFree(regs[..], mask) <==> reg <= LAST
    ensures reg == FirstFree(regs[..], mask, 0)
  {
    ghost var all := regs[..];
    reg := 0;
    while reg <= LAST
      invariant reg <= LAST + 1 && FirstFree(all, mask, 0) == FirstFree(all, mask, reg)
      invariant forall r :: 0 <= r < reg ==> !AllFree(all, r, mask)
    {
      if regs[reg] !! mask {
        assert AllFree(all, reg, mask);
        return;
      }
      reg := reg + 1;
    }
  }

  /** What the operand uses its register for: an early-clobbered, read-write
      or tied output is live throughout. */
  function RoleOf(op: Operand, j: nat, outputs: nat): set<Role> {
    var ms := Modifiers(op.constraint);
    if op.inputIndex >= 0 || (j < outputs && ('+' in ms || '&' in ms)) then BOTH
    else if j < outputs then {Out} else {In}
  }

  /** A memory operand whose address is in memory needs a register for the address. */
  predicate NeedsAddress(c: char, op: Operand, j: nat, outputs: nat) {
    (c == 'm' || (c == 'g' && j < outputs)) && op.value.viaPointer
  }

  /** The letter c takes the operand without a register. */
  predicate TakesDirectly(c: char, op: Operand, j: nat, outputs: nat) {
    || (c in {'I', 'J', 'K', 'L', 'i'} && op.value.isConst) || (c == 'M' && op.value.isNumber)
    || (c in {'m', 'g'} && !NeedsAddress(c, op, j, outputs))
  }

  /** The letter c takes the operand, given the registers in use. */
  predicate Takes(c: char, op: Operand, j: nat, outputs: nat, regs: seq<set<Role>>)
    requires |regs| == REGS
  {
    || TakesDirectly(c, op, j, outputs)
    || (c in {'l', 'r', 'p'} && AnyFree(regs, RoleOf(op, j, outputs)))
    || (NeedsAddress(c, op, j, outputs) && AnyFree(regs, {In}))
  }

  /** The outcome for operand j: which register, if any, it now claims in
      which roles. */
  predicate Placed(op: Operand, op': Operand, j: nat, outputs: nat, regs: seq<set<Role>>, regs': seq<set<Role>>,
                   claim: set<Role>)
    requires |regs| == REGS
  {
    && SameSourceBut(op, op') && op'.isRw == ('+' in Modifiers(op.constraint)) && Suited(op', j, outputs)
    && if claim == {} then
         op'.reg == -1 && !op'.isMemory && regs' == regs
         && exists c :: c in SkipModifiers(op.constraint) && TakesDirectly(c, op, j, outputs)
       else
         && 0 <= op'.reg <= LAST && AllFree(regs, op'.reg, claim) && regs' == regs[op'.reg := regs[op'.reg] + claim]
         && claim == if op'.isMemory then {In} else RoleOf(op, j, outputs)
  }

  /** The outcome is one that some letter of the constraint allows. */
  predicate Suited(op: Operand, j: nat, outputs: nat) {
    exists c :: c in SkipModifiers(op.constraint) && SuitedBy(c, op, j, outputs)
  }

  /** In memory at an address that is itself in memory, in a register, or
      without either: a constant or in memory at a known address. */
  predicate SuitedBy(c: char, op: Operand, j: nat, outputs: nat) {
    if op.isMemory then op.value.viaPointer && (c == 'm' || (c == 'g' && j < outputs))
    else if op.reg >= 0 then c == 'l' || c == 'r' || c == 'p'
    else
      || (c == 'm' && !op.value.viaPointer) || (c == 'g' && (!op.value.viaPointer || outputs <= j))
      || (c == 'M' && op.value.isNumber) || ((c == 'I' || c == 'J' || c == 'i') && op.value.isConst)
  }

  /** All fields but the results of the allocation. */
  predicate SameSourceBut(op: Operand, op': Operand) {
    op'.(reg := op.reg, isLlong := op.isLlong, isMemory := op.isMemory, isRw := op.isRw) == op
  }

  /** Where the letters start, every modifier has been seen. */
  lemma {:induction false} ModifiersBefore(s: string, pos: nat, m: char)
    requires pos < |s| && !IsModifier(s[pos]) && AllKnown(SkipModifiers(s)) && IsModifier(m)
    ensures m in Modifiers(s) <==> m in s[..pos]
  {
    if IsModifier(s[0]) {
      assert AllKnown(SkipModifiers(s[1..]));
      ModifiersBefore(s[1..], pos - 1, m);
      assert s[..pos] == [s[0]] + s[1..][..pos - 1];
    } else {
      assert SkipModifiers(s) == s;
      assert forall i :: 0 <= i < |s| ==> Known(s[i]);
    }
  }

  lemma {:induction false} LetterOf(s: string, pos: nat)
    requires pos < |s| && !IsModifier(s[pos])
    ensures s[pos] in SkipModifiers(s)
  {
    if IsModifier(s[0]) {
      LetterOf(s[1..], pos - 1);
    }
  }

  lemma {:induction false} PartsOf(s: string, c: char)
    ensures c in s <==> c in SkipModifiers(s) || c in Modifiers(s)
    ensures c in Modifiers(s) ==> IsModifier(c)
  {
    if s != [] && IsModifier(s[0]) {
      PartsOf(s[1..], c);
      assert s == [s[0]] + s[1..];
    }
  }

  /** No part of the constraint admits the operand. */
  predicate Refused(op: Operand, j: nat, outputs: nat, regs: seq<set<Role>>)
    requires |regs| == REGS
  {
    || '%' in Modifiers(op.constraint)
    || (outputs <= j && ('+' in Modifiers(op.constraint) || '&' in Modifiers(op.constraint)))
    || forall c :: c in SkipModifiers(op.constraint) ==> !Takes(c, op, j, outputs, regs)
  }

  /** The characters read so far: modifiers, and letters that did not take the operand. */
  predicate Tried(op: Operand, j: nat, outputs: nat, regs: seq<set<Role>>, read: string)
    requires |regs| == REGS
  {
    forall c :: c in read ==>
      (c == '=' || (c in {'+', '&'} && j < outputs)) || (!IsModifier(c) && !Takes(c, op, j, outputs, regs))
  }

  function MaskAfter(op: Operand, j: nat, outputs: nat, read: string): set<Role> {
    if op.inputIndex >= 0 || '+' in read || '&' in read then BOTH else if j < outputs then {Out} else {In}
  }

  lemma ReadNext(s: string, pos: nat)
    requires pos < |s|
    ensures forall c :: c in s[..pos + 1] <==> c in s[..pos] || c == s[pos]
  {
    assert s[..pos + 1] == s[..pos] + [s[pos]];
  }

  lemma MaskIsRole(op: Operand, j: nat, outputs: nat, regs: seq<set<Role>>, pos: nat)
    requires |regs| == REGS && pos < |op.constraint| && !IsModifier(op.constraint[pos]) &&
      AllKnown(SkipModifiers(op.constraint))
    requires Tried(op, j, outputs, regs, op.constraint[..pos])
    ensures MaskAfter(op, j, outputs, op.constraint[..pos]) == RoleOf(op, j, outputs)
    ensures '+' in op.constraint[..pos] <==> '+' in Modifiers(op.constraint)
    ensures op.constraint[pos] in SkipModifiers(op.constraint)
    ensures '%' !in Modifiers(op.constraint) &&
      (outputs <= j ==> '+' !in Modifiers(op.constraint) && '&' !in Modifiers(op.constraint))
  {
    hide AllKnown, Takes, Known;
    ModifiersBefore(op.constraint, pos, '+');
    ModifiersBefore(op.constraint, pos, '&');
    ModifiersBefore(op.constraint, pos, '%');
    LetterOf(op.constraint, pos);
  }

  lemma ModifierRefused(op: Operand, j: nat, outputs: nat, regs: seq<set<Role>>, c: char)
    requires |regs| == REGS && c in op.constraint && AllKnown(SkipModifiers(op.constraint))
    requires c == '%' || (outputs <= j && (c == '+' || c == '&'))
    ensures Refused(op, j, outputs, regs)
  {
    PartsOf(op.constraint, c);
    assert forall i :: 0 <= i < |SkipModifiers(op.constraint)| ==> Known(SkipModifiers(op.constraint)[i]);
  }

  lemma AllTried(op: Operand, j: nat, outputs: nat, regs: seq<set<Role>>)
    requires |regs| == REGS && Tried(op, j, outputs, regs, op.constraint) && AllKnown(SkipModifiers(op.constraint))
    ensures Refused(op, j, outputs, regs)
  {
    hide Takes;
    forall c | c in SkipModifiers(op.constraint) ensures !Takes(c, op, j, outputs, regs) {
      PartsOf(op.constraint, c);
      KnownLetter(SkipModifiers(op.constraint), c);
    }
  }

  lemma KnownLetter(s: string, c: char)
    requires AllKnown(s) && c in s
    ensures Known(c) && !IsModifier(c)
  {
  }

  // ----- the choice for one operand -----

  /** An operand with its choice, and the registers then in use. */
  datatype Outcome = Outcome(op: Operand, regs: seq<set<Role>>)

  /** The lowest register that is free in the given roles. */
  function WithRegister(op: Operand, mask: set<Role>, regs: seq<set<Role>>): (r: Option<Outcome>)
    requires |regs| == REGS
    ensures r.Some? <==> AnyFree(regs, mask)
    ensures r.Some? ==> |r.value.regs| == REGS && r.value.op.inputIndex == op.inputIndex
  {
    var reg := FirstFree(regs, mask, 0);
    if reg > LAST then None
    else
      assert AllFree(regs, reg, mask);
      Some(Outcome(op.(reg := reg), regs[reg := regs[reg] + mask]))
  }

  /** The operand by the letter c. */
  function WithLetter(c: char, op: Operand, j: nat, outputs: nat, regs: seq<set<Role>>): (r: Option<Outcome>)
    requires |regs| == REGS
    ensures Known(c) ==> (r.Some? <==> Takes(c, op, j, outputs, regs))
    ensures r.Some? ==> |r.value.regs| == REGS && r.value.op.inputIndex == op.inputIndex
  {
    if c in {'l', 'r', 'p'} then WithRegister(op.(isLlong := false), RoleOf(op, j, outputs), regs)
    else if NeedsAddress(c, op, j, outputs) then WithRegister(op.(isMemory := true), {In}, regs)
    else if TakesDirectly(c, op, j, outputs) then Some(Outcome(op, regs))
    else None
  }

  /** The operand by the first of the letters that takes it. */
  function WithLetters(s: string, op: Operand, j: nat, outputs: nat, regs: seq<set<Role>>): (r: Option<Outcome>)
    requires |regs| == REGS
    ensures r.Some? ==> |r.value.regs| == REGS && r.value.op.inputIndex == op.inputIndex
  {
    if s == [] then None
    else
      var r := WithLetter(s[0], op, j, outputs, regs);
      if r.Some? then r else WithLetters(s[1..], op, j, outputs, regs)
  }

  /** The operand by its constraint. */
  function Chosen(op: Operand, j: nat, outputs: nat, regs: seq<set<Role>>): (r: Option<Outcome>)
    requires |regs| == REGS
    ensures r.Some? ==> |r.value.regs| == REGS && r.value.op.inputIndex == op.inputIndex
  {
    var ms := Modifiers(op.constraint);
    if '%' in ms || (outputs <= j && ('+' in ms || '&' in ms)) then None
    else WithLetters(SkipModifiers(op.constraint), op.(isRw := '+' in ms), j, outputs, regs)
  }

  lemma {:induction false} FirstLetter(s: string, pos: nat, op: Operand, j: nat, outputs: nat, regs: seq<set<Role>>)
    requires |regs| == REGS && pos < |s| && WithLetter(s[pos], op, j, outputs, regs).Some?
    requires forall i :: 0 <= i < pos ==> WithLetter(s[i], op, j, outputs, regs).None?
    ensures WithLetters(s, op, j, outputs, regs) == WithLetter(s[pos], op, j, outputs, regs)
  {
    hide WithLetter;
    if pos > 0 {
      FirstLetter(s[1..], pos - 1, op, j, outputs, regs);
    }
  }

  lemma {:induction false} NoLetter(s: string, op: Operand, j: nat, outputs: nat, regs: seq<set<Role>>)
    requires |regs| == REGS && forall i :: 0 <= i < |s| ==> WithLetter(s[i], op, j, outputs, regs).None?
    ensures WithLetters(s, op, j, outputs, regs) == None
  {
    hide WithLetter;
    if s != [] {
      NoLetter(s[1..], op, j, outputs, regs);
    }
  }

  /** The letter at pos is the first that takes the operand. */
  lemma {:induction false} FirstTaken(s: string, pos: nat, op: Operand, j: nat, outputs: nat, regs: seq<set<Role>>)
    requires |regs| == REGS && pos < |s| && !IsModifier(s[pos]) && AllKnown(SkipModifiers(s))
    requires Takes(s[pos], op, j, outputs, regs)
    requires forall i :: 0 <= i < pos ==> IsModifier(s[i]) || !Takes(s[i], op, j, outputs, regs)
    ensures WithLetters(SkipModifiers(s), op, j, outputs, regs) == WithLetter(s[pos], op, j, outputs, regs)
  {
    hide Takes, WithLetter, WithLetters, Known;
    if IsModifier(s[0]) {
      FirstTaken(s[1..], pos - 1, op, j, outputs, regs);
    } else {
      assert forall i :: 0 <= i < |s| ==> Known(s[i]);
      forall i | 0 <= i < pos ensures WithLetter(s[i], op, j, outputs, regs).None? {
        KnownLetter(s, s[i]);
      }
      FirstLetter(s, pos, op, j, outputs, regs);
    }
  }

  /** Refused operands, and only those, have no choice. */
  lemma ChosenUnlessRefused(op: Operand, j: nat, outputs: nat, regs: seq<set<Role>>)
    requires |regs| == REGS && AllKnown(SkipModifiers(op.constraint))
    ensures Chosen(op, j, outputs, regs).None? <==> Refused(op, j, outputs, regs)
  {
    hide Takes, WithLetter, WithLetters, Known;
    var letters, op1 := SkipModifiers(op.constraint), op.(isRw := '+' in Modifiers(op.constraint));
    forall c | c in letters ensures Takes(c, op1, j, outputs, regs) == Takes(c, op, j, outputs, regs) && Known(c) {
      SameTakes(c, op, op1, j, outputs, regs);
      KnownLetter(letters, c);
    }
    if forall c :: c in letters ==> !Takes(c, op, j, outputs, regs) {
      NoLetter(letters, op1, j, outputs, regs);
    } else {
      SomeLetter(letters, op1, j, outputs, regs);
    }
  }

  lemma {:induction false} SomeLetter(s: string, op: Operand, j: nat, outputs: nat, regs: seq<set<Role>>)
    requires |regs| == REGS && exists c :: c in s && WithLetter(c, op, j, outputs, regs).Some?
    ensures WithLetters(s, op, j, outputs, regs).Some?
  {
    hide WithLetter;
    if WithLetter(s[0], op, j, outputs, regs).None? {
      var c :| c in s && WithLetter(c, op, j, outputs, regs).Some?;
      assert c in s[1..];
      SomeLetter(s[1..], op, j, outputs, regs);
    }
  }

  /** `switch (c)` for a letter: whether it takes the operand. */
  method TryLetter(c: char, op: Operand, j: nat, outputs: nat, regs: array<set<Role>>, mask: set<Role>)
    returns (taken: bool, op': Operand, ghost claim: set<Role>)
    requires regs.Length == REGS && op.reg == -1 && !op.isMemory && Known(c) && mask == RoleOf(op, j, outputs)
    modifies regs
    ensures taken == Takes(c, op, j, outputs, old(regs[..]))
    ensures WithLetter(c, op, j, outputs, old(regs[..])) == if taken then Some(Outcome(op', regs[..])) else None
    ensures SameSourceBut(op, op') && op'.isRw == op.isRw
    ensures !taken ==> op' == op && regs[..] == old(regs[..])
    ensures taken && claim == {} ==> op' == op && regs[..] == old(regs[..]) && TakesDirectly(c, op, j, outputs)
    ensures taken ==> SuitedBy(c, op', j, outputs)
    ensures taken && claim != {} ==>
      && 0 <= op'.reg <= LAST && AllFree(old(regs[..]), op'.reg, claim)
      && regs[..] == old(regs[..])[op'.reg := old(regs[..])[op'.reg] + claim]
      && claim == if op'.isMemory then {In} else mask
  {
    hide Modifiers, SkipModifiers;
    op', claim, taken := op, {}, false;
    ghost var before := regs[..];
    if c in {'l', 'r', 'p'} {
      var reg := FindFree(regs, mask);
      if reg <= LAST {
        regs[reg] := regs[reg] + mask;
        op' := op.(isLlong := false, reg := reg);
        claim, taken := mask, true;
      }
    } else if c in {'I', 'J', 'K', 'L', 'i'} {
      taken := op.value.isConst;
    } else if c == 'M' {
      taken := op.value.isNumber;
    } else {
      taken := true;
      if (j < outputs || c == 'm') && op.value.viaPointer {
        var reg := FindFree(regs, {In});
        if reg <= LAST {
          regs[reg] := regs[reg] + {In};
          op' := op.(reg := reg, isMemory := true);
          claim := {In};
        } else {
          taken := false;
        }
      }
    }
  }

  /** The constraint of operand j, character by character. */
  method Choose(op0: Operand, j: nat, outputs: nat, regs: array<set<Role>>)
    returns (ok: bool, op: Operand, ghost claim: set<Role>)
    requires regs.Length == REGS
    requires op0.reg == -1 && !op0.isMemory && !op0.isRw && AllKnown(SkipModifiers(op0.constraint))
    modifies regs
    ensures ok <==> !Refused(op0, j, outputs, old(regs[..]))
    ensures Chosen(op0, j, outputs, old(regs[..])) == if ok then Some(Outcome(op, regs[..])) else None
    ensures ok ==> Placed(op0, op, j, outputs, old(regs[..]), regs[..], claim)
  {
    hide Takes, Modifiers, SkipModifiers, Known, AllKnown, RoleOf, TakesDirectly, AllFree, Refused, Tried;
    hide WithLetter, WithLetters, Chosen;
    ChosenUnlessRefused(op0, j, outputs, regs[..]);
    ghost var regs0 := regs[..];
    op := op0;
    var str, pos := op.constraint, 0;
    var mask := if op.inputIndex >= 0 then BOTH else if j < outputs then {Out} else {In};
    ok, claim := false, {};
    NothingTried(op0, j, outputs, regs0);
    while pos < |str|
      invariant pos <= |str| && op == op0.(isRw := '+' in str[..pos]) && regs[..] == regs0
      invariant Tried(op0, j, outputs, regs0, str[..pos]) && mask == MaskAfter(op0, j, outputs, str[..pos])
    {
      var c := str[pos];
      ReadNext(str, pos);
      if c == '=' || c == '+' || c == '&' {
        if c != '=' {
          if c == '+' {
            op := op.(isRw := true);
          }
          if j >= outputs {
            ModifierRefused(op0, j, outputs, regs0, c);
            return;
          }
          mask := BOTH;
        }
        TriedModifier(op0, j, outputs, regs0, str, pos);
      } else if IsModifier(c) {
        ModifierRefused(op0, j, outputs, regs0, c);
        return;
      } else {
        LetterOf(str, pos);
        KnownLetter(SkipModifiers(str), c);
        MaskIsRole(op0, j, outputs, regs0, pos);
        SameTakes(c, op0, op, j, outputs, regs0);
        ok, op, claim := TryLetter(c, op, j, outputs, regs, mask);
        if ok {
          Taken(op0, j, outputs, regs0, c);
          ChosenAt(op0, j, outputs, regs0, pos);
          return;
        }
        TriedLetter(op0, j, outputs, regs0, str, pos);
      }
      pos := pos + 1;
    }
    assert str[..pos] == str;
    AllTried(op0, j, outputs, regs0);
  }

  /** The operands after operand j has been chosen: the input tied to it, if
      any, gets the same register. */
  function WithChoice(ops: seq<Operand>, j: nat, op: Operand): (r: seq<Operand>)
    requires j < |ops|
    ensures |r| == |ops|
  {
    var placed := ops[j := op];
    if 0 <= op.inputIndex < |ops| then
      placed[op.inputIndex := placed[op.inputIndex].(reg := op.reg, isLlong := op.isLlong)]
    else placed
  }

  /** The operands from the i-th in the given order on: all choices, or None at
      the first operand that has none. Tied inputs are passed over. */
  function AllocateFrom(ops: seq<Operand>, order: seq<nat>, i: nat, outputs: nat, regs: seq<set<Role>>)
    : (r: Option<(seq<Operand>, seq<set<Role>>)>)
    requires |regs| == REGS && i <= |order| && forall p :: 0 <= p < |order| ==> order[p] < |ops|
    ensures r.Some? ==> |r.value.0| == |ops| && |r.value.1| == REGS
    decreases |order| - i
  {
    if i == |order| then Some((ops, regs))
    else if ops[order[i]].refIndex >= 0 then AllocateFrom(ops, order, i + 1, outputs, regs)
    else
      var choice := Chosen(ops[order[i]], order[i], outputs, regs);
      if choice.None? then None
      else AllocateFrom(WithChoice(ops, order[i], choice.value.op), order, i + 1, outputs, choice.value.regs)
  }

  /** The body of the allocation loop for operand j: the input tied to it, if
      any, gets the same register. */
  method Place(ops: array<Operand>, j: nat, outputs: nat, regs: array<set<Role>>)
    returns (ok: bool, ghost claim: set<Role>)
    requires j < ops.Length && regs.Length == REGS
    requires ops[j].reg == -1 && !ops[j].isMemory && !ops[j].isRw && AllKnown(SkipModifiers(ops[j].constraint))
    requires -1 <= ops[j].inputIndex < ops.Length && ops[j].inputIndex != j
    modifies ops, regs
    ensures ok <==> !Refused(old(ops[j]), j, outputs, old(regs[..]))
    ensures Chosen(old(ops[j]), j, outputs, old(regs[..])).Some? <==> ok
    ensures ok ==> var choice := Chosen(old(ops[j]), j, outputs, old(regs[..])).value;
      ops[..] == WithChoice(old(ops[..]), j, choice.op) && regs[..] == choice.regs
    ensures ok ==> Placed(old(ops[j]), ops[j], j, outputs, old(regs[..]), regs[..], claim)
    ensures ok ==> ops[j].inputIndex == old(ops[j].inputIndex)
    ensures ok ==> forall i :: 0 <= i < ops.Length && i != j && i != ops[j].inputIndex ==> ops[i] == old(ops[i])
    ensures ok && ops[j].inputIndex >= 0 ==>
      ops[ops[j].inputIndex] == old(ops[ops[j].inputIndex]).(reg := ops[j].reg, isLlong := ops[j].isLlong)
  {
    hide AllKnown, SkipModifiers, Refused, Modifiers, RoleOf, TakesDirectly, AllFree, Chosen;
    var op;
    ok, op, claim := Choose(ops[j], j, outputs, regs);
    if !ok {
      return;
    }
    ops[j] := op;
    if op.inputIndex >= 0 {
      ops[op.inputIndex] := ops[op.inputIndex].(reg := op.reg, isLlong := op.isLlong);
    }
  }

  lemma ChosenAt(op: Operand, j: nat, outputs: nat, regs: seq<set<Role>>, pos: nat)
    requires |regs| == REGS && pos < |op.constraint| && !IsModifier(op.constraint[pos])
    requires AllKnown(SkipModifiers(op.constraint)) && !Refused(op, j, outputs, regs)
    requires Tried(op, j, outputs, regs, op.constraint[..pos]) && Takes(op.constraint[pos], op, j, outputs, regs)
    ensures var op1 := op.(isRw := '+' in Modifiers(op.constraint));
      Chosen(op, j, outputs, regs) == WithLetter(op.constraint[pos], op1, j, outputs, regs)
  {
    hide Takes, WithLetter, WithLetters, AllKnown, SkipModifiers;
    var s, op1 := op.constraint, op.(isRw := '+' in Modifiers(op.constraint));
    SameTakes(s[pos], op, op1, j, outputs, regs);
    forall i | 0 <= i < pos ensures IsModifier(s[i]) || !Takes(s[i], op1, j, outputs, regs) {
      assert s[i] in s[..pos];
      SameTakes(s[i], op, op1, j, outputs, regs);
    }
    FirstTaken(s, pos, op1, j, outputs, regs);
  }

  lemma NothingTried(op: Operand, j: nat, outputs: nat, regs: seq<set<Role>>)
    requires |regs| == REGS
    ensures Tried(op, j, outputs, regs, [])
  {
  }

  lemma TriedModifier(op: Operand, j: nat, outputs: nat, regs: seq<set<Role>>, s: string, pos: nat)
    requires |regs| == REGS && pos < |s| && Tried(op, j, outputs, regs, s[..pos])
    requires s[pos] == '=' || ((s[pos] == '+' || s[pos] == '&') && j < outputs)
    ensures Tried(op, j, outputs, regs, s[..pos + 1])
  {
    hide Takes;
    ReadNext(s, pos);
  }

  lemma TriedLetter(op: Operand, j: nat, outputs: nat, regs: seq<set<Role>>, s: string, pos: nat)
    requires |regs| == REGS && pos < |s| && Tried(op, j, outputs, regs, s[..pos])
    requires !IsModifier(s[pos]) && !Takes(s[pos], op, j, outputs, regs)
    ensures Tried(op, j, outputs, regs, s[..pos + 1])
  {
    hide Takes;
    ReadNext(s, pos);
  }

  lemma Taken(op: Operand, j: nat, outputs: nat, regs: seq<set<Role>>, c: char)
    requires |regs| == REGS && c in SkipModifiers(op.constraint) && Takes(c, op, j, outputs, regs)
    requires '%' !in Modifiers(op.constraint) &&
      (outputs <= j ==> '+' !in Modifiers(op.constraint) && '&' !in Modifiers(op.constraint))
    ensures !Refused(op, j, outputs, regs)
  {
    hide Takes;
  }

  /** The read-write mark does not matter to the allocator. */
  lemma SameTakes(c: char, op: Operand, op': Operand, j: nat, outputs: nat, regs: seq<set<Role>>)
    requires |regs| == REGS && op' == op.(isRw := op'.isRw)
    ensures Takes(c, op', j, outputs, regs) == Takes(c, op, j, outputs, regs)
    ensures RoleOf(op', j, outputs) == RoleOf(op, j, outputs)
    ensures TakesDirectly(c, op', j, outputs) == TakesDirectly(c, op, j, outputs)
  {
  }

  // ----- placing all operands -----

  /** The numbers of n operands. */
  function All(n: nat): (s: set<nat>)
    ensures forall k: nat :: k in s <==> k < n
  {
    if n == 0 then {} else All(n - 1) + {n - 1}
  }

  /** The roles in which an operand holds its register. */
  function Held(op: Operand, j: nat, outputs: nat): set<Role> {
    if op.isMemory then {In} else RoleOf(op, j, outputs)
  }

  /** The operand needs no register. */
  predicate Direct(op: Operand, j: nat, outputs: nat) {
    exists c :: c in SkipModifiers(op.constraint) && TakesDirectly(c, op, j, outputs)
  }

  predicate Reserved(r: int, clobbers: seq<bool>) {
    r == SP || r == FP || (0 <= r < |clobbers| && clobbers[r])
  }

  predicate IsRef(op: Operand) {
    op.refIndex >= 0
  }

  /** The state of operand j while the operands in `done` have been handled. */
  predicate OneAllocated(ops0: seq<Operand>, ops: seq<Operand>, regs: seq<set<Role>>, claims: seq<set<Role>>,
                         done: set<nat>, clobbers: seq<bool>, outputs: nat, j: nat)
    requires |ops0| == |ops| == |claims| && j < |ops| && |regs| == REGS
  {
    var op := ops[j];
    && SameSourceBut(ops0[j], op) && -1 <= op.refIndex < |ops|
    && (claims[j] != {} ==>
          && !IsRef(op) && j in done && 0 <= op.reg <= LAST && !Reserved(op.reg, clobbers)
          && claims[j] == Held(op, j, outputs) && claims[j] <= regs[op.reg])
    && (!IsRef(op) && claims[j] == {} ==> op.reg == -1 && !op.isMemory)
    && (!IsRef(op) && claims[j] == {} && j in done ==> Direct(op, j, outputs))
    && (!IsRef(op) && j in done ==> Suited(op, j, outputs) && (op.isRw <==> '+' in Modifiers(op.constraint)))
    && (!IsRef(op) && j !in done ==> !op.isRw)
    && (IsRef(op) ==>
          && !op.isMemory
          && op.reg == if op.refIndex in done && !IsRef(ops[op.refIndex]) then ops[op.refIndex].reg else -1)
  }

  /** No two claims on one register share a role. */
  predicate ClaimsApart(ops: seq<Operand>, claims: seq<set<Role>>)
    requires |ops| == |claims|
  {
    forall j, k :: 0 <= j < k < |ops| && claims[j] != {} && claims[k] != {} && ops[j].reg == ops[k].reg ==>
      claims[j] !! claims[k]
  }

  /** Some operand claims register r in the given role. */
  predicate Claimed(ops: seq<Operand>, claims: seq<set<Role>>, r: int, role: Role)
    requires |ops| == |claims|
  {
    exists j :: 0 <= j < |ops| && role in claims[j] && ops[j].reg == r
  }

  /** regs holds the reserved registers and the claims, and nothing else. */
  predicate RegsAre(ops: seq<Operand>, regs: seq<set<Role>>, claims: seq<set<Role>>, clobbers: seq<bool>)
    requires |ops| == |claims| && |regs| == REGS
  {
    && (forall r :: 0 <= r < REGS && Reserved(r, clobbers) ==> regs[r] == BOTH)
    && (forall r, role :: 0 <= r < REGS && role in regs[r] && !Reserved(r, clobbers) ==> Claimed(ops, claims, r, role))
  }

  ghost predicate Allocated(ops0: seq<Operand>, ops: seq<Operand>, regs: seq<set<Role>>, claims: seq<set<Role>>,
                            done: set<nat>, clobbers: seq<bool>, outputs: nat)
  {
    && |ops0| == |ops| == |claims| && |regs| == REGS
    && (forall j :: 0 <= j < |ops| ==> OneAllocated(ops0, ops, regs, claims, done, clobbers, outputs, j))
    && ClaimsApart(ops, claims) && RegsAre(ops, regs, claims, clobbers)
  }

  /** Each input tied to an operand, and that operand, point at each other. */
  predicate Linked(ops0: seq<Operand>) {
    && (forall j :: 0 <= j < |ops0| ==> -1 <= ops0[j].inputIndex < |ops0| && -1 <= ops0[j].refIndex < |ops0|)
    && (forall j :: 0 <= j < |ops0| && ops0[j].inputIndex >= 0 ==> ops0[ops0[j].inputIndex].refIndex == j)
    && (forall j :: 0 <= j < |ops0| && ops0[j].refIndex >= 0 ==> ops0[ops0[j].refIndex].inputIndex == j)
    && (forall j :: 0 <= j < |ops0| && ops0[j].refIndex >= 0 ==> ops0[j].refIndex < j)
  }

  /** What `Place` does to the operands: j itself and the input tied to it. */
  predicate OnlyPlaced(ops: seq<Operand>, ops': seq<Operand>, j: nat)
    requires j < |ops| == |ops'|
  {
    && (forall i :: 0 <= i < |ops| && i != j && i != ops[j].inputIndex ==> ops'[i] == ops[i])
    && (0 <= ops[j].inputIndex < |ops| ==>
          ops'[ops[j].inputIndex] == ops[ops[j].inputIndex].(reg := ops'[j].reg, isLlong := ops'[j].isLlong))
  }

  /** Everything `Place` promises about a state. */
  ghost predicate PlaceStep(ops0: seq<Operand>, ops: seq<Operand>, ops': seq<Operand>, regs: seq<set<Role>>,
                            regs': seq<set<Role>>, claims: seq<set<Role>>, done: set<nat>, clobbers: seq<bool>,
                            outputs: nat, j: nat, claim: set<Role>)
  {
    && Allocated(ops0, ops, regs, claims, done, clobbers, outputs) && Linked(ops0)
    && j < |ops| == |ops'| && |regs'| == REGS && !IsRef(ops[j]) && j !in done
    && Placed(ops[j], ops'[j], j, outputs, regs, regs', claim) && OnlyPlaced(ops, ops', j)
  }

  /** Placing j frees nothing and only takes free roles of one register. */
  lemma RegsGrow(ops0: seq<Operand>, ops: seq<Operand>, ops': seq<Operand>, regs: seq<set<Role>>, regs': seq<set<Role>>,
                 claims: seq<set<Role>>, done: set<nat>, clobbers: seq<bool>, outputs: nat, j: nat, claim: set<Role>)
    requires PlaceStep(ops0, ops, ops', regs, regs', claims, done, clobbers, outputs, j, claim)
    ensures forall r :: 0 <= r < REGS ==> regs[r] <= regs'[r]
    ensures claims[j] == {} && ops[j].reg == -1
    ensures claim != {} ==>
      !Reserved(ops'[j].reg, clobbers) && 0 <= ops'[j].reg <= LAST &&
      claim !! regs[ops'[j].reg] && claim <= regs'[ops'[j].reg]
    ensures claim != {} ==> claim == Held(ops'[j], j, outputs)
    ensures claim == {} ==> ops'[j].reg == -1 && !ops'[j].isMemory && Direct(ops'[j], j, outputs) && regs' == regs
    ensures claim != {} ==> regs' == regs[ops'[j].reg := regs[ops'[j].reg] + claim]
  {
    hide Modifiers, SkipModifiers, TakesDirectly, SameSourceBut;
    assert OneAllocated(ops0, ops, regs, claims, done, clobbers, outputs, j);
    SourceRoles(ops[j], ops'[j], j, outputs);
  }

  lemma SourceRoles(op: Operand, op': Operand, j: nat, outputs: nat)
    requires SameSourceBut(op, op')
    ensures RoleOf(op', j, outputs) == RoleOf(op, j, outputs) && Direct(op', j, outputs) == Direct(op, j, outputs)
    ensures op'.refIndex == op.refIndex && op'.inputIndex == op.inputIndex && op'.constraint == op.constraint
  {
    hide Modifiers, SkipModifiers;
    forall c ensures TakesDirectly(c, op', j, outputs) == TakesDirectly(c, op, j, outputs) {
    }
  }

  lemma StepApart(ops0: seq<Operand>, ops: seq<Operand>, ops': seq<Operand>, regs: seq<set<Role>>,
                  regs': seq<set<Role>>, claims: seq<set<Role>>, done: set<nat>, clobbers: seq<bool>, outputs: nat,
                  j: nat, claim: set<Role>)
    requires PlaceStep(ops0, ops, ops', regs, regs', claims, done, clobbers, outputs, j, claim)
    ensures ClaimsApart(ops', claims[j := claim])
  {
    hide Placed, Held, Direct, Suited, RegsAre;
    RegsGrow(ops0, ops, ops', regs, regs', claims, done, clobbers, outputs, j, claim);
    var claims' := claims[j := claim];
    forall i | 0 <= i < |ops| && i != j && claims[i] != {} 
      ensures ops'[i].reg == ops[i].reg && 0 <= ops[i].reg <= LAST && claims[i] <= regs[ops[i].reg]
    {
      assert OneAllocated(ops0, ops, regs, claims, done, clobbers, outputs, i);
      Untied(ops0, ops, regs, claims, done, clobbers, outputs, i, j);
    }
  }

  /** An operand that holds a register is not tied to another. */
  lemma Untied(ops0: seq<Operand>, ops: seq<Operand>, regs: seq<set<Role>>, claims: seq<set<Role>>,
               done: set<nat>, clobbers: seq<bool>, outputs: nat, i: nat, j: nat)
    requires Allocated(ops0, ops, regs, claims, done, clobbers, outputs) && Linked(ops0) && i < |ops| && j < |ops|
    requires !IsRef(ops[i])
    ensures ops[j].inputIndex != i
  {
    hide Held, Direct, Suited, RegsAre, ClaimsApart;
    assert OneAllocated(ops0, ops, regs, claims, done, clobbers, outputs, i);
    assert OneAllocated(ops0, ops, regs, claims, done, clobbers, outputs, j);
  }

  lemma StepRegs(ops0: seq<Operand>, ops: seq<Operand>, ops': seq<Operand>, regs: seq<set<Role>>, regs': seq<set<Role>>,
                 claims: seq<set<Role>>, done: set<nat>, clobbers: seq<bool>, outputs: nat, j: nat, claim: set<Role>)
    requires PlaceStep(ops0, ops, ops', regs, regs', claims, done, clobbers, outputs, j, claim)
    ensures RegsAre(ops', regs', claims[j := claim], clobbers)
  {
    hide Placed, Held, Direct, Suited, ClaimsApart;
    RegsGrow(ops0, ops, ops', regs, regs', claims, done, clobbers, outputs, j, claim);
    var claims' := claims[j := claim];
    forall r, role | 0 <= r < REGS && role in regs'[r] && !Reserved(r, clobbers)
      ensures Claimed(ops', claims', r, role)
    {
      if role in regs[r] {
        assert Claimed(ops, claims, r, role);
        var i :| 0 <= i < |ops| && role in claims[i] && ops[i].reg == r;
        assert OneAllocated(ops0, ops, regs, claims, done, clobbers, outputs, i);
        Untied(ops0, ops, regs, claims, done, clobbers, outputs, i, j);
        assert role in claims'[i] && ops'[i].reg == r;
      } else {
        assert role in claims'[j] && ops'[j].reg == r;
      }
    }
  }

  lemma StepOne(ops0: seq<Operand>, ops: seq<Operand>, ops': seq<Operand>, regs: seq<set<Role>>, regs': seq<set<Role>>,
                claims: seq<set<Role>>, done: set<nat>, clobbers: seq<bool>, outputs: nat, j: nat, claim: set<Role>,
                i: nat)
    requires PlaceStep(ops0, ops, ops', regs, regs', claims, done, clobbers, outputs, j, claim) && i < |ops|
    ensures OneAllocated(ops0, ops', regs', claims[j := claim], done + {j}, clobbers, outputs, i)
  {
    hide Held, Direct, Suited, RegsAre, ClaimsApart, AllFree, Reserved, RoleOf, Modifiers;
    RegsGrow(ops0, ops, ops', regs, regs', claims, done, clobbers, outputs, j, claim);
    assert OneAllocated(ops0, ops, regs, claims, done, clobbers, outputs, i);
    assert OneAllocated(ops0, ops, regs, claims, done, clobbers, outputs, j);
    if !IsRef(ops[i]) {
      Untied(ops0, ops, regs, claims, done, clobbers, outputs, i, j);
    } else if ops[i].refIndex != j {
      RefUntouched(ops0, ops, regs, claims, done, clobbers, outputs, i, j);
    }
  }

  /** A reference to another operand than j is not the input tied to j, nor is
      the operand it refers to if that can hold a register. */
  lemma RefUntouched(ops0: seq<Operand>, ops: seq<Operand>, regs: seq<set<Role>>, claims: seq<set<Role>>,
                     done: set<nat>, clobbers: seq<bool>, outputs: nat, i: nat, j: nat)
    requires Allocated(ops0, ops, regs, claims, done, clobbers, outputs) && Linked(ops0) && i < |ops| && j < |ops|
    requires IsRef(ops[i]) && ops[i].refIndex != j
    ensures ops[j].inputIndex != i
    ensures ops[i].refIndex < |ops| && (!IsRef(ops[ops[i].refIndex]) ==> ops[j].inputIndex != ops[i].refIndex)
  {
    hide Held, Direct, Suited, RegsAre, ClaimsApart;
    assert OneAllocated(ops0, ops, regs, claims, done, clobbers, outputs, i);
    assert OneAllocated(ops0, ops, regs, claims, done, clobbers, outputs, j);
    if !IsRef(ops[ops[i].refIndex]) {
      Untied(ops0, ops, regs, claims, done, clobbers, outputs, ops[i].refIndex, j);
    }
  }

  lemma StepAllocated(ops0: seq<Operand>, ops: seq<Operand>, ops': seq<Operand>, regs: seq<set<Role>>,
                      regs': seq<set<Role>>, claims: seq<set<Role>>, done: set<nat>, clobbers: seq<bool>, outputs: nat,
                      j: nat, claim: set<Role>)
    requires PlaceStep(ops0, ops, ops', regs, regs', claims, done, clobbers, outputs, j, claim)
    ensures Allocated(ops0, ops', regs', claims[j := claim], done + {j}, clobbers, outputs)
  {
    hide OneAllocated, ClaimsApart, RegsAre, Placed, OnlyPlaced;
    var claims', done' := claims[j := claim], done + {j};
    forall i | 0 <= i < |ops'| ensures OneAllocated(ops0, ops', regs', claims', done', clobbers, outputs, i) {
      StepOne(ops0, ops, ops', regs, regs', claims, done, clobbers, outputs, j, claim, i);
    }
    StepApart(ops0, ops, ops', regs, regs', claims, done, clobbers, outputs, j, claim);
    StepRegs(ops0, ops, ops', regs, regs', claims, done, clobbers, outputs, j, claim);
  }

  lemma SkipReference(ops0: seq<Operand>, ops: seq<Operand>, regs: seq<set<Role>>, claims: seq<set<Role>>,
                      done: set<nat>, clobbers: seq<bool>, outputs: nat, j: nat)
    requires Allocated(ops0, ops, regs, claims, done, clobbers, outputs) && j < |ops| && IsRef(ops[j])
    ensures Allocated(ops0, ops, regs, claims, done + {j}, clobbers, outputs)
  {
    hide ClaimsApart, RegsAre, Direct, Suited, Held;
    var done' := done + {j};
    forall i | 0 <= i < |ops| ensures OneAllocated(ops0, ops, regs, claims, done', clobbers, outputs, i) {
      assert OneAllocated(ops0, ops, regs, claims, done, clobbers, outputs, i);
    }
  }

  /** What `Place` may use about an operand that is not a reference. */
  lemma ReadyToPlace(src: seq<Operand>, ops0: seq<Operand>, ops: seq<Operand>, regs: seq<set<Role>>,
                     claims: seq<set<Role>>, done: set<nat>, clobbers: seq<bool>, outputs: nat, j: nat)
    requires Prepared(src, ops0, outputs) && Allocated(ops0, ops, regs, claims, done, clobbers, outputs)
    requires j < |ops| && !IsRef(ops[j]) && j !in done
    ensures Linked(ops0) && ops[j].reg == -1 && !ops[j].isMemory && !ops[j].isRw &&
      AllKnown(SkipModifiers(ops[j].constraint))
    ensures -1 <= ops[j].inputIndex < |ops| && ops[j].inputIndex != j
  {
    hide ClaimsApart, RegsAre, Direct, Suited, Held, AllKnown, SkipModifiers, Priority, Ref, Modifiers;
    assert OneAllocated(ops0, ops, regs, claims, done, clobbers, outputs, j);
  }

  lemma NothingAllocated(src: seq<Operand>, ops: seq<Operand>, regs: seq<set<Role>>, claims: seq<set<Role>>,
                         clobbers: seq<bool>, outputs: nat)
    requires Prepared(src, ops, outputs) && |claims| == |ops| && |regs| == REGS
    requires forall j :: 0 <= j < |claims| ==> claims[j] == {}
    requires forall r :: 0 <= r < REGS ==> regs[r] == if Reserved(r, clobbers) then BOTH else {}
    ensures Allocated(ops, ops, regs, claims, {}, clobbers, outputs)
  {
    hide AllKnown, SkipModifiers, Priority, Ref, Modifiers, Direct, Suited, Held, Reserved;
    forall j | 0 <= j < |ops| ensures OneAllocated(ops, ops, regs, claims, {}, clobbers, outputs, j) {
    }
  }

  /** The operand numbers are in ascending order of priority. */
  predicate Ordered(sorted: seq<nat>, ops: seq<Operand>) {
    forall p, q :: 0 <= p < q < |sorted| ==>
      sorted[p] < |ops| && sorted[q] < |ops| && ops[sorted[p]].priority <= ops[sorted[q]].priority
  }

  /** The registers before the allocation. */
  function Initially(clobbers: seq<bool>): (r: seq<set<Role>>)
    ensures |r| == REGS
  {
    seq(REGS, r => if Reserved(r, clobbers) then BOTH else {})
  }

  /** The allocation loop, in order of priority. */
  method Allocate(ops: array<Operand>, sorted: array<nat>, outputs: nat, clobbers: seq<bool>, regs: array<set<Role>>,
                  ghost src: seq<Operand>) returns (ok: bool, ghost claims: seq<set<Role>>)
    requires Prepared(src, ops[..], outputs) && sorted.Length == ops.Length && regs.Length == REGS && |clobbers| == REGS
    requires Permutation(sorted[..])
    modifies ops, regs
    ensures ok ==> Allocated(old(ops[..]), ops[..], regs[..], claims, All(ops.Length), clobbers, outputs)
    ensures AllocateFrom(old(ops[..]), sorted[..], 0, outputs, Initially(clobbers))
         == if ok then Some((ops[..], regs[..])) else None
  {
    hide Allocated, Prepared, Permutation, Placed, OnlyPlaced, AllKnown, SkipModifiers, Refused, Linked, Chosen;
    hide WithChoice;
    for i := 0 to REGS
      invariant forall r :: 0 <= r < i ==> regs[r] == if clobbers[r] then BOTH else {}
      invariant ops[..] == old(ops[..])
    {
      regs[i] := if clobbers[i] then BOTH else {};
    }
    regs[SP] := BOTH;
    regs[FP] := BOTH;
    InPermutation(sorted[..]);
    ghost var ops0: seq<Operand>, done: set<nat> := ops[..], {};
    claims := seq(ops.Length, _ => {});
    NothingAllocated(src, ops0, regs[..], claims, clobbers, outputs);
    assert regs[..] == Initially(clobbers);
    for i := 0 to ops.Length
      invariant Allocated(ops0, ops[..], regs[..], claims, done, clobbers, outputs) && |claims| == ops.Length
      invariant AllocateFrom(ops0, sorted[..], 0, outputs, Initially(clobbers))
             == AllocateFrom(ops[..], sorted[..], i, outputs, regs[..])
      invariant done == set p | 0 <= p < i :: sorted[p]
    {
      NewOperand(sorted[..], i);
      var j := sorted[i];
      ghost var before, held := ops[..], regs[..];
      if ops[j].refIndex >= 0 {
        SkipReference(ops0, before, held, claims, done, clobbers, outputs, j);
      } else {
        ReadyToPlace(src, ops0, before, held, claims, done, clobbers, outputs, j);
        ghost var claim;
        ok, claim := Place(ops, j, outputs, regs);
        if !ok {
          return;
        }
        OnlyPlacedIs(before, ops[..], j, outputs, held, regs[..], claim);
        StepAllocated(ops0, before, ops[..], held, regs[..], claims, done, clobbers, outputs, j, claim);
        claims := claims[j := claim];
      }
      done := done + {j};
    }
    AllOperands(sorted[..], done);
    ok := true;
  }

  lemma OnlyPlacedIs(ops: seq<Operand>, ops': seq<Operand>, j: nat, outputs: nat, regs: seq<set<Role>>,
                     regs': seq<set<Role>>, claim: set<Role>)
    requires j < |ops| == |ops'| && |regs| == REGS && Placed(ops[j], ops'[j], j, outputs, regs, regs', claim)
    requires forall i :: 0 <= i < |ops| && i != j && i != ops'[j].inputIndex ==> ops'[i] == ops[i]
    requires 0 <= ops'[j].inputIndex < |ops| ==>
      ops'[ops'[j].inputIndex] == ops[ops'[j].inputIndex].(reg := ops'[j].reg, isLlong := ops'[j].isLlong)
    ensures OnlyPlaced(ops, ops', j)
  {
  }

  lemma InPermutation(s: seq<nat>)
    requires Permutation(s)
    ensures forall p :: 0 <= p < |s| ==> s[p] < |s|
  {
  }

  lemma NewOperand(sorted: seq<nat>, i: nat)
    requires Permutation(sorted) && i < |sorted|
    ensures sorted[i] < |sorted| && sorted[i] !in set p | 0 <= p < i :: sorted[p]
  {
  }

  lemma AllOperands(sorted: seq<nat>, done: set<nat>)
    requires Permutation(sorted) && done == set p | 0 <= p < |sorted| :: sorted[p]
    ensures done == All(|sorted|)
  {
    forall k: nat | k < |sorted| ensures k in done {
      assert k in sorted;
      var p :| 0 <= p < |sorted| && sorted[p] == k;
    }
  }

  // ----- the whole computation -----

  /** What a caller can rely on. */
  predicate Assigned(ops: seq<Operand>, outputs: nat, clobbers: seq<bool>) {
    // a register that is handed out is neither clobbered nor sp nor fp
    && (forall j :: 0 <= j < |ops| && ops[j].reg >= 0 ==>
          ops[j].reg <= 8 && !(ops[j].reg < |clobbers| && clobbers[ops[j].reg]))
    // operands that use their registers in a common role have different ones
    && (forall j, k :: 0 <= j < k < |ops| && !IsRef(ops[j]) && !IsRef(ops[k]) && ops[j].reg == ops[k].reg >= 0 ==>
          Held(ops[j], j, outputs) !! Held(ops[k], k, outputs))
    // an operand without a register needs none
    && (forall j :: 0 <= j < |ops| && !IsRef(ops[j]) && ops[j].reg < 0 ==> Direct(ops[j], j, outputs))
    // every other operand is where a letter of its constraint allows it to be
    && (forall j :: 0 <= j < |ops| && !IsRef(ops[j]) ==> Suited(ops[j], j, outputs))
    // and it is marked read-write if its constraint says so
    && (forall j :: 0 <= j < |ops| && !IsRef(ops[j]) ==> (ops[j].isRw <==> '+' in Modifiers(ops[j].constraint)))
    // a tied input has its operand's register, unless that is itself a tied input
    && (forall j :: 0 <= j < |ops| && IsRef(ops[j]) ==>
          ops[j].refIndex < |ops| && ops[j].reg == if IsRef(ops[ops[j].refIndex]) then -1 else ops[ops[j].refIndex].reg)
  }

  lemma AllocatedAssigned(ops0: seq<Operand>, ops: seq<Operand>, regs: seq<set<Role>>, claims: seq<set<Role>>,
                          clobbers: seq<bool>, outputs: nat)
    requires Allocated(ops0, ops, regs, claims, All(|ops|), clobbers, outputs)
    ensures Assigned(ops, outputs, clobbers)
  {
    hide Held, Direct, Suited, RegsAre, Reserved, OneAllocated;
    forall j | 0 <= j < |ops| ensures OneAssigned(ops, claims, outputs, clobbers, j) {
      AllocatedOne(ops0, ops, regs, claims, clobbers, outputs, j);
    }
    forall j, k | 0 <= j < k < |ops| && !IsRef(ops[j]) && !IsRef(ops[k]) && ops[j].reg == ops[k].reg >= 0
      ensures Held(ops[j], j, outputs) !! Held(ops[k], k, outputs)
    {
      assert OneAssigned(ops, claims, outputs, clobbers, j) && OneAssigned(ops, claims, outputs, clobbers, k);
    }
    EachAssigned(ops, claims, outputs, clobbers);
  }

  lemma AllocatedOne(ops0: seq<Operand>, ops: seq<Operand>, regs: seq<set<Role>>, claims: seq<set<Role>>,
                     clobbers: seq<bool>, outputs: nat, j: nat)
    requires Allocated(ops0, ops, regs, claims, All(|ops|), clobbers, outputs) && j < |ops|
    ensures OneAssigned(ops, claims, outputs, clobbers, j)
  {
    hide Held, Direct, Suited, RegsAre, Reserved, SameSourceBut, ClaimsApart;
    assert OneAllocated(ops0, ops, regs, claims, All(|ops|), clobbers, outputs, j);
    if IsRef(ops[j]) {
      assert OneAllocated(ops0, ops, regs, claims, All(|ops|), clobbers, outputs, ops[j].refIndex);
    }
  }

  lemma EachAssigned(ops: seq<Operand>, claims: seq<set<Role>>, outputs: nat, clobbers: seq<bool>)
    requires |ops| == |claims| && forall j :: 0 <= j < |ops| ==> OneAssigned(ops, claims, outputs, clobbers, j)
    ensures forall j :: 0 <= j < |ops| && ops[j].reg >= 0 ==>
      ops[j].reg <= 8 && !(ops[j].reg < |clobbers| && clobbers[ops[j].reg])
    ensures forall j :: 0 <= j < |ops| && !IsRef(ops[j]) ==>
      (ops[j].reg < 0 ==> Direct(ops[j], j, outputs)) && Suited(ops[j], j, outputs) &&
      (ops[j].isRw <==> '+' in Modifiers(ops[j].constraint))
    ensures forall j :: 0 <= j < |ops| && IsRef(ops[j]) ==>
      ops[j].refIndex < |ops| && ops[j].reg == if IsRef(ops[ops[j].refIndex]) then -1 else ops[ops[j].refIndex].reg
  {
    hide Held, Direct, Suited;
    forall j | 0 <= j < |ops|
      ensures ops[j].reg >= 0 ==> ops[j].reg <= 8 && !(ops[j].reg < |clobbers| && clobbers[ops[j].reg])
      ensures !IsRef(ops[j]) ==>
        (ops[j].reg < 0 ==> Direct(ops[j], j, outputs)) && Suited(ops[j], j, outputs) &&
        (ops[j].isRw <==> '+' in Modifiers(ops[j].constraint))
      ensures IsRef(ops[j]) ==>
        ops[j].refIndex < |ops| && ops[j].reg == if IsRef(ops[ops[j].refIndex]) then -1 else ops[ops[j].refIndex].reg
    {
      assert OneAssigned(ops, claims, outputs, clobbers, j);
    }
  }

  /** `Assigned`, for one operand and its claim. */
  predicate OneAssigned(ops: seq<Operand>, claims: seq<set<Role>>, outputs: nat, clobbers: seq<bool>, j: nat)
    requires j < |ops| == |claims|
  {
    && (ops[j].reg >= 0 ==> ops[j].reg <= LAST && !Reserved(ops[j].reg, clobbers))
    && (!IsRef(ops[j]) && ops[j].reg >= 0 ==> claims[j] != {} && claims[j] == Held(ops[j], j, outputs))
    && (!IsRef(ops[j]) && ops[j].reg < 0 ==> Direct(ops[j], j, outputs))
    && (!IsRef(ops[j]) ==> Suited(ops[j], j, outputs) && (ops[j].isRw <==> '+' in Modifiers(ops[j].constraint)))
    && (IsRef(ops[j]) ==>
          ops[j].refIndex < |ops| && ops[j].reg == if IsRef(ops[ops[j].refIndex]) then -1 else ops[ops[j].refIndex].reg)
  }

  /** An output stored through a pointer needs a register for the pointer. */
  predicate StoresThrough(op: Operand) {
    op.reg >= 0 && op.value.viaPointer && !op.isMemory
  }

  /** The register for the address of an output stored through a pointer: the
      lowest free as an output, past the last if there is none, -1 if none is needed. */
  function OutRegister(ops: seq<Operand>, regs: seq<set<Role>>): int
    requires |regs| == REGS
  {
    if exists i :: 0 <= i < |ops| && StoresThrough(ops[i]) then FirstFree(regs, {Out}, 0) else -1
  }

  /** The operands with their registers and the output register, for an order
      of allocation; None if there is no room. */
  function Assignment(ops: seq<Operand>, order: seq<nat>, outputs: nat, clobbers: seq<bool>)
    : Option<(seq<Operand>, int)>
    requires |order| == |ops| && Permutation(order)
  {
    var r := AllocateFrom(ops, order, 0, outputs, Initially(clobbers));
    if r.None? || OutRegister(r.value.0, r.value.1) > LAST then None
    else Some((r.value.0, OutRegister(r.value.0, r.value.1)))
  }

  predicate AllAcceptable(ops: seq<Operand>, outputs: nat) {
    forall i :: 0 <= i < |ops| ==> Acceptable(ops, outputs, i)
  }

  /** `asm_compute_constraints`: fails exactly when a constraint is not
      acceptable or the allocation in the order found has no room. */
  method ComputeConstraints(ops: array<Operand>, outputs: nat, clobbers: seq<bool>)
    returns (ok: bool, outReg: int, sorted: array<nat>, ghost prepared: seq<Operand>)
    requires |clobbers| == REGS
    modifies ops
    ensures !AllAcceptable(old(ops[..]), outputs) ==> !ok
    ensures AllAcceptable(old(ops[..]), outputs) ==>
      && Prepared(old(ops[..]), prepared, outputs)
      && sorted.Length == |prepared| && Permutation(sorted[..]) && Ordered(sorted[..], prepared)
      && Assignment(prepared, sorted[..], outputs, clobbers) == if ok then Some((ops[..], outReg)) else None
    ensures ok ==> forall i :: 0 <= i < ops.Length ==>
      ops[i].constraint == old(ops[i]).constraint && ops[i].value == old(ops[i]).value &&
      ops[i].refIndex == Ref(old(ops[..]), i)
    ensures ok ==> Assigned(ops[..], outputs, clobbers) && Tied(ops[..], outputs) && Separate(ops[..], outputs)
    ensures ok ==> -1 <= outReg <= 8 && (outReg >= 0 <==> exists i :: 0 <= i < ops.Length && StoresThrough(ops[i]))
    ensures ok && outReg >= 0 ==> !clobbers[outReg]
    ensures ok && outReg >= 0 ==>
      forall i :: 0 <= i < ops.Length && !IsRef(ops[i]) && ops[i].reg == outReg ==> Out !in Held(ops[i], i, outputs)
  {
    hide Prepared, Acceptable, Permutation, Assigned, Allocated, Settled, Held, Reserved, Ref, Ordered, AllocateFrom;
    hide Tied, Separate;
    outReg, sorted := -1, new nat[0];
    ghost var src := ops[..];
    ok := Prepare(ops, outputs);
    prepared := ops[..];
    if !ok {
      return;
    }
    var priorities := seq(ops.Length, i requires 0 <= i < ops.Length reads ops => ops[i].priority);
    sorted := SortOperands(priorities);
    SortedBy(sorted[..], priorities, prepared);
    var regs := new set<Role>[REGS](_ => {});
    ghost var claims;
    ok, claims := Allocate(ops, sorted, outputs, clobbers, regs, src);
    if !ok {
      return;
    }
    AllocatedAssigned(prepared, ops[..], regs[..], claims, clobbers, outputs);
    Unchanged(src, prepared, ops[..], regs[..], claims, clobbers, outputs);
    AssignedSeparate(ops[..], outputs, clobbers);
    for i := 0 to ops.Length
      invariant outReg == -1 && forall j :: 0 <= j < i ==> !StoresThrough(ops[j])
    {
      if StoresThrough(ops[i]) {
        var reg := FindFree(regs, {Out});
        ghost var all := ops[..];
        assert StoresThrough(all[i]);
        if reg > LAST {
          ok := false;
          return;
        }
        FreeForOutput(prepared, all, regs[..], claims, clobbers, outputs, reg);
        outReg := reg;
        return;
      }
    }
  }

  lemma Unchanged(src: seq<Operand>, ops0: seq<Operand>, ops: seq<Operand>, regs: seq<set<Role>>,
                  claims: seq<set<Role>>, clobbers: seq<bool>, outputs: nat)
    requires Prepared(src, ops0, outputs) && Allocated(ops0, ops, regs, claims, All(|ops|), clobbers, outputs)
    ensures |src| == |ops| == |ops0|
    ensures forall i :: 0 <= i < |ops| ==> ops[i].constraint == src[i].constraint && ops[i].value == src[i].value
    ensures forall i :: 0 <= i < |ops| ==> ops[i].refIndex == Ref(src, i) && ops[i].priority == ops0[i].priority
    ensures Tied(ops, outputs)
  {
    hide Priority, SkipModifiers, AllKnown, Ref, Held, Direct, Suited, RegsAre, ClaimsApart, Reserved;
    forall i | 0 <= i < |ops| ensures SameSourceBut(ops0[i], ops[i]) {
      assert OneAllocated(ops0, ops, regs, claims, All(|ops|), clobbers, outputs, i);
    }
  }

  lemma SortedBy(sorted: seq<nat>, priorities: seq<nat>, ops: seq<Operand>)
    requires |sorted| == |priorities| == |ops| && Permutation(sorted) && Settled(sorted, priorities, |sorted|)
    requires forall i :: 0 <= i < |ops| ==> priorities[i] == ops[i].priority
    ensures Ordered(sorted, ops)
  {
  }

  lemma FreeForOutput(ops0: seq<Operand>, ops: seq<Operand>, regs: seq<set<Role>>, claims: seq<set<Role>>,
                      clobbers: seq<bool>, outputs: nat, reg: nat)
    requires Allocated(ops0, ops, regs, claims, All(|ops|), clobbers, outputs) && reg <= LAST &&
      AllFree(regs, reg, {Out})
    ensures !(reg < |clobbers| && clobbers[reg])
    ensures forall i :: 0 <= i < |ops| && !IsRef(ops[i]) && ops[i].reg == reg ==> Out !in Held(ops[i], i, outputs)
  {
    hide Held, Direct, Suited, ClaimsApart, SameSourceBut;
    forall i | 0 <= i < |ops| && !IsRef(ops[i]) && ops[i].reg == reg ensures Out !in Held(ops[i], i, outputs) {
      assert OneAllocated(ops0, ops, regs, claims, All(|ops|), clobbers, outputs, i);
    }
  }

  // ----- the constraints, character by character -----

  /** From where the modifiers end, s is a reference or a string of letters. */
  lemma {:induction false} AfterModifiers(s: string, p: nat)
    requires p <= |s| && forall q :: 0 <= q < p ==> s[q] in {'=', '&', '+', '%'}
    requires p < |s| ==> s[p] !in {'=', '&', '+', '%'}
    ensures SkipModifiers(s) == s[p..]
    ensures IsReference(s) <==> p < |s| && ('0' <= s[p] <= '9' || s[p] == '[')
    ensures AllKnown(SkipModifiers(s)) <==>
      forall q :: p <= q < |s| ==> s[q] in {'l', 'r', 'p', 'M', 'I', 'J', 'i', 'm', 'g'}
  {
    if p > 0 {
      AfterModifiers(s[1..], p - 1);
    }
    assert SkipModifiers(s) == s[p..];
    forall q | p <= q < |s| ensures s[q] == s[p..][q - p] {
    }
    forall i | 0 <= i < |s[p..]| ensures s[p..][i] == s[i + p] {
    }
  }

  /** A reference by number is read in base 10. */
  lemma {:induction false} NumberReads(s: string, d: char, rest: string, acc: nat)
    requires (forall c :: c in s ==> '0' <= c <= '9') && '0' <= d <= '9'
    requires rest == "" || !('0' <= rest[0] <= '9')
    ensures Number(s + [d] + rest, acc) == 10 * Number(s + rest, acc) + (d as int - '0' as int)
    ensures Number(rest, acc) == acc
  {
    if s == "" {
      assert s + [d] + rest == [d] + rest && ([d] + rest)[1..] == rest && s + rest == rest;
    } else {
      assert s[0] in s && forall c :: c in s[1..] ==> c in s;
      var t, acc' := s[1..], 10 * acc + (s[0] as int - '0' as int);
      assert (s + [d] + rest)[1..] == t + [d] + rest && (s + rest)[1..] == t + rest;
      NumberReads(t, d, rest, acc');
    }
  }

  /** A reference by name ends at the first closing bracket. */
  lemma {:induction false} BracketReads(name: string, rest: string)
    requires ']' !in name
    ensures BracketName(name + "]" + rest) == Some(name)
  {
    var s := name + "]" + rest;
    if name != "" {
      BracketReads(name[1..], rest);
      assert s[1..] == name[1..] + "]" + rest;
      assert name[0] in name && s[0] == name[0] && [name[0]] + name[1..] == name;
    } else {
      assert s[0] == ']';
    }
  }

  predicate InRegisters(s: string) {
    forall i :: 0 <= i < |s| ==> s[i] == 'l' || s[i] == 'r' || s[i] == 'p'
  }

  /** Operands that must be in a register come before those that need not. */
  lemma {:induction false} PriorityReads(s: string)
    requires s != ""
    ensures Priority(s) == if InRegisters(s) then 3 else 4
  {
    var front, last := s[..|s| - 1], s[|s| - 1];
    assert s == front + [last];
    assert InRegisters(s) <==> InRegisters(front) && CharPriority(last) == 3;
    if front != "" {
      PriorityReads(front);
    } else {
      assert Priority(front) == 0;
    }
  }

  /** The lowest of r0 to r8 that is not clobbered, as long as none is in use. */
  lemma FirstRegister(clobbers: seq<bool>, mask: set<Role>, r: nat)
    requires |clobbers| == 16 && mask != {} && r <= 9
    requires (r <= 8 ==> !clobbers[r]) && forall k :: 0 <= k < r ==> clobbers[k]
    ensures FirstFree(Initially(clobbers), mask, 0) == r
  {
    var regs := Initially(clobbers);
    assert mask <= BOTH by {
      forall m | m in mask ensures m in BOTH {
        match m case In => case Out =>
      }
    }
    assert forall k :: 0 <= k < r ==> !AllFree(regs, k, mask);
    assert r <= 8 ==> AllFree(regs, r, mask);
  }

  // ----- sharing a register, by the constraints alone -----

  /** The letter m is among the modifiers that s starts with. */
  predicate Leads(s: string, m: char) {
    exists p :: 0 <= p < |s| && s[p] == m && forall q :: 0 <= q < p ==> s[q] in {'=', '&', '+', '%'}
  }

  lemma {:induction false} LeadsIs(s: string, m: char)
    requires IsModifier(m)
    ensures m in Modifiers(s) <==> Leads(s, m)
  {
    if s != [] && IsModifier(s[0]) {
      LeadsIs(s[1..], m);
      if s[0] == m {
        assert Leads(s, m);
      } else {
        if Leads(s, m) {
          var p :| 0 <= p < |s| && s[p] == m && forall q :: 0 <= q < p ==> s[q] in {'=', '&', '+', '%'};
          assert s[1..][p - 1] == m && forall q :: 0 <= q < p - 1 ==> s[1..][q] in {'=', '&', '+', '%'};
        }
        if Leads(s[1..], m) {
          var p :| 0 <= p < |s| - 1 && s[1..][p] == m && forall q :: 0 <= q < p ==> s[1..][q] in {'=', '&', '+', '%'};
          assert s[p + 1] == m && forall q :: 0 <= q < p + 1 ==> q == 0 || s[q] == s[1..][q - 1];
        }
      }
    }
  }

  /** No operand refers to operand j. */
  predicate Untargeted(ops: seq<Operand>, j: nat) {
    forall i :: 0 <= i < |ops| ==> ops[i].refIndex != j
  }

  /** Operand j is read but not written: an input, or an address. */
  predicate OnlyRead(ops: seq<Operand>, outputs: nat, j: nat)
    requires j < |ops|
  {
    ops[j].isMemory || (outputs <= j && Untargeted(ops, j))
  }

  /** Operand j is written once all inputs have been read: an output that is
      neither read-write, nor early-clobbered, nor tied. */
  predicate OnlyWritten(ops: seq<Operand>, outputs: nat, j: nat)
    requires j < |ops|
  {
    && !ops[j].isMemory && j < outputs && Untargeted(ops, j)
    && !Leads(ops[j].constraint, '&') && !Leads(ops[j].constraint, '+')
  }

  /** Two operands of their own share a register only if one is just read and
      the other just written. */
  predicate Separate(ops: seq<Operand>, outputs: nat) {
    forall j, k :: 0 <= j < |ops| && 0 <= k < |ops| && j != k && ops[j].reg == ops[k].reg >= 0 &&
                   ops[j].refIndex < 0 && ops[k].refIndex < 0 ==>
      || (OnlyRead(ops, outputs, j) && OnlyWritten(ops, outputs, k))
      || (OnlyRead(ops, outputs, k) && OnlyWritten(ops, outputs, j))
  }

  /** The references among the operands: each input tied to an operand, and that
      operand, point at each other. */
  predicate Tied(ops: seq<Operand>, outputs: nat) {
    && (forall i :: 0 <= i < |ops| ==> -1 <= ops[i].refIndex < |ops| && -1 <= ops[i].inputIndex < |ops|)
    && (forall i :: 0 <= i < |ops| && ops[i].refIndex >= 0 ==> outputs <= i && ops[ops[i].refIndex].inputIndex == i)
    && (forall i :: 0 <= i < |ops| && ops[i].inputIndex >= 0 ==> ops[ops[i].inputIndex].refIndex == i)
  }

  lemma HeldIs(ops: seq<Operand>, outputs: nat, j: nat)
    requires Tied(ops, outputs) && j < |ops|
    ensures In in Held(ops[j], j, outputs) <==> !OnlyWritten(ops, outputs, j)
    ensures Out in Held(ops[j], j, outputs) <==> !OnlyRead(ops, outputs, j)
  {
    LeadsIs(ops[j].constraint, '&');
    LeadsIs(ops[j].constraint, '+');
    assert Untargeted(ops, j) <==> ops[j].inputIndex < 0 by {
      if ops[j].inputIndex >= 0 {
        assert ops[ops[j].inputIndex].refIndex == j;
      }
    }
    hide Leads, Modifiers, Untargeted;
  }

  lemma AssignedSeparate(ops: seq<Operand>, outputs: nat, clobbers: seq<bool>)
    requires Assigned(ops, outputs, clobbers) && Tied(ops, outputs)
    ensures Separate(ops, outputs)
  {
    hide Held, OnlyRead, OnlyWritten, Direct, Suited, Reserved, Tied;
    forall j, k | 0 <= j < |ops| && 0 <= k < |ops| && j != k && ops[j].reg == ops[k].reg >= 0 &&
                  ops[j].refIndex < 0 && ops[k].refIndex < 0
      ensures (OnlyRead(ops, outputs, j) && OnlyWritten(ops, outputs, k))
        || (OnlyRead(ops, outputs, k) && OnlyWritten(ops, outputs, j))
    {
      HeldIs(ops, outputs, j);
      HeldIs(ops, outputs, k);
      ReadOrWritten(ops, outputs, j);
      ReadOrWritten(ops, outputs, k);
      var (lo, hi) := if j < k then (j, k) else (k, j);
      assert Held(ops[lo], lo, outputs) !! Held(ops[hi], hi, outputs);
      assert !(In in Held(ops[j], j, outputs) && In in Held(ops[k], k, outputs));
      assert !(Out in Held(ops[j], j, outputs) && Out in Held(ops[k], k, outputs));
    }
  }

  lemma ReadOrWritten(ops: seq<Operand>, outputs: nat, j: nat)
    requires j < |ops|
    ensures !(OnlyRead(ops, outputs, j) && OnlyWritten(ops, outputs, j))
  {
  }

  /** An early-clobbered or read-write output in a register shares it with its
      tied input at most. */
  lemma Clobbered(ops: seq<Operand>, outputs: nat, clobbers: seq<bool>, j: nat, k: nat)
    requires Assigned(ops, outputs, clobbers) && Tied(ops, outputs) && Separate(ops, outputs)
    requires j < outputs && j < |ops| && k < |ops| && j != k && !ops[j].isMemory && ops[j].reg == ops[k].reg >= 0
    requires Leads(ops[j].constraint, '&') || Leads(ops[j].constraint, '+')
    ensures ops[k].refIndex == j
  {
    hide Leads, Untargeted, Held, Direct, Suited, Reserved;
    assert !OnlyRead(ops, outputs, j) && !OnlyWritten(ops, outputs, j);
  }

  /** Outputs in registers have different ones, and so have inputs. */
  lemma Different(ops: seq<Operand>, outputs: nat, j: nat, k: nat)
    requires Separate(ops, outputs) && j < k < |ops| && ops[j].refIndex < 0 && ops[k].refIndex < 0
    requires ops[j].reg >= 0 && ops[k].reg >= 0
    requires (k < outputs && !ops[j].isMemory && !ops[k].isMemory) || outputs <= j
    ensures ops[j].reg != ops[k].reg
  {
    hide Leads, Untargeted;
  }

  /** An operand with a tied input shares its register with that input only. */
  lemma TiedAlone(ops: seq<Operand>, outputs: nat, clobbers: seq<bool>, i: nat, k: nat)
    requires Assigned(ops, outputs, clobbers) && Tied(ops, outputs) && Separate(ops, outputs)
    requires i < |ops| && k < |ops| && i != k && ops[i].refIndex >= 0 && ops[i].reg == ops[k].reg >= 0
    ensures var j := ops[i].refIndex; j < |ops| && ops[j].reg == ops[i].reg
    ensures ops[ops[i].refIndex].isMemory || k == ops[i].refIndex
  {
    hide Separate, OnlyRead, OnlyWritten, Held, Direct, Suited;
    var j := ops[i].refIndex;
    if k != j && !ops[j].isMemory {
      Targeted(ops, outputs, j, i);
      if ops[k].refIndex >= 0 {
        if ops[k].refIndex != j {
          Alone(ops, outputs, j, ops[k].refIndex);
        }
      } else {
        Alone(ops, outputs, j, k);
      }
    }
  }

  lemma Targeted(ops: seq<Operand>, outputs: nat, j: nat, i: nat)
    requires i < |ops| && j < |ops| && ops[i].refIndex == j && !ops[j].isMemory
    ensures !OnlyRead(ops, outputs, j) && !OnlyWritten(ops, outputs, j)
  {
    hide Leads;
  }

  /** An operand that is both read and written shares with no other of its own. */
  lemma Alone(ops: seq<Operand>, outputs: nat, j: nat, k: nat)
    requires Separate(ops, outputs) && j < |ops| && k < |ops| && j != k && ops[j].refIndex < 0 && ops[k].refIndex < 0
    requires !OnlyRead(ops, outputs, j) && !OnlyWritten(ops, outputs, j) && ops[j].reg >= 0
    ensures ops[j].reg != ops[k].reg
  {
    hide OnlyRead, OnlyWritten;
  }

  // ----- where a tied input is lost -----

  /** Three operands, each input tied to the one before it. */
  predicate Chained(ops: seq<Operand>) {
    |ops| == 3 && ops[0].constraint == "=r" && ops[1].constraint == "0" && ops[2].constraint == "1"
  }

  /** An input may be tied to an input that is itself tied. */
  lemma ChainOfReferences(ops: seq<Operand>)
    requires Chained(ops)
    ensures AllAcceptable(ops, 1)
    ensures Ref(ops, 0) == -1 && Ref(ops, 1) == 0 && Ref(ops, 2) == 1
  {
    assert SkipModifiers("=r") == "r" by { assert "=r"[1..] == "r"; }
    assert SkipModifiers("0") == "0" && SkipModifiers("1") == "1";
    assert Number("0", 0) == 0 by { assert "0"[1..] == ""; }
    assert Number("1", 0) == 1 by { assert "1"[1..] == ""; }
  }

  lemma ChainPrepared(src: seq<Operand>, ops: seq<Operand>)
    requires Chained(src) && Prepared(src, ops, 1)
    ensures ops[0].refIndex == -1 && ops[1].refIndex == 0 && ops[2].refIndex == 1
    ensures ops[0].inputIndex == 1 && ops[1].inputIndex == 2 && ops[2].inputIndex == -1 && ops[2].reg == -1
    ensures ops[0].priority < ops[1].priority && ops[0].priority < ops[2].priority && ops[0].constraint == "=r"
  {
    ChainOfReferences(src);
    assert SkipModifiers("=r") == "r" by { assert "=r"[1..] == "r"; }
    assert Priority("r") == 3 by { assert "r"[..0] == ""; }
    hide SkipModifiers, Priority, Ref, AllKnown;
  }

  lemma HeadFirst(ops: seq<Operand>, order: seq<nat>)
    requires |ops| == |order| == 3 && Permutation(order) && Ordered(order, ops)
    requires ops[0].priority < ops[1].priority && ops[0].priority < ops[2].priority
    ensures order[0] == 0 && order[1] in {1, 2} && order[2] in {1, 2}
  {
    assert 0 in order;
  }

  /** Allocation then succeeds, whenever any register is free; the third operand
      gets none, although the second has one. */
  lemma ChainAllocated(src: seq<Operand>, ops: seq<Operand>, order: seq<nat>, clobbers: seq<bool>)
    requires Chained(src) && Prepared(src, ops, 1) && |order| == 3 && Permutation(order) && Ordered(order, ops)
    requires AnyFree(Initially(clobbers), BOTH)
    ensures var r := AllocateFrom(ops, order, 0, 1, Initially(clobbers));
      r.Some? && 0 <= r.value.0[0].reg == r.value.0[1].reg && r.value.0[2].reg == -1
  {
    ChainPrepared(src, ops);
    HeadFirst(ops, order);
    hide Permutation, Ordered;
    var regs := Initially(clobbers);
    assert SkipModifiers("=r") == "r" by { assert "=r"[1..] == "r"; }
    assert Modifiers("=r") == {'='} by { assert "=r"[1..] == "r"; }
    hide Prepared, Initially, SkipModifiers, Modifiers, FirstFree, AnyFree, AllFree;
    var op := ops[0].(isRw := false);
    assert Chosen(ops[0], 0, 1, regs) == WithLetters("r", op, 0, 1, regs) == WithLetter('r', op, 0, 1, regs);
    var choice := Chosen(ops[0], 0, 1, regs).value;
    var ops1 := WithChoice(ops, 0, choice.op);
    assert AllocateFrom(ops, order, 0, 1, regs) == AllocateFrom(ops1, order, 1, 1, choice.regs);
    assert AllocateFrom(ops1, order, 1, 1, choice.regs) == AllocateFrom(ops1, order, 2, 1, choice.regs);
    assert AllocateFrom(ops1, order, 2, 1, choice.regs) == AllocateFrom(ops1, order, 3, 1, choice.regs);
  }
}
