/** Forward jumps of the A64 generator: `gjmp`, `gjmp_append` and `gsym_addr`
    over one text section. Words are unsigned 32-bit numbers, positions and
    labels are byte offsets. */
module Jumps64 {
  import opened PendingLists
  import opened Wrappers

  const WORD: int := 0x1_0000_0000
  const NOP: int := 0xd503_201f
  const B: int := 0x1400_0000
  const REACH: int := 0x800_0000 // 128 MB
  const LIMIT: int := 0x8000_0000

  /** `a - t + 0x8000000 < 0x10000000` on uint32_t. */
  predicate InRange(t: nat, a: nat) {
    (a - t + REACH) % WORD < 2 * REACH
  }

  /** The word that `gsym_addr` stores at t for the label a; the offset field
      is OR-ed into clear bits. */
  function Branch(t: nat, a: nat): int {
    if (a - t) % WORD == 4 then NOP else B + (a - t) % WORD / 4 % 0x400_0000
  }

  /** Where control goes from the word w at offset t, for NOP and B
      (Arm Architecture Reference Manual, DDI 0487, section C6.2). */
  function Goes(t: nat, w: int): Option<int> {
    if w == NOP then Some(t + 4)
    else if B <= w < B + 0x400_0000 then
      var imm26 := w - B;
      Some(t + 4 * (if imm26 < 0x200_0000 then imm26 else imm26 - 0x400_0000))
    else None
  }

  lemma InRangeExactly(t: nat, a: nat)
    requires t < LIMIT && a < LIMIT
    ensures InRange(t, a) <==> -0x800_0000 <= a - t < 0x800_0000
  {
  }

  lemma ForwardReaches(t: nat, a: nat, k: nat)
    requires t < LIMIT && a < LIMIT && a == t + 4 * k
    ensures Goes(t, Branch(t, a)) == Some(a) <==> k < 0x200_0000
  {
    assert (a - t) % WORD == 4 * k;
    assert 4 * k / 4 == k;
    if k < 0x200_0000 {
      assert k % 0x400_0000 == k;
    }
  }

  lemma BackwardReaches(t: nat, a: nat, k: nat)
    requires t < LIMIT && a < LIMIT && t == a + 4 * k && k > 0
    ensures Goes(t, Branch(t, a)) == Some(a) <==> k <= 0x200_0000
  {
    var d := 4 * (0x4000_0000 - k);
    assert (a - t) % WORD == d;
    assert d / 4 == 0x4000_0000 - k;
    if k <= 0x200_0000 {
      assert (0x4000_0000 - k) % 0x400_0000 == 0x400_0000 - k;
    }
  }

  /** The range test admits exactly the labels the stored word can reach. */
  lemma BranchReaches(t: nat, a: nat)
    requires t < LIMIT && a < LIMIT && t % 4 == 0 && a % 4 == 0
    ensures InRange(t, a) <==> Goes(t, Branch(t, a)) == Some(a)
  {
    InRangeExactly(t, a);
    hide InRange, Goes, Branch;
    if a >= t {
      ForwardReaches(t, a, (a - t) / 4);
    } else {
      BackwardReaches(t, a, (t - a) / 4);
    }
  }

  /** `b .`, `b .+8`, `b .-4` and `nop` and where they go. */
  lemma KnownBranches(t: nat)
    ensures Goes(t, 0x1400_0000) == Some(t) && Goes(t, 0x1400_0002) == Some(t + 8)
    ensures Goes(t, 0x17ff_ffff) == Some(t - 4) && Goes(t, 0xd503_201f) == Some(t + 4)
    ensures Branch(t, t + 8) == 0x1400_0002 && Branch(t, t + 4) == 0xd503_201f
  {
  }

  /** before and after differ only at the words of c, which now branch to a. */
  ghost predicate Patched(before: seq<int>, after: seq<int>, c: seq<nat>, a: nat) {
    |after| == |before| &&
    forall k :: 0 <= k < |before| ==> after[k] == if 4 * k in c then Branch(4 * k, a) else before[k]
  }

  ghost predicate AllInRange(c: seq<nat>, a: nat) {
    forall i :: 0 <= i < |c| ==> InRange(c[i], a)
  }

  /** A resolved jump: its word transfers control to its label. */
  ghost predicate Arrives(data: seq<int>, p: nat, a: int) {
    p % 4 == 0 && p / 4 < |data| && Goes(p, data[p / 4]) == Some(a)
  }

  ghost predicate Resolved(data: seq<int>, lists: Lists, labels: map<nat, nat>, limit: nat) {
    && (forall p :: p in labels ==> p < limit && Arrives(data, p, labels[p]))
    && (forall p, h :: p in labels && h in lists ==> p !in lists[h])
  }

  lemma NotYet(before: seq<int>, data: seq<int>, c: seq<nat>, i: nat, a: nat, limit: nat)
    requires i < |c| && Distinct(c) && Chain(before, c, limit) && Patched(before, data, c[..i], a)
    ensures c[i] > 0 && c[i] % 4 == 0 && c[i] / 4 < |data| && data[c[i] / 4] == After(c, i)
  {
    assert 4 * (c[i] / 4) == c[i] && c[i] !in c[..i];
  }

  lemma PatchedNext(before: seq<int>, prev: seq<int>, data: seq<int>, c: seq<nat>, i: nat, a: nat)
    requires i < |c| && c[i] % 4 == 0 && c[i] / 4 < |prev| && Patched(before, prev, c[..i], a)
    requires data == prev[c[i] / 4 := Branch(c[i], a)] && AllInRange(c[..i], a) && InRange(c[i], a)
    ensures Patched(before, data, c[..i + 1], a) && AllInRange(c[..i + 1], a)
  {
    assert c[..i + 1] == c[..i] + [c[i]];
  }

  lemma AllArrive(before: seq<int>, data: seq<int>, c: seq<nat>, a: nat, limit: nat)
    requires Chain(before, c, limit) && AllInRange(c, a) && Patched(before, data, c, a)
    requires a < LIMIT && a % 4 == 0 && limit <= LIMIT
    ensures forall p :: p in c ==> p < limit && Arrives(data, p, a)
  {
    forall p | p in c ensures p < limit && Arrives(data, p, a) {
      var i :| 0 <= i < |c| && c[i] == p;
      assert 4 * (p / 4) == p;
      BranchReaches(p, a);
    }
  }

  lemma NotAllInRange(c: seq<nat>, i: nat, a: nat)
    requires i < |c| && !InRange(c[i], a)
    ensures !AllInRange(c, a)
  {
  }

  lemma NothingPatched(data: seq<int>, a: nat)
    ensures Patched(data, data, [], a) && AllInRange([], a)
  {
  }

  // ----- the state of the generator -----

  ghost predicate Consistent(data: seq<int>, ind: nat, lists: Lists, jumps: set<nat>, labels: map<nat, nat>) {
    && 0 < ind <= 4 * |data| && ind % 4 == 0 && ind < LIMIT
    && Tidy(lists, data, ind)
    && Resolved(data, lists, labels, ind)
    && Accounted(jumps, lists, labels)
  }

  /** before and data differ at most at the word stored at the cursor. */
  ghost predicate Stored(before: seq<int>, data: seq<int>, r: nat, w: int) {
    && r / 4 < |data| && data[r / 4] == w && |before| <= |data|
    && forall k :: 0 <= k < |before| && k != r / 4 ==> data[k] == before[k]
  }

  lemma EmitConsistent(before: seq<int>, data: seq<int>, ind: nat, w: int, lists: Lists, jumps: set<nat>,
                       labels: map<nat, nat>)
    requires Consistent(before, ind, lists, jumps, labels) && ind + 4 < LIMIT && Stored(before, data, ind, w)
    ensures Consistent(data, ind + 4, lists, jumps, labels)
  {
    Kept(lists, before, data, ind, ind + 4);
  }

  lemma JumpConsistent(before: seq<int>, data: seq<int>, ind: nat, t: nat, lists: Lists, jumps: set<nat>,
                       labels: map<nat, nat>)
    requires Consistent(before, ind, lists, jumps, labels) && ind + 4 < LIMIT && Known(lists, t) &&
      Stored(before, data, ind, t)
    ensures Consistent(data, ind + 4, Pushed(lists, ind, t), jumps + {ind}, labels)
  {
    PushTidy(lists, before, data, ind, t);
    assert forall h :: h in lists ==> lists[h][0] == h;
    PushAccounted(jumps, lists, labels, ind, t);
    var next := Pushed(lists, ind, t);
    forall p, h | p in labels && h in next ensures p !in next[h] {
      assert h != ind ==> h in lists;
    }
  }

  /** What a method may use of a pending list. */
  lemma PendingWalk(data: seq<int>, ind: nat, lists: Lists, jumps: set<nat>, labels: map<nat, nat>, t: nat)
    requires Consistent(data, ind, lists, jumps, labels) && Known(lists, t)
    ensures Chain(data, ListOf(lists, t), ind) && Distinct(ListOf(lists, t)) && ind < LIMIT && 0 !in lists
    ensures t == if ListOf(lists, t) == [] then 0 else ListOf(lists, t)[0]
    ensures t != 0 ==> ListOf(lists, t) != []
  {
  }

  lemma JoinConsistent(before: seq<int>, data: seq<int>, ind: nat, n: nat, t: nat, last: nat, lists: Lists,
                       jumps: set<nat>, labels: map<nat, nat>)
    requires Consistent(before, ind, lists, jumps, labels) && n in lists && Known(lists, t) && n != t && n != 0
    requires lists[n] != [] && last == lists[n][|lists[n]| - 1] && last / 4 < |before| && data == before[last / 4 := t]
    ensures Consistent(data, ind, Joined(lists, n, t), jumps, labels)
  {
    assert last in lists[n];
    JoinTidy(lists, before, data, ind, n, t);
    JoinAccounted(jumps, lists, labels, n, t);
    var next := Joined(lists, n, t);
    forall p, h | p in labels && h in next ensures p !in next[h] {
      assert h != n ==> h in lists;
    }
    forall p | p in labels ensures Arrives(data, p, labels[p]) {
      assert p !in lists[n] && p % 4 == 0 && last % 4 == 0;
    }
  }

  lemma ResolveConsistent(before: seq<int>, data: seq<int>, ind: nat, t: nat, a: nat, lists: Lists, jumps: set<nat>,
                          labels: map<nat, nat>)
    requires Consistent(before, ind, lists, jumps, labels) && Known(lists, t) && a < LIMIT && a % 4 == 0
    requires Patched(before, data, ListOf(lists, t), a) && AllInRange(ListOf(lists, t), a)
    ensures Consistent(data, ind, lists - {t}, jumps, Labelled(labels, ListOf(lists, t), a))
    ensures forall p :: p in ListOf(lists, t) ==> Arrives(data, p, a)
  {
    var c := ListOf(lists, t);
    var labels' := Labelled(labels, c, a);
    AllArrive(before, data, c, a, ind);
    Dropped(lists, before, data, ind, t);
    DropAccounted(jumps, lists, labels, t, a);
    forall p | p in labels' ensures p < ind && Arrives(data, p, labels'[p]) {
      if p !in c {
        assert Arrives(before, p, labels[p]) && 4 * (p / 4) == p;
      }
    }
    forall p, h | p in labels' && h in lists - {t} ensures p !in lists[h] {
      assert p in labels || p in lists[t];
    }
  }

  class Code {
    var data: seq<int>
    var ind: nat
    ghost var lists: Lists
    ghost var jumps: set<nat>
    ghost var labels: map<nat, nat>

    ghost predicate Valid()
      reads this
    {
      Consistent(data, ind, lists, jumps, labels)
    }

    /** Code without pending jumps; offset 0 is taken, so no jump is named 0. */
    constructor (code: seq<int>)
      requires 0 < |code| && 4 * |code| < LIMIT
      ensures Valid() && data == code && ind == 4 * |code| && lists == map[] && jumps == {} && labels == map[]
    {
      data, ind := code, 4 * |code|;
      lists, jumps, labels := map[], {}, map[];
    }

    /** `o`: store a word at the cursor. */
    method O(w: int)
      requires Valid() && ind + 4 < LIMIT
      modifies this
      ensures Valid() && ind == old(ind) + 4 && Stored(old(data), data, old(ind), w)
      ensures lists == old(lists) && jumps == old(jumps) && labels == old(labels)
    {
      ghost var before := data;
      data := if ind / 4 < |data| then data[ind / 4 := w] else data + [w];
      EmitConsistent(before, data, ind, w, lists, jumps, labels);
      ind := ind + 4;
    }

    /** `gjmp`: emit a jump to be resolved later, in front of the list t. */
    method Jump(t: nat) returns (r: nat)
      requires Valid() && Known(lists, t) && ind + 4 < LIMIT
      modifies this
      ensures Valid() && ind == old(ind) + 4 && Stored(old(data), data, old(ind), t)
      ensures r == old(ind) && lists == Pushed(old(lists), r, t)
      ensures jumps == old(jumps) + {r} && labels == old(labels)
    {
      r := ind;
      ghost var before := data;
      data := if ind / 4 < |data| then data[ind / 4 := t] else data + [t];
      JumpConsistent(before, data, r, t, lists, jumps, labels);
      ind := ind + 4;
      lists := Pushed(lists, r, t);
      jumps := jumps + {r};
    }

    /** `gjmp_append`: the list t after the list n. */
    method Append(n: nat, t: nat) returns (r: nat)
      requires Valid() && Known(lists, n) && Known(lists, t) && (n == t ==> n == 0)
      modifies this
      ensures Valid() && ind == old(ind) && jumps == old(jumps) && labels == old(labels)
      ensures r == (if n == 0 then t else n) && lists == Joined(old(lists), n, t)
      ensures Known(lists, r) && ListOf(lists, r) == ListOf(old(lists), n) + ListOf(old(lists), t)
      ensures |data| == |old(data)|
      ensures forall k :: 0 <= k < |data| && 4 * k !in ListOf(old(lists), n) ==> data[k] == old(data)[k]
    {
      hide Consistent;
      r := t;
      if n != 0 {
        ghost var c, i := lists[n], 0;
        PendingWalk(data, ind, lists, jumps, labels, n);
        var n1 := n;
        var n2 := data[n1 / 4];
        while n2 != 0
          invariant 0 <= i < |c| && n1 == c[i] && n1 / 4 < |data| && n2 == data[n1 / 4]
          decreases |c| - i
        {
          i := i + 1;
          n1 := n2;
          n2 := data[n1 / 4];
        }
        assert i == |c| - 1 && n1 in c && 4 * (n1 / 4) == n1;
        ghost var before := data;
        data := data[n1 / 4 := t];
        JoinConsistent(before, data, ind, n, t, n1, lists, jumps, labels);
        lists := Joined(lists, n, t);
        r := n;
      }
    }

    /** `gsym_addr`: every jump of the list t goes to the label a. A jump that
        cannot reach it is a fatal error, found after its predecessors are patched. */
    method Resolve(t: nat, a: nat) returns (ok: bool)
      requires Valid() && Known(lists, t) && a < LIMIT && a % 4 == 0
      modifies this
      ensures ind == old(ind) && ok == AllInRange(ListOf(old(lists), t), a)
      ensures ok ==> Valid() && lists == old(lists) - {t} && jumps == old(jumps)
      ensures ok ==> labels == Labelled(old(labels), ListOf(old(lists), t), a)
      ensures ok ==> Patched(old(data), data, ListOf(old(lists), t), a)
      ensures ok ==> forall p :: p in ListOf(old(lists), t) ==> Arrives(data, p, a)
      ensures !ok ==> exists i :: 0 <= i < |ListOf(old(lists), t)| && !InRange(ListOf(old(lists), t)[i], a)
                               && Patched(old(data), data, ListOf(old(lists), t)[..i], a)
    {
      hide Consistent, Patched, AllInRange, Branch, Arrives, Chain, Distinct;
      ghost var before, c, i := data, ListOf(lists, t), 0;
      PendingWalk(data, ind, lists, jumps, labels, t);
      NothingPatched(before, a);
      var p := t;
      while p != 0
        invariant 0 <= i <= |c| && p == (if i < |c| then c[i] else 0) && AllInRange(c[..i], a)
        invariant Patched(before, data, c[..i], a)
        invariant ind == old(ind) && lists == old(lists) && jumps == old(jumps) && labels == old(labels)
        decreases |c| - i
      {
        NotYet(before, data, c, i, a, ind);
        var next := data[p / 4];
        if !InRange(p, a) {
          NotAllInRange(c, i, a);
          return false;
        }
        ghost var prev := data;
        data := data[p / 4 := Branch(p, a)];
        PatchedNext(before, prev, data, c, i, a);
        i := i + 1;
        p := next;
      }
      assert i == |c| && c[..i] == c;
      ok := true;
      ResolveConsistent(before, data, ind, t, a, lists, jumps, labels);
      lists := lists - {t};
      labels := Labelled(labels, c, a);
    }
  }
}
