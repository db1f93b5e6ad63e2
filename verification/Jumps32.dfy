/** Jumps of the 32-bit ARM generator: `encbranch`, `decbranch`, `gjmp`,
    `gjmp_cond`, `gjmp_append` and `gsym_addr`. A pending list is threaded
    through the offset fields of the branches themselves. */
module Jumps32 {
  import opened PendingLists

  const FIELD: int := 0x100_0000
  const NOP: int := 0xe1a0_0000
  const LIMIT: int := 0x8000_0000

  // ----- branch words -----

  /** The word offset from the branch at pos to addr; C division truncates. */
  function WordOffset(pos: nat, addr: nat): int {
    var d := addr - (pos + 8);
    if d >= 0 then d / 4 else -(-d / 4)
  }

  /** The range that `encbranch` accepts: twice what the field holds. */
  predicate Accepted(pos: nat, addr: nat) {
    -FIELD <= WordOffset(pos, addr) < FIELD
  }

  /** The signed range of the 24-bit field. */
  predicate InField(pos: nat, addr: nat) {
    -FIELD <= 2 * WordOffset(pos, addr) < FIELD
  }

  /** `encbranch` on an accepted offset. */
  function EncBranch(pos: nat, addr: nat): int {
    0x0a00_0000 + WordOffset(pos, addr) % FIELD
  }

  /** `decbranch`, which is also where the branch goes when it is taken
      (ARMv7-A Architecture Reference Manual, DDI 0406, section A8.8.18). */
  function DecBranch(pos: nat, w: int): int {
    var x := w % FIELD;
    (if x >= 0x80_0000 then x - FIELD else x) * 4 + pos + 8
  }

  lemma OffsetOfAligned(pos: nat, addr: nat)
    requires pos % 4 == 0 && addr % 4 == 0
    ensures 4 * WordOffset(pos, addr) == addr - pos - 8
  {
    var d := addr - (pos + 8);
    var k := addr / 4 - pos / 4 - 2;
    assert addr == 4 * (addr / 4) && pos == 4 * (pos / 4) && d == 4 * k;
    if d < 0 {
      assert -d == 4 * -k;
    }
  }

  /** `decbranch` undoes `encbranch` on exactly the signed 24-bit word offsets. */
  lemma DecodesExactly(pos: nat, addr: nat)
    requires pos % 4 == 0 && addr % 4 == 0 && Accepted(pos, addr)
    ensures DecBranch(pos, EncBranch(pos, addr)) == addr <==> InField(pos, addr)
  {
    OffsetOfAligned(pos, addr);
    FieldWraps(WordOffset(pos, addr));
  }

  lemma FieldWraps(q: int)
    requires -FIELD <= q < FIELD
    ensures (0x0a00_0000 + q % FIELD) % FIELD == if q < 0 then q + FIELD else q
  {
    if q < 0 {
      assert q % FIELD == q + FIELD;
    } else {
      assert q % FIELD == q;
    }
  }

  /** The OR with the upper byte of an encoded offset: bits 1 and 3 become set. */
  function OrTen(b: int): int {
    b / 16 * 16 + NibbleOrTen(b % 16)
  }

  function NibbleOrTen(n: int): int {
    8 + n / 4 % 2 * 4 + 2 + n % 2
  }

  /** `*x &= 0xff000000; *x |= e` for an encoded offset e. */
  function Retarget(w: int, e: int): int {
    OrTen(w / FIELD) * FIELD + e % FIELD
  }

  /** A branch without link, taken under the condition cond. */
  predicate IsBranch(w: int, cond: nat) {
    w / FIELD == 16 * cond + 10
  }

  /** A new branch word: the condition in the top four bits, OR-ed with the offset. */
  function NewBranch(cond: nat, pos: nat, addr: nat): int {
    cond * 0x1000_0000 + EncBranch(pos, addr)
  }

  /** The range that is accepted and the range that is reached, in bytes. */
  lemma RangesExactly(pos: nat, addr: nat)
    requires pos % 4 == 0 && addr % 4 == 0
    ensures Accepted(pos, addr) <==> -0x400_0000 <= addr - pos - 8 < 0x400_0000
    ensures InField(pos, addr) <==> -0x200_0000 <= addr - pos - 8 < 0x200_0000
  {
    OffsetOfAligned(pos, addr);
  }

  /** `b .`, `beq .+8` and `bne .+4` and where they go. */
  lemma KnownBranches(p: nat)
    ensures IsBranch(0xeaff_fffe, 14) && DecBranch(p, 0xeaff_fffe) == p
    ensures IsBranch(0x0a00_0000, 0) && DecBranch(p, 0x0a00_0000) == p + 8
    ensures IsBranch(0x1aff_ffff, 1) && DecBranch(p, 0x1aff_ffff) == p + 4
    ensures NewBranch(1, p, p + 8) == 0x1a00_0000 && NewBranch(14, p, p) == 0xeaff_fffe
    ensures Patch(0x1a00_0000, p, p + 4) == 0xe1a0_0000
  {
  }

  lemma NewBranchIs(cond: nat, pos: nat, addr: nat)
    requires pos % 4 == 0 && addr % 4 == 0 && InField(pos, addr)
    ensures IsBranch(NewBranch(cond, pos, addr), cond) && DecBranch(pos, NewBranch(cond, pos, addr)) == addr
  {
    DecodesExactly(pos, addr);
    var x := WordOffset(pos, addr) % FIELD;
    assert NewBranch(cond, pos, addr) == (16 * cond + 10) * FIELD + x;
    SplitWord(16 * cond + 10, x);
  }

  /** A new branch points to the address if and only if its offset fits the field. */
  lemma NewBranchPoints(cond: nat, pos: nat, addr: nat)
    requires pos % 4 == 0 && addr % 4 == 0 && Accepted(pos, addr)
    ensures DecBranch(pos, NewBranch(cond, pos, addr)) == addr <==> InField(pos, addr)
  {
    hide InField, Accepted, DecBranch;
    DecodesExactly(pos, addr);
    var x := WordOffset(pos, addr) % FIELD;
    assert NewBranch(cond, pos, addr) == (16 * cond + 10) * FIELD + x && EncBranch(pos, addr) == 10 * FIELD + x;
    SplitWord(16 * cond + 10, x);
    SplitWord(10, x);
    SameField(pos, NewBranch(cond, pos, addr), EncBranch(pos, addr));
  }

  lemma SplitWord(top: nat, low: int)
    requires 0 <= low < FIELD
    ensures (top * FIELD + low) / FIELD == top && (top * FIELD + low) % FIELD == low
  {
  }

  lemma RetargetFields(w: int, cond: nat, e: int)
    requires IsBranch(w, cond)
    ensures IsBranch(Retarget(w, e), cond) && Retarget(w, e) % FIELD == e % FIELD
  {
    hide OrTen;
    TenKept(cond);
    var low := e % FIELD;
    SplitWord(16 * cond + 10, low);
  }

  lemma TenKept(cond: nat)
    ensures OrTen(16 * cond + 10) == 16 * cond + 10
  {
    var b := 16 * cond + 10;
    assert b / 16 == cond && b % 16 == 10;
  }

  lemma SameField(pos: nat, w: int, w': int)
    requires w % FIELD == w' % FIELD
    ensures DecBranch(pos, w) == DecBranch(pos, w')
  {
  }

  /** Retargeting keeps the condition and the branch, and stores the new offset. */
  lemma RetargetIs(w: int, cond: nat, pos: nat, addr: nat)
    requires IsBranch(w, cond) && pos % 4 == 0 && addr % 4 == 0 && Accepted(pos, addr)
    ensures IsBranch(Retarget(w, EncBranch(pos, addr)), cond)
    ensures DecBranch(pos, Retarget(w, EncBranch(pos, addr))) == addr <==> InField(pos, addr)
  {
    hide *;
    var e := EncBranch(pos, addr);
    DecodesExactly(pos, addr);
    RetargetFields(w, cond, e);
    SameField(pos, Retarget(w, e), e);
  }

  // ----- links and patches -----

  /** Where the branch at byte offset 4 * k points, for every word k. */
  function Links(data: seq<int>): (r: seq<int>)
    ensures |r| == |data| && forall k :: 0 <= k < |data| ==> r[k] == DecBranch(4 * k, data[k])
  {
    seq(|data|, k requires 0 <= k < |data| => DecBranch(4 * k, data[k]))
  }

  /** The word that `gsym_addr` leaves at p for the label a. */
  function Patch(w: int, p: nat, a: nat): int {
    if a == p + 4 then NOP else Retarget(w, EncBranch(p, a))
  }

  ghost predicate Patched(before: seq<int>, after: seq<int>, c: seq<nat>, a: nat) {
    && |after| == |before|
    && forall k :: 0 <= k < |before| ==> after[k] == if 4 * k in c then Patch(before[k], 4 * k, a) else before[k]
  }

  ghost predicate AllAccepted(c: seq<nat>, a: nat) {
    forall i :: 0 <= i < |c| ==> a == c[i] + 4 || Accepted(c[i], a)
  }

  ghost predicate AllInField(c: seq<nat>, a: nat) {
    forall i :: 0 <= i < |c| ==> InField(c[i], a)
  }

  /** Under the condition cond, and only then, control goes from p to a; a
      NOP stands for a jump to the next word. */
  predicate Arrives(data: seq<int>, p: nat, cond: nat, a: int) {
    p % 4 == 0 && p / 4 < |data| &&
    ((data[p / 4] == NOP && a == p + 4) || (IsBranch(data[p / 4], cond) && DecBranch(p, data[p / 4]) == a))
  }

  lemma PatchArrives(w: int, cond: nat, p: nat, a: nat)
    requires IsBranch(w, cond) && p % 4 == 0 && a % 4 == 0 && (a == p + 4 || Accepted(p, a))
    ensures var w' := Patch(w, p, a);
      (w' == NOP && a == p + 4) || (IsBranch(w', cond) && (DecBranch(p, w') == a <==> InField(p, a)))
  {
    if a != p + 4 {
      RetargetIs(w, cond, p, a);
    }
  }

  // ----- the state of the generator -----

  /** The word at p is a branch under the condition it was emitted with. */
  predicate BranchAt(data: seq<int>, p: nat, conds: map<nat, nat>) {
    p in conds && p / 4 < |data| && IsBranch(data[p / 4], conds[p])
  }

  /** The words of the pending lists are branches that keep their conditions. */
  ghost predicate Branches(data: seq<int>, lists: Lists, conds: map<nat, nat>) {
    forall h, p {:trigger p in lists[h]} :: h in lists && p in lists[h] ==> BranchAt(data, p, conds)
  }

  ghost predicate Resolved(data: seq<int>, lists: Lists, conds: map<nat, nat>, labels: map<nat, nat>, limit: nat) {
    && (forall p :: p in labels ==> p < limit && p in conds && Arrives(data, p, conds[p], labels[p]))
    && (forall p, h :: p in labels && h in lists ==> p !in lists[h])
  }

  ghost predicate Consistent(data: seq<int>, ind: nat, lists: Lists, conds: map<nat, nat>, labels: map<nat, nat>) {
    && 0 < ind <= 4 * |data| && ind % 4 == 0 && ind < LIMIT
    && Tidy(lists, Links(data), ind)
    && Branches(data, lists, conds)
    && Resolved(data, lists, conds, labels, ind)
    && Accounted(conds.Keys, lists, labels)
  }

  ghost predicate Stored(before: seq<int>, data: seq<int>, r: nat, w: int) {
    && r / 4 < |data| && data[r / 4] == w && |before| <= |data|
    && forall k :: 0 <= k < |before| && k != r / 4 ==> data[k] == before[k]
  }

  lemma LinksStored(before: seq<int>, data: seq<int>, r: nat, w: int)
    requires Stored(before, data, r, w) && r % 4 == 0
    ensures |Links(before)| <= |Links(data)| && r / 4 < |Links(data)| && Links(data)[r / 4] == DecBranch(r, w)
    ensures forall k :: 0 <= k < |Links(before)| && k != r / 4 ==> Links(data)[k] == Links(before)[k]
  {
    hide DecBranch;
    assert 4 * (r / 4) == r;
    forall k | 0 <= k < |Links(before)| && k != r / 4 ensures Links(data)[k] == Links(before)[k] {
      assert data[k] == before[k];
    }
  }

  lemma OtherWord(before: seq<int>, data: seq<int>, r: nat, w: int, p: nat)
    requires Stored(before, data, r, w) && r % 4 == 0 && p % 4 == 0 && p != r && p / 4 < |before|
    ensures p / 4 < |data| && data[p / 4] == before[p / 4]
  {
  }

  lemma ResolvedKept(before: seq<int>, data: seq<int>, r: nat, w: int, lists: Lists, lists': Lists,
                     conds: map<nat, nat>, labels: map<nat, nat>, limit: nat, limit': nat)
    requires Resolved(before, lists, conds, labels, limit) && limit <= limit' && Stored(before, data, r, w) &&
      r % 4 == 0
    requires r !in labels && forall p, h :: p in labels && h in lists' ==> p !in lists'[h]
    ensures Resolved(data, lists', conds, labels, limit')
  {
    hide Stored, IsBranch, DecBranch;
    forall p | p in labels ensures p < limit' && p in conds && Arrives(data, p, conds[p], labels[p]) {
      assert Arrives(before, p, conds[p], labels[p]);
      OtherWord(before, data, r, w, p);
    }
  }

  lemma JumpBranches(before: seq<int>, data: seq<int>, ind: nat, w: int, cond: nat, t: nat, lists: Lists,
                     conds: map<nat, nat>)
    requires Tidy(lists, Links(before), ind) && Branches(before, lists, conds) && Known(lists, t)
    requires ind % 4 == 0 && Stored(before, data, ind, w) && IsBranch(w, cond)
    ensures Branches(data, Pushed(lists, ind, t), conds[ind := cond])
  {
    hide Tidy, IsBranch, Links;
    var next, conds' := Pushed(lists, ind, t), conds[ind := cond];
    forall h, p | h in next && p in next[h] ensures BranchAt(data, p, conds') {
      if p != ind {
        var g := if h == ind then t else h;
        assert p in lists[g];
        Member(lists, Links(before), ind, g, p);
        OtherWord(before, data, ind, w, p);
      }
    }
  }

  lemma PushKeepsResolved(lists: Lists, labels: map<nat, nat>, r: nat, t: nat)
    requires Known(lists, t) && r !in labels && forall p, h :: p in labels && h in lists ==> p !in lists[h]
    ensures forall p, h :: p in labels && h in Pushed(lists, r, t) ==> p !in Pushed(lists, r, t)[h]
  {
    forall p, h | p in labels && h in Pushed(lists, r, t) ensures p !in Pushed(lists, r, t)[h] {
      assert h != r ==> h in lists;
    }
  }

  lemma NoName(lists: Lists, links: seq<int>, limit: nat)
    requires Tidy(lists, links, limit)
    ensures forall h :: h in lists ==> 0 < h < limit
  {
    forall h | h in lists ensures 0 < h < limit {
      assert lists[h][0] == h;
    }
  }

  lemma JumpConsistent(before: seq<int>, data: seq<int>, ind: nat, cond: nat, t: nat, w: int,
                       lists: Lists, conds: map<nat, nat>, labels: map<nat, nat>)
    requires Consistent(before, ind, lists, conds, labels) && ind + 4 < LIMIT && Known(lists, t) && InField(ind, t)
    requires Stored(before, data, ind, w) && w == NewBranch(cond, ind, t) && t % 4 == 0
    ensures Consistent(data, ind + 4, Pushed(lists, ind, t), conds[ind := cond], labels)
  {
    hide Tidy, Branches, Links, NewBranch, DecBranch, IsBranch, InField, Accounted, Stored;
    NewBranchIs(cond, ind, t);
    LinksStored(before, data, ind, w);
    NoName(lists, Links(before), ind);
    PushTidy(lists, Links(before), Links(data), ind, t);
    PushAccounted(conds.Keys, lists, labels, ind, t);
    assert conds[ind := cond].Keys == conds.Keys + {ind};
    PushKeepsResolved(lists, labels, ind, t);
    var conds' := conds[ind := cond];
    assert Resolved(before, lists, conds', labels, ind);
    ResolvedKept(before, data, ind, w, lists, Pushed(lists, ind, t), conds', labels, ind, ind + 4);
    JumpBranches(before, data, ind, w, cond, t, lists, conds);
    assert ind + 4 <= 4 * |data|;
  }

  /** Emitting any other word at the end of the code. */
  lemma EmitConsistent(before: seq<int>, data: seq<int>, ind: nat, w: int, lists: Lists, conds: map<nat, nat>,
                       labels: map<nat, nat>)
    requires Consistent(before, ind, lists, conds, labels) && ind + 4 < LIMIT && Stored(before, data, ind, w)
    ensures Consistent(data, ind + 4, lists, conds, labels)
  {
    hide Tidy, Links, DecBranch, IsBranch, Accounted, Stored;
    LinksStored(before, data, ind, w);
    forall h | h in lists ensures Agree(Links(before), Links(data), lists[h]) {
      forall i | 0 <= i < |lists[h]| && lists[h][i] / 4 < |Links(before)|
        ensures lists[h][i] / 4 < |Links(data)| && Links(data)[lists[h][i] / 4] == Links(before)[lists[h][i] / 4]
      {
        Member(lists, Links(before), ind, h, lists[h][i]);
      }
    }
    Kept(lists, Links(before), Links(data), ind, ind + 4);
    forall h, p | h in lists && p in lists[h] ensures BranchAt(data, p, conds) {
      Member(lists, Links(before), ind, h, p);
      OtherWord(before, data, ind, w, p);
    }
    ResolvedKept(before, data, ind, w, lists, lists, conds, labels, ind, ind + 4);
  }

  lemma JoinBranches(before: seq<int>, data: seq<int>, ind: nat, n: nat, t: nat, last: nat, w: int, lists: Lists,
                     conds: map<nat, nat>)
    requires Tidy(lists, Links(before), ind) && Branches(before, lists, conds) && Known(lists, t) && n in lists &&
      n != 0
    requires last in lists[n] && last in conds && IsBranch(w, conds[last]) && Stored(before, data, last, w)
    ensures Branches(data, Joined(lists, n, t), conds)
  {
    hide Tidy, IsBranch, Links;
    var next := Joined(lists, n, t);
    Member(lists, Links(before), ind, n, last);
    forall h, p | h in next && p in next[h] ensures BranchAt(data, p, conds) {
      if p != last {
        var g := if h != n || p in lists[n] then h else t;
        assert p in lists[g];
        Member(lists, Links(before), ind, g, p);
        OtherWord(before, data, last, w, p);
      }
    }
  }

  lemma JoinKeepsResolved(lists: Lists, labels: map<nat, nat>, n: nat, t: nat)
    requires Known(lists, t) && n in lists && forall p, h :: p in labels && h in lists ==> p !in lists[h]
    ensures forall p, h :: p in labels && h in Joined(lists, n, t) ==> p !in Joined(lists, n, t)[h]
  {
    forall p, h | p in labels && h in Joined(lists, n, t) ensures p !in Joined(lists, n, t)[h] {
      assert h != n ==> h in lists;
    }
  }

  /** What `gjmp_append` may use about the last branch of a list. */
  lemma LastBranch(data: seq<int>, ind: nat, n: nat, lists: Lists, conds: map<nat, nat>, labels: map<nat, nat>)
    requires Consistent(data, ind, lists, conds, labels) && n in lists
    ensures n != 0 && lists[n] != []
    ensures var last := lists[n][|lists[n]| - 1];
      0 < last < ind && last % 4 == 0 && last / 4 < |data| && last in conds && IsBranch(data[last / 4], conds[last])
  {
    hide IsBranch, Chain, Distinct, Links, Resolved, Accounted, Apart;
    NoName(lists, Links(data), ind);
    assert lists[n] != [];
    var last := lists[n][|lists[n]| - 1];
    assert last in lists[n];
    Member(lists, Links(data), ind, n, last);
  }

  lemma JoinConsistent(before: seq<int>, data: seq<int>, ind: nat, n: nat, t: nat, last: nat, w: int,
                       lists: Lists, conds: map<nat, nat>, labels: map<nat, nat>)
    requires Consistent(before, ind, lists, conds, labels) && n in lists && Known(lists, t) && n != t && n != 0
    requires lists[n] != [] && last == lists[n][|lists[n]| - 1] && last / 4 < |before| && t % 4 == 0
    requires w == Retarget(before[last / 4], EncBranch(last, t)) && InField(last, t) && data == before[last / 4 := w]
    ensures Consistent(data, ind, Joined(lists, n, t), conds, labels)
  {
    hide Tidy, Branches, Links, DecBranch, IsBranch, InField, Accounted, EncBranch, Retarget, Accepted;
    LastBranch(before, ind, n, lists, conds, labels);
    FieldAccepted(last, t);
    RetargetIs(before[last / 4], conds[last], last, t);
    assert Stored(before, data, last, w);
    LinksStored(before, data, last, w);
    JoinTidy(lists, Links(before), Links(data), ind, n, t);
    NoName(lists, Links(before), ind);
    JoinAccounted(conds.Keys, lists, labels, n, t);
    JoinKeepsResolved(lists, labels, n, t);
    assert last in lists[n];
    ResolvedKept(before, data, last, w, lists, Joined(lists, n, t), conds, labels, ind, ind);
    JoinBranches(before, data, ind, n, t, last, w, lists, conds);
  }

  function Last(c: seq<nat>): nat
    requires c != []
  {
    c[|c| - 1]
  }

  lemma PendingAligned(data: seq<int>, ind: nat, t: nat, lists: Lists, conds: map<nat, nat>, labels: map<nat, nat>)
    requires Consistent(data, ind, lists, conds, labels) && Known(lists, t)
    ensures t % 4 == 0 && 0 < ind <= 4 * |data| && ind % 4 == 0
  {
    if t != 0 {
      assert lists[t][0] == t;
      Member(lists, Links(data), ind, t, t);
    }
  }

  lemma PendingWalk(data: seq<int>, ind: nat, t: nat, lists: Lists, conds: map<nat, nat>, labels: map<nat, nat>)
    requires Consistent(data, ind, lists, conds, labels) && Known(lists, t)
    ensures Chain(Links(data), ListOf(lists, t), ind) && Distinct(ListOf(lists, t))
    ensures t == if ListOf(lists, t) == [] then 0 else ListOf(lists, t)[0]
  {
    PendingList(lists, Links(data), ind, t);
  }

  /** `decbranch` on the i-th branch of a list finds the next. */
  lemma Follow(data: seq<int>, c: seq<nat>, i: nat, limit: nat)
    requires i < |c| && Chain(Links(data), c, limit)
    ensures c[i] % 4 == 0 && c[i] / 4 < |data| && DecBranch(c[i], data[c[i] / 4]) == After(c, i)
  {
    hide DecBranch;
    assert 4 * (c[i] / 4) == c[i] && Links(data)[c[i] / 4] == After(c, i);
  }

  lemma EndsAtLast(data: seq<int>, c: seq<nat>, i: nat, limit: nat)
    requires i < |c| && Chain(Links(data), c, limit) && After(c, i) == 0
    ensures i == |c| - 1 && c[i] in c && 4 * (c[i] / 4) == c[i] && c[i] / 4 < |data|
  {
  }

  lemma FieldAccepted(pos: nat, addr: nat)
    requires InField(pos, addr)
    ensures Accepted(pos, addr)
  {
  }

  // ----- resolving a list -----

  lemma NothingPatched(data: seq<int>, a: nat)
    ensures Patched(data, data, [], a) && AllAccepted([], a)
  {
  }

  lemma NotYet(before: seq<int>, data: seq<int>, c: seq<nat>, i: nat, a: nat, limit: nat)
    requires i < |c| && Distinct(c) && Chain(Links(before), c, limit) && Patched(before, data, c[..i], a)
    ensures c[i] > 0 && c[i] % 4 == 0 && c[i] / 4 < |data| && data[c[i] / 4] == before[c[i] / 4]
    ensures DecBranch(c[i], data[c[i] / 4]) == After(c, i)
  {
    hide DecBranch;
    assert 4 * (c[i] / 4) == c[i] && c[i] !in c[..i];
    assert Links(before)[c[i] / 4] == After(c, i);
  }

  lemma PatchedNext(before: seq<int>, prev: seq<int>, data: seq<int>, c: seq<nat>, i: nat, a: nat)
    requires i < |c| && c[i] % 4 == 0 && c[i] / 4 < |prev| && Patched(before, prev, c[..i], a) && c[i] !in c[..i]
    requires data == prev[c[i] / 4 := Patch(prev[c[i] / 4], c[i], a)]
    requires AllAccepted(c[..i], a) && (a == c[i] + 4 || Accepted(c[i], a))
    ensures Patched(before, data, c[..i + 1], a) && AllAccepted(c[..i + 1], a)
  {
    hide Patch, Accepted;
    assert c[..i + 1] == c[..i] + [c[i]];
    assert 4 * (c[i] / 4) == c[i];
  }

  lemma NotAllAccepted(c: seq<nat>, i: nat, a: nat)
    requires i < |c| && a != c[i] + 4 && !Accepted(c[i], a)
    ensures !AllAccepted(c, a)
  {
  }

  lemma AllArrive(before: seq<int>, data: seq<int>, ind: nat, t: nat, a: nat, lists: Lists, conds: map<nat, nat>)
    requires Tidy(lists, Links(before), ind) && Branches(before, lists, conds) && Known(lists, t) && a % 4 == 0
    requires Patched(before, data, ListOf(lists, t), a) && AllInField(ListOf(lists, t), a)
    ensures forall p :: p in ListOf(lists, t) ==> p < ind && p in conds && Arrives(data, p, conds[p], a)
  {
    hide Tidy, IsBranch, DecBranch, Patch, InField, Links, Accepted;
    var c := ListOf(lists, t);
    forall p | p in c ensures p < ind && p in conds && Arrives(data, p, conds[p], a) {
      Member(lists, Links(before), ind, t, p);
      assert 4 * (p / 4) == p;
      var i :| 0 <= i < |c| && c[i] == p;
      FieldAccepted(p, a);
      PatchArrives(before[p / 4], conds[p], p, a);
    }
  }

  /** Which branches of a patched list arrive. */
  lemma ArriveExactly(before: seq<int>, data: seq<int>, ind: nat, t: nat, a: nat, lists: Lists, conds: map<nat, nat>,
                      labels: map<nat, nat>)
    requires Consistent(before, ind, lists, conds, labels) && Known(lists, t) && a % 4 == 0
    requires Patched(before, data, ListOf(lists, t), a) && AllAccepted(ListOf(lists, t), a)
    ensures forall p :: p in ListOf(lists, t) ==>
      p in conds && (Arrives(data, p, conds[p], a) <==> a == p + 4 || InField(p, a))
  {
    hide Tidy, IsBranch, DecBranch, InField, Links, Accepted, Retarget, EncBranch, Resolved, Accounted;
    var c := ListOf(lists, t);
    forall p | p in c ensures p in conds && (Arrives(data, p, conds[p], a) <==> a == p + 4 || InField(p, a)) {
      Member(lists, Links(before), ind, t, p);
      assert 4 * (p / 4) == p;
      var i :| 0 <= i < |c| && c[i] == p;
      PatchArrives(before[p / 4], conds[p], p, a);
    }
  }

  lemma UnpatchedWord(before: seq<int>, data: seq<int>, c: seq<nat>, a: nat, p: nat)
    requires Patched(before, data, c, a) && p % 4 == 0 && p / 4 < |before| && p !in c
    ensures p / 4 < |data| && data[p / 4] == before[p / 4]
  {
    assert 4 * (p / 4) == p;
  }

  lemma ResolveBranches(before: seq<int>, data: seq<int>, ind: nat, t: nat, a: nat, lists: Lists, conds: map<nat, nat>)
    requires Tidy(lists, Links(before), ind) && Branches(before, lists, conds) && Known(lists, t)
    requires Patched(before, data, ListOf(lists, t), a)
    ensures Branches(data, lists - {t}, conds)
  {
    hide IsBranch, Patched, Links, Sound;
    var next := lists - {t};
    forall h, p | h in next && p in next[h] ensures BranchAt(data, p, conds) {
      Member(lists, Links(before), ind, h, p);
      assert p !in ListOf(lists, t);
      UnpatchedWord(before, data, ListOf(lists, t), a, p);
    }
  }

  lemma LinksPatched(before: seq<int>, data: seq<int>, c: seq<nat>, a: nat)
    requires Patched(before, data, c, a)
    ensures |Links(data)| == |Links(before)|
    ensures forall k :: 0 <= k < |Links(before)| && 4 * k !in c ==> Links(data)[k] == Links(before)[k]
  {
    hide DecBranch, Patch;
    forall k | 0 <= k < |Links(before)| && 4 * k !in c ensures Links(data)[k] == Links(before)[k] {
      assert data[k] == before[k];
    }
  }

  lemma ResolveLabels(before: seq<int>, data: seq<int>, ind: nat, t: nat, a: nat, lists: Lists,
                      conds: map<nat, nat>, labels: map<nat, nat>)
    requires Known(lists, t) && Resolved(before, lists, conds, labels, ind) && Apart(lists)
    requires Patched(before, data, ListOf(lists, t), a)
    requires forall p :: p in ListOf(lists, t) ==> p < ind && p in conds && Arrives(data, p, conds[p], a)
    ensures Resolved(data, lists - {t}, conds, Labelled(labels, ListOf(lists, t), a), ind)
  {
    hide IsBranch, DecBranch, Patched;
    var c := ListOf(lists, t);
    var labels' := Labelled(labels, c, a);
    forall p | p in labels' ensures p < ind && p in conds && Arrives(data, p, conds[p], labels'[p]) {
      if p !in c {
        assert Arrives(before, p, conds[p], labels[p]);
        UnpatchedWord(before, data, c, a, p);
      }
    }
    forall p, h | p in labels' && h in lists - {t} ensures p !in lists[h] {
      assert p in labels || p in lists[t];
    }
  }

  lemma ResolveConsistent(before: seq<int>, data: seq<int>, ind: nat, t: nat, a: nat,
                          lists: Lists, conds: map<nat, nat>, labels: map<nat, nat>)
    requires Consistent(before, ind, lists, conds, labels) && Known(lists, t) && a % 4 == 0
    requires Patched(before, data, ListOf(lists, t), a) && AllInField(ListOf(lists, t), a)
    ensures Consistent(data, ind, lists - {t}, conds, Labelled(labels, ListOf(lists, t), a))
    ensures forall p :: p in ListOf(lists, t) ==> p < ind && p in conds && Arrives(data, p, conds[p], a)
  {
    hide Branches, Links, Accounted, Arrives, AllInField, Patch, Sound;
    NoName(lists, Links(before), ind);
    AllArrive(before, data, ind, t, a, lists, conds);
    LinksPatched(before, data, ListOf(lists, t), a);
    Dropped(lists, Links(before), Links(data), ind, t);
    DropAccounted(conds.Keys, lists, labels, t, a);
    ResolveBranches(before, data, ind, t, a, lists, conds);
    ResolveLabels(before, data, ind, t, a, lists, conds, labels);
  }

  class Code {
    var data: seq<int>
    var ind: nat
    ghost var lists: Lists
    ghost var conds: map<nat, nat>
    ghost var labels: map<nat, nat>

    ghost predicate Valid()
      reads this
    {
      Consistent(data, ind, lists, conds, labels)
    }

    /** Code without pending jumps; offset 0 is taken, so no jump is named 0. */
    constructor (code: seq<int>)
      requires 0 < |code| && 4 * |code| < LIMIT
      ensures Valid() && data == code && ind == 4 * |code| && lists == map[] && conds == map[] && labels == map[]
    {
      data, ind := code, 4 * |code|;
      lists, conds, labels := map[], map[], map[];
    }

    /** `o`: store a word at the cursor. */
    method O(w: int)
      requires Valid() && ind + 4 < LIMIT
      modifies this
      ensures Valid() && ind == old(ind) + 4 && Stored(old(data), data, old(ind), w)
      ensures lists == old(lists) && conds == old(conds) && labels == old(labels)
    {
      hide Tidy, Branches, Resolved, Accounted;
      ghost var before := data;
      data := if ind / 4 < |data| then data[ind / 4 := w] else data + [w];
      EmitConsistent(before, data, ind, w, lists, conds, labels);
      ind := ind + 4;
    }

    /** `gjmp` (cond 14) and `gjmp_cond`: a branch in front of the list t. An
        offset outside the accepted range is a fatal error. */
    method Jump(cond: nat, t: nat) returns (ok: bool, r: nat)
      requires Valid() && Known(lists, t) && ind + 4 < LIMIT
      modifies this
      ensures ok == Accepted(old(ind), t) && r == old(ind)
      ensures !ok ==> data == old(data) && ind == old(ind)
      ensures ok ==> ind == old(ind) + 4 && Stored(old(data), data, r, NewBranch(cond, r, t))
      ensures ok ==> r / 4 < |data| && (DecBranch(r, data[r / 4]) == t <==> InField(r, t))
      ensures ok && InField(r, t) ==> Valid() && lists == Pushed(old(lists), r, t)
      ensures ok && InField(r, t) ==> conds == old(conds)[r := cond] && labels == old(labels)
    {
      hide Consistent, NewBranch, Accepted, InField, DecBranch;
      PendingAligned(data, ind, t, lists, conds, labels);
      r := ind;
      ok := Accepted(r, t);
      if ok {
        NewBranchPoints(cond, r, t);
        var w := NewBranch(cond, r, t);
        ghost var before := data;
        data := if ind / 4 < |data| then data[ind / 4 := w] else data + [w];
        ind := ind + 4;
        if InField(r, t) {
          JumpConsistent(before, data, r, cond, t, w, lists, conds, labels);
          lists, conds := Pushed(lists, r, t), conds[r := cond];
        }
      }
    }

    /** `gjmp_append`: the list t after the list n. */
    method Append(n: nat, t: nat) returns (ok: bool, r: nat)
      requires Valid() && Known(lists, n) && Known(lists, t) && (n == t ==> n == 0)
      modifies this
      ensures ind == old(ind) && conds == old(conds) && labels == old(labels) && |data| == |old(data)|
      ensures forall k :: 0 <= k < |data| && 4 * k !in ListOf(old(lists), n) ==> data[k] == old(data)[k]
      ensures n != 0 ==> ListOf(old(lists), n) != [] && ok == Accepted(Last(ListOf(old(lists), n)), t)
      ensures n != 0 && ok ==> var last := Last(ListOf(old(lists), n));
        last / 4 < |data| && (DecBranch(last, data[last / 4]) == t <==> InField(last, t))
      ensures n == 0 ==> ok && r == t && lists == old(lists) && Valid()
      ensures n != 0 && ok && InField(Last(ListOf(old(lists), n)), t) ==>
        Valid() && r == n && lists == Joined(old(lists), n, t)
    {
      hide Consistent, DecBranch, Retarget, EncBranch, Accepted, InField, IsBranch, Chain, Distinct, Links;
      ok, r := true, t;
      if n != 0 {
        ghost var c, i := lists[n], 0;
        LastBranch(data, ind, n, lists, conds, labels);
        PendingAligned(data, ind, t, lists, conds, labels);
        PendingWalk(data, ind, n, lists, conds, labels);
        Follow(data, c, 0, ind);
        var lp := n;
        var p := DecBranch(lp, data[lp / 4]);
        while p != 0
          invariant 0 <= i < |c| && lp == c[i] && p == After(c, i)
          invariant data == old(data) && ind == old(ind) && lists == old(lists) && conds == old(conds) &&
            labels == old(labels)
          decreases |c| - i
        {
          Follow(data, c, i, ind);
          i := i + 1;
          Follow(data, c, i, ind);
          lp := p;
          p := DecBranch(lp, data[lp / 4]);
        }
        EndsAtLast(data, c, i, ind);
        ok := Accepted(lp, t);
        if ok {
          ghost var before := data;
          RetargetIs(data[lp / 4], conds[lp], lp, t);
          data := data[lp / 4 := Retarget(data[lp / 4], EncBranch(lp, t))];
          if InField(lp, t) {
            JoinConsistent(before, data, ind, n, t, lp, data[lp / 4], lists, conds, labels);
            lists := Joined(lists, n, t);
          }
        }
        r := n;
      }
    }

    /** `gsym_addr`: every jump of the list t goes to the label a, under the
        condition it had. An offset that is not accepted is a fatal error. */
    method Resolve(t: nat, a: nat) returns (ok: bool)
      requires Valid() && Known(lists, t) && a < LIMIT && a % 4 == 0
      modifies this
      ensures ind == old(ind) && conds == old(conds) && ok == AllAccepted(ListOf(old(lists), t), a)
      ensures ok ==> Patched(old(data), data, ListOf(old(lists), t), a)
      ensures ok ==> forall p :: p in ListOf(old(lists), t) ==>
                p in conds && (Arrives(data, p, conds[p], a) <==> a == p + 4 || InField(p, a))
      ensures ok && AllInField(ListOf(old(lists), t), a) ==> Valid() && lists == old(lists) - {t}
      ensures ok && AllInField(ListOf(old(lists), t), a) ==> labels == Labelled(old(labels), ListOf(old(lists), t), a)
      ensures ok && AllInField(ListOf(old(lists), t), a) ==>
                forall p :: p in ListOf(old(lists), t) ==> p in conds && Arrives(data, p, conds[p], a)
    {
      hide Consistent, Patched, AllAccepted, AllInField, Accepted, Arrives, DecBranch, Patch, InField;
      ghost var before, c, i := data, ListOf(lists, t), 0;
      PendingWalk(data, ind, t, lists, conds, labels);
      NothingPatched(before, a);
      var p := t;
      while p != 0
        invariant 0 <= i <= |c| && p == (if i < |c| then c[i] else 0) && AllAccepted(c[..i], a)
        invariant Patched(before, data, c[..i], a)
        invariant ind == old(ind) && lists == old(lists) && conds == old(conds) && labels == old(labels)
        decreases |c| - i
      {
        NotYet(before, data, c, i, a, ind);
        var next := DecBranch(p, data[p / 4]);
        if a != p + 4 && !Accepted(p, a) {
          NotAllAccepted(c, i, a);
          return false;
        }
        ghost var prev := data;
        data := data[p / 4 := Patch(data[p / 4], p, a)];
        PatchedNext(before, prev, data, c, i, a);
        i := i + 1;
        p := next;
      }
      assert i == |c| && c[..i] == c;
      ok := true;
      ArriveExactly(before, data, ind, t, a, lists, conds, labels);
      if AllInField(c, a) {
        ResolveConsistent(before, data, ind, t, a, lists, conds, labels);
        lists, labels := lists - {t}, Labelled(labels, c, a);
      }
    }
  }
}
