/** VFP argument registers of the 32-bit ARM generator: `assign_vfpreg`
    (AAPCS, IHI 0042, section 6.1.2.3). */
module VfpArgs {

  const NONE: int := -1
  const REGS: nat := 16 // s0 to s15
  const HOLES: nat := 4

  /** A float, a double, or a homogeneous aggregate of up to four of one of them. */
  datatype Arg = Arg(align: nat, size: nat)

  predicate Candidate(a: Arg) {
    (a.align == 4 && 4 <= a.size <= 16 && a.size % 4 == 0) || (a.align == 8 && 8 <= a.size <= 32 && a.size % 8 == 0)
  }

  function Regs(a: Arg): nat {
    a.size / 4
  }

  /** Registers skipped for alignment, how many of them were filled, and the
      next register in sequence, or NONE once an argument did not fit. */
  datatype Avail = Avail(holes: seq<int>, filled: nat, free: int)

  /** The registers of an argument, for the rules of the standard: a single
      float goes to the lowest skipped register, anything else to the next one
      in sequence, even for a double; after one failure all go to the stack. */
  function Place(s: Avail, a: Arg): int
    requires s.filled <= |s.holes|
  {
    if s.free == NONE then NONE
    else if a.align < 8 && a.size == 4 && s.filled < |s.holes| then s.holes[s.filled]
    else if Aligned(s.free, a) + Regs(a) <= REGS then Aligned(s.free, a)
    else NONE
  }

  function Aligned(free: int, a: Arg): int {
    if a.align >= 8 && free % 2 == 1 then free + 1 else free
  }

  function Next(s: Avail, a: Arg): Avail
    requires s.filled <= |s.holes|
  {
    if s.free == NONE then s
    else if a.align < 8 && a.size == 4 && s.filled < |s.holes| then s.(filled := s.filled + 1)
    else
      var holes := if Aligned(s.free, a) != s.free then s.holes + [s.free] else s.holes;
      Avail(holes, s.filled, if Aligned(s.free, a) + Regs(a) <= REGS then Aligned(s.free, a) + Regs(a) else NONE)
  }

  // ----- what every assignment keeps -----

  /** The skipped registers are odd, at least four apart, below the sequence,
      and still free from `filled` on; `used` are the registers handed out. */
  ghost predicate Sound(s: Avail, used: set<int>) {
    && -1 <= s.free <= REGS && s.filled <= |s.holes| <= HOLES
    && (forall k :: 0 <= k < |s.holes| ==> s.holes[k] % 2 == 1 && 4 * k + 1 <= s.holes[k] < REGS)
    && (forall j, k :: 0 <= j < k < |s.holes| ==> s.holes[j] + 4 <= s.holes[k])
    && (forall k :: s.filled <= k < |s.holes| ==> s.holes[k] !in used)
    && (forall r :: r in used ==> 0 <= r < REGS)
    && (s.free != NONE ==>
          && (forall r :: r in used ==> r < s.free)
          && (forall k :: 0 <= k < |s.holes| ==> s.holes[k] + 3 <= s.free))
  }

  function Range(first: int, n: nat): (s: set<int>)
    ensures forall r :: r in s <==> first <= r < first + n
  {
    if n == 0 then {} else Range(first, n - 1) + {first + n - 1}
  }

  /** The registers given to an argument. */
  function Given(s: Avail, a: Arg): set<int>
    requires s.filled <= |s.holes|
  {
    if Place(s, a) == NONE then {} else Range(Place(s, a), Regs(a))
  }

  /** No register is handed out twice or outside s0-s15; a register below the
      sequence is given only to a single float and was skipped before. */
  lemma NextSound(s: Avail, a: Arg, used: set<int>)
    requires Sound(s, used) && Candidate(a)
    ensures Sound(Next(s, a), used + Given(s, a))
    ensures Given(s, a) !! used && forall r :: r in Given(s, a) ==> 0 <= r < REGS
    ensures Place(s, a) != NONE && a.align >= 8 ==> Place(s, a) % 2 == 0
    ensures Place(s, a) != NONE && Place(s, a) < s.free ==> a == Arg(4, 4) && Place(s, a) in s.holes
  {
    hide Range;
    if s.free == NONE {
    } else if a.align < 8 && a.size == 4 && s.filled < |s.holes| {
      FillSound(s, a, used);
    } else {
      SequenceSound(s, a, used);
    }
  }

  /** A float that takes the lowest skipped register. */
  lemma FillSound(s: Avail, a: Arg, used: set<int>)
    requires Sound(s, used) && a == Arg(4, 4) && s.free != NONE && s.filled < |s.holes|
    ensures Sound(Next(s, a), used + Given(s, a)) && Given(s, a) !! used && Place(s, a) in s.holes
    ensures forall r :: r in Given(s, a) ==> 0 <= r < REGS
  {
    var h := s.holes[s.filled];
    assert Given(s, a) == {h};
    hide Range, Given;
  }

  /** An argument that takes the next registers in sequence, or none. */
  lemma SequenceSound(s: Avail, a: Arg, used: set<int>)
    requires Sound(s, used) && Candidate(a) && s.free != NONE && !(a.align < 8 && a.size == 4 && s.filled < |s.holes|)
    ensures Place(s, a) != NONE ==> Place(s, a) >= s.free
    ensures Sound(Next(s, a), used + Given(s, a)) && Given(s, a) !! used
    ensures forall r :: r in Given(s, a) ==> 0 <= r < REGS
    ensures Place(s, a) != NONE && a.align >= 8 ==> Place(s, a) % 2 == 0
  {
    hide Range, Candidate, Regs, Sound;
    var first := Aligned(s.free, a);
    TwoRegs(a);
    StopSound(s, used);
    if first != s.free {
      NewHole(s, used);
    }
    var holes := if first != s.free then s.holes + [s.free] else s.holes;
    if first + Regs(a) <= REGS {
      TakeSound(Avail(holes, s.filled, NONE), used, first, Regs(a));
    } else {
      assert used + {} == used;
    }
  }

  /** What holds of the next register, and that the sequence may stop. */
  lemma StopSound(s: Avail, used: set<int>)
    requires Sound(s, used) && s.free != NONE
    ensures 0 <= s.free <= REGS && (forall r :: r in used ==> r < s.free)
    ensures forall k :: 0 <= k < |s.holes| ==> s.holes[k] + 3 <= s.free
    ensures s.free % 2 == 1 ==>
      4 * |s.holes| + 1 <= s.free < REGS && (|s.holes| > 0 ==> s.holes[|s.holes| - 1] + 4 <= s.free)
    ensures Sound(s.(free := NONE), used)
  {
    var n := |s.holes|;
    if n > 0 && s.free % 2 == 1 {
      assert s.holes[n - 1] % 2 == 1 && s.holes[n - 1] + 3 <= s.free && 4 * (n - 1) + 1 <= s.holes[n - 1];
      OddGap(s.holes[n - 1], s.free);
    }
  }

  /** Taking n registers from `first` on, above all used ones. */
  lemma TakeSound(s: Avail, used: set<int>, first: int, n: nat)
    requires Sound(s, used) && s.free == NONE && n >= 1 && 0 <= first && first + n <= REGS
    requires forall r :: r in used ==> r < first
    requires forall k :: 0 <= k < |s.holes| ==> s.holes[k] < first && s.holes[k] + 3 <= first + n
    ensures Sound(s.(free := first + n), used + Range(first, n)) && Range(first, n) !! used
  {
  }

  lemma TwoRegs(a: Arg)
    requires Candidate(a)
    ensures Regs(a) >= 1 && (a.align >= 8 ==> Regs(a) >= 2)
  {
  }

  /** Skipping the odd next register. */
  lemma NewHole(s: Avail, used: set<int>)
    requires Sound(s, used) && s.free != NONE && s.free % 2 == 1 && 4 * |s.holes| + 1 <= s.free < REGS
    requires |s.holes| > 0 ==> s.holes[|s.holes| - 1] + 4 <= s.free
    ensures Sound(Avail(s.holes + [s.free], s.filled, NONE), used)
  {
    var holes := s.holes + [s.free];
    forall j, k | 0 <= j < k < |holes| ensures holes[j] + 4 <= holes[k] {
      if k == |s.holes| && j < k - 1 {
        assert s.holes[j] + 4 <= s.holes[k - 1];
      }
    }
  }

  lemma OddGap(h: int, free: int)
    requires h % 2 == 1 && free % 2 == 1 && h + 3 <= free
    ensures h + 4 <= free
  {
  }

  // ----- the lowest registers that fit -----

  /** The registers of argument a are free from q on, and aligned. */
  predicate Fits(used: set<int>, a: Arg, q: int) {
    && 0 <= q && q + a.size / 4 <= 16 && (a.align == 8 ==> q % 2 == 0)
    && forall r :: q <= r < q + a.size / 4 ==> r !in used
  }

  /** Argument a gets the lowest registers that fit, and none if none do. */
  ghost predicate Lowest(used: set<int>, a: Arg, reg: int) {
    && (reg != NONE ==> Fits(used, a, reg))
    && forall q :: Fits(used, a, q) ==> reg != NONE && reg <= q
  }

  predicate StillHole(s: Avail, r: int) {
    exists k :: s.filled <= k < |s.holes| && s.holes[k] == r
  }

  /** Below the sequence only skipped registers are free. */
  ghost predicate Complete(s: Avail, used: set<int>) {
    s.free != NONE ==> forall r :: 0 <= r < s.free ==> r in used || StillHole(s, r)
  }

  lemma HolesOdd(s: Avail, used: set<int>)
    requires Sound(s, used)
    ensures forall r :: StillHole(s, r) ==> r % 2 == 1 && (s.free != NONE ==> r + 3 <= s.free)
  {
  }

  /** A free register below the sequence stands alone. */
  lemma HolesAlone(s: Avail, used: set<int>, q: int)
    requires Sound(s, used) && Complete(s, used) && s.free != NONE && 0 <= q < s.free && q !in used
    ensures q % 2 == 1 && q + 1 in used && StillHole(s, q)
  {
    hide Sound, StillHole;
    HolesOdd(s, used);
  }

  /** Only a single float fits below the sequence. */
  lemma FitsBelow(s: Avail, used: set<int>, a: Arg, q: int)
    requires Sound(s, used) && Complete(s, used) && s.free != NONE && Candidate(a) && Fits(used, a, q) && q < s.free
    ensures a == Arg(4, 4) && s.filled < |s.holes| && StillHole(s, q)
  {
    hide Complete, Sound;
    HolesAlone(s, used, q);
  }

  /** Any other argument fits only in the sequence. */
  lemma FitsAbove(s: Avail, used: set<int>, a: Arg, q: int)
    requires Sound(s, used) && Complete(s, used) && s.free != NONE && Candidate(a) && Fits(used, a, q)
    requires a != Arg(4, 4) || s.filled == |s.holes|
    ensures s.free <= q && Aligned(s.free, a) <= q && Aligned(s.free, a) + Regs(a) <= REGS
  {
    hide Complete, Sound;
    FreeRange(s, used);
    if q < s.free {
      FitsBelow(s, used, a, q);
    }
  }

  lemma FreeRange(s: Avail, used: set<int>)
    requires Sound(s, used)
    ensures -1 <= s.free <= REGS
  {
  }

  lemma PlaceLowest(s: Avail, a: Arg, used: set<int>)
    requires Sound(s, used) && Complete(s, used) && Candidate(a) && s.free != NONE
    ensures Lowest(used, a, Place(s, a))
  {
    var reg := Place(s, a);
    if a == Arg(4, 4) && s.filled < |s.holes| {
      forall q | Fits(used, a, q) ensures reg <= q {
        if q < s.free {
          assert q !in used;
          HolesAlone(s, used, q);
          var k :| s.filled <= k < |s.holes| && s.holes[k] == q;
        }
      }
    } else {
      forall q | Fits(used, a, q) ensures reg != NONE && reg <= q {
        FitsAbove(s, used, a, q);
      }
    }
  }

  lemma NextComplete(s: Avail, a: Arg, used: set<int>)
    requires Sound(s, used) && Complete(s, used) && Candidate(a)
    ensures Complete(Next(s, a), used + Given(s, a))
  {
    hide Range;
    var s', used' := Next(s, a), used + Given(s, a);
    if s'.free != NONE {
      forall r | 0 <= r < s'.free ensures r in used' || StillHole(s', r) {
        if r < s.free && r !in used {
          var k :| s.filled <= k < |s.holes| && s.holes[k] == r;
          assert s'.holes[k] == r;
        } else if r == s.free && s'.holes != s.holes {
          assert s'.holes[|s.holes|] == r;
        }
      }
    }
  }

  // ----- whole argument lists -----

  predicate Candidates(args: seq<Arg>) {
    forall i :: 0 <= i < |args| ==> Candidate(args[i])
  }

  /** The state before argument i. */
  function Before(args: seq<Arg>, i: nat): (s: Avail)
    requires i <= |args|
    ensures s.filled <= |s.holes|
  {
    if i == 0 then Avail([], 0, 0) else Next(Before(args, i - 1), args[i - 1])
  }

  ghost function Used(args: seq<Arg>, i: nat): set<int>
    requires i <= |args|
  {
    if i == 0 then {} else Used(args, i - 1) + Given(Before(args, i - 1), args[i - 1])
  }

  lemma {:induction false} AlwaysSound(args: seq<Arg>, i: nat)
    requires Candidates(args) && i <= |args|
    ensures Sound(Before(args, i), Used(args, i))
  {
    if i > 0 {
      AlwaysSound(args, i - 1);
      NextSound(Before(args, i - 1), args[i - 1], Used(args, i - 1));
    }
  }

  lemma {:induction false} UsedGrows(args: seq<Arg>, i: nat, j: nat)
    requires i < j <= |args|
    ensures Given(Before(args, i), args[i]) <= Used(args, j)
  {
    if i < j - 1 {
      UsedGrows(args, i, j - 1);
    }
  }

  /** No two arguments share a register. */
  lemma NeverTwice(args: seq<Arg>, i: nat, j: nat)
    requires Candidates(args) && i < j < |args|
    ensures Given(Before(args, i), args[i]) !! Given(Before(args, j), args[j])
  {
    UsedGrows(args, i, j);
    AlwaysSound(args, j);
    NextSound(Before(args, j), args[j], Used(args, j));
  }

  lemma {:induction false} AlwaysComplete(args: seq<Arg>, i: nat)
    requires Candidates(args) && i <= |args|
    ensures Complete(Before(args, i), Used(args, i))
  {
    hide Sound, Complete, Given, Next;
    if i > 0 {
      AlwaysSound(args, i - 1);
      AlwaysComplete(args, i - 1);
      NextComplete(Before(args, i - 1), args[i - 1], Used(args, i - 1));
    } else {
      NothingBelow();
    }
  }

  lemma NothingBelow()
    ensures Complete(Avail([], 0, 0), {})
  {
  }

  lemma StillGoing(s: Avail, a: Arg)
    requires s.filled <= |s.holes| && Place(s, a) != NONE && Candidate(a)
    ensures s.free != NONE && (s.free >= 0 ==> Next(s, a).free != NONE)
  {
  }

  lemma {:induction false} NotStopped(args: seq<Arg>, i: nat)
    requires Candidates(args) && i <= |args|
    requires forall j :: 0 <= j < i ==> Place(Before(args, j), args[j]) != NONE
    ensures Before(args, i).free >= 0
  {
    if i > 0 {
      NotStopped(args, i - 1);
      AlwaysSound(args, i - 1);
      AlwaysSound(args, i);
      StillGoing(Before(args, i - 1), args[i - 1]);
    }
  }

  /** As long as every argument has fitted, the next one gets the lowest
      registers that are free and fit, and none only if there are none. */
  lemma LowestFree(args: seq<Arg>, i: nat)
    requires Candidates(args) && i < |args|
    requires forall j :: 0 <= j < i ==> Place(Before(args, j), args[j]) != NONE
    ensures Lowest(Used(args, i), args[i], Place(Before(args, i), args[i]))
  {
    NotStopped(args, i);
    AlwaysSound(args, i);
    AlwaysComplete(args, i);
    PlaceLowest(Before(args, i), args[i], Used(args, i));
  }

  /** After the first argument that does not fit, none gets a register. */
  lemma {:induction false} StaysOut(args: seq<Arg>, i: nat, j: nat)
    requires Candidates(args) && i < j < |args| && Place(Before(args, i), args[i]) == NONE
    ensures Before(args, j).free == NONE && Place(Before(args, j), args[j]) == NONE
  {
    if i + 1 < j {
      StaysOut(args, i, j - 1);
    } else {
      AlwaysSound(args, i);
    }
  }

  /** At most four registers are ever skipped, one more than the array of the
      source declares; alternating floats and doubles skip four. */
  lemma AtMostFour(args: seq<Arg>, i: nat)
    requires Candidates(args) && i <= |args|
    ensures |Before(args, i).holes| <= HOLES
  {
    AlwaysSound(args, i);
  }

  /** Argument k would be the fourth to skip a register: the store goes to
      avail[3], which the array does not have. */
  predicate Overruns(args: seq<Arg>, k: nat)
    requires k < |args|
  {
    var s := Before(args, k);
    |s.holes| == 3 && s.free != NONE && s.free % 2 == 1 && args[k].align == 8
  }

  lemma OneHole(s: Avail, a: Arg)
    requires s.filled <= |s.holes| && Candidate(a)
    ensures var skips := s.free != NONE && s.free % 2 == 1 && a.align == 8;
      |Next(s, a).holes| == |s.holes| + if skips then 1 else 0
  {
  }

  /** The declared array suffices exactly as long as no argument overruns it. */
  lemma {:induction false} ThreeSuffice(args: seq<Arg>, i: nat)
    requires Candidates(args) && i <= |args|
    ensures |Before(args, i).holes| <= 3 <==> forall k :: 0 <= k < i ==> !Overruns(args, k)
  {
    if i > 0 {
      ThreeSuffice(args, i - 1);
      AtMostFour(args, i);
      OneHole(Before(args, i - 1), args[i - 1]);
      assert Before(args, i) == Next(Before(args, i - 1), args[i - 1]);
      assert |Before(args, i).holes| == 4 && |Before(args, i - 1).holes| == 3 ==> Overruns(args, i - 1);
    }
  }

  lemma FourHoles()
    ensures var f, d := Arg(4, 4), Arg(8, 8); var args := [f, d, f, f, d, f, f, d, f, f, d];
      Candidates(args) && Before(args, 11).holes == [1, 5, 9, 13] && Overruns(args, 10)
  {
    var f, d := Arg(4, 4), Arg(8, 8);
    var args := [f, d, f, f, d, f, f, d, f, f, d];
    assert Before(args, 1) == Avail([], 0, 1);
    assert Before(args, 2) == Avail([1], 0, 4);
    assert Before(args, 3) == Avail([1], 1, 4);
    assert Before(args, 4) == Avail([1], 1, 5);
    assert Before(args, 5) == Avail([1, 5], 1, 8);
    assert Before(args, 6) == Avail([1, 5], 2, 8);
    assert Before(args, 7) == Avail([1, 5], 2, 9);
    assert Before(args, 8) == Avail([1, 5, 9], 2, 12);
    assert Before(args, 9) == Avail([1, 5, 9], 3, 12);
    assert Before(args, 10) == Avail([1, 5, 9], 3, 13);
  }

  // ----- assign_vfpreg -----

  lemma GivenIs(s: Avail, a: Arg, used: set<int>)
    requires Sound(s, used) && Candidate(a)
    ensures var reg := Place(s, a);
      used + Given(s, a) == if reg == NONE then used else used + Range(reg, a.size / 4)
    ensures Next(s, a).free == NONE <==> Place(s, a) == NONE
  {
  }

  class AvailRegs {
    var avail: seq<int> // the skipped registers, as far as last_hole
    var firstHole: nat
    var firstFree: int

    ghost function State(): Avail
      reads this
    {
      Avail(avail, firstHole, firstFree)
    }

    ghost predicate Valid(used: set<int>)
      reads this
    {
      Sound(State(), used) && Complete(State(), used)
    }

    constructor ()
      ensures Valid({}) && State() == Avail([], 0, 0)
    {
      avail, firstHole, firstFree := [], 0, 0;
    }

    /** `assign_vfpreg`; `used` are the registers handed out before. */
    method Assign(a: Arg, ghost used: set<int>) returns (reg: int)
      requires Valid(used) && Candidate(a)
      modifies this
      ensures reg == Place(old(State()), a) && State() == Next(old(State()), a)
      ensures Valid(if reg == NONE then used else used + Range(reg, a.size / 4))
      ensures if old(firstFree) == NONE then reg == NONE else Lowest(used, a, reg)
      ensures firstFree == NONE <==> reg == NONE
    {
      NextSound(State(), a, used);
      NextComplete(State(), a, used);
      GivenIs(State(), a, used);
      if firstFree != NONE {
        PlaceLowest(State(), a, used);
      }
      hide Sound, Complete, Lowest, Range, Given;
      if firstFree == NONE {
        return NONE;
      }
      if a.align / 8 != 0 {
        reg := firstFree;
        if reg % 2 == 1 {
          avail := avail + [reg];
          reg := reg + 1;
        }
      } else {
        if a.size == 4 && firstHole != |avail| {
          reg := avail[firstHole];
          firstHole := firstHole + 1;
          return;
        }
        reg := firstFree;
      }
      if reg + a.size / 4 <= REGS {
        firstFree := reg + a.size / 4;
        return;
      }
      firstFree := NONE;
      reg := NONE;
    }
  }
}
