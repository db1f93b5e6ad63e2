/** The generator slots of the firmware's Python runtime: `metal_register_upy`
    and `step_upy`. A step is split where it enters the generator, because the
    generator may register others and step other tasks before it comes back. */
module UpySlots {
  import opened Wrappers

  const SLOTS: nat := 8 // PM_METAL_UPY_GEN_N

  type Gen = nat // a generator object

  type Task = nat

  /** The coroutine frame of a task. */
  datatype Frame = Frame(slot: nat, napUs: nat)

  datatype Status = Done | Error | Waiting

  datatype Failure = NotReady | SlotsFull | NoFrame | NoTask

  /** What a generator does with its slice. */
  datatype Slice = Yield | Stop | Raise

  function Doubled(k: nat): nat {
    if k == 0 then 1 else 2 * Doubled(k - 1)
  }

  /** 0 before the first yield, then 1 ms doubled at most six times. */
  predicate IsNap(us: nat) {
    us == 0 || exists k :: 0 <= k <= 6 && us == 1000 * Doubled(k)
  }

  function NextNap(us: nat): nat {
    if us < 64000 then (if us == 0 then 1000 else us * 2) else us
  }

  lemma NapsDouble(us: nat)
    requires IsNap(us)
    ensures IsNap(NextNap(us)) && 0 < NextNap(us) <= 64000
  {
    if us == 0 {
      assert NextNap(us) == 1000 * Doubled(0);
    } else {
      var k :| 0 <= k <= 6 && us == 1000 * Doubled(k);
      Doublings();
      if k < 6 {
        assert NextNap(us) == 1000 * Doubled(k + 1);
      } else {
        assert NextNap(us) == 1000 * Doubled(k);
      }
    }
  }

  lemma Doublings()
    ensures Doubled(0) == 1 && Doubled(1) == 2 && Doubled(2) == 4 && Doubled(3) == 8
    ensures Doubled(4) == 16 && Doubled(5) == 32 && Doubled(6) == 64
  {
  }

  /** The back-off after n yields in a row. */
  function NapAfter(n: nat): nat {
    if n == 0 then 0 else NextNap(NapAfter(n - 1))
  }

  /** 1, 2, 4, 8, 16, 32 and 64 ms, and 64 ms from then on. */
  lemma {:induction false} NapSequence(n: nat)
    ensures NapAfter(n) == if n == 0 then 0 else if n == 1 then 1000 else if n == 2 then 2000
                           else if n == 3 then 4000 else if n == 4 then 8000 else if n == 5 then 16000
                           else if n == 6 then 32000 else 64000
  {
    if n > 0 {
      NapSequence(n - 1);
    }
  }

  lemma NapStep(us: nat)
    requires IsNap(us)
    ensures NextNap(us) == if us == 0 then 1000 else if us == 64000 then 64000 else 2 * us
  {
    NapsDouble(us);
  }

  /** Some live task has the slot. */
  predicate Taken(tasks: map<Task, Frame>, slot: nat) {
    exists t :: t in tasks && tasks[t].slot == slot
  }

  /** Every live task owns a slot that holds the generator it was created for;
      no two share one; a slot is occupied exactly when a live task has it or
      it was lost by a task that could not park. */
  ghost predicate Owned(gens: seq<Option<Gen>>, tasks: map<Task, Frame>, own: map<Task, Gen>, lost: set<nat>) {
    && |gens| == SLOTS
    && (forall t :: t in tasks ==> tasks[t].slot < SLOTS && t in own && gens[tasks[t].slot] == Some(own[t]))
    && (forall t, u :: t in tasks && u in tasks && tasks[t].slot == tasks[u].slot ==> t == u)
    && (forall t :: t in tasks ==> tasks[t].slot !in lost)
    && (forall i :: 0 <= i < SLOTS ==> (gens[i].Some? <==> i in lost || Taken(tasks, i)))
    && (forall i :: i in lost ==> i < SLOTS)
  }

  predicate Naps(tasks: map<Task, Frame>) {
    forall t :: t in tasks ==> IsNap(tasks[t].napUs)
  }

  /** An occupied slot was lost, or has exactly one live task. */
  lemma OccupiedIsLive(gens: seq<Option<Gen>>, tasks: map<Task, Frame>, own: map<Task, Gen>, lost: set<nat>, i: nat)
    requires Owned(gens, tasks, own, lost) && i < SLOTS && gens[i].Some?
    ensures i in lost <==> !Taken(tasks, i)
    ensures i !in lost ==> exists t ::
      t in tasks && tasks[t].slot == i && forall u :: u in tasks && tasks[u].slot == i ==> u == t
  {
    if i !in lost {
      assert Taken(tasks, i);
      var t :| t in tasks && tasks[t].slot == i;
    }
  }

  lemma EightSlots(gens: seq<Option<Gen>>, tasks: map<Task, Frame>, own: map<Task, Gen>, lost: set<nat>)
    requires Owned(gens, tasks, own, lost)
    ensures |gens| == SLOTS
  {
  }

  /** A new task in a free slot. */
  lemma RegisterOwned(gens: seq<Option<Gen>>, tasks: map<Task, Frame>, own: map<Task, Gen>, lost: set<nat>, i: nat,
                      t: Task, g: Gen)
    requires Owned(gens, tasks, own, lost) && i < SLOTS && gens[i].None? && t !in tasks
    ensures Owned(gens[i := Some(g)], tasks[t := Frame(i, 0)], own[t := g], lost)
  {
    var tasks' := tasks[t := Frame(i, 0)];
    forall k | 0 <= k < SLOTS ensures gens[i := Some(g)][k].Some? <==> k in lost || Taken(tasks', k) {
      if k == i {
        assert tasks'[t].slot == i;
      } else if Taken(tasks, k) {
        var u :| u in tasks && tasks[u].slot == k;
        assert tasks'[u].slot == k;
      }
    }
    forall u | u in tasks ensures tasks[u].slot != i {
      assert Taken(tasks, tasks[u].slot);
    }
  }

  /** A task that ends gives its slot back. */
  lemma FinishOwned(gens: seq<Option<Gen>>, tasks: map<Task, Frame>, own: map<Task, Gen>, lost: set<nat>, t: Task)
    requires Owned(gens, tasks, own, lost) && t in tasks
    ensures tasks[t].slot < |gens| && Owned(gens[tasks[t].slot := None], tasks - {t}, own, lost)
  {
    var i, tasks' := tasks[t].slot, tasks - {t};
    forall k | 0 <= k < SLOTS ensures gens[i := None][k].Some? <==> k in lost || Taken(tasks', k) {
      if k != i && Taken(tasks, k) {
        var u :| u in tasks && tasks[u].slot == k;
        assert tasks'[u].slot == k;
      }
    }
  }

  /** A task that cannot park dies and leaves its slot occupied. */
  lemma LoseOwned(gens: seq<Option<Gen>>, tasks: map<Task, Frame>, own: map<Task, Gen>, lost: set<nat>, t: Task)
    requires Owned(gens, tasks, own, lost) && t in tasks
    ensures Owned(gens, tasks - {t}, own, lost + {tasks[t].slot}) && tasks[t].slot !in lost
  {
    var i, tasks' := tasks[t].slot, tasks - {t};
    forall k | 0 <= k < SLOTS ensures gens[k].Some? <==> k in lost + {i} || Taken(tasks', k) {
      assert k == i ==> Taken(tasks, i);
      if k != i && Taken(tasks, k) {
        var u :| u in tasks && tasks[u].slot == k;
        assert tasks'[u].slot == k;
      }
    }
  }

  /** A change of the back-off of one task. */
  lemma NapOwned(gens: seq<Option<Gen>>, tasks: map<Task, Frame>, own: map<Task, Gen>, lost: set<nat>, t: Task, us: nat)
    requires Owned(gens, tasks, own, lost) && t in tasks
    ensures Owned(gens, tasks[t := tasks[t].(napUs := us)], own, lost)
  {
    var tasks' := tasks[t := tasks[t].(napUs := us)];
    forall k ensures Taken(tasks', k) <==> Taken(tasks, k) {
      if Taken(tasks, k) {
        var u :| u in tasks && tasks[u].slot == k;
        assert tasks'[u].slot == k;
      }
    }
  }

  class Runtime {
    var gens: seq<Option<Gen>> // metal_upy_gen
    var tasks: map<Task, Frame> // live tasks and their frames
    var running: set<Task> // inside the generator
    ghost var own: map<Task, Gen>
    ghost var lost: set<nat>
    ghost var failedParks: nat

    ghost predicate Valid()
      reads this
    {
      && Owned(gens, tasks, own, lost) && Naps(tasks) && |lost| == failedParks
      && (forall t :: t in running ==> t in tasks)
    }

    constructor ()
      ensures Valid() && tasks == map[] && failedParks == 0
    {
      gens := seq(SLOTS, _ => None);
      tasks, running, own, lost, failedParks := map[], {}, map[], {}, 0;
    }

    /** `metal_register_upy`. soft is the configured limit, 0 for none; frameOk
        and taskOk say whether the two allocations succeed. */
    method Register(gen: Gen, ready: bool, soft: nat, frameOk: bool, taskOk: bool, task: Task)
      returns (failure: Option<Failure>)
      requires Valid() && task !in tasks
      modifies this
      ensures Valid() && failedParks == old(failedParks) && running == old(running) && lost == old(lost)
      ensures failure.Some? ==> gens == old(gens) && tasks == old(tasks) && own == old(own)
      ensures failure.None? ==> task in tasks && tasks == old(tasks)[task := tasks[task]] && tasks[task].napUs == 0
      ensures failure.None? ==>
        own == old(own)[task := gen] && gens == old(gens)[tasks[task].slot := Some(gen)] &&
        old(gens)[tasks[task].slot].None?
      ensures failure.None? ==> forall i :: 0 <= i < tasks[task].slot ==> gens[i].Some?
      ensures failure == Some(SlotsFull) <==>
        ready && forall i :: 0 <= i < SLOTS && (soft == 0 || i < soft) ==> old(gens)[i].Some?
      ensures ready && failure != Some(SlotsFull) ==>
        failure == if !frameOk then Some(NoFrame) else if !taskOk then Some(NoTask) else None
    {
      hide IsNap, Owned;
      EightSlots(gens, tasks, own, lost);
      if !ready {
        return Some(NotReady);
      }
      var ceiling := soft;
      if ceiling == 0 {
        ceiling := SLOTS;
      }
      if ceiling > SLOTS {
        ceiling := SLOTS;
      }
      var i := 0;
      while i < ceiling
        invariant 0 <= i <= ceiling && forall k :: 0 <= k < i ==> gens[k].Some?
      {
        if gens[i].None? {
          break;
        }
        i := i + 1;
      }
      if i >= ceiling {
        return Some(SlotsFull);
      }
      if !frameOk {
        return Some(NoFrame);
      }
      ghost var before := gens;
      gens := gens[i := Some(gen)];
      if !taskOk {
        gens := gens[i := None];
        assert gens == before;
        return Some(NoTask);
      }
      RegisterOwned(before, tasks, own, lost, i, task, gen);
      FirstNap();
      tasks := tasks[task := Frame(i, 0)];
      own := own[task := gen];
      failure := None;
    }

    /** `pm_metal_coop_sleep_us` for a task: it parks, or, without memory for
        the timer, ends with its slot still occupied. */
    method Park(task: Task, timerOk: bool) returns (status: Status)
      requires Valid() && task in tasks && task !in running
      modifies this
      ensures Valid() && gens == old(gens) && running == old(running) && own == old(own)
      ensures timerOk ==>
        status == Waiting && tasks == old(tasks) && lost == old(lost) && failedParks == old(failedParks)
      ensures !timerOk ==> status == Error && tasks == old(tasks) - {task}
      ensures !timerOk ==> lost == old(lost) + {old(tasks)[task].slot} && failedParks == old(failedParks) + 1
    {
      hide IsNap, Owned;
      status := Waiting;
      if !timerOk {
        LoseOwned(gens, tasks, own, lost, task);
        lost := lost + {tasks[task].slot};
        tasks := tasks - {task};
        failedParks := failedParks + 1;
        status := Error;
      }
    }

    /** The part of `step_upy` before the generator runs: on contention the
        task parks for 1 ms, otherwise its generator is entered. The branches
        for a bad slot and for an empty one cannot be reached. */
    method StepBegin(task: Task, locked: bool, timerOk: bool) returns (entered: Option<Gen>, status: Status)
      requires Valid() && task in tasks && task !in running
      modifies this
      ensures Valid() && gens == old(gens) && own == old(own) && (locked ==> lost == old(lost))
      ensures entered.Some? <==> locked
      ensures locked ==>
        task in own && entered == Some(own[task]) && running == old(running) + {task} &&
        tasks == old(tasks) && failedParks == old(failedParks)
      ensures !locked ==> running == old(running) && (status == Waiting <==> timerOk)
      ensures !locked ==> tasks == if timerOk then old(tasks) else old(tasks) - {task}
      ensures failedParks == old(failedParks) + if locked || timerOk then 0 else 1
    {
      hide IsNap;
      entered, status := None, Waiting;
      if tasks[task].slot >= SLOTS {
        assert false;
      }
      if !locked {
        status := Park(task, timerOk);
        return;
      }
      entered := gens[tasks[task].slot];
      if entered.None? {
        assert false;
      }
      running := running + {task};
    }

    /** The rest of `step_upy`, once the generator has yielded, stopped or raised. */
    method StepEnd(task: Task, slice: Slice, timerOk: bool) returns (status: Status)
      requires Valid() && task in running
      modifies this
      ensures Valid() && running == old(running) - {task} && own == old(own)
      ensures lost == old(lost) + if slice == Yield && !timerOk then {old(tasks)[task].slot} else {}
      ensures slice == Stop ==> status == Done
      ensures slice == Raise ==> status == Error
      ensures slice != Yield ==>
        tasks == old(tasks) - {task} && gens == old(gens)[old(tasks)[task].slot := None] &&
        failedParks == old(failedParks)
      ensures slice == Yield ==> gens == old(gens) && (status == if timerOk then Waiting else Error)
      ensures slice == Yield && timerOk ==>
        var nap := old(tasks)[task].napUs;
        var next := if nap == 0 then 1000 else if nap == 64000 then 64000 else 2 * nap;
        tasks == old(tasks)[task := old(tasks)[task].(napUs := next)]
      ensures slice == Yield && !timerOk ==> tasks == old(tasks) - {task}
      ensures failedParks == old(failedParks) + if slice == Yield && !timerOk then 1 else 0
    {
      hide IsNap, Owned, NextNap;
      running := running - {task};
      var slot := tasks[task].slot;
      if slice == Yield {
        var nap := tasks[task].napUs;
        NapsDouble(nap);
        NapStep(nap);
        NapOwned(gens, tasks, own, lost, task, NextNap(nap));
        tasks := tasks[task := tasks[task].(napUs := NextNap(nap))];
        status := Park(task, timerOk);
        assert tasks - {task} == old(tasks) - {task};
      } else {
        FinishOwned(gens, tasks, own, lost, task);
        gens := gens[slot := None];
        tasks := tasks - {task};
        status := if slice == Stop then Done else Error;
      }
    }
  }

  lemma FirstNap()
    ensures IsNap(0)
  {
  }

  /** After eight failed parks no generator can be registered any more. */
  lemma AllLost(gens: seq<Option<Gen>>, tasks: map<Task, Frame>, own: map<Task, Gen>, lost: set<nat>)
    requires Owned(gens, tasks, own, lost) && |lost| == SLOTS
    ensures tasks == map[] && forall i :: 0 <= i < SLOTS ==> gens[i].Some?
  {
    var all: set<nat> := {0, 1, 2, 3, 4, 5, 6, 7};
    SubsetFull(lost, all);
    assert forall t :: t in tasks ==> tasks[t].slot in all;
    assert forall t :: t !in tasks;
  }

  lemma SubsetFull(a: set<nat>, b: set<nat>)
    requires (forall i :: i in a ==> i in b) && |a| == |b|
    ensures a == b
  {
    assert |b - a| == |b| - |a| by {
      assert b == a + (b - a);
    }
  }
}
