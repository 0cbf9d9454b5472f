/** No round of global mode gets stuck: from every state that a run can reach the call can be
    brought to its return, and without any worker giving up as long as no message has been lost. */
module Progress {
  import opened Net
  import opened RowCodec
  import opened Tables
  import opened Naming
  import opened Global
  import opened Rounds

  // ---------------------------------------------------------------- sequences of steps

  /** The steps lead from one state to another. */
  ghost predicate Leads(s: System, t: System, steps: seq<Step>, w: World)
    decreases |steps|
  {
    if |steps| == 0 then t == s else exists m :: Next(s, m, steps[0], w) && Leads(m, t, steps[1..], w)
  }

  lemma LeadsOn(s: System, m: System, t: System, step: Step, steps: seq<Step>, w: World)
    requires Next(s, m, step, w) && Leads(m, t, steps, w)
    ensures Leads(s, t, [step] + steps, w)
  {
    assert ([step] + steps)[1..] == steps;
  }

  lemma {:induction false} LeadsMore(s: System, m: System, t: System, xs: seq<Step>, ys: seq<Step>, w: World)
    requires Leads(s, m, xs, w) && Leads(m, t, ys, w)
    ensures Leads(s, t, xs + ys, w)
    decreases |xs|
  {
    hide Next;
    if |xs| == 0 {
      assert xs + ys == ys;
    } else {
      var n :| Next(s, n, xs[0], w) && Leads(n, m, xs[1..], w);
      LeadsMore(n, m, t, xs[1..], ys, w);
      LeadsOn(s, n, t, xs[0], xs[1..] + ys, w);
      assert [xs[0]] + (xs[1..] + ys) == xs + ys;
    }
  }

  lemma {:induction false} LeadsPath(s: System, t: System, steps: seq<Step>, w: World) returns (states: seq<System>)
    requires Leads(s, t, steps, w)
    ensures Path(states, steps, w) && states[0] == s && states[|steps|] == t
    decreases |steps|
  {
    hide Next;
    if |steps| == 0 {
      states := [s];
    } else {
      var m :| Next(s, m, steps[0], w) && Leads(m, t, steps[1..], w);
      var rest := LeadsPath(m, t, steps[1..], w);
      states := [s] + rest;
      forall i | 0 <= i < |steps| ensures Next(states[i], states[i + 1], steps[i], w) {
        if i > 0 { assert Next(rest[i - 1], rest[i], steps[1..][i - 1], w); }
      }
    }
  }

  // ---------------------------------------------------------------- who is there

  /** Every member with a frame is there once its turn has come, and the main thread only ever
      works through members of the round. */
  ghost predicate Present(s: System) {
    && (!s.main.Between? ==>
         forall x | x in s.metas :: x.0 in s.members || (s.main.Assigning? && InMetas(x.0, s.main.todo)))
    && (Phase(s.main).Waiting? ==> forall x | x in Phase(s.main).todo :: x in s.metas)
    && (Phase(s.main).Disabling? ==> Phase(s.main).ids <= s.members.Keys)
  }

  lemma PresentKeeps(s: System, t: System, step: Step, w: World)
    requires Inv(s, w) && Next(s, t, step, w) && Present(s)
    ensures Present(t)
  {
    hide Inv, MainNext, WorkerMoves, Present;
    if MainNext(s, t, step, w) {
      JustRound(s, w);
      PresentMain(s, t, step, w);
    } else {
      PresentWorker(s, t, step, w);
    }
  }

  lemma PresentWorker(s: System, t: System, step: Step, w: World)
    requires WorkerMoves(s, t, step, w) && Present(s)
    ensures Present(t)
  {
    hide ApplyAll, RenOps, WorkerNext;
  }

  lemma PresentMain(s: System, t: System, step: Step, w: World)
    requires RoundOk(s, w) && MainNext(s, t, step, w) && Present(s)
    ensures Present(t)
  {
    hide Honest, Without;
    if step.Begin? {
      forall x | x in t.metas ensures InMetas(x.0, t.metas) {
        var i :| 0 <= i < |t.metas| && t.metas[i] == x;
        assert t.metas[i].0 == x.0;
      }
    }
    if step.Assign? {
      forall x | x in s.metas ensures x.0 in t.members || InMetas(x.0, t.main.todo) { RestOf(s.main.todo, x.0); }
    }
  }

  lemma {:induction false} LeadsKeeps(s: System, t: System, steps: seq<Step>, w: World)
    requires Apart(w) && Inv(s, w) && Present(s) && Leads(s, t, steps, w)
    ensures Inv(t, w) && Present(t)
    decreases |steps|
  {
    hide Next, Apart, Inv, Present;
    if |steps| > 0 {
      var m :| Next(s, m, steps[0], w) && Leads(m, t, steps[1..], w);
      StepKeeps(s, m, steps[0], w);
      PresentKeeps(s, m, steps[0], w);
      LeadsKeeps(m, t, steps[1..], w);
    }
  }

  // ---------------------------------------------------------------- a worker on its own

  predicate Lost(m: Member) { m.pc.Working? && m.pc.lost }
  ghost predicate Unlost(s: System) { forall id | id in s.members :: !Lost(s.members[id]) }

  ghost predicate NoneFails(steps: seq<Step>) { forall i :: 0 <= i < |steps| ==> !steps[i].Fail? }
  ghost predicate NoReturn(steps: seq<Step>) { forall i :: 0 <= i < |steps| ==> !steps[i].Return? }

  function Stage(m: Member): nat {
    match m.pc
    case Starting => 1
    case Blocked => if m.job.Assigned? then 4 else 0
    case Listing(_) => 3
    case Working(_, _) => 2
    case Finishing => 1
  }

  function Load(m: Member): nat {
    match m.pc
    case Listing(unnamed) => |unnamed|
    case Working(left, _) => |left|
    case _ => 0
  }

  /** The next step of a worker that is not waiting for work. */
  lemma WorkerCan(m: Member, id: Id) returns (m': Member, step: Step)
    requires Handshake(m) && Stage(m) > 0
    ensures WorkerNext(m, m', step) && Mover(step) == id && !step.Return? && (step.Fail? ==> Lost(m))
    ensures Handshake(m') && (m'.job.JobIdle? <==> m.job.JobIdle?) && (Lost(m') ==> Lost(m))
    ensures Stage(m') < Stage(m) || (Stage(m') == Stage(m) && Load(m') < Load(m))
  {
    match m.pc
    case Starting => step, m' := Start(id), m.(worker := WorkerIdle, pc := Pc.Blocked);
    case Blocked => step, m' := Take(id), m.(err := false, pc := Listing(m.work.peers));
    case Listing(unnamed) =>
      if unnamed == {} {
        step, m' := Listed(id), m.(pc := Working(FrameOps(m.work.rows), false));
      } else {
        var k :| k in unnamed;
        step, m' := NameOne(id, k), m.(named := m.named + {k}, pc := Listing(unnamed - {k}));
      }
    case Working(left, lost) =>
      if |left| > 0 {
        step, m' := ApplyOne(id), m.(pc := Working(left[1..], lost));
      } else if lost {
        step, m' := Fail(id), m.(err := true, pc := Finishing);
      } else {
        step, m' := Step.Done(id), m.(pc := Finishing);
      }
    case Finishing =>
      step, m' := Finish(id), m.(share := Ready, job := Complete, worker := WorkerIdle, pc := Pc.Blocked);
  }

  /** A worker that nobody interrupts gets to the point where it waits for work. */
  lemma {:induction false} WorkerRuns(s: System, id: Id, w: World) returns (t: System, steps: seq<Step>)
    requires id in s.members && Handshake(s.members[id])
    ensures Leads(s, t, steps, w) && id in t.members && Handshake(t.members[id]) && Stage(t.members[id]) == 0
    ensures t == s.(members := s.members[id := t.members[id]], table := t.table)
    ensures t.members[id].job.JobIdle? <==> s.members[id].job.JobIdle?
    ensures NoReturn(steps) && (!Lost(s.members[id]) ==> NoneFails(steps))
    decreases Stage(s.members[id]), Load(s.members[id])
  {
    hide ApplyAll, RenOps, WorkerNext, Handshake;
    var m := s.members[id];
    if Stage(m) == 0 {
      t, steps := s, [];
    } else {
      var m', step := WorkerCan(m, id);
      var mid := s.(members := s.members[id := m'], table := ApplyAll(s.table, RenOps(Written(m, step), w.names(id))));
      assert WorkerMoves(s, mid, step, w);
      var rest;
      t, rest := WorkerRuns(mid, id, w);
      LeadsOn(s, mid, t, step, rest, w);
      steps := [step] + rest;
    }
  }

  // ---------------------------------------------------------------- the main thread

  function PhaseNo(main: Main): nat {
    match main
    case Waiting(_) => 1
    case Disabling(_) => 2
    case Assigning(_) => 3
    case _ => 0
  }

  function Size(main: Main): nat {
    match main
    case Waiting(todo) => |todo|
    case Disabling(ids) => |ids|
    case Assigning(todo) => |todo|
    case _ => 0
  }

  function Peers(main: Main): nat { if main.Emptying? then |main.left| + 1 else 0 }

  predicate Smaller(a: Main, b: Main) {
    || PhaseNo(Phase(a)) < PhaseNo(Phase(b))
    || (PhaseNo(Phase(a)) == PhaseNo(Phase(b)) && Size(Phase(a)) < Size(Phase(b)))
    || (PhaseNo(Phase(a)) == PhaseNo(Phase(b)) && Size(Phase(a)) == Size(Phase(b)) && Peers(a) < Peers(b))
  }

  /** The main thread gets on: it hands out the next frame once the worker is up, disables the
      next member, or waits until the next worker is done. */
  lemma MainCan(s: System, w: World) returns (t: System, steps: seq<Step>)
    requires Inv(s, w) && Present(s) && !s.main.Between?
    ensures Leads(s, t, steps, w) && Smaller(t.main, s.main) && (Unlost(s) ==> NoneFails(steps) && Unlost(t))
    ensures if t.main.Between? then steps == [Return] else NoReturn(steps)
  {
    hide Inv, Present;
    match s.main
    case Assigning(todo) => t, steps := AssignCan(s, w);
    case Disabling(ids) => t, steps := DisableCan(s, w);
    case Waiting(todo) => t, steps := WaitCan(s, w);
    case Emptying(id, left, after) =>
      JustRound(s, w);
      t, steps := EmptyCan(s, w);
  }

  lemma OneStep(s: System, t: System, step: Step, w: World)
    requires Next(s, t, step, w)
    ensures Leads(s, t, [step], w)
  {
    assert Leads(t, t, [], w);
    LeadsOn(s, t, t, step, [], w);
    assert [step] + [] == [step];
  }

  lemma AssignCan(s: System, w: World) returns (t: System, steps: seq<Step>)
    requires Inv(s, w) && s.main.Assigning?
    ensures Leads(s, t, steps, w) && Smaller(t.main, s.main) && !t.main.Between? && NoReturn(steps)
    ensures Unlost(s) ==> NoneFails(steps) && Unlost(t)
  {
    hide Inv, Leads;
    if s.main.todo == [] {
      t, steps := s.(main := Disabling(s.members.Keys)), [AllAssigned];
      OneStep(s, t, AllAssigned, w);
    } else {
      var id := s.main.todo[0].0;
      var a, xs := CreateCan(s, w);
      var b, ys := WorkerRuns(a, id, w);
      LeadsMore(s, a, b, xs, ys, w);
      t := Given1(b, w);
      OneStep(b, t, Assign, w);
      LeadsMore(s, b, t, xs + ys, [Assign], w);
      steps := xs + ys + [Assign];
    }
  }

  lemma CreateCan(s: System, w: World) returns (t: System, steps: seq<Step>)
    requires Inv(s, w) && s.main.Assigning? && |s.main.todo| > 0
    ensures Leads(s, t, steps, w) && t == s.(members := t.members) && s.main.todo[0].0 in t.members
    ensures NoReturn(steps) && NoneFails(steps) && (Unlost(s) ==> Unlost(t)) && Handshake(t.members[s.main.todo[0].0])
    ensures !Lost(t.members[s.main.todo[0].0])
  {
    var id := s.main.todo[0].0;
    if id in s.members {
      t, steps := s, [];
      KnownBlocked(s, w);
    } else {
      t, steps := s.(members := s.members[id := NEW_MEMBER]), [Create];
      OneStep(s, t, Create, w);
    }
  }

  lemma KnownBlocked(s: System, w: World)
    requires Inv(s, w) && s.main.Assigning? && |s.main.todo| > 0 && s.main.todo[0].0 in s.members
    ensures Handshake(s.members[s.main.todo[0].0]) && !Lost(s.members[s.main.todo[0].0])
  {
    var id := s.main.todo[0].0;
    assert MemberOk(s, id, w) && InMetas(id, s.main.todo);
    AssignedBlocked(s, id, w);
  }

  lemma Given1(s: System, w: World) returns (t: System)
    requires s.main.Assigning? && |s.main.todo| > 0 && s.main.todo[0].0 in s.members
    requires Handshake(s.members[s.main.todo[0].0]) && Stage(s.members[s.main.todo[0].0]) == 0
    ensures Next(s, t, Assign, w) && t.main == Assigning(s.main.todo[1..]) && (Unlost(s) ==> Unlost(t))
  {
    var id, job := s.main.todo[0].0, s.main.todo[0].1;
    var m := s.members[id];
    var m' := if !s.sync && job.parent != m.parentTime then m else Given(m, job, s.sync);
    t := s.(members := s.members[id := m'], main := Assigning(s.main.todo[1..]));
  }

  lemma DisableCan(s: System, w: World) returns (t: System, steps: seq<Step>)
    requires Present(s) && s.main.Disabling?
    ensures Leads(s, t, steps, w) && Smaller(t.main, s.main) && !t.main.Between? && NoReturn(steps)
    ensures NoneFails(steps) && (Unlost(s) ==> Unlost(t))
  {
    hide Leads;
    var step;
    if s.main.ids == {} {
      t, step := s.(main := Waiting(s.metas)), AllDisabled;
    } else {
      var id :| id in s.main.ids;
      var m, rest := s.members[id], Disabling(s.main.ids - {id});
      t := s.(main := if m.job.JobIdle? && m.share.Ready? then Emptying(id, m.named, rest) else rest);
      step := Disable(id);
    }
    OneStep(s, t, step, w);
    steps := [step];
  }

  lemma EmptyCan(s: System, w: World) returns (t: System, steps: seq<Step>)
    requires RoundOk(s, w) && s.main.Emptying?
    ensures Leads(s, t, steps, w) && Smaller(t.main, s.main) && !t.main.Between? && NoReturn(steps)
    ensures NoneFails(steps) && (Unlost(s) ==> Unlost(t))
  {
    hide Leads, Honest;
    var step;
    if s.main.left == {} {
      step := Emptied;
      t := s.(main := s.main.after, members := s.members[s.main.id :=
        s.members[s.main.id].(parentTime := -1, share := Empty, job := JobIdle)]);
    } else {
      var k :| k in s.main.left;
      step := DropPeer(k);
      t := s.(main := s.main.(left := s.main.left - {k}), table := Without(s.table, w.names(s.main.id).to(k)));
    }
    OneStep(s, t, step, w);
    steps := [step];
  }

  lemma WaitCan(s: System, w: World) returns (t: System, steps: seq<Step>)
    requires Inv(s, w) && Present(s) && s.main.Waiting?
    ensures Leads(s, t, steps, w) && Smaller(t.main, s.main) && (Unlost(s) ==> NoneFails(steps) && Unlost(t))
    ensures if t.main.Between? then steps == [Return] else NoReturn(steps)
  {
    hide Leads, Inv;
    if s.main.todo == [] {
      t, steps := s.(main := Between), [Return];
      OneStep(s, t, Return, w);
    } else {
      var id := s.main.todo[0].0;
      assert s.main.todo[0] in s.metas;
      assert Handshake(s.members[id]) by { ShakesHands(s, id, w); }
      var a, xs := WorkerRuns(s, id, w);
      t := Waited1(a, w);
      OneStep(a, t, Wait, w);
      LeadsMore(s, a, t, xs, [Wait], w);
      steps := xs + [Wait];
    }
  }

  lemma ShakesHands(s: System, id: Id, w: World)
    requires Inv(s, w) && id in s.members
    ensures Handshake(s.members[id])
  {
    hide RoundOk, Owned, Handshake;
    assert MemberOk(s, id, w);
  }

  lemma Waited1(s: System, w: World) returns (t: System)
    requires s.main.Waiting? && |s.main.todo| > 0 && s.main.todo[0].0 in s.members
    requires Handshake(s.members[s.main.todo[0].0]) && Stage(s.members[s.main.todo[0].0]) == 0
    ensures Next(s, t, Wait, w) && Phase(t.main) == Waiting(s.main.todo[1..]) && (Unlost(s) ==> Unlost(t))
    ensures !t.main.Between?
  {
    var id, rest := s.main.todo[0].0, Waiting(s.main.todo[1..]);
    var m := s.members[id];
    t := if m.job.JobIdle? then s.(main := rest)
         else if m.err then s.(main := Emptying(id, m.named, rest))
         else s.(main := rest, members := s.members[id := m.(job := JobIdle)]);
  }

  // ---------------------------------------------------------------- to the end

  /** From every state of a round there are steps to its return. */
  lemma {:induction false} RoundEnds(s: System, w: World) returns (t: System, steps: seq<Step>)
    requires Apart(w) && Inv(s, w) && Present(s) && !s.main.Between?
    ensures Leads(s, t, steps + [Return], w) && t.main.Between? && NoReturn(steps) && (Unlost(s) ==> NoneFails(steps))
    decreases PhaseNo(Phase(s.main)), Size(Phase(s.main)), Peers(s.main)
  {
    hide Inv, Present, Leads, Apart;
    var a, xs := MainCan(s, w);
    if a.main.Between? {
      t, steps := a, [];
      assert [] + [Return] == [Return];
    } else {
      LeadsKeeps(s, a, xs, w);
      var ys;
      t, ys := RoundEnds(a, w);
      LeadsMore(s, a, t, xs, ys + [Return], w);
      steps := xs + ys;
      assert xs + (ys + [Return]) == steps + [Return];
    }
  }

  lemma {:induction false} RunPresent(states: seq<System>, steps: seq<Step>, w: World, n: nat)
    requires Run(states, steps, w) && n < |states|
    ensures Present(states[n])
  {
    hide Next, Apart, Present, Inv;
    if n == 0 {
      assert Present(states[0]) by { NobodyYet(states[0]); }
    } else {
      RunPresent(states, steps, w, n - 1);
      RunInv(states, steps, w, n - 1);
      PresentKeeps(states[n - 1], states[n], steps[n - 1], w);
    }
  }

  lemma NobodyYet(s: System)
    requires Init(s)
    ensures Present(s)
  {
  }

  /** Whatever has happened in a round, the call can still return. */
  lemma EveryRoundCanEnd(states: seq<System>, steps: seq<Step>, w: World, n: nat)
    returns (t: System, more: seq<Step>)
    requires Run(states, steps, w) && n < |states| && !states[n].main.Between?
    ensures Leads(states[n], t, more, w) && t.main.Between?
  {
    hide Next, Apart, Present, Inv, Leads;
    RunPresent(states, steps, w, n);
    RunInv(states, steps, w, n);
    t, more := RoundEnds(states[n], w);
    more := more + [Return];
  }

  /** Between calls, for any honest frames, there is a round in which everyone who is due
      contributes: its part of the view is then its whole table. */
  lemma EveryRoundCanSucceed(states: seq<System>, steps: seq<Step>, w: World, n: nat, metas: Metas, sync: bool,
                             time: nat)
    returns (more: seq<System>, xs: seq<Step>)
    requires Run(states, steps, w) && n < |states| && states[n].main.Between?
    requires Usable(metas, sync, time, states[n].time, w)
    ensures Round(more, xs, w) && more[0] == states[n] && xs[0] == Begin(metas, sync, time)
    ensures forall id :: Due(states[n], id, metas, sync) ==>
              id in more[|xs|].members && Part(more[|xs|], id, w) == w.truth(id, time)
  {
    hide Next, Apart, Present, Inv, Leads, Due, Part, Usable;
    var s := states[n];
    RunPresent(states, steps, w, n);
    RunInv(states, steps, w, n);
    var a := s.(main := Assigning(metas), metas := metas, sync := sync, time := time,
      table := if sync then imap[] else s.table);
    assert Next(s, a, Begin(metas, sync, time), w) by { Begins(s, a, metas, sync, time, w); }
    StepKeeps(s, a, Begin(metas, sync, time), w);
    PresentKeeps(s, a, Begin(metas, sync, time), w);
    assert Unlost(a) by { AllIdle(s, w); }
    var t, ys := RoundEnds(a, w);
    LeadsOn(s, a, t, Begin(metas, sync, time), ys + [Return], w);
    xs := [Begin(metas, sync, time)] + (ys + [Return]);
    more := LeadsPath(s, t, xs, w);
    forall i | 0 < i < |xs| - 1 ensures !xs[i].Return? && !xs[i].Fail? { assert xs[i] == ys[i - 1]; }
    forall id | Due(s, id, metas, sync) ensures id in t.members && Part(t, id, w) == w.truth(id, time) {
      RoundOutcome(more, xs, w, id);
    }
  }

  lemma Begins(s: System, a: System, metas: Metas, sync: bool, time: nat, w: World)
    requires s.main.Between? && Usable(metas, sync, time, s.time, w)
    requires a == System(s.members, Assigning(metas), metas, sync, time, if sync then imap[] else s.table)
    ensures Next(s, a, Begin(metas, sync, time), w)
  {
  }

  lemma AllIdle(s: System, w: World)
    requires Inv(s, w) && s.main.Between?
    ensures Unlost(s)
  {
    hide Part, Owned, RoundOk, Backed, AllOrNothing;
    forall id | id in s.members ensures !Lost(s.members[id]) { assert MemberOk(s, id, w); }
  }
}
