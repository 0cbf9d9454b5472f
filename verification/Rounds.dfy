/** What a round of global mode comes to: who contributes to the view that a call returns, told
    from the steps of the round, and that every round can be brought to its end. */
module Rounds {
  import opened Net
  import opened RowCodec
  import opened Tables
  import opened Naming
  import opened Global

  // ---------------------------------------------------------------- who contributes

  /** Who is due to contribute: in a sync round everyone with a frame, in a diff round a member
      whose frame is a diff to the table it has. */
  ghost predicate Due(s: System, id: Id, metas: Metas, sync: bool) {
    exists i :: 0 <= i < |metas| && DueAt(s, id, metas, sync, i)
  }

  ghost predicate DueAt(s: System, id: Id, metas: Metas, sync: bool, i: nat)
    requires i < |metas|
  {
    metas[i].0 == id && (sync || (id in s.members && s.members[id].parentTime == metas[i].1.parent))
  }

  /** The worker gave up in one of the steps. */
  ghost predicate Gave(steps: seq<Step>, id: Id) { exists i :: 0 <= i < |steps| && steps[i] == Fail(id) }

  /** A member that is due, from the moment it has its frame. */
  ghost predicate OnItsWay(m: Member, failed: bool, phase: Main) {
    if m.job.JobIdle? then (phase.Waiting? || phase.Between?) && (m.share.Ready? <==> !failed) else
    match m.pc
    case Blocked => if m.job.Assigned? then !failed else (m.err <==> failed)
    case Finishing => m.err <==> failed
    case _ => !failed && !m.err
  }

  /** A member that is not due has nothing to do, and is disabled before the main thread waits. */
  ghost predicate LeftOut(m: Member, phase: Main) {
    m.job.JobIdle? && (phase.Waiting? || phase.Between? ==> m.share.Empty?)
  }

  /** How far the member is in a round in which it is due or not. */
  ghost predicate Tracked(s: System, id: Id, due: bool, failed: bool) {
    && (due ==> InMetas(id, s.metas))
    && if s.main.Assigning? && InMetas(id, s.main.todo) then
         !failed && (due <==> Due(s, id, s.main.todo, s.sync))
       else
         && (InMetas(id, s.metas) ==> id in s.members)
         && (if due then id in s.members && OnItsWay(s.members[id], failed, Phase(s.main))
             else !failed && (id in s.members ==> LeftOut(s.members[id], Phase(s.main))))
  }

  lemma TrackWorker(s: System, t: System, step: Step, w: World, id: Id, due: bool, failed: bool)
    requires Inv(s, w) && WorkerMoves(s, t, step, w) && Tracked(s, id, due, failed)
    ensures Tracked(t, id, due, failed || step == Fail(id))
  {
    hide Part, ApplyAll, RenOps, RoundOk, Owned, Backed, InPhase, BeingEmptied, Underway, FrameOps;
    if id in s.members {
      assert MemberOk(s, id, w);
      if s.main.Assigning? && InMetas(id, s.main.todo) { NotYet(s, id, w); }
    }
    if s.main.Assigning? && InMetas(id, s.main.todo) { StillDue(s, t, id, s.main.todo, s.sync); }
  }

  lemma NotYet(s: System, id: Id, w: World)
    requires id in s.members && MemberOk(s, id, w) && s.main.Assigning? && InMetas(id, s.main.todo)
    ensures s.members[id].job.JobIdle?
  {
    hide Part, Backed, Underway, AtRest;
  }

  lemma StillDue(s: System, t: System, id: Id, metas: Metas, sync: bool)
    requires id in s.members <==> id in t.members
    requires id in s.members ==> t.members[id].parentTime == s.members[id].parentTime
    ensures Due(s, id, metas, sync) <==> Due(t, id, metas, sync)
  {
    if i :| 0 <= i < |metas| && DueAt(s, id, metas, sync, i) { assert DueAt(t, id, metas, sync, i); }
    if i :| 0 <= i < |metas| && DueAt(t, id, metas, sync, i) { assert DueAt(s, id, metas, sync, i); }
  }

  lemma TrackCreate(s: System, t: System, w: World, id: Id, due: bool, failed: bool)
    requires RoundOk(s, w) && MainNext(s, t, Create, w) && Tracked(s, id, due, failed)
    ensures Tracked(t, id, due, failed)
  {
    hide Honest;
    if id == s.main.todo[0].0 {
      assert InMetas(id, s.main.todo);
      forall i | 0 <= i < |s.main.todo| && DueAt(t, id, s.main.todo, s.sync, i)
        ensures DueAt(s, id, s.main.todo, s.sync, i)
      {
        assert s.main.todo[i] in s.metas;
      }
      if i :| 0 <= i < |s.main.todo| && DueAt(s, id, s.main.todo, s.sync, i) {
        assert DueAt(t, id, s.main.todo, s.sync, i);
      }
    } else {
      StillDue(s, t, id, s.main.todo, s.sync);
    }
  }

  lemma TrackAssign(s: System, t: System, w: World, id: Id, due: bool, failed: bool)
    requires Inv(s, w) && MainNext(s, t, Assign, w) && Tracked(s, id, due, failed)
    ensures Tracked(t, id, due, failed)
  {
    hide RoundOk, MemberOk, Owned, InMetas, Due;
    var todo := s.main.todo;
    OnlyOnce(s, w);
    RestOf(todo, id);
    if id == todo[0].0 {
      AssignedBlocked(s, id, w);
      FirstDue(s, todo, s.sync);
      InOwnMetas(s, w);
    } else if InMetas(id, todo) {
      DueRest(s, id, todo, s.sync);
      StillDue(s, t, id, todo[1..], s.sync);
    }
  }

  lemma AssignedBlocked(s: System, id: Id, w: World)
    requires id in s.members && MemberOk(s, id, w) && s.main.Assigning? && InMetas(id, s.main.todo)
    ensures s.members[id].job.JobIdle? && (!s.members[id].pc.Starting? ==> s.members[id].pc.Blocked?)
  {
    hide Part, Backed, Underway, AtRest;
  }

  lemma InOwnMetas(s: System, w: World)
    requires RoundOk(s, w) && s.main.Assigning? && |s.main.todo| > 0
    ensures InMetas(s.main.todo[0].0, s.metas)
  {
    hide Honest;
    assert s.main.todo[0] in s.metas;
  }

  lemma FirstDue(s: System, todo: Metas, sync: bool)
    requires |todo| > 0 && !InMetas(todo[0].0, todo[1..])
    ensures Due(s, todo[0].0, todo, sync) <==> DueAt(s, todo[0].0, todo, sync, 0)
  {
    if i :| 0 <= i < |todo| && DueAt(s, todo[0].0, todo, sync, i) {
      assert i > 0 ==> todo[1..][i - 1].0 == todo[0].0;
    }
  }

  lemma DueRest(s: System, id: Id, todo: Metas, sync: bool)
    requires |todo| > 0 && id != todo[0].0
    ensures Due(s, id, todo, sync) <==> Due(s, id, todo[1..], sync)
  {
    if i :| 0 <= i < |todo| && DueAt(s, id, todo, sync, i) { assert DueAt(s, id, todo[1..], sync, i - 1); }
    if i :| 0 <= i < |todo[1..]| && DueAt(s, id, todo[1..], sync, i) { assert DueAt(s, id, todo, sync, i + 1); }
  }

  lemma TrackDisable(s: System, t: System, step: Step, w: World, id: Id, due: bool, failed: bool)
    requires Inv(s, w) && MainNext(s, t, step, w) && Tracked(s, id, due, failed)
    requires step.AllAssigned? || step.Disable? || step.AllDisabled? || step.DropPeer?
    ensures Tracked(t, id, due, failed)
  {
    hide Honest, Part, Underway, Backed, Without, Owned;
    if id in s.members { assert MemberOk(s, id, w); }
  }

  lemma TrackWait(s: System, t: System, step: Step, w: World, id: Id, due: bool, failed: bool)
    requires Inv(s, w) && MainNext(s, t, step, w) && Tracked(s, id, due, failed)
    requires step.Wait? || step.Emptied? || step.Return?
    ensures Tracked(t, id, due, failed)
  {
    hide RoundOk, MemberOk, Owned, InMetas;
    if id in s.members { Waited(s, id, w); }
    assert s.main.Emptying? ==> s.main.after.Disabling? || s.main.after.Waiting? by { AfterEmptying(s, w); }
  }

  lemma AfterEmptying(s: System, w: World)
    requires RoundOk(s, w)
    ensures s.main.Emptying? ==> s.main.after.Disabling? || s.main.after.Waiting?
  {
    hide Honest;
  }

  /** What the main thread finds when it waits for a worker, and when it has emptied a member. */
  lemma Waited(s: System, id: Id, w: World)
    requires id in s.members && MemberOk(s, id, w)
    ensures var m := s.members[id];
      && (s.main.Waiting? && m.worker.WorkerIdle? && !m.job.JobIdle? ==>
        m.job.Complete? && m.share.Ready? && m.pc.Blocked?)
      && (s.main == Waiting([]) ==> m.job.JobIdle?)
      && (s.main.Emptying? && s.main.id == id ==>
           if s.main.after.Disabling? then m.job.JobIdle? else m.job.Complete? && m.err && m.pc.Blocked?)
  {
    hide FrameOps, ApplyAll, Part, JobOk, Backed, AtRest, AllOrNothing;
  }

  lemma TrackStep(s: System, t: System, step: Step, w: World, id: Id, due: bool, failed: bool)
    requires Apart(w) && Inv(s, w) && Next(s, t, step, w) && Tracked(s, id, due, failed)
    requires !s.main.Between?
    ensures Tracked(t, id, due, failed || step == Fail(id)) && (t.main.Between? <==> step.Return?)
  {
    hide Tracked, Inv, MainNext, WorkerMoves, Apart;
    KeepsGoing(s, t, step, w);
    if MainNext(s, t, step, w) {
      assert RoundOk(s, w) by { JustRound(s, w); }
      MainSteps(s, t, step, w);
      match step
      case Create => TrackCreate(s, t, w, id, due, failed);
      case Assign => TrackAssign(s, t, w, id, due, failed);
      case Wait => TrackWait(s, t, step, w, id, due, failed);
      case Emptied => TrackWait(s, t, step, w, id, due, failed);
      case Return => TrackWait(s, t, step, w, id, due, failed);
      case _ => TrackDisable(s, t, step, w, id, due, failed);
    } else {
      TrackWorker(s, t, step, w, id, due, failed);
    }
  }

  lemma JustRound(s: System, w: World)
    requires Inv(s, w)
    ensures RoundOk(s, w)
  {
    hide RoundOk, MemberOk;
  }

  lemma KeepsGoing(s: System, t: System, step: Step, w: World)
    requires Inv(s, w) && Next(s, t, step, w) && !s.main.Between?
    ensures !step.Begin? && (t.main.Between? <==> step.Return?)
  {
    hide Honest, MemberOk, Owned, Without, ApplyAll, RenOps;
  }

  // ---------------------------------------------------------------- whole rounds

  ghost predicate Path(states: seq<System>, steps: seq<Step>, w: World) {
    |states| == |steps| + 1 && forall i :: 0 <= i < |steps| ==> Next(states[i], states[i + 1], steps[i], w)
  }

  /** One call: from the metadata to the return, however the threads interleave. */
  ghost predicate Round(states: seq<System>, steps: seq<Step>, w: World) {
    && Path(states, steps, w) && |steps| > 1 && steps[0].Begin? && steps[|steps| - 1].Return?
    && forall i :: 0 < i < |steps| - 1 ==> !steps[i].Return?
  }

  /** The member has a frame in the round that it can apply, and its worker does not give up. */
  ghost predicate Contributes(s: System, steps: seq<Step>, id: Id)
    requires |steps| > 0 && steps[0].Begin?
  {
    Due(s, id, steps[0].metas, steps[0].sync) && !Gave(steps, id)
  }

  lemma {:induction false} PathInv(states: seq<System>, steps: seq<Step>, w: World, n: nat)
    requires Apart(w) && Path(states, steps, w) && Inv(states[0], w) && n < |states|
    ensures Inv(states[n], w)
  {
    hide Next, Apart, Inv;
    if n > 0 {
      PathInv(states, steps, w, n - 1);
      StepKeeps(states[n - 1], states[n], steps[n - 1], w);
    }
  }

  lemma TrackBegin(s: System, t: System, step: Step, w: World, id: Id)
    requires Inv(s, w) && step.Begin? && Next(s, t, step, w)
    ensures Tracked(t, id, Due(s, id, step.metas, step.sync), false) && !t.main.Between?
    ensures t.metas == step.metas && t.sync == step.sync && t.time == step.time
  {
    hide Honest, Part, Underway, Backed, AllOrNothing, Owned;
    StillDue(s, t, id, step.metas, step.sync);
    if id in s.members { assert MemberOk(s, id, w); }
    if Due(s, id, step.metas, step.sync) {
      var i :| 0 <= i < |step.metas| && DueAt(s, id, step.metas, step.sync, i);
      assert InMetas(id, step.metas);
    }
  }

  lemma SameMetas(s: System, t: System, step: Step, w: World)
    requires Inv(s, w) && Next(s, t, step, w) && !s.main.Between?
    ensures t.metas == s.metas && t.sync == s.sync && t.time == s.time
  {
    hide Inv, Without, ApplyAll, RenOps, Usable;
    KeepsGoing(s, t, step, w);
  }

  lemma GaveMore(steps: seq<Step>, n: nat, id: Id)
    requires n < |steps|
    ensures Gave(steps[..n + 1], id) <==> Gave(steps[..n], id) || steps[n] == Fail(id)
  {
    if Gave(steps[..n], id) {
      var i :| 0 <= i < n && steps[..n][i] == Fail(id);
      assert steps[..n + 1][i] == Fail(id);
    }
    if steps[n] == Fail(id) { assert steps[..n + 1][n] == Fail(id); }
    if Gave(steps[..n + 1], id) && steps[n] != Fail(id) {
      var i :| 0 <= i < n + 1 && steps[..n + 1][i] == Fail(id);
      assert steps[..n][i] == Fail(id);
    }
  }

  lemma {:induction false} TrackRound(states: seq<System>, steps: seq<Step>, w: World, id: Id, n: nat)
    requires Apart(w) && Round(states, steps, w) && Inv(states[0], w) && 0 < n < |states|
    ensures Tracked(states[n], id, Due(states[0], id, steps[0].metas, steps[0].sync), Gave(steps[..n], id))
    ensures states[n].main.Between? <==> n == |steps|
    ensures states[n].metas == steps[0].metas && states[n].sync == steps[0].sync && states[n].time == steps[0].time
  {
    hide Next, Apart, Inv, Tracked, Due, Gave;
    var i := n - 1;
    PathInv(states, steps, w, i);
    GaveMore(steps, i, id);
    assert Next(states[i], states[n], steps[i], w);
    if i == 0 {
      assert !Gave(steps[..0], id) by { NoneGave(steps, id); }
      TrackBegin(states[0], states[1], steps[0], w, id);
    } else {
      TrackRound(states, steps, w, id, i);
      TrackStep(states[i], states[n], steps[i], w, id, Due(states[0], id, steps[0].metas, steps[0].sync),
        Gave(steps[..i], id));
      SameMetas(states[i], states[n], steps[i], w);
    }
  }

  lemma NoneGave(steps: seq<Step>, id: Id)
    ensures !Gave(steps[..0], id)
  {
  }

  /** A member contributes exactly if it has a frame that it can apply and its worker does not give
      up: then its part is its whole table at the time of the round, and otherwise nothing. */
  lemma RoundOutcome(states: seq<System>, steps: seq<Step>, w: World, id: Id)
    requires Apart(w) && Round(states, steps, w) && Inv(states[0], w)
    ensures var t := states[|steps|];
      && t.main.Between? && t.time == steps[0].time && (InMetas(id, steps[0].metas) ==> id in t.members)
      && (Contributes(states[0], steps, id) ==> id in t.members)
      && (id in t.members ==>
           && (t.members[id].share.Ready? <==> Contributes(states[0], steps, id))
           && Part(t, id, w) == if Contributes(states[0], steps, id) then w.truth(id, t.time) else imap[])
  {
    hide Next, Apart, Part, Due, Gave, Inv;
    var t := states[|steps|];
    PathInv(states, steps, w, |steps|);
    TrackRound(states, steps, w, id, |steps|);
    assert steps[..|steps|] == steps;
    if id in t.members { MemberBetween(t, id, w); }
  }

  lemma MemberBetween(t: System, id: Id, w: World)
    requires Inv(t, w) && t.main.Between? && id in t.members
    ensures AllOrNothing(t.members[id], Part(t, id, w), id, t.time, w) && t.members[id].job.JobIdle?
  {
    hide Part, Owned, RoundOk;
    assert MemberOk(t, id, w);
  }

  lemma RoundOf(states: seq<System>, steps: seq<Step>, w: World, b: nat, e: nat)
    requires Run(states, steps, w) && b < e < |steps| && steps[b].Begin? && steps[e].Return?
    requires forall i :: b < i < e ==> !steps[i].Return?
    ensures Apart(w) && Round(states[b..e + 2], steps[b..e + 1], w) && Inv(states[b], w)
  {
    hide Next, Apart, Inv;
    RunInv(states, steps, w, b);
    var ss, xs := states[b..e + 2], steps[b..e + 1];
    forall i | 0 <= i < |xs| ensures Next(ss[i], ss[i + 1], xs[i], w) {
      assert ss[i] == states[b + i] && ss[i + 1] == states[b + i + 1] && xs[i] == steps[b + i];
    }
  }

  /** Over every run and every interleaving, the view that a call returns shows of each member
      exactly what its frame and the fate of its worker in that round say. */
  lemma EveryRoundOutcome(states: seq<System>, steps: seq<Step>, w: World, b: nat, e: nat, id: Id)
    requires Run(states, steps, w) && b < e < |steps| && steps[b].Begin? && steps[e].Return?
    requires forall i :: b < i < e ==> !steps[i].Return?
    ensures var t, contributes := states[e + 1], Contributes(states[b], steps[b..e + 1], id);
      && t.time == steps[b].time && (contributes || InMetas(id, steps[b].metas) ==> id in t.members)
      && (id in t.members ==>
           (t.members[id].share.Ready? <==> contributes)
           && Part(t, id, w) == if contributes then w.truth(id, t.time) else imap[])
  {
    hide Next, Init, Round, Contributes, Part, Apart, Inv;
    RoundOf(states, steps, w, b, e);
    RoundOutcome(states[b..e + 2], steps[b..e + 1], w, id);
    assert states[b..e + 2][|steps[b..e + 1]|] == states[e + 1];
  }

  /** In a diff round, those are due that contributed to the view before and have a frame again. */
  lemma DueAgain(states: seq<System>, steps: seq<Step>, w: World, b: nat, id: Id)
    requires Run(states, steps, w) && b < |steps| && steps[b].Begin? && !steps[b].sync
    ensures Due(states[b], id, steps[b].metas, false) <==>
            InMetas(id, steps[b].metas) && id in states[b].members && states[b].members[id].share.Ready?
  {
    hide Apart, Honest, Part;
    RunInv(states, steps, w, b);
    var s, metas := states[b], steps[b].metas;
    assert Next(s, states[b + 1], steps[b], w);
    if id in s.members { assert MemberOk(s, id, w); }
    if i :| 0 <= i < |metas| && DueAt(s, id, metas, false, i) { assert metas[i].0 == id; }
    if InMetas(id, metas) {
      var i :| 0 <= i < |metas| && metas[i].0 == id;
      assert metas[i].1.parent == s.time;
      assert DueAt(s, id, metas, false, i) <==> id in s.members && s.members[id].parentTime == s.time;
    }
  }

  /** Some member that contributes in the round announces the cell with the path. */
  ghost predicate Announces(s: System, steps: seq<Step>, w: World, time: nat, q: Key, path: StorePath) {
    exists id, k: PeerId :: AnnouncesAs(s, steps, w, time, q, path, id, k)
  }

  ghost predicate AnnouncesAs(s: System, steps: seq<Step>, w: World, time: nat, q: Key, path: StorePath, id: Id,
                              k: PeerId) {
    && |steps| > 0 && steps[0].Begin? && Contributes(s, steps, id)
    && k in w.names(id).peers && w.names(id).to(k) == q.1
    && (q.0, k) in w.truth(id, time) && w.truth(id, time)[(q.0, k)] == path
  }

  /** The shared table that a call returns is put together from the tables of the members that
      contribute, complete, and from nothing else. */
  lemma EveryViewAssembled(states: seq<System>, steps: seq<Step>, w: World, b: nat, e: nat, q: Key, path: StorePath)
    requires Run(states, steps, w) && b < e < |steps| && steps[b].Begin? && steps[e].Return?
    requires forall i :: b < i < e ==> !steps[i].Return?
    ensures var t := states[e + 1].table;
            q in t && t[q] == path <==> Announces(states[b], steps[b..e + 1], w, steps[b].time, q, path)
  {
    hide Next, Init, Apart, Contributes, Inv;
    var t, xs := states[e + 1], steps[b..e + 1];
    RunInv(states, steps, w, e + 1);
    if q in t.table {
      var id, k := OwnerOf(t, w, q);
      EveryRoundOutcome(states, steps, w, b, e, id);
      InPart(t, w, q, id, k);
      assert AnnouncesAs(states[b], xs, w, t.time, q, t.table[q], id, k);
    }
    if Announces(states[b], xs, w, steps[b].time, q, path) {
      var id, k: PeerId :| AnnouncesAs(states[b], xs, w, steps[b].time, q, path, id, k);
      EveryRoundOutcome(states, steps, w, b, e, id);
      InPart(t, w, q, id, k);
    }
  }

  lemma OwnerOf(t: System, w: World, q: Key) returns (id: Id, k: PeerId)
    requires Inv(t, w) && q in t.table
    ensures OwnedBy(t, w, q, id, k)
  {
    hide RoundOk, MemberOk;
    id, k :| OwnedBy(t, w, q, id, k);
  }

  lemma InPart(t: System, w: World, q: Key, id: Id, k: PeerId)
    requires k in w.names(id).peers && w.names(id).to(k) == q.1
    ensures (q.0, k) in Part(t, id, w) <==> q in t.table
    ensures q in t.table ==> Part(t, id, w)[(q.0, k)] == t.table[q]
  {
  }
}
