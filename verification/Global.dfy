/** Global mode: one worker thread per member applies that member's frames to a shared view
    while the main thread hands out jobs, disables idle members and waits. Each step below is
    one critical section. Members file their cells in one table, under names of their own. */
module Global {
  import opened Net
  import opened RowCodec
  import opened Tables
  import opened Naming

  type Id = nat

  datatype WorkerState = WorkerBusy | WorkerIdle
  datatype JobState = JobIdle | Assigned | Complete

  /** Whether the member has touched the shared view. */
  datatype Share = Empty | Ready

  /** Where a worker thread is between its critical sections. */
  datatype Pc =
    | Starting
    | Blocked
    | Listing(unnamed: set<PeerId>)
    | Working(left: seq<CellOp>, lost: bool)
    | Finishing

  datatype Job = Job(time: nat, parent: nat, peers: set<PeerId>, rows: seq<PfxRow>)

  /** `named` are the peers in the member's identifier map. */
  datatype Member = Member(worker: WorkerState, job: JobState, share: Share, pc: Pc, err: bool,
                           parentTime: int, work: Job, named: set<PeerId>)

  type Metas = seq<(Id, Job)>

  datatype Main =
    | Between
    | Assigning(todo: Metas)
    | Disabling(ids: set<Id>)
    | Waiting(todo: Metas)
    | Emptying(id: Id, left: set<PeerId>, after: Main)

  datatype System = System(members: map<Id, Member>, main: Main, metas: Metas, sync: bool, time: nat, table: Table)

  /** The announced table of each member at each time, and the local names of its peers. */
  datatype World = World(truth: (Id, nat) -> Table, names: Id -> Names)

  /** Members own disjoint peers. */
  ghost predicate Apart(w: World) {
    && (forall id :: Injective(w.names(id)))
    && forall id, other :: id != other ==> Disjoint(w.names(id), w.names(other))
  }

  const NO_JOB := Job(0, 0, {}, [])
  const NEW_MEMBER := Member(WorkerBusy, JobIdle, Empty, Starting, false, 0, NO_JOB, {})

  ghost predicate PutsIn(xs: seq<CellOp>, peers: set<PeerId>) {
    forall i :: 0 <= i < |xs| && xs[i].Put? ==> xs[i].key.1 in peers
  }

  /** The frame announces only peers that it lists, and speaks only of peers of the member. */
  ghost predicate JobOk(job: Job, ren: Names) {
    (forall k | k in job.peers :: k in ren.peers) && KeysOf(FrameOps(job.rows), ren) &&
      PutsIn(FrameOps(job.rows), job.peers)
  }

  /** The frame is honest: it says how the member's table changed. */
  ghost predicate Honest(job: Job, id: Id, sync: bool, time: nat, w: World) {
    && job.time == time && JobOk(job, w.names(id))
    && DiffOf(FrameOps(job.rows), if sync then imap[] else w.truth(id, job.parent), w.truth(id, time))
  }

  /** Each member contributes one frame, all of one time and kind. */
  ghost predicate Usable(metas: Metas, sync: bool, time: nat, viewTime: nat, w: World) {
    && time > 0 && |metas| > 0 && (forall i, j :: 0 <= i < j < |metas| ==> metas[i].0 != metas[j].0)
    && forall i :: 0 <= i < |metas| ==>
         (!sync ==> metas[i].1.parent == viewTime && viewTime > 0) && Honest(metas[i].1, metas[i].0, sync, time, w)
  }

  // ---------------------------------------------------------------- steps of the main thread

  datatype Step =
    | Begin(metas: Metas, sync: bool, time: nat)
    | Create
    | Assign
    | AllAssigned
    | Disable(id: Id)
    | DropPeer(k: PeerId)
    | Emptied
    | AllDisabled
    | Wait
    | Return
    | Start(id: Id)
    | Take(id: Id)
    | NameOne(id: Id, k: PeerId)
    | Listed(id: Id)
    | ApplyOne(id: Id)
    | LoseOne(id: Id)
    | Fail(id: Id)
    | Done(id: Id)
    | Finish(id: Id)

  /** A sync frame makes the member forget all names. */
  function Given(m: Member, job: Job, sync: bool): Member {
    var m' := if sync then m.(named := {}, share := Empty) else m;
    m'.(parentTime := job.time, work := job, worker := WorkerBusy, job := Assigned)
  }

  ghost predicate MainNext(s: System, t: System, step: Step, w: World) {
    match step
    case Begin(metas, sync, time) =>
      && s.main.Between? && Usable(metas, sync, time, s.time, w)
      && t == System(s.members, Assigning(metas), metas, sync, time, if sync then imap[] else s.table)
    case Create =>
      && s.main.Assigning? && |s.main.todo| > 0 && s.main.todo[0].0 !in s.members
      && t == s.(members := s.members[s.main.todo[0].0 := NEW_MEMBER])
    case Assign =>
      && s.main.Assigning? && |s.main.todo| > 0 && s.main.todo[0].0 in s.members
      && var id, job := s.main.todo[0].0, s.main.todo[0].1;
         var m := s.members[id];
         && !m.pc.Starting?
         && var m' := if !s.sync && job.parent != m.parentTime then m else Given(m, job, s.sync);
            t == s.(members := s.members[id := m'], main := Assigning(s.main.todo[1..]))
    case AllAssigned => s.main == Assigning([]) && t == s.(main := Disabling(s.members.Keys))
    case Disable(id) =>
      && s.main.Disabling? && id in s.main.ids && id in s.members
      && var m, rest := s.members[id], Disabling(s.main.ids - {id});
         t == s.(main := if m.job.JobIdle? && m.share.Ready? then Emptying(id, m.named, rest) else rest)
    case DropPeer(k) =>
      && s.main.Emptying? && k in s.main.left
      && t == s.(main := s.main.(left := s.main.left - {k}), table := Without(s.table, w.names(s.main.id).to(k)))
    case Emptied =>
      && s.main.Emptying? && s.main.left == {} && s.main.id in s.members
      && t == s.(main := s.main.after,
                 members := s.members[s.main.id :=
                   s.members[s.main.id].(parentTime := -1, share := Empty, job := JobIdle)])
    case AllDisabled => s.main == Disabling({}) && t == s.(main := Waiting(s.metas))
    case Wait =>
      && s.main.Waiting? && |s.main.todo| > 0 && s.main.todo[0].0 in s.members
      && var id, rest := s.main.todo[0].0, Waiting(s.main.todo[1..]);
         var m := s.members[id];
         && (m.job.JobIdle? || m.worker.WorkerIdle?)
         && t == if m.job.JobIdle? then s.(main := rest)
                 else if m.err then s.(main := Emptying(id, m.named, rest))
                 else s.(main := rest, members := s.members[id := m.(job := JobIdle)])
    case Return => s.main == Waiting([]) && t == s.(main := Between)
    case _ => false
  }

  // ---------------------------------------------------------------- steps of a worker thread

  predicate WorkerNext(m: Member, m': Member, step: Step) {
    match step
    case Start(_) => m.pc.Starting? && m' == m.(worker := WorkerIdle, pc := Pc.Blocked)
    case Take(_) => m.pc.Blocked? && m.job.Assigned? && m' == m.(err := false, pc := Listing(m.work.peers))
    case NameOne(_, k) =>
      m.pc.Listing? && k in m.pc.unnamed && m' == m.(named := m.named + {k}, pc := Listing(m.pc.unnamed - {k}))
    case Listed(_) => m.pc == Listing({}) && m' == m.(pc := Working(FrameOps(m.work.rows), false))
    case ApplyOne(_) => m.pc.Working? && |m.pc.left| > 0 && m' == m.(pc := Working(m.pc.left[1..], m.pc.lost))
    case LoseOne(_) => m.pc.Working? && |m.pc.left| > 0 && m' == m.(pc := Working(m.pc.left[1..], true))
    case Fail(_) => (m.pc.Listing? || m.pc.Working?) && m' == m.(err := true, pc := Finishing)
    case Done(_) => m.pc.Working? && |m.pc.left| == 0 && !m.pc.lost && m' == m.(pc := Finishing)
    case Finish(_) => m.pc.Finishing? &&
      m' == m.(share := Ready, job := Complete, worker := WorkerIdle, pc := Pc.Blocked)
    case _ => false
  }

  /** The cells that the step writes. */
  function Written(m: Member, step: Step): seq<CellOp> {
    if step.ApplyOne? && m.pc.Working? && |m.pc.left| > 0 then [m.pc.left[0]] else []
  }

  function Mover(step: Step): Id {
    match step
    case Start(id) => id case Take(id) => id case NameOne(id, _) => id case Listed(id) => id case ApplyOne(id) => id
    case LoseOne(id) => id case Fail(id) => id case Done(id) => id case Finish(id) => id case _ => 0
  }

  ghost predicate WorkerMoves(s: System, t: System, step: Step, w: World) {
    var id := Mover(step);
    && id in s.members && id in t.members && WorkerNext(s.members[id], t.members[id], step)
    && t == s.(members := s.members[id := t.members[id]],
               table := ApplyAll(s.table, RenOps(Written(s.members[id], step), w.names(id))))
  }

  ghost predicate Next(s: System, t: System, step: Step, w: World) {
    MainNext(s, t, step, w) || WorkerMoves(s, t, step, w)
  }

  ghost predicate Init(s: System) { s.members == map[] && s.main.Between? && s.time == 0 && s.table == imap[] }

  // ---------------------------------------------------------------- the handshake

  /** The states of a worker and its job that can be seen outside a critical section. */
  ghost predicate Handshake(m: Member) {
    || (m.worker.WorkerBusy? && m.job.JobIdle? && m.pc.Starting?)
    || (m.worker.WorkerIdle? && m.job.JobIdle? && m.pc.Blocked?)
    || (m.worker.WorkerBusy? && m.job.Assigned? && !m.pc.Starting?)
    || (m.worker.WorkerIdle? && m.job.Complete? && m.pc.Blocked?)
  }

  // ---------------------------------------------------------------- the contents

  /** The member's part of the shared table, under its own names. */
  ghost function Part(s: System, id: Id, w: World): Table { Pull(s.table, w.names(id)) }

  /** Whoever has a cell in the part is in the identifier map. */
  ghost predicate Backed(named: set<PeerId>, part: Table, ren: Names) {
    (forall k | k in named :: k in ren.peers) && forall q: Key | q in part :: q.1 in named
  }

  /** A member with a job: what its part of the table will be if nothing goes wrong. */
  ghost predicate Underway(m: Member, part: Table, id: Id, time: nat, w: World) {
    && m.parentTime == time == m.work.time && JobOk(m.work, w.names(id))
    && match m.pc
       case Starting => false
       case Blocked =>
         if m.job.Assigned? then ApplyAll(part, FrameOps(m.work.rows)) == w.truth(id, time)
         else m.share.Ready? && (!m.err ==> part == w.truth(id, time))
       case Listing(unnamed) =>
         !m.err && m.work.peers <= m.named + unnamed && unnamed <= m.work.peers &&
           ApplyAll(part, FrameOps(m.work.rows)) == w.truth(id, time)
       case Working(left, lost) =>
         && !m.err && m.work.peers <= m.named && KeysOf(left, w.names(id)) && PutsIn(left, m.work.peers)
         && (!lost ==> ApplyAll(part, left) == w.truth(id, time))
       case Finishing => !m.err ==> part == w.truth(id, time)
  }

  /** A member without a job, as the last round left it or as a sync has just cleared it. */
  ghost predicate AtRest(m: Member, part: Table, id: Id, cleared: bool, w: World) {
    && (cleared ==> part == imap[])
    && (m.share.Empty? ==> part == imap[] && m.parentTime <= 0)
    && (m.share.Ready? ==> m.parentTime > 0 && (!cleared ==> part == w.truth(id, m.parentTime)))
  }

  /** All or nothing: the member shows its whole table at the view's time, or nothing. */
  ghost predicate AllOrNothing(m: Member, part: Table, id: Id, time: nat, w: World) {
    && (m.share.Empty? ==> part == imap[] && m.parentTime <= 0)
    && (m.share.Ready? ==> m.parentTime == time > 0 && part == w.truth(id, time))
  }

  ghost predicate InMetas(id: Id, metas: Metas) { exists i :: 0 <= i < |metas| && metas[i].0 == id }

  /** A member whose peers are being taken out of the view, one critical section each. */
  ghost predicate BeingEmptied(m: Member, part: Table, left: set<PeerId>, after: Main) {
    && m.worker.WorkerIdle? && left <= m.named && (forall q: Key | q in part :: q.1 in left)
    && (if after.Disabling? then m.job.JobIdle? else after.Waiting? && m.job.Complete? && m.err)
  }

  function Phase(main: Main): Main { if main.Emptying? then main.after else main }

  ghost predicate InPhase(m: Member, part: Table, id: Id, s: System, main: Main, w: World) {
    match main
    case Between => m.job.JobIdle? && !m.pc.Starting? && AllOrNothing(m, part, id, s.time, w)
    case Assigning(todo) =>
      && (m.job.JobIdle? ==> AtRest(m, part, id, s.sync, w)) && (InMetas(id, todo) ==> m.job.JobIdle?)
      && (m.pc.Starting? ==> m.share.Empty? && InMetas(id, todo))
    case Disabling(ids) =>
      && !m.pc.Starting? && (m.job.JobIdle? ==> AtRest(m, part, id, s.sync, w))
      && (id !in ids && m.job.JobIdle? ==> m.share.Empty?)
    case Waiting(todo) =>
      && !m.pc.Starting? && (m.job.JobIdle? ==> AllOrNothing(m, part, id, s.time, w)) &&
        (!m.job.JobIdle? ==> InMetas(id, todo))
    case Emptying(_, _, _) => false
  }

  ghost predicate MemberOk(s: System, id: Id, w: World)
    requires id in s.members
  {
    var m, part := s.members[id], Part(s, id, w);
    && Handshake(m) && Backed(m.named, part, w.names(id))
    && (!m.job.JobIdle? ==> Underway(m, part, id, s.time, w) && InMetas(id, s.metas))
    && if s.main.Emptying? && s.main.id == id then BeingEmptied(m, part, s.main.left, s.main.after)
       else InPhase(m, part, id, s, Phase(s.main), w)
  }

  /** The frames of the round are honest, and those still to be handed out are among them. */
  ghost predicate RoundOk(s: System, w: World) {
    && (s.main.Assigning? ==>
         && (forall i, j :: 0 <= i < j < |s.main.todo| ==> s.main.todo[i].0 != s.main.todo[j].0)
         && (forall i :: 0 <= i < |s.main.todo| ==> s.main.todo[i] in s.metas))
    && (s.main.Emptying? ==> s.main.id in s.members && (s.main.after.Disabling? || s.main.after.Waiting?))
    && (!s.main.Between? ==>
      s.time > 0 && forall x | x in s.metas :: (!s.sync ==> x.1.parent > 0) && Honest(x.1, x.0, s.sync, s.time, w))
  }

  /** Every cell of the shared table belongs to a peer of some member. */
  ghost predicate Owned(s: System, w: World) {
    forall q: Key | q in s.table :: exists id, k: PeerId :: OwnedBy(s, w, q, id, k)
  }

  ghost predicate OwnedBy(s: System, w: World, q: Key, id: Id, k: PeerId) {
    id in s.members && k in w.names(id).peers && w.names(id).to(k) == q.1
  }

  ghost predicate Inv(s: System, w: World) {
    RoundOk(s, w) && Owned(s, w) && forall id | id in s.members :: MemberOk(s, id, w)
  }

  // ---------------------------------------------------------------- workers keep it

  lemma {:induction false} ApplyFirst(t: Table, xs: seq<CellOp>)
    requires |xs| > 0
    ensures ApplyAll(Apply(t, xs[0]), xs[1..]) == ApplyAll(t, xs) && ApplyAll(t, [xs[0]]) == Apply(t, xs[0])
  {
    assert xs == xs[..1] + xs[1..] && xs[..1] == [xs[0]];
    ApplyMore(t, xs[..1], xs[1..]);
    assert xs[..1][..0] == [];
  }

  lemma WorkerKeeps(m: Member, m': Member, part: Table, part': Table, step: Step, id: Id, time: nat, w: World)
    requires Handshake(m) && WorkerNext(m, m', step) && Backed(m.named, part, w.names(id))
    requires !m.job.JobIdle? ==> Underway(m, part, id, time, w)
    requires part' == ApplyAll(part, Written(m, step))
    ensures Handshake(m') && (m'.job.JobIdle? <==> m.job.JobIdle?) && (m'.pc.Starting? ==> m.pc.Starting?)
    ensures Backed(m'.named, part', w.names(id))
    ensures !m'.job.JobIdle? ==> Underway(m', part', id, time, w)
    ensures m.job.JobIdle? ==> m'.share == m.share && part' == part && m'.parentTime == m.parentTime
  {
    hide FrameOps;
    if step.ApplyOne? { ApplyFirst(part, m.pc.left); }
  }

  lemma WrittenKeys(m: Member, part: Table, step: Step, id: Id, time: nat, w: World)
    requires Handshake(m) && (!m.job.JobIdle? ==> Underway(m, part, id, time, w))
    ensures KeysOf(Written(m, step), w.names(id))
  {
  }

  /** The step of one worker changes its own part as its frame says, and no other part. */
  lemma WorkerParts(s: System, t: System, step: Step, w: World)
    requires Apart(w) && Inv(s, w) && WorkerMoves(s, t, step, w)
    ensures Part(t, Mover(step), w) == ApplyAll(Part(s, Mover(step), w), Written(s.members[Mover(step)], step))
    ensures forall h :: h != Mover(step) ==> Part(t, h, w) == Part(s, h, w)
    ensures Owned(t, w)
  {
    hide Pull, ApplyAll, Disjoint, Injective, RenOps, InPhase, BeingEmptied, Backed, Underway, WorkerNext;
    var id := Mover(step);
    var m := s.members[id];
    assert MemberOk(s, id, w);
    WrittenKeys(m, Part(s, id, w), step, id, s.time, w);
    PullAll(s.table, Written(m, step), w.names(id));
    forall h | h != id ensures Part(t, h, w) == Part(s, h, w) {
      OtherAll(s.table, Written(m, step), w.names(id), w.names(h));
    }
    StillOwned(s, t, Written(m, step), id, w);
  }

  lemma StillOwned(s: System, t: System, xs: seq<CellOp>, id: Id, w: World)
    requires Owned(s, w) && id in s.members && t.members.Keys == s.members.Keys && |xs| <= 1 && KeysOf(xs, w.names(id))
    requires t.table == ApplyAll(s.table, RenOps(xs, w.names(id)))
    ensures Owned(t, w)
  {
    var ys := RenOps(xs, w.names(id));
    if |xs| == 1 { assert ys[..0] == [] && t.table == Apply(s.table, ys[0]); }
    forall q: Key | q in t.table ensures exists h, k: PeerId :: OwnedBy(t, w, q, h, k) {
      if q in s.table {
        var h, k: PeerId :| OwnedBy(s, w, q, h, k);
        assert OwnedBy(t, w, q, h, k);
      } else {
        assert OwnedBy(t, w, q, id, xs[0].key.1);
      }
    }
  }

  lemma WorkerStep(s: System, t: System, step: Step, w: World)
    requires Apart(w) && Inv(s, w) && WorkerMoves(s, t, step, w)
    ensures Inv(t, w)
  {
    hide MemberOk, WorkerNext, Honest, Part, Owned, ApplyAll, Apart, RoundOk;
    WorkerParts(s, t, step, w);
    SameRound(s, t, w);
    forall h | h in t.members ensures MemberOk(t, h, w) {
      assert MemberOk(s, h, w);
      if h == Mover(step) { MoverOk(s, t, step, w); } else { OtherOk(s, t, h, w); }
    }
  }

  lemma SameRound(s: System, t: System, w: World)
    requires RoundOk(s, w) && t.main == s.main && t.metas == s.metas && t.sync == s.sync && t.time == s.time
    requires s.members.Keys <= t.members.Keys
    ensures RoundOk(t, w)
  {
    hide Honest;
  }

  lemma MoverOk(s: System, t: System, step: Step, w: World)
    requires WorkerMoves(s, t, step, w) && MemberOk(s, Mover(step), w)
    requires Part(t, Mover(step), w) == ApplyAll(Part(s, Mover(step), w), Written(s.members[Mover(step)], step))
    ensures MemberOk(t, Mover(step), w)
  {
    hide Underway, Handshake, WorkerNext, Backed, Part, ApplyAll, RenOps, BeingEmptied, Written;
    NotWhileEmptied(s, t, step, w);
    var id := Mover(step);
    WorkerKeeps(s.members[id], t.members[id], Part(s, id, w), Part(t, id, w), step, id, s.time, w);
  }

  /** A member that a step does not touch, while the round goes on. */
  lemma OtherOk(s: System, t: System, id: Id, w: World)
    requires id in s.members && MemberOk(s, id, w) && id in t.members && t.members[id] == s.members[id]
    requires Part(t, id, w) == Part(s, id, w) && t.metas == s.metas && t.sync == s.sync && t.time == s.time
    requires t.main == s.main
    ensures MemberOk(t, id, w)
  {
    hide Underway, Handshake, Backed, Part, AtRest, AllOrNothing;
  }

  lemma SamePart(s: System, t: System, id: Id, w: World)
    requires t.table == s.table
    ensures Part(t, id, w) == Part(s, id, w)
  {
  }

  /** A worker has nothing to do while its member is being emptied. */
  lemma NotWhileEmptied(s: System, t: System, step: Step, w: World)
    requires WorkerMoves(s, t, step, w) && MemberOk(s, Mover(step), w)
    ensures !(s.main.Emptying? && s.main.id == Mover(step))
  {
    hide Underway, Backed, Part, ApplyAll, RenOps, InPhase;
  }

  // ---------------------------------------------------------------- the main thread keeps it

  lemma NoPart(ren: Names)
    ensures Pull(imap[], ren) == imap[]
  {
    SameTable(Pull(imap[], ren), imap[]);
  }

  lemma BeginOne(s: System, t: System, step: Step, id: Id, w: World)
    requires step.Begin? && MainNext(s, t, step, w) && id in s.members && MemberOk(s, id, w)
    ensures MemberOk(t, id, w)
  {
    hide Honest, Pull;
    NoPart(w.names(id));
  }

  /** The frames of a round stay honest while the main thread works through them. */
  lemma RoundKeeps(s: System, t: System, step: Step, w: World)
    requires RoundOk(s, w) && MainNext(s, t, step, w)
    ensures RoundOk(t, w)
  {
    hide Honest, Without;
    if step.Begin? {
      forall x | x in t.metas ensures (!t.sync ==> x.1.parent > 0) && Honest(x.1, x.0, t.sync, t.time, w) {
        var i :| 0 <= i < |t.metas| && t.metas[i] == x;
      }
    }
  }

  lemma OwnersKeep(s: System, t: System, step: Step, w: World)
    requires Owned(s, w) && MainNext(s, t, step, w)
    ensures Owned(t, w)
  {
    hide Owned, Usable;
    SameOwners(s, t, w);
  }

  /** Where no cell is added and no member is lost, every cell still has its owner. */
  lemma SameOwners(s: System, t: System, w: World)
    requires Owned(s, w) && s.members.Keys <= t.members.Keys && forall q: Key | q in t.table :: q in s.table
    ensures Owned(t, w)
  {
    forall q: Key | q in t.table ensures exists h, k: PeerId :: OwnedBy(t, w, q, h, k) {
      var h, k: PeerId :| OwnedBy(s, w, q, h, k);
      assert OwnedBy(t, w, q, h, k);
    }
  }

  /** Nobody else's names: a member that has never had a turn has no part. */
  lemma StrangerPart(s: System, id: Id, w: World)
    requires Apart(w) && Owned(s, w) && id !in s.members
    ensures Part(s, id, w) == imap[]
  {
    forall q: Key ensures q !in Part(s, id, w) {
      if q in Part(s, id, w) {
        var r: Key := (q.0, w.names(id).to(q.1));
        var h, k: PeerId :| OwnedBy(s, w, r, h, k);
        NoSharedName(w, id, q.1, h, k);
      }
    }
    SameTable(Part(s, id, w), imap[]);
  }

  lemma NoSharedName(w: World, id: Id, k: PeerId, other: Id, h: PeerId)
    requires Apart(w) && id != other && k in w.names(id).peers && h in w.names(other).peers
    ensures w.names(id).to(k) != w.names(other).to(h)
  {
    assert Disjoint(w.names(id), w.names(other));
  }

  lemma CreateOne(s: System, t: System, step: Step, id: Id, w: World)
    requires Apart(w) && Owned(s, w) && step.Create? && MainNext(s, t, step, w) && id in t.members
    requires id in s.members ==> MemberOk(s, id, w)
    ensures MemberOk(t, id, w)
  {
    hide MemberOk, Owned, Apart, Part;
    SamePart(s, t, id, w);
    if id in s.members {
      OtherOk(s, t, id, w);
    } else {
      StrangerPart(s, id, w);
      NewOk(t, id, w);
    }
  }

  lemma NewOk(t: System, id: Id, w: World)
    requires t.main.Assigning? && |t.main.todo| > 0 && t.main.todo[0].0 == id && Part(t, id, w) == imap[]
    requires id in t.members && t.members[id] == NEW_MEMBER
    ensures MemberOk(t, id, w)
  {
    hide Part;
    assert InMetas(id, t.main.todo);
  }

  /** A job is handed out over the very part that its frame is a diff of. */
  lemma AssignedUnderway(s: System, w: World)
    requires RoundOk(s, w) && s.main.Assigning? && |s.main.todo| > 0 && s.main.todo[0].0 in s.members
    requires MemberOk(s, s.main.todo[0].0, w)
    requires s.sync || s.main.todo[0].1.parent == s.members[s.main.todo[0].0].parentTime
    ensures var id, job := s.main.todo[0].0, s.main.todo[0].1;
      && ApplyAll(Part(s, id, w), FrameOps(job.rows)) == w.truth(id, s.time)
      && Honest(job, id, s.sync, s.time, w) && InMetas(id, s.metas) && s.members[id].job.JobIdle?
      && (s.sync ==> Part(s, id, w) == imap[])
  {
    hide FrameOps, Part, Underway;
    var x := s.main.todo[0];
    assert InMetas(x.0, s.main.todo);
    assert x in s.metas;
    var i :| 0 <= i < |s.metas| && s.metas[i] == x;
    assert s.metas[i].0 == x.0;
    DiffApplies(FrameOps(x.1.rows), Part(s, x.0, w), w.truth(x.0, s.time));
  }

  lemma AssignOne(s: System, t: System, id: Id, w: World)
    requires RoundOk(s, w) && MainNext(s, t, Assign, w) && id in s.members && MemberOk(s, id, w)
    ensures MemberOk(t, id, w)
  {
    hide Part, InMetas, RoundOk, MemberOk;
    SamePart(s, t, id, w);
    RestOf(s.main.todo, id);
    if id != s.main.todo[0].0 || (!s.sync && s.main.todo[0].1.parent != s.members[id].parentTime) {
      PassedOver(s, t, id, w);
    } else {
      AssignedUnderway(s, w);
      OnlyOnce(s, w);
      GivenOk(s, t, id, w);
    }
  }

  lemma OnlyOnce(s: System, w: World)
    requires RoundOk(s, w) && s.main.Assigning? && |s.main.todo| > 0
    ensures !InMetas(s.main.todo[0].0, s.main.todo[1..])
  {
    hide Honest;
  }

  lemma PassedOver(s: System, t: System, id: Id, w: World)
    requires s.main.Assigning? && id in s.members && MemberOk(s, id, w) && id in t.members
    requires t.members[id] == s.members[id]
    requires Part(t, id, w) == Part(s, id, w) && t.metas == s.metas && t.sync == s.sync && t.time == s.time
    requires t.main.Assigning?
    requires InMetas(id, s.main.todo) && s.members[id].pc.Starting? ==> InMetas(id, t.main.todo)
    requires InMetas(id, t.main.todo) ==> InMetas(id, s.main.todo)
    ensures MemberOk(t, id, w)
  {
    hide Underway, Handshake, Backed, Part, AtRest, InMetas;
  }

  lemma GivenOk(s: System, t: System, id: Id, w: World)
    requires s.main.Assigning? && |s.main.todo| > 0 && s.main.todo[0].0 == id && id in s.members && MemberOk(s, id, w)
    requires id in t.members && t.members[id] == Given(s.members[id], s.main.todo[0].1, s.sync)
    requires !s.members[id].pc.Starting?
    requires Part(t, id, w) == Part(s, id, w) && t.metas == s.metas && t.sync == s.sync && t.time == s.time
    requires t.main.Assigning?
    requires ApplyAll(Part(s, id, w), FrameOps(s.main.todo[0].1.rows)) == w.truth(id, s.time)
    requires s.members[id].job.JobIdle?
    requires InMetas(id, s.metas) && Honest(s.main.todo[0].1, id, s.sync, s.time, w)
    requires (s.sync ==> Part(s, id, w) == imap[])
    requires !InMetas(id, t.main.todo)
    ensures MemberOk(t, id, w)
  {
    hide DiffOf, FrameOps, ApplyAll, Part, JobOk, InMetas;
  }

  lemma RestOf(todo: Metas, id: Id)
    requires |todo| > 0
    ensures InMetas(id, todo) <==> id == todo[0].0 || InMetas(id, todo[1..])
  {
    if InMetas(id, todo) && id != todo[0].0 {
      var i :| 0 <= i < |todo| && todo[i].0 == id;
      assert todo[1..][i - 1].0 == id;
    }
    if InMetas(id, todo[1..]) {
      var i :| 0 <= i < |todo[1..]| && todo[1..][i].0 == id;
      assert todo[i + 1].0 == id;
    }
  }

  lemma DisableOne(s: System, t: System, step: Step, id: Id, w: World)
    requires (step.Disable? || step.AllAssigned? || step.AllDisabled?) && MainNext(s, t, step, w)
    requires id in s.members && MemberOk(s, id, w)
    ensures MemberOk(t, id, w)
  {
    hide Honest, Underway, Part;
    SamePart(s, t, id, w);
  }

  /** Dropping a peer takes its cells out of the member's part, and nothing out of any other. */
  lemma DropOne(s: System, t: System, step: Step, id: Id, w: World)
    requires Apart(w) && step.DropPeer? && MainNext(s, t, step, w) && id in s.members && MemberOk(s, id, w)
    requires s.main.id in s.members && MemberOk(s, s.main.id, w)
    ensures MemberOk(t, id, w)
  {
    hide Part, FrameOps, ApplyAll, JobOk, Without, Injective, Disjoint;
    DropParts(s, t, step, id, w);
    if id == s.main.id { DropOwn(s, t, step, w); } else { DropOther(s, t, id, w); }
  }

  lemma DropParts(s: System, t: System, step: Step, id: Id, w: World)
    requires Apart(w) && step.DropPeer? && MainNext(s, t, step, w) && step.k in w.names(s.main.id).peers
    ensures Part(t, id, w) == if id == s.main.id then Without(Part(s, id, w), step.k) else Part(s, id, w)
  {
    hide Pull, Without, Injective, Disjoint;
    if id == s.main.id {
      OwnDrop(s.table, step.k, w.names(id));
    } else {
      OtherDrop(s.table, step.k, w.names(s.main.id), w.names(id));
    }
  }

  lemma DropOwn(s: System, t: System, step: Step, w: World)
    requires step.DropPeer? && MainNext(s, t, step, w) && s.main.id in s.members && MemberOk(s, s.main.id, w)
    requires Part(t, s.main.id, w) == Without(Part(s, s.main.id, w), step.k)
    ensures MemberOk(t, s.main.id, w)
  {
    hide Part, FrameOps, ApplyAll, JobOk;
  }

  lemma DropOther(s: System, t: System, id: Id, w: World)
    requires s.main.Emptying? && id in s.members && id != s.main.id && MemberOk(s, id, w) && t.members == s.members
    requires Part(t, id, w) == Part(s, id, w) && t.metas == s.metas && t.sync == s.sync && t.time == s.time
    requires t.main.Emptying? && t.main.id == s.main.id && t.main.after == s.main.after
    ensures MemberOk(t, id, w)
  {
    hide Underway, Handshake, Backed, Part, AtRest, AllOrNothing;
  }

  lemma EmptiedOne(s: System, t: System, step: Step, id: Id, w: World)
    requires step.Emptied? && MainNext(s, t, step, w) && (s.main.after.Disabling? || s.main.after.Waiting?)
    requires id in s.members && MemberOk(s, id, w)
    ensures MemberOk(t, id, w)
  {
    hide Honest, Underway, Part;
    SamePart(s, t, id, w);
    if id == s.main.id { SameTable(Part(s, id, w), imap[]); }
  }

  lemma WaitOne(s: System, t: System, step: Step, id: Id, w: World)
    requires (step.Wait? || step.Return?) && MainNext(s, t, step, w) && s.time > 0
    requires id in s.members && MemberOk(s, id, w)
    ensures MemberOk(t, id, w)
  {
    hide FrameOps, ApplyAll, Part, JobOk;
    SamePart(s, t, id, w);
    if step.Wait? { RestOf(s.main.todo, id); }
  }

  lemma StepKeeps(s: System, t: System, step: Step, w: World)
    requires Apart(w) && Inv(s, w) && Next(s, t, step, w)
    ensures Inv(t, w)
  {
    hide Inv, MainNext, WorkerMoves, Apart;
    if MainNext(s, t, step, w) { MainKeeps(s, t, step, w); } else { WorkerStep(s, t, step, w); }
  }

  lemma MainKeeps(s: System, t: System, step: Step, w: World)
    requires Apart(w) && Inv(s, w) && MainNext(s, t, step, w)
    ensures Inv(t, w)
  {
    hide MemberOk, Owned, RoundOk, Apart, MainNext;
    RoundKeeps(s, t, step, w);
    OwnersKeep(s, t, step, w);
    MainSteps(s, t, step, w);
    forall id | id in t.members ensures MemberOk(t, id, w) {
      match step
      case Begin(_, _, _) => BeginOne(s, t, step, id, w);
      case Create => CreateOne(s, t, step, id, w);
      case Assign => AssignOne(s, t, id, w);
      case DropPeer(_) => DropOne(s, t, step, id, w);
      case Emptied => EmptiedOne(s, t, step, id, w);
      case Wait => WaitOne(s, t, step, id, w);
      case Return => WaitOne(s, t, step, id, w);
      case _ => DisableOne(s, t, step, id, w);
    }
  }

  lemma MainSteps(s: System, t: System, step: Step, w: World)
    requires RoundOk(s, w) && MainNext(s, t, step, w)
    ensures step.Begin? || step.Create? || step.Assign? || step.AllAssigned? || step.Disable? || step.DropPeer?
            || step.Emptied? || step.AllDisabled? || step.Wait? || step.Return?
    ensures !step.Create? ==> t.members.Keys == s.members.Keys
    ensures step.DropPeer? || step.Emptied? ==>
            s.main.Emptying? && s.main.id in s.members && (s.main.after.Disabling? || s.main.after.Waiting?)
    ensures step.Wait? || step.Return? ==> s.time > 0
  {
    hide Honest, Without;
  }

  // ---------------------------------------------------------------- whole runs

  ghost predicate Run(states: seq<System>, steps: seq<Step>, w: World) {
    && |states| == |steps| + 1 && Init(states[0]) && Apart(w)
    && forall i :: 0 <= i < |steps| ==> Next(states[i], states[i + 1], steps[i], w)
  }

  lemma {:induction false} RunInv(states: seq<System>, steps: seq<Step>, w: World, n: nat)
    requires Run(states, steps, w) && n < |states|
    ensures Inv(states[n], w)
  {
    hide Next, Apart;
    if n > 0 {
      RunInv(states, steps, w, n - 1);
      StepKeeps(states[n - 1], states[n], steps[n - 1], w);
    }
  }

  /** Whenever a call has returned, every member's part of the shared table is its whole table
      at the view's time or nothing, and a member marked empty shows nothing. */
  lemma EveryRoundAllOrNothing(states: seq<System>, steps: seq<Step>, w: World, n: nat, id: Id)
    requires Run(states, steps, w) && n < |states| && states[n].main.Between? && id in states[n].members
    ensures AllOrNothing(states[n].members[id], Part(states[n], id, w), id, states[n].time, w)
  {
    hide Next, Init, Apart, Part;
    RunInv(states, steps, w, n);
    assert MemberOk(states[n], id, w);
  }

  /** In every interleaving the handshake states are the only ones ever seen, and every
      assertion of the two threads holds where they make it. */
  lemma EveryAssertHolds(states: seq<System>, steps: seq<Step>, w: World, n: nat, id: Id)
    requires Run(states, steps, w) && n < |states| && id in states[n].members
    ensures Handshake(states[n].members[id])
    ensures CreateAsserts(states[n], id) && AssignAsserts(states[n], id) && TakeAsserts(states[n].members[id])
    ensures DisableAsserts(states[n], id) && WaitAsserts(states[n], id)
  {
    hide Next, Init, Honest, FrameOps, ApplyAll, Apart, Part;
    RunInv(states, steps, w, n);
    assert MemberOk(states[n], id, w);
  }

  /** A new worker, once it waits for work, has none, and its member has not touched the view.
      A member is new as long as it has never been given a frame. */
  ghost predicate CreateAsserts(s: System, id: Id)
    requires id in s.members
  {
    var m := s.members[id];
    s.main.Assigning? && |s.main.todo| > 0 && s.main.todo[0].0 == id && m.parentTime == 0 && !m.pc.Starting? ==>
      m.worker.WorkerIdle? && m.job.JobIdle? && m.share.Empty?
  }

  /** The member about to be given a job has none, and its worker is waiting for one. */
  ghost predicate AssignAsserts(s: System, id: Id)
    requires id in s.members
  {
    s.main.Assigning? && |s.main.todo| > 0 && s.main.todo[0].0 == id ==>
      s.members[id].job.JobIdle? && (!s.members[id].pc.Starting? ==> s.members[id].worker.WorkerIdle?)
  }

  ghost predicate TakeAsserts(m: Member) { m.pc.Blocked? && m.job.Assigned? ==> m.worker.WorkerBusy? }

  /** A member is only ever disabled while its worker is not busy. */
  ghost predicate DisableAsserts(s: System, id: Id)
    requires id in s.members
  {
    s.main.Disabling? && s.members[id].job.JobIdle? ==> s.members[id].worker.WorkerIdle?
  }

  /** A worker that has come back without an error has contributed; whether or not it is then
      disabled, its job is complete. */
  ghost predicate WaitAsserts(s: System, id: Id)
    requires id in s.members
  {
    var m := s.members[id];
    && (s.main.Waiting? && !m.job.JobIdle? && m.worker.WorkerIdle? ==> m.job.Complete? && m.share.Ready?)
    && (s.main.Emptying? && s.main.id == id && s.main.after.Waiting? ==> m.worker.WorkerIdle? && m.job.Complete?)
  }
}
