/** The sender and the receiver, working on views, take exactly the steps of the protocols. */
module Refinement {
  import opened Net
  import opened Lists
  import opened ViewState
  import opened ViewClass
  import opened ProducerClass
  import opened ViewSenderClass
  import opened ReceiverClass
  import opened RowCodec
  import opened Tables
  import opened Sent
  import opened Shown
  import opened Naming
  import D = Direct
  import G = Global
  import opened Progress

  ghost function Ids(peers: seq<(PeerId, PeerSig)>): set<PeerId> { set x | x in peers :: x.0 }

  // ---------------------------------------------------------------- sending

  /** The sender's copy of the last view is the protocol's last frame. */
  ghost predicate SendsAs(v: ViewSender, s: D.Producer)
    reads v, v.producer, v.parent
  {
    && v.Valid() && s.pending.None? && (v.parent == null <==> s.last.None?)
    && (v.parent != null ==> s.last.value.time == v.parent.time && s.last.value.table == v.last)
  }

  /** Publishing a view is a step of the protocol: a sync frame, announced at the offset taken
      before, on the beat; a diff otherwise; and nothing before the first sync frame. */
  method SendStep(v: ViewSender, view: View, sigOf: PeerId -> PeerSig, ghost s: D.Producer)
    returns (r: Sending, ghost mid: D.Producer, ghost s': D.Producer, ghost f: D.Frame)
    requires SendsAs(v, s) && view.Valid() && v.parent != view && view.time > 0
    requires v.parent != null ==> v.parent.time < view.time
    modifies v, v.producer, if v.parent == null then {} else {v.parent}
    ensures SendsAs(v, s') && (r.Skipped? ==> s' == s)
    ensures r.SentSync? ==> D.ProducerNext(s, mid, D.TakeOffset, v.interval)
    ensures r.SentSync? ==> D.ProducerNext(mid, s', D.SendSync(f), v.interval)
    ensures r.SentDiff? ==> D.ProducerNext(s, s', D.SendDiff(f), v.interval)
    ensures !r.Skipped? ==> f.rows == Flat(v.producer.sent)
    ensures !r.Skipped? ==> f.table == Announced(view.S(), v.producer.f, v.producer.store)
  {
    hide Inv, Announced, DiffOf, FrameOps, Flat;
    var peers;
    r, peers := v.ProcessView(view, sigOf);
    f := D.Frame(r.SentSync?, view.time, if r.SentDiff? then r.parent else 0, s.lastSync, Ids(peers),
      Flat(v.producer.sent), v.last);
    mid := s.(pending := Some(|s.meta|));
    s' := if r.Skipped? then s
      else D.Producer(s.meta + [D.Own(f)], Some(f), if r.SentSync? then |s.meta| else s.lastSync, None);
    if !r.Skipped? {
      forall q: Key | q in v.last ensures q.1 in Ids(peers) { assert (q.1, sigOf(q.1)) in peers; }
    }
  }

  // ---------------------------------------------------------------- receiving

  ghost function NamedSet(ids: IdMap): set<PeerId> { set k: PeerId | k < |ids| && ids[k] != 0 }

  /** The receiver's view, its time and its identifier map are those of the protocol's consumer. */
  ghost predicate FollowsAs(recv: Receiver, ren: Names, c: D.Consumer)
    reads recv, recv.view
  {
    recv.Holds(c.table, ren) && recv.view.time == c.time && c.named == NamedSet(recv.ids)
  }

  /** What can arrive of a frame: some of its peers, or all; some of its rows, and its end record
      or a break. */
  ghost predicate ArrivesOf(a: Arrival, f: D.Frame) {
    && Ids(a.peers) <= f.peers && (a.heard ==> Ids(a.peers) == f.peers)
    && (forall x | x in FrameOps(a.Rows()) :: x in FrameOps(f.rows))
    && (a.heard && EndOf(a).Some? ==> EndOf(a).value == End(f.time, |f.rows|) && PartOf(a.Rows(), f.rows))
  }

  ghost function EndOf(a: Arrival): Option<Msg> {
    if Ending(a.msgs).Some? && Ending(a.msgs).value.End? then Ending(a.msgs) else None
  }

  ghost predicate HasEnd(a: Arrival) { a.heard && EndOf(a).Some? }

  /** What arrives of a usable frame can be applied to the table that the consumer holds. */
  lemma ArrivalFits(a: Arrival, m: seq<D.Meta>, c: D.Consumer)
    requires D.LogOk(m) && D.ConsumerInv(m, c) && D.Usable(m, c) && ArrivesOf(a, m[c.pos].f)
    ensures Fitting(a.peers, FrameOps(a.Rows()), D.Base(m[c.pos].f, c))
  {
    hide FrameOps, RowsOf;
    var f, xs := m[c.pos].f, FrameOps(a.Rows());
    assert D.FrameOk(f, D.LastOwn(m[..c.pos]));
    if !f.sync { D.AcceptedParent(m, c); }
    NoRows(a);
    forall i | 0 <= i < |xs| ensures xs[i].Put? ==> xs[i].key.1 in Ids(a.peers) {
      assert xs[i] in FrameOps(f.rows);
      var j :| 0 <= j < |FrameOps(f.rows)| && FrameOps(f.rows)[j] == xs[i];
    }
    forall i | 0 <= i < |xs| && xs[i].Del? ensures xs[i].key in D.Base(f, c) {
      assert xs[i] in FrameOps(f.rows);
      var j :| 0 <= j < |FrameOps(f.rows)| && FrameOps(f.rows)[j] == xs[i];
    }
  }

  lemma NoRows(a: Arrival)
    ensures !a.heard ==> FrameOps(a.Rows()) == []
  {
  }

  /** The step that the protocol takes for what arrives. */
  ghost function StepOf(a: Arrival): D.ConsumerStep {
    if !HasEnd(a) then D.Break(Ids(a.peers), FrameOps(a.Rows()))
    else if a.Outcome().Done? then D.Finish(a.Rows()) else D.Miscount(a.Rows())
  }

  /** Receiving whatever arrives of a usable frame, and not waiting for more, is a step of the
      protocol: it finishes, counts wrong or breaks. */
  method RecvStep(recv: Receiver, a: Arrival, ghost ren: Names, ghost m: seq<D.Meta>, ghost c: D.Consumer, sync: bool)
    returns (r: Outcome, ghost c': D.Consumer)
    requires D.LogOk(m) && D.ConsumerInv(m, c) && D.Usable(m, c) && ArrivesOf(a, m[c.pos].f) && sync == m[c.pos].f.sync
    requires FollowsAs(recv, ren, c) && recv.Interns() && Injective(ren) && recv.Knows(a.peers, ren)
    modifies recv`ids, recv.view
    ensures r == a.Outcome() && (r.Done? <==> StepOf(a).Finish? && HasEnd(a))
    ensures !r.Starved? ==> D.ConsumerNext(m, c, c', StepOf(a)) && FollowsAs(recv, ren, c')
  {
    hide FrameOps, RowsOf, Ending, Verdict, Fitting, ApplyAll, Pull, Showing, InRange, Injective, Inv, PartOf;
    hide D.LogOk, D.ConsumerInv;
    ArrivalFits(a, m, c);
    ghost var f := m[c.pos].f;
    r := recv.RecvFrame(sync, a, ren, D.Base(f, c));
    ghost var phase := if r.Done? then D.Idle else D.Fetching(true);
    ghost var torn := if HasEnd(a) && !r.Done? then true else if f.sync then false else c.torn;
    c' := D.Consumer(ApplyAll(D.Base(f, c), FrameOps(a.Rows())), recv.view.time, NamedSet(recv.ids), c.pos + 1, phase,
      torn);
    Outcomes(a);
    SameNames(recv, old(recv.ids), a.peers, sync);
  }

  lemma SameNames(recv: Receiver, was: IdMap, peers: seq<(PeerId, PeerSig)>, sync: bool)
    requires forall k: PeerId :: Named(recv.ids, k) <==> (!sync && Named(was, k)) || recv.ListedIn(peers, k)
    ensures NamedSet(recv.ids) == (if sync then {} else NamedSet(was)) + Ids(peers)
  {
    forall k: PeerId
      ensures k in NamedSet(recv.ids) <==> k in (if sync then {} else NamedSet(was)) + Ids(peers)
    {
      assert Named(recv.ids, k) <==> (!sync && Named(was, k)) || recv.ListedIn(peers, k);
    }
  }

  lemma Outcomes(a: Arrival)
    ensures a.Outcome().Done? ==> HasEnd(a) && EndOf(a).value.cnt == |a.Rows()|
    ensures HasEnd(a) ==> (a.Outcome().Done? <==> EndOf(a).value.cnt == |a.Rows()|) && !a.Outcome().Starved?
    ensures forall t: nat :: a.Time(t) == if HasEnd(a) then EndOf(a).value.time else t
  {
  }

  // ---------------------------------------------------------------- global mode

  /** What can arrive of a member's frame: some of its peers, or all; some of its cells, and its end
      record or a break. */
  ghost predicate ArrivesFor(a: Arrival, job: G.Job) {
    && Ids(a.peers) <= job.peers && (a.heard ==> Ids(a.peers) == job.peers)
    && PartOf(FrameOps(a.Rows()), FrameOps(job.rows))
    && (HasEnd(a) ==> EndOf(a).value == End(job.time, |job.rows|) && PartOf(a.Rows(), job.rows))
  }

  /** The state with one member and the table replaced. */
  ghost function Moved(s: G.System, id: G.Id, m: G.Member, table: Table): G.System {
    s.(members := s.members[id := m], table := table)
  }

  lemma MovedTwice(s: G.System, id: G.Id, m: G.Member, m': G.Member, t: Table, t': Table)
    ensures Moved(Moved(s, id, m, t), id, m', t') == Moved(s, id, m', t')
  {
    assert s.members[id := m][id := m'] == s.members[id := m'];
  }

  /** One step of a worker that writes no cell. */
  lemma Quietly(s: G.System, id: G.Id, m': G.Member, step: G.Step, w: G.World) returns (t: G.System)
    requires id in s.members && G.Mover(step) == id && !step.ApplyOne? && G.WorkerNext(s.members[id], m', step)
    ensures t == Moved(s, id, m', s.table) && Leads(s, t, [step], w) && G.Next(s, t, step, w)
  {
    hide G.WorkerNext, ApplyAll, RenOps, Leads;
    t := Moved(s, id, m', s.table);
    NoCells(s.table, w.names(id));
    assert G.WorkerMoves(s, t, step, w);
    OneStep(s, t, step, w);
  }

  /** A worker on its own names some of the peers that its frame lists ... */
  lemma {:induction false} WorkerNames(s: G.System, id: G.Id, ks: set<PeerId>, w: G.World)
    returns (t: G.System, steps: seq<G.Step>)
    requires id in s.members && s.members[id].pc.Listing? && ks <= s.members[id].pc.unnamed
    ensures Leads(s, t, steps, w)
    ensures var m := s.members[id];
            t == Moved(s, id, m.(named := m.named + ks, pc := G.Listing(m.pc.unnamed - ks)), s.table)
    decreases |ks|
  {
    hide Leads, G.Next;
    var m := s.members[id];
    if ks == {} {
      t, steps := s, [];
      assert Leads(s, s, [], w) by { Stays(s, w); }
      assert m.named + ks == m.named && m.pc.unnamed - ks == m.pc.unnamed;
      assert s.members[id := m] == s.members;
    } else {
      var k :| k in ks;
      var m' := m.(named := m.named + {k}, pc := G.Listing(m.pc.unnamed - {k}));
      var mid := Quietly(s, id, m', G.NameOne(id, k), w);
      t, steps := WorkerNames(mid, id, ks - {k}, w);
      LeadsOn(s, mid, t, G.NameOne(id, k), steps, w);
      steps := [G.NameOne(id, k)] + steps;
      assert m.named + {k} + (ks - {k}) == m.named + ks && m.pc.unnamed - {k} - (ks - {k}) == m.pc.unnamed - ks;
      MovedTwice(s, id, m', t.members[id], s.table, s.table);
    }
  }

  lemma Stays(s: G.System, w: G.World)
    ensures Leads(s, s, [], w)
  {
  }

  /** ... and files those of its cells that arrive. */
  lemma {:induction false} WorkerFiles(s: G.System, id: G.Id, xs: seq<CellOp>, w: G.World)
    returns (t: G.System, steps: seq<G.Step>)
    requires id in s.members && s.members[id].pc.Working? && PartOf(xs, s.members[id].pc.left)
    ensures Leads(s, t, steps, w)
    ensures var m := s.members[id];
            t == Moved(s, id, m.(pc := G.Working([], m.pc.lost || |xs| < |m.pc.left|)),
                       ApplyAll(s.table, RenOps(xs, w.names(id))))
    decreases |s.members[id].pc.left|
  {
    hide ApplyAll, Leads, G.Next, RenOps;
    var m := s.members[id];
    var left := m.pc.left;
    AllOfIt(xs, left);
    if |left| == 0 {
      t, steps := s, [];
      assert Leads(s, s, [], w) by { Stays(s, w); }
      NoCells(s.table, w.names(id));
      assert s.members[id := m] == s.members;
    } else {
      var took := |xs| > 0 && xs[0] == left[0] && PartOf(xs[1..], left[1..]);
      var rest := if took then xs[1..] else xs;
      var mid, step := FilesOne(s, id, took, w);
      AllOfIt(rest, left[1..]);
      t, steps := WorkerFiles(mid, id, rest, w);
      LeadsOn(s, mid, t, step, steps, w);
      steps := [step] + steps;
      MovedTwice(s, id, mid.members[id], t.members[id], mid.table, t.table);
      if took { OneCellMore(s.table, xs, w.names(id)); }
    }
  }

  lemma FilesOne(s: G.System, id: G.Id, took: bool, w: G.World) returns (t: G.System, step: G.Step)
    requires id in s.members && s.members[id].pc.Working? && |s.members[id].pc.left| > 0
    ensures G.Next(s, t, step, w)
    ensures var m := s.members[id];
            t == Moved(s, id, m.(pc := G.Working(m.pc.left[1..], m.pc.lost || !took)),
                       if took then ApplyAll(s.table, RenOps([m.pc.left[0]], w.names(id))) else s.table)
  {
    hide ApplyAll, RenOps;
    var m := s.members[id];
    var m' := m.(pc := G.Working(m.pc.left[1..], m.pc.lost || !took));
    if took {
      step, t := G.ApplyOne(id), Moved(s, id, m', ApplyAll(s.table, RenOps([m.pc.left[0]], w.names(id))));
      assert G.WorkerMoves(s, t, step, w);
    } else {
      step := G.LoseOne(id);
      t := Quietly(s, id, m', step, w);
    }
  }

  lemma OneCellMore(t: Table, xs: seq<CellOp>, ren: Names)
    requires |xs| > 0
    ensures ApplyAll(ApplyAll(t, RenOps([xs[0]], ren)), RenOps(xs[1..], ren)) == ApplyAll(t, RenOps(xs, ren))
  {
    hide ApplyAll;
    assert RenOps(xs, ren) == RenOps([xs[0]], ren) + RenOps(xs[1..], ren);
    ApplyMore(t, RenOps([xs[0]], ren), RenOps(xs[1..], ren));
  }

  lemma NoCells(t: Table, ren: Names)
    ensures ApplyAll(t, RenOps([], ren)) == t && RenOps([], ren) == []
  {
  }

  /** The whole of a worker's job, from the moment it has one to the moment it reports. */
  lemma WorkerJob(s: G.System, id: G.Id, a: Arrival, w: G.World) returns (t: G.System, steps: seq<G.Step>)
    requires id in s.members && s.members[id].pc.Blocked? && s.members[id].job.Assigned?
    requires ArrivesFor(a, s.members[id].work) && !a.Outcome().Starved?
    ensures Leads(s, t, steps, w)
    ensures var m := s.members[id];
            t == Moved(s, id, m.(named := m.named + Ids(a.peers), err := !a.Outcome().Done?, pc := G.Finishing),
                       ApplyAll(s.table, RenOps(FrameOps(a.Rows()), w.names(id))))
  {
    hide ApplyAll, FrameOps, RowsOf, Ending, Verdict, Leads, PartOf, RenOps, G.Next;
    var m := s.members[id];
    var b := Quietly(s, id, m.(err := false, pc := G.Listing(m.work.peers)), G.Take(id), w);
    var c, xs := WorkerNames(b, id, Ids(a.peers), w);
    LeadsMore(s, b, c, [G.Take(id)], xs, w);
    MovedTwice(s, id, b.members[id], c.members[id], s.table, s.table);
    steps := [G.Take(id)] + xs;
    if a.heard {
      assert m.work.peers - Ids(a.peers) == {};
      var d, ys := WorkerReads(c, id, a, w);
      LeadsMore(s, c, d, steps, ys, w);
      MovedTwice(s, id, c.members[id], d.members[id], s.table, d.table);
      t, steps := d, steps + ys;
    } else {
      NoRows(a);
      NoCells(s.table, w.names(id));
      t := Quietly(c, id, c.members[id].(err := true, pc := G.Finishing), G.Fail(id), w);
      LeadsMore(s, c, t, steps, [G.Fail(id)], w);
      MovedTwice(s, id, c.members[id], t.members[id], s.table, s.table);
      steps := steps + [G.Fail(id)];
    }
  }

  /** The second half of the job: the peers are named, and the prefix messages are read. */
  lemma WorkerReads(s: G.System, id: G.Id, a: Arrival, w: G.World) returns (t: G.System, steps: seq<G.Step>)
    requires id in s.members && s.members[id].pc == G.Listing({}) && !s.members[id].err
    requires a.heard && ArrivesFor(a, s.members[id].work) && !a.Outcome().Starved?
    ensures Leads(s, t, steps, w)
    ensures var m := s.members[id];
            t == Moved(s, id, m.(err := !a.Outcome().Done?, pc := G.Finishing),
                       ApplyAll(s.table, RenOps(FrameOps(a.Rows()), w.names(id))))
  {
    hide ApplyAll, FrameOps, RowsOf, Ending, Verdict, Leads, PartOf, RenOps, G.Next;
    var m := s.members[id];
    Outcomes(a);
    var b := Quietly(s, id, m.(pc := G.Working(FrameOps(m.work.rows), false)), G.Listed(id), w);
    var c, xs := WorkerFiles(b, id, FrameOps(a.Rows()), w);
    LeadsMore(s, b, c, [G.Listed(id)], xs, w);
    MovedTwice(s, id, b.members[id], c.members[id], s.table, c.table);
    var done := a.Outcome().Done?;
    if done { AllOfIt(a.Rows(), m.work.rows); }
    var last := if done then G.Step.Done(id) else G.Fail(id);
    t := Quietly(c, id, c.members[id].(err := !done, pc := G.Finishing), last, w);
    MovedTwice(s, id, c.members[id], t.members[id], c.table, t.table);
    LeadsMore(s, c, t, [G.Listed(id)] + xs, [last], w);
    steps := [G.Listed(id)] + xs + [last];
  }

  /** So the worker thread, which receives whatever arrives of its frame into the shared view, takes
      steps of the global protocol, and reports an error exactly when the frame is not complete. */
  method WorkerStep(recv: Receiver, a: Arrival, ghost p: Table, ghost s: G.System, ghost id: G.Id, ghost w: G.World)
    returns (r: Outcome, ghost t: G.System, ghost steps: seq<G.Step>)
    requires recv.Interns() && Injective(w.names(id)) && recv.HoldsPart(p, w.names(id))
    requires recv.Knows(a.peers, w.names(id))
    requires Fitting(a.peers, FrameOps(a.Rows()), p) && !a.Outcome().Starved?
    requires id in s.members && s.members[id].pc.Blocked? && s.members[id].job.Assigned?
    requires ArrivesFor(a, s.members[id].work)
    requires s.table == Showing(recv.view.S(), recv.store) && s.members[id].named == NamedSet(recv.ids)
    modifies recv`ids, recv.view
    ensures r == a.Outcome() && Leads(s, t, steps, w) && t.table == Showing(recv.view.S(), recv.store)
    ensures id in t.members && t.members[id].pc.Finishing? && (t.members[id].err <==> !r.Done?)
    ensures t.members[id].named == NamedSet(recv.ids)
  {
    hide FrameOps, RowsOf, Ending, Verdict, Fitting, ApplyAll, Pull, Showing, Injective, Inv, RenOps, KeysOf, Leads;
    hide PartOf;
    t, steps := WorkerJob(s, id, a, w);
    r := recv.RecvView(a, w.names(id), p);
    SameNames(recv, old(recv.ids), a.peers, false);
  }

  /** The table without the cells of some peers of a member. */
  ghost function WithoutAll(t: Table, ks: set<PeerId>, ren: Names): Table {
    imap q: Key | q in t && forall k | k in ks :: ren.to(k) != q.1 :: t[q]
  }

  /** Taking out one peer after the other takes out all of them. */
  lemma {:induction false} MainEmpties(s: G.System, w: G.World) returns (t: G.System, steps: seq<G.Step>)
    requires s.main.Emptying?
    ensures Leads(s, t, steps, w) && t.main == s.main.(left := {})
    ensures t.table == WithoutAll(s.table, s.main.left, w.names(s.main.id))
    decreases |s.main.left|
  {
    if s.main.left == {} {
      t, steps := s, [];
      assert t.table == WithoutAll(s.table, {}, w.names(s.main.id));
    } else {
      var k :| k in s.main.left;
      var ren := w.names(s.main.id);
      var mid := s.(main := s.main.(left := s.main.left - {k}), table := Without(s.table, ren.to(k)));
      t, steps := MainEmpties(mid, w);
      LeadsOn(s, mid, t, G.DropPeer(k), steps, w);
      steps := [G.DropPeer(k)] + steps;
      DropMore(s.table, s.main.left, k, ren);
    }
  }

  lemma DropMore(t: Table, ks: set<PeerId>, k: PeerId, ren: Names)
    requires k in ks
    ensures WithoutAll(Without(t, ren.to(k)), ks - {k}, ren) == WithoutAll(t, ks, ren)
  {
    forall q: Key ensures Agree(WithoutAll(Without(t, ren.to(k)), ks - {k}, ren), WithoutAll(t, ks, ren), q) {
      if forall h | h in ks - {k} :: ren.to(h) != q.1 {
        assert (forall h | h in ks :: ren.to(h) != q.1) <==> ren.to(k) != q.1;
      }
    }
    SameTable(WithoutAll(Without(t, ren.to(k)), ks - {k}, ren), WithoutAll(t, ks, ren));
  }

  /** Disabling a member takes steps of the global protocol too. */
  method DisableStep(recv: Receiver, ghost ren: Names, ghost p: Table, ghost s: G.System, ghost w: G.World)
    returns (ghost t: G.System, ghost steps: seq<G.Step>)
    requires recv.HoldsPart(p, ren) && Tidy(recv.ids)
    requires s.main.Emptying? && ren == w.names(s.main.id) && s.main.left == NamedSet(recv.ids)
    requires s.table == Showing(recv.view.S(), recv.store)
    modifies recv.view
    ensures Leads(s, t, steps, w) && t.main == s.main.(left := {}) && t.table == Showing(recv.view.S(), recv.store)
  {
    hide Pull, Showing, Inv, Leads, WithoutAll, WithoutNamed;
    t, steps := MainEmpties(s, w);
    recv.DisableMember(ren, p);
    SameDrops(s.table, recv.ids, ren);
  }

  lemma SameDrops(t: Table, ids: IdMap, ren: Names)
    requires NamesBy(ids, ren) && Tidy(ids)
    ensures WithoutAll(t, NamedSet(ids), ren) == WithoutNamed(t, ids)
  {
    forall q: Key ensures (forall k | k in NamedSet(ids) :: ren.to(k) != q.1) <==> !NamedIn(ids, |ids|, q.1) {
      if i :| 0 <= i < |ids| && ids[i] == q.1 { assert Named(ids, i) && i in NamedSet(ids); }
      if k :| k in NamedSet(ids) && ren.to(k) == q.1 { assert ids[k] == q.1; }
    }
    hide NamedSet, NamedIn;
    forall q: Key ensures Agree(WithoutAll(t, NamedSet(ids), ren), WithoutNamed(t, ids), q) {}
    SameTable(WithoutAll(t, NamedSet(ids), ren), WithoutNamed(t, ids));
  }
}
