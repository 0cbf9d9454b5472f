/** Direct mode as a protocol: one producer appends frames to the metadata topic, other
    producers append theirs, and a consumer follows, fails, rewinds and retries. Tables are
    written under the producer's names for peers. */
module Direct {
  import opened Net
  import opened Lists
  import opened RowCodec
  import opened Tables

  datatype Frame = Frame(sync: bool, time: nat, parent: nat, syncAt: nat, peers: set<PeerId>, rows: seq<PfxRow>,
    table: Table)

  /** A metadata message: of another producer, or announcing a frame of ours. */
  datatype Meta = Foreign | Own(f: Frame)

  // ---------------------------------------------------------------- the topic

  /** The last frame of ours in the topic. */
  ghost function LastOwn(m: seq<Meta>): Option<Frame> {
    if |m| == 0 then None else if m[|m| - 1].Own? then Some(m[|m| - 1].f) else LastOwn(m[..|m| - 1])
  }

  /** A frame says what changed since the frame before it; a sync frame says everything. */
  ghost predicate FrameOk(f: Frame, prev: Option<Frame>) {
    && f.time > 0 && (prev.Some? ==> prev.value.time < f.time)
    && (forall q: Key | q in f.table :: q.1 in f.peers)
    && if f.sync then DiffOf(FrameOps(f.rows), imap[], f.table)
       else prev.Some? && f.parent == prev.value.time && DiffOf(FrameOps(f.rows), prev.value.table, f.table)
  }

  /** From offset `a` on, the first frame of ours is a sync frame, and it comes before `i`. */
  ghost predicate SyncFrom(m: seq<Meta>, a: nat, i: nat) {
    exists j :: a <= j < i <= |m| && m[j].Own? && m[j].f.sync && forall h :: a <= h < j ==> m[h].Foreign?
  }

  ghost predicate LogOk(m: seq<Meta>) {
    forall i :: 0 <= i < |m| && m[i].Own? ==>
      FrameOk(m[i].f, LastOwn(m[..i])) && (!m[i].f.sync ==> SyncFrom(m, m[i].f.syncAt, i))
  }

  // ---------------------------------------------------------------- the producer

  /** `pending` is the topic offset taken just before a sync frame's metadata is sent. */
  datatype Producer = Producer(meta: seq<Meta>, last: Option<Frame>, lastSync: nat, pending: Option<nat>)

  ghost predicate ProducerInit(s: Producer) {
    LogOk(s.meta) && s.last == LastOwn(s.meta) && s.last.None? && s.pending.None?
  }

  datatype ProducerStep = OtherSends | TakeOffset | SendSync(f: Frame) | SendDiff(f: Frame)

  /** Sync exactly at multiples of the interval; no diff before the first sync. */
  ghost predicate ProducerNext(s: Producer, s': Producer, step: ProducerStep, interval: nat)
    requires interval > 0
  {
    match step
    case OtherSends => s' == s.(meta := s.meta + [Foreign])
    case TakeOffset => s.pending.None? && s' == s.(pending := Some(|s.meta|))
    case SendSync(f) =>
      && s.pending.Some? && f.time % interval == 0 && f.sync && FrameOk(f, s.last)
      && s' == Producer(s.meta + [Own(f)], Some(f), s.pending.value, None)
    case SendDiff(f) =>
      && s.pending.None? && s.last.Some? && f.time % interval != 0 && !f.sync && FrameOk(f, s.last) &&
        f.syncAt == s.lastSync
      && s' == Producer(s.meta + [Own(f)], Some(f), s.lastSync, None)
  }

  ghost predicate ProducerInv(s: Producer) {
    && LogOk(s.meta) && s.last == LastOwn(s.meta)
    && (s.last.Some? ==> SyncFrom(s.meta, s.lastSync, |s.meta|))
    && (s.pending.Some? ==> s.pending.value <= |s.meta| && forall h :: s.pending.value <= h < |s.meta| ==>
      s.meta[h].Foreign?)
  }

  lemma LogGrows(m: seq<Meta>, x: Meta)
    requires LogOk(m) && (x.Own? ==> FrameOk(x.f, LastOwn(m)) && (!x.f.sync ==> SyncFrom(m, x.f.syncAt, |m|)))
    ensures LogOk(m + [x]) && LastOwn(m + [x]) == if x.Own? then Some(x.f) else LastOwn(m)
    ensures forall a: nat, i: nat :: SyncFrom(m, a, i) ==> SyncFrom(m + [x], a, i)
  {
    hide FrameOk, SyncFrom;
    var n := m + [x];
    assert n[..|m|] == m;
    forall a: nat, i: nat | SyncFrom(m, a, i) ensures SyncFrom(n, a, i) { SyncGrows(m, x, a, i); }
    forall i | 0 <= i < |n| && n[i].Own?
      ensures FrameOk(n[i].f, LastOwn(n[..i])) && (!n[i].f.sync ==> SyncFrom(n, n[i].f.syncAt, i))
    {
      if i < |m| {
        assert n[..i] == m[..i] && n[i] == m[i];
      }
    }
  }

  lemma SyncGrows(m: seq<Meta>, x: Meta, a: nat, i: nat)
    requires SyncFrom(m, a, i)
    ensures SyncFrom(m + [x], a, i)
  {
    var j :| a <= j < i <= |m| && m[j].Own? && m[j].f.sync && forall h :: a <= h < j ==> m[h].Foreign?;
    assert (m + [x])[j] == m[j];
  }

  /** The producer keeps the topic in order, and every diff points back at its sync frame. */
  lemma ProducerKeeps(s: Producer, s': Producer, step: ProducerStep, interval: nat)
    requires interval > 0 && ProducerInv(s) && ProducerNext(s, s', step, interval)
    ensures ProducerInv(s') && s.meta <= s'.meta
  {
    hide FrameOk, LogOk, LastOwn;
    if s'.meta != s.meta {
      var x := s'.meta[|s.meta|];
      assert s'.meta == s.meta + [x];
      LogGrows(s.meta, x);
      if s'.last.Some? {
        if x.Own? && x.f.sync {
          assert s'.meta[|s.meta|].f.sync;
        } else {
          SyncLater(s'.meta, s'.lastSync, |s.meta|, |s'.meta|);
        }
      }
    }
  }

  lemma SyncLater(m: seq<Meta>, a: nat, i: nat, i': nat)
    requires SyncFrom(m, a, i) && i <= i' <= |m|
    ensures SyncFrom(m, a, i')
  {
  }

  // ---------------------------------------------------------------- the consumer

  datatype Phase = Idle | Fetching(needSync: bool)

  /** `torn` remembers that the table was left half-updated under a frame's full time. */
  datatype Consumer = Consumer(table: Table, time: nat, named: set<PeerId>, pos: nat, phase: Phase, torn: bool)

  datatype ConsumerStep =
    | Call
    | GiveUp
    | Clear
    | SkipForeign
    | SkipDiff
    | Rewind
    | Finish(got: seq<PfxRow>)
    | Miscount(got: seq<PfxRow>)
    | Break(ids: set<PeerId>, xs: seq<CellOp>)

  ghost predicate AtOwn(m: seq<Meta>, c: Consumer) { c.pos < |m| && m[c.pos].Own? && c.phase.Fetching? }

  /** The frame at the consumer's position can be received. */
  ghost predicate Usable(m: seq<Meta>, c: Consumer) {
    AtOwn(m, c) && (m[c.pos].f.sync || (!c.phase.needSync && m[c.pos].f.parent == c.time))
  }

  /** A sync frame starts from nothing. */
  ghost function Base(f: Frame, c: Consumer): Table { if f.sync then imap[] else c.table }
  ghost function BaseNames(f: Frame, c: Consumer): set<PeerId> { if f.sync then {} else c.named }

  ghost predicate ConsumerNext(m: seq<Meta>, c: Consumer, c': Consumer, step: ConsumerStep) {
    match step
    case Call => c.phase.Idle? && c' == c.(phase := Fetching(false))
    case GiveUp => c.phase.Fetching? && c' == c.(phase := Idle)
    case Clear => c.phase.Idle? && c' == c.(table := imap[], time := 0, torn := false)
    case SkipForeign => c.phase.Fetching? && c.pos < |m| && m[c.pos].Foreign? && c' == c.(pos := c.pos + 1)
    case SkipDiff => AtOwn(m, c) && !m[c.pos].f.sync && c.phase.needSync && c' == c.(pos := c.pos + 1)
    case Rewind =>
      AtOwn(m, c) && !m[c.pos].f.sync && !c.phase.needSync && m[c.pos].f.parent != c.time &&
        c' == c.(pos := m[c.pos].f.syncAt)
    case Finish(got) =>
      && Usable(m, c) && PartOf(got, m[c.pos].f.rows) && |got| == |m[c.pos].f.rows|
      && var f := m[c.pos].f;
         c' == Consumer(ApplyAll(Base(f, c), FrameOps(got)), f.time, BaseNames(f, c) + f.peers, c.pos + 1, Idle,
           if f.sync then false else c.torn)
    case Miscount(got) =>
      && Usable(m, c) && PartOf(got, m[c.pos].f.rows) && |got| != |m[c.pos].f.rows|
      && var f := m[c.pos].f;
         c' == Consumer(ApplyAll(Base(f, c), FrameOps(got)), f.time, BaseNames(f, c) + f.peers, c.pos + 1,
           Fetching(true), true)
    case Break(ids, xs) =>
      && Usable(m, c) && ids <= m[c.pos].f.peers && (forall x | x in xs :: x in FrameOps(m[c.pos].f.rows))
      && var f := m[c.pos].f;
         c' == Consumer(ApplyAll(Base(f, c), xs), if f.sync then 0 else c.time, BaseNames(f, c) + ids, c.pos + 1,
           Fetching(true), if f.sync then false else c.torn)
  }

  ghost predicate ConsumerInit(c: Consumer) {
    c.table == imap[] && c.time == 0 && c.named == {} && c.phase.Idle? && !c.torn
  }

  /** The view is exactly the announced table of some frame, the one whose time it has. */
  ghost predicate Exact(m: seq<Meta>, c: Consumer) {
    exists j :: 0 <= j < |m| && m[j].Own? && m[j].f.time == c.time && m[j].f.table == c.table &&
      forall q: Key | q in c.table :: q.1 in c.named
  }

  /** The view is too old for any diff that the consumer can meet before a sync frame. */
  ghost predicate Behind(m: seq<Meta>, c: Consumer) {
    || c.time == 0
    || (exists j :: 0 <= j < c.pos && j < |m| && m[j].Own? && m[j].f.time > c.time)
    || SyncFrom(m, c.pos, |m|)
  }

  ghost predicate ConsumerInv(m: seq<Meta>, c: Consumer) {
    && c.pos <= |m|
    && (c.torn ==> c.phase == Fetching(true) || c.phase.Idle?)
    && (!c.torn ==> Exact(m, c) || Behind(m, c))
  }

  // ---------------------------------------------------------------- facts about the topic

  lemma {:induction false} LastOwnIs(m: seq<Meta>, j: nat)
    requires LogOk(m) && j < |m| && m[j].Own?
    ensures LastOwn(m).Some? && m[j].f.time <= LastOwn(m).value.time
    ensures m[j].f.time == LastOwn(m).value.time ==> m[j].f == LastOwn(m).value
  {
    var n := |m| - 1;
    if j < n {
      LogPrefix(m, n);
      LastOwnIs(m[..n], j);
      assert m[n].Own? ==> FrameOk(m[n].f, LastOwn(m[..n]));
    }
  }

  lemma LogPrefix(m: seq<Meta>, n: nat)
    requires LogOk(m) && n <= |m|
    ensures LogOk(m[..n])
  {
    hide FrameOk, LastOwn;
    forall i | 0 <= i < n && m[..n][i].Own?
      ensures FrameOk(m[..n][i].f, LastOwn(m[..n][..i]))
      ensures (!m[..n][i].f.sync ==> SyncFrom(m[..n], m[..n][i].f.syncAt, i))
    {
      assert m[..n][..i] == m[..i] && m[..n][i] == m[i];
      if !m[i].f.sync {
        var a := m[i].f.syncAt;
        var j :| a <= j < i <= |m| && m[j].Own? && m[j].f.sync && forall h :: a <= h < j ==> m[h].Foreign?;
        assert m[..n][j] == m[j];
      }
    }
  }

  /** A diff that the consumer accepts is against the very table it holds. */
  lemma AcceptedParent(m: seq<Meta>, c: Consumer)
    requires LogOk(m) && ConsumerInv(m, c) && Usable(m, c) && !m[c.pos].f.sync
    ensures LastOwn(m[..c.pos]).Some? && LastOwn(m[..c.pos]).value.table == c.table
    ensures LastOwn(m[..c.pos]).value.time == c.time
    ensures Exact(m, c)
  {
    hide DiffOf;
    var prev := LastOwn(m[..c.pos]);
    assert FrameOk(m[c.pos].f, prev);
    LogPrefix(m, c.pos);
    forall j | 0 <= j < c.pos && m[j].Own?
      ensures m[j].f.time <= prev.value.time && (m[j].f.time == prev.value.time ==> m[j].f == prev.value)
    {
      assert m[..c.pos][j] == m[j];
      LastOwnIs(m[..c.pos], j);
    }
    NotBehind(m, c);
    var j :| 0 <= j < |m| && m[j].Own? && m[j].f.time == c.time && m[j].f.table == c.table;
    if j >= c.pos { LaterTime(m, c.pos, j); }
  }

  /** The parent of a diff is the latest frame before it. */
  lemma ParentIsLatest(m: seq<Meta>, i: nat)
    requires LogOk(m) && i < |m| && m[i].Own? && !m[i].f.sync
    ensures m[i].f.parent > 0 && forall j :: 0 <= j < i && m[j].Own? ==> m[j].f.time <= m[i].f.parent
  {
    hide DiffOf;
    assert FrameOk(m[i].f, LastOwn(m[..i]));
    LogPrefix(m, i);
    PrevPositive(m[..i]);
    forall j | 0 <= j < i && m[j].Own? ensures m[j].f.time <= m[i].f.parent {
      assert m[..i][j] == m[j];
      LastOwnIs(m[..i], j);
    }
  }

  lemma NotBehind(m: seq<Meta>, c: Consumer)
    requires LogOk(m) && Usable(m, c) && !m[c.pos].f.sync
    ensures !Behind(m, c)
  {
    hide LogOk, LastOwn, FrameOk;
    ParentIsLatest(m, c.pos);
  }

  lemma {:induction false} PrevPositive(m: seq<Meta>)
    requires LogOk(m)
    ensures LastOwn(m).Some? ==> LastOwn(m).value.time > 0
  {
    hide DiffOf;
    if |m| > 0 && m[|m| - 1].Foreign? {
      LogPrefix(m, |m| - 1);
      PrevPositive(m[..|m| - 1]);
    }
  }

  /** Frame times grow along the topic. */
  lemma LaterTime(m: seq<Meta>, i: nat, j: nat)
    requires LogOk(m) && i <= j < |m| && m[i].Own? && m[j].Own?
    ensures m[i].f.time <= m[j].f.time && (i < j ==> m[i].f.time < m[j].f.time)
  {
    hide DiffOf;
    if i < j {
      LogPrefix(m, j);
      assert m[..j][i] == m[i];
      LastOwnIs(m[..j], i);
      assert FrameOk(m[j].f, LastOwn(m[..j]));
    }
  }

  /** Whatever fails on the way, a frame that is received completely leaves the view exact. */
  lemma FinishExact(m: seq<Meta>, c: Consumer, c': Consumer, got: seq<PfxRow>)
    requires LogOk(m) && ConsumerInv(m, c) && ConsumerNext(m, c, c', Finish(got))
    ensures c'.table == m[c.pos].f.table && Exact(m, c')
  {
    var f := m[c.pos].f;
    AllOfIt(got, f.rows);
    assert FrameOk(f, LastOwn(m[..c.pos]));
    if !f.sync { AcceptedParent(m, c); }
    DiffApplies(FrameOps(f.rows), Base(f, c), f.table);
    assert m[c.pos].Own? && m[c.pos].f.time == c'.time && m[c.pos].f.table == c'.table;
  }

  lemma BreakBehind(m: seq<Meta>, c: Consumer, c': Consumer, ids: set<PeerId>, xs: seq<CellOp>)
    requires LogOk(m) && ConsumerInv(m, c) && ConsumerNext(m, c, c', Break(ids, xs))
    ensures !c'.torn && Behind(m, c')
  {
    hide DiffOf;
    var f := m[c.pos].f;
    assert FrameOk(f, LastOwn(m[..c.pos]));
    if !f.sync { assert m[c.pos].f.time > c'.time; }
  }

  /** Every step keeps the consumer exact or too old to accept a diff, as long as it is not
      called again over a torn table. */
  lemma ConsumerKeeps(m: seq<Meta>, c: Consumer, c': Consumer, step: ConsumerStep)
    requires LogOk(m) && ConsumerInv(m, c) && ConsumerNext(m, c, c', step) && !(step.Call? && c.torn)
    ensures ConsumerInv(m, c') && (step.Finish? ==> Exact(m, c') && !c'.torn)
  {
    hide FrameOk, DiffOf, LastOwn, LogOk, ApplyAll, FrameOps, PartOf;
    match step
    case Finish(got) => FinishExact(m, c, c', got);
    case Break(ids, xs) => BreakBehind(m, c, c', ids, xs);
    case Rewind => RewoundBehind(m, c, c');
    case SkipForeign => SkippedBehind(m, c, c');
    case SkipDiff => SkippedBehind(m, c, c');
    case _ =>
  }

  lemma RewoundBehind(m: seq<Meta>, c: Consumer, c': Consumer)
    requires LogOk(m) && ConsumerInv(m, c) && ConsumerNext(m, c, c', Rewind)
    ensures c'.pos <= |m| && Behind(m, c')
  {
    hide FrameOk, DiffOf, LastOwn;
    SyncLater(m, m[c.pos].f.syncAt, c.pos, |m|);
  }

  lemma SkippedBehind(m: seq<Meta>, c: Consumer, c': Consumer)
    requires c.pos < |m| && c' == c.(pos := c.pos + 1) && (m[c.pos].Own? ==> !m[c.pos].f.sync)
    ensures Behind(m, c) ==> Behind(m, c')
    ensures Exact(m, c) ==> Exact(m, c')
  {
    if SyncFrom(m, c.pos, |m|) {
      var j :| c.pos <= j < |m| && m[j].Own? && m[j].f.sync && forall h :: c.pos <= h < j ==> m[h].Foreign?;
      assert c'.pos <= j;
    }
  }

  lemma TopicGrows(m: seq<Meta>, m': seq<Meta>, c: Consumer)
    requires ConsumerInv(m, c) && m <= m'
    ensures ConsumerInv(m', c)
  {
    assert forall j :: 0 <= j < |m| ==> m'[j] == m[j];
    if Exact(m, c) {
      var j :| 0 <= j < |m| && m[j].Own? && m[j].f.time == c.time && m[j].f.table == c.table;
      assert m'[j].f.time == c.time;
    } else if SyncFrom(m, c.pos, |m|) {
      var j :| c.pos <= j < |m| && m[j].Own? && m[j].f.sync && forall h :: c.pos <= h < j ==> m[h].Foreign?;
      assert m'[j].f.sync;
    } else if j :| 0 <= j < c.pos && j < |m| && m[j].Own? && m[j].f.time > c.time {
      assert m'[j].f.time > c.time;
    }
  }

  // ---------------------------------------------------------------- the search for a frame

  /** The first frame of ours from an offset on ... */
  ghost function FirstOwn(m: seq<Meta>, a: nat): (r: Option<nat>)
    ensures r.Some? ==> a <= r.value < |m| && m[r.value].Own?
    decreases |m| - a
  {
    if a >= |m| then None else if m[a].Own? then Some(a) else FirstOwn(m, a + 1)
  }

  /** ... and the first sync frame of ours. */
  ghost function FirstSync(m: seq<Meta>, a: nat): Option<nat>
    decreases |m| - a
  {
    if a >= |m| then None else if m[a].Own? && m[a].f.sync then Some(a) else FirstSync(m, a + 1)
  }

  lemma {:induction false} FirstOwnIs(m: seq<Meta>, a: nat, i: nat)
    ensures FirstOwn(m, a) == Some(i) <==> a <= i < |m| && m[i].Own? && forall h :: a <= h < i ==> m[h].Foreign?
    decreases |m| - a
  {
    if a < |m| && m[a].Foreign? { FirstOwnIs(m, a + 1, i); }
  }

  lemma {:induction false} FirstSyncIs(m: seq<Meta>, a: nat, i: nat)
    ensures FirstSync(m, a) == Some(i) <==>
            a <= i < |m| && m[i].Own? && m[i].f.sync && forall h :: a <= h < i && m[h].Own? ==> !m[h].f.sync
    decreases |m| - a
  {
    if a < |m| && !(m[a].Own? && m[a].f.sync) { FirstSyncIs(m, a + 1, i); }
  }

  /** Where the search must end: after a failed receive at the next sync frame; otherwise at the
      next frame, or, if that is a diff to another table, at the frame found from its sync offset. */
  ghost function Target(m: seq<Meta>, c: Consumer): Option<nat>
    requires c.phase.Fetching?
  {
    if c.phase.needSync then FirstSync(m, c.pos) else
    var d := FirstOwn(m, c.pos);
    if d.None? || m[d.value].f.sync || m[d.value].f.parent == c.time then d
    else FirstOwn(m, m[d.value].f.syncAt)
  }

  /** The steps take the consumer from one state to another. */
  ghost predicate Follows(m: seq<Meta>, c: Consumer, c': Consumer, steps: seq<ConsumerStep>)
    decreases |steps|
  {
    if |steps| == 0 then c' == c else
    var n := |steps| - 1;
    exists d :: Follows(m, c, d, steps[..n]) && ConsumerNext(m, d, c', steps[n])
  }

  lemma FollowsOn(m: seq<Meta>, c: Consumer, d: Consumer, c': Consumer, steps: seq<ConsumerStep>, step: ConsumerStep)
    requires Follows(m, c, d, steps) && ConsumerNext(m, d, c', step)
    ensures Follows(m, c, c', steps + [step])
  {
    hide ConsumerNext;
    assert (steps + [step])[..|steps|] == steps;
  }

  /** Only skips, and at most one rewind. */
  ghost predicate Searches(steps: seq<ConsumerStep>) {
    && (forall i :: 0 <= i < |steps| ==> steps[i].SkipForeign? || steps[i].SkipDiff? || steps[i].Rewind?)
    && forall i, j :: 0 <= i < j < |steps| ==> !(steps[i].Rewind? && steps[j].Rewind?)
  }

  ghost predicate NoRewind(steps: seq<ConsumerStep>) { forall i :: 0 <= i < |steps| ==> !steps[i].Rewind? }

  /** The loop that fetches metadata: skip, rewind, or stop at a usable frame. It stops exactly
      where it must, by steps of the protocol, and rewinds at most once. */
  method FindFrame(m: seq<Meta>, c: Consumer) returns (r: Option<nat>, ghost steps: seq<ConsumerStep>)
    requires LogOk(m) && c.phase.Fetching? && c.pos <= |m|
    ensures r == Target(m, c) && Searches(steps)
    ensures r.Some? ==> r.value < |m| && Usable(m, c.(pos := r.value)) && Follows(m, c, c.(pos := r.value), steps)
    ensures r.None? ==> Follows(m, c, c.(pos := |m|), steps)
  {
    hide FrameOk, LastOwn, Follows, ConsumerNext, Searches, Usable, LogOk;
    var pos: nat, rewound := c.pos, false;
    steps := [];
    assert c.(pos := c.pos) == c && Follows(m, c, c, []) && Searches([]) by { NoSteps(m, c); }
    while pos < |m|
      invariant pos <= |m| && Searches(steps) && Follows(m, c, c.(pos := pos), steps)
      invariant if rewound then !c.phase.needSync && SyncFrom(m, pos, |m|) && Target(m, c) == FirstOwn(m, pos)
                else NoRewind(steps) && Target(m, c) == Target(m, c.(pos := pos))
      decreases if rewound then 0 else 1, |m| - pos
    {
      ghost var d := c.(pos := pos);
      if m[pos].Foreign? {
        Skips(m, c, d, steps, SkipForeign);
        pos, steps := pos + 1, steps + [SkipForeign];
      } else if !m[pos].f.sync && c.phase.needSync {
        Skips(m, c, d, steps, SkipDiff);
        pos, steps := pos + 1, steps + [SkipDiff];
      } else if !m[pos].f.sync && m[pos].f.parent != c.time {
        assert !rewound;
        SyncBack(m, pos);
        Rewinds(m, c, d, steps);
        pos, rewound, steps := m[pos].f.syncAt, true, steps + [Rewind];
      } else {
        assert Usable(m, d) by { IsUsable(m, d); }
        return Some(pos), steps;
      }
    }
    return None, steps;
  }

  lemma NoSteps(m: seq<Meta>, c: Consumer)
    ensures Follows(m, c, c, []) && Searches([])
  {
  }

  lemma IsUsable(m: seq<Meta>, c: Consumer)
    requires AtOwn(m, c) && (m[c.pos].f.sync || (!c.phase.needSync && m[c.pos].f.parent == c.time))
    ensures Usable(m, c)
  {
  }

  lemma SyncBack(m: seq<Meta>, pos: nat)
    requires LogOk(m) && pos < |m| && m[pos].Own? && !m[pos].f.sync
    ensures SyncFrom(m, m[pos].f.syncAt, |m|) && m[pos].f.syncAt <= |m|
  {
    hide FrameOk, LastOwn;
    SyncLater(m, m[pos].f.syncAt, pos, |m|);
  }

  lemma Skips(m: seq<Meta>, c: Consumer, d: Consumer, steps: seq<ConsumerStep>, step: ConsumerStep)
    requires Follows(m, c, d, steps) && Searches(steps) && d.pos < |m| && d.phase.Fetching?
    requires if m[d.pos].Foreign? then step == SkipForeign else !m[d.pos].f.sync && d.phase.needSync && step == SkipDiff
    ensures Follows(m, c, d.(pos := d.pos + 1), steps + [step]) && Searches(steps + [step])
    ensures NoRewind(steps) ==> NoRewind(steps + [step])
  {
    hide Follows, ApplyAll, FrameOps, PartOf;
    FollowsOn(m, c, d, d.(pos := d.pos + 1), steps, step);
  }

  lemma Rewinds(m: seq<Meta>, c: Consumer, d: Consumer, steps: seq<ConsumerStep>)
    requires Follows(m, c, d, steps) && Searches(steps) && NoRewind(steps) && AtOwn(m, d)
    requires !m[d.pos].f.sync && !d.phase.needSync && m[d.pos].f.parent != d.time
    ensures Follows(m, c, d.(pos := m[d.pos].f.syncAt), steps + [Rewind]) && Searches(steps + [Rewind])
  {
    hide Follows, ApplyAll, FrameOps, PartOf;
    FollowsOn(m, c, d, d.(pos := m[d.pos].f.syncAt), steps, Rewind);
  }

  /** A call when all messages arrive: it returns exactly when there is a frame to be found, with
      that frame's table. */
  method CallReturns(m: seq<Meta>, c: Consumer)
    returns (r: Option<nat>, ghost c': Consumer, ghost steps: seq<ConsumerStep>)
    requires LogOk(m) && ConsumerInv(m, c) && c.phase.Idle? && !c.torn
    ensures r == Target(m, c.(phase := Fetching(false)))
    ensures r.Some? ==> r.value < |m| && m[r.value].Own? && Follows(m, c, c', steps) && |steps| > 0 && steps[0].Call?
    ensures r.Some? ==> c'.phase.Idle? && c'.pos == r.value + 1
    ensures r.Some? ==> c'.time == m[r.value].f.time && c'.table == m[r.value].f.table
  {
    var b := c.(phase := Fetching(false));
    ghost var xs;
    r, xs := FindFrame(m, b);
    steps, c' := [Call] + xs, c;
    if r.Some? {
      ghost var d, f := b.(pos := r.value), m[r.value].f;
      FollowsAfter(m, c, b, d, Call, xs);
      ghost var table := ApplyAll(Base(f, d), FrameOps(f.rows));
      c' := Consumer(table, f.time, BaseNames(f, d) + f.peers, r.value + 1, Idle, if f.sync then false else d.torn);
      Everything(f.rows);
      assert ConsumerNext(m, d, c', Finish(f.rows));
      FollowsOn(m, c, d, c', steps, Finish(f.rows));
      steps := steps + [Finish(f.rows)];
      assert ConsumerInv(m, d) by { FollowsKeeps(m, b, d, xs); }
      FinishExact(m, d, c', f.rows);
    }
  }

  lemma {:induction false} Everything<T>(rows: seq<T>)
    ensures PartOf(rows, rows)
  {
    if |rows| > 0 { Everything(rows[1..]); }
  }

  lemma {:induction false} FollowsAfter(m: seq<Meta>, c: Consumer, b: Consumer, d: Consumer, step: ConsumerStep,
                                        xs: seq<ConsumerStep>)
    requires ConsumerNext(m, c, b, step) && Follows(m, b, d, xs)
    ensures Follows(m, c, d, [step] + xs)
    decreases |xs|
  {
    hide ConsumerNext;
    if |xs| == 0 {
      assert Follows(m, c, c, []);
      FollowsOn(m, c, c, b, [], step);
      assert [] + [step] == [step] + xs;
    } else {
      var n := |xs| - 1;
      var e :| Follows(m, b, e, xs[..n]) && ConsumerNext(m, e, d, xs[n]);
      FollowsAfter(m, c, b, e, step, xs[..n]);
      FollowsOn(m, c, e, d, [step] + xs[..n], xs[n]);
      assert [step] + xs[..n] + [xs[n]] == [step] + xs;
    }
  }

  lemma {:induction false} FollowsKeeps(m: seq<Meta>, c: Consumer, d: Consumer, xs: seq<ConsumerStep>)
    requires LogOk(m) && ConsumerInv(m, c) && Searches(xs) && Follows(m, c, d, xs)
    ensures ConsumerInv(m, d)
    decreases |xs|
  {
    hide ConsumerNext, LogOk, ConsumerInv;
    if |xs| > 0 {
      var n := |xs| - 1;
      var e :| Follows(m, c, e, xs[..n]) && ConsumerNext(m, e, d, xs[n]);
      assert Searches(xs[..n]);
      FollowsKeeps(m, c, e, xs[..n]);
      ConsumerKeeps(m, e, d, xs[n]);
    }
  }

  // ---------------------------------------------------------------- whole runs

  datatype System = System(p: Producer, c: Consumer)
  datatype Step = Produce(p: ProducerStep) | Consume(c: ConsumerStep)

  ghost predicate Next(s: System, s': System, step: Step, interval: nat)
    requires interval > 0
  {
    match step
    case Produce(x) => s'.c == s.c && ProducerNext(s.p, s'.p, x, interval)
    case Consume(x) => s'.p == s.p && ConsumerNext(s.p.meta, s.c, s'.c, x)
  }

  ghost predicate Init(s: System) { ProducerInit(s.p) && ConsumerInit(s.c) && s.c.pos <= |s.p.meta| }

  ghost predicate Run(states: seq<System>, steps: seq<Step>, interval: nat)
    requires interval > 0
  {
    && |states| == |steps| + 1 && Init(states[0])
    && forall i :: 0 <= i < |steps| ==> Next(states[i], states[i + 1], steps[i], interval)
  }

  /** The call before step `n` failed, and the view has not been cleared since. */
  ghost predicate Failed(steps: seq<Step>, n: nat)
    requires n <= |steps|
  {
    exists i :: 0 <= i < n && steps[i] == Consume(GiveUp) && forall h :: i < h < n ==> steps[h] != Consume(Clear)
  }

  /** What a caller has to see to, by the results of its own calls: after a call that failed, the
      view is cleared before the next call. */
  ghost predicate Prudent(steps: seq<Step>) {
    forall n :: 0 <= n < |steps| && steps[n] == Consume(Call) ==> !Failed(steps, n)
  }

  /** A table is torn only from a miscounted frame to the end of that call, or until the caller
      clears the view. */
  lemma {:induction false} TornOnlyAfterFailure(states: seq<System>, steps: seq<Step>, interval: nat, n: nat)
    requires interval > 0 && Run(states, steps, interval) && Prudent(steps) && n < |states|
    ensures states[n].c.torn ==> states[n].c.phase == Fetching(true) || (states[n].c.phase.Idle? && Failed(steps, n))
  {
    hide ProducerNext, ProducerInit, ApplyAll, FrameOps, PartOf;
    if n > 0 {
      var i := n - 1;
      TornOnlyAfterFailure(states, steps, interval, i);
      assert Next(states[i], states[n], steps[i], interval);
      if Failed(steps, i) && steps[i] != Consume(Clear) { StillFailed(steps, i); }
      if steps[i] == Consume(GiveUp) { assert Failed(steps, n); }
    }
  }

  lemma StillFailed(steps: seq<Step>, n: nat)
    requires n < |steps| && Failed(steps, n) && steps[n] != Consume(Clear)
    ensures Failed(steps, n + 1)
  {
    var i :| 0 <= i < n && steps[i] == Consume(GiveUp) && forall h :: i < h < n ==> steps[h] != Consume(Clear);
    assert forall h :: i < h < n + 1 ==> steps[h] != Consume(Clear);
  }

  ghost predicate SystemInv(s: System) { ProducerInv(s.p) && ConsumerInv(s.p.meta, s.c) }

  lemma {:induction false} RunInv(states: seq<System>, steps: seq<Step>, interval: nat, n: nat)
    requires interval > 0 && Run(states, steps, interval) && Prudent(steps) && n < |states|
    ensures SystemInv(states[n])
  {
    hide ProducerNext, ConsumerNext, ConsumerInv, ProducerInv, LogOk;
    if n == 0 {
      RunStart(states[0]);
    } else {
      RunInv(states, steps, interval, n - 1);
      TornOnlyAfterFailure(states, steps, interval, n - 1);
      CallsFromIdle(states, steps, interval, n - 1);
      StepKeeps(states[n - 1], states[n], steps[n - 1], interval);
    }
  }

  lemma CallsFromIdle(states: seq<System>, steps: seq<Step>, interval: nat, n: nat)
    requires interval > 0 && Run(states, steps, interval) && n < |steps|
    ensures steps[n] == Consume(Call) ==> states[n].c.phase.Idle?
  {
    assert Next(states[n], states[n + 1], steps[n], interval);
  }

  lemma RunStart(s: System)
    requires Init(s)
    ensures SystemInv(s)
  {
  }

  lemma StepKeeps(s: System, s': System, step: Step, interval: nat)
    requires interval > 0 && SystemInv(s) && Next(s, s', step, interval) && !(step == Consume(Call) && s.c.torn)
    ensures SystemInv(s') && (step.Consume? && step.c.Finish? ==> Exact(s'.p.meta, s'.c))
  {
    hide ProducerNext, ConsumerNext, ConsumerInv, LogOk, FrameOk, LastOwn;
    match step
    case Produce(x) =>
      ProducerKeeps(s.p, s'.p, x, interval);
      TopicGrows(s.p.meta, s'.p.meta, s.c);
    case Consume(x) => ConsumerKeeps(s.p.meta, s.c, s'.c, x);
  }

  /** Over every run, however receives fail and frames are skipped or rewound, each view that
      a call returns is exactly the announced table of the frame whose time it bears, as long as
      the caller clears the view after a failed call before it calls again. */
  lemma EveryReturnExact(states: seq<System>, steps: seq<Step>, interval: nat, i: nat)
    requires interval > 0 && Run(states, steps, interval) && Prudent(steps)
    requires i < |steps| && steps[i].Consume? && steps[i].c.Finish?
    ensures Exact(states[i + 1].p.meta, states[i + 1].c)
  {
    hide ProducerNext, ConsumerNext, SystemInv, Exact;
    RunInv(states, steps, interval, i);
    StepKeeps(states[i], states[i + 1], steps[i], interval);
  }

  // ---------------------------------------------------------------- rewinding

  /** The topic is in order in every run, whatever the consumer and its caller do. */
  lemma {:induction false} TopicInOrder(states: seq<System>, steps: seq<Step>, interval: nat, n: nat)
    requires interval > 0 && Run(states, steps, interval) && n < |states|
    ensures ProducerInv(states[n].p) && (n > 0 ==> states[n - 1].p.meta <= states[n].p.meta)
  {
    hide ProducerNext, ConsumerNext, LogOk;
    if n == 0 {
      assert ProducerInv(states[0].p) by { OrderedStart(states[0].p); }
    } else {
      TopicInOrder(states, steps, interval, n - 1);
      assert Next(states[n - 1], states[n], steps[n - 1], interval);
      if steps[n - 1].Produce? { ProducerKeeps(states[n - 1].p, states[n].p, steps[n - 1].p, interval); }
    }
  }

  lemma OrderedStart(s: Producer)
    requires ProducerInit(s)
    ensures ProducerInv(s)
  {
  }

  /** In every run each diff of ours points back to an offset from which the next frame of ours
      is a sync frame that comes before the diff. */
  lemma RewindFindsSync(states: seq<System>, steps: seq<Step>, interval: nat, n: nat, i: nat)
    requires interval > 0 && Run(states, steps, interval) && n < |states|
    requires i < |states[n].p.meta| && states[n].p.meta[i].Own? && !states[n].p.meta[i].f.sync
    ensures SyncFrom(states[n].p.meta, states[n].p.meta[i].f.syncAt, i)
  {
    hide FrameOk, Run, LastOwn;
    TopicInOrder(states, steps, interval, n);
  }

  /** Between steps `i` and `n` the consumer only skips messages of others. */
  ghost predicate OnlySkips(steps: seq<Step>, i: nat, n: nat)
    requires n <= |steps|
  {
    forall h :: i < h < n ==> steps[h].Produce? || steps[h] == Consume(SkipForeign)
  }

  lemma {:induction false} AfterRewind(states: seq<System>, steps: seq<Step>, interval: nat, i: nat, n: nat)
    requires interval > 0 && Run(states, steps, interval) && i < n < |states| && OnlySkips(steps, i, n)
    requires steps[i] == Consume(Rewind)
    ensures SyncFrom(states[n].p.meta, states[n].c.pos, |states[n].p.meta|) && states[n].c.phase == Fetching(false)
  {
    hide FrameOk, LogOk, ProducerNext, LastOwn, ApplyAll, FrameOps, PartOf;
    TopicInOrder(states, steps, interval, n);
    var h := n - 1;
    assert Next(states[h], states[n], steps[h], interval);
    if h == i {
      RewindFindsSync(states, steps, interval, i, states[i].c.pos);
      SyncLater(states[i].p.meta, states[n].c.pos, states[i].c.pos, |states[i].p.meta|);
    } else {
      AfterRewind(states, steps, interval, i, h);
      SkippedSync(states[h].p.meta, states[n].p.meta, states[h].c.pos, states[n].c.pos);
    }
  }

  lemma SkippedSync(m: seq<Meta>, m': seq<Meta>, a: nat, a': nat)
    requires SyncFrom(m, a, |m|) && m <= m' && (a' == a || (a' == a + 1 && a < |m| && m[a].Foreign?))
    ensures SyncFrom(m', a', |m'|)
  {
    var j :| a <= j < |m| && m[j].Own? && m[j].f.sync && forall h :: a <= h < j ==> m[h].Foreign?;
    assert m'[j] == m[j];
  }

  /** Rewinding cannot loop: whatever else happens, the first frame of ours that the consumer
      meets after a rewind is a sync frame, which it does not skip and does not rewind from. */
  lemma RewindThenSync(states: seq<System>, steps: seq<Step>, interval: nat, i: nat, n: nat)
    requires interval > 0 && Run(states, steps, interval) && i < n < |steps| && OnlySkips(steps, i, n)
    requires steps[i] == Consume(Rewind)
    ensures AtOwn(states[n].p.meta, states[n].c) ==>
            states[n].p.meta[states[n].c.pos].f.sync && Usable(states[n].p.meta, states[n].c)
    ensures steps[n] != Consume(Rewind) && steps[n] != Consume(SkipDiff)
  {
    AfterRewind(states, steps, interval, i, n);
    hide FrameOk, LogOk, ProducerNext, LastOwn, ApplyAll, FrameOps, PartOf, ProducerInit;
    assert Next(states[n], states[n + 1], steps[n], interval);
  }
}
