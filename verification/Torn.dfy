/** Why a caller must not call again after a failed call without clearing the view: a run that
    returns a wrong view, and exactly when the view returned over a torn table is right. */
module Torn {
  import opened Net
  import opened Lists
  import opened RowCodec
  import opened Tables
  import opened Direct

  /** Whatever table the consumer holds, a complete frame makes it exact if and only if it
      already agrees with the frame's table wherever the frame is silent. */
  lemma ReturnExactIff(m: seq<Meta>, c: Consumer, c': Consumer, got: seq<PfxRow>)
    requires LogOk(m) && ConsumerNext(m, c, c', Finish(got))
    ensures c'.table == m[c.pos].f.table <==>
            forall q: Key :: !Touches(FrameOps(m[c.pos].f.rows), q) ==> Agree(Base(m[c.pos].f, c), m[c.pos].f.table, q)
  {
    AllOfIt(got, m[c.pos].f.rows);
    assert FrameOk(m[c.pos].f, LastOwn(m[..c.pos]));
    TruthfulExact(Base(m[c.pos].f, c), m[c.pos].f.table, FrameOps(got));
  }

  // ---------------------------------------------------------------- a run that goes wrong

  const PFX := Pfx(Ip(V4, [192, 0, 2, 0]), 24)
  const KEY: Key := (PFX, 1)
  const OLD := NO_PATH
  const NEW := StorePath(1, [])

  function OneRow(op: Op, path: StorePath): PfxRow { PfxRow(op, PFX, [WireCell(1, path)]) }

  /** A sync frame, a diff that changes the one cell, and a diff that changes nothing. */
  ghost function F1(): Frame { Frame(true, 10, 0, 0, {1}, [OneRow(Sync, OLD)], imap[KEY := OLD]) }
  ghost function F2(): Frame { Frame(false, 11, 10, 0, {1}, [OneRow(Update, NEW)], imap[KEY := NEW]) }
  ghost function F3(): Frame { Frame(false, 12, 11, 0, {1}, [], imap[KEY := NEW]) }

  lemma OneRowOps(op: Op, path: StorePath)
    requires !op.Remove?
    ensures FrameOps([OneRow(op, path)]) == [Put(KEY, path)]
  {
    var r := OneRow(op, path);
    assert [r][..0] == [];
    assert RowOps(r) == [Put(KEY, path)];
  }

  lemma FramesOk()
    ensures FrameOk(F1(), None) && FrameOk(F2(), Some(F1())) && FrameOk(F3(), Some(F2()))
  {
    OneRowOps(Sync, OLD);
    OneRowOps(Update, NEW);
    assert [Put(KEY, OLD)][0].key == KEY && [Put(KEY, NEW)][0].key == KEY;
  }

  ghost function P(meta: seq<Meta>, last: Option<Frame>, pending: Option<nat>): Producer {
    Producer(meta, last, 0, pending)
  }

  lemma Publishes()
    ensures ProducerNext(P([], None, None), P([], None, Some(0)), TakeOffset, 10)
    ensures ProducerNext(P([], None, Some(0)), P([Own(F1())], Some(F1()), None), SendSync(F1()), 10)
    ensures ProducerNext(P([Own(F1())], Some(F1()), None), P([Own(F1()), Own(F2())], Some(F2()), None), SendDiff(F2()),
            10)
    ensures ProducerNext(P([Own(F1()), Own(F2())], Some(F2()), None),
            P([Own(F1()), Own(F2()), Own(F3())], Some(F3()), None), SendDiff(F3()), 10)
  {
    FramesOk();
    assert [] + [Own(F1())] == [Own(F1())];
    assert [Own(F1())] + [Own(F2())] == [Own(F1()), Own(F2())];
    assert [Own(F1()), Own(F2())] + [Own(F3())] == [Own(F1()), Own(F2()), Own(F3())];
  }

  ghost function M(): seq<Meta> { [Own(F1()), Own(F2()), Own(F3())] }

  ghost function C(t: Table, time: nat, named: set<PeerId>, pos: nat, phase: Phase, torn: bool): Consumer {
    Consumer(t, time, named, pos, phase, torn)
  }

  lemma Follows()
    ensures ConsumerNext(M(), C(imap[], 0, {}, 0, Fetching(false), false),
            C(imap[KEY := OLD], 10, {1}, 1, Idle, false), Finish([OneRow(Sync, OLD)]))
    ensures ConsumerNext(M(), C(imap[KEY := OLD], 10, {1}, 1, Fetching(false), false),
            C(imap[KEY := OLD], 11, {1}, 2, Fetching(true), true), Miscount([]))
    ensures ConsumerNext(M(), C(imap[KEY := OLD], 11, {1}, 2, Fetching(false), true),
            C(imap[KEY := OLD], 12, {1}, 3, Idle, true), Finish([]))
  {
    hide FrameOps, ApplyAll, PartOf;
    OneRowOps(Sync, OLD);
    Arrives();
    assert {1} + {1} == {1} && {} + {1} == {1};
    assert M()[0] == Own(F1()) && M()[1] == Own(F2()) && M()[2] == Own(F3());
  }

  /** What comes over the wire in the run: all of the first frame, none of the second. */
  lemma Arrives()
    ensures ApplyAll(imap[], [Put(KEY, OLD)]) == imap[KEY := OLD]
    ensures FrameOps([]) == [] && ApplyAll(imap[KEY := OLD], []) == imap[KEY := OLD]
    ensures PartOf([OneRow(Sync, OLD)], [OneRow(Sync, OLD)]) && PartOf([], [OneRow(Update, NEW)])
    ensures PartOf<PfxRow>([], [])
  {
    var xs := [Put(KEY, OLD)];
    assert xs[..0] == [] && ApplyAll(imap[], []) == imap[];
  }

  ghost function States(): seq<System> {
    var p := P(M(), Some(F3()), None);
    [ System(P([], None, None), C(imap[], 0, {}, 0, Idle, false)),
      System(P([], None, Some(0)), C(imap[], 0, {}, 0, Idle, false)),
      System(P([Own(F1())], Some(F1()), None), C(imap[], 0, {}, 0, Idle, false)),
      System(P([Own(F1()), Own(F2())], Some(F2()), None), C(imap[], 0, {}, 0, Idle, false)),
      System(p, C(imap[], 0, {}, 0, Idle, false)),
      System(p, C(imap[], 0, {}, 0, Fetching(false), false)),
      System(p, C(imap[KEY := OLD], 10, {1}, 1, Idle, false)),
      System(p, C(imap[KEY := OLD], 10, {1}, 1, Fetching(false), false)),
      System(p, C(imap[KEY := OLD], 11, {1}, 2, Fetching(true), true)),
      System(p, C(imap[KEY := OLD], 11, {1}, 2, Idle, true)),
      System(p, C(imap[KEY := OLD], 11, {1}, 2, Fetching(false), true)),
      System(p, C(imap[KEY := OLD], 12, {1}, 3, Idle, true)) ]
  }

  ghost function Steps(): seq<Step> {
    [ Produce(TakeOffset), Produce(SendSync(F1())), Produce(SendDiff(F2())), Produce(SendDiff(F3())),
      Consume(Call), Consume(Finish([OneRow(Sync, OLD)])), Consume(Call), Consume(Miscount([])), Consume(GiveUp),
      Consume(Call), Consume(Finish([])) ]
  }

  /** A caller that is not prudent is handed a view that is no frame's table. */
  lemma TornRunFails()
    ensures Run(States(), Steps(), 10) && !Prudent(Steps())
    ensures Steps()[10] == Consume(Finish([])) && !Exact(States()[11].p.meta, States()[11].c)
  {
    Publishes();
    Follows();
    hide FrameOk, ProducerNext, F1, F2, F3, ConsumerNext;
    IdleMoves();
    assert Steps()[9] == Consume(Call) && Steps()[8] == Consume(GiveUp) && Failed(Steps(), 9);
    assert Init(States()[0]) by { EmptyStart(); }
    forall i | 0 <= i < 11 ensures Next(States()[i], States()[i + 1], Steps()[i], 10) {
      if i == 0 {} else if i == 1 {} else if i == 2 {} else if i == 3 {} else if i == 4 {} else if i == 5 {}
      else if i == 6 {} else if i == 7 {} else if i == 8 {} else if i == 9 {} else {}
    }
    NotTheTable();
  }

  lemma EmptyStart()
    ensures ProducerInit(P([], None, None)) && ConsumerInit(C(imap[], 0, {}, 0, Idle, false))
  {
  }

  lemma IdleMoves()
    ensures ConsumerNext(M(), C(imap[], 0, {}, 0, Idle, false), C(imap[], 0, {}, 0, Fetching(false), false), Call)
    ensures ConsumerNext(M(), C(imap[KEY := OLD], 10, {1}, 1, Idle, false),
            C(imap[KEY := OLD], 10, {1}, 1, Fetching(false), false), Call)
    ensures ConsumerNext(M(), C(imap[KEY := OLD], 11, {1}, 2, Fetching(true), true),
            C(imap[KEY := OLD], 11, {1}, 2, Idle, true), GiveUp)
    ensures ConsumerNext(M(), C(imap[KEY := OLD], 11, {1}, 2, Idle, true),
            C(imap[KEY := OLD], 11, {1}, 2, Fetching(false), true), Call)
  {
  }

  lemma NotTheTable()
    ensures !Exact(M(), C(imap[KEY := OLD], 12, {1}, 3, Idle, true))
  {
    assert imap[KEY := OLD][KEY] != imap[KEY := NEW][KEY];
  }

  // ---------------------------------------------------------------- carelessness can always fail

  /** Calling over any wrong table that bears the time of the latest frame can go wrong: it
      does if the producer's next diff happens to be empty. */
  lemma TornCallFails(s: System, t: nat, interval: nat) returns (s1: System, s2: System, s3: System, g: Frame)
    requires interval > 0 && t % interval != 0 && SystemInv(s) && s.p.pending.None? && s.p.last.Some? && s.c.phase.Idle?
    requires s.c.pos == |s.p.meta|
    requires t > s.c.time == s.p.last.value.time && s.c.table != s.p.last.value.table
    ensures Next(s, s1, Produce(SendDiff(g)), interval)
    ensures Next(s1, s2, Consume(Call), interval) && Next(s2, s3, Consume(Finish([])), interval)
    ensures !Exact(s3.p.meta, s3.c)
  {
    hide LastOwn, SyncFrom;
    var f := s.p.last.value;
    g := Frame(false, t, f.time, s.p.lastSync, f.peers, [], f.table);
    PeersCover(s.p);
    assert FrameOk(g, s.p.last);
    s1 := System(Producer(s.p.meta + [Own(g)], Some(g), s.p.lastSync, None), s.c);
    ProducerKeeps(s.p, s1.p, SendDiff(g), interval);
    s2 := System(s1.p, s.c.(phase := Fetching(false)));
    s3 := System(s1.p, Consumer(s.c.table, t, s.c.named + f.peers, s.c.pos + 1, Idle, s.c.torn));
    assert ApplyAll(s.c.table, FrameOps([])) == s.c.table;
    forall j | 0 <= j < |s1.p.meta| && s1.p.meta[j].Own? && s1.p.meta[j].f.time == t
      ensures s1.p.meta[j].f.table != s.c.table
    {
      LaterTime(s1.p.meta, j, |s.p.meta|);
    }
  }

  lemma PeersCover(p: Producer)
    requires ProducerInv(p) && p.last.Some?
    ensures forall q: Key | q in p.last.value.table :: q.1 in p.last.value.peers
  {
    LastIsOk(p.meta);
  }

  lemma {:induction false} LastIsOk(m: seq<Meta>)
    requires LogOk(m) && LastOwn(m).Some?
    ensures forall q: Key | q in LastOwn(m).value.table :: q.1 in LastOwn(m).value.peers
  {
    hide DiffOf;
    if m[|m| - 1].Foreign? {
      LogPrefix(m, |m| - 1);
      LastIsOk(m[..|m| - 1]);
    }
  }
}
