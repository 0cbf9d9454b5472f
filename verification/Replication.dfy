/** Producer and receiver put together: a complete frame carries the receiver from the parent's
    announced table to the new one, and a frame with a message missing is refused. */
module Replication {
  import opened Net
  import opened ViewState
  import opened Copying
  import opened ViewClass
  import opened ProducerClass
  import opened ReceiverClass
  import opened RowCodec
  import opened Tables
  import opened Sent
  import opened Shown
  import opened Naming

  /** The prefix messages of a frame followed by its end record. */
  ghost function Framed(sent: seq<seq<PfxRow>>, time: nat, cnt: nat): seq<Msg> {
    if |sent| == 0 then [End(time, cnt)] else [Rows(sent[0])] + Framed(sent[1..], time, cnt)
  }

  lemma {:induction false} FlatFront(sent: seq<seq<PfxRow>>)
    requires |sent| > 0
    ensures Flat(sent) == sent[0] + Flat(sent[1..])
  {
    var n := |sent| - 1;
    if n > 0 {
      FlatFront(sent[..n]);
      assert sent[..n][1..] == sent[1..][..n - 1];
    } else {
      assert Flat(sent[..0]) == [] && Flat(sent[1..]) == [];
    }
  }

  lemma {:induction false} FramedRows(sent: seq<seq<PfxRow>>, time: nat, cnt: nat)
    ensures RowsOf(Framed(sent, time, cnt)) == Flat(sent) && Ending(Framed(sent, time, cnt)) == Some(End(time, cnt))
  {
    if |sent| > 0 {
      FramedRows(sent[1..], time, cnt);
      FlatFront(sent);
      assert Framed(sent, time, cnt)[1..] == Framed(sent[1..], time, cnt);
    }
  }

  /** The cross-check accepts exactly the frames from which no row is missing. */
  lemma CrossCheck(got: seq<seq<PfxRow>>, time: nat, cnt: nat)
    ensures Verdict(Framed(got, time, cnt)) == if |Flat(got)| == cnt then Done else Failed
  {
    FramedRows(got, time, cnt);
  }

  lemma {:induction false} FlatConcat(a: seq<seq<PfxRow>>, b: seq<seq<PfxRow>>)
    ensures Flat(a + b) == Flat(a) + Flat(b)
  {
    if |b| == 0 {
      assert a + b == a;
    } else {
      var n := |b| - 1;
      assert (a + b)[..|a + b| - 1] == a + b[..n];
      FlatConcat(a, b[..n]);
      assert Flat(a) + (Flat(b[..n]) + b[n]) == Flat(a) + Flat(b[..n]) + b[n];
    }
  }

  /** Since no message is empty, losing any one of them is always noticed. */
  lemma LossIsNoticed(sent: seq<seq<PfxRow>>, i: nat, time: nat)
    requires i < |sent| && |sent[i]| > 0
    ensures Verdict(Framed(sent[..i] + sent[i + 1..], time, |Flat(sent)|)) == Failed
  {
    FlatConcat(sent[..i], sent[i..]);
    assert sent[..i] + sent[i..] == sent;
    FlatFront(sent[i..]);
    assert sent[i..][1..] == sent[i + 1..];
    FlatConcat(sent[..i], sent[i + 1..]);
    CrossCheck(sent[..i] + sent[i + 1..], time, |Flat(sent)|);
  }

  /** A frame built from views fits a receiver that holds the parent's table. */
  lemma FrameFitting(peers: seq<(PeerId, PeerSig)>, xs: seq<CellOp>, p: Table, n: Table, sigOf: PeerId -> PeerSig)
    requires DiffOf(xs, p, n) && forall q: Key | q in n :: (q.1, sigOf(q.1)) in peers
    ensures Fitting(peers, xs, p)
  {
    forall i | 0 <= i < |xs| && xs[i].Put? ensures exists x :: x in peers && x.0 == xs[i].key.1 {
      assert (xs[i].key.1, sigOf(xs[i].key.1)) in peers;
    }
  }

  /** The messages of a frame survive the trip through bytes. */
  lemma ThroughBytes(sent: seq<seq<PfxRow>>, p: Table, n: Table)
    requires DiffOf(FrameOps(Flat(sent)), p, n) && Carriable(p) && Carriable(n)
    requires (forall m | m in sent :: |m| > 0) && forall r | r in Flat(sent) :: GoodRow(r)
    ensures forall i :: 0 <= i < |sent| ==> AllFit(sent[i])
    ensures GetAll(seq(|sent|, i requires 0 <= i < |sent| => MsgBytes(sent[i]))) == Some(Flat(sent))
  {
    hide FrameOps, DiffOf, Carriable, GoodRow, Fits, MsgBytes, GetAll;
    FrameFitsFormat(Flat(sent), p, n);
    forall i | 0 <= i < |sent| ensures AllFit(sent[i]) && |sent[i]| > 0 {
      assert sent[i] in sent;
      PartFits(sent, i);
    }
    SplitRound(sent);
  }

  lemma PartFits(sent: seq<seq<PfxRow>>, i: nat)
    requires i < |sent| && AllFit(Flat(sent))
    ensures AllFit(sent[i])
  {
    hide Fits;
    FlatConcat(sent[..i], sent[i..]);
    assert sent[..i] + sent[i..] == sent;
    FlatFront(sent[i..]);
    forall j | 0 <= j < |sent[i]| ensures Fits(sent[i][j]) {
      assert Flat(sent)[|Flat(sent[..i])| + j] == sent[i][j];
    }
  }

  /** The receiver knows the peers that a frame of the view lists, by their signatures. */
  ghost predicate KnowsPeers(local: PeerSig -> PeerId, sigOf: PeerId -> PeerSig, ren: Names, c: Core, f: Filter) {
    && Injective(ren)
    && forall k: PeerId :: PeerSt(c.peers, k).Active? && ShowsEnough(c, k, f) ==>
      k in ren.peers && local(sigOf(k)) == ren.to(k)
  }

  /** One diff frame, from the views at the producer to the view at the receiver. */
  method ReplicateDiff(prod: Producer, view: View, parent: View, sigOf: PeerId -> PeerSig, recv: Receiver,
                       ghost ren: Names)
    returns (r: Outcome)
    requires view.Valid() && parent.Valid() && recv.view != view && recv.view != parent
    requires recv.Interns() && KnowsPeers(recv.local, sigOf, ren, view.S(), prod.f)
    requires recv.Holds(Announced(parent.S(), prod.f, prod.store), ren)
    modifies prod, recv`ids, recv.view
    ensures r.Done? && recv.view.time == view.time && recv.Holds(Announced(view.S(), prod.f, prod.store), ren)
    ensures forall k: PeerId :: PeerSt(recv.view.peers, k).Active? <==> Busy(recv.view.S(), k)
  {
    hide Inv, Announced, DiffOf, FrameOps, Flat, RowsOf, Verdict, Ending, Fitting, Pull, InRange, Showing, ApplyAll;
    hide Busy, PeerSt;
    ghost var p, n := Announced(parent.S(), prod.f, prod.store), Announced(view.S(), prod.f, prod.store);
    var peers := prod.SendPeers(view, sigOf);
    var cnt := prod.SendDiffPfxs(view, parent);
    FrameFitting(peers, FrameOps(Flat(prod.sent)), p, n, sigOf);
    FramedRows(prod.sent, view.time, cnt);
    CrossCheck(prod.sent, view.time, cnt);
    var msgs := FrameUp(prod.sent, view.time, cnt);
    r := recv.RecvFrame(false, Arrival(peers, true, msgs), ren, p);
    DiffApplies(FrameOps(Flat(prod.sent)), p, n);
  }

  /** One sync frame; it does not matter what the receiver held before. */
  method ReplicateSync(prod: Producer, view: View, sigOf: PeerId -> PeerSig, recv: Receiver, ghost ren: Names)
    returns (r: Outcome)
    requires view.Valid() && recv.view != view && recv.view.Valid()
    requires recv.Interns() && KnowsPeers(recv.local, sigOf, ren, view.S(), prod.f)
    modifies prod, recv`ids, recv.view
    ensures r.Done? && recv.view.time == view.time && recv.Holds(Announced(view.S(), prod.f, prod.store), ren)
    ensures forall k: PeerId :: PeerSt(recv.view.peers, k).Active? <==> Busy(recv.view.S(), k)
  {
    hide Inv, Announced, DiffOf, FrameOps, Flat, RowsOf, Verdict, Ending, Fitting, Pull, InRange, Showing, ApplyAll;
    hide Busy, PeerSt;
    ghost var n := Announced(view.S(), prod.f, prod.store);
    var peers := prod.SendPeers(view, sigOf);
    var cnt := prod.SendSyncPfxs(view);
    FrameFitting(peers, FrameOps(Flat(prod.sent)), imap[], n, sigOf);
    FramedRows(prod.sent, view.time, cnt);
    CrossCheck(prod.sent, view.time, cnt);
    var msgs := FrameUp(prod.sent, view.time, cnt);
    r := recv.RecvFrame(true, Arrival(peers, true, msgs), ren, imap[]);
    DiffApplies(FrameOps(Flat(prod.sent)), imap[], n);
  }

  method FrameUp(sent: seq<seq<PfxRow>>, time: nat, cnt: nat) returns (msgs: seq<Msg>)
    ensures msgs == Framed(sent, time, cnt)
  {
    msgs := [End(time, cnt)];
    var i := |sent|;
    assert sent[i..] == [];
    while i > 0
      invariant i <= |sent| && msgs == Framed(sent[i..], time, cnt)
    {
      i := i - 1;
      assert sent[i..][1..] == sent[i + 1..];
      msgs := [Rows(sent[i])] + msgs;
    }
    assert sent[0..] == sent;
  }
}
