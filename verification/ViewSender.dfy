/** The view sender: decides between sync and diff frames, keeps a copy of the last view sent
    as the next parent, and hands complete frames to the topic. */
module ViewSenderClass {
  import opened Net
  import opened Khash
  import opened ViewState
  import opened CellOps
  import opened Walk
  import opened Cascade
  import opened Copying
  import opened Inserts
  import opened ViewClass
  import opened ProducerClass
  import opened RowCodec
  import opened Tables
  import opened Sent
  import opened Naming

  datatype Sending = Skipped | SentSync(cnt: nat) | SentDiff(parent: nat, cnt: nat)

  class ViewSender {
    const producer: Producer
    const interval: nat
    var parent: View?
    /** The table that the last frame announced. */
    ghost var last: Table

    constructor (producer: Producer, interval: nat)
      requires interval > 0
      ensures this.producer == producer && this.interval == interval && parent == null
    {
      this.producer, this.interval, parent, last := producer, interval, null, imap[];
    }

    /** The parent copy announces exactly what the last frame announced. */
    ghost predicate Valid()
      reads this, producer, parent
    {
      interval > 0 && (parent != null ==> parent.Valid() && Announced(parent.S(), producer.f, producer.store) == last)
    }

    /** Publish one view: a sync frame on the beat, a diff against the last view otherwise,
        nothing before the first sync. */
    method ProcessView(view: View, sigOf: PeerId -> PeerSig) returns (r: Sending, peers: seq<(PeerId, PeerSig)>)
      requires Valid() && view.Valid() && parent != view
      modifies this, producer, if parent == null then {} else {parent}
      ensures Valid() && view.S() == old(view.S()) && view.time == old(view.time)
      ensures r.Skipped? <==> old(parent) == null && view.time % interval != 0
      ensures r.SentSync? <==> view.time % interval == 0
      ensures r.Skipped? ==> parent == null && last == old(last)
      ensures !r.Skipped? ==> parent != null && parent.time == view.time
      ensures !r.Skipped? ==> last == Announced(view.S(), producer.f, producer.store)
      ensures r.SentSync? ==> DiffOf(FrameOps(Flat(producer.sent)), imap[], last) && r.cnt == |Flat(producer.sent)|
      ensures r.SentDiff? ==> DiffOf(FrameOps(Flat(producer.sent)), old(last), last) && r.cnt == |Flat(producer.sent)|
      ensures r.SentSync? ==> NoWaste(FrameOps(Flat(producer.sent)), imap[], last, producer.store)
      ensures r.SentDiff? ==> NoWaste(FrameOps(Flat(producer.sent)), old(last), last, producer.store)
      ensures r.SentDiff? ==> old(parent) != null && r.parent == old(parent.time)
      ensures !r.Skipped? ==> producer.Lists(peers, view.S(), sigOf)
    {
      hide Inv, Announced, DiffOf, FrameOps, IsCopy, Flat, NoWaste;
      peers := [];
      var syncTime := (view.time / interval) * interval;
      OnTheBeat(view.time, interval);
      if parent == null || view.time == syncTime {
        if view.time != syncTime {
          r := Skipped;
          return;
        }
        var cnt;
        peers, cnt := producer.SendSyncView(view, sigOf);
        r := SentSync(cnt);
      } else {
        var cnt;
        peers, cnt := producer.SendDiffView(view, parent, sigOf);
        r := SentDiff(parent.time, cnt);
      }
      last := Announced(view.S(), producer.f, producer.store);
      KeepCopy(view);
    }

    /** Make the parent a copy of the view: a new one at first, the old one cleared later. */
    method KeepCopy(view: View)
      requires view.Valid() && parent != view && (parent != null ==> parent.Valid())
      modifies this`parent, if parent == null then {} else {parent}
      ensures parent != null && parent.Valid() && parent.time == view.time && (old(parent) == null ==> fresh(parent))
      ensures old(parent) != null ==> parent == old(parent)
      ensures Announced(parent.S(), producer.f, producer.store) == Announced(view.S(), producer.f, producer.store)
    {
      hide Inv, Announced, IsCopy, SameView;
      if parent == null {
        parent := new View();
        SameViewRefl(parent.S());
      } else {
        parent.Clear();
      }
      parent.CopyFrom(view);
      CopyAnnounces(view.S(), parent.S(), producer.f, producer.store);
    }
  }

  lemma OnTheBeat(t: nat, interval: nat)
    requires interval > 0
    ensures t == (t / interval) * interval <==> t % interval == 0
  {
  }
}
