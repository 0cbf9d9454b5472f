/** Dropping invalid slots and clearing: operations that no reader, or every reader, sees. */
module Collect {
  import opened Net
  import opened Khash
  import opened ViewState
  import opened RowSwap
  import opened Cascade
  import opened CellOps
  import opened Inserts
  import opened Walk
  import opened Sweep

  // ---------------------------------------------------------------- collecting

  /** The first `n` slots have lost their invalid entries; the others are untouched. */
  ghost predicate PfxsCollected(t: PfxTab, t': PfxTab, n: nat) {
    && |t'| == |t|
    && forall i :: 0 <= i < |t| ==> t'[i] == if i < n && PfxSt(t[i]).Invalid? then Free else t[i]
  }

  ghost predicate PeersCollected(t: PeerTab, t': PeerTab, n: nat) {
    && |t'| == |t|
    && forall p :: 0 <= p < |t| ==> t'[p] == if p < n && PeerSlotSt(t[p]).Invalid? then Free else t[p]
  }

  lemma InvalidRow(info: PfxInfo, k: PeerId)
    requires RowOk(info) && info.state.Invalid?
    ensures KeySt(info.cells, k).Invalid? && RowCell(info.cells, k) == NO_CELL
  {
    hide Tally, RowSts;
    TallyBounds(RowSts(info.cells));
    var j := Get(info.cells, k);
    if j < |info.cells| { assert RowSts(info.cells)[j] == info.cells[j].val.state; }
  }

  lemma CollectLookup(t: PfxTab, t': PfxTab, pfx: Pfx)
    requires Unique(t) && PfxsCollected(t, t', |t|)
    ensures Unique(t') && (Get(t', pfx) < |t'| <==> Get(t, pfx) < |t| && !PfxSt(t[Get(t, pfx)]).Invalid?)
    ensures Get(t', pfx) < |t'| ==> Get(t', pfx) == Get(t, pfx) && t'[Get(t, pfx)] == t[Get(t, pfx)]
  {
    var g, g' := Get(t, pfx), Get(t', pfx);
    if g < |t| && t'[g].Used? { GetIsSlot(t', g); }
    if g' < |t'| { GetIsSlot(t, g'); }
  }

  lemma CollectCounts(c: Core, d: Core, v: Ver)
    requires Inv(c) && PfxsCollected(c.pfxs.At(v), d.pfxs.At(v), |c.pfxs.At(v)|)
    requires d == c.(pfxs := c.pfxs.With(v, d.pfxs.At(v)))
    ensures PfxsCounted(d) && SeenCounted(d) && PeersCounted(d)
  {
    hide Tally, PfxSts, SeenSts, PeerSts, Get, Unique, SeenSt;
    assert PfxSts(d.pfxs.At(v)) == PfxSts(c.pfxs.At(v));
    assert d.pfxs.At(v.Other()) == c.pfxs.At(v.Other());
    forall p | 0 <= p < |d.peers| && d.peers[p].Used?
      ensures SeenSts(d.pfxs.At(v), d.peers[p].key) == SeenSts(c.pfxs.At(v), d.peers[p].key)
    {
      forall i | 0 <= i < |d.pfxs.At(v)|
        ensures SeenSt(d.pfxs.At(v)[i], d.peers[p].key) == SeenSt(c.pfxs.At(v)[i], d.peers[p].key)
      {
        CollectSeen(c, d, v, i, d.peers[p].key);
      }
    }
    forall w: Ver ensures d.pfxCnt.At(w) == Tally(PfxSts(d.pfxs.At(w))) {
      if w != v { assert w == v.Other(); }
    }
    forall w: Ver, p | 0 <= p < |d.peers| && d.peers[p].Used?
      ensures d.peers[p].val.cnt.At(w) == Tally(SeenSts(d.pfxs.At(w), d.peers[p].key))
    {
      if w != v { assert w == v.Other(); }
    }
  }

  lemma CollectSeen(c: Core, d: Core, v: Ver, i: nat, k: PeerId)
    requires Inv(c) && PfxsCollected(c.pfxs.At(v), d.pfxs.At(v), |c.pfxs.At(v)|) && i < |c.pfxs.At(v)|
    ensures SeenSt(d.pfxs.At(v)[i], k) == SeenSt(c.pfxs.At(v)[i], k)
  {
    hide Tally, PfxSts, SeenSts, PeerSts, Get, Unique;
    if c.pfxs.At(v)[i].Used? && c.pfxs.At(v)[i].val.state.Invalid? {
      InvalidRow(c.pfxs.At(v)[i].val, k);
    }
  }

  /** Collecting one table keeps the invariant and is invisible. */
  lemma CollectPfxs(c: Core, d: Core, v: Ver)
    requires Inv(c) && PfxsCollected(c.pfxs.At(v), d.pfxs.At(v), |c.pfxs.At(v)|)
    requires d == c.(pfxs := c.pfxs.With(v, d.pfxs.At(v)))
    ensures Inv(d) && SameView(c, d)
  {
    hide Tally, PfxSts, SeenSts, PeerSts, Get, RowOk;
    CollectCounts(c, d, v);
    assert d.pfxs.At(v.Other()) == c.pfxs.At(v.Other());
    forall pfx: Pfx, k: PeerId ensures CellAt(d, pfx, k) == CellAt(c, pfx, k) { CollectCell(c, d, v, pfx, k); }
    forall w: Ver, i | 0 <= i < |d.pfxs.At(w)| && d.pfxs.At(w)[i].Used?
      ensures c.pfxs.At(w)[i] == d.pfxs.At(w)[i]
    {
      if w != v { assert w == v.Other(); }
    }
    if v.V4? {
      CollectLookup(c.pfxs.v4, d.pfxs.v4, Pfx(Ip(V4, []), 0));
    } else {
      CollectLookup(c.pfxs.v6, d.pfxs.v6, Pfx(Ip(V6, []), 0));
    }
  }

  lemma CollectCell(c: Core, d: Core, v: Ver, pfx: Pfx, k: PeerId)
    requires Inv(c) && PfxsCollected(c.pfxs.At(v), d.pfxs.At(v), |c.pfxs.At(v)|)
    requires d == c.(pfxs := c.pfxs.With(v, d.pfxs.At(v)))
    ensures CellAt(d, pfx, k) == CellAt(c, pfx, k)
  {
    hide Tally, PfxSts, SeenSts, PeerSts, Get;
    if pfx.Ver() == v {
      CollectLookup(c.pfxs.At(v), d.pfxs.At(v), pfx);
      var i := Get(c.pfxs.At(v), pfx);
      if i < |c.pfxs.At(v)| && c.pfxs.At(v)[i].val.state.Invalid? { InvalidRow(c.pfxs.At(v)[i].val, k); }
    }
  }

  lemma CollectPeers(c: Core, d: Core)
    requires Inv(c) && PeersCollected(c.peers, d.peers, |c.peers|)
    requires d == c.(peers := d.peers)
    ensures Inv(d) && SameView(c, d)
  {
    hide Tally, PfxSts, SeenSts, Get, RowOk;
    assert PeerSts(d.peers) == PeerSts(c.peers);
    assert Unique(d.peers);
    forall k: PeerId ensures PeerSt(d.peers, k) == PeerSt(c.peers, k) {
      var g, g' := Get(c.peers, k), Get(d.peers, k);
      if g < |c.peers| && d.peers[g].Used? { GetIsSlot(d.peers, g); }
      if g' < |d.peers| { GetIsSlot(c.peers, g'); }
    }
  }

  ghost predicate NoInvalidPfx(t: PfxTab) { forall i :: 0 <= i < |t| && t[i].Used? ==> !t[i].val.state.Invalid? }
  ghost predicate NoInvalidPeer(t: PeerTab) { forall p :: 0 <= p < |t| && t[p].Used? ==> !t[p].val.state.Invalid? }

  lemma SameViewTrans(c: Core, d: Core, e: Core)
    requires SameView(c, d) && SameView(d, e)
    ensures SameView(c, e)
  {
    hide CellAt, PeerSt;
  }

  // ---------------------------------------------------------------- clearing

  predicate AnyUsed<K, V>(t: seq<Slot<K, V>>) { exists i :: 0 <= i < |t| && t[i].Used? }

  /** An invalid row without a valid cell. */
  ghost predicate DeadRow(info: PfxInfo) { info.state.Invalid? && RowOk(info) }

  /** The row that clearing leaves behind: its cell table keeps its size and loses its cells. */
  function WipedRow(info: PfxInfo): PfxInfo { PfxInfo(Invalid, seq(|info.cells|, _ => Free), ZERO) }

  lemma WipedIsDead(info: PfxInfo)
    ensures DeadRow(WipedRow(info))
  {
    TallyNone(RowSts(WipedRow(info).cells));
  }

  ghost predicate AllDead(t: PfxTab) { forall i :: 0 <= i < |t| && t[i].Used? ==> DeadRow(t[i].val) }
  ghost predicate AllReset(t: PeerTab) { forall p :: 0 <= p < |t| && t[p].Used? ==> t[p].val == NO_PEER }

  lemma DeadSeen(t: PfxTab, k: PeerId)
    requires AllDead(t)
    ensures Tally(SeenSts(t, k)) == ZERO && Tally(PfxSts(t)) == ZERO
  {
    hide Get, RowOk;
    forall i | 0 <= i < |t| ensures SeenSt(t[i], k).Invalid? && PfxSt(t[i]).Invalid? {
      if t[i].Used? { InvalidRow(t[i].val, k); }
    }
    TallyNone(SeenSts(t, k));
    TallyNone(PfxSts(t));
  }

  lemma DeadBacked(info: PfxInfo, peers: PeerTab)
    requires DeadRow(info)
    ensures RowBacked(info.cells, peers)
  {
    hide Tally, RowSts;
    TallyBounds(RowSts(info.cells));
    forall j | 0 <= j < |info.cells| && info.cells[j].Used? ensures info.cells[j].val.state.Invalid? {
      assert RowSts(info.cells)[j] == info.cells[j].val.state;
    }
  }

  lemma DeadView(d: Core)
    requires AllDead(d.pfxs.v4) && AllDead(d.pfxs.v6) && AllReset(d.peers)
    ensures SameView(d, FRESH)
  {
    hide Tally, RowSts, RowOk, Get;
    forall pfx: Pfx, k: PeerId ensures CellAt(d, pfx, k) == NO_CELL {
      var i := Get(d.pfxs.At(pfx.Ver()), pfx);
      if i < |d.pfxs.At(pfx.Ver())| { InvalidRow(d.pfxs.At(pfx.Ver())[i].val, k); }
    }
  }

  /** A table of dead rows and reset peers is a settled view that shows nothing. */
  lemma ClearEffect(c: Core, d: Core)
    requires Inv(c) && SameKeys(c.pfxs.v4, d.pfxs.v4) && SameKeys(c.pfxs.v6, d.pfxs.v6) && SameKeys(c.peers, d.peers)
    requires AllDead(d.pfxs.v4) && AllDead(d.pfxs.v6) && AllReset(d.peers)
    requires d.pfxCnt == Both(ZERO, ZERO) && d.peerCnt == ZERO
    ensures Inv(d) && SameView(d, FRESH)
  {
    hide Tally, SeenSts, PfxSts, Get, RowOk;
    DeadView(d);
    TallyNone(PeerSts(d.peers));
    forall v: Ver ensures d.pfxCnt.At(v) == Tally(PfxSts(d.pfxs.At(v))) { DeadSeen(d.pfxs.At(v), 1); }
    forall v: Ver, p | 0 <= p < |d.peers| && d.peers[p].Used?
      ensures d.peers[p].val.cnt.At(v) == Tally(SeenSts(d.pfxs.At(v), d.peers[p].key))
    {
      DeadSeen(d.pfxs.At(v), d.peers[p].key);
    }
    forall v: Ver, i | 0 <= i < |d.pfxs.At(v)| && d.pfxs.At(v)[i].Used?
      ensures RowOk(d.pfxs.At(v)[i].val) && RowBacked(d.pfxs.At(v)[i].val.cells, d.peers)
      ensures d.pfxs.At(v)[i].key.Ver() == v
    {
      DeadBacked(d.pfxs.At(v)[i].val, d.peers);
      assert c.pfxs.At(v)[i].Used?;
    }
  }

  /** The first `n` prefixes of the walk are invalid, and no key has moved. */
  ghost predicate Wiped(c: Core, d: Core, n: nat) {
    && RowsOk(d) && (forall v: Ver :: SameKeys(c.pfxs.At(v), d.pfxs.At(v)))
    && n <= Span(d) && forall at :: 0 <= at < n ==> !PfxHit(d, at, ALL_VALID)
  }

  lemma WipeStep(c: Core, d: Core, e: Core, v: Ver, i: nat)
    requires HasRow(d, v, i) && Wiped(c, d, Lin(d, v, i)) && e == WithRow(d, v, i, WipedRow(Row(d, v, i)))
    ensures Wiped(c, e, Lin(e, v, i) + 1)
  {
    hide RowOk, WipedRow;
    WipedIsDead(Row(d, v, i));
    forall w: Ver ensures SameKeys(c.pfxs.At(w), e.pfxs.At(w)) {
      assert SameKeys(c.pfxs.At(w), d.pfxs.At(w));
    }
    forall w: Ver, h | 0 <= h < |e.pfxs.At(w)| && e.pfxs.At(w)[h].Used? ensures RowOk(e.pfxs.At(w)[h].val) {
      if !(w == v && h == i) { assert e.pfxs.At(w)[h] == d.pfxs.At(w)[h]; }
    }
    forall at | 0 <= at < Lin(e, v, i) + 1 ensures !PfxHit(e, at, ALL_VALID) {
      if at < Lin(d, v, i) { assert SlotAt(e, at) == SlotAt(d, at) && !PfxHit(d, at, ALL_VALID); }
    }
  }

  lemma WipeMove(c: Core, d: Core, n: nat, r: Iter)
    requires PfxMoved(d, n, None, ALL_VALID, r) && (if n == 0 then c == d && RowsOk(d) else Wiped(c, d, n))
    ensures Wiped(c, d, Where(d, r))
  {
    hide RowOk;
  }

  lemma WipeDone(c: Core, d: Core)
    requires Wiped(c, d, Span(d))
    ensures AllDead(d.pfxs.v4) && AllDead(d.pfxs.v6) && SameKeys(c.pfxs.v4, d.pfxs.v4) && SameKeys(c.pfxs.v6, d.pfxs.v6)
  {
    hide RowOk;
    assert SameKeys(c.pfxs.At(V4), d.pfxs.At(V4)) && SameKeys(c.pfxs.At(V6), d.pfxs.At(V6));
    forall v: Ver, i | 0 <= i < |d.pfxs.At(v)| && d.pfxs.At(v)[i].Used? ensures DeadRow(d.pfxs.At(v)[i].val) {
      assert SlotAt(d, Lin(d, v, i)) == d.pfxs.At(v)[i] && !PfxHit(d, Lin(d, v, i), ALL_VALID);
    }
    assert AllDead(d.pfxs.At(V4)) && AllDead(d.pfxs.At(V6));
  }

  lemma InvalidPeersReset(c: Core)
    requires Inv(c)
    ensures forall p :: 0 <= p < |c.peers| && c.peers[p].Used? && c.peers[p].val.state.Invalid? ==>
            c.peers[p].val == NO_PEER
  {
    hide Inv, SeenSt;
    forall p | 0 <= p < |c.peers| && c.peers[p].Used? && c.peers[p].val.state.Invalid?
      ensures c.peers[p].val == NO_PEER
    {
      PeerTallied(c, p);
      EmptyPeer(c, p);
    }
  }

  lemma NothingFlagged(c: Core, gcPfxs: Both<bool>, gcPeers: bool)
    requires Flagged(c, gcPfxs, gcPeers)
    ensures !gcPfxs.v4 ==> NoInvalidPfx(c.pfxs.v4)
    ensures !gcPfxs.v6 ==> NoInvalidPfx(c.pfxs.v6)
    ensures !gcPeers ==> NoInvalidPeer(c.peers)
  {
    assert !gcPfxs.At(V4) ==> NoInvalidPfx(c.pfxs.At(V4));
    assert !gcPfxs.At(V6) ==> NoInvalidPfx(c.pfxs.At(V6));
  }

  lemma NoneInvalid(c: Core)
    requires NoInvalidPfx(c.pfxs.v4) && NoInvalidPfx(c.pfxs.v6) && NoInvalidPeer(c.peers)
    ensures Flagged(c, Both(false, false), false)
  {
  }
}
