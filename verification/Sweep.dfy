/** Lowering every cell of one peer while walking the table that is being lowered. */
module Sweep {
  import opened Net
  import opened Khash
  import opened ViewState
  import opened RowSwap
  import opened Cascade
  import opened CellOps
  import opened Inserts
  import opened Walk

  /** What a sweep to state `t` makes of a cell. */
  function SweptTo(x: Cell, t: State): Cell { if t.Invalid? then NO_CELL else Quiet(x) }

  function LoweredOne(info: PfxInfo, j: nat, t: State): PfxInfo
    requires j < |info.cells|
  {
    if t.Invalid? then RemovedOne(info, j) else DeactivatedOne(info, j)
  }

  /** The peer has no cell left above `t` before the position `at, j`. */
  ghost predicate ClearBefore(d: Core, k: PeerId, t: State, at: nat, j: nat) {
    forall a: nat, b: nat :: Match(d, a, b, Above(t)) && RowAt(d, a)[b].key == k ==> !Before(a, b, at, j)
  }

  ghost predicate SameShape(c: Core, d: Core) {
    && (forall v: Ver :: |d.pfxs.At(v)| == |c.pfxs.At(v)|)
    && |d.peers| == |c.peers| && (forall p :: 0 <= p < |c.peers| ==> SamePeer(c.peers[p], d.peers[p]))
    && d.peerCnt == c.peerCnt
  }

  /** The cells of peer `k` that differ from `c` have been lowered; nothing else has changed. */
  ghost predicate SomeLowered(c: Core, d: Core, k: PeerId, t: State) {
    && (forall pfx: Pfx, h: PeerId :: h != k ==> CellAt(d, pfx, h) == CellAt(c, pfx, h))
    && (forall pfx: Pfx :: CellAt(d, pfx, k) == CellAt(c, pfx, k) || CellAt(d, pfx, k) == SweptTo(CellAt(c, pfx, k), t))
  }

  ghost predicate Sweeping(c: Core, d: Core, k: PeerId, t: State, at: nat, j: nat) {
    !t.Active? && Inv(d) && SameShape(c, d) && SomeLowered(c, d, k, t) && ClearBefore(d, k, t, at, j)
  }

  /** Lowering one cell keeps the row's keys, lowers that cell below the mask and raises nothing. */
  lemma LowersRow(info: PfxInfo, j: nat, t: State)
    requires RowOk(info) && j < |info.cells| && !CellSt(info.cells[j]).Invalid? && !t.Active?
    ensures var now := LoweredOne(info, j, t);
      && |now.cells| == |info.cells|
      && (forall b :: 0 <= b < |now.cells| && now.cells[b].Used? ==>
        info.cells[b].Used? && now.cells[b].key == info.cells[b].key)
      && (forall b :: 0 <= b < |now.cells| && Above(t).Hits(CellSt(now.cells[b])) ==>
        b != j && Above(t).Hits(CellSt(info.cells[b])))
      && (Above(t).Hits(now.state) ==> Above(t).Hits(info.state))
      && |now.cells| == |info.cells| && now.cells[j].Used? && now.cells[j].key == info.cells[j].key
  {
    hide Tally, RowSts, Lowered, Unique;
    CountedCell(info.cells, j);
    if t.Invalid? {
      QuietCell(info, j);
      var mid := DeactivatedOne(info, j);
      RowStill(info, j);
      CountedCell(mid.cells, j);
    }
  }

  lemma RowStill(info: PfxInfo, j: nat)
    requires RowOk(info) && j < |info.cells| && !CellSt(info.cells[j]).Invalid?
    ensures RowOk(DeactivatedOne(info, j))
  {
    hide Tally, RowSts;
    CountedCell(info.cells, j);
    SetCellFacts(info.cells, j, Lower(info.cells[j], Inactive).val);
  }

  lemma SwapShape(c: Core, d: Core, e: Core, v: Ver, i: nat, info: PfxInfo)
    requires SameShape(c, d) && HasRow(d, v, i) && Swapped(d, e, v, i, info)
    ensures SameShape(c, e)
  {
    forall p | 0 <= p < |c.peers| ensures SamePeer(c.peers[p], e.peers[p]) {
      assert PeerShift(d.peers[p], e.peers[p], v, Row(d, v, i).cells, info.cells);
      assert SamePeer(c.peers[p], d.peers[p]);
    }
  }

  lemma ClearMore(d: Core, e: Core, it: Iter, t: State)
    requires Inv(d) && AtCell(d, it) && !t.Active?
    requires Swapped(d, e, it.ver, it.pfx, LoweredOne(Row(d, it.ver, it.pfx), it.cell, t))
    requires ClearBefore(d, CellKey(d, it), t, Where(d, it), it.cell)
    ensures ClearBefore(e, CellKey(d, it), t, Where(e, it), it.cell + 1)
  {
    hide Inv, Get, LoweredOne;
    var k, info := CellKey(d, it), Row(d, it.ver, it.pfx);
    InvLoose(d, it.ver, it.pfx);
    LowersRow(info, it.cell, t);
    forall a: nat, b: nat | Match(e, a, b, Above(t)) && RowAt(e, a)[b].key == k
      ensures !Before(a, b, Where(e, it), it.cell + 1)
    {
      if a != Where(d, it) { assert SlotAt(e, a) == SlotAt(d, a); }
      assert Match(d, a, b, Above(t)) && RowAt(d, a)[b].key == k;
    }
  }

  /** A row that the mask no longer hits has no cell that it hits. */
  lemma RowMissed(c: Core, v: Ver, i: nat, t: State)
    requires Inv(c) && HasRow(c, v, i) && !t.Active?
    ensures Above(t).Hits(Row(c, v, i).state) ||
            forall j :: 0 <= j < |Row(c, v, i).cells| ==> !Above(t).Hits(CellSt(Row(c, v, i).cells[j]))
  {
    hide Inv, Get, Tally;
    InvLoose(c, v, i);
    var cells := Row(c, v, i).cells;
    TallyBounds(RowSts(cells));
    forall j | 0 <= j < |cells| ensures RowSts(cells)[j] == CellSt(cells[j]) {}
  }

  /** Lowering the peer's cell under the walk moves the sweep past it. */
  lemma SweepCell(c: Core, d: Core, e: Core, it: Iter, k: PeerId, t: State)
    requires Sweeping(c, d, k, t, Where(d, it), it.cell) && AtCell(d, it) && CellKey(d, it) == k
    requires Swapped(d, e, it.ver, it.pfx, LoweredOne(Row(d, it.ver, it.pfx), it.cell, t))
    ensures Sweeping(c, e, k, t, Where(e, it), it.cell + 1)
    ensures HasRow(e, it.ver, it.pfx) && |Row(e, it.ver, it.pfx).cells| == |Row(d, it.ver, it.pfx).cells|
    ensures Ahead(e, it) == Ahead(d, it) && Left(e, it) == Left(d, it)
  {
    hide Inv, ClearBefore, CellAt, LoweredOne, Match, Get;
    ClearMore(d, e, it, t);
    SwapShape(c, d, e, it.ver, it.pfx, LoweredOne(Row(d, it.ver, it.pfx), it.cell, t));
    SweepEffect(c, d, e, it, k, t);
    InvLoose(d, it.ver, it.pfx);
    LowersRow(Row(d, it.ver, it.pfx), it.cell, t);
    SwapRow(d, e, it.ver, it.pfx, LoweredOne(Row(d, it.ver, it.pfx), it.cell, t));
  }

  lemma SweepEffect(c: Core, d: Core, e: Core, it: Iter, k: PeerId, t: State)
    requires Inv(d) && SomeLowered(c, d, k, t) && AtCell(d, it) && CellKey(d, it) == k && !t.Active?
    requires Swapped(d, e, it.ver, it.pfx, LoweredOne(Row(d, it.ver, it.pfx), it.cell, t))
    ensures Inv(e) && SomeLowered(c, e, k, t)
  {
    hide Inv, CellAt, Swapped, RemovedOne, DeactivatedOne, Get;
    if t.Invalid? {
      RemoveCellEffect(d, e, it);
    } else {
      DeactivateCellEffect(d, e, it);
    }
  }

  lemma SweepOther(c: Core, d: Core, it: Iter, k: PeerId, t: State)
    requires Sweeping(c, d, k, t, Where(d, it), it.cell) && AtCell(d, it) && CellKey(d, it) != k
    ensures Sweeping(c, d, k, t, Where(d, it), it.cell + 1)
  {
    hide Inv, Get, CellAt;
  }

  lemma SweepMove(c: Core, d: Core, k: PeerId, t: State, at: nat, j: nat, r: Iter)
    requires Sweeping(c, d, k, t, at, j) && NothingSkipped(d, at, j, r, Above(t))
    ensures HasMorePfxPeer(d.pfxs, r) ==> Sweeping(c, d, k, t, Where(d, r), r.cell)
    ensures !HasMorePfxPeer(d.pfxs, r) ==> Sweeping(c, d, k, t, Span(d), 0)
  {
    hide Inv, Get, CellAt, Match;
  }

  lemma SweepStart(c: Core, k: PeerId, t: State)
    requires Inv(c) && !t.Active?
    ensures Sweeping(c, c, k, t, 0, 0)
  {
    hide Inv, Get, CellAt;
  }

  /** At the end of the walk no cell of the peer is above `t`. */
  lemma SweepDone(c: Core, d: Core, k: PeerId, t: State)
    requires Sweeping(c, d, k, t, Span(d), 0)
    ensures forall pfx: Pfx :: CellAt(d, pfx, k) == SweptTo(CellAt(c, pfx, k), t)
    ensures forall v: Ver, i :: 0 <= i < |d.pfxs.At(v)| ==> SeenSt(d.pfxs.At(v)[i], k).Rank() <= t.Rank()
  {
    hide Inv, Get, RowOk;
    forall v: Ver, i | 0 <= i < |d.pfxs.At(v)|
      ensures SeenSt(d.pfxs.At(v)[i], k).Rank() <= t.Rank()
    {
      if d.pfxs.At(v)[i].Used? { RowSwept(d, k, t, v, i); }
    }
    forall pfx: Pfx ensures CellAt(d, pfx, k) == SweptTo(CellAt(c, pfx, k), t) {
      var tab := d.pfxs.At(pfx.Ver());
      var i := Get(tab, pfx);
      if i < |tab| { assert SeenSt(tab[i], k).Rank() <= t.Rank(); }
    }
  }

  lemma RowSwept(d: Core, k: PeerId, t: State, v: Ver, i: nat)
    requires Inv(d) && !t.Active? && ClearBefore(d, k, t, Span(d), 0) && HasRow(d, v, i)
    ensures KeySt(Row(d, v, i).cells, k).Rank() <= t.Rank()
  {
    hide Inv, Get, KeySt;
    if KeySt(Row(d, v, i).cells, k).Rank() > t.Rank() { PeerMatch(d, k, t, v, i); }
  }

  /** A cell of the peer above `t` is a match somewhere in the walk. */
  lemma PeerMatch(d: Core, k: PeerId, t: State, v: Ver, i: nat)
    requires Inv(d) && HasRow(d, v, i) && !t.Active? && KeySt(Row(d, v, i).cells, k).Rank() > t.Rank()
    ensures var j := Get(Row(d, v, i).cells, k);
            Match(d, Lin(d, v, i), j, Above(t)) && RowAt(d, Lin(d, v, i))[j].key == k
  {
    hide Inv, Get;
    RowMissed(d, v, i, t);
    assert SlotAt(d, Lin(d, v, i)) == d.pfxs.At(v)[i];
  }

  /** A peer that caches no cell above `t` has none. */
  lemma UncountedPeer(c: Core, p: nat, t: State, v: Ver, i: nat)
    requires Inv(c) && HasRow(c, v, i) && p < |c.peers| && c.peers[p].Used? && !t.Active?
    requires c.peers[p].val.cnt.At(v).act == 0 && (t.Invalid? ==> c.peers[p].val.cnt.At(v).ina == 0)
    ensures KeySt(Row(c, v, i).cells, c.peers[p].key).Rank() <= t.Rank()
  {
    hide Get, Tally, RowOk, KeySt, PfxsCounted, PeersCounted, CellsBacked;
    var s := SeenSts(c.pfxs.At(v), c.peers[p].key);
    TallyBounds(s);
    assert s[i] == KeySt(Row(c, v, i).cells, c.peers[p].key);
    assert s[i].Rank() <= t.Rank();
  }

  lemma NothingToSweep(c: Core, p: nat, t: State)
    requires Inv(c) && p < |c.peers| && c.peers[p].Used? && !t.Active?
    requires forall v: Ver :: c.peers[p].val.cnt.At(v).act == 0 && (t.Invalid? ==> c.peers[p].val.cnt.At(v).ina == 0)
    ensures Sweeping(c, c, c.peers[p].key, t, Span(c), 0)
  {
    hide Get, Inv, CellAt, Unique;
    var k := c.peers[p].key;
    forall a: nat, b: nat | Match(c, a, b, Above(t)) ensures RowAt(c, a)[b].key != k {
      var v := if a < |c.pfxs.v4| then V4 else V6;
      var i := if v.V4? then a else a - |c.pfxs.v4|;
      RowKeys(c, v, i);
      GetIsSlot(Row(c, v, i).cells, b);
      UncountedPeer(c, p, t, v, i);
    }
  }

  // ---------------------------------------------------------------- one iteration

  /** The walk stands on a match, or has ended. */
  ghost predicate Stands(c: Core, it: Iter, mask: Mask) {
    && it.pfxMask == mask && it.cellMask == mask && it.filter != Some(V4) &&
      (it.filter.Some? ==> it.ver == it.filter.value)
    && (HasMorePfxPeer(c.pfxs, it) ==> AtCell(c, it) && Match(c, Where(c, it), it.cell, mask))
  }

  ghost function Left(c: Core, it: Iter): nat {
    if HasRow(c, it.ver, it.pfx) &&
      it.cell <= |Row(c, it.ver, it.pfx).cells| then |Row(c, it.ver, it.pfx).cells| - it.cell else 0
  }

  ghost function Ahead(c: Core, it: Iter): nat {
    if HasMorePfxPeer(c.pfxs, it) then Span(c) - Where(c, it) else 0
  }

  lemma OnRow(c: Core, it: Iter, mask: Mask)
    requires Inv(c) && Stands(c, it, mask) && HasMorePfxPeer(c.pfxs, it)
    ensures AtCell(c, it) && Loose(c, it.ver, it.pfx, Invalid) && Loose(c, it.ver, it.pfx, Inactive)
    ensures !Row(c, it.ver, it.pfx).state.Invalid? && Has(c.pfxCnt.At(it.ver), Row(c, it.ver, it.pfx).state)
  {
    hide Inv, Get;
    InvLoose(c, it.ver, it.pfx);
    assert SlotAt(c, Where(c, it)) == c.pfxs.At(it.ver)[it.pfx];
  }

  lemma SweepNext(c: Core, d: Core, it: Iter, r: Iter, k: PeerId, t: State)
    requires Sweeping(c, d, k, t, Where(d, it), it.cell + 1)
    requires HasRow(d, it.ver, it.pfx) && it.cell < |Row(d, it.ver, it.pfx).cells|
    requires it.pfxMask == Above(t) && it.cellMask == Above(t) && it.filter != Some(V4)
    requires Stepped(d, it, r)
    ensures Stands(d, r, Above(t))
    ensures HasMorePfxPeer(d.pfxs, r) ==> Sweeping(c, d, k, t, Where(d, r), r.cell)
    ensures it.cellValid ==> Ahead(d, r) < Ahead(d, it) || (Ahead(d, r) == Ahead(d, it) && Left(d, r) < Left(d, it))
    ensures !HasMorePfxPeer(d.pfxs, r) ==> Sweeping(c, d, k, t, Span(d), 0)
  {
    hide Inv, SomeLowered, ClearBefore, SameShape, Get;
    RowMissed(d, it.ver, it.pfx, t);
    assert SlotAt(d, Where(d, it)) == d.pfxs.At(it.ver)[it.pfx];
    StepComplete(d, it, r, Above(t));
    SweepMove(c, d, k, t, Where(d, it), it.cell + 1, r);
  }

  lemma KeepsFlags(d: Core, e: Core, it: Iter, t: State, gcPfxs: Both<bool>, gcPfxs': Both<bool>, gcPeers: bool)
    requires AtCell(d, it) && Flagged(d, gcPfxs, gcPeers)
    requires Swapped(d, e, it.ver, it.pfx, LoweredOne(Row(d, it.ver, it.pfx), it.cell, t))
    requires HasRow(e, it.ver, it.pfx)
    requires gcPfxs' == if t.Invalid? && !Row(d, it.ver, it.pfx).state.Invalid? && Row(e, it.ver, it.pfx).state.Invalid?
                        then gcPfxs.With(it.ver, true) else gcPfxs
    ensures Flagged(e, gcPfxs', gcPeers)
  {
    hide Flagged, Get, RemovedOne;
    SwapRow(d, e, it.ver, it.pfx, LoweredOne(Row(d, it.ver, it.pfx), it.cell, t));
    SwapFlagged(d, e, it.ver, it.pfx, LoweredOne(Row(d, it.ver, it.pfx), it.cell, t), gcPfxs, gcPfxs', gcPeers);
  }

  // ---------------------------------------------------------------- the peer itself

  /** An inactive peer has no active cell to quiet. */
  lemma QuietPeer(c: Core, p: nat)
    requires Inv(c) && p < |c.peers| && c.peers[p].Used? && c.peers[p].val.state.Inactive?
    ensures forall pfx: Pfx :: Quiet(CellAt(c, pfx, c.peers[p].key)) == CellAt(c, pfx, c.peers[p].key)
    ensures PeerSt(c.peers, c.peers[p].key).Inactive?
  {
    hide Inv, Get;
    PeerTallied(c, p);
    UniquePeers(c);
    GetIsSlot(c.peers, p);
    forall pfx: Pfx ensures !CellAt(c, pfx, c.peers[p].key).state.Active? {
      var tab := c.pfxs.At(pfx.Ver());
      var i := Get(tab, pfx);
      if i < |tab| { assert SeenSt(tab[i], c.peers[p].key).Rank() <= 1; }
    }
  }

  lemma StillPeer(c: Core, p: nat)
    requires Inv(c) && p < |c.peers| && c.peers[p].Used? && PeerSt(c.peers, c.peers[p].key).Inactive?
    ensures c.peers[p].val.state.Inactive?
  {
    hide Inv, Get;
    UniquePeers(c);
    GetIsSlot(c.peers, p);
  }

  /** After the sweep the peer can be lowered itself; its cached counts have followed. */
  lemma SweptPeer(c: Core, d: Core, p: nat, t: State, gcPfxs: Both<bool>, gcPeers: bool)
    requires Inv(c) && p < |c.peers| && c.peers[p].Used? && !c.peers[p].val.state.Invalid?
    requires Sweeping(c, d, c.peers[p].key, t, Span(d), 0)
    ensures |d.peers| == |c.peers| && d.peers[p].Used? && d.peers[p].key == c.peers[p].key
    ensures d.peers[p].val.state == c.peers[p].val.state && Has(d.peerCnt, d.peers[p].val.state)
    ensures Inv(d)
    ensures forall v: Ver, i :: 0 <= i < |d.pfxs.At(v)| ==> SeenSt(d.pfxs.At(v)[i], c.peers[p].key).Rank() <= t.Rank()
    ensures forall pfx: Pfx, h: PeerId :: CellAt(d, pfx, h) ==
              if h == c.peers[p].key then SweptTo(CellAt(c, pfx, h), t) else CellAt(c, pfx, h)
    ensures forall h: PeerId :: PeerSt(d.peers, h) == PeerSt(c.peers, h)
    ensures t.Invalid? ==> d.peers[p].val.cnt == Both(ZERO, ZERO)
    ensures SameKeys(c.peers, d.peers)
  {
    hide Inv, Get, CellAt, ClearBefore;
    forall q | 0 <= q < |c.peers| ensures SamePeer(c.peers[q], d.peers[q]) {}
    SweepDone(c, d, c.peers[p].key, t);
    assert SamePeer(c.peers[p], d.peers[p]);
    PeerTallied(d, p);
    UniquePeers(c);
    SamePeers(c.peers, d.peers);
    if t.Invalid? { EmptyPeer(d, p); }
  }

  lemma EmptyPeer(c: Core, p: nat)
    requires Inv(c) && p < |c.peers| && c.peers[p].Used?
    requires forall v: Ver, i :: 0 <= i < |c.pfxs.At(v)| ==> SeenSt(c.pfxs.At(v)[i], c.peers[p].key).Rank() == 0
    ensures c.peers[p].val.cnt == Both(ZERO, ZERO)
  {
    hide Get, RowOk, SeenSt, KeysOk, RowsOk, PfxsCounted, PeersCounted, CellsBacked;
    forall v: Ver ensures c.peers[p].val.cnt.At(v) == ZERO {
      TallyNone(SeenSts(c.pfxs.At(v), c.peers[p].key));
    }
    assert c.peers[p].val.cnt.At(V4) == ZERO && c.peers[p].val.cnt.At(V6) == ZERO;
  }

  lemma LowerPeer(c: Core, d: Core, p: nat, st: State, gcPfxs: Both<bool>, gcPeers: bool, gcPeers': bool)
    requires Inv(c) && p < |c.peers| && c.peers[p].Used? && Flagged(c, gcPfxs, gcPeers) && (gcPeers ==> gcPeers')
    requires forall v: Ver, i :: 0 <= i < |c.pfxs.At(v)| ==> SeenSt(c.pfxs.At(v)[i], c.peers[p].key).Rank() <= st.Rank()
    requires d == c.(peers := c.peers[p := Used(c.peers[p].key, c.peers[p].val.(state := st))], peerCnt := d.peerCnt)
    requires d.peerCnt.Add(c.peers[p].val.state) == c.peerCnt.Add(st) && (st.Invalid? ==> gcPeers')
    ensures Inv(d) && Flagged(d, gcPfxs, gcPeers')
    ensures forall pfx: Pfx, k: PeerId :: CellAt(d, pfx, k) == CellAt(c, pfx, k)
    ensures forall k: PeerId :: PeerSt(d.peers, k) == if k == c.peers[p].key then st else PeerSt(c.peers, k)
  {
    hide Inv, Get, CellAt;
    SetPeer(c, d, p, st);
  }
}
