/** Copying the active part of one view into another, cell by cell in walking order. */
module Copying {
  import opened Net
  import opened Khash
  import opened ViewState
  import opened RowSwap
  import opened Cascade
  import opened CellOps
  import opened Walk
  import opened Sweep
  import opened Census
  import opened Inserts

  /** What a copy keeps of a cell. */
  function Projected(x: Cell): Cell { if x.state.Active? then x else NO_CELL }

  /** `d` shows exactly the active cells of `c` that come before position `at, j`. */
  ghost predicate CopiedTo(c: Core, d: Core, at: nat, j: nat) {
    forall pfx: Pfx, k: PeerId :: CellAt(d, pfx, k) ==
      if Before(PfxPos(c, pfx), CellPos(c, pfx, k), at, j) then Projected(CellAt(c, pfx, k)) else NO_CELL
  }

  /** The peers of the copy: the active ones of the source. */
  ghost predicate PeersCopied(c: Core, d: Core) {
    forall k: PeerId :: PeerSt(d.peers, k) == if PeerSt(c.peers, k).Active? then Active else Invalid
  }

  lemma ActiveIsMatch(c: Core, pfx: Pfx, k: PeerId)
    requires Inv(c) && CellAt(c, pfx, k).state.Active?
    ensures MatchKey(c, (pfx, k), ACTIVE) && PeerSt(c.peers, k).Active?
  {
    hide Inv, Get;
    var v, i := pfx.Ver(), Get(c.pfxs.At(pfx.Ver()), pfx);
    RowMissed(c, v, i, Inactive);
    InvLoose(c, v, i);
    var cells := Row(c, v, i).cells;
    var j := Get(cells, k);
    assert Above(Inactive).Hits(CellSt(cells[j]));
    assert cells[j].val.state.Rank() <= PeerSt(c.peers, cells[j].key).Rank();
  }

  /** The cell that the walk stands on, as a reader sees it. */
  lemma StandsOn(c: Core, it: Iter)
    requires Inv(c) && AtCell(c, it) && CellSt(Row(c, it.ver, it.pfx).cells[it.cell]).Active?
    ensures CellAt(c, PfxKey(c, it.ver, it.pfx), CellKey(c, it)) == Row(c, it.ver, it.pfx).cells[it.cell].val
    ensures Match(c, Where(c, it), it.cell, ACTIVE) && PeerSt(c.peers, CellKey(c, it)).Active?
  {
    hide Inv, Get;
    RowKeys(c, it.ver, it.pfx);
    GetIsSlot(Row(c, it.ver, it.pfx).cells, it.cell);
    RowIsView(c, it.ver, it.pfx);
    ActiveIsMatch(c, PfxKey(c, it.ver, it.pfx), CellKey(c, it));
    RowMissed(c, it.ver, it.pfx, Inactive);
    assert SlotAt(c, Where(c, it)) == c.pfxs.At(it.ver)[it.pfx];
  }

  lemma CopyCell(c: Core, d: Core, e: Core, it: Iter)
    requires Inv(c) && AtCell(c, it) && CellSt(Row(c, it.ver, it.pfx).cells[it.cell]).Active?
    requires CopiedTo(c, d, Where(c, it), it.cell)
    requires CellPut(d, e, PfxKey(c, it.ver, it.pfx), CellKey(c, it),
             Cell(Active, Row(c, it.ver, it.pfx).cells[it.cell].val.path))
    ensures CopiedTo(c, e, Where(c, it), it.cell + 1)
  {
    hide Inv, Get, CellAt, MatchKey, PfxPos, CellPos;
    var q0 := (PfxKey(c, it.ver, it.pfx), CellKey(c, it));
    StandsOn(c, it);
    PosHasKey(c, it, ACTIVE);
    forall pfx: Pfx, k: PeerId | (pfx, k) != q0
      ensures PfxPos(c, pfx) == Where(c, it) && CellPos(c, pfx, k) == it.cell ==> !CellAt(c, pfx, k).state.Active?
    {
      if CellAt(c, pfx, k).state.Active? {
        ActiveIsMatch(c, pfx, k);
        if PfxPos(c, pfx) == Where(c, it) && CellPos(c, pfx, k) == it.cell { SamePos(c, (pfx, k), q0, ACTIVE); }
      }
    }
  }

  /** No active cell lies between the two positions. */
  ghost predicate NoMatchBetween(c: Core, at: nat, j: nat, at': nat, j': nat) {
    forall a: nat, b: nat :: Match(c, a, b, ACTIVE) ==> (Before(a, b, at, j) <==> Before(a, b, at', j'))
  }

  lemma CopySkip(c: Core, d: Core, at: nat, j: nat, at': nat, j': nat)
    requires Inv(c) && CopiedTo(c, d, at, j) && NoMatchBetween(c, at, j, at', j')
    ensures CopiedTo(c, d, at', j')
  {
    hide Inv, CellAt, MatchKey, PfxPos, CellPos;
    forall pfx: Pfx, k: PeerId | CellAt(c, pfx, k).state.Active?
      ensures Match(c, PfxPos(c, pfx), CellPos(c, pfx, k), ACTIVE)
    {
      ActiveIsMatch(c, pfx, k);
      KeyHasPos(c, (pfx, k), ACTIVE);
    }
  }

  /** Moving on inside a row, and from a row to the next active prefix. */
  lemma CopyScan(c: Core, d: Core, it: Iter, from: nat)
    requires Inv(c) && Scanned(c, it, from, ACTIVE) && CopiedTo(c, d, Where(c, it), from)
    ensures CopiedTo(c, d, Where(c, it), it.cell)
    ensures !it.cellValid ==> CopiedTo(c, d, Where(c, it) + 1, 0)
  {
    hide Inv, Get, CopiedTo;
    assert SlotAt(c, Where(c, it)) == c.pfxs.At(it.ver)[it.pfx];
    CopySkip(c, d, Where(c, it), from, Where(c, it), it.cell);
    if !it.cellValid { CopySkip(c, d, Where(c, it), from, Where(c, it) + 1, 0); }
  }

  lemma CopyNext(c: Core, d: Core, from: nat, r: Iter)
    requires Inv(c) && PfxMoved(c, from, None, ACTIVE, r) && CopiedTo(c, d, from, 0)
    ensures CopiedTo(c, d, Where(c, r), 0)
  {
    hide Inv, CopiedTo;
    CopySkip(c, d, from, 0, Where(c, r), 0);
  }

  lemma CopyStart(c: Core, d: Core)
    requires forall pfx: Pfx, k: PeerId :: CellAt(d, pfx, k) == NO_CELL
    ensures CopiedTo(c, d, 0, 0)
  {
    hide CellAt, PfxPos, CellPos;
  }

  lemma CopyDone(c: Core, d: Core)
    requires Inv(c) && CopiedTo(c, d, Span(c), 0)
    ensures forall pfx: Pfx, k: PeerId :: CellAt(d, pfx, k) == Projected(CellAt(c, pfx, k))
  {
    hide Inv, CellAt, MatchKey, PfxPos, CellPos;
    forall pfx: Pfx, k: PeerId ensures CellAt(d, pfx, k) == Projected(CellAt(c, pfx, k)) {
      if CellAt(c, pfx, k).state.Active? {
        ActiveIsMatch(c, pfx, k);
        KeyHasPos(c, (pfx, k), ACTIVE);
      }
    }
  }

  // ---------------------------------------------------------------- equal active counts

  /** `d` shows exactly the active part of `c`. */
  ghost predicate IsCopy(c: Core, d: Core) {
    && PeersCopied(c, d)
    && forall pfx: Pfx, k: PeerId :: CellAt(d, pfx, k) == Projected(CellAt(c, pfx, k))
  }

  /** The active prefixes of one family. */
  ghost function ActivePfxs(c: Core, v: Ver): set<Pfx> { KeysIn(c.pfxs.At(v), PfxSts(c.pfxs.At(v)), Active) }

  lemma ActivePfxsAt(c: Core, v: Ver, pfx: Pfx)
    requires Inv(c)
    ensures pfx in ActivePfxs(c, v) <==> pfx.Ver() == v && exists k: PeerId :: CellAt(c, pfx, k).state.Active?
  {
    hide Inv, Get, CellAt;
    var tab := c.pfxs.At(v);
    KeysInAt(tab, PfxSts(tab), Active, pfx);
    if pfx in ActivePfxs(c, v) {
      var i :| KeyAt(tab, PfxSts(tab), Active, pfx, i);
      RowKeys(c, v, i);
      ActiveHasCell(c, v, i);
    }
    if pfx.Ver() == v {
      if k: PeerId :| CellAt(c, pfx, k).state.Active? {
        ActiveIsMatch(c, pfx, k);
        assert KeyAt(tab, PfxSts(tab), Active, pfx, Get(tab, pfx));
      }
    }
  }

  lemma ActiveHasCell(c: Core, v: Ver, i: nat)
    requires Inv(c) && HasRow(c, v, i) && Row(c, v, i).state.Active?
    ensures exists k: PeerId :: CellAt(c, PfxKey(c, v, i), k).state.Active?
  {
    hide Inv, Get, CellAt;
    var at := Lin(c, v, i);
    assert SlotAt(c, at) == c.pfxs.At(v)[i];
    MatchingCell(c, at, ACTIVE);
    var j :| 0 <= j < |RowAt(c, at)| && ACTIVE.Hits(CellSt(RowAt(c, at)[j]));
    RowKeys(c, v, i);
    GetIsSlot(Row(c, v, i).cells, j);
    RowIsView(c, v, i);
    assert CellAt(c, PfxKey(c, v, i), RowAt(c, at)[j].key).state.Active?;
  }

  /** In a settled view a prefix is active exactly when it has an active cell, a valid prefix has
      a valid cell, and no cell is livelier than its peer. */
  lemma StatesFollow(c: Core, v: Ver, i: nat)
    requires Inv(c) && HasRow(c, v, i)
    ensures var pfx := PfxKey(c, v, i);
      && (Row(c, v, i).state.Active? <==> exists k: PeerId :: CellAt(c, pfx, k).state.Active?)
      && (!Row(c, v, i).state.Invalid? <==> exists k: PeerId :: !CellAt(c, pfx, k).state.Invalid?)
      && (forall k: PeerId :: CellAt(c, pfx, k).state.Rank() <= PeerSt(c.peers, k).Rank())
  {
    hide Inv, Get, CellAt;
    var pfx := PfxKey(c, v, i);
    RowIsView(c, v, i);
    RowKeys(c, v, i);
    InvLoose(c, v, i);
    if Row(c, v, i).state.Active? { ActiveHasCell(c, v, i); }
    if !Row(c, v, i).state.Invalid? { ValidHasCell(c, v, i); }
    forall k: PeerId
      ensures CellAt(c, pfx, k).state.Rank() <= PeerSt(c.peers, k).Rank()
      ensures CellAt(c, pfx, k).state.Rank() <= Row(c, v, i).state.Rank()
    {
      CellBounded(Row(c, v, i), c.peers, k);
    }
  }

  lemma CellBounded(info: PfxInfo, peers: PeerTab, k: PeerId)
    requires ViewState.RowOk(info) && RowBacked(info.cells, peers)
    ensures RowCell(info.cells, k).state.Rank() <= PeerSt(peers, k).Rank()
    ensures RowCell(info.cells, k).state.Rank() <= info.state.Rank()
  {
    hide Get, Tally;
    var j := Get(info.cells, k);
    if j < |info.cells| { CountedCell(info.cells, j); }
  }

  lemma ValidHasCell(c: Core, v: Ver, i: nat)
    requires Inv(c) && HasRow(c, v, i) && !Row(c, v, i).state.Invalid?
    ensures exists k: PeerId :: !CellAt(c, PfxKey(c, v, i), k).state.Invalid?
  {
    hide Inv, Get, CellAt;
    var at := Lin(c, v, i);
    assert SlotAt(c, at) == c.pfxs.At(v)[i];
    MatchingCell(c, at, ALL_VALID);
    var j :| 0 <= j < |RowAt(c, at)| && ALL_VALID.Hits(CellSt(RowAt(c, at)[j]));
    RowKeys(c, v, i);
    GetIsSlot(Row(c, v, i).cells, j);
    RowIsView(c, v, i);
    assert !CellAt(c, PfxKey(c, v, i), RowAt(c, at)[j].key).state.Invalid?;
  }

  /** The slots of one peer, whose numbers may differ. */
  ghost predicate OnePeer(c: Core, d: Core, p: nat, q: nat) {
    && p < |c.peers| && c.peers[p].Used? && q < |d.peers| && d.peers[q].Used? && c.peers[p].key == d.peers[q].key
  }

  ghost predicate SameActs(c: Core, d: Core) {
    forall p: nat, q: nat, v: Ver :: OnePeer(c, d, p, q) ==>
      d.peers[q].val.cnt.At(v).act == c.peers[p].val.cnt.At(v).act
  }

  /** A copy caches the same active counts as the view it was made from. */
  lemma CopyCounts(c: Core, d: Core)
    requires Inv(c) && Inv(d) && IsCopy(c, d)
    ensures d.peerCnt.act == c.peerCnt.act
    ensures forall v: Ver :: d.pfxCnt.At(v).act == c.pfxCnt.At(v).act
    ensures SameActs(c, d)
  {
    hide Inv, CellAt, ActivePfxs;
    PeerTotals(c, d);
    forall v: Ver ensures d.pfxCnt.At(v).act == c.pfxCnt.At(v).act {
      forall pfx ensures pfx in ActivePfxs(c, v) <==> pfx in ActivePfxs(d, v) {
        ActivePfxsAt(c, v, pfx);
        ActivePfxsAt(d, v, pfx);
      }
      assert ActivePfxs(c, v) == ActivePfxs(d, v);
      PfxTotal(c, v);
      PfxTotal(d, v);
    }
    forall p: nat, q: nat, v: Ver | OnePeer(c, d, p, q)
      ensures c.peers[p].val.cnt.At(v).act == d.peers[q].val.cnt.At(v).act
    {
      SameActiveCnt(c, d, p, q, v);
    }
  }

  lemma PfxTotal(c: Core, v: Ver)
    requires Inv(c)
    ensures c.pfxCnt.At(v).act == |ActivePfxs(c, v)|
  {
    hide Tally, Get, RowOk, PeersCounted, SeenCounted, CellsBacked, RowsOk;
    TallyIsCard(c.pfxs.At(v), PfxSts(c.pfxs.At(v)));
  }

  lemma PeerTotals(c: Core, d: Core)
    requires Inv(c) && Inv(d) && PeersCopied(c, d)
    ensures d.peerCnt.act == c.peerCnt.act
  {
    hide Tally, Get, RowOk, PfxsCounted, SeenCounted, CellsBacked, RowsOk;
    TallyIsCard(c.peers, PeerSts(c.peers));
    TallyIsCard(d.peers, PeerSts(d.peers));
    forall k: PeerId
      ensures k in KeysIn(c.peers, PeerSts(c.peers), Active) <==> k in KeysIn(d.peers, PeerSts(d.peers), Active)
    {
      ActivePeersAt(c.peers, k);
      ActivePeersAt(d.peers, k);
    }
    assert KeysIn(c.peers, PeerSts(c.peers), Active) == KeysIn(d.peers, PeerSts(d.peers), Active);
  }

  lemma ActivePeersAt(peers: PeerTab, k: PeerId)
    requires Unique(peers)
    ensures k in KeysIn(peers, PeerSts(peers), Active) <==> PeerSt(peers, k).Active?
  {
    hide Get;
    KeysInAt(peers, PeerSts(peers), Active, k);
    if k in KeysIn(peers, PeerSts(peers), Active) {
      var p :| KeyAt(peers, PeerSts(peers), Active, k, p);
      GetIsSlot(peers, p);
    }
    if PeerSt(peers, k).Active? { assert KeyAt(peers, PeerSts(peers), Active, k, Get(peers, k)); }
  }

  lemma PutThenActivate(c: Core, d: Core, e: Core, pfx: Pfx, k: PeerId, path: PathId)
    requires CellPut(c, d, pfx, k, Cell(if CellAt(c, pfx, k).state.Active? then Active else Inactive, path))
    requires CellPut(d, e, pfx, k, Cell(Active, CellAt(d, pfx, k).path))
    ensures CellPut(c, e, pfx, k, Cell(Active, path))
  {
    hide CellAt, PeerSt;
  }

  /** The iterator stands on a valid prefix. */
  ghost predicate OnPfx(c: Core, it: Iter, pfx: Pfx) {
    HasRow(c, it.ver, it.pfx) && PfxKey(c, it.ver, it.pfx) == pfx && !Row(c, it.ver, it.pfx).state.Invalid?
  }

  lemma ValidRow(c: Core, it: Iter)
    requires Inv(c) && AtCell(c, it)
    ensures !Row(c, it.ver, it.pfx).state.Invalid?
  {
    hide Inv;
    RowMissed(c, it.ver, it.pfx, Invalid);
  }

  ghost predicate PeersCopiedTo(src: PeerTab, dst: PeerTab, n: nat) {
    forall k: PeerId :: PeerSt(dst, k) == if PeerSt(src, k).Active? && Get(src, k) < n then Active else Invalid
  }

  lemma CopyPeer(c: Core, was: PeerTab, now: PeerTab, p: nat)
    requires Inv(c) && p < |c.peers| && PeerSlotSt(c.peers[p]).Active? && PeersCopiedTo(c.peers, was, p)
    requires forall h: PeerId :: PeerSt(now, h) == if h == c.peers[p].key then Active else PeerSt(was, h)
    ensures PeersCopiedTo(c.peers, now, p + 1)
  {
    hide Inv, Get;
    UniquePeers(c);
    GetIsSlot(c.peers, p);
  }

  lemma SkipPeers(c: Core, dst: PeerTab, n: nat, m: nat)
    requires n <= m <= |c.peers| && PeersCopiedTo(c.peers, dst, n)
    requires forall p :: n <= p < m ==> !PeerSlotSt(c.peers[p]).Active?
    ensures PeersCopiedTo(c.peers, dst, m)
  {
    hide Get;
  }

  lemma EmptyView(c: Core)
    requires SameView(c, FRESH)
    ensures forall pfx: Pfx, k: PeerId :: CellAt(c, pfx, k) == NO_CELL
    ensures forall k: PeerId :: PeerSt(c.peers, k).Invalid?
  {
    forall pfx: Pfx, k: PeerId ensures CellAt(c, pfx, k) == NO_CELL {
      assert CellAt(c, pfx, k) == CellAt(FRESH, pfx, k);
    }
    forall k: PeerId ensures PeerSt(c.peers, k).Invalid? {
      assert PeerSt(c.peers, k) == PeerSt(FRESH.peers, k);
    }
  }

  // ---------------------------------------------------------------- peers without active cells

  ghost predicate Busy(c: Core, k: PeerId) { exists pfx: Pfx :: CellAt(c, pfx, k).state.Active? }

  /** A peer caches an active cell exactly when it shows one. */
  lemma PeerCntMeans(c: Core, p: nat)
    requires Inv(c) && p < |c.peers| && c.peers[p].Used?
    ensures c.peers[p].val.cnt.v4.act + c.peers[p].val.cnt.v6.act > 0 <==> Busy(c, c.peers[p].key)
  {
    hide Inv, CellAt, PfxsSeen;
    var k := c.peers[p].key;
    forall v: Ver
      ensures c.peers[p].val.cnt.At(v).act > 0 <==> exists pfx: Pfx :: pfx.Ver() == v && CellAt(c, pfx, k).state.Active?
    {
      PeerCntIsCard(c, p, v);
      var s := PfxsSeen(c, v, k, Active);
      if |s| > 0 {
        var pfx :| pfx in s;
        PfxsSeenAt(c, v, k, Active, pfx);
      }
      if pfx: Pfx :| pfx.Ver() == v && CellAt(c, pfx, k).state.Active? {
        PfxsSeenAt(c, v, k, Active, pfx);
        assert pfx in s;
      }
    }
    assert c.peers[p].val.cnt.At(V4) == c.peers[p].val.cnt.v4 && c.peers[p].val.cnt.At(V6) == c.peers[p].val.cnt.v6;
  }

  /** Among the first `n` slots only busy peers are still active; peers change in no other way. */
  ghost predicate BusyTo(c: Core, peers: PeerTab, n: nat) {
    && (forall k: PeerId :: PeerSt(peers, k).Active? ==> PeerSt(c.peers, k).Active?)
    && (forall k: PeerId :: PeerSt(c.peers, k).Active? && Busy(c, k) ==> PeerSt(peers, k).Active?)
    && (forall k: PeerId :: PeerSt(peers, k).Active? && Get(peers, k) < n ==> Busy(c, k))
  }

  lemma BusyStart(c: Core, n: nat)
    requires n <= |c.peers| && forall p :: 0 <= p < n ==> !PeerSlotSt(c.peers[p]).Active?
    ensures BusyTo(c, c.peers, n)
  {
    hide Get;
  }

  lemma SameKeysGet(t: PeerTab, t': PeerTab, k: PeerId)
    requires Unique(t) && SameKeys(t, t')
    ensures Get(t', k) == Get(t, k)
  {
    var g, g' := Get(t, k), Get(t', k);
    if g' < |t'| { GetIsSlot(t, g'); }
    assert g < |t| ==> t'[g].Used? && t'[g].key == k;
  }

  lemma IdleDropped(c: Core, d: Core, e: Core, p: nat)
    requires Inv(d) && p < |d.peers| && d.peers[p].Used? && BusyTo(c, d.peers, p) && SameKeys(d.peers, e.peers)
    requires !Busy(d, d.peers[p].key) && (forall pfx: Pfx, k: PeerId :: CellAt(d, pfx, k) == CellAt(c, pfx, k))
    requires forall h: PeerId :: PeerSt(e.peers, h) == if h == d.peers[p].key then Inactive else PeerSt(d.peers, h)
    ensures BusyTo(c, e.peers, p + 1)
  {
    hide Inv, Get, CellAt;
    UniquePeers(d);
    forall k: PeerId ensures Busy(c, k) <==> Busy(d, k) {}
    forall k: PeerId | PeerSt(e.peers, k).Active? && Get(e.peers, k) < p + 1 ensures Busy(c, k) {
      SameKeysGet(d.peers, e.peers, k);
    }
  }

  lemma BusyKept(c: Core, d: Core, p: nat)
    requires Inv(d) && p < |d.peers| && d.peers[p].Used? && BusyTo(c, d.peers, p) && Busy(d, d.peers[p].key)
    requires forall pfx: Pfx, k: PeerId :: CellAt(d, pfx, k) == CellAt(c, pfx, k)
    ensures BusyTo(c, d.peers, p + 1)
  {
    hide Inv, Get, CellAt;
    assert Busy(c, d.peers[p].key);
  }

  lemma BusySkip(c: Core, d: Core, n: nat, m: nat)
    requires n <= m <= |d.peers| && BusyTo(c, d.peers, n) && forall p :: n <= p < m ==> !PeerSlotSt(d.peers[p]).Active?
    ensures BusyTo(c, d.peers, m)
  {
    hide Get;
  }

  /** An active cell makes its peer active, so at the end the two coincide. */
  lemma BusyDone(c: Core, d: Core)
    requires Inv(c) && BusyTo(c, d.peers, |d.peers|)
    ensures forall k: PeerId :: PeerSt(d.peers, k).Active? <==> Busy(c, k)
  {
    hide Get, Inv, CellAt;
    forall k: PeerId | Busy(c, k) ensures PeerSt(c.peers, k).Active? {
      var pfx: Pfx :| CellAt(c, pfx, k).state.Active?;
      ActiveIsMatch(c, pfx, k);
    }
  }
}
