/** Adding peers, prefixes and cells: the slots that lookups miss, and the slots that an
    earlier removal left behind, end up in the same view. */
module Inserts {
  import opened Net
  import opened Khash
  import opened ViewState
  import opened RowSwap
  import opened Cascade
  import opened CellOps

  // ---------------------------------------------------------------- rows

  /** The row after activating one cell: the prefix follows its first active cell. */
  function ActivatedOne(info: PfxInfo, j: nat): PfxInfo
    requires j < |info.cells|
  {
    if !CellSt(info.cells[j]).Inactive? || info.cnt.ina == 0 then info else
    var cnt := info.cnt.Activate();
    PfxInfo(if cnt.act == 1 && info.state.Inactive? then Active else info.state,
            info.cells[j := Used(info.cells[j].key, Cell(Active, info.cells[j].val.path))], cnt)
  }

  /** The prefix that is about to receive a cell is at least inactive. */
  function Opened(info: PfxInfo): PfxInfo {
    if info.state.Invalid? then info.(state := Inactive) else info
  }

  /** Where the cell of peer `k` will sit. */
  function CellSlot(cells: Cells, k: PeerId): nat {
    var j := Get(cells, k); if j < |cells| then j else FreeFrom(cells, 0)
  }

  function PutCell(cells: Cells, k: PeerId, x: Cell): (r: Cells)
    ensures CellSlot(cells, k) < |r| && r[CellSlot(cells, k)] == Used(k, x)
  {
    var j := Get(cells, k);
    if j < |cells| then cells[j := Used(k, x)] else Room(cells)[FreeFrom(cells, 0) := Used(k, x)]
  }

  /** The row after a cell is inserted or its path replaced. */
  function Inserted(info: PfxInfo, k: PeerId, path: PathId): PfxInfo {
    var st := KeySt(info.cells, k);
    if st.Invalid? then info.(cells := PutCell(info.cells, k, Cell(Inactive, path)),
      cnt := Cnt(info.cnt.act, info.cnt.ina + 1))
    else info.(cells := PutCell(info.cells, k, Cell(st, path)))
  }

  lemma RoomTally(cells: Cells)
    ensures Tally(RowSts(Room(cells))) == Tally(RowSts(cells))
  {
    if FreeFrom(cells, 0) == |cells| {
      var s, s' := RowSts(cells), RowSts(Room(cells));
      assert s' == s + [Invalid];
      assert s'[..|s|] == s;
    }
  }

  /** Putting a cell changes that peer's cell and no other, whether or not it had a slot. */
  lemma PutCellFacts(cells: Cells, k: PeerId, x: Cell)
    requires Unique(cells)
    ensures Unique(PutCell(cells, k, x))
    ensures Tally(RowSts(PutCell(cells, k, x))).Add(KeySt(cells, k)) == Tally(RowSts(cells)).Add(x.state)
    ensures KeySt(PutCell(cells, k, x), k) == x.state
    ensures forall h :: h != k ==> KeySt(PutCell(cells, k, x), h) == KeySt(cells, h)
    ensures forall h :: RowCell(PutCell(cells, k, x), h) == if h == k then Shown(x) else RowCell(cells, h)
  {
    hide Tally, RowSts;
    var j := Get(cells, k);
    if j < |cells| {
      SetCellFacts(cells, j, x);
      RowCellSet(cells, j, x);
    } else {
      var f := FreeFrom(cells, 0);
      var s := RowSts(Room(cells));
      RoomTally(cells);
      assert s[f].Invalid?;
      assert RowSts(PutCell(cells, k, x)) == s[f := x.state];
      TallyUpdate(s, f, x.state);
      PutFacts(cells, k, x);
      forall h | h != k
        ensures KeySt(PutCell(cells, k, x), h) == KeySt(cells, h)
        ensures RowCell(PutCell(cells, k, x), h) == RowCell(cells, h)
      {
        PutOthers(cells, k, x, h);
      }
    }
  }

  lemma RowInserted(info: PfxInfo, k: PeerId, path: PathId, peers: PeerTab)
    requires RowOk(info) && RowBacked(info.cells, peers) && !PeerSt(peers, k).Invalid?
    ensures var info' := Inserted(Opened(info), k, path);
            && RowOk(info') && RowBacked(info'.cells, peers)
            && forall h :: RowCell(info'.cells, h) ==
                 if h == k then Cell(if KeySt(info.cells, k).Active? then Active else Inactive, path)
                   else RowCell(info.cells, h)
  {
    hide Tally, RowSts;
    var st := KeySt(info.cells, k);
    PutCellFacts(info.cells, k, Cell(if st.Invalid? then Inactive else st, path));
    KeyCounted(info.cells, k);
    var j := Get(info.cells, k);
    assert j < |info.cells| ==> info.cells[j].val.state.Rank() <= PeerSt(peers, k).Rank();
  }

  lemma KeyCounted(cells: Cells, k: PeerId)
    ensures Has(Tally(RowSts(cells)), KeySt(cells, k))
  {
    var j := Get(cells, k);
    if j < |cells| { CountedCell(cells, j); }
  }

  lemma RowActivated(info: PfxInfo, j: nat, peers: PeerTab)
    requires RowOk(info) && RowBacked(info.cells, peers) && j < |info.cells| && !CellSt(info.cells[j]).Invalid?
    requires PeerSt(peers, info.cells[j].key).Active?
    ensures RowOk(ActivatedOne(info, j)) && RowBacked(ActivatedOne(info, j).cells, peers)
    ensures forall k :: RowCell(ActivatedOne(info, j).cells, k) ==
              if k == info.cells[j].key then Cell(Active, info.cells[j].val.path) else RowCell(info.cells, k)
  {
    hide Tally, RowSts;
    CountedCell(info.cells, j);
    SetCellFacts(info.cells, j, Cell(Active, info.cells[j].val.path));
    RowCellSet(info.cells, j, Cell(Active, info.cells[j].val.path));
  }

  // ---------------------------------------------------------------- new slots

  ghost function GrownPfx(c: Core, pfx: Pfx): Core {
    var tab := c.pfxs.At(pfx.Ver());
    c.(pfxs := c.pfxs.With(pfx.Ver(), Room(tab)[FreeFrom(tab, 0) := Used(pfx, NO_PFX)]))
  }

  ghost function GrownPeer(c: Core, k: PeerId): Core {
    c.(peers := Room(c.peers)[FreeFrom(c.peers, 0) := Used(k, NO_PEER)])
  }

  /** A derived sequence that at most gains an invalid entry keeps its tally. */
  lemma TallyGrows(s: seq<State>, s': seq<State>)
    requires s' == s || s' == s + [Invalid]
    ensures Tally(s') == Tally(s)
  {
    if s' != s { assert s'[..|s|] == s; }
  }

  lemma NoPfxOk()
    ensures RowOk(NO_PFX)
  {
  }

  /** What a table looks like after a new key took a free or a new slot. */
  ghost predicate Grown<K(!new), V>(t: seq<Slot<K, V>>, t': seq<Slot<K, V>>, k: K, x: V) {
    var i := FreeFrom(t, 0);
    && Unique(t') && i < |t'| && t'[i] == Used(k, x)
    && (|t'| == |t| || (|t'| == |t| + 1 && i == |t|))
    && (i < |t| ==> t[i].Free?)
    && (forall h :: 0 <= h < |t| && h != i ==> t'[h] == t[h])
    && (forall q ::
          if q == k then Get(t', q) == i
          else if Get(t, q) == |t| then Get(t', q) == |t'|
          else Get(t', q) == Get(t, q))
  }

  lemma Grows<K(!new), V>(t: seq<Slot<K, V>>, k: K, x: V)
    requires Unique(t) && Get(t, k) == |t|
    ensures Grown(t, Room(t)[FreeFrom(t, 0) := Used(k, x)], k, x)
  {
    PutFacts(t, k, x);
    forall q | q != k
      ensures var t' := Room(t)[FreeFrom(t, 0) := Used(k, x)];
              if Get(t, q) == |t| then Get(t', q) == |t'| else Get(t', q) == Get(t, q)
    {
      PutOthers(t, k, x, q);
    }
  }

  ghost predicate Absent(c: Core, pfx: Pfx) {
    Get(c.pfxs.At(pfx.Ver()), pfx) == |c.pfxs.At(pfx.Ver())|
  }

  lemma GrowPfxCounts(c: Core, d: Core, pfx: Pfx)
    requires PfxsCounted(c) && SeenCounted(c) && d == GrownPfx(c, pfx)
    requires Grown(c.pfxs.At(pfx.Ver()), d.pfxs.At(pfx.Ver()), pfx, NO_PFX)
    ensures PfxsCounted(d) && SeenCounted(d)
  {
    hide Tally, PfxSts, SeenSts, FreeFrom;
    var v := pfx.Ver();
    var tab, tab' := c.pfxs.At(v), d.pfxs.At(v);
    assert PfxSts(tab') == PfxSts(tab) || PfxSts(tab') == PfxSts(tab) + [Invalid];
    TallyGrows(PfxSts(tab), PfxSts(tab'));
    forall k: PeerId ensures Tally(SeenSts(tab', k)) == Tally(SeenSts(tab, k)) {
      assert SeenSts(tab', k) == SeenSts(tab, k) || SeenSts(tab', k) == SeenSts(tab, k) + [Invalid];
      TallyGrows(SeenSts(tab, k), SeenSts(tab', k));
    }
    forall w: Ver ensures w == v || d.pfxs.At(w) == c.pfxs.At(w) {
    }
  }

  lemma GrowPfxRows(c: Core, d: Core, pfx: Pfx)
    requires KeysOk(c) && RowsOk(c) && CellsBacked(c) && d == GrownPfx(c, pfx)
    requires Grown(c.pfxs.At(pfx.Ver()), d.pfxs.At(pfx.Ver()), pfx, NO_PFX)
    ensures KeysOk(d) && RowsOk(d) && CellsBacked(d)
  {
    hide RowOk, RowBacked, FreeFrom, Get;
    NoPfxOk();
    assert RowBacked(NO_PFX.cells, d.peers) by { NoCellsBacked(d.peers); }
    forall w: Ver, h | 0 <= h < |d.pfxs.At(w)| && d.pfxs.At(w)[h].Used?
      ensures d.pfxs.At(w)[h].val == NO_PFX || (h < |c.pfxs.At(w)| && d.pfxs.At(w)[h] == c.pfxs.At(w)[h])
      ensures d.pfxs.At(w)[h].key.Ver() == w
    {
      assert w == pfx.Ver() || d.pfxs.At(w) == c.pfxs.At(w);
    }
  }

  lemma NoCellsBacked(peers: PeerTab)
    ensures RowBacked([], peers)
  {
  }

  /** A prefix slot without cells is invisible. */
  lemma GrowPfx(c: Core, pfx: Pfx)
    requires Inv(c) && Absent(c, pfx)
    ensures Inv(GrownPfx(c, pfx)) && SameView(c, GrownPfx(c, pfx))
    ensures Grown(c.pfxs.At(pfx.Ver()), GrownPfx(c, pfx).pfxs.At(pfx.Ver()), pfx, NO_PFX)
  {
    hide Tally, PfxSts, SeenSts, RowOk, RowBacked;
    var d, v := GrownPfx(c, pfx), pfx.Ver();
    Grows(c.pfxs.At(v), pfx, NO_PFX);
    GrowPfxCounts(c, d, pfx);
    GrowPfxRows(c, d, pfx);
    forall q: Pfx, k: PeerId ensures CellAt(c, q, k) == CellAt(d, q, k) {
      assert q.Ver() == v || d.pfxs.At(q.Ver()) == c.pfxs.At(q.Ver());
    }
  }

  // ---------------------------------------------------------------- peers

  /** A peer that is not valid has no valid cell. */
  lemma UnseenPeer(c: Core, k: PeerId, v: Ver)
    requires Inv(c) && PeerSt(c.peers, k).Invalid?
    ensures Tally(SeenSts(c.pfxs.At(v), k)) == ZERO
    ensures forall i :: 0 <= i < |c.pfxs.At(v)| ==> SeenSt(c.pfxs.At(v)[i], k).Invalid?
  {
    forall i | 0 <= i < |c.pfxs.At(v)| ensures SeenSt(c.pfxs.At(v)[i], k).Invalid? {
      if c.pfxs.At(v)[i].Used? {
        assert RowBacked(c.pfxs.At(v)[i].val.cells, c.peers);
      }
    }
    TallyNone(SeenSts(c.pfxs.At(v), k));
  }

  /** An invalid peer slot is invisible. */
  lemma GrowPeer(c: Core, k: PeerId)
    requires Inv(c) && Get(c.peers, k) == |c.peers|
    ensures Inv(GrownPeer(c, k)) && SameView(c, GrownPeer(c, k))
    ensures Grown(c.peers, GrownPeer(c, k).peers, k, NO_PEER)
  {
    hide Tally, SeenSts, PeerSts, RowOk;
    var d := GrownPeer(c, k);
    Grows(c.peers, k, NO_PEER);
    UnseenPeer(c, k, V4);
    UnseenPeer(c, k, V6);
    assert PeerSts(d.peers) == PeerSts(c.peers) || PeerSts(d.peers) == PeerSts(c.peers) + [Invalid];
    TallyGrows(PeerSts(c.peers), PeerSts(d.peers));
    assert forall h :: PeerSt(d.peers, h) == PeerSt(c.peers, h);
    assert forall w: Ver, i :: 0 <= i < |c.pfxs.At(w)| && c.pfxs.At(w)[i].Used? ==>
        RowBacked(c.pfxs.At(w)[i].val.cells, c.peers) ==> RowBacked(c.pfxs.At(w)[i].val.cells, d.peers);
  }

  /** Moving a peer to a state that none of its cells outranks. */
  lemma SetPeer(c: Core, d: Core, p: nat, st: State)
    requires Inv(c) && p < |c.peers| && c.peers[p].Used?
    requires forall v: Ver, i :: 0 <= i < |c.pfxs.At(v)| ==> SeenSt(c.pfxs.At(v)[i], c.peers[p].key).Rank() <= st.Rank()
    requires d == c.(peers := c.peers[p := Used(c.peers[p].key, c.peers[p].val.(state := st))], peerCnt := d.peerCnt)
    requires d.peerCnt.Add(c.peers[p].val.state) == c.peerCnt.Add(st)
    ensures Inv(d)
    ensures forall pfx: Pfx, k: PeerId :: CellAt(d, pfx, k) == CellAt(c, pfx, k)
    ensures forall k: PeerId :: PeerSt(d.peers, k) == if k == c.peers[p].key then st else PeerSt(c.peers, k)
  {
    hide Tally, SeenSts, PeerSts, RowOk;
    var k := c.peers[p].key;
    SetFacts(c.peers, p, d.peers[p].val);
    GetIsSlot(c.peers, p);
    var s := PeerSts(c.peers);
    assert PeerSts(d.peers) == s[p := st];
    TallyUpdate(s, p, st);
    forall w: Ver, i | 0 <= i < |c.pfxs.At(w)| && c.pfxs.At(w)[i].Used?
      ensures RowBacked(c.pfxs.At(w)[i].val.cells, d.peers)
    {
      var cells := c.pfxs.At(w)[i].val.cells;
      assert RowBacked(cells, c.peers) && SeenSt(c.pfxs.At(w)[i], k) == KeySt(cells, k);
      assert RowOk(c.pfxs.At(w)[i].val);
      BackedAgain(c.pfxs.At(w)[i].val, c.peers, d.peers, k);
    }
  }

  lemma BackedAgain(info: PfxInfo, peers: PeerTab, peers': PeerTab, k: PeerId)
    requires RowOk(info) && RowBacked(info.cells, peers)
    requires KeySt(info.cells, k).Rank() <= PeerSt(peers', k).Rank()
    requires forall h :: h != k ==> PeerSt(peers', h) == PeerSt(peers, h)
    ensures RowBacked(info.cells, peers')
  {
    forall j | 0 <= j < |info.cells| && info.cells[j].Used?
      ensures info.cells[j].val.state.Rank() <= PeerSt(peers', info.cells[j].key).Rank()
    {
      GetIsSlot(info.cells, j);
    }
  }

  // ---------------------------------------------------------------- whole-view effects

  /** Slots left invalid by a removal are flagged for collection. */
  ghost predicate Flagged(c: Core, gcPfxs: Both<bool>, gcPeers: bool) {
    && (forall v: Ver, i :: 0 <= i < |c.pfxs.At(v)| && c.pfxs.At(v)[i].Used? && c.pfxs.At(v)[i].val.state.Invalid? ==>
      gcPfxs.At(v))
    && (forall p :: 0 <= p < |c.peers| && c.peers[p].Used? && c.peers[p].val.state.Invalid? ==> gcPeers)
  }

  lemma SwapFlagged(c: Core, d: Core, v: Ver, i: nat, info: PfxInfo, gcPfxs: Both<bool>, gcPfxs': Both<bool>,
                    gcPeers: bool)
    requires HasRow(c, v, i) && Swapped(c, d, v, i, info) && Flagged(c, gcPfxs, gcPeers)
    requires gcPfxs' == gcPfxs || gcPfxs' == gcPfxs.With(v, true)
    requires info.state.Invalid? ==> Row(c, v, i).state.Invalid? || gcPfxs'.At(v)
    ensures Flagged(d, gcPfxs', gcPeers)
  {
    forall p | 0 <= p < |c.peers| ensures SamePeer(c.peers[p], d.peers[p]) {
      assert PeerShift(c.peers[p], d.peers[p], v, Row(c, v, i).cells, info.cells);
    }
    forall w: Ver, h | 0 <= h < |d.pfxs.At(w)| && d.pfxs.At(w)[h].Used? && d.pfxs.At(w)[h].val.state.Invalid?
      ensures gcPfxs'.At(w)
    {
      if !(w == v && h == i) { assert d.pfxs.At(w)[h] == c.pfxs.At(w)[h]; }
    }
  }

  lemma PeerTallied(c: Core, p: nat)
    requires Inv(c) && p < |c.peers| && c.peers[p].Used?
    ensures Has(c.peerCnt, c.peers[p].val.state)
    ensures forall v: Ver, i :: 0 <= i < |c.pfxs.At(v)| ==>
              SeenSt(c.pfxs.At(v)[i], c.peers[p].key).Rank() <= c.peers[p].val.state.Rank()
  {
    TallyBounds(PeerSts(c.peers));
    assert PeerSts(c.peers)[p] == c.peers[p].val.state;
    GetIsSlot(c.peers, p);
    forall v: Ver, i | 0 <= i < |c.pfxs.At(v)|
      ensures SeenSt(c.pfxs.At(v)[i], c.peers[p].key).Rank() <= c.peers[p].val.state.Rank()
    {
      if c.pfxs.At(v)[i].Used? { assert RowBacked(c.pfxs.At(v)[i].val.cells, c.peers); }
    }
  }

  lemma OpenSwap(c: Core, d: Core, v: Ver, i: nat)
    requires HasRow(c, v, i) && Row(c, v, i).state.Invalid?
    requires d == WithRow(c, v, i, Opened(Row(c, v, i))).(pfxCnt := d.pfxCnt)
    requires d.pfxCnt == c.pfxCnt.With(v, Cnt(c.pfxCnt.At(v).act, c.pfxCnt.At(v).ina + 1))
    ensures Swapped(c, d, v, i, Opened(Row(c, v, i)))
  {
  }

  /** Inserting a cell shows it as inactive, or replaces the path of a cell already there. */
  lemma InsertEffect(c: Core, d: Core, v: Ver, i: nat, k: PeerId, path: PathId)
    requires Inv(c) && HasRow(c, v, i) && !PeerSt(c.peers, k).Invalid?
    requires Swapped(c, d, v, i, Inserted(Opened(Row(c, v, i)), k, path))
    ensures Inv(d)
    ensures var pfx := PfxKey(c, v, i);
            CellPut(c, d, pfx, k, Cell(if CellAt(c, pfx, k).state.Active? then Active else Inactive, path))
  {
    InvLoose(c, v, i);
    var info := Inserted(Opened(Row(c, v, i)), k, path);
    RowInserted(Row(c, v, i), k, path, c.peers);
    SwapKeepsInv(c, d, v, i, info);
    SwapView(c, d, v, i, info);
    RowIsView(c, v, i);
  }

  /** Activating a cell of an active peer shows it as active. */
  lemma ActivateCellEffect(c: Core, d: Core, it: Iter)
    requires Inv(c) && AtCell(c, it) && PeerSt(c.peers, CellKey(c, it)).Active?
    requires Swapped(c, d, it.ver, it.pfx, ActivatedOne(Row(c, it.ver, it.pfx), it.cell))
    ensures Inv(d)
    ensures var pfx, k := PfxKey(c, it.ver, it.pfx), CellKey(c, it);
            CellPut(c, d, pfx, k, Cell(Active, CellAt(c, pfx, k).path))
  {
    InvLoose(c, it.ver, it.pfx);
    var info := Row(c, it.ver, it.pfx);
    RowActivated(info, it.cell, c.peers);
    RowCellSet(info.cells, it.cell, info.cells[it.cell].val);
    SwapKeepsInv(c, d, it.ver, it.pfx, ActivatedOne(info, it.cell));
    SwapView(c, d, it.ver, it.pfx, ActivatedOne(info, it.cell));
    RowIsView(c, it.ver, it.pfx);
  }

  /** The peer table with a slot for `k`, and that slot. */
  ghost function PeerReady(c: Core, k: PeerId): Core {
    if Get(c.peers, k) == |c.peers| then GrownPeer(c, k) else c
  }

  ghost function PfxReady(c: Core, pfx: Pfx): Core {
    if Absent(c, pfx) then GrownPfx(c, pfx) else c
  }

  lemma PeerIsReady(c: Core, k: PeerId)
    requires Inv(c)
    ensures var d := PeerReady(c, k); var p := Get(d.peers, k);
            && Inv(d) && SameView(c, d) && p < |d.peers| && d.pfxs == c.pfxs
            && p == (if Get(c.peers, k) == |c.peers| then FreeFrom(c.peers, 0) else Get(c.peers, k))
            && forall q :: 0 <= q < |d.peers| && q != p ==> q < |c.peers| && d.peers[q] == c.peers[q]
  {
    hide Inv, SameView, FreeFrom;
    if Get(c.peers, k) == |c.peers| { GrowPeer(c, k); } else { SameViewRefl(c); }
  }

  lemma SameViewRefl(c: Core)
    ensures SameView(c, c)
  {
  }

  /** A new peer, or one that had been removed, comes back inactive and without cells. */
  lemma AddPeerEffect(c: Core, e: Core, k: PeerId, gcPfxs: Both<bool>, gcPeers: bool)
    requires Inv(c) && Flagged(c, gcPfxs, gcPeers)
    requires var d := PeerReady(c, k); var p := Get(d.peers, k);
             p < |d.peers| && e == if !d.peers[p].val.state.Invalid? then d else
               d.(peers := d.peers[p := Used(k, d.peers[p].val.(state := Inactive))],
                 peerCnt := Cnt(d.peerCnt.act, d.peerCnt.ina + 1))
    ensures Inv(e) && Flagged(e, gcPfxs, gcPeers)
    ensures Get(e.peers, k) == Get(PeerReady(c, k).peers, k)
    ensures forall pfx: Pfx, h: PeerId :: CellAt(e, pfx, h) == CellAt(c, pfx, h)
    ensures forall h: PeerId :: PeerSt(e.peers, h) == if h == k && PeerSt(c.peers, k).Invalid? then Inactive
            else PeerSt(c.peers, h)
  {
    hide RowOk, RowBacked, KeysOk, RowsOk, PfxsCounted, PeersCounted, SeenCounted, CellsBacked;
    PeerIsReady(c, k);
    var d := PeerReady(c, k);
    var p := Get(d.peers, k);
    if d.peers[p].val.state.Invalid? {
      UnseenPeer(d, k, V4);
      UnseenPeer(d, k, V6);
      SetPeer(d, e, p, Inactive);
      UniquePeers(e);
      GetIsSlot(e.peers, p);
    }
  }

  lemma UniquePeers(c: Core)
    requires Inv(c)
    ensures Unique(c.peers)
  {
  }

  lemma PfxIsReady(c: Core, pfx: Pfx)
    requires Inv(c)
    ensures var d, v := PfxReady(c, pfx), pfx.Ver();
            var i := Get(d.pfxs.At(v), pfx);
            && Inv(d) && SameView(c, d) && i < |d.pfxs.At(v)| && d.peers == c.peers
            && i == (if Absent(c, pfx) then FreeFrom(c.pfxs.At(v), 0) else Get(c.pfxs.At(v), pfx))
            && d.pfxs.At(v.Other()) == c.pfxs.At(v.Other())
            && forall h :: 0 <= h < |d.pfxs.At(v)| && h != i ==>
              h < |c.pfxs.At(v)| && d.pfxs.At(v)[h] == c.pfxs.At(v)[h]
  {
    hide Inv, SameView, FreeFrom;
    if Absent(c, pfx) { GrowPfx(c, pfx); } else { SameViewRefl(c); }
  }

  lemma OpenFlagged(c: Core, d: Core, e: Core, pfx: Pfx, gcPfxs: Both<bool>, gcPeers: bool)
    requires Inv(c) && Flagged(c, gcPfxs, gcPeers) && d == PfxReady(c, pfx)
    requires var i := Get(d.pfxs.At(pfx.Ver()), pfx);
            HasRow(d, pfx.Ver(), i) && Swapped(d, e, pfx.Ver(), i, Opened(Row(d, pfx.Ver(), i)))
    ensures Flagged(e, gcPfxs, gcPeers)
  {
    hide Inv, SameView, FreeFrom;
    PfxIsReady(c, pfx);
    var v := pfx.Ver();
    var i := Get(d.pfxs.At(v), pfx);
    SwapSameCells(d, e, v, i, Opened(Row(d, v, i)));
    forall w: Ver, h | 0 <= h < |e.pfxs.At(w)| && e.pfxs.At(w)[h].Used? && e.pfxs.At(w)[h].val.state.Invalid?
      ensures gcPfxs.At(w)
    {
      assert !(w == v && h == i);
      assert e.pfxs.At(w)[h] == d.pfxs.At(w)[h] == c.pfxs.At(w)[h];
    }
  }

  /** Opening the prefix and inserting the cell, seen from before the prefix had a slot. */
  lemma AddCellEffect(c: Core, d: Core, e: Core, f: Core, v: Ver, i: nat, k: PeerId, path: PathId)
    requires Inv(c) && Inv(d) && SameView(c, d) && d.peers == c.peers
    requires HasRow(d, v, i) && !PeerSt(c.peers, k).Invalid?
    requires Swapped(d, e, v, i, Opened(Row(d, v, i)))
    requires Swapped(e, f, v, i, Inserted(Row(e, v, i), k, path))
    ensures Inv(f)
    ensures var pfx := PfxKey(d, v, i);
            CellPut(c, f, pfx, k, Cell(if CellAt(c, pfx, k).state.Active? then Active else Inactive, path))
  {
    hide Inv, CellAt;
    SwapTrans(d, e, f, v, i, Opened(Row(d, v, i)), Inserted(Row(e, v, i), k, path));
    InsertEffect(d, f, v, i, k, path);
  }

  lemma AtNewCell(c: Core, d: Core, it: Iter, k: PeerId, path: PathId)
    requires HasRow(c, it.ver, it.pfx) && Unique(c.peers) && Get(c.peers, k) < |c.peers|
    requires Swapped(c, d, it.ver, it.pfx, Inserted(Row(c, it.ver, it.pfx), k, path))
    requires it.cellValid && it.cell == CellSlot(Row(c, it.ver, it.pfx).cells, k) && it.peer == Get(c.peers, k)
    ensures AtCell(d, it) && CellKey(d, it) == k && PfxKey(d, it.ver, it.pfx) == PfxKey(c, it.ver, it.pfx)
  {
    var info := Inserted(Row(c, it.ver, it.pfx), k, path);
    forall p | 0 <= p < |c.peers| ensures SamePeer(c.peers[p], d.peers[p]) {
      assert PeerShift(c.peers[p], d.peers[p], it.ver, Row(c, it.ver, it.pfx).cells, info.cells);
    }
    SamePeers(c.peers, d.peers);
  }

  lemma OpenUnique(d: Core, e: Core, v: Ver, i: nat)
    requires Inv(d) && HasRow(d, v, i) && Swapped(d, e, v, i, Opened(Row(d, v, i)))
    ensures HasRow(e, v, i) && Row(e, v, i) == Opened(Row(d, v, i)) && PfxKey(e, v, i) == PfxKey(d, v, i)
    ensures Unique(e.peers) && Unique(Row(e, v, i).cells) && e.peers == d.peers
  {
    InvLoose(d, v, i);
    SwapSameCells(d, e, v, i, Opened(Row(d, v, i)));
  }

  /** Is the prefix there and valid? */
  predicate PfxValid(c: Core, pfx: Pfx) {
    var i := Get(c.pfxs.At(pfx.Ver()), pfx); i < |c.pfxs.At(pfx.Ver())| && !c.pfxs.At(pfx.Ver())[i].val.state.Invalid?
  }

  /** Opening a prefix without giving it a cell shows nothing, and leaves the view unsettled
      unless the prefix was valid already. */
  lemma OpenEffect(c: Core, d: Core, e: Core, v: Ver, i: nat)
    requires Inv(d) && SameView(c, d) && HasRow(d, v, i) && Swapped(d, e, v, i, Opened(Row(d, v, i)))
    ensures SameView(c, e) && (Inv(e) <==> !Row(d, v, i).state.Invalid?)
  {
    InvLoose(d, v, i);
    SwapView(d, e, v, i, Opened(Row(d, v, i)));
    RowIsView(d, v, i);
    if Row(d, v, i).state.Invalid? {
      OpenUnique(d, e, v, i);
      assert !RowOk(Row(e, v, i));
    } else {
      SwapKeepsInv(d, e, v, i, Row(d, v, i));
    }
  }

  /** A cell of an invalid peer leaves the view unsettled. */
  lemma UnbackedCell(d: Core, e: Core, f: Core, v: Ver, i: nat, k: PeerId, path: PathId)
    requires Inv(d) && HasRow(d, v, i) && PeerSt(d.peers, k).Invalid?
    requires Swapped(d, e, v, i, Opened(Row(d, v, i))) && Swapped(e, f, v, i, Inserted(Row(e, v, i), k, path))
    ensures !Inv(f)
  {
    OpenUnique(d, e, v, i);
    SwapTrans(d, e, f, v, i, Opened(Row(d, v, i)), Inserted(Row(e, v, i), k, path));
    var info := Inserted(Opened(Row(d, v, i)), k, path);
    PutCellFacts(Row(d, v, i).cells, k,
      Cell(if KeySt(Row(d, v, i).cells, k).Invalid? then Inactive else KeySt(Row(d, v, i).cells, k), path));
    SwapView(d, f, v, i, info);
    assert PeerSt(f.peers, k).Invalid? && !KeySt(info.cells, k).Invalid? && Row(f, v, i) == info;
    assert Inv(f) ==> RowBacked(Row(f, v, i).cells, f.peers);
  }

  /** An inactive cell is counted as inactive by its prefix and by its peer. */
  lemma ActivateReady(c: Core, it: Iter)
    requires Inv(c) && AtCell(c, it) && CellSt(Row(c, it.ver, it.pfx).cells[it.cell]).Inactive?
    ensures Unique(c.peers) && Unique(Row(c, it.ver, it.pfx).cells) && Row(c, it.ver, it.pfx).cnt.ina > 0
    ensures c.peers[it.peer].val.cnt.At(it.ver).ina > 0
    ensures Row(c, it.ver, it.pfx).state.Inactive? ==> c.pfxCnt.At(it.ver).ina > 0
  {
    InvLoose(c, it.ver, it.pfx);
    CountedCell(Row(c, it.ver, it.pfx).cells, it.cell);
  }

  lemma StillAt(c: Core, d: Core, it: Iter, info: PfxInfo)
    requires Inv(c) && AtCell(c, it) && Swapped(c, d, it.ver, it.pfx, info)
    requires it.cell < |info.cells| && !CellSt(info.cells[it.cell]).Invalid?
    requires info.cells[it.cell].key == Row(c, it.ver, it.pfx).cells[it.cell].key
    ensures AtCell(d, it) && CellKey(d, it) == CellKey(c, it) && PfxKey(d, it.ver, it.pfx) == PfxKey(c, it.ver, it.pfx)
  {
    SwapPeers(c, d, it.ver, it.pfx, info);
  }
}
