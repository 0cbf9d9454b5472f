/** What the operations on cells and prefixes do to a settled view, as its readers see it. */
module CellOps {
  import opened Net
  import opened Khash
  import opened ViewState
  import opened RowSwap
  import opened Cascade

  ghost function PfxKey(c: Core, v: Ver, i: nat): Pfx
    requires HasRow(c, v, i)
  {
    c.pfxs.At(v)[i].key
  }

  ghost function CellKey(c: Core, it: Iter): PeerId
    requires AtCell(c, it)
  {
    Row(c, it.ver, it.pfx).cells[it.cell].key
  }

  /** In a settled view every row can start a cascade. */
  lemma InvLoose(c: Core, v: Ver, i: nat)
    requires Inv(c) && HasRow(c, v, i)
    ensures Loose(c, v, i, Invalid) && Loose(c, v, i, Inactive)
    ensures Has(c.pfxCnt.At(v), Row(c, v, i).state) && RowOk(Row(c, v, i))
    ensures RowBacked(Row(c, v, i).cells, c.peers)
  {
    hide Tally, RowSts, PfxSts, SeenSts;
    var cells := Row(c, v, i).cells;
    TallyBounds(PfxSts(c.pfxs.At(v)));
    assert PfxSts(c.pfxs.At(v))[i] == Row(c, v, i).state;
    assert RowBacked(cells, c.peers);
    forall j | 0 <= j < |cells| && cells[j].Used? && !cells[j].val.state.Invalid?
      ensures var p := Get(c.peers, cells[j].key); p < |c.peers| && Has(c.peers[p].val.cnt.At(v), cells[j].val.state)
    {
      CellCounted(c, v, i, j);
    }
  }

  lemma CellCounted(c: Core, v: Ver, i: nat, j: nat)
    requires Inv(c) && HasRow(c, v, i) && j < |Row(c, v, i).cells| && !CellSt(Row(c, v, i).cells[j]).Invalid?
    ensures var cell := Row(c, v, i).cells[j]; var p := Get(c.peers, cell.key);
            p < |c.peers| && Has(c.peers[p].val.cnt.At(v), cell.val.state)
  {
    hide Tally, SeenSts;
    var cells := Row(c, v, i).cells;
    assert RowOk(Row(c, v, i)) && RowBacked(cells, c.peers);
    var p := Get(c.peers, cells[j].key);
    assert cells[j].val.state.Rank() <= PeerSt(c.peers, cells[j].key).Rank();
    GetIsSlot(cells, j);
    var s := SeenSts(c.pfxs.At(v), cells[j].key);
    assert s[i] == cells[j].val.state;
    TallyBounds(s);
    assert c.peers[p].val.cnt.At(v) == Tally(s);
  }

  /** `d` shows cell `x` where `c` showed another, and is otherwise the same view. */
  ghost predicate CellPut(c: Core, d: Core, pfx: Pfx, k: PeerId, x: Cell) {
    && (forall q: Pfx, h: PeerId :: CellAt(d, q, h) == if q == pfx && h == k then x else CellAt(c, q, h))
    && (forall h: PeerId :: PeerSt(d.peers, h) == PeerSt(c.peers, h))
  }

  // ---------------------------------------------------------------- cells of a row

  function Quiet(x: Cell): Cell {
    if x.state.Active? then Cell(Inactive, x.path) else x
  }

  const NO_CELL := Cell(Invalid, 0)

  function Shown(x: Cell): Cell {
    if x.state.Invalid? then NO_CELL else x
  }

  lemma RowCellSet(cells: Cells, j: nat, x: Cell)
    requires Unique(cells) && j < |cells| && cells[j].Used?
    ensures var cells' := cells[j := Used(cells[j].key, x)];
            forall k :: RowCell(cells', k) == if k == cells[j].key then Shown(x) else RowCell(cells, k)
    ensures RowCell(cells, cells[j].key) == Shown(cells[j].val)
  {
    SetFacts(cells, j, x);
    GetIsSlot(cells, j);
  }

  lemma RowCellLowered(cells: Cells, t: State, k: PeerId)
    requires Unique(cells) && !t.Active?
    ensures Unique(Lowered(cells, |cells|, t))
    ensures RowCell(Lowered(cells, |cells|, t), k) ==
            if t.Invalid? then NO_CELL else Quiet(RowCell(cells, k))
  {
    hide Lowered;
    var cells' := Lowered(cells, |cells|, t);
    assert forall j :: 0 <= j < |cells| ==>
      cells'[j].Used? == cells[j].Used? && (cells[j].Used? ==> cells'[j].key == cells[j].key);
    assert Unique(cells');
    var g, g' := Get(cells, k), Get(cells', k);
    if g < |cells| { GetIsSlot(cells', g); }
    if g' < |cells| { GetIsSlot(cells, g'); }
  }

  /** A settled row stays settled, and its lowered cells stay backed. */
  lemma RowOne(info: PfxInfo, j: nat, peers: PeerTab)
    requires RowOk(info) && RowBacked(info.cells, peers) && j < |info.cells| && !CellSt(info.cells[j]).Invalid?
    ensures RowOk(DeactivatedOne(info, j)) && RowBacked(DeactivatedOne(info, j).cells, peers)
    ensures forall k :: RowCell(DeactivatedOne(info, j).cells, k) ==
              if k == info.cells[j].key then Quiet(RowCell(info.cells, k)) else RowCell(info.cells, k)
  {
    hide Tally, RowSts;
    CountedCell(info.cells, j);
    SetCellFacts(info.cells, j, Lower(info.cells[j], Inactive).val);
    RowCellSet(info.cells, j, Lower(info.cells[j], Inactive).val);
  }

  lemma RowAll(info: PfxInfo, peers: PeerTab)
    requires RowOk(info) && RowBacked(info.cells, peers) && !info.state.Invalid?
    ensures RowOk(DeactivatedAll(info)) && RowBacked(DeactivatedAll(info).cells, peers)
    ensures forall k :: RowCell(DeactivatedAll(info).cells, k) == Quiet(RowCell(info.cells, k))
    ensures RowOk(RemovedAll(info)) && RowBacked(RemovedAll(info).cells, peers)
    ensures forall k :: RowCell(RemovedAll(info).cells, k) == NO_CELL
  {
    hide Tally, RowSts, Lowered;
    LoweredTally(info.cells, Inactive);
    LoweredTally(info.cells, Invalid);
    forall k
      ensures RowCell(RemovedAll(info).cells, k) == NO_CELL && Unique(RemovedAll(info).cells)
      ensures RowCell(DeactivatedAll(info).cells, k) == Quiet(RowCell(info.cells, k))
      ensures Unique(DeactivatedAll(info).cells)
    {
      RowCellLowered(info.cells, Inactive, k);
      RowCellLowered(info.cells, Invalid, k);
      if !info.state.Active? { NoneActive(info, k); }
    }
    RowCellLowered(info.cells, Inactive, 1);
    RowCellLowered(info.cells, Invalid, 1);
  }

  lemma NoneActive(info: PfxInfo, k: PeerId)
    requires RowOk(info) && !info.state.Active?
    ensures !RowCell(info.cells, k).state.Active?
  {
    var j := Get(info.cells, k);
    if j < |info.cells| { CountedCell(info.cells, j); }
  }

  lemma RowDrop(mid: PfxInfo, j: nat, peers: PeerTab)
    requires RowOk(mid) && RowBacked(mid.cells, peers) && j < |mid.cells| && CellSt(mid.cells[j]).Inactive?
    ensures var last := PrunedRow(DroppedOne(mid, j));
            && RowOk(last) && RowBacked(last.cells, peers)
            && forall k :: RowCell(last.cells, k) == if k == mid.cells[j].key then NO_CELL else RowCell(mid.cells, k)
  {
    hide Tally, RowSts, Lowered, Get, DroppedOne, RowCell;
    DropFacts(mid, j, peers);
    var last := DroppedOne(mid, j);
    if last.cnt.None() {
      NothingAbove(last, Invalid, peers, V4);
      assert PrunedRow(last) == PfxInfo(Invalid, last.cells, last.cnt);
    }
  }

  /** Dropping one inactive cell, before the prefix is looked at. */
  lemma DropFacts(mid: PfxInfo, j: nat, peers: PeerTab)
    requires RowOk(mid) && RowBacked(mid.cells, peers) && j < |mid.cells| && CellSt(mid.cells[j]).Inactive?
    ensures var last := DroppedOne(mid, j);
            && Unique(last.cells) && last.cnt == Tally(RowSts(last.cells)) && RowBacked(last.cells, peers)
            && last.state == mid.state && !mid.state.Invalid? && (last.state.Active? <==> last.cnt.act > 0)
            && forall k :: RowCell(last.cells, k) == if k == mid.cells[j].key then NO_CELL else RowCell(mid.cells, k)
  {
    hide Tally, RowSts, Lowered, Get;
    CountedCell(mid.cells, j);
    SetCellFacts(mid.cells, j, Lower(mid.cells[j], Invalid).val);
    RowCellSet(mid.cells, j, Lower(mid.cells[j], Invalid).val);
  }

  lemma QuietCell(info: PfxInfo, j: nat)
    requires RowOk(info) && j < |info.cells| && !CellSt(info.cells[j]).Invalid?
    ensures CellSt(DeactivatedOne(info, j).cells[j]).Inactive?
    ensures DeactivatedOne(info, j).cells[j].key == info.cells[j].key
  {
    CountedCell(info.cells, j);
  }

  lemma RowDropped(info: PfxInfo, j: nat, peers: PeerTab)
    requires RowOk(info) && RowBacked(info.cells, peers) && j < |info.cells| && !CellSt(info.cells[j]).Invalid?
    ensures RowOk(RemovedOne(info, j)) && RowBacked(RemovedOne(info, j).cells, peers)
    ensures forall k :: RowCell(RemovedOne(info, j).cells, k) ==
              if k == info.cells[j].key then NO_CELL else RowCell(info.cells, k)
  {
    hide RowCell, RowOk, RowBacked, PrunedRow, DroppedOne;
    RowOne(info, j, peers);
    QuietCell(info, j);
    RowDrop(DeactivatedOne(info, j), j, peers);
  }

  // ---------------------------------------------------------------- the whole view

  /** Deactivating a cell changes that cell's state and nothing else a reader can see. */
  lemma DeactivateCellEffect(c: Core, d: Core, it: Iter)
    requires Inv(c) && AtCell(c, it)
    requires Swapped(c, d, it.ver, it.pfx, DeactivatedOne(Row(c, it.ver, it.pfx), it.cell))
    ensures Inv(d)
    ensures var pfx, k := PfxKey(c, it.ver, it.pfx), CellKey(c, it); CellPut(c, d, pfx, k, Quiet(CellAt(c, pfx, k)))
  {
    InvLoose(c, it.ver, it.pfx);
    var info := Row(c, it.ver, it.pfx);
    RowOne(info, it.cell, c.peers);
    SwapKeepsInv(c, d, it.ver, it.pfx, DeactivatedOne(info, it.cell));
    SwapView(c, d, it.ver, it.pfx, DeactivatedOne(info, it.cell));
    RowIsView(c, it.ver, it.pfx);
  }

  lemma RowIsView(c: Core, v: Ver, i: nat)
    requires Inv(c) && HasRow(c, v, i)
    ensures forall k: PeerId :: CellAt(c, PfxKey(c, v, i), k) == RowCell(Row(c, v, i).cells, k)
  {
    GetIsSlot(c.pfxs.At(v), i);
  }

  /** Removing a cell makes it unseen, and changes nothing else a reader can see. */
  lemma RemoveCellEffect(c: Core, d: Core, it: Iter)
    requires Inv(c) && AtCell(c, it)
    requires Swapped(c, d, it.ver, it.pfx, RemovedOne(Row(c, it.ver, it.pfx), it.cell))
    ensures Inv(d)
    ensures CellPut(c, d, PfxKey(c, it.ver, it.pfx), CellKey(c, it), NO_CELL)
  {
    InvLoose(c, it.ver, it.pfx);
    var info := Row(c, it.ver, it.pfx);
    RowDropped(info, it.cell, c.peers);
    SwapKeepsInv(c, d, it.ver, it.pfx, RemovedOne(info, it.cell));
    SwapView(c, d, it.ver, it.pfx, RemovedOne(info, it.cell));
    RowIsView(c, it.ver, it.pfx);
  }

  /** Deactivating a prefix deactivates exactly its active cells. */
  lemma DeactivatePfxEffect(c: Core, d: Core, v: Ver, i: nat)
    requires Inv(c) && HasRow(c, v, i) && !Row(c, v, i).state.Invalid?
    requires Swapped(c, d, v, i, DeactivatedAll(Row(c, v, i)))
    ensures Inv(d)
    ensures forall pfx: Pfx, k: PeerId :: CellAt(d, pfx, k) ==
              if pfx == PfxKey(c, v, i) then Quiet(CellAt(c, pfx, k)) else CellAt(c, pfx, k)
    ensures forall k: PeerId :: PeerSt(d.peers, k) == PeerSt(c.peers, k)
  {
    InvLoose(c, v, i);
    RowAll(Row(c, v, i), c.peers);
    SwapKeepsInv(c, d, v, i, DeactivatedAll(Row(c, v, i)));
    SwapView(c, d, v, i, DeactivatedAll(Row(c, v, i)));
    RowIsView(c, v, i);
  }

  /** Removing a prefix removes exactly its cells. */
  lemma RemovePfxEffect(c: Core, d: Core, v: Ver, i: nat)
    requires Inv(c) && HasRow(c, v, i) && !Row(c, v, i).state.Invalid?
    requires Swapped(c, d, v, i, RemovedAll(Row(c, v, i)))
    ensures Inv(d)
    ensures forall pfx: Pfx, k: PeerId :: CellAt(d, pfx, k) ==
              if pfx == PfxKey(c, v, i) then NO_CELL else CellAt(c, pfx, k)
    ensures forall k: PeerId :: PeerSt(d.peers, k) == PeerSt(c.peers, k)
  {
    InvLoose(c, v, i);
    RowAll(Row(c, v, i), c.peers);
    SwapKeepsInv(c, d, v, i, RemovedAll(Row(c, v, i)));
    SwapView(c, d, v, i, RemovedAll(Row(c, v, i)));
    RowIsView(c, v, i);
  }
}
