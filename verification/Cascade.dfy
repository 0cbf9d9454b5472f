/** Lowering cells: what the deactivation and the removal cascades do to a row, and the
    facts that let them run while the row's prefix and counters are still catching up. */
module Cascade {
  import opened Net
  import opened Khash
  import opened ViewState
  import opened RowSwap

  datatype Iter = Iter(
    ver: Ver, filter: Option<Ver>, pfx: nat, pfxMask: Mask,
    cell: nat, cellValid: bool, cellMask: Mask,
    peer: nat, peerMask: Mask)

  // ---------------------------------------------------------------- row contents

  /** A cell made inactive or invalid, unless it already ranks no higher. */
  function Lower(s: Slot<PeerId, Cell>, t: State): Slot<PeerId, Cell> {
    if s.Used? && s.val.state.Rank() > t.Rank() then Used(s.key, Cell(t, s.val.path)) else s
  }

  /** The row with its first `n` cells lowered. */
  function Lowered(cells: Cells, n: nat, t: State): (r: Cells)
    requires n <= |cells|
    ensures |r| == |cells|
    ensures forall j :: 0 <= j < |r| ==> r[j] == if j < n then Lower(cells[j], t) else cells[j]
  {
    seq(|cells|, j requires 0 <= j < |cells| => if j < n then Lower(cells[j], t) else cells[j])
  }

  /** The row after one cell is deactivated: the prefix follows when its last active cell goes. */
  function DeactivatedOne(info: PfxInfo, j: nat): PfxInfo
    requires j < |info.cells|
  {
    if !CellSt(info.cells[j]).Active? || info.cnt.act == 0 then info else
    var cnt := info.cnt.Deactivate();
    PfxInfo(if cnt.act == 0 && info.state.Active? then Inactive else info.state,
            info.cells[j := Lower(info.cells[j], Inactive)], cnt)
  }

  function DeactivatedAll(info: PfxInfo): PfxInfo {
    if !info.state.Active? then info else
    PfxInfo(Inactive, Lowered(info.cells, |info.cells|, Inactive), Cnt(0, info.cnt.act + info.cnt.ina))
  }

  function RemovedAll(info: PfxInfo): PfxInfo {
    PfxInfo(Invalid, Lowered(info.cells, |info.cells|, Invalid), ZERO)
  }

  /** The row with one inactive cell dropped and the prefix's state untouched. */
  function DroppedOne(info: PfxInfo, j: nat): PfxInfo
    requires j < |info.cells|
  {
    if info.cnt.ina == 0 then info else
    info.(cells := info.cells[j := Lower(info.cells[j], Invalid)], cnt := info.cnt.DropInactive())
  }

  /** A valid prefix without cells goes. */
  function PrunedRow(info: PfxInfo): PfxInfo {
    if !info.state.Invalid? && info.cnt.None() then RemovedAll(info) else info
  }

  /** The row after one cell is removed: the prefix goes with its last valid cell. */
  function RemovedOne(info: PfxInfo, j: nat): PfxInfo
    requires j < |info.cells|
  {
    PrunedRow(DroppedOne(DeactivatedOne(info, j), j))
  }

  ghost function WithRow(c: Core, v: Ver, i: nat, info: PfxInfo): Core
    requires HasRow(c, v, i)
  {
    c.(pfxs := c.pfxs.With(v, c.pfxs.At(v)[i := Used(c.pfxs.At(v)[i].key, info)]))
  }

  lemma WithRowTwice(c: Core, v: Ver, i: nat, mid: PfxInfo, info: PfxInfo)
    requires HasRow(c, v, i)
    ensures HasRow(WithRow(c, v, i, mid), v, i)
    ensures WithRow(WithRow(c, v, i, mid), v, i, info) == WithRow(c, v, i, info)
  {
    var tab := c.pfxs.At(v);
    assert tab[i := Used(tab[i].key, mid)][i := Used(tab[i].key, info)] == tab[i := Used(tab[i].key, info)];
  }

  // ---------------------------------------------------------------- what the cascades need

  ghost predicate Has(c: Cnt, s: State) {
    (s.Active? ==> c.act > 0) && (s.Inactive? ==> c.ina > 0)
  }

  /** Every cell that lowering to `t` would touch is counted by its peer. */
  ghost predicate Counted(cells: Cells, peers: PeerTab, v: Ver, t: State) {
    forall j :: 0 <= j < |cells| && cells[j].Used? && cells[j].val.state.Rank() > t.Rank() ==>
      var p := Get(peers, cells[j].key); p < |peers| && Has(peers[p].val.cnt.At(v), cells[j].val.state)
  }

  /** A row in the middle of a cascade: counted and keyed, but its prefix's state may lag. */
  ghost predicate Loose(c: Core, v: Ver, i: nat, t: State) {
    && HasRow(c, v, i) && Unique(c.peers)
    && Unique(Row(c, v, i).cells) && Row(c, v, i).cnt == Tally(RowSts(Row(c, v, i).cells))
    && Counted(Row(c, v, i).cells, c.peers, v, t)
    && (Row(c, v, i).state.Active? ==> c.pfxCnt.At(v).act > 0)
  }

  ghost predicate AtCell(c: Core, it: Iter) {
    && HasRow(c, it.ver, it.pfx)
    && it.cellValid && it.cell < |Row(c, it.ver, it.pfx).cells|
    && !CellSt(Row(c, it.ver, it.pfx).cells[it.cell]).Invalid?
    && it.peer < |c.peers| && it.peer == Get(c.peers, Row(c, it.ver, it.pfx).cells[it.cell].key)
  }

  /** What one scan over the row establishes. */
  ghost predicate Scanned(c: Core, it: Iter, from: nat, mask: Mask) {
    && HasRow(c, it.ver, it.pfx)
    && var cells := Row(c, it.ver, it.pfx).cells;
    && from <= it.cell <= |cells| && (it.cellValid <==> it.cell < |cells|)
    && (forall j :: from <= j < it.cell ==> !mask.Hits(CellSt(cells[j])))
    && (it.cellValid ==> mask.Hits(CellSt(cells[it.cell])) && it.peer == Get(c.peers, cells[it.cell].key))
  }

  lemma SetCellFacts(cells: Cells, j: nat, x: Cell)
    requires Unique(cells) && j < |cells| && cells[j].Used?
    ensures var cells' := cells[j := Used(cells[j].key, x)];
            && Unique(cells')
            && RowSts(cells') == RowSts(cells)[j := x.state]
            && Tally(RowSts(cells')).Add(cells[j].val.state) == Tally(RowSts(cells)).Add(x.state)
            && KeySt(cells', cells[j].key) == x.state && KeySt(cells, cells[j].key) == cells[j].val.state
            && forall k :: k != cells[j].key ==> KeySt(cells', k) == KeySt(cells, k)
  {
    var cells' := cells[j := Used(cells[j].key, x)];
    SetFacts(cells, j, x);
    GetIsSlot(cells, j);
    assert RowSts(cells') == RowSts(cells)[j := x.state];
    TallyUpdate(RowSts(cells), j, x.state);
  }

  lemma CountedCell(cells: Cells, j: nat)
    requires j < |cells|
    ensures Has(Tally(RowSts(cells)), CellSt(cells[j]))
  {
    TallyBounds(RowSts(cells));
    assert RowSts(cells)[j] == CellSt(cells[j]);
  }

  // ---------------------------------------------------------------- one cell

  /** A swap that leaves the cells alone leaves the peers alone. */
  lemma SwapSameCells(c: Core, d: Core, v: Ver, i: nat, info: PfxInfo)
    requires HasRow(c, v, i) && Swapped(c, d, v, i, info) && info.cells == Row(c, v, i).cells
    ensures d.peers == c.peers
  {
    forall p | 0 <= p < |c.peers| ensures d.peers[p] == c.peers[p] {
      assert PeerShift(c.peers[p], d.peers[p], v, info.cells, info.cells);
    }
  }

  /** Changing one peer's cell and moving that peer's counter is a swap of the row. */
  lemma KeySwap(c: Core, v: Ver, i: nat, k: PeerId, p: nat, info: PfxInfo, cnt: Cnt, d: Core)
    requires HasRow(c, v, i) && Unique(c.peers) && p < |c.peers| && p == Get(c.peers, k)
    requires forall h :: h != k ==> KeySt(info.cells, h) == KeySt(Row(c, v, i).cells, h)
    requires cnt.Add(KeySt(Row(c, v, i).cells, k)) == c.peers[p].val.cnt.At(v).Add(KeySt(info.cells, k))
    requires d.pfxs == WithRow(c, v, i, info).pfxs && d.peerCnt == c.peerCnt
    requires d.peers == c.peers[p := Used(k, c.peers[p].val.(cnt := c.peers[p].val.cnt.With(v, cnt)))]
    requires d.pfxCnt.At(v.Other()) == c.pfxCnt.At(v.Other())
    requires d.pfxCnt.At(v).Add(Row(c, v, i).state) == c.pfxCnt.At(v).Add(info.state)
    ensures Swapped(c, d, v, i, info)
  {
    hide KeySt;
    forall q | 0 <= q < |c.peers| ensures PeerShift(c.peers[q], d.peers[q], v, Row(c, v, i).cells, info.cells) {
      if q != p && c.peers[q].Used? {
        assert c.peers[q].key != k;
      }
    }
  }

  lemma CellSwap(c: Core, v: Ver, i: nat, j: nat, p: nat, info: PfxInfo, cnt: Cnt, d: Core)
    requires HasRow(c, v, i) && Unique(c.peers) && Unique(Row(c, v, i).cells)
    requires j < |Row(c, v, i).cells| && Row(c, v, i).cells[j].Used?
    requires |info.cells| == |Row(c, v, i).cells| && info.cells[j].Used?
    requires info.cells == Row(c, v, i).cells[j := Used(Row(c, v, i).cells[j].key, info.cells[j].val)]
    requires p < |c.peers| && p == Get(c.peers, Row(c, v, i).cells[j].key)
    requires cnt.Add(Row(c, v, i).cells[j].val.state) == c.peers[p].val.cnt.At(v).Add(info.cells[j].val.state)
    requires d.pfxs == WithRow(c, v, i, info).pfxs && d.peerCnt == c.peerCnt
    requires d.peers == c.peers[p := Used(c.peers[p].key, c.peers[p].val.(cnt := c.peers[p].val.cnt.With(v, cnt)))]
    requires d.pfxCnt.At(v.Other()) == c.pfxCnt.At(v.Other())
    requires d.pfxCnt.At(v).Add(Row(c, v, i).state) == c.pfxCnt.At(v).Add(info.state)
    ensures Swapped(c, d, v, i, info)
  {
    SetCellFacts(Row(c, v, i).cells, j, info.cells[j].val);
    KeySwap(c, v, i, Row(c, v, i).cells[j].key, p, info, cnt, d);
  }

  /** The same cells, none of them raised above `t` from below it. */
  ghost predicate Rewrites(cells: Cells, cells': Cells, t: State) {
    && |cells'| == |cells|
    && forall j :: 0 <= j < |cells| ==>
         if cells[j].Free? then cells'[j].Free? else
           && cells'[j].Used? && cells'[j].key == cells[j].key
           && (cells'[j].val.state.Rank() > t.Rank() ==> cells[j].val.state.Rank() > t.Rank())
  }

  /** Rewriting cells and moving their peers' counters keeps every cell counted. */
  lemma StillCounted(cells: Cells, cells': Cells, peers: PeerTab, peers': PeerTab, v: Ver, t: State)
    requires Unique(cells) && Unique(peers) && Rewrites(cells, cells', t)
    requires Counted(cells, peers, v, t) && |peers'| == |peers|
    requires forall p :: 0 <= p < |peers| ==> PeerShift(peers[p], peers'[p], v, cells, cells')
    ensures Unique(cells') && Unique(peers') && Counted(cells', peers', v, t)
    ensures forall k :: Get(peers', k) == Get(peers, k)
  {
    assert Unique(cells');
    forall p | 0 <= p < |peers| ensures SamePeer(peers[p], peers'[p]) {
      assert PeerShift(peers[p], peers'[p], v, cells, cells');
    }
    SamePeers(peers, peers');
    forall j | 0 <= j < |cells'| && cells'[j].Used? && cells'[j].val.state.Rank() > t.Rank()
      ensures var p := Get(peers', cells'[j].key); p < |peers'| && Has(peers'[p].val.cnt.At(v), cells'[j].val.state)
    {
      GetIsSlot(cells, j);
      GetIsSlot(cells', j);
      var p := Get(peers, cells[j].key);
      assert PeerShift(peers[p], peers'[p], v, cells, cells');
    }
  }

  /** So the row is still fit for the next step of a cascade. */
  lemma StillLoose(c: Core, d: Core, v: Ver, i: nat, t: State, info: PfxInfo)
    requires Loose(c, v, i, t) && Rewrites(Row(c, v, i).cells, info.cells, t)
    requires info.cnt == Tally(RowSts(info.cells)) && (info.state.Active? ==> Row(c, v, i).state.Active?)
    requires Swapped(c, d, v, i, info)
    ensures Loose(d, v, i, t)
    ensures forall k :: Get(d.peers, k) == Get(c.peers, k)
  {
    StillCounted(Row(c, v, i).cells, info.cells, c.peers, d.peers, v, t);
  }

  lemma {:induction false} LoweredSum(cells: Cells, n: nat)
    requires n <= |cells|
    ensures var c, c' := Tally(RowSts(cells)), Tally(RowSts(Lowered(cells, n, Inactive)));
            c'.act + c'.ina == c.act + c.ina
  {
    hide RowSts, Lowered, Tally;
    if n == 0 {
      assert Lowered(cells, 0, Inactive) == cells;
    } else {
      LoweredSum(cells, n - 1);
      var s, x := RowSts(Lowered(cells, n - 1, Inactive)), CellSt(Lower(cells[n - 1], Inactive));
      assert RowSts(Lowered(cells, n, Inactive)) == s[n - 1 := x];
      TallyUpdate(s, n - 1, x);
      assert s[n - 1].Invalid? <==> x.Invalid?;
    }
  }

  /** Lowering a whole row makes its active cells inactive, or leaves nothing. */
  lemma LoweredTally(cells: Cells, t: State)
    requires !t.Active?
    ensures var c, c' := Tally(RowSts(cells)), Tally(RowSts(Lowered(cells, |cells|, t)));
            c' == if t.Inactive? then Cnt(0, c.act + c.ina) else ZERO
  {
    hide RowSts, Lowered, Tally;
    var s := RowSts(Lowered(cells, |cells|, t));
    assert forall j :: 0 <= j < |s| ==> s[j].Rank() <= t.Rank();
    LoweredSum(cells, |cells|);
    TallyBounds(s);
  }

  // ---------------------------------------------------------------- all cells

  function Above(t: State): Mask { Mask(!t.Active?, t.Invalid?) }

  /** Part-way through lowering row `i`: the first `n` cells are done and nothing else moved. */
  ghost predicate Lowering(c: Core, d: Core, v: Ver, i: nat, n: nat, t: State) {
    && HasRow(c, v, i) && Loose(d, v, i, t) && n <= |Row(c, v, i).cells|
    && Row(d, v, i).cells == Lowered(Row(c, v, i).cells, n, t) && Row(d, v, i).state == t
    && Row(d, v, i).cnt.act <= Row(c, v, i).cnt.act &&
      Row(d, v, i).cnt.act + Row(d, v, i).cnt.ina <= Row(c, v, i).cnt.act + Row(c, v, i).cnt.ina
    && Swapped(c, d, v, i, Row(d, v, i))
  }

  lemma LowerStart(c: Core, c1: Core, v: Ver, i: nat, t: State)
    requires Loose(c, v, i, t) && c1 == WithRow(c, v, i, Row(c, v, i).(state := t))
    requires !t.Active?
    ensures Lowering(c1, c1, v, i, 0, t)
  {
    SwapNothing(c1, v, i);
    assert Lowered(Row(c1, v, i).cells, 0, t) == Row(c1, v, i).cells;
  }

  /** Cells that the scan skips need no lowering, and the one it finds has a counting peer. */
  lemma LowerScan(c: Core, d: Core, it: Iter, from: nat, t: State)
    requires Lowering(c, d, it.ver, it.pfx, from, t) && Scanned(d, it, from, Above(t))
    ensures Lowering(c, d, it.ver, it.pfx, it.cell, t)
    ensures it.cellValid ==> AtCell(d, it) && CellSt(Row(c, it.ver, it.pfx).cells[it.cell]).Rank() > t.Rank()
  {
    var cells := Row(c, it.ver, it.pfx).cells;
    assert forall j :: from <= j < |cells| ==> Row(d, it.ver, it.pfx).cells[j] == cells[j];
    assert Lowered(cells, from, t) == Lowered(cells, it.cell, t);
  }

  /** The row with cell `n` lowered and nothing else changed. */
  ghost predicate LowersOne(info: PfxInfo, info1: PfxInfo, n: nat, t: State)
    requires n < |info.cells|
  {
    && info1.cells == info.cells[n := Lower(info.cells[n], t)] && info1.state == info.state
    && info1.cnt == Tally(RowSts(info1.cells))
  }

  lemma LowerStep(c: Core, d: Core, e: Core, v: Ver, i: nat, n: nat, t: State, info: PfxInfo)
    requires Lowering(c, d, v, i, n, t)
    requires n < |Row(c, v, i).cells| && CellSt(Row(c, v, i).cells[n]).Rank() > t.Rank()
    requires LowersOne(Row(d, v, i), info, n, t) && Swapped(d, e, v, i, info)
    ensures Lowering(c, e, v, i, n + 1, t)
  {
    SwapTrans(c, d, e, v, i, Row(d, v, i), info);
    SetCellFacts(Row(d, v, i).cells, n, info.cells[n].val);
    StillLoose(d, e, v, i, t, info);
    assert info.cells == Lowered(Row(c, v, i).cells, n + 1, t);
  }

  lemma LowerNext(c: Core, d: Core, e: Core, it: Iter, n: nat, t: State, info: PfxInfo)
    requires Lowering(c, d, it.ver, it.pfx, n, t)
    requires n < |Row(c, it.ver, it.pfx).cells| && CellSt(Row(c, it.ver, it.pfx).cells[n]).Rank() > t.Rank()
    requires LowersOne(Row(d, it.ver, it.pfx), info, n, t) && Swapped(d, e, it.ver, it.pfx, info)
    requires Scanned(e, it, n + 1, Above(t))
    ensures Lowering(c, e, it.ver, it.pfx, it.cell, t) && it.cell > n
    ensures it.cellValid ==> AtCell(e, it) && CellSt(Row(c, it.ver, it.pfx).cells[it.cell]).Rank() > t.Rank()
  {
    LowerStep(c, d, e, it.ver, it.pfx, n, t, info);
    LowerScan(c, e, it, n + 1, t);
  }

  /** Deactivating or removing a cell of a row whose prefix has already been lowered. */
  lemma OneIsLower(info: PfxInfo, n: nat)
    requires Unique(info.cells) && info.cnt == Tally(RowSts(info.cells)) && n < |info.cells|
    ensures CellSt(info.cells[n]).Active? && info.state == Inactive ==>
              LowersOne(info, DeactivatedOne(info, n), n, Inactive)
    ensures !CellSt(info.cells[n]).Invalid? && info.state == Invalid && info.cnt.act == 0 ==>
              LowersOne(info, RemovedOne(info, n), n, Invalid)
  {
    CountedCell(info.cells, n);
    if info.cells[n].Used? {
      SetCellFacts(info.cells, n, Lower(info.cells[n], Inactive).val);
      SetCellFacts(info.cells, n, Lower(info.cells[n], Invalid).val);
    }
  }

  /** At the end of the walk only the prefix's own counter is still to move. */
  lemma LowerCount(c: Core, c1: Core, d: Core, v: Ver, i: nat, t: State)
    requires Loose(c, v, i, t) && c1 == WithRow(c, v, i, Row(c, v, i).(state := t))
    requires Lowering(c1, d, v, i, |Row(c, v, i).cells|, t)
    ensures d.pfxCnt == c.pfxCnt && d.peerCnt == c.peerCnt
  {
  }

  lemma LowerDone(c: Core, c1: Core, d: Core, e: Core, v: Ver, i: nat, t: State)
    requires Loose(c, v, i, t) && c1 == WithRow(c, v, i, Row(c, v, i).(state := t))
    requires t.Inactive? ==> Row(c, v, i).state.Active?
    requires Lowering(c1, d, v, i, |Row(c, v, i).cells|, t) && !t.Active?
    requires e == d.(pfxCnt := e.pfxCnt) && e.pfxCnt.At(v.Other()) == d.pfxCnt.At(v.Other())
    requires e.pfxCnt.At(v).Add(Row(c, v, i).state) == d.pfxCnt.At(v).Add(t)
    ensures Swapped(c, e, v, i, if t.Inactive? then DeactivatedAll(Row(c, v, i)) else RemovedAll(Row(c, v, i)))
  {
    var info := Row(c, v, i);
    var info' := if t.Inactive? then DeactivatedAll(info) else RemovedAll(info);
    assert Row(d, v, i) == info' by { LoweredTally(info.cells, t); }
    WithRowTwice(c, v, i, info.(state := t), info');
    LowerCount(c, c1, d, v, i, t);
    forall p | 0 <= p < |c.peers| ensures PeerShift(c.peers[p], e.peers[p], v, info.cells, info'.cells) {
      assert PeerShift(c1.peers[p], d.peers[p], v, info.cells, Row(d, v, i).cells);
    }
  }

  // ---------------------------------------------------------------- the last cell of a row

  /** Once nothing in the row ranks above `t`, lowering the row to `t` changes no cell. */
  lemma NothingAbove(info: PfxInfo, t: State, peers: PeerTab, v: Ver)
    requires info.cnt == Tally(RowSts(info.cells))
    requires (t.Inactive? && info.cnt.act == 0) || (t.Invalid? && info.cnt.None())
    ensures Lowered(info.cells, |info.cells|, t) == info.cells
    ensures Counted(info.cells, peers, v, t)
  {
    var cells := info.cells;
    forall h | 0 <= h < |cells| && cells[h].Used? ensures cells[h].val.state.Rank() <= t.Rank() {
      CountedCell(cells, h);
    }
    assert Lowered(cells, |cells|, t) == cells;
  }

  ghost function LoweredRow(info: PfxInfo, j: nat, cnt: Cnt, t: State): PfxInfo
    requires j < |info.cells|
  {
    info.(cells := info.cells[j := Lower(info.cells[j], t)], cnt := cnt)
  }

  lemma LastActive(c: Core, c1: Core, v: Ver, i: nat, j: nat)
    requires Loose(c, v, i, Inactive) && j < |Row(c, v, i).cells|
    requires CellSt(Row(c, v, i).cells[j]).Active? && Row(c, v, i).cnt.act == 1
    requires c1 == WithRow(c, v, i, LoweredRow(Row(c, v, i), j, Row(c, v, i).cnt.Deactivate(), Inactive))
    ensures Loose(c1, v, i, Inactive) && DeactivatedAll(Row(c1, v, i)) == DeactivatedOne(Row(c, v, i), j)
  {
    var cells := Row(c, v, i).cells;
    SetCellFacts(cells, j, Lower(cells[j], Inactive).val);
    NothingAbove(Row(c1, v, i), Inactive, c1.peers, v);
  }

  lemma LastActiveDone(c: Core, c1: Core, d: Core, v: Ver, i: nat, j: nat)
    requires Loose(c, v, i, Inactive) && j < |Row(c, v, i).cells|
    requires CellSt(Row(c, v, i).cells[j]).Active? && Row(c, v, i).cnt.act == 1
    requires c1 == WithRow(c, v, i, LoweredRow(Row(c, v, i), j, Row(c, v, i).cnt.Deactivate(), Inactive))
    requires Swapped(c1, d, v, i, DeactivatedAll(Row(c1, v, i)))
    ensures d.peers == c.peers && d.pfxs == WithRow(c, v, i, DeactivatedOne(Row(c, v, i), j)).pfxs
  {
    LastActive(c, c1, v, i, j);
    SwapSameCells(c1, d, v, i, DeactivatedAll(Row(c1, v, i)));
    WithRowTwice(c, v, i, Row(c1, v, i), DeactivatedOne(Row(c, v, i), j));
  }

  /** The first half of a removal leaves an inactive cell in a row that is still loose. */
  lemma RemoveFirst(c: Core, d: Core, it: Iter)
    requires Loose(c, it.ver, it.pfx, Invalid) && AtCell(c, it)
    requires Swapped(c, d, it.ver, it.pfx, DeactivatedOne(Row(c, it.ver, it.pfx), it.cell))
    ensures Loose(d, it.ver, it.pfx, Invalid) && AtCell(d, it)
    ensures CellSt(Row(d, it.ver, it.pfx).cells[it.cell]).Inactive?
  {
    hide RowSts, Tally, Get;
    var v, i, j := it.ver, it.pfx, it.cell;
    var info := Row(c, v, i);
    CountedCell(info.cells, j);
    SetCellFacts(info.cells, j, Lower(info.cells[j], Inactive).val);
    StillLoose(c, d, v, i, Invalid, DeactivatedOne(info, j));
  }

  /** The second half drops that cell. */
  lemma RemoveSecond(c: Core, d: Core, v: Ver, i: nat, j: nat)
    requires Loose(c, v, i, Invalid) && j < |Row(c, v, i).cells|
    requires CellSt(Row(c, v, i).cells[j]).Inactive?
    requires Swapped(c, d, v, i, DroppedOne(Row(c, v, i), j))
    ensures Loose(d, v, i, Invalid)
  {
    var info := Row(c, v, i);
    CountedCell(info.cells, j);
    SetCellFacts(info.cells, j, Lower(info.cells[j], Invalid).val);
    StillLoose(c, d, v, i, Invalid, DroppedOne(info, j));
  }

  /** The cell is gone; the prefix is still there. */
  ghost predicate Retired(c: Core, d: Core, it: Iter)
    requires AtCell(c, it)
  {
    var info := Row(c, it.ver, it.pfx);
    var info' := DroppedOne(DeactivatedOne(info, it.cell), it.cell);
    && Swapped(c, d, it.ver, it.pfx, info') && Loose(d, it.ver, it.pfx, Invalid)
    && info'.cnt.act + info'.cnt.ina < info.cnt.act + info.cnt.ina && info'.state.Rank() <= info.state.Rank()
    && (info'.state.Inactive? ==> info.state.Active? || info.state.Inactive?)
    && (info.state.Invalid? <==> info'.state.Invalid?)
    && (Has(c.pfxCnt.At(it.ver), info.state) ==> Has(d.pfxCnt.At(it.ver), info'.state))
  }

  lemma RemoveBoth(c: Core, d: Core, e: Core, it: Iter)
    requires Loose(c, it.ver, it.pfx, Invalid) && AtCell(c, it)
    requires Swapped(c, d, it.ver, it.pfx, DeactivatedOne(Row(c, it.ver, it.pfx), it.cell))
    requires Loose(d, it.ver, it.pfx, Invalid)
    requires CellSt(Row(d, it.ver, it.pfx).cells[it.cell]).Inactive?
    requires Swapped(d, e, it.ver, it.pfx, DroppedOne(Row(d, it.ver, it.pfx), it.cell))
    ensures Retired(c, e, it)
  {
    var v, i, j := it.ver, it.pfx, it.cell;
    RemoveSecond(d, e, v, i, j);
    SwapTrans(c, d, e, v, i, Row(d, v, i), Row(e, v, i));
    CountedCell(Row(d, v, i).cells, j);
  }

  lemma LoweredTwice(cells: Cells)
    ensures Lowered(Lowered(cells, |cells|, Inactive), |cells|, Invalid) == Lowered(cells, |cells|, Invalid)
  {
  }

  /** Deactivating the whole row first does not change what removing it leaves. */
  lemma RemovedAllAfter(info: PfxInfo)
    requires info.state.Inactive? ==> info.cnt.act == 0
    requires !info.state.Invalid?
    ensures RemovedAll(DeactivatedAll(info)) == RemovedAll(info)
    ensures DeactivatedAll(info).cnt.act + DeactivatedAll(info).cnt.ina == info.cnt.act + info.cnt.ina
    ensures DeactivatedAll(info).cnt.act == 0 && DeactivatedAll(info).state.Inactive?
  {
    LoweredTwice(info.cells);
  }

  lemma RemoveAllFirst(c: Core, d: Core, v: Ver, i: nat)
    requires Loose(c, v, i, Invalid) && Has(c.pfxCnt.At(v), Row(c, v, i).state) && !Row(c, v, i).state.Invalid?
    requires Swapped(c, d, v, i, DeactivatedAll(Row(c, v, i)))
    requires Row(c, v, i).state.Inactive? ==> Row(c, v, i).cnt.act == 0
    ensures Row(d, v, i) == DeactivatedAll(Row(c, v, i))
    ensures Loose(d, v, i, Invalid) && d.pfxCnt.At(v).ina > 0
  {
    var info := Row(c, v, i);
    DeactivatedAllRow(info);
    StillLoose(c, d, v, i, Invalid, DeactivatedAll(info));
  }

  lemma DeactivatedAllRow(info: PfxInfo)
    requires info.cnt == Tally(RowSts(info.cells))
    ensures Rewrites(info.cells, DeactivatedAll(info).cells, Invalid)
    ensures DeactivatedAll(info).cnt == Tally(RowSts(DeactivatedAll(info).cells))
  {

    LoweredTally(info.cells, Inactive);
  }
}
