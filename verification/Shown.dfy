/** The active cells of a view as a table, and what the view's operations do to that table. */
module Shown {
  import opened Net
  import opened Khash
  import opened ViewState
  import opened RowSwap
  import opened Cascade
  import opened CellOps
  import opened Walk
  import opened Copying
  import opened RowCodec
  import opened Tables
  import opened Sent

  ghost function Showing(c: Core, store: Store): Table {
    imap q: Key | CellAt(c, q.0, q.1).state.Active? :: store(CellAt(c, q.0, q.1).path)
  }

  lemma PutShows(c: Core, d: Core, pfx: Pfx, k: PeerId, path: PathId, store: Store)
    requires CellPut(c, d, pfx, k, Cell(Active, path))
    ensures Showing(d, store) == Apply(Showing(c, store), Put((pfx, k), store(path)))
  {
    hide CellAt;
    forall q: Key ensures Agree(Showing(d, store), Apply(Showing(c, store), Put((pfx, k), store(path))), q) {
      assert CellAt(d, q.0, q.1) == if q.0 == pfx && q.1 == k then Cell(Active, path) else CellAt(c, q.0, q.1);
    }
    SameTable(Showing(d, store), Apply(Showing(c, store), Put((pfx, k), store(path))));
  }

  lemma QuietHides(c: Core, d: Core, pfx: Pfx, k: PeerId, store: Store)
    requires CellPut(c, d, pfx, k, Quiet(CellAt(c, pfx, k)))
    ensures Showing(d, store) == Apply(Showing(c, store), Del((pfx, k)))
  {
    hide CellAt;
    forall q: Key ensures Agree(Showing(d, store), Apply(Showing(c, store), Del((pfx, k))), q) {
      assert CellAt(d, q.0, q.1) == if q.0 == pfx && q.1 == k then Quiet(CellAt(c, pfx, k)) else CellAt(c, q.0, q.1);
    }
    SameTable(Showing(d, store), Apply(Showing(c, store), Del((pfx, k))));
  }

  lemma SameShows(c: Core, d: Core, store: Store)
    requires forall pfx: Pfx, k: PeerId :: CellAt(c, pfx, k).state.Active? || CellAt(d, pfx, k).state.Active? ==>
             CellAt(d, pfx, k) == CellAt(c, pfx, k)
    ensures Showing(d, store) == Showing(c, store)
  {
    hide CellAt;
    forall q: Key ensures Agree(Showing(d, store), Showing(c, store), q) {
      assert CellAt(c, q.0, q.1).state.Active? || CellAt(d, q.0, q.1).state.Active? ==>
        CellAt(d, q.0, q.1) == CellAt(c, q.0, q.1);
    }
    SameTable(Showing(d, store), Showing(c, store));
  }

  /** No cell that was valid has become invalid, and peers are as they were. */
  ghost predicate KeepsValid(c: Core, d: Core) {
    && (forall pfx: Pfx, k: PeerId :: CellAt(c, pfx, k).state.Invalid? <== CellAt(d, pfx, k).state.Invalid?)
    && (forall k: PeerId :: PeerSt(d.peers, k) == PeerSt(c.peers, k))
  }

  lemma PutKeeps(c: Core, d: Core, e: Core, pfx: Pfx, k: PeerId, x: Cell)
    requires KeepsValid(c, d) && CellPut(d, e, pfx, k, x)
    requires x.state.Invalid? ==> CellAt(d, pfx, k).state.Invalid?
    ensures KeepsValid(c, e)
  {
    hide CellAt, PeerSt;
  }

  /** The rows of a frame that the receiver can apply: the peers of an announcement are active,
      and a withdrawal finds its first cell, unless that is its only one. */
  ghost predicate CanApply(c: Core, row: PfxRow) {
    if row.op.Remove? then |row.cells| <= 1 || !CellAt(c, row.pfx, row.cells[0].peer).state.Invalid?
    else forall x | x in row.cells :: PeerSt(c.peers, x.peer).Active?
  }

  lemma StillCan(c: Core, d: Core, row: PfxRow)
    requires CanApply(c, row) && KeepsValid(c, d)
    ensures CanApply(d, row)
  {
    hide CellAt, PeerSt;
  }

  /** A cell of a prefix can be looked up exactly when it is valid. */
  lemma CellThere(c: Core, v: Ver, i: nat, k: PeerId)
    requires Inv(c) && HasRow(c, v, i)
    ensures ALL_VALID.Hits(KeySt(Row(c, v, i).cells, k)) <==> !CellAt(c, PfxKey(c, v, i), k).state.Invalid?
    ensures !CellAt(c, PfxKey(c, v, i), k).state.Invalid? ==> ALL_VALID.Hits(Row(c, v, i).state)
  {
    hide Inv, Get;
    RowIsView(c, v, i);
    assert CellAt(c, PfxKey(c, v, i), k) == RowCell(Row(c, v, i).cells, k);
    if !KeySt(Row(c, v, i).cells, k).Invalid? { MissedRow(c, v, i, k); }
  }

  lemma MissedRow(c: Core, v: Ver, i: nat, k: PeerId)
    requires Inv(c) && HasRow(c, v, i) && !KeySt(Row(c, v, i).cells, k).Invalid?
    ensures !Row(c, v, i).state.Invalid?
  {
    hide Tally, RowSts, Get;
    assert ViewState.RowOk(Row(c, v, i));
    var cells := Row(c, v, i).cells;
    CountedCell(cells, Get(cells, k));
  }

  /** A valid cell has a slot for its prefix. */
  lemma PfxThere(c: Core, pfx: Pfx, k: PeerId)
    requires Inv(c) && !CellAt(c, pfx, k).state.Invalid?
    ensures HasRow(c, pfx.Ver(), Get(c.pfxs.At(pfx.Ver()), pfx))
    ensures PfxKey(c, pfx.Ver(), Get(c.pfxs.At(pfx.Ver()), pfx)) == pfx
  {
    hide Inv, Get;
  }
}
