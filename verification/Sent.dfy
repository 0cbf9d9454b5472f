/** What a producer announces of a view, and what the rows of a frame must say about it. */
module Sent {
  import opened Net
  import opened Lists
  import opened Khash
  import opened ViewState
  import opened RowSwap
  import opened Cascade
  import opened CellOps
  import opened Walk
  import opened Sweep
  import opened Census
  import opened Copying
  import opened RowCodec
  import opened Tables

  /** The least numbers of prefixes that make a peer a full-feed peer. */
  datatype Filter = Filter(v4: nat, v6: nat)

  predicate FullFeed(peer: PeerInfo, f: Filter) { peer.cnt.v4.act >= f.v4 || peer.cnt.v6.act >= f.v6 }

  predicate Passes(peers: PeerTab, k: PeerId, f: Filter) {
    var p := Get(peers, k); p < |peers| && FullFeed(peers[p].val, f)
  }

  lemma PassesAt(peers: PeerTab, p: nat, f: Filter)
    requires p < |peers| && peers[p].Used? && Get(peers, peers[p].key) == p
    ensures Passes(peers, peers[p].key, f) <==> FullFeed(peers[p].val, f)
  {
    hide Get;
  }

  type Store = PathId -> StorePath

  /** The active cells of the full-feed peers, with their paths. */
  ghost function Announced(c: Core, f: Filter, store: Store): Table {
    imap q: Key | CellAt(c, q.0, q.1).state.Active? && Passes(c.peers, q.1, f) :: store(CellAt(c, q.0, q.1).path)
  }

  /** What makes a peer a full-feed peer, in terms of what the view shows: enough prefixes of one
      family, whichever, that it sees actively. */
  ghost predicate ShowsEnough(c: Core, k: PeerId, f: Filter) {
    |PfxsSeen(c, V4, k, Active)| >= f.v4 || |PfxsSeen(c, V6, k, Active)| >= f.v6
  }

  lemma PassesMeans(c: Core, k: PeerId, f: Filter)
    requires Inv(c) && !PeerSt(c.peers, k).Invalid?
    ensures Passes(c.peers, k, f) <==> ShowsEnough(c, k, f)
  {
    hide Inv, Get, PfxsSeen;
    var p := Get(c.peers, k);
    PeerCntIsCard(c, p, V4);
    PeerCntIsCard(c, p, V6);
    assert c.peers[p].val.cnt.At(V4) == c.peers[p].val.cnt.v4 && c.peers[p].val.cnt.At(V6) == c.peers[p].val.cnt.v6;
  }

  /** The announced table holds exactly the active cells of the peers that show enough prefixes,
      where the prefixes counted are those of the peer's active cells. */
  lemma AnnouncedMeans(c: Core, f: Filter, store: Store, q: Key)
    requires Inv(c)
    ensures q in Announced(c, f, store) <==>
            && CellAt(c, q.0, q.1).state.Active?
            && (|PfxsSeen(c, V4, q.1, Active)| >= f.v4 || |PfxsSeen(c, V6, q.1, Active)| >= f.v6)
    ensures q in Announced(c, f, store) ==> Announced(c, f, store)[q] == store(CellAt(c, q.0, q.1).path)
    ensures forall v: Ver, pfx: Pfx ::
              pfx in PfxsSeen(c, v, q.1, Active) <==> pfx.Ver() == v && CellAt(c, pfx, q.1).state.Active?
  {
    hide Inv, Get, CellAt, PfxsSeen;
    if CellAt(c, q.0, q.1).state.Active? {
      ActiveIsMatch(c, q.0, q.1);
      PassesMeans(c, q.1, f);
    }
    forall v: Ver, pfx: Pfx
      ensures pfx in PfxsSeen(c, v, q.1, Active) <==> pfx.Ver() == v && CellAt(c, pfx, q.1).state.Active?
    {
      PfxsSeenAt(c, v, q.1, Active, pfx);
    }
  }

  /** The parent copy answers the filter exactly as the view that was sent. */
  lemma CopyAnnounces(c: Core, d: Core, f: Filter, store: Store)
    requires Inv(c) && Inv(d) && IsCopy(c, d)
    ensures Announced(d, f, store) == Announced(c, f, store)
  {
    hide Inv, CellAt, Get;
    CopyCounts(c, d);
    forall q: Key ensures Agree(Announced(d, f, store), Announced(c, f, store), q) {
      assert CellAt(d, q.0, q.1) == Projected(CellAt(c, q.0, q.1));
      if CellAt(c, q.0, q.1).state.Active? {
        ActiveIsMatch(c, q.0, q.1);
        SamePasses(c, d, q.1, f);
      }
    }
    SameTable(Announced(d, f, store), Announced(c, f, store));
  }

  lemma SamePasses(c: Core, d: Core, k: PeerId, f: Filter)
    requires SameActs(c, d) && PeersCopied(c, d) && PeerSt(c.peers, k).Active?
    ensures Passes(d.peers, k, f) == Passes(c.peers, k, f)
  {
    hide Get;
    var p, q := Get(c.peers, k), Get(d.peers, k);
    assert PeerSt(d.peers, k).Active?;
    assert OnePeer(c, d, p, q);
    assert d.peers[q].val.cnt.At(V4).act == c.peers[p].val.cnt.At(V4).act;
    assert d.peers[q].val.cnt.At(V6).act == c.peers[p].val.cnt.At(V6).act;
  }

  // ---------------------------------------------------------------- what rows say

  /** The cells that a list of rows speaks about. */
  ghost function Said(rs: seq<PfxRow>): set<CellOp> {
    if |rs| == 0 then {} else Said(rs[..|rs| - 1]) + Elems(RowOps(rs[|rs| - 1]))
  }

  lemma {:induction false} SaidMore(rs: seq<PfxRow>, ss: seq<PfxRow>)
    ensures Said(rs + ss) == Said(rs) + Said(ss)
  {
    hide RowOps;
    if |ss| == 0 {
      assert rs + ss == rs;
    } else {
      var n := |ss| - 1;
      assert (rs + ss)[..|rs + ss| - 1] == rs + ss[..n];
      SaidMore(rs, ss[..n]);
    }
  }

  lemma {:induction false} SaidIsFrame(rs: seq<PfxRow>, x: CellOp)
    ensures x in Said(rs) <==> x in FrameOps(rs)
  {
    hide RowOps;
    if |rs| > 0 { SaidIsFrame(rs[..|rs| - 1], x); }
  }

  /** True of the new table, and withdrawing only what the parent had. */
  ghost predicate Sound(said: set<CellOp>, p: Table, n: Table) {
    forall x | x in said :: if x.Put? then x.key in n && n[x.key] == x.path else x.key in p && x.key !in n
  }

  ghost predicate Mentions(said: set<CellOp>, q: Key) { exists x :: x in said && x.key == q }

  /** Every change of the prefix's row is mentioned. */
  ghost predicate Covers(said: set<CellOp>, p: Table, n: Table, pfx: Pfx) {
    forall k: PeerId :: !Agree(p, n, (pfx, k)) ==> Mentions(said, (pfx, k))
  }

  lemma CoversMore(said: set<CellOp>, more: set<CellOp>, p: Table, n: Table, pfx: Pfx)
    requires Covers(said, p, n, pfx) || Covers(more, p, n, pfx)
    ensures Covers(said + more, p, n, pfx)
  {
    forall k: PeerId | !Agree(p, n, (pfx, k)) ensures Mentions(said + more, (pfx, k)) {
      if Mentions(said, (pfx, k)) {
        var x :| x in said && x.key == (pfx, k);
        assert x in said + more;
      } else {
        var x :| x in more && x.key == (pfx, k);
        assert x in said + more;
      }
    }
  }

  // ---------------------------------------------------------------- nothing more than that

  /** No two identifiers of the store stand for the same path. */
  ghost predicate OneId(store: Store) { forall a: PathId, b: PathId :: store(a) == store(b) ==> a == b }

  /** Only cells that differ are mentioned. */
  ghost predicate Lean(said: set<CellOp>, p: Table, n: Table, store: Store) {
    OneId(store) ==> forall x | x in said :: !Agree(p, n, x.key)
  }

  ghost predicate About(said: set<CellOp>, pfx: Pfx) { forall x | x in said :: x.key.0 == pfx }
  ghost predicate SilentOn(said: set<CellOp>, pfx: Pfx) { forall x | x in said :: x.key.0 != pfx }

  /** As many cells have been sent as have been mentioned, so none twice. */
  ghost predicate Frugal(said: set<CellOp>, cells: nat, p: Table, n: Table, store: Store) {
    cells == |said| && Lean(said, p, n, store)
  }

  lemma FrugalMore(said: set<CellOp>, more: set<CellOp>, cells: nat, p: Table, n: Table, store: Store, pfx: Pfx)
    requires Frugal(said, cells, p, n, store) && Lean(more, p, n, store) && About(more, pfx) && SilentOn(said, pfx)
    ensures Frugal(said + more, cells + |more|, p, n, store)
  {
    assert said !! more;
  }

  /** The cells of a frame: each once, and only such that differ. */
  ghost predicate NoWaste(xs: seq<CellOp>, p: Table, n: Table, store: Store) {
    && (forall i, j :: 0 <= i < j < |xs| ==> xs[i].key != xs[j].key)
    && (OneId(store) ==> forall i :: 0 <= i < |xs| ==> !Agree(p, n, xs[i].key))
  }

  lemma FrugalFrame(rs: seq<PfxRow>, p: Table, n: Table, store: Store)
    requires Sound(Said(rs), p, n) && Frugal(Said(rs), |FrameOps(rs)|, p, n, store)
    ensures NoWaste(FrameOps(rs), p, n, store)
  {
    hide FrameOps, Said;
    var xs := FrameOps(rs);
    forall x ensures x in Said(rs) <==> x in xs { SaidIsFrame(rs, x); }
    assert Said(rs) == Elems(xs);
    SizeDistinct(xs);
    forall i, j | 0 <= i < j < |xs| ensures xs[i].key != xs[j].key {
      assert xs[i] in Said(rs) && xs[j] in Said(rs) && xs[i] != xs[j];
    }
  }

  /** A row mentions as many cells as it has, all of its prefix. */
  lemma RowMentions(r: PfxRow)
    requires DistinctPeers(r.cells)
    ensures |Said([r])| == |r.cells| && About(Said([r]), r.pfx)
    ensures forall x | x in Said([r]) :: x.Del? <==> r.op.Remove?
  {
    OneRow(r);
    assert [r][..0] == [];
    assert Said([r]) == Elems(RowOps(r));
    DistinctSize(RowOps(r));
  }

  /** Sound rows that cover every prefix are a diff. */
  lemma SaidIsDiff(rs: seq<PfxRow>, p: Table, n: Table)
    requires Sound(Said(rs), p, n) && forall pfx: Pfx :: Covers(Said(rs), p, n, pfx)
    ensures DiffOf(FrameOps(rs), p, n)
  {
    hide RowOps, FrameOps;
    var xs := FrameOps(rs);
    forall i | 0 <= i < |xs| ensures xs[i] in Said(rs) { SaidIsFrame(rs, xs[i]); }
    forall q: Key | !Agree(p, n, q) ensures Touches(xs, q) {
      assert Covers(Said(rs), p, n, q.0);
      assert q == (q.0, q.1);
      var x :| x in Said(rs) && x.key == q;
      SaidIsFrame(rs, x);
    }
  }

  // ---------------------------------------------------------------- one row of a view

  /** The cells are exactly the announced cells of the prefix. */
  ghost predicate RowCells(cells: seq<WireCell>, op: Op, pfx: Pfx, t: Table) {
    forall x: WireCell :: x in cells <==>
      (pfx, x.peer) in t && x.path == if op.Remove? then NO_PATH else t[(pfx, x.peer)]
  }

  /** A whole row of the new view, when the parent had none of it. */
  lemma UpdateRow(cells: seq<WireCell>, op: Op, pfx: Pfx, p: Table, n: Table)
    requires RowCells(cells, op, pfx, n) && !op.Remove? && forall k: PeerId :: (pfx, k) !in p
    ensures Sound(Said([PfxRow(op, pfx, cells)]), p, n) && Covers(Said([PfxRow(op, pfx, cells)]), p, n, pfx)
    ensures forall x | x in Said([PfxRow(op, pfx, cells)]) :: !Agree(p, n, x.key)
  {
    var r := PfxRow(op, pfx, cells);
    OneRow(r);
    forall k: PeerId | !Agree(p, n, (pfx, k)) ensures Mentions(Said([r]), (pfx, k)) {
      assert WireCell(k, n[(pfx, k)]) in cells;
      var j :| 0 <= j < |cells| && cells[j] == WireCell(k, n[(pfx, k)]);
      assert RowOps(r)[j].key == (pfx, k);
    }
  }

  /** A whole row of the parent, when the new view has none of it. */
  lemma RemoveRow(cells: seq<WireCell>, pfx: Pfx, p: Table, n: Table)
    requires RowCells(cells, Remove, pfx, p) && forall k: PeerId :: (pfx, k) !in n
    ensures Sound(Said([PfxRow(Remove, pfx, cells)]), p, n) && Covers(Said([PfxRow(Remove, pfx, cells)]), p, n, pfx)
    ensures forall x | x in Said([PfxRow(Remove, pfx, cells)]) :: !Agree(p, n, x.key)
  {
    var r := PfxRow(Remove, pfx, cells);
    OneRow(r);
    forall k: PeerId | !Agree(p, n, (pfx, k)) ensures Mentions(Said([r]), (pfx, k)) {
      assert WireCell(k, NO_PATH) in cells;
      var j :| 0 <= j < |cells| && cells[j] == WireCell(k, NO_PATH);
      assert RowOps(r)[j].key == (pfx, k);
    }
  }

  lemma OneRow(r: PfxRow)
    ensures forall x :: x in Said([r]) <==> exists j :: 0 <= j < |r.cells| && x == RowOps(r)[j]
  {
    assert [r][..0] == [];
    assert Said([r]) == Elems(RowOps(r));
  }

  // ---------------------------------------------------------------- scanning a row

  /** The announced cells of the row among its first `n` slots. */
  ghost predicate PickedTo(cells: seq<WireCell>, op: Op, c: Core, v: Ver, i: nat, t: Table, n: nat)
    requires HasRow(c, v, i)
  {
    var pfx := PfxKey(c, v, i);
    forall x: WireCell :: x in cells <==>
      && (pfx, x.peer) in t && Get(Row(c, v, i).cells, x.peer) < n
      && x.path == if op.Remove? then NO_PATH else t[(pfx, x.peer)]
  }

  /** An active cell and what is announced of it. */
  lemma AnnouncedAt(c: Core, it: Iter, f: Filter, store: Store)
    requires Inv(c) && AtCell(c, it) && CellSt(Row(c, it.ver, it.pfx).cells[it.cell]).Active?
    ensures var q, t := (PfxKey(c, it.ver, it.pfx), CellKey(c, it)), Announced(c, f, store);
            && (q in t <==> FullFeed(c.peers[it.peer].val, f))
            && (q in t ==> t[q] == store(Row(c, it.ver, it.pfx).cells[it.cell].val.path))
            && Get(Row(c, it.ver, it.pfx).cells, q.1) == it.cell
  {
    hide Inv, Get;
    StandsOn(c, it);
    RowKeys(c, it.ver, it.pfx);
    GetIsSlot(Row(c, it.ver, it.pfx).cells, it.cell);
  }

  lemma PickStep(cells: seq<WireCell>, op: Op, c: Core, it: Iter, f: Filter, store: Store)
    requires Inv(c) && AtCell(c, it) && CellSt(Row(c, it.ver, it.pfx).cells[it.cell]).Active?
    requires PickedTo(cells, op, c, it.ver, it.pfx, Announced(c, f, store), it.cell)
    ensures var x := Row(c, it.ver, it.pfx).cells[it.cell];
            var more := if FullFeed(c.peers[it.peer].val, f)
              then [WireCell(x.key, if op.Remove? then NO_PATH else store(x.val.path))] else [];
            PickedTo(cells + more, op, c, it.ver, it.pfx, Announced(c, f, store), it.cell + 1)
  {
    hide Inv, Get, Announced;
    AnnouncedAt(c, it, f, store);
  }

  /** Slots that are not active add nothing. */
  lemma PickSkip(cells: seq<WireCell>, op: Op, c: Core, it: Iter, from: nat, f: Filter, store: Store)
    requires Inv(c) && Scanned(c, it, from, ACTIVE)
    requires PickedTo(cells, op, c, it.ver, it.pfx, Announced(c, f, store), from)
    ensures PickedTo(cells, op, c, it.ver, it.pfx, Announced(c, f, store), it.cell)
    ensures !it.cellValid ==> RowCells(cells, op, PfxKey(c, it.ver, it.pfx), Announced(c, f, store))
  {
    hide Inv, Get;
    var row, pfx, t := Row(c, it.ver, it.pfx).cells, PfxKey(c, it.ver, it.pfx), Announced(c, f, store);
    RowIsView(c, it.ver, it.pfx);
    forall k: PeerId | (pfx, k) in t
      ensures var j := Get(row, k); j < |row| && CellSt(row[j]).Active?
    {
      assert CellAt(c, pfx, k) == RowCell(row, k);
    }
    forall x: WireCell | (pfx, x.peer) in t
      ensures Get(row, x.peer) < from <==> Get(row, x.peer) < it.cell
    {
      assert CellSt(row[Get(row, x.peer)]).Active?;
    }
  }

  // ---------------------------------------------------------------- two rows of one prefix

  ghost predicate HasPeer(cells: seq<WireCell>, k: PeerId) { exists x :: x in cells && x.peer == k }

  /** What the update and the removal row of one prefix may say. */
  ghost predicate DiffSound(upd: seq<WireCell>, rem: seq<WireCell>, pfx: Pfx, p: Table, n: Table) {
    && (forall x: WireCell | x in upd :: (pfx, x.peer) in n && n[(pfx, x.peer)] == x.path)
    && (forall x: WireCell | x in rem :: (pfx, x.peer) in p && (pfx, x.peer) !in n && x.path == NO_PATH)
  }

  /** Only cells that differ are updated. */
  ghost predicate LeanCells(upd: seq<WireCell>, pfx: Pfx, p: Table, n: Table, store: Store) {
    OneId(store) ==> forall x: WireCell | x in upd :: !Agree(p, n, (pfx, x.peer))
  }

  ghost predicate Settled(upd: seq<WireCell>, rem: seq<WireCell>, pfx: Pfx, p: Table, n: Table, k: PeerId) {
    Agree(p, n, (pfx, k)) || HasPeer(upd, k) || HasPeer(rem, k)
  }

  /** Every active cell among the first `m` slots of the row is settled. */
  ghost predicate SettledTo(upd: seq<WireCell>, rem: seq<WireCell>, pfx: Pfx, p: Table, n: Table, cells: Cells,
                            m: nat) {
    forall k: PeerId :: KeySt(cells, k).Active? && Get(cells, k) < m ==> Settled(upd, rem, pfx, p, n, k)
  }

  lemma SettledStep(upd: seq<WireCell>, rem: seq<WireCell>, upd': seq<WireCell>, rem': seq<WireCell>,
                    pfx: Pfx, p: Table, n: Table, cells: Cells, m: nat)
    requires SettledTo(upd, rem, pfx, p, n, cells, m) && upd <= upd' && rem <= rem'
    requires Unique(cells) && m < |cells| && cells[m].Used? && Settled(upd', rem', pfx, p, n, cells[m].key)
    ensures SettledTo(upd', rem', pfx, p, n, cells, m + 1)
  {
    hide Get, Unique;
    forall k: PeerId | KeySt(cells, k).Active? && Get(cells, k) < m + 1 ensures Settled(upd', rem', pfx, p, n, k) {
      if Get(cells, k) < m {
        SettledMore(upd, rem, upd', rem', pfx, p, n, k);
      }
    }
  }

  lemma SettledMore(upd: seq<WireCell>, rem: seq<WireCell>, upd': seq<WireCell>, rem': seq<WireCell>, pfx: Pfx,
                    p: Table, n: Table, k: PeerId)
    requires Settled(upd, rem, pfx, p, n, k) && upd <= upd' && rem <= rem'
    ensures Settled(upd', rem', pfx, p, n, k)
  {
    if HasPeer(upd, k) {
      var x :| x in upd && x.peer == k;
      assert x in upd';
    } else if HasPeer(rem, k) {
      var x :| x in rem && x.peer == k;
      assert x in rem';
    }
  }

  lemma SettledSkip(upd: seq<WireCell>, rem: seq<WireCell>, pfx: Pfx, p: Table, n: Table, c: Core, it: Iter, from: nat)
    requires Scanned(c, it, from, ACTIVE) && SettledTo(upd, rem, pfx, p, n, Row(c, it.ver, it.pfx).cells, from)
    ensures SettledTo(upd, rem, pfx, p, n, Row(c, it.ver, it.pfx).cells, it.cell)
  {
    hide Get, Settled;
    var cells := Row(c, it.ver, it.pfx).cells;
    forall k: PeerId | KeySt(cells, k).Active? && Get(cells, k) < it.cell ensures Get(cells, k) < from {
      assert CellSt(cells[Get(cells, k)]).Active?;
    }
  }

  /** What is announced of the prefix's cell for `k`, read off the row. */
  lemma AnnouncedRow(c: Core, v: Ver, i: nat, k: PeerId, f: Filter, store: Store)
    requires Inv(c) && HasRow(c, v, i)
    ensures var q, t, cells := (PfxKey(c, v, i), k), Announced(c, f, store), Row(c, v, i).cells;
            && (q in t <==> KeySt(cells, k).Active? && Passes(c.peers, k, f))
            && (q in t ==> t[q] == store(cells[Get(cells, k)].val.path))
  {
    hide Inv, Get;
    RowIsView(c, v, i);
    assert CellAt(c, PfxKey(c, v, i), k) == RowCell(Row(c, v, i).cells, k);
  }

  /** When both rows have been scanned, the two lists say all that changed. */
  lemma DiffRows(upd: seq<WireCell>, rem: seq<WireCell>, c: Core, v: Ver, i: nat, d: Core, w: Ver, h: nat, f: Filter,
                 store: Store)
    requires Inv(c) && HasRow(c, v, i) && Inv(d) && HasRow(d, w, h) && PfxKey(c, v, i) == PfxKey(d, w, h)
    requires var p, n := Announced(d, f, store), Announced(c, f, store);
      && DiffSound(upd, rem, PfxKey(c, v, i), p, n)
      && SettledTo(upd, rem, PfxKey(c, v, i), p, n, Row(c, v, i).cells, |Row(c, v, i).cells|)
      && SettledTo(upd, rem, PfxKey(c, v, i), p, n, Row(d, w, h).cells, |Row(d, w, h).cells|)
    ensures forall k: PeerId :: Settled(upd, rem, PfxKey(c, v, i), Announced(d, f, store), Announced(c, f, store), k)
  {
    hide Inv, Get, Announced;
    var pfx, p, n := PfxKey(c, v, i), Announced(d, f, store), Announced(c, f, store);
    forall k: PeerId ensures Settled(upd, rem, pfx, p, n, k) {
      AnnouncedRow(c, v, i, k, f, store);
      AnnouncedRow(d, w, h, k, f, store);
    }
  }

  /** Saying the right thing about one cell settles it. */
  lemma CellSaid(upd: seq<WireCell>, rem: seq<WireCell>, u: seq<WireCell>, r: seq<WireCell>, pfx: Pfx, p: Table,
                 n: Table, k: PeerId)
    requires DiffSound(upd, rem, pfx, p, n)
    requires |u| > 0 ==> (pfx, k) in n && u == [WireCell(k, n[(pfx, k)])]
    requires |r| > 0 ==> (pfx, k) in p && (pfx, k) !in n && r == [WireCell(k, NO_PATH)]
    requires Agree(p, n, (pfx, k)) || |u| > 0 || |r| > 0
    ensures DiffSound(upd + u, rem + r, pfx, p, n) && Settled(upd + u, rem + r, pfx, p, n, k)
  {
    if |u| > 0 { assert u[0] in upd + u; }
    if |r| > 0 { assert r[0] in rem + r; }
  }

  /** A cell of the parent: gone from the new view's row and said so, or settled before. */
  lemma OldCell(upd: seq<WireCell>, rem: seq<WireCell>, r: seq<WireCell>, pfx: Pfx, p: Table, n: Table, all: Cells,
                k: PeerId)
    requires DiffSound(upd, rem, pfx, p, n) && SettledTo(upd, rem, pfx, p, n, all, |all|)
    requires (pfx, k) in n ==> KeySt(all, k).Active?
    requires if (pfx, k) in p && !KeySt(all, k).Active? then r == [WireCell(k, NO_PATH)] else r == []
    ensures DiffSound(upd, rem + r, pfx, p, n) && Settled(upd, rem + r, pfx, p, n, k)
  {
    hide Get;
    if |r| > 0 {
      CellSaid(upd, rem, [], r, pfx, p, n, k);
      assert upd + [] == upd;
    } else {
      assert rem + r == rem;
    }
  }

  lemma SettledStill(upd: seq<WireCell>, rem: seq<WireCell>, upd': seq<WireCell>, rem': seq<WireCell>,
                     pfx: Pfx, p: Table, n: Table, cells: Cells, m: nat)
    requires SettledTo(upd, rem, pfx, p, n, cells, m) && upd <= upd' && rem <= rem'
    ensures SettledTo(upd', rem', pfx, p, n, cells, m)
  {
    hide Get, Settled;
    forall k: PeerId | KeySt(cells, k).Active? && Get(cells, k) < m ensures Settled(upd', rem', pfx, p, n, k) {
      SettledMore(upd, rem, upd', rem', pfx, p, n, k);
    }
  }

  lemma DiffRowsSaid(upd: seq<WireCell>, rem: seq<WireCell>, pfx: Pfx, p: Table, n: Table)
    requires DiffSound(upd, rem, pfx, p, n) && forall k: PeerId :: Settled(upd, rem, pfx, p, n, k)
    ensures Sound(Said([PfxRow(Update, pfx, upd)]), p, n) && Sound(Said([PfxRow(Remove, pfx, rem)]), p, n)
    ensures Covers(Said([PfxRow(Update, pfx, upd)]) + Said([PfxRow(Remove, pfx, rem)]), p, n, pfx)
  {
    hide Agree;
    var u, r := PfxRow(Update, pfx, upd), PfxRow(Remove, pfx, rem);
    OneRow(u);
    OneRow(r);
    forall k: PeerId | !Agree(p, n, (pfx, k)) ensures Mentions(Said([u]) + Said([r]), (pfx, k)) {
      assert Settled(upd, rem, pfx, p, n, k);
      if HasPeer(upd, k) { PeerMentioned(u, k); } else { PeerMentioned(r, k); }
    }
  }

  lemma DiffRowsLean(upd: seq<WireCell>, rem: seq<WireCell>, pfx: Pfx, p: Table, n: Table, store: Store)
    requires DiffSound(upd, rem, pfx, p, n) && LeanCells(upd, pfx, p, n, store) && DistinctPeers(upd)
    requires DistinctPeers(rem)
    ensures var more := Said([PfxRow(Update, pfx, upd)]) + Said([PfxRow(Remove, pfx, rem)]);
            Lean(more, p, n, store) && About(more, pfx) && |more| == |upd| + |rem|
  {
    hide Said, DiffSound, LeanCells, OneId, Agree;
    var u, r := PfxRow(Update, pfx, upd), PfxRow(Remove, pfx, rem);
    RowMentions(u);
    RowMentions(r);
    assert Said([u]) !! Said([r]);
    if OneId(store) {
      forall x: WireCell | x in upd ensures !Agree(p, n, (pfx, x.peer)) { UpdatesDiffer(upd, pfx, p, n, store, x); }
      forall x: WireCell | x in rem ensures !Agree(p, n, (pfx, x.peer)) { RemovalsDiffer(upd, rem, pfx, p, n, x); }
      RowDiffers(u, p, n);
      RowDiffers(r, p, n);
    }
  }

  lemma UpdatesDiffer(upd: seq<WireCell>, pfx: Pfx, p: Table, n: Table, store: Store, x: WireCell)
    requires LeanCells(upd, pfx, p, n, store) && OneId(store) && x in upd
    ensures !Agree(p, n, (pfx, x.peer))
  {
    hide OneId;
  }

  lemma RemovalsDiffer(upd: seq<WireCell>, rem: seq<WireCell>, pfx: Pfx, p: Table, n: Table, x: WireCell)
    requires DiffSound(upd, rem, pfx, p, n) && x in rem
    ensures !Agree(p, n, (pfx, x.peer))
  {
  }

  lemma RowDiffers(r: PfxRow, p: Table, n: Table)
    requires forall x: WireCell | x in r.cells :: !Agree(p, n, (r.pfx, x.peer))
    ensures forall x | x in Said([r]) :: !Agree(p, n, x.key)
  {
    hide Said, Agree;
    OneRow(r);
    forall x | x in Said([r]) ensures !Agree(p, n, x.key) {
      var j :| 0 <= j < |r.cells| && x == RowOps(r)[j];
      assert r.cells[j] in r.cells;
    }
  }

  lemma PeerMentioned(r: PfxRow, k: PeerId)
    requires HasPeer(r.cells, k)
    ensures Mentions(Said([r]), (r.pfx, k))
  {
    OneRow(r);
    var x :| x in r.cells && x.peer == k;
    var j :| 0 <= j < |r.cells| && r.cells[j] == x;
    assert RowOps(r)[j].key == (r.pfx, k);
    assert RowOps(r)[j] in Said([r]);
  }

  // ---------------------------------------------------------------- all prefixes of a view

  ghost predicate ActivePfx(c: Core, pfx: Pfx) {
    var i := Get(c.pfxs.At(pfx.Ver()), pfx);
    i < |c.pfxs.At(pfx.Ver())| && c.pfxs.At(pfx.Ver())[i].val.state.Active?
  }

  /** Every active prefix of the view before slot `at` is covered. */
  ghost predicate CoveredTo(said: set<CellOp>, p: Table, n: Table, c: Core, at: nat) {
    forall pfx: Pfx :: ActivePfx(c, pfx) && PfxPos(c, pfx) < at ==> Covers(said, p, n, pfx)
  }

  /** Only active prefixes of the view before slot `at` have been mentioned. */
  ghost predicate Only(said: set<CellOp>, c: Core, at: nat) {
    forall x | x in said :: ActivePfx(c, x.key.0) && PfxPos(c, x.key.0) < at
  }

  /** ... and, after them, prefixes of the parent before slot `at`. */
  ghost predicate OnlyOld(said: set<CellOp>, c: Core, d: Core, at: nat) {
    forall x | x in said :: ActivePfx(c, x.key.0) || PfxPos(d, x.key.0) < at
  }

  lemma OnlyStep(said: set<CellOp>, more: set<CellOp>, c: Core, it: Iter)
    requires Inv(c) && HasRow(c, it.ver, it.pfx) && Row(c, it.ver, it.pfx).state.Active?
    requires Only(said, c, Where(c, it)) && About(more, PfxKey(c, it.ver, it.pfx))
    ensures SilentOn(said, PfxKey(c, it.ver, it.pfx)) && Only(said + more, c, Where(c, it) + 1)
  {
    hide Inv, Get;
    RowKeys(c, it.ver, it.pfx);
    GetIsSlot(c.pfxs.At(it.ver), it.pfx);
  }

  lemma OnlyOldStep(said: set<CellOp>, more: set<CellOp>, c: Core, d: Core, it: Iter)
    requires Inv(d) && HasRow(d, it.ver, it.pfx) && !ActivePfx(c, PfxKey(d, it.ver, it.pfx))
    requires OnlyOld(said, c, d, Where(d, it)) && About(more, PfxKey(d, it.ver, it.pfx))
    ensures SilentOn(said, PfxKey(d, it.ver, it.pfx)) && OnlyOld(said + more, c, d, Where(d, it) + 1)
  {
    hide Inv, Get;
    RowKeys(d, it.ver, it.pfx);
    GetIsSlot(d.pfxs.At(it.ver), it.pfx);
  }

  lemma CoverStep(said: set<CellOp>, more: set<CellOp>, p: Table, n: Table, c: Core, it: Iter)
    requires Inv(c) && HasRow(c, it.ver, it.pfx) && CoveredTo(said, p, n, c, Where(c, it))
    requires Covers(more, p, n, PfxKey(c, it.ver, it.pfx))
    ensures CoveredTo(said + more, p, n, c, Where(c, it) + 1)
  {
    hide Inv, Get, Covers;
    RowKeys(c, it.ver, it.pfx);
    forall pfx: Pfx | ActivePfx(c, pfx) && PfxPos(c, pfx) < Where(c, it) + 1 ensures Covers(said + more, p, n, pfx) {
      if PfxPos(c, pfx) == Where(c, it) {
        assert SlotAt(c, PfxPos(c, pfx)).key == pfx;
      }
      CoversMore(said, more, p, n, pfx);
    }
  }

  lemma CoverMore(said: set<CellOp>, more: set<CellOp>, p: Table, n: Table, c: Core, at: nat)
    requires CoveredTo(said, p, n, c, at)
    ensures CoveredTo(said + more, p, n, c, at)
  {
    hide Covers, ActivePfx, PfxPos;
    forall pfx: Pfx | ActivePfx(c, pfx) && PfxPos(c, pfx) < at ensures Covers(said + more, p, n, pfx) {
      CoversMore(said, more, p, n, pfx);
    }
  }

  lemma CoverMove(said: set<CellOp>, p: Table, n: Table, c: Core, from: nat, r: Iter)
    requires PfxMoved(c, from, None, ACTIVE, r) && CoveredTo(said, p, n, c, from)
    ensures CoveredTo(said, p, n, c, Where(c, r))
  {
    hide Covers, Get;
    forall pfx: Pfx | ActivePfx(c, pfx) ensures PfxPos(c, pfx) < Span(c) && PfxHit(c, PfxPos(c, pfx), ACTIVE) {
      assert SlotAt(c, PfxPos(c, pfx)) == c.pfxs.At(pfx.Ver())[Get(c.pfxs.At(pfx.Ver()), pfx)];
    }
  }

  /** A prefix that is not active announces nothing. */
  lemma SilentPfx(c: Core, pfx: Pfx, f: Filter, store: Store)
    requires Inv(c) && !ActivePfx(c, pfx)
    ensures forall k: PeerId :: (pfx, k) !in Announced(c, f, store)
  {
    hide Inv, Get;
    forall k: PeerId | CellAt(c, pfx, k).state.Active? ensures false { ActiveIsMatch(c, pfx, k); }
  }

  /** Both walks done: every change is covered. */
  lemma CoverDone(said: set<CellOp>, c: Core, d: Core, f: Filter, store: Store)
    requires Inv(c) && Inv(d)
    requires CoveredTo(said, Announced(d, f, store), Announced(c, f, store), c, Span(c))
    requires CoveredTo(said, Announced(d, f, store), Announced(c, f, store), d, Span(d))
    ensures forall pfx: Pfx :: Covers(said, Announced(d, f, store), Announced(c, f, store), pfx)
  {
    hide Inv, Get, Announced;
    var p, n := Announced(d, f, store), Announced(c, f, store);
    forall pfx: Pfx ensures Covers(said, p, n, pfx) {
      if !ActivePfx(c, pfx) { SilentPfx(c, pfx, f, store); }
      if !ActivePfx(d, pfx) { SilentPfx(d, pfx, f, store); }
    }
  }

  lemma CoverSync(said: set<CellOp>, c: Core, f: Filter, store: Store)
    requires Inv(c) && CoveredTo(said, imap[], Announced(c, f, store), c, Span(c))
    ensures forall pfx: Pfx :: Covers(said, imap[], Announced(c, f, store), pfx)
  {
    hide Inv, Get, Announced;
    forall pfx: Pfx ensures Covers(said, imap[], Announced(c, f, store), pfx) {
      if !ActivePfx(c, pfx) { SilentPfx(c, pfx, f, store); }
    }
  }

  // ---------------------------------------------------------------- no peer twice in a row

  /** Distinct peers, each with an active cell among the first `m` slots of the row. */
  ghost predicate Ordered(cells: seq<WireCell>, row: Cells, m: nat) {
    DistinctPeers(cells) && forall x | x in cells :: KeySt(row, x.peer).Active? && Get(row, x.peer) < m
  }

  lemma OrderedAdd(cells: seq<WireCell>, more: seq<WireCell>, row: Cells, m: nat)
    requires Ordered(cells, row, m) && Unique(row) && m < |row| && CellSt(row[m]).Active?
    requires more == [] || (|more| == 1 && more[0].peer == row[m].key)
    ensures Ordered(cells + more, row, m + 1)
  {
    hide Get;
    GetIsSlot(row, m);
    if |more| == 1 {
      forall i | 0 <= i < |cells| ensures cells[i].peer != row[m].key { assert cells[i] in cells; }
    }
  }

  /** The same for removals: cells still active in the new row came first. */
  ghost predicate OrderedOld(cells: seq<WireCell>, all: Cells, row: Cells, m: nat) {
    DistinctPeers(cells) && forall x | x in cells :: KeySt(all, x.peer).Active? || Get(row, x.peer) < m
  }

  lemma OrderedMore(cells: seq<WireCell>, more: seq<WireCell>, all: Cells, row: Cells, m: nat)
    requires OrderedOld(cells, all, row, m) && Unique(row) && m < |row| && row[m].Used?
    requires more == [] || (|more| == 1 && more[0].peer == row[m].key && !KeySt(all, row[m].key).Active?)
    ensures OrderedOld(cells + more, all, row, m + 1)
  {
    hide Get;
    GetIsSlot(row, m);
    if |more| == 1 {
      forall i | 0 <= i < |cells| ensures cells[i].peer != row[m].key { assert cells[i] in cells; }
    }
  }

  /** A row as it goes out: not empty, no peer twice, and no path in a removal. */
  ghost predicate GoodRow(r: PfxRow) {
    |r.cells| > 0 && DistinctPeers(r.cells) && (r.op.Remove? ==> forall x | x in r.cells :: x.path == NO_PATH)
  }

  /** What the row format can carry of a table. */
  ghost predicate Carriable(t: Table) {
    forall q: Key | q in t :: q.0.addr.Ok() && q.1 < END_OF_PEERS && t[q].Ok()
  }

  /** The rows of a diff between two tables that the format can carry all fit the format. */
  lemma FrameFitsFormat(rs: seq<PfxRow>, p: Table, n: Table)
    requires DiffOf(FrameOps(rs), p, n) && Carriable(p) && Carriable(n) && forall r | r in rs :: GoodRow(r)
    ensures AllFit(rs)
  {
    hide FrameOps, Fits;
    forall i | 0 <= i < |rs| ensures Fits(rs[i]) {
      assert rs[i] in rs;
      RowFitsFormat(rs, rs[i], p, n);
    }
  }

  lemma RowFitsFormat(rs: seq<PfxRow>, r: PfxRow, p: Table, n: Table)
    requires DiffOf(FrameOps(rs), p, n) && Carriable(p) && Carriable(n) && r in rs && GoodRow(r)
    ensures Fits(r)
  {
    hide FrameOps;
    forall j | 0 <= j < |r.cells| ensures CellFits(r.op, r.cells[j]) && r.pfx.addr.Ok() {
      RowOpIn(rs, r, j);
      var i :| 0 <= i < |FrameOps(rs)| && FrameOps(rs)[i] == RowOps(r)[j];
      assert r.cells[j] in r.cells;
    }
    assert CellFits(r.op, r.cells[0]) && r.pfx.addr.Ok();
    DistinctRowFits(r);
  }

  lemma {:induction false} RowOpIn(rs: seq<PfxRow>, row: PfxRow, j: nat)
    requires row in rs && j < |row.cells|
    ensures RowOps(row)[j] in FrameOps(rs)
  {
    hide RowOps;
    var n := |rs| - 1;
    if rs[n] != row {
      assert row in rs[..n];
      RowOpIn(rs[..n], row, j);
    }
  }
}
