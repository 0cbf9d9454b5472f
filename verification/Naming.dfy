/** Frames as they arrive, and the names of their peers: a receiver files the cells of remote
    peer `k` under its own name for the same peer. */
module Naming {
  import opened Net
  import opened RowCodec
  import opened Tables

  /** The local names of remote peers; zero means that the peer has no name yet. */
  type IdMap = seq<Id16>

  predicate Named(ids: IdMap, k: PeerId) { k < |ids| && ids[k] != 0 }

  ghost predicate AllNamed(ids: IdMap, row: PfxRow) { forall x | x in row.cells :: Named(ids, x.peer) }

  /** The row with its peers under their local names. */
  ghost function Renamed(ids: IdMap, row: PfxRow): PfxRow
    requires AllNamed(ids, row)
  {
    row.(cells := seq(|row.cells|,
      j requires 0 <= j < |row.cells| => WireCell(ids[row.cells[j].peer], row.cells[j].path)))
  }

  /** A prefix message; of a broken one, the rows that were read before the break, the last of
      them perhaps without some of its cells. */
  datatype Msg = Rows(rows: seq<PfxRow>) | End(time: nat, cnt: nat) | Broken(rows: seq<PfxRow>)
  datatype Outcome = Done | Failed | Starved

  /** The rows that are applied before the end of the frame, or before it breaks. */
  ghost function RowsOf(msgs: seq<Msg>): seq<PfxRow> {
    if |msgs| == 0 || msgs[0].End? then [] else if msgs[0].Broken? then msgs[0].rows
      else msgs[0].rows + RowsOf(msgs[1..])
  }

  ghost function Ending(msgs: seq<Msg>): Option<Msg> {
    if |msgs| == 0 then None else if msgs[0].Rows? then Ending(msgs[1..]) else Some(msgs[0])
  }

  /** A frame is accepted exactly when its end record counts the rows that came. */
  ghost function Verdict(msgs: seq<Msg>): Outcome {
    match Ending(msgs)
    case None => Starved
    case Some(End(_, cnt)) => if cnt == |RowsOf(msgs)| then Done else Failed
    case Some(_) => Failed
  }

  /** What arrives of a frame: the peers that were listed, whether their list came to its end,
      and the prefix messages, which are read only then. */
  datatype Arrival = Arrival(peers: seq<(PeerId, PeerSig)>, heard: bool, msgs: seq<Msg>) {
    ghost function Rows(): seq<PfxRow> { if heard then RowsOf(msgs) else [] }
    ghost function Outcome(): Outcome { if heard then Verdict(msgs) else Failed }

    /** The end record sets the time, whatever it counts. */
    ghost function Time(before: nat): nat {
      if heard && Ending(msgs).Some? && Ending(msgs).value.End? then Ending(msgs).value.time else before
    }
  }

  ghost predicate AllNamedRows(ids: IdMap, rs: seq<PfxRow>) { forall row | row in rs :: AllNamed(ids, row) }

  ghost function RenamedRows(ids: IdMap, rs: seq<PfxRow>): seq<PfxRow>
    requires AllNamedRows(ids, rs)
  {
    seq(|rs|, i requires 0 <= i < |rs| => assert rs[i] in rs; Renamed(ids, rs[i]))
  }

  lemma NothingApplied(t: Table, ids: IdMap)
    ensures AllNamedRows(ids, []) && ApplyAll(t, FrameOps(RenamedRows(ids, []))) == t
  {
  }

  lemma RowApplied(t: Table, ids: IdMap, done: seq<PfxRow>, row: PfxRow)
    requires AllNamedRows(ids, done) && AllNamed(ids, row)
    ensures AllNamedRows(ids, done + [row])
    ensures ApplyAll(ApplyAll(t, FrameOps(RenamedRows(ids, done))), RowOps(Renamed(ids, row))) ==
            ApplyAll(t, FrameOps(RenamedRows(ids, done + [row])))
  {
    hide ApplyAll, Renamed, AllNamed;
    var rs := RenamedRows(ids, done + [row]);
    assert rs[..|rs| - 1] == RenamedRows(ids, done);
    ApplyMore(t, FrameOps(RenamedRows(ids, done)), RowOps(Renamed(ids, row)));
  }

  lemma RowsApplied(t: Table, ids: IdMap, done: seq<PfxRow>, rows: seq<PfxRow>)
    requires AllNamedRows(ids, done) && AllNamedRows(ids, rows)
    ensures AllNamedRows(ids, done + rows)
    ensures ApplyAll(ApplyAll(t, FrameOps(RenamedRows(ids, done))), FrameOps(RenamedRows(ids, rows))) ==
            ApplyAll(t, FrameOps(RenamedRows(ids, done + rows)))
  {
    hide ApplyAll, Renamed, AllNamed, FrameOps;
    assert RenamedRows(ids, done + rows) == RenamedRows(ids, done) + RenamedRows(ids, rows);
    FrameMore(RenamedRows(ids, done), RenamedRows(ids, rows));
    ApplyMore(t, FrameOps(RenamedRows(ids, done)), FrameOps(RenamedRows(ids, rows)));
  }

  // ---------------------------------------------------------------- one renaming for all

  /** The receiver's names for the peers of one producer. */
  datatype Names = Names(peers: iset<PeerId>, to: PeerId -> PeerId)

  ghost predicate Injective(ren: Names) {
    forall k: PeerId, h: PeerId :: k in ren.peers && h in ren.peers && ren.to(k) == ren.to(h) ==> k == h
  }

  /** The map names peers as `ren` does, as far as it goes. */
  ghost predicate NamesBy(ids: IdMap, ren: Names) {
    forall k: PeerId :: Named(ids, k) ==> k in ren.peers && ids[k] == ren.to(k)
  }

  /** A receiver's table, read under the producer's names. */
  ghost function Pull(t: Table, ren: Names): Table {
    imap q: Key | q.1 in ren.peers && (q.0, ren.to(q.1)) in t :: t[(q.0, ren.to(q.1))]
  }

  /** Every cell of the table belongs to a peer of the producer. */
  ghost predicate InRange(t: Table, ren: Names) {
    forall q: Key | q in t :: exists k: PeerId :: k in ren.peers && ren.to(k) == q.1
  }

  function RenOp(x: CellOp, ren: Names): CellOp {
    match x
    case Put(q, p) => Put((q.0, ren.to(q.1)), p)
    case Del(q) => Del((q.0, ren.to(q.1)))
  }

  function RenOps(xs: seq<CellOp>, ren: Names): (ys: seq<CellOp>)
    ensures |ys| == |xs| && forall i :: 0 <= i < |xs| ==> ys[i] == RenOp(xs[i], ren)
  {
    seq(|xs|, i requires 0 <= i < |xs| => RenOp(xs[i], ren))
  }

  lemma PullApply(t: Table, x: CellOp, ren: Names)
    requires Injective(ren) && x.key.1 in ren.peers
    ensures Pull(Apply(t, RenOp(x, ren)), ren) == Apply(Pull(t, ren), x)
  {
    forall q: Key ensures Agree(Pull(Apply(t, RenOp(x, ren)), ren), Apply(Pull(t, ren), x), q) { PullAt(t, x, ren, q); }
    hide Pull, Apply, RenOp, Injective;
    SameTable(Pull(Apply(t, RenOp(x, ren)), ren), Apply(Pull(t, ren), x));
  }

  lemma PullAt(t: Table, x: CellOp, ren: Names, q: Key)
    requires Injective(ren) && x.key.1 in ren.peers
    ensures Agree(Pull(Apply(t, RenOp(x, ren)), ren), Apply(Pull(t, ren), x), q)
  {
    var r := (q.0, ren.to(q.1));
    var t' := Apply(t, RenOp(x, ren));
    if q.1 in ren.peers {
      assert r == RenOp(x, ren).key <==> q == x.key;
      assert q in Pull(t, ren) <==> r in t;
      assert q in Pull(t', ren) <==> r in t';
    }
  }

  lemma RangeKept(t: Table, x: CellOp, ren: Names)
    requires x.key.1 in ren.peers && InRange(t, ren)
    ensures InRange(Apply(t, RenOp(x, ren)), ren)
  {
    forall q: Key | q in Apply(t, RenOp(x, ren)) ensures exists k: PeerId :: k in ren.peers && ren.to(k) == q.1 {
      if q == RenOp(x, ren).key { assert ren.to(x.key.1) == q.1; } else { assert q in t; }
    }
  }

  ghost predicate KeysOf(xs: seq<CellOp>, ren: Names) { forall i :: 0 <= i < |xs| ==> xs[i].key.1 in ren.peers }

  lemma {:induction false} PullAll(t: Table, xs: seq<CellOp>, ren: Names)
    requires Injective(ren) && KeysOf(xs, ren)
    ensures Pull(ApplyAll(t, RenOps(xs, ren)), ren) == ApplyAll(Pull(t, ren), xs)
    ensures InRange(t, ren) ==> InRange(ApplyAll(t, RenOps(xs, ren)), ren)
  {
    hide Apply, Pull, InRange, RenOp, Injective;
    if |xs| > 0 {
      var n := |xs| - 1;
      PullAll(t, xs[..n], ren);
      assert RenOps(xs, ren)[..n] == RenOps(xs[..n], ren);
      PullApply(ApplyAll(t, RenOps(xs[..n], ren)), xs[n], ren);
      if InRange(t, ren) { RangeKept(ApplyAll(t, RenOps(xs[..n], ren)), xs[n], ren); }
    }
  }

  // ---------------------------------------------------------------- several producers, one table

  /** No local name is shared. */
  ghost predicate Disjoint(ren: Names, other: Names) {
    forall k: PeerId, h: PeerId :: k in ren.peers && h in other.peers ==> ren.to(k) != other.to(h)
  }

  lemma OtherApply(t: Table, x: CellOp, ren: Names, other: Names)
    requires Disjoint(ren, other) && x.key.1 in ren.peers
    ensures Pull(Apply(t, RenOp(x, ren)), other) == Pull(t, other)
  {
    var u := Apply(t, RenOp(x, ren));
    forall q: Key ensures Agree(Pull(u, other), Pull(t, other), q) {
      if q.1 in other.peers { assert (q.0, other.to(q.1)) != RenOp(x, ren).key; }
    }
    hide Pull, Apply, RenOp;
    SameTable(Pull(u, other), Pull(t, other));
  }

  /** The cells of one producer leave the part of every other producer alone. */
  lemma {:induction false} OtherAll(t: Table, xs: seq<CellOp>, ren: Names, other: Names)
    requires Disjoint(ren, other) && KeysOf(xs, ren)
    ensures Pull(ApplyAll(t, RenOps(xs, ren)), other) == Pull(t, other)
  {
    hide Apply, Pull, RenOp, Disjoint;
    if |xs| > 0 {
      var n := |xs| - 1;
      OtherAll(t, xs[..n], ren, other);
      assert RenOps(xs, ren)[..n] == RenOps(xs[..n], ren);
      OtherApply(ApplyAll(t, RenOps(xs[..n], ren)), xs[n], ren, other);
    }
  }

  /** The table without the cells of one local peer. */
  ghost function Without(t: Table, k: PeerId): Table { imap q: Key | q in t && q.1 != k :: t[q] }

  /** Dropping a peer of one producer takes exactly its cells out of that producer's part ... */
  lemma OwnDrop(t: Table, k: PeerId, ren: Names)
    requires Injective(ren) && k in ren.peers
    ensures Pull(Without(t, ren.to(k)), ren) == Without(Pull(t, ren), k)
  {
    forall q: Key ensures Agree(Pull(Without(t, ren.to(k)), ren), Without(Pull(t, ren), k), q) {
      if q.1 in ren.peers { assert ren.to(q.1) == ren.to(k) <==> q.1 == k; }
    }
    SameTable(Pull(Without(t, ren.to(k)), ren), Without(Pull(t, ren), k));
  }

  /** ... and nothing out of any other. */
  lemma OtherDrop(t: Table, k: PeerId, ren: Names, other: Names)
    requires Disjoint(ren, other) && k in ren.peers
    ensures Pull(Without(t, ren.to(k)), other) == Pull(t, other)
  {
    forall q: Key ensures Agree(Pull(Without(t, ren.to(k)), other), Pull(t, other), q) {
      if q.1 in other.peers { assert other.to(q.1) != ren.to(k); }
    }
    SameTable(Pull(Without(t, ren.to(k)), other), Pull(t, other));
  }

  lemma RowRenamed(ids: IdMap, row: PfxRow, ren: Names)
    requires NamesBy(ids, ren) && AllNamed(ids, row)
    ensures RowOps(Renamed(ids, row)) == RenOps(RowOps(row), ren) && KeysOf(RowOps(row), ren)
  {
    forall j | 0 <= j < |row.cells| ensures Named(ids, row.cells[j].peer) { assert row.cells[j] in row.cells; }
  }

  lemma {:induction false} FrameRenamed(ids: IdMap, rs: seq<PfxRow>, ren: Names)
    requires NamesBy(ids, ren) && AllNamedRows(ids, rs)
    ensures FrameOps(RenamedRows(ids, rs)) == RenOps(FrameOps(rs), ren) && KeysOf(FrameOps(rs), ren)
  {
    hide RowOps, Renamed, AllNamed, NamesBy;
    if |rs| > 0 {
      var n := |rs| - 1;
      assert rs[n] in rs;
      FrameRenamed(ids, rs[..n], ren);
      assert RenamedRows(ids, rs)[..n] == RenamedRows(ids, rs[..n]);
      RowRenamed(ids, rs[n], ren);
    }
  }

  /** Slot zero stays unused, and no identifier is wider than 16 bits. */
  ghost predicate Tidy(ids: IdMap) { |ids| <= 0x10000 && (|ids| > 0 ==> ids[0] == 0) }
}
