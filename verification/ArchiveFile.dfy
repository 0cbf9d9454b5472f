/** Writing a view to an archive and reading an archive into a cleared view. The writer's walk
    is the walk of a sync frame whose filter lets everything pass. */
module ArchiveFile {
  import opened Net
  import opened Khash
  import opened ViewState
  import opened Walk
  import opened Copying
  import opened ViewClass
  import opened ProducerClass
  import opened ReceiverClass
  import opened RowCodec
  import opened Tables
  import opened Sent
  import opened Shown
  import opened Naming
  import A = Archive

  // ---------------------------------------------------------------- reading tables

  /** Look for the mark, then read one record, over and over. */
  method ReadList<T>(get: A.Bytes -> Parsed<T>, tag: A.Bytes, s: A.Bytes, left: nat) returns (r: Parsed<seq<T>>)
    ensures r == A.GetList(get, tag, s, left)
  {
    hide A.GetList, A.AtMagic, Onto;
    var xs: seq<T>, read, i := [], 0, 0;
    assert s[0..] == s;
    OntoNothing(A.GetList(get, tag, s, left));
    while i < left
      invariant i <= left && 0 <= read <= |s|
      invariant A.GetList(get, tag, s, left) == Onto(xs, read, A.GetList(get, tag, s[read..], left - i))
    {
      ListStep(get, tag, s[read..], left - i);
      OntoEnd(xs, read, 8);
      if A.AtMagic(s[read..], tag) {
        return Got(xs, read + 8);
      }
      var x := get(s[read..]);
      if x.Bad? || x.used > |s| - read {
        return Bad;
      }
      assert s[read..][x.used..] == s[read + x.used..];
      OntoOne(xs, read, x.value, x.used, A.GetList(get, tag, s[read + x.used..], left - i - 1));
      xs, read, i := xs + [x.value], read + x.used, i + 1;
    }
    ListStep(get, tag, s[read..], 0);
    OntoEnd(xs, read, 0);
    return Got(xs, read);
  }

  /** One turn of the loop over the records. */
  lemma ListStep<T>(get: A.Bytes -> Parsed<T>, tag: A.Bytes, s: A.Bytes, left: nat)
    ensures A.GetList(get, tag, s, left) ==
      if left == 0 then Got([], 0) else if A.AtMagic(s, tag) then Got([], 8) else
      var x := get(s);
      if x.Bad? || x.used > |s| then Bad else
      var r := A.GetList(get, tag, s[x.used..], left - 1);
      if r.Bad? then Bad else Got([x.value] + r.value, x.used + r.used)
  {
  }

  /** The map from path indices to paths: it doubles whenever an index falls outside, and so
      covers every index that the archive uses. */
  method BuildPathMap(paths: seq<A.PathRec>) returns (m: seq<Option<StorePath>>)
    requires forall i, j :: 0 <= i < j < |paths| ==> paths[i].idx != paths[j].idx
    ensures forall x | x in paths :: x.idx < |m| && m[x.idx] == Some(x.path)
    ensures forall k :: 0 <= k < |m| && m[k].Some? ==> exists x :: x in paths && x.idx == k
    ensures m == [] || exists x :: x in paths && |m| == if x.idx == 0 then 1 else x.idx * 2
  {
    m := [];
    var i := 0;
    while i < |paths|
      invariant i <= |paths| && forall j :: 0 <= j < i ==> paths[j].idx < |m| && m[paths[j].idx] == Some(paths[j].path)
      invariant forall k :: 0 <= k < |m| && m[k].Some? ==> exists x :: x in paths && x.idx == k
      invariant m == [] || exists x :: x in paths && |m| == if x.idx == 0 then 1 else x.idx * 2
    {
      assert paths[i] in paths;
      var idx := paths[i].idx;
      if idx + 1 > |m| {
        var cnt := if idx == 0 then 1 else idx * 2;
        m := m + seq(cnt - |m|, _ => None);
      }
      m := m[idx := Some(paths[i].path)];
      i := i + 1;
    }
  }

  // ---------------------------------------------------------------- rows with and without indices

  function Indexed(row: PfxRow, idxOf: StorePath -> A.Word): A.RowRec {
    A.RowRec(row.pfx, seq(|row.cells|,
      j requires 0 <= j < |row.cells| => A.CellRec(row.cells[j].peer, idxOf(row.cells[j].path))))
  }

  predicate Resolvable(m: seq<Option<StorePath>>, row: A.RowRec) {
    forall j :: 0 <= j < |row.cells| ==> row.cells[j].idx < |m| && m[row.cells[j].idx].Some?
  }

  function Resolved(m: seq<Option<StorePath>>, row: A.RowRec): PfxRow
    requires Resolvable(m, row)
  {
    PfxRow(Sync, row.pfx,
      seq(|row.cells|, j requires 0 <= j < |row.cells| => WireCell(row.cells[j].peer, m[row.cells[j].idx].value)))
  }

  /** The path map leads every index back to the path it was written for. */
  lemma ResolvesBack(m: seq<Option<StorePath>>, row: PfxRow, idxOf: StorePath -> A.Word)
    requires row.op.Sync? && forall x | x in row.cells :: idxOf(x.path) < |m| && m[idxOf(x.path)] == Some(x.path)
    ensures Resolvable(m, Indexed(row, idxOf)) && Resolved(m, Indexed(row, idxOf)) == row
  {
    forall j | 0 <= j < |row.cells|
      ensures idxOf(row.cells[j].path) < |m| && m[idxOf(row.cells[j].path)] == Some(row.cells[j].path)
    {
      assert row.cells[j] in row.cells;
    }
    assert Resolved(m, Indexed(row, idxOf)).cells == row.cells;
  }

  // ---------------------------------------------------------------- the two directions

  const EVERYTHING := Filter(0, 0)

  /** Write the view: its active peers, the path table and its active cells. */
  method Save(prod: Producer, view: View, sigOf: PeerId -> PeerSig, paths: seq<A.PathRec>, idxOf: StorePath -> A.Word)
    returns (f: A.File)
    requires view.Valid() && prod.f == EVERYTHING && view.time < 0x1_0000_0000
    modifies prod
    ensures f.time == view.time && f.paths == paths && |f.rows| == |Flat(prod.sent)| <= Span(view.S()) && prod.Counted()
    ensures prod.buf == []
    ensures forall i :: 0 <= i < |f.rows| ==>
            f.rows[i] == Indexed(Flat(prod.sent)[i], idxOf) && Flat(prod.sent)[i].op.Sync?
    ensures DiffOf(FrameOps(Flat(prod.sent)), imap[], Showing(view.S(), prod.store))
    ensures NoWaste(FrameOps(Flat(prod.sent)), imap[], Showing(view.S(), prod.store), prod.store)
    ensures forall k: PeerId :: A.PeerRec(k, sigOf(k)) in f.peers <==> PeerSt(view.peers, k).Active?
    ensures (forall x | x in f.peers :: x.sig == sigOf(x.id))
    ensures forall i, j :: 0 <= i < j < |f.peers| ==> f.peers[i].id != f.peers[j].id
  {
    hide Inv, Get, CellAt, FrameOps, DiffOf, Flat, NoWaste;
    AllAnnounced(view.S(), prod.store);
    var list := prod.SendPeers(view, sigOf);
    var cnt := prod.SendSyncPfxs(view);
    var rows := Flat(prod.sent);
    f := A.File(view.time, seq(|list|, i requires 0 <= i < |list| => A.PeerRec(list[i].0, list[i].1)), paths,
                seq(|rows|, i requires 0 <= i < |rows| => Indexed(rows[i], idxOf)));
    forall k: PeerId ensures A.PeerRec(k, sigOf(k)) in f.peers <==> PeerSt(view.peers, k).Active? {
      if PeerSt(view.peers, k).Active? { EveryonePasses(view.S(), k); }
      if (k, sigOf(k)) in list {
        var i :| 0 <= i < |list| && list[i] == (k, sigOf(k));
        assert f.peers[i] == A.PeerRec(k, sigOf(k));
      }
      if A.PeerRec(k, sigOf(k)) in f.peers {
        var i :| 0 <= i < |list| && f.peers[i] == A.PeerRec(k, sigOf(k));
        assert list[i] == (k, sigOf(k));
      }
    }
    forall x | x in f.peers ensures x.sig == sigOf(x.id) {
      var i :| 0 <= i < |list| && f.peers[i] == x;
      assert list[i] in list;
    }
  }

  ghost predicate Indices(f: A.File) {
    && (forall i, j :: 0 <= i < j < |f.paths| ==> f.paths[i].idx != f.paths[j].idx)
    && forall i, j :: 0 <= i < |f.rows| && 0 <= j < |f.rows[i].cells| ==> Covered(f, f.rows[i].cells[j])
  }

  /** The cell's path and peer are in the archive's tables. */
  ghost predicate Covered(f: A.File, c: A.CellRec) {
    (exists x :: x in f.paths && x.idx == c.idx) && exists x :: x in f.peers && x.id == c.peer
  }

  /** The map `m` leads from indices to paths, and `rows` are the rows it resolves. */
  ghost predicate ResolvedBy(f: A.File, m: seq<Option<StorePath>>, rows: seq<PfxRow>) {
    && (forall x | x in f.paths :: x.idx < |m| && m[x.idx] == Some(x.path))
    && |rows| == |f.rows| && forall i :: 0 <= i < |rows| ==>
      Resolvable(m, f.rows[i]) && rows[i] == Resolved(m, f.rows[i])
  }

  method Resolve(f: A.File) returns (m: seq<Option<StorePath>>, rows: seq<PfxRow>)
    requires Indices(f)
    ensures ResolvedBy(f, m, rows)
  {
    m := BuildPathMap(f.paths);
    forall i, j | 0 <= i < |f.rows| && 0 <= j < |f.rows[i].cells|
      ensures f.rows[i].cells[j].idx < |m| && m[f.rows[i].cells[j].idx].Some?
    {
      assert Covered(f, f.rows[i].cells[j]);
    }
    rows := seq(|f.rows|, i requires 0 <= i < |f.rows| => Resolved(m, f.rows[i]));
  }

  /** Read an archive into a view that shows nothing. */
  method Load(f: A.File, recv: Receiver, ghost ren: Names) returns (m: seq<Option<StorePath>>, rows: seq<PfxRow>)
    requires recv.Interns() && Injective(ren) && recv.Holds(imap[], ren) && Indices(f)
    requires forall x | x in f.peers :: x.id in ren.peers && recv.local(x.sig) == ren.to(x.id)
    modifies recv`ids, recv.view
    ensures ResolvedBy(f, m, rows) && recv.Holds(ApplyAll(imap[], FrameOps(rows)), ren) && recv.view.time == f.time
    ensures forall k: PeerId :: PeerSt(recv.view.peers, k).Active? <==>
              PeerSt(old(recv.view.peers), k).Active? || exists x :: x in f.peers && recv.local(x.sig) == k
  {
    hide Inv, CellAt, PeerSt, Showing, Pull, InRange, Injective, FrameOps, ApplyAll, CanApply, KeepsValid, Renamed;
    hide RenamedRows, AllNamed, Indices, Resolved, Resolvable;
    ghost var c := recv.view.S();
    var list := seq(|f.peers|, i requires 0 <= i < |f.peers| => (f.peers[i].id, f.peers[i].sig));
    SameList(f.peers, list);
    recv.RecvPeers(list);
    SameShows(c, recv.view.S(), recv.store);
    m, rows := Resolve(f);
    ResolvedFits(f, m, rows, list);
    FrameFits(recv.view.S(), recv.ids, list, rows, imap[], ren, recv.local, recv.store);
    ghost var d := recv.view.S();
    recv.ApplyRows(rows);
    FrameRenamed(recv.ids, rows, ren);
    PullAll(Showing(c, recv.store), FrameOps(rows), ren);
    NamedAfter(recv.ids, list, FrameOps(rows), imap[]);
    KeptPeers(d, recv.view.S());
    recv.view.time := f.time;
  }

  lemma KeptPeers(c: Core, d: Core)
    requires KeepsValid(c, d)
    ensures forall k: PeerId :: PeerSt(d.peers, k) == PeerSt(c.peers, k)
  {
  }

  lemma SameList(peers: seq<A.PeerRec>, list: seq<(PeerId, PeerSig)>)
    requires |list| == |peers| && forall i :: 0 <= i < |peers| ==> list[i] == (peers[i].id, peers[i].sig)
    ensures forall x :: x in list <==> A.PeerRec(x.0, x.1) in peers
    ensures forall x | x in peers :: (x.id, x.sig) in list
  {
    forall x | x in peers ensures (x.id, x.sig) in list {
      var i :| 0 <= i < |peers| && peers[i] == x;
      assert list[i] == (x.id, x.sig);
    }
  }

  lemma ResolvedFits(f: A.File, m: seq<Option<StorePath>>, rows: seq<PfxRow>, list: seq<(PeerId, PeerSig)>)
    requires Indices(f) && ResolvedBy(f, m, rows) && forall x | x in f.peers :: (x.id, x.sig) in list
    ensures Fitting(list, FrameOps(rows), imap[])
  {
    hide FrameOps;
    var xs := FrameOps(rows);
    forall i | 0 <= i < |xs| ensures xs[i].Put? && exists x :: x in list && x.0 == xs[i].key.1 {
      var h, j := WhichCell(rows, i);
      assert Covered(f, f.rows[h].cells[j]);
      var x :| x in f.peers && x.id == f.rows[h].cells[j].peer;
      assert (x.id, x.sig) in list;
    }
  }

  /** Every cell of a frame is a cell of one of its rows. */
  lemma {:induction false} WhichCell(rows: seq<PfxRow>, i: nat) returns (h: nat, j: nat)
    requires i < |FrameOps(rows)|
    ensures h < |rows| && j < |rows[h].cells| && FrameOps(rows)[i] == RowOps(rows[h])[j]
  {
    var n := |rows| - 1;
    if i < |FrameOps(rows[..n])| {
      h, j := WhichCell(rows[..n], i);
    } else {
      h, j := n, i - |FrameOps(rows[..n])|;
    }
  }

  // ---------------------------------------------------------------- there and back

  /** What an archive can hold of a view. */
  ghost predicate Archivable(view: View, store: Store, sigOf: PeerId -> PeerSig, paths: seq<A.PathRec>,
                             idxOf: StorePath -> A.Word)
    reads view
  {
    && view.time < 0x1_0000_0000 && Span(view.S()) < A.MAX_WORD && |paths| < A.MAX_WORD &&
      (forall x | x in paths :: A.PathShape(x))
    && (forall i, j :: 0 <= i < j < |paths| ==> paths[i].idx != paths[j].idx)
    && (forall k: PeerId | PeerSt(view.peers, k).Active? :: PeerFits(A.PeerRec(k, sigOf(k))))
    && var t := Showing(view.S(), store);
       forall q: Key | q in t :: q.0.addr.Ok() && t[q].Ok() && A.PathRec(idxOf(t[q]), t[q]) in paths &&
         !MayMark(t, q, idxOf)
  }

  predicate PeerFits(x: A.PeerRec) { x.id < END_OF_PEERS && A.PeerShape(x) && !A.PeerMark(x) }

  /** Two cells of one prefix that would, as neighbours, read like the end of a row. */
  ghost predicate MayMark(t: Table, q: Key, idxOf: StorePath -> A.Word)
    requires q in t
  {
    q.1 == A.MARK_ID && idxOf(t[q]) == A.MARK_IDX && (q.0, A.MARK_NEXT) in t
  }

  lemma SavedFileOk(view: View, store: Store, sigOf: PeerId -> PeerSig, paths: seq<A.PathRec>,
                    idxOf: StorePath -> A.Word, f: A.File, rows: seq<PfxRow>)
    requires view.Valid() && Archivable(view, store, sigOf, paths, idxOf) && f.time == view.time && f.paths == paths
    requires DiffOf(FrameOps(rows), imap[], Showing(view.S(), store)) && (forall r | r in rows :: GoodRow(r))
    requires |rows| <= Span(view.S())
    requires |f.rows| == |rows| && forall i :: 0 <= i < |rows| ==> f.rows[i] == Indexed(rows[i], idxOf)
    requires forall k: PeerId :: A.PeerRec(k, sigOf(k)) in f.peers <==> PeerSt(view.peers, k).Active?
    requires (forall x | x in f.peers :: x.sig == sigOf(x.id))
    requires forall i, j :: 0 <= i < j < |f.peers| ==> f.peers[i].id != f.peers[j].id
    ensures A.Shaped(f) && A.FileOk(f) && Indices(f)
  {
    hide FrameOps, Inv, CellAt, GoodRow, DiffOf;
    forall x | x in f.peers ensures PeerFits(x) { assert x == A.PeerRec(x.id, sigOf(x.id)); }
    FewPeerRecs(f.peers);
    forall i | 0 <= i < |rows|
      ensures A.RowShape(f.rows[i]) && A.RowOk(f.rows[i])
    {
      SavedRowOk(view, store, sigOf, paths, idxOf, rows, i);
    }
    forall i, j | 0 <= i < |f.rows| && 0 <= j < |f.rows[i].cells|
      ensures Covered(f, f.rows[i].cells[j])
    {
      SavedCell(view, store, rows, i, j);
      var k := rows[i].cells[j].peer;
      assert A.PeerRec(k, sigOf(k)) in f.peers;
      assert A.PathRec(idxOf(rows[i].cells[j].path), rows[i].cells[j].path) in f.paths;
    }
  }

  lemma FewPeerRecs(peers: seq<A.PeerRec>)
    requires (forall i, j :: 0 <= i < j < |peers| ==> peers[i].id != peers[j].id)
    requires forall x | x in peers :: PeerFits(x)
    ensures |peers| < MAX_READS
  {
    var cells := seq(|peers|, i requires 0 <= i < |peers| => WireCell(peers[i].id, NO_PATH));
    forall i | 0 <= i < |cells| ensures cells[i].peer in IdsUpTo(END_OF_PEERS - 1) { assert peers[i] in peers; }
    FewPeers(cells, IdsUpTo(END_OF_PEERS - 1));
  }

  /** A saved cell is an active cell of the view, of an active peer. */
  lemma SavedCell(view: View, store: Store, rows: seq<PfxRow>, i: nat, j: nat)
    requires view.Valid() && DiffOf(FrameOps(rows), imap[], Showing(view.S(), store)) && i < |rows|
    requires j < |rows[i].cells|
    ensures var q, t := (rows[i].pfx, rows[i].cells[j].peer), Showing(view.S(), store);
            rows[i].op != Remove && q in t && t[q] == rows[i].cells[j].path && PeerSt(view.peers, q.1).Active?
  {
    hide FrameOps, Inv, CellAt;
    RowOpIn(rows, rows[i], j);
    var h :| 0 <= h < |FrameOps(rows)| && FrameOps(rows)[h] == RowOps(rows[i])[j];
    ActiveIsMatch(view.S(), rows[i].pfx, rows[i].cells[j].peer);
  }

  lemma SavedRowOk(view: View, store: Store, sigOf: PeerId -> PeerSig, paths: seq<A.PathRec>,
                   idxOf: StorePath -> A.Word, rows: seq<PfxRow>, i: nat)
    requires view.Valid() && Archivable(view, store, sigOf, paths, idxOf) && i < |rows|
    requires DiffOf(FrameOps(rows), imap[], Showing(view.S(), store)) && forall r | r in rows :: GoodRow(r)
    ensures A.RowShape(Indexed(rows[i], idxOf)) && A.RowOk(Indexed(rows[i], idxOf))
  {
    hide FrameOps, Inv, CellAt, DiffOf, Showing, PeerSt, Indexed, A.RowOk, A.RowShape, MayMark;
    var r, t := rows[i], Showing(view.S(), store);
    assert r in rows && GoodRow(r);
    forall j | 0 <= j < |r.cells|
      ensures r.pfx.addr.Ok() && CellFits(r.op, r.cells[j])
      ensures (r.pfx, r.cells[j].peer) in t && t[(r.pfx, r.cells[j].peer)] == r.cells[j].path
      ensures !MayMark(t, (r.pfx, r.cells[j].peer), idxOf)
    {
      SavedCell(view, store, rows, i, j);
      assert PeerFits(A.PeerRec(r.cells[j].peer, sigOf(r.cells[j].peer)));
    }
    assert CellFits(r.op, r.cells[0]) && r.pfx.addr.Ok();
    DistinctRowFits(r);
    IndexedOk(r, t, idxOf);
  }

  lemma IndexedOk(r: PfxRow, t: Table, idxOf: StorePath -> A.Word)
    requires Fits(r) && forall j :: 0 <= j < |r.cells| ==>
      && (r.pfx, r.cells[j].peer) in t && t[(r.pfx, r.cells[j].peer)] == r.cells[j].path
      && !MayMark(t, (r.pfx, r.cells[j].peer), idxOf)
    ensures A.RowShape(Indexed(r, idxOf)) && A.RowOk(Indexed(r, idxOf))
  {
    var x := Indexed(r, idxOf);
    forall i | 0 <= i < |x.cells| - 1 ensures !A.CellMark(x.cells[i], x.cells[i + 1]) {
      assert !MayMark(t, (r.pfx, r.cells[i].peer), idxOf) && (r.pfx, r.cells[i + 1].peer) in t;
    }
  }

  lemma RowsBack(view: View, store: Store, f: A.File, m: seq<Option<StorePath>>, was: seq<PfxRow>, rows: seq<PfxRow>,
                 paths: seq<A.PathRec>, idxOf: StorePath -> A.Word)
    requires view.Valid() && DiffOf(FrameOps(was), imap[], Showing(view.S(), store)) && f.paths == paths
    requires |f.rows| == |was| && forall i :: 0 <= i < |was| ==> f.rows[i] == Indexed(was[i], idxOf) && was[i].op.Sync?
    requires forall q: Key | q in Showing(view.S(), store) ::
             A.PathRec(idxOf(Showing(view.S(), store)[q]), Showing(view.S(), store)[q]) in paths
    requires ResolvedBy(f, m, rows)
    ensures rows == was
  {
    hide FrameOps, Inv, CellAt, DiffOf, Indexed, Resolved, Resolvable;
    forall i | 0 <= i < |rows| ensures rows[i] == was[i] {
      forall x | x in was[i].cells ensures idxOf(x.path) < |m| && m[idxOf(x.path)] == Some(x.path) {
        var j :| 0 <= j < |was[i].cells| && was[i].cells[j] == x;
        SavedCell(view, store, was, i, j);
        assert A.PathRec(idxOf(x.path), x.path) in paths;
      }
      ResolvesBack(m, was[i], idxOf);
    }
  }

  /** Write a view, read the bytes into an empty view: the active part is back, under the
      receiver's names, with its time and its active peers. */
  method ArchiveRoundTrip(prod: Producer, view: View, sigOf: PeerId -> PeerSig, paths: seq<A.PathRec>,
                          idxOf: StorePath -> A.Word,
                          recv: Receiver, ghost ren: Names)
    returns (bytes: A.Bytes)
    requires view.Valid() && prod.f == EVERYTHING && recv.view != view
    requires Archivable(view, prod.store, sigOf, paths, idxOf)
    requires recv.Interns() && Injective(ren) && recv.Holds(imap[], ren)
    requires forall k: PeerId :: PeerSt(view.peers, k).Active? ==> k in ren.peers && recv.local(sigOf(k)) == ren.to(k)
    requires forall k: PeerId :: !PeerSt(recv.view.peers, k).Active?
    modifies prod, recv`ids, recv.view
    ensures recv.Holds(Showing(view.S(), prod.store), ren) && recv.view.time == view.time
    ensures forall h: PeerId :: PeerSt(recv.view.peers, h).Active? <==>
            exists k: PeerId :: PeerSt(view.peers, k).Active? && ren.to(k) == h
  {
    hide Inv, CellAt, PeerSt, Showing, Pull, InRange, FrameOps, ApplyAll, DiffOf, Flat, Indexed, A.FileOk, A.Shaped;
    hide GoodRow, A.PutFile, A.GetFile, Indices, ResolvedBy, Injective;
    var f := Save(prod, view, sigOf, paths, idxOf);
    ghost var was := Flat(prod.sent);
    SavedFileOk(view, prod.store, sigOf, paths, idxOf, f, was);
    bytes := A.PutFile(f);
    A.FileRound(f, []);
    assert bytes + [] == bytes;
    var g := A.GetFile(bytes);
    SavedPeers(f, view.peers, sigOf, recv.local, ren);
    var m, rows := Load(g.value, recv, ren);
    RowsBack(view, prod.store, f, m, was, rows, paths, idxOf);
    DiffApplies(FrameOps(was), imap[], Showing(view.S(), prod.store));
    PeersBack(f, view.peers, recv.view.peers, sigOf, recv.local, ren);
  }

  lemma PeersBack(f: A.File, src: PeerTab, dst: PeerTab, sigOf: PeerId -> PeerSig, local: PeerSig -> PeerId, ren: Names)
    requires forall k: PeerId :: PeerSt(src, k).Active? ==> local(sigOf(k)) == ren.to(k)
    requires forall k: PeerId :: A.PeerRec(k, sigOf(k)) in f.peers <==> PeerSt(src, k).Active?
    requires forall x | x in f.peers :: x.sig == sigOf(x.id)
    requires forall k: PeerId :: PeerSt(dst, k).Active? <==> exists x :: x in f.peers && local(x.sig) == k
    ensures forall h: PeerId :: PeerSt(dst, h).Active? <==> exists k: PeerId :: PeerSt(src, k).Active? && ren.to(k) == h
  {
    hide PeerSt;
    forall h: PeerId ensures PeerSt(dst, h).Active? <==> exists k: PeerId :: PeerSt(src, k).Active? && ren.to(k) == h {
      if k: PeerId :| PeerSt(src, k).Active? && ren.to(k) == h {
        assert A.PeerRec(k, sigOf(k)) in f.peers && local(A.PeerRec(k, sigOf(k)).sig) == h;
      }
      if PeerSt(dst, h).Active? {
        var x :| x in f.peers && local(x.sig) == h;
        assert x == A.PeerRec(x.id, sigOf(x.id)) && ren.to(x.id) == h;
      }
    }
  }

  lemma SavedPeers(f: A.File, src: PeerTab, sigOf: PeerId -> PeerSig, local: PeerSig -> PeerId, ren: Names)
    requires forall k: PeerId :: PeerSt(src, k).Active? ==> k in ren.peers && local(sigOf(k)) == ren.to(k)
    requires forall k: PeerId :: A.PeerRec(k, sigOf(k)) in f.peers <==> PeerSt(src, k).Active?
    requires forall x | x in f.peers :: x.sig == sigOf(x.id)
    ensures forall x | x in f.peers :: x.id in ren.peers && local(x.sig) == ren.to(x.id)
  {
    hide PeerSt;
    forall x | x in f.peers
      ensures x.id in ren.peers && local(x.sig) == ren.to(x.id)
    {
      assert x == A.PeerRec(x.id, sigOf(x.id));
    }
  }

  lemma EveryonePasses(c: Core, k: PeerId)
    requires PeerSt(c.peers, k).Active?
    ensures Passes(c.peers, k, EVERYTHING) && ShowsEnough(c, k, EVERYTHING)
  {
  }

  /** Without a filter the announced table is all that the view shows. */
  lemma AllAnnounced(c: Core, store: Store)
    requires Inv(c)
    ensures Announced(c, EVERYTHING, store) == Showing(c, store)
  {
    hide Inv, CellAt;
    forall q: Key ensures Agree(Announced(c, EVERYTHING, store), Showing(c, store), q) {
      if CellAt(c, q.0, q.1).state.Active? {
        ActiveIsMatch(c, q.0, q.1);
        EveryonePasses(c, q.1);
      }
    }
    SameTable(Announced(c, EVERYTHING, store), Showing(c, store));
  }
}
