/** The receiving end: renames peers through the identifier map and applies rows in place. */
module ReceiverClass {
  import opened Net
  import opened Khash
  import opened ViewState
  import opened RowSwap
  import opened Cascade
  import opened CellOps
  import opened Walk
  import opened Sweep
  import opened Collect
  import opened Copying
  import opened ViewClass
  import opened RowCodec
  import opened Tables
  import opened Sent
  import opened Shown
  import opened Naming

  class Receiver {
    const view: View
    const store: Store
    const intern: StorePath -> PathId
    const local: PeerSig -> PeerId
    var ids: IdMap

    constructor (view: View, store: Store, intern: StorePath -> PathId, local: PeerSig -> PeerId)
      ensures this.view == view && this.store == store && this.intern == intern && this.local == local && ids == []
    {
      this.view, this.store, this.intern, this.local, ids := view, store, intern, local, [];
    }

    /** An identifier handed out for a path leads back to that path. */
    ghost predicate Interns() { forall p: StorePath :: store(intern(p)) == p }

    /** Apply one row cell by cell. */
    method ApplyRow(row: PfxRow)
      requires view.Valid() && Interns() && AllNamed(ids, row) && CanApply(view.S(), Renamed(ids, row))
      modifies view
      ensures view.Valid() && view.time == old(view.time) && KeepsValid(old(view.S()), view.S())
      ensures Showing(view.S(), store) == ApplyAll(Showing(old(view.S()), store), RowOps(Renamed(ids, row)))
    {
      hide Inv, CellAt, CanApply, KeepsValid, Apply, PeerSt, Showing, OnPfx;
      ghost var c, r, t := view.S(), Renamed(ids, row), Showing(view.S(), store);
      var it := Iter(V4, None, 0, ALL_VALID, 0, false, ALL_VALID, 0, ALL_VALID);
      var j := 0;
      KeepsAll(c);
      while j < |row.cells|
        invariant j <= |row.cells| && view.Valid() && view.time == old(view.time) && KeepsValid(c, view.S())
        invariant 0 < j < |row.cells| ==> Continues(view.S(), it, row.op, row.pfx)
        invariant Showing(view.S(), store) == ApplyAll(t, RowOps(r)[..j])
      {
        ghost var d := view.S();
        var x := row.cells[j];
        assert x in row.cells;
        var k: PeerId := ids[x.peer];
        assert r.cells[j] == WireCell(k, x.path);
        StillCan(c, d, r);
        CanOne(d, r, j);
        it := ApplyCell(it, j == 0, row.op, row.pfx, k, x.path);
        KeepsTrans(c, d, view.S());
        OneMore(t, RowOps(r), j);
        j := j + 1;
      }
      assert RowOps(r)[..j] == RowOps(r);
    }

    /** Announce or withdraw one cell; the iterator is left on the prefix for the next one. */
    method ApplyCell(it: Iter, first: bool, op: Op, pfx: Pfx, k: PeerId, path: StorePath) returns (r: Iter)
      requires view.Valid() && Interns() && (!first ==> Continues(view.S(), it, op, pfx))
      requires op.Remove? || PeerSt(view.peers, k).Active?
      modifies view
      ensures view.Valid() && view.time == old(view.time) && KeepsValid(old(view.S()), view.S())
      ensures Showing(view.S(), store) == Apply(Showing(old(view.S()), store), CellOf(op, pfx, k, path))
      ensures !first || !op.Remove? || !CellAt(old(view.S()), pfx, k).state.Invalid? ==> Continues(view.S(), r, op, pfx)
    {
      hide Inv, Get, CellAt, CellPut, KeepsValid, Apply, PeerSt, Showing;
      ghost var d := view.S();
      KeepsAll(d);
      if !op.Remove? {
        r := view.PutCell(it, first, pfx, k, intern(path));
        PutShows(d, view.S(), pfx, k, intern(path), store);
        PutKeeps(d, d, view.S(), pfx, k, Cell(Active, intern(path)));
      } else {
        var found;
        found, r := Withdraw(it, first, pfx, k);
        QuietHides(d, view.S(), pfx, k, store);
        PutKeeps(d, d, view.S(), pfx, k, Quiet(CellAt(d, pfx, k)));
      }
    }

    /** Look the cell up, by prefix first, and deactivate it if it is there. The iterator is on the
        prefix afterwards if it was before, or if the cell was found. */
    method Withdraw(it: Iter, first: bool, pfx: Pfx, k: PeerId) returns (found: bool, r: Iter)
      requires view.Valid()
      requires !first ==> HasRow(view.S(), it.ver, it.pfx) && PfxKey(view.S(), it.ver, it.pfx) == pfx
      modifies view
      ensures view.Valid() && view.time == old(view.time) && (found <==> !CellAt(old(view.S()), pfx, k).state.Invalid?)
      ensures !first || found ==> HasRow(view.S(), r.ver, r.pfx) && PfxKey(view.S(), r.ver, r.pfx) == pfx
      ensures CellPut(old(view.S()), view.S(), pfx, k, Quiet(CellAt(old(view.S()), pfx, k)))
    {
      hide Inv, CellAt, CellPut;
      ghost var c := view.S();
      found, r := true, it;
      if first {
        if !CellAt(c, pfx, k).state.Invalid? {
          PfxThere(c, pfx, k);
          CellThere(c, pfx.Ver(), Get(view.pfxs.At(pfx.Ver()), pfx), k);
        }
        found, r := view.SeekPfx(it, pfx, ALL_VALID);
      }
      if found {
        CellThere(c, r.ver, r.pfx, k);
        found, r := view.PfxSeekPeer(r, k, ALL_VALID);
      }
      if found {
        FoundCellAt(c, r, k);
        view.DeactivateCell(r);
      } else {
        QuietNothing(c, pfx, k);
      }
    }

    // -------------------------------------------------------------- peers

    /** Name a remote peer, growing the map when needed, and make sure it is active. */
    method AddMapping(remote: PeerId, sig: PeerSig)
      requires view.Valid()
      modifies this`ids, view`peers, view`peerCnt
      ensures view.Valid() && Named(ids, remote) && ids[remote] == local(sig) && (Tidy(old(ids)) ==> Tidy(ids))
      ensures forall k: PeerId :: k != remote ==>
              Named(ids, k) == Named(old(ids), k) && (Named(ids, k) ==> ids[k] == old(ids)[k])
      ensures forall pfx: Pfx, k: PeerId :: CellAt(view.S(), pfx, k) == CellAt(old(view.S()), pfx, k)
      ensures forall k: PeerId :: PeerSt(view.peers, k) == if k == local(sig) then Active
              else PeerSt(old(view.peers), k)
    {
      hide Inv, CellAt, Get;
      if remote >= |ids| {
        ids := ids + seq(remote + 1 - |ids|, _ => 0);
      }
      var p := view.AddPeer(local(sig));
      assert !PeerSt(view.peers, local(sig)).Invalid?;
      view.ActivatePeer(p);
      ids := ids[remote := local(sig)];
    }

    /** The name of a remote peer after the peer messages of a frame: what its last entry names, or
        the name it had if the frame does not list it; zero is no name. */
    ghost function NameAfter(was: IdMap, peers: seq<(PeerId, PeerSig)>, k: PeerId): nat {
      if |peers| == 0 then (if Named(was, k) then was[k] else 0)
      else var x := peers[|peers| - 1];
           if x.0 == k then local(x.1) else NameAfter(was, peers[..|peers| - 1], k)
    }

    lemma NamesMore(was: IdMap, peers: seq<(PeerId, PeerSig)>, i: nat, now: IdMap, next: IdMap)
      requires i < |peers| && forall k: PeerId :: NameAfter(now, [], k) == NameAfter(was, peers[..i], k)
      requires Named(next, peers[i].0) && next[peers[i].0] == local(peers[i].1)
      requires forall k: PeerId :: k != peers[i].0 ==>
               Named(next, k) == Named(now, k) && (Named(next, k) ==> next[k] == now[k])
      ensures forall k: PeerId :: NameAfter(next, [], k) == NameAfter(was, peers[..i + 1], k)
    {
      assert peers[..i + 1][..i] == peers[..i];
    }

    /** The peer messages of a frame, up to their end record. */
    method RecvPeers(peers: seq<(PeerId, PeerSig)>)
      requires view.Valid()
      modifies this`ids, view`peers, view`peerCnt
      ensures view.Valid() && (Tidy(old(ids)) ==> Tidy(ids))
      ensures forall k: PeerId :: (if Named(ids, k) then ids[k] else 0) == NameAfter(old(ids), peers, k)
      ensures forall x | x in peers :: Named(ids, x.0) && PeerSt(view.peers, local(x.1)).Active?
      ensures forall k: PeerId :: Named(ids, k) ==>
              (Named(old(ids), k) && ids[k] == old(ids)[k])
              || exists x :: x in peers && x.0 == k && ids[k] == local(x.1)
      ensures forall k: PeerId :: Named(old(ids), k) ==> Named(ids, k)
      ensures forall pfx: Pfx, k: PeerId :: CellAt(view.S(), pfx, k) == CellAt(old(view.S()), pfx, k)
      ensures forall k: PeerId :: PeerSt(old(view.peers), k).Active? ==> PeerSt(view.peers, k).Active?
      ensures forall k: PeerId :: PeerSt(view.peers, k).Active? ==>
              PeerSt(old(view.peers), k).Active? || exists x :: x in peers && local(x.1) == k
    {
      hide Inv, CellAt, PeerSt;
      var i := 0;
      while i < |peers|
        invariant i <= |peers| && view.Valid() && (Tidy(old(ids)) ==> Tidy(ids))
        invariant forall k: PeerId :: NameAfter(ids, [], k) == NameAfter(old(ids), peers[..i], k)
        invariant forall j :: 0 <= j < i ==> Named(ids, peers[j].0) && PeerSt(view.peers, local(peers[j].1)).Active?
        invariant forall k: PeerId :: Named(ids, k) ==>
                 (Named(old(ids), k) && ids[k] == old(ids)[k]) || NamedBy(peers, i, k, ids)
        invariant forall k: PeerId :: Named(old(ids), k) ==> Named(ids, k)
        invariant forall pfx: Pfx, k: PeerId :: CellAt(view.S(), pfx, k) == CellAt(old(view.S()), pfx, k)
        invariant forall k: PeerId :: PeerSt(old(view.peers), k).Active? ==> PeerSt(view.peers, k).Active?
        invariant forall k: PeerId :: PeerSt(view.peers, k).Active? ==>
                 PeerSt(old(view.peers), k).Active? || exists x :: x in peers && local(x.1) == k
      {
        ghost var was := ids;
        assert peers[i] in peers;
        AddMapping(peers[i].0, peers[i].1);
        NamesMore(old(ids), peers, i, was, ids);
        forall k: PeerId | Named(ids, k)
          ensures (Named(old(ids), k) && ids[k] == old(ids)[k]) || NamedBy(peers, i + 1, k, ids)
        {
          if k == peers[i].0 {
            assert NamedAt(peers, i, k, ids);
          } else if NamedBy(peers, i, k, was) {
            var j :| 0 <= j < i && NamedAt(peers, j, k, was);
            assert NamedAt(peers, j, k, ids);
          }
        }
        i := i + 1;
      }
      assert peers[..i] == peers;
      forall k: PeerId | Named(ids, k) && NamedBy(peers, i, k, ids)
        ensures exists x :: x in peers && x.0 == k && ids[k] == local(x.1)
      {
        var j :| 0 <= j < i && NamedAt(peers, j, k, ids);
        assert peers[j] in peers;
      }
    }

    ghost predicate NamedAt(peers: seq<(PeerId, PeerSig)>, j: nat, k: PeerId, ids: IdMap)
      requires j < |peers|
    {
      peers[j].0 == k && Named(ids, k) && ids[k] == local(peers[j].1)
    }

    ghost predicate NamedBy(peers: seq<(PeerId, PeerSig)>, n: nat, k: PeerId, ids: IdMap)
      requires n <= |peers|
    {
      exists j :: 0 <= j < n && NamedAt(peers, j, k, ids)
    }

    // -------------------------------------------------------------- prefixes

    /** The prefix messages of a frame, up to the end record or the first broken message. */
    method RecvPfxs(msgs: seq<Msg>) returns (r: Outcome)
      requires view.Valid() && Interns()
      requires forall row | row in RowsOf(msgs) :: AllNamed(ids, row) && CanApply(view.S(), Renamed(ids, row))
      modifies view
      ensures view.Valid() && KeepsValid(old(view.S()), view.S())
      ensures AllNamedRows(ids, RowsOf(msgs))
      ensures Showing(view.S(), store) ==
              ApplyAll(Showing(old(view.S()), store), FrameOps(RenamedRows(ids, RowsOf(msgs))))
      ensures r == Verdict(msgs)
      ensures view.time == match Ending(msgs) case Some(End(t, _)) => t case _ => old(view.time)
    {
      hide Inv, CellAt, CanApply, KeepsValid, ApplyAll, Showing, Renamed, AllNamed, RenamedRows, AllNamedRows, FrameOps;
      ghost var c, t, done := view.S(), Showing(view.S(), store), [];
      KeepsAll(c);
      NothingApplied(t, ids);
      var i, rx := 0, 0;
      while i < |msgs| && msgs[i].Rows?
        invariant i <= |msgs| && view.Valid() && view.time == old(view.time) && KeepsValid(c, view.S())
        invariant rx == |done| && done + RowsOf(msgs[i..]) == RowsOf(msgs) && Ending(msgs) == Ending(msgs[i..])
        invariant AllNamedRows(ids, done) && Showing(view.S(), store) == ApplyAll(t, FrameOps(RenamedRows(ids, done)))
      {
        ghost var d := view.S();
        assert msgs[i..][0] == msgs[i] && msgs[i..][1..] == msgs[i + 1..];
        SomeRows(done, msgs[i].rows, RowsOf(msgs[i + 1..]));
        CanRows(c, d, ids, msgs[i].rows, RowsOf(msgs));
        ApplyRows(msgs[i].rows);
        KeepsTrans(c, d, view.S());
        RowsApplied(t, ids, done, msgs[i].rows);
        rx, done, i := rx + |msgs[i].rows|, done + msgs[i].rows, i + 1;
      }
      if i == |msgs| {
        assert done + [] == done;
        return Starved;
      }
      if msgs[i].Broken? {
        ghost var d := view.S();
        BrokenRows(done, msgs[i].rows);
        CanRows(c, d, ids, msgs[i].rows, RowsOf(msgs));
        ApplyRows(msgs[i].rows);
        KeepsTrans(c, d, view.S());
        RowsApplied(t, ids, done, msgs[i].rows);
        return Failed;
      }
      assert done + [] == done;
      view.time := msgs[i].time;
      return if rx == msgs[i].cnt then Done else Failed;
    }

    /** The rows of one message. */
    method ApplyRows(rows: seq<PfxRow>)
      requires view.Valid() && Interns()
      requires forall row | row in rows :: AllNamed(ids, row) && CanApply(view.S(), Renamed(ids, row))
      modifies view
      ensures view.Valid() && view.time == old(view.time) && KeepsValid(old(view.S()), view.S())
      ensures AllNamedRows(ids, rows)
      ensures Showing(view.S(), store) == ApplyAll(Showing(old(view.S()), store), FrameOps(RenamedRows(ids, rows)))
    {
      hide Inv, CellAt, CanApply, KeepsValid, ApplyAll, Showing, Renamed, AllNamed, RenamedRows, FrameOps;
      ghost var c, t := view.S(), Showing(view.S(), store);
      KeepsAll(c);
      NothingApplied(t, ids);
      var j := 0;
      assert rows[..0] == [];
      while j < |rows|
        invariant j <= |rows| && view.Valid() && view.time == old(view.time) && KeepsValid(c, view.S())
        invariant AllNamedRows(ids, rows[..j])
        invariant Showing(view.S(), store) == ApplyAll(t, FrameOps(RenamedRows(ids, rows[..j])))
      {
        ghost var d := view.S();
        assert rows[j] in rows;
        StillCan(c, d, Renamed(ids, rows[j]));
        ApplyRow(rows[j]);
        KeepsTrans(c, d, view.S());
        RowApplied(t, ids, rows[..j], rows[j]);
        assert rows[..j] + [rows[j]] == rows[..j + 1];
        j := j + 1;
      }
      assert rows[..j] == rows;
    }

    // -------------------------------------------------------------- whole frames

    /** Under the producer's names, its part of the view shows exactly the table `p`, and every
        peer of the table has a name. */
    ghost predicate HoldsPart(p: Table, ren: Names)
      reads this, view
    {
      && view.Valid() && NamesBy(ids, ren) && Pull(Showing(view.S(), store), ren) == p
      && forall q: Key | q in p :: Named(ids, q.1)
    }

    /** ... and the view shows nothing else. */
    ghost predicate Holds(p: Table, ren: Names)
      reads this, view
    {
      HoldsPart(p, ren) && InRange(Showing(view.S(), store), ren)
    }

    /** The names that the peer list of a frame gives are those of `ren`. */
    ghost predicate Knows(peers: seq<(PeerId, PeerSig)>, ren: Names) {
      forall x | x in peers :: x.0 in ren.peers && local(x.1) == ren.to(x.0)
    }

    /** Receive what arrives of a frame into a view that other producers may share: the cells of
        the frame are filed under the names of this producer, and nothing else changes. */
    method RecvView(a: Arrival, ghost ren: Names, ghost p: Table) returns (r: Outcome)
      requires Interns() && Injective(ren) && HoldsPart(p, ren) && Knows(a.peers, ren)
      requires Fitting(a.peers, FrameOps(a.Rows()), p)
      modifies this`ids, view
      ensures HoldsPart(ApplyAll(p, FrameOps(a.Rows())), ren) && KeysOf(FrameOps(a.Rows()), ren)
      ensures Showing(view.S(), store) == ApplyAll(Showing(old(view.S()), store), RenOps(FrameOps(a.Rows()), ren))
      ensures r == a.Outcome() && view.time == a.Time(old(view.time))
      ensures forall k: PeerId :: Named(ids, k) <==> Named(old(ids), k) || ListedIn(a.peers, k)
    {
      hide Inv, CellAt, PeerSt, Showing, Pull, Fitting, Injective, FrameOps, RowsOf, Ending, Verdict;
      hide ApplyAll, CanApply, KeepsValid, Renamed, RenamedRows, AllNamed, AllNamedRows, RenOps, KeysOf;
      ghost var c, xs := view.S(), FrameOps(a.Rows());
      RecvPeers(a.peers);
      ListedNames(old(ids), ids, a.peers);
      assert NamesBy(ids, ren);
      SameShows(c, view.S(), store);
      FrameFits(view.S(), ids, a.peers, a.Rows(), p, ren, local, store);
      if a.heard {
        r := RecvPfxs(a.msgs);
      } else {
        r := Failed;
        NothingApplied(Showing(c, store), ids);
      }
      FrameRenamed(ids, a.Rows(), ren);
      PullAll(Showing(c, store), xs, ren);
      NamedAfter(ids, a.peers, xs, p);
    }

    ghost predicate ListedIn(peers: seq<(PeerId, PeerSig)>, k: PeerId) { exists x :: x in peers && x.0 == k }

    lemma ListedNames(was: IdMap, now: IdMap, peers: seq<(PeerId, PeerSig)>)
      requires forall x | x in peers :: Named(now, x.0)
      requires forall k: PeerId :: Named(now, k) ==>
               Named(was, k) || exists x :: x in peers && x.0 == k && now[k] == local(x.1)
      requires forall k: PeerId :: Named(was, k) ==> Named(now, k)
      ensures forall k: PeerId :: Named(now, k) <==> Named(was, k) || ListedIn(peers, k)
    {
    }

    /** Receive one frame into a view of its own: a sync frame first clears the view and forgets
        all names, and peers without cells are dropped when the frame is complete. */
    method RecvFrame(sync: bool, a: Arrival, ghost ren: Names, ghost p: Table) returns (r: Outcome)
      requires view.Valid() && Interns() && Injective(ren) && Knows(a.peers, ren)
      requires if sync then p == imap[] else Holds(p, ren)
      requires Fitting(a.peers, FrameOps(a.Rows()), p)
      modifies this`ids, view
      ensures Holds(ApplyAll(p, FrameOps(a.Rows())), ren)
      ensures r == a.Outcome() && view.time == a.Time(if sync then 0 else old(view.time))
      ensures forall k: PeerId :: Named(ids, k) <==> (!sync && Named(old(ids), k)) || ListedIn(a.peers, k)
      ensures r.Done? ==> forall k: PeerId :: PeerSt(view.peers, k).Active? <==> Busy(view.S(), k)
    {
      hide Inv, CellAt, PeerSt, Busy, Showing, Pull, InRange, SameView, Fitting, Injective, FrameOps, ApplyAll, RenOps;
      hide KeysOf;
      if sync {
        view.Clear();
        ids := seq(|ids|, _ => 0);
        ClearShows(view.S(), store, ren);
      }
      ghost var c := view.S();
      r := RecvView(a, ren, p);
      PullAll(Showing(c, store), FrameOps(a.Rows()), ren);
      if r.Done? {
        ghost var d := view.S();
        view.DropIdlePeers();
        SameShows(d, view.S(), store);
        SameBusy(d, view.S());
      }
    }

    // -------------------------------------------------------------- disabling a member

    /** Deactivate every peer that has a name in the map. */
    method DeactivateWorker()
      requires view.Valid()
      modifies view
      ensures view.Valid() && view.time == old(view.time) && QuietTo(old(view.S()), view.S(), ids, |ids|)
    {
      hide Inv, CellAt, Get;
      ghost var c := view.S();
      var it := Iter(V4, None, 0, ACTIVE, 0, false, ACTIVE, 0, ACTIVE);
      var i := 0;
      while i < |ids|
        invariant i <= |ids| && view.Valid() && view.time == old(view.time) && QuietTo(c, view.S(), ids, i)
      {
        ghost var d := view.S();
        if ids[i] != 0 {
          var k: PeerId := ids[i];
          var p := Get(view.peers, k);
          if p < |view.peers| && view.peers[p].val.state.Active? {
            view.DeactivatePeer(it, p);
          } else {
            SilentPeer(d, k);
          }
          QuietStep(c, d, view.S(), ids, i);
        }
        i := i + 1;
      }
    }

    /** Disable the member with these names: exactly the cells of its named peers leave the shared
        view, and nothing of the member's part is left. */
    method DisableMember(ghost ren: Names, ghost p: Table)
      requires HoldsPart(p, ren)
      modifies view
      ensures HoldsPart(imap[], ren) && view.time == old(view.time)
      ensures Showing(view.S(), store) == WithoutNamed(Showing(old(view.S()), store), ids)
    {
      hide Inv, CellAt, Pull, Showing;
      ghost var c := view.S();
      DeactivateWorker();
      OwnPartEmptied(c, view.S(), ids, ren, store);
      QuietShows(c, view.S(), ids, store);
    }
  }

  /** The iterator is on the prefix, ready for the next cell of the row. */
  ghost predicate Continues(c: Core, it: Iter, op: Op, pfx: Pfx) {
    if op.Remove? then HasRow(c, it.ver, it.pfx) && PfxKey(c, it.ver, it.pfx) == pfx else OnPfx(c, it, pfx)
  }

  ghost predicate NamedIn(ids: IdMap, n: nat, h: PeerId)
    requires n <= |ids|
  {
    exists i :: 0 <= i < n && ids[i] == h
  }

  /** The active cells of the first `n` named peers are gone, and nothing else has changed. */
  ghost predicate QuietTo(c: Core, d: Core, ids: IdMap, n: nat)
    requires n <= |ids|
  {
    forall pfx: Pfx, h: PeerId :: CellAt(d, pfx, h) == if NamedIn(ids, n, h) then Quiet(CellAt(c, pfx, h))
      else CellAt(c, pfx, h)
  }

  lemma SilentPeer(c: Core, k: PeerId)
    requires Inv(c) && !PeerSt(c.peers, k).Active?
    ensures forall pfx: Pfx :: Quiet(CellAt(c, pfx, k)) == CellAt(c, pfx, k)
  {
    hide Inv, CellAt;
    forall pfx: Pfx ensures !CellAt(c, pfx, k).state.Active? {
      if CellAt(c, pfx, k).state.Active? { ActiveIsMatch(c, pfx, k); }
    }
  }

  lemma QuietStep(c: Core, d: Core, e: Core, ids: IdMap, i: nat)
    requires i < |ids| && ids[i] != 0 && QuietTo(c, d, ids, i)
    requires forall pfx: Pfx, h: PeerId :: CellAt(e, pfx, h) == if h == ids[i] then Quiet(CellAt(d, pfx, h))
             else CellAt(d, pfx, h)
    ensures QuietTo(c, e, ids, i + 1)
  {
    hide CellAt;
    forall h: PeerId ensures NamedIn(ids, i + 1, h) <==> NamedIn(ids, i, h) || ids[i] == h {}
  }

  /** The table without the cells of the named peers. */
  ghost function WithoutNamed(t: Table, ids: IdMap): Table { imap q: Key | q in t && !NamedIn(ids, |ids|, q.1) :: t[q] }

  lemma QuietShows(c: Core, d: Core, ids: IdMap, store: Store)
    requires QuietTo(c, d, ids, |ids|)
    ensures Showing(d, store) == WithoutNamed(Showing(c, store), ids)
  {
    hide CellAt, NamedIn;
    forall q: Key ensures Agree(Showing(d, store), WithoutNamed(Showing(c, store), ids), q) {
      assert CellAt(d, q.0, q.1) == if NamedIn(ids, |ids|, q.1) then Quiet(CellAt(c, q.0, q.1))
        else CellAt(c, q.0, q.1);
    }
    SameTable(Showing(d, store), WithoutNamed(Showing(c, store), ids));
  }

  /** Disabling a member empties its own part of the view ... */
  lemma OwnPartEmptied(c: Core, d: Core, ids: IdMap, ren: Names, store: Store)
    requires QuietTo(c, d, ids, |ids|) && NamesBy(ids, ren)
    requires forall q: Key | q in Pull(Showing(c, store), ren) :: Named(ids, q.1)
    ensures Pull(Showing(d, store), ren) == imap[]
  {
    hide CellAt;
    forall q: Key ensures q !in Pull(Showing(d, store), ren) {
      if q in Pull(Showing(c, store), ren) {
        assert ids[q.1] == ren.to(q.1);
        assert NamedIn(ids, |ids|, ren.to(q.1));
      }
      assert CellAt(d, q.0, ren.to(q.1)) == if NamedIn(ids, |ids|, ren.to(q.1)) then Quiet(CellAt(c, q.0, ren.to(q.1)))
        else CellAt(c, q.0, ren.to(q.1));
    }
    forall q: Key ensures Agree(Pull(Showing(d, store), ren), imap[], q) {}
    SameTable(Pull(Showing(d, store), ren), imap[]);
  }

  /** ... and leaves every other member's part alone. */
  lemma OtherPartKept(c: Core, d: Core, ids: IdMap, ren: Names, other: Names, store: Store)
    requires QuietTo(c, d, ids, |ids|) && NamesBy(ids, ren) && Tidy(ids) && Disjoint(ren, other)
    ensures Pull(Showing(d, store), other) == Pull(Showing(c, store), other)
  {
    hide CellAt, NamesBy, Disjoint, Tidy;
    forall q: Key ensures Agree(Pull(Showing(d, store), other), Pull(Showing(c, store), other), q) {
      if q.1 in other.peers {
        OtherName(ids, ren, other, q.1);
        assert CellAt(d, q.0, other.to(q.1)) == CellAt(c, q.0, other.to(q.1));
      }
    }
    SameTable(Pull(Showing(d, store), other), Pull(Showing(c, store), other));
  }

  lemma OtherName(ids: IdMap, ren: Names, other: Names, k: PeerId)
    requires NamesBy(ids, ren) && Tidy(ids) && Disjoint(ren, other) && k in other.peers
    ensures !NamedIn(ids, |ids|, other.to(k))
  {
    forall i | 0 <= i < |ids| ensures ids[i] != other.to(k) {
      if i > 0 && ids[i] != 0 { assert Named(ids, i); }
    }
  }

  /** The rows announce only listed peers and withdraw only cells of the table. */
  ghost predicate Fitting(peers: seq<(PeerId, PeerSig)>, xs: seq<CellOp>, p: Table) {
    && (forall i :: 0 <= i < |xs| && xs[i].Put? ==> exists x :: x in peers && x.0 == xs[i].key.1)
    && (forall i :: 0 <= i < |xs| && xs[i].Del? ==> xs[i].key in p)
  }

  lemma ClearShows(c: Core, store: Store, ren: Names)
    requires SameView(c, FRESH)
    ensures Showing(c, store) == imap[] && Pull(imap[], ren) == imap[] && InRange(imap[], ren)
  {
    hide CellAt;
    EmptyView(c);
    forall q: Key ensures Agree(Showing(c, store), imap[], q) && Agree(Pull(imap[], ren), imap[], q) {
      assert CellAt(c, q.0, q.1) == NO_CELL;
    }
    SameTable(Showing(c, store), imap[]);
    SameTable(Pull(imap[], ren), imap[]);
  }

  lemma SameBusy(c: Core, d: Core)
    requires forall pfx: Pfx, k: PeerId :: CellAt(d, pfx, k) == CellAt(c, pfx, k)
    ensures forall k: PeerId :: Busy(d, k) == Busy(c, k)
  {
    hide CellAt;
  }

  /** Each row of a fitting frame can be applied. */
  lemma FrameFits(c: Core, ids: IdMap, peers: seq<(PeerId, PeerSig)>, rs: seq<PfxRow>, p: Table, ren: Names,
                  local: PeerSig -> PeerId, store: Store)
    requires Fitting(peers, FrameOps(rs), p) && NamesBy(ids, ren) && Pull(Showing(c, store), ren) == p
    requires forall x | x in peers :: x.0 in ren.peers && local(x.1) == ren.to(x.0)
    requires forall x | x in peers :: Named(ids, x.0) && PeerSt(c.peers, local(x.1)).Active?
    requires forall q: Key | q in p :: Named(ids, q.1)
    ensures forall row | row in rs :: AllNamed(ids, row) && CanApply(c, Renamed(ids, row))
  {
    hide CellAt, PeerSt, FrameOps, RowOps;
    forall row | row in rs ensures AllNamed(ids, row) && CanApply(c, Renamed(ids, row)) {
      RowFits(c, ids, peers, rs, row, p, ren, local, store);
    }
  }

  lemma {:induction false} RowInFrame(rs: seq<PfxRow>, row: PfxRow, x: CellOp)
    requires row in rs && x in RowOps(row)
    ensures x in FrameOps(rs)
  {
    hide RowOps;
    var n := |rs| - 1;
    if rs[n] != row {
      assert row in rs[..n];
      RowInFrame(rs[..n], row, x);
    }
  }

  lemma RowFits(c: Core, ids: IdMap, peers: seq<(PeerId, PeerSig)>, rs: seq<PfxRow>, row: PfxRow, p: Table, ren: Names,
                local: PeerSig -> PeerId, store: Store)
    requires Fitting(peers, FrameOps(rs), p) && NamesBy(ids, ren) && Pull(Showing(c, store), ren) == p && row in rs
    requires forall x | x in peers :: x.0 in ren.peers && local(x.1) == ren.to(x.0)
    requires forall x | x in peers :: Named(ids, x.0) && PeerSt(c.peers, local(x.1)).Active?
    requires forall q: Key | q in p :: Named(ids, q.1)
    ensures AllNamed(ids, row) && CanApply(c, Renamed(ids, row))
  {
    hide CellAt, PeerSt, FrameOps;
    var xs := FrameOps(rs);
    forall j | 0 <= j < |row.cells|
      ensures Named(ids, row.cells[j].peer)
      ensures var k := ids[row.cells[j].peer];
              if row.op.Remove? then !CellAt(c, row.pfx, k).state.Invalid? else PeerSt(c.peers, k).Active?
    {
      var k := row.cells[j].peer;
      RowInFrame(rs, row, RowOps(row)[j]);
      var i :| 0 <= i < |xs| && xs[i] == RowOps(row)[j];
      if row.op.Remove? {
        assert (row.pfx, k) in p;
        assert (row.pfx, ren.to(k)) in Showing(c, store);
      } else {
        var x :| x in peers && x.0 == k;
      }
    }
  }

  /** Every peer of the resulting table has a name. */
  lemma NamedAfter(ids: IdMap, peers: seq<(PeerId, PeerSig)>, xs: seq<CellOp>, p: Table)
    requires Fitting(peers, xs, p) && (forall q: Key | q in p :: Named(ids, q.1))
    requires forall x | x in peers :: Named(ids, x.0)
    ensures forall q: Key | q in ApplyAll(p, xs) :: Named(ids, q.1)
  {
    hide Named, ApplyAll;
    forall q: Key | q in ApplyAll(p, xs) ensures Named(ids, q.1) {
      if !(q in p) { ComesFrom(p, xs, q); }
    }
  }

  lemma {:induction false} ComesFrom(p: Table, xs: seq<CellOp>, q: Key)
    requires q in ApplyAll(p, xs) && q !in p
    ensures exists i :: 0 <= i < |xs| && xs[i].Put? && xs[i].key == q
  {
    var n := |xs| - 1;
    if !(xs[n].Put? && xs[n].key == q) {
      ComesFrom(p, xs[..n], q);
      var i :| 0 <= i < n && xs[..n][i].Put? && xs[..n][i].key == q;
      assert xs[i].Put? && xs[i].key == q;
    }
  }

  lemma SomeRows(done: seq<PfxRow>, rows: seq<PfxRow>, rest: seq<PfxRow>)
    ensures done + (rows + rest) == (done + rows) + rest
    ensures forall row | row in rows :: row in done + (rows + rest)
  {
  }

  lemma BrokenRows(done: seq<PfxRow>, rows: seq<PfxRow>)
    ensures forall row | row in rows :: row in done + rows
  {
  }

  lemma CanRows(c: Core, d: Core, ids: IdMap, rows: seq<PfxRow>, all: seq<PfxRow>)
    requires KeepsValid(c, d) && forall row | row in rows :: row in all
    requires forall row | row in all :: AllNamed(ids, row) && CanApply(c, Renamed(ids, row))
    ensures forall row | row in rows :: AllNamed(ids, row) && CanApply(d, Renamed(ids, row))
  {
    hide CanApply, KeepsValid, Renamed, AllNamed;
    forall row | row in rows ensures AllNamed(ids, row) && CanApply(d, Renamed(ids, row)) {
      StillCan(c, d, Renamed(ids, row));
    }
  }

  lemma KeepsTrans(c: Core, d: Core, e: Core)
    requires KeepsValid(c, d) && KeepsValid(d, e)
    ensures KeepsValid(c, e)
  {
    hide CellAt, PeerSt;
  }

  lemma KeepsAll(c: Core)
    ensures KeepsValid(c, c)
  {
  }

  lemma CanOne(c: Core, r: PfxRow, j: nat)
    requires CanApply(c, r) && j < |r.cells|
    ensures if r.op.Remove? then j == 0 < |r.cells| - 1 ==> !CellAt(c, r.pfx, r.cells[j].peer).state.Invalid?
            else PeerSt(c.peers, r.cells[j].peer).Active?
  {
    assert r.cells[j] in r.cells;
  }

  lemma QuietNothing(c: Core, pfx: Pfx, k: PeerId)
    requires CellAt(c, pfx, k).state.Invalid?
    ensures CellPut(c, c, pfx, k, Quiet(CellAt(c, pfx, k)))
  {
  }

  lemma OneMore(t: Table, xs: seq<CellOp>, j: nat)
    requires j < |xs|
    ensures ApplyAll(t, xs[..j + 1]) == Apply(ApplyAll(t, xs[..j]), xs[j])
  {
    assert xs[..j + 1][..j] == xs[..j];
  }

  lemma FoundCellAt(c: Core, it: Iter, k: PeerId)
    requires Inv(c) && HasRow(c, it.ver, it.pfx) && it.cellValid && !KeySt(Row(c, it.ver, it.pfx).cells, k).Invalid?
    requires it.cell == Get(Row(c, it.ver, it.pfx).cells, k) && it.peer == Get(c.peers, k)
    ensures AtCell(c, it) && CellKey(c, it) == k
  {
    hide Inv;
    CellCounted(c, it.ver, it.pfx, it.cell);
  }
}
