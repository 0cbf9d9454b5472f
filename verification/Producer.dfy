/** The producer: turns a view, or the difference between two views, into rows, groups rows
    into messages and counts them. */
module ProducerClass {
  import opened Net
  import opened Khash
  import opened ViewState
  import opened RowSwap
  import opened Cascade
  import opened CellOps
  import opened Walk
  import opened Copying
  import opened Inserts
  import opened ViewClass
  import opened RowCodec
  import opened Tables
  import opened Sent

  const BUFFER_LEN := 65536

  class Producer {
    /** The prefix messages sent for the current frame, and the one being filled. */
    var sent: seq<seq<PfxRow>>
    var buf: seq<PfxRow>
    var written: nat
    var pfxCnt: nat
    /** Whether every buffered row of the frame found room behind the rows before it. */
    ghost var fits: bool

    const f: Filter
    const store: Store

    constructor (f: Filter, store: Store)
      ensures this.f == f && this.store == store
    {
      this.f, this.store := f, store;
      sent, buf, written, pfxCnt, fits := [], [], 0, 0, true;
    }

    /** Every row of the frame so far, sent or waiting in the buffer. */
    ghost function All(): seq<PfxRow>
      reads this
    {
      Flat(sent) + buf
    }

    /** The number of cells in those rows. */
    ghost function CellCnt(): nat
      reads this
    {
      |FrameOps(All())|
    }

    /** The count that the end record will carry is right, only good rows are ever sent, and rows
        of at most half the buffer always find room. */
    ghost predicate Tallied()
      reads this
    {
      && pfxCnt == |All()|
      && (forall m | m in sent :: |m| > 0)
      && GoodRows(All())
      && (SmallRows(All()) ==> fits)
    }

    /** Between rows, at most half of the buffer is in use. */
    ghost predicate Counted()
      reads this
    {
      Tallied() && written <= BUFFER_LEN / 2
    }

    // -------------------------------------------------------------- sending rows

    method StartFrame()
      modifies this
      ensures Counted() && All() == [] && CellCnt() == 0 && pfxCnt == 0 && written == 0 && fits
    {
      sent, buf, written, pfxCnt, fits := [], [], 0, 0, true;
    }

    /** Send what is left in the buffer; the result is the count in the end record. */
    method EndFrame() returns (cnt: nat)
      requires Counted()
      modifies this
      ensures Counted() && buf == [] && Flat(sent) == old(All()) && cnt == |Flat(sent)| == old(pfxCnt)
    {
      if |buf| > 0 {
        Flush();
      }
      assert All() == Flat(sent);
      cnt := pfxCnt;
    }

    /** Put the row into the buffer; the buffer goes out when it is more than half full. The room
        that is left is not looked at: the row fits exactly when the rows before it leave enough. */
    method Emit(row: PfxRow)
      requires Counted() && GoodRow(row)
      modifies this
      ensures Counted() && Said(All()) == Said(old(All())) + Said([row]) && All() == old(All()) + [row]
      ensures pfxCnt == old(pfxCnt) + 1 && CellCnt() == old(CellCnt()) + |row.cells|
      ensures fits == (old(fits) && old(written) + Size(row) <= BUFFER_LEN)
      ensures written == if old(written) + Size(row) > BUFFER_LEN / 2 then 0 else old(written) + Size(row)
    {
      hide Size, SmallRows, Said, GoodRow, Flat, FrameOps;
      ghost var all := All();
      OneRowMore(all, row);
      fits := fits && written + Size(row) <= BUFFER_LEN;
      buf, written, pfxCnt := buf + [row], written + Size(row), pfxCnt + 1;
      assert All() == all + [row];
      SaidMore(all, [row]);
      SmallMore(all, row);
      if written > BUFFER_LEN / 2 {
        Flush();
      }
    }

    method Flush()
      requires Tallied() && |buf| > 0
      modifies this
      ensures Counted() && All() == old(All()) && buf == [] && written == 0 && pfxCnt == old(pfxCnt)
      ensures fits == old(fits)
    {
      ghost var all := All();
      assert (sent + [buf])[..|sent|] == sent;
      sent, buf, written := sent + [buf], [], 0;
      assert All() == all;
    }

    /** Send the row as a message of its own, past whatever waits in the buffer. */
    method SendNow(row: PfxRow)
      requires Counted() && GoodRow(row)
      modifies this
      ensures Counted() && Said(All()) == Said(old(All())) + Said([row]) && fits == old(fits)
      ensures CellCnt() == old(CellCnt()) + |row.cells|
    {
      hide Said, Flat, GoodRows, SmallRows, FrameOps;
      SentNow(sent, buf, row);
      sent, pfxCnt := sent + [[row]], pfxCnt + 1;
    }

    /** The cells of one prefix row: its active cells whose peers pass the filter. */
    method PickCells(view: View, it: Iter, op: Op) returns (cells: seq<WireCell>)
      requires view.Valid() && HasRow(view.S(), it.ver, it.pfx)
      ensures RowCells(cells, op, PfxKey(view.S(), it.ver, it.pfx), Announced(view.S(), f, store))
      ensures DistinctPeers(cells)
    {
      hide Inv, Get, PickedTo, RowCells, Announced, KeySt;
      ghost var c := view.S();
      cells := [];
      var s := view.ScanCells(it.(cellMask := ACTIVE), 0);
      PickNone(op, c, s, f, store);
      PickSkip(cells, op, c, s, 0, f, store);
      while s.cellValid
        invariant s.ver == it.ver && s.pfx == it.pfx && s.cellMask == ACTIVE && Scanned(c, s, s.cell, ACTIVE)
        invariant PickedTo(cells, op, c, it.ver, it.pfx, Announced(c, f, store), s.cell)
        invariant Ordered(cells, Row(c, it.ver, it.pfx).cells, s.cell)
        invariant !s.cellValid ==> RowCells(cells, op, PfxKey(c, it.ver, it.pfx), Announced(c, f, store))
        decreases |view.pfxs.At(it.ver)[it.pfx].val.cells| - s.cell
      {
        OnPeer(c, s, s.cell, ACTIVE);
        PickStep(cells, op, c, s, f, store);
        var x := view.pfxs.At(it.ver)[it.pfx].val.cells[s.cell];
        var more := if FullFeed(view.peers[s.peer].val, f)
          then [WireCell(x.key, if op.Remove? then NO_PATH else store(x.val.path))] else [];
        RowKeys(c, it.ver, it.pfx);
        OrderedAdd(cells, more, Row(c, it.ver, it.pfx).cells, s.cell);
        cells := cells + more;
        ghost var m := s.cell;
        s := view.ScanCells(s, s.cell + 1);
        PickSkip(cells, op, c, s, m + 1, f, store);
      }
    }

    /** Compare the row of the prefix in the new view with its row in the parent: the cells to
        update, and the cells to remove. */
    method DiffCells(view: View, it: Iter, parent: View, pit: Iter) returns (upd: seq<WireCell>, rem: seq<WireCell>)
      requires view.Valid() && HasRow(view.S(), it.ver, it.pfx) && parent.Valid()
      requires HasRow(parent.S(), pit.ver, pit.pfx)
      requires PfxKey(view.S(), it.ver, it.pfx) == PfxKey(parent.S(), pit.ver, pit.pfx)
      ensures var pfx, p, n :=
              PfxKey(view.S(), it.ver, it.pfx), Announced(parent.S(), f, store), Announced(view.S(), f, store);
              && DiffSound(upd, rem, pfx, p, n) && LeanCells(upd, pfx, p, n, store)
              && forall k: PeerId :: Settled(upd, rem, pfx, p, n, k)
      ensures DistinctPeers(upd) && DistinctPeers(rem)
    {
      hide Inv, Get, Announced, DiffSound, Settled, SettledTo, KeySt, LeanCells;
      upd, rem := DiffNew(view, it, parent, pit);
      rem := DiffOld(view, it, parent, pit, upd, rem);
      DiffRows(upd, rem, view.S(), it.ver, it.pfx, parent.S(), pit.ver, pit.pfx, f, store);
    }

    /** The first loop: the active cells of the new view. */
    method DiffNew(view: View, it: Iter, parent: View, pit: Iter) returns (upd: seq<WireCell>, rem: seq<WireCell>)
      requires view.Valid() && HasRow(view.S(), it.ver, it.pfx) && parent.Valid()
      requires HasRow(parent.S(), pit.ver, pit.pfx)
      requires PfxKey(view.S(), it.ver, it.pfx) == PfxKey(parent.S(), pit.ver, pit.pfx)
      ensures var pfx, p, n :=
              PfxKey(view.S(), it.ver, it.pfx), Announced(parent.S(), f, store), Announced(view.S(), f, store);
              && DiffSound(upd, rem, pfx, p, n) && LeanCells(upd, pfx, p, n, store)
              && SettledTo(upd, rem, pfx, p, n, Row(view.S(), it.ver, it.pfx).cells,
                |Row(view.S(), it.ver, it.pfx).cells|)
      ensures DistinctPeers(upd)
      ensures Ordered(rem, Row(view.S(), it.ver, it.pfx).cells, |Row(view.S(), it.ver, it.pfx).cells|)
    {
      hide Inv, Get, Announced, Settled, SettledTo, DiffSound, LeanCells;
      ghost var c, p, n := view.S(), Announced(parent.S(), f, store), Announced(view.S(), f, store);
      ghost var pfx, cells := PfxKey(c, it.ver, it.pfx), Row(c, it.ver, it.pfx).cells;
      upd, rem := [], [];
      NothingSaid(pfx, p, n, cells, store);
      var s := view.ScanCells(it.(cellMask := ACTIVE), 0);
      SettledSkip(upd, rem, pfx, p, n, c, s, 0);
      while s.cellValid
        invariant s.ver == it.ver && s.pfx == it.pfx && s.cellMask == ACTIVE && Scanned(c, s, s.cell, ACTIVE)
        invariant DiffSound(upd, rem, pfx, p, n) && SettledTo(upd, rem, pfx, p, n, cells, s.cell)
        invariant Ordered(upd, cells, s.cell) && Ordered(rem, cells, s.cell) && LeanCells(upd, pfx, p, n, store)
        decreases |view.pfxs.At(it.ver)[it.pfx].val.cells| - s.cell
      {
        OnPeer(c, s, s.cell, ACTIVE);
        ghost var m, k := s.cell, CellKey(c, s);
        var u, r := DiffCell(view, s, parent, pit);
        CellSaid(upd, rem, u, r, pfx, p, n, k);
        LeanMore(upd, u, pfx, p, n, store, k);
        RowKeys(c, it.ver, it.pfx);
        SettledStep(upd, rem, upd + u, rem + r, pfx, p, n, cells, m);
        OrderedAdd(upd, u, cells, m);
        OrderedAdd(rem, r, cells, m);
        upd, rem := upd + u, rem + r;
        s := view.ScanCells(s, s.cell + 1);
        SettledSkip(upd, rem, pfx, p, n, c, s, m + 1);
      }
    }

    /** What has to be said of one active cell of the new view. */
    method DiffCell(view: View, s: Iter, parent: View, pit: Iter) returns (u: seq<WireCell>, r: seq<WireCell>)
      requires view.Valid() && AtCell(view.S(), s) && CellSt(Row(view.S(), s.ver, s.pfx).cells[s.cell]).Active?
      requires parent.Valid() && HasRow(parent.S(), pit.ver, pit.pfx)
      requires PfxKey(view.S(), s.ver, s.pfx) == PfxKey(parent.S(), pit.ver, pit.pfx)
      ensures var q, p, n := (PfxKey(view.S(), s.ver, s.pfx), CellKey(view.S(), s)), Announced(parent.S(), f, store),
                Announced(view.S(), f, store);
              && (|u| > 0 ==> q in n && u == [WireCell(q.1, n[q])] && (OneId(store) ==> !Agree(p, n, q)))
              && (|r| > 0 ==> q in p && q !in n && r == [WireCell(q.1, NO_PATH)])
              && (Agree(p, n, q) || |u| > 0 || |r| > 0)
    {
      hide Inv, Get, Announced;
      var x := view.pfxs.At(s.ver)[s.pfx].val.cells[s.cell];
      var found, was := parent.PfxSeekPeer(pit, x.key, ACTIVE);
      AnnouncedAt(view.S(), s, f, store);
      AnnouncedRow(parent.S(), pit.ver, pit.pfx, x.key, f, store);
      if found { CellCounted(parent.S(), was.ver, was.pfx, was.cell); }
      var before := found && FullFeed(parent.peers[was.peer].val, f);
      var now := FullFeed(view.peers[s.peer].val, f);
      u, r := [], [];
      if before && now {
        if parent.pfxs.At(pit.ver)[pit.pfx].val.cells[was.cell].val.path != x.val.path {
          u := [WireCell(x.key, store(x.val.path))];
        }
      } else if before {
        r := [WireCell(x.key, NO_PATH)];
      } else if now {
        u := [WireCell(x.key, store(x.val.path))];
      }
    }

    /** The second loop: the active cells of the parent that the new view no longer has. */
    method DiffOld(view: View, it: Iter, parent: View, pit: Iter, upd: seq<WireCell>, rem0: seq<WireCell>)
      returns (rem: seq<WireCell>)
      requires view.Valid() && HasRow(view.S(), it.ver, it.pfx) && parent.Valid()
      requires HasRow(parent.S(), pit.ver, pit.pfx)
      requires PfxKey(view.S(), it.ver, it.pfx) == PfxKey(parent.S(), pit.ver, pit.pfx)
      requires var pfx, p, n :=
               PfxKey(view.S(), it.ver, it.pfx), Announced(parent.S(), f, store), Announced(view.S(), f, store);
              && DiffSound(upd, rem0, pfx, p, n)
              && SettledTo(upd, rem0, pfx, p, n, Row(view.S(), it.ver, it.pfx).cells,
                |Row(view.S(), it.ver, it.pfx).cells|)
      requires Ordered(rem0, Row(view.S(), it.ver, it.pfx).cells, |Row(view.S(), it.ver, it.pfx).cells|)
      ensures DistinctPeers(rem)
      ensures var pfx, p, n :=
              PfxKey(view.S(), it.ver, it.pfx), Announced(parent.S(), f, store), Announced(view.S(), f, store);
              && DiffSound(upd, rem, pfx, p, n)
              && SettledTo(upd, rem, pfx, p, n, Row(view.S(), it.ver, it.pfx).cells,
                |Row(view.S(), it.ver, it.pfx).cells|)
              && SettledTo(upd, rem, pfx, p, n, Row(parent.S(), pit.ver, pit.pfx).cells,
                |Row(parent.S(), pit.ver, pit.pfx).cells|)
    {
      hide Inv, Get, Announced, Settled, SettledTo, DiffSound;
      ghost var d, p, n := parent.S(), Announced(parent.S(), f, store), Announced(view.S(), f, store);
      ghost var pfx, cells, all :=
        PfxKey(d, pit.ver, pit.pfx), Row(d, pit.ver, pit.pfx).cells, Row(view.S(), it.ver, it.pfx).cells;
      rem := rem0;
      NothingOld(upd, rem, pfx, p, n, cells);
      var s := parent.ScanCells(pit.(cellMask := ACTIVE), 0);
      SettledSkip(upd, rem, pfx, p, n, d, s, 0);
      while s.cellValid
        invariant s.ver == pit.ver && s.pfx == pit.pfx && s.cellMask == ACTIVE && Scanned(d, s, s.cell, ACTIVE)
        invariant DiffSound(upd, rem, pfx, p, n) && SettledTo(upd, rem, pfx, p, n, cells, s.cell)
        invariant SettledTo(upd, rem, pfx, p, n, all, |all|) && OrderedOld(rem, all, cells, s.cell)
        decreases |parent.pfxs.At(pit.ver)[pit.pfx].val.cells| - s.cell
      {
        ghost var m := s.cell;
        OnPeer(d, s, s.cell, ACTIVE);
        var x := parent.pfxs.At(pit.ver)[pit.pfx].val.cells[s.cell];
        AnnouncedAt(d, s, f, store);
        AnnouncedRow(view.S(), it.ver, it.pfx, x.key, f, store);
        var r: seq<WireCell> := [];
        if FullFeed(parent.peers[s.peer].val, f) {
          var found, _ := view.PfxSeekPeer(it, x.key, ACTIVE);
          if !found {
            r := [WireCell(x.key, NO_PATH)];
          }
        }
        OldCell(upd, rem, r, pfx, p, n, all, x.key);
        RowKeys(d, pit.ver, pit.pfx);
        SettledStep(upd, rem, upd, rem + r, pfx, p, n, cells, m);
        OrderedMore(rem, r, all, cells, m);
        SettledStill(upd, rem, upd, rem + r, pfx, p, n, all, |all|);
        rem := rem + r;
        s := parent.ScanCells(s, s.cell + 1);
        SettledSkip(upd, rem, pfx, p, n, d, s, m + 1);
      }
    }

    // -------------------------------------------------------------- peers

    /** The list of a frame: every active peer that shows enough prefixes, once, under its signature,
        and no other; so every peer of an announced cell is listed. */
    ghost predicate Lists(peers: seq<(PeerId, PeerSig)>, c: Core, sigOf: PeerId -> PeerSig) {
      && (forall k: PeerId :: (k, sigOf(k)) in peers <==> PeerSt(c.peers, k).Active? && ShowsEnough(c, k, f))
      && (forall x | x in peers :: x.1 == sigOf(x.0))
      && (forall i, j :: 0 <= i < j < |peers| ==> peers[i].0 != peers[j].0)
      && forall q: Key | q in Announced(c, f, store) :: (q.1, sigOf(q.1)) in peers
    }

    /** What the walk over the peers has listed. */
    ghost predicate ListedTo(peers: seq<(PeerId, PeerSig)>, c: Core, sigOf: PeerId -> PeerSig, n: nat) {
      && (forall k: PeerId :: (k, sigOf(k)) in peers <==>
              PeerSt(c.peers, k).Active? && Passes(c.peers, k, f) && Get(c.peers, k) < n)
      && (forall x | x in peers :: x.1 == sigOf(x.0))
      && forall i, j :: 0 <= i < j < |peers| ==> peers[i].0 != peers[j].0
    }

    lemma ListedAll(peers: seq<(PeerId, PeerSig)>, c: Core, sigOf: PeerId -> PeerSig)
      requires Inv(c) && ListedTo(peers, c, sigOf, |c.peers|)
      ensures Lists(peers, c, sigOf)
    {
      hide Inv, Get, CellAt, ShowsEnough;
      forall k: PeerId | !PeerSt(c.peers, k).Invalid? ensures Passes(c.peers, k, f) <==> ShowsEnough(c, k, f) {
        PassesMeans(c, k, f);
      }
      forall q: Key | q in Announced(c, f, store) ensures (q.1, sigOf(q.1)) in peers {
        ActiveIsMatch(c, q.0, q.1);
      }
    }

    lemma ListedNone(c: Core, sigOf: PeerId -> PeerSig)
      ensures ListedTo([], c, sigOf, 0)
    {
      hide Get;
    }

    /** Slots that hold no active peer add nothing to the list. */
    lemma ListedSkip(peers: seq<(PeerId, PeerSig)>, c: Core, sigOf: PeerId -> PeerSig, n: nat, m: nat)
      requires ListedTo(peers, c, sigOf, n) && n <= m <= |c.peers|
      requires forall i :: n <= i < m && c.peers[i].Used? ==> !c.peers[i].val.state.Active?
      ensures ListedTo(peers, c, sigOf, m)
    {
      hide Get;
    }

    lemma ListedMore(peers: seq<(PeerId, PeerSig)>, c: Core, sigOf: PeerId -> PeerSig, p: nat)
      requires Unique(c.peers) && p < |c.peers| && c.peers[p].Used? && c.peers[p].val.state.Active?
      requires ListedTo(peers, c, sigOf, p)
      ensures var k := c.peers[p].key;
              ListedTo(if FullFeed(c.peers[p].val, f) then peers + [(k, sigOf(k))] else peers, c, sigOf, p + 1)
    {
      hide Get, Unique, FullFeed, Passes;
      var key := c.peers[p].key;
      GetIsSlot(c.peers, p);
      assert Passes(c.peers, key, f) <==> FullFeed(c.peers[p].val, f) by { PassesAt(c.peers, p, f); }
      var more := if FullFeed(c.peers[p].val, f) then peers + [(key, sigOf(key))] else peers;
      forall k: PeerId
        ensures (k, sigOf(k)) in more <==>
                PeerSt(c.peers, k).Active? && Passes(c.peers, k, f) && Get(c.peers, k) < p + 1
      {
        assert (k, sigOf(k)) in more <==> (k, sigOf(k)) in peers || (k == key && FullFeed(c.peers[p].val, f));
        if k != key { assert Get(c.peers, k) != p; }
      }
      if more != peers {
        assert (key, sigOf(key)) !in peers;
        OneMoreKey(peers, sigOf, key);
      }
    }

    lemma OneMoreKey(peers: seq<(PeerId, PeerSig)>, sigOf: PeerId -> PeerSig, key: PeerId)
      requires forall i, j :: 0 <= i < j < |peers| ==> peers[i].0 != peers[j].0
      requires (key, sigOf(key)) !in peers && forall x | x in peers :: x.1 == sigOf(x.0)
      ensures var more := peers + [(key, sigOf(key))];
              (forall i, j :: 0 <= i < j < |more| ==> more[i].0 != more[j].0) && forall x | x in more ::
                x.1 == sigOf(x.0)
    {
      forall i | 0 <= i < |peers| ensures peers[i].0 != key { assert peers[i] in peers; }
    }

    /** List the active peers that pass the filter, with their signatures. */
    method SendPeers(view: View, sigOf: PeerId -> PeerSig) returns (peers: seq<(PeerId, PeerSig)>)
      requires view.Valid()
      ensures Lists(peers, view.S(), sigOf)
    {
      hide Inv, Get, CellAt, Lists, ListedTo;
      ghost var c := view.S();
      UniquePeers(c);
      peers := [];
      var it := Iter(V4, None, 0, ACTIVE, 0, false, ACTIVE, 0, ACTIVE);
      it := view.FirstPeer(it, ACTIVE);
      assert ListedTo([], c, sigOf, 0) by { ListedNone(c, sigOf); }
      ListedSkip([], c, sigOf, 0, it.peer);
      while it.peer < |view.peers|
        invariant view.PeerMoved(it.peer, ACTIVE, it) && ListedTo(peers, c, sigOf, it.peer)
        decreases |view.peers| - it.peer
      {
        var k := view.peers[it.peer].key;
        ListedMore(peers, c, sigOf, it.peer);
        if FullFeed(view.peers[it.peer].val, f) {
          peers := peers + [(k, sigOf(k))];
        }
        ghost var was := it.peer;
        it := view.NextPeer(it);
        ListedSkip(peers, c, sigOf, was + 1, it.peer);
      }
      ListedAll(peers, c, sigOf);
    }

    // -------------------------------------------------------------- whole frames

    /** Send every prefix row of the view; the result is the count in the end record. */
    method SendSyncPfxs(view: View) returns (cnt: nat)
      requires view.Valid()
      modifies this
      ensures buf == [] && cnt == |Flat(sent)| && Counted()
      ensures cnt <= Span(view.S()) && forall r | r in Flat(sent) :: r.op.Sync?
      ensures DiffOf(FrameOps(Flat(sent)), imap[], Announced(view.S(), f, store))
      ensures NoWaste(FrameOps(Flat(sent)), imap[], Announced(view.S(), f, store), store)
    {
      hide Inv, Get, Announced, Covers, Sound, RowCells, CoveredTo, Said, Flat, FrameOps, DiffOf, GoodRows, SmallRows;
      hide Size, Spoken, Only, Frugal, NoWaste;
      StartFrame();
      ghost var c, n := view.S(), Announced(view.S(), f, store);
      FrameStart(imap[], n, c);
      NothingYet(imap[], n, store, c);
      var it := Iter(V4, None, 0, ACTIVE, 0, false, ACTIVE, 0, ACTIVE);
      it := view.FirstPfx(it, None, ACTIVE);
      CoverMove({}, imap[], n, c, 0, it);
      OnlyLater({}, c, 0, Where(c, it));
      while HasMorePfx(view.pfxs, it)
        invariant Counted() && Sound(Said(All()), imap[], n) && CoveredTo(Said(All()), imap[], n, c, Where(c, it))
        invariant PfxMoved(c, Where(c, it), None, ACTIVE, it) && pfxCnt <= Where(c, it) && AllSync(All())
        invariant Only(Said(All()), c, Where(c, it)) && Frugal(Said(All()), CellCnt(), imap[], n, store)
        decreases Span(c) - Where(c, it)
      {
        ghost var was, said, cells0 := it, Said(All()), CellCnt();
        SendSyncRow(view, it);
        SpokenStep(said, Said(All()), cells0, CellCnt(), imap[], n, store, c, it);
        it := view.NextPfx(it);
        CoverMove(Said(All()), imap[], n, c, Where(c, was) + 1, it);
        OnlyLater(Said(All()), c, Where(c, was) + 1, Where(c, it));
      }
      CoverSync(Said(All()), c, f, store);
      cnt := EndFrame();
      SaidIsDiff(Flat(sent), imap[], n);
      FrugalFrame(Flat(sent), imap[], n, store);
    }

    /** The row of one prefix in a sync frame, if it has cells. */
    method SendSyncRow(view: View, it: Iter)
      requires view.Valid() && HasRow(view.S(), it.ver, it.pfx) && Counted() && AllSync(All())
      modifies this
      ensures Counted() && AllSync(All()) && pfxCnt <= old(pfxCnt) + 1
      ensures Spoken(Said(old(All())), Said(All()), old(CellCnt()), CellCnt(), imap[], Announced(view.S(), f, store),
              store,
                     PfxKey(view.S(), it.ver, it.pfx))
    {
      hide Inv, Get, Announced, Covers, Sound, RowCells, Said, Flat, FrameOps, GoodRows, SmallRows, Size, Spoken;
      var cells := PickCells(view, it, Sync);
      var row := PfxRow(Sync, view.pfxs.At(it.ver)[it.pfx].key, cells);
      UpdateRow(cells, Sync, row.pfx, imap[], Announced(view.S(), f, store));
      SendRow(row, imap[], Announced(view.S(), f, store));
    }

    /** The update and the removal row of a prefix that both views have. */
    method SendCells(view: View, it: Iter, parent: View, pit: Iter)
      requires view.Valid() && HasRow(view.S(), it.ver, it.pfx) && parent.Valid()
      requires HasRow(parent.S(), pit.ver, pit.pfx)
      requires PfxKey(view.S(), it.ver, it.pfx) == PfxKey(parent.S(), pit.ver, pit.pfx) && Counted()
      modifies this
      ensures Counted()
      ensures Spoken(Said(old(All())), Said(All()), old(CellCnt()), CellCnt(), Announced(parent.S(), f, store),
                     Announced(view.S(), f, store), store, PfxKey(view.S(), it.ver, it.pfx))
    {
      hide Inv, Get, Announced, Covers, Sound, RowCells, Said, Flat, GoodRows, DiffSound, Settled, Lean, About;
      hide FrameOps;
      hide LeanCells, SmallRows;
      var upd, rem := DiffCells(view, it, parent, pit);
      var pfx := view.pfxs.At(it.ver)[it.pfx].key;
      var u, r := PfxRow(Update, pfx, upd), PfxRow(Remove, pfx, rem);
      ghost var said, p, n := Said(All()), Announced(parent.S(), f, store), Announced(view.S(), f, store);
      DiffRowsSaid(upd, rem, pfx, p, n);
      DiffRowsLean(upd, rem, pfx, p, n, store);
      RemovesNoPath(upd, rem, pfx, p, n);
      if |upd| > 0 {
        SendNow(u);
      } else {
        EmptyRow(u);
      }
      if |rem| > 0 {
        SendNow(r);
      } else {
        EmptyRow(r);
      }
      SoundMore(Said([u]), Said([r]), p, n);
      assert SpokenBy(said, Said(All()), old(CellCnt()), CellCnt(), p, n, store, pfx, Said([u]) + Said([r]));
    }

    /** Send one whole row, if it has cells. */
    method SendRow(row: PfxRow, ghost p: Table, ghost n: Table)
      requires Counted() && Sound(Said([row]), p, n) && Covers(Said([row]), p, n, row.pfx)
      requires (forall x | x in Said([row]) :: !Agree(p, n, x.key)) && (|row.cells| > 0 ==> GoodRow(row))
      modifies this
      ensures Counted() && Spoken(Said(old(All())), Said(All()), old(CellCnt()), CellCnt(), p, n, store, row.pfx)
      ensures All() == if |row.cells| > 0 then old(All()) + [row] else old(All())
    {
      hide Covers, Sound, Said, Flat, GoodRows, About, FrameOps, SmallRows;
      RowMentions(row);
      if |row.cells| > 0 {
        Emit(row);
      } else {
        EmptyRow(row);
      }
      assert SpokenBy(Said(old(All())), Said(All()), old(CellCnt()), CellCnt(), p, n, store, row.pfx, Said([row]));
    }

    /** One prefix of the new view, against the parent. */
    method SendNewRow(view: View, it: Iter, parent: View)
      requires view.Valid() && HasRow(view.S(), it.ver, it.pfx) && parent.Valid() && Counted()
      modifies this
      ensures Counted()
      ensures Spoken(Said(old(All())), Said(All()), old(CellCnt()), CellCnt(), Announced(parent.S(), f, store),
                     Announced(view.S(), f, store), store, PfxKey(view.S(), it.ver, it.pfx))
    {
      hide Inv, Get, Announced, Covers, Sound, RowCells, Said, Flat, GoodRows, Counted, Spoken, SmallRows, CellCnt;
      ghost var p, n := Announced(parent.S(), f, store), Announced(view.S(), f, store);
      var pfx := view.pfxs.At(it.ver)[it.pfx].key;
      var found, pit := parent.SeekPfx(it, pfx, ACTIVE);
      if found {
        SendCells(view, it, parent, pit);
      } else {
        var cells := PickCells(view, it, Update);
        SilentPfx(parent.S(), pfx, f, store);
        UpdateRow(cells, Update, pfx, p, n);
        SendRow(PfxRow(Update, pfx, cells), p, n);
      }
    }

    /** The first pass: every prefix of the new view, against the parent. */
    method SendNewPfxs(view: View, parent: View)
      requires view.Valid() && parent.Valid() && Counted() && All() == [] && CellCnt() == 0
      modifies this
      ensures var p, n := Announced(parent.S(), f, store), Announced(view.S(), f, store);
              && Counted() && Sound(Said(All()), p, n) && CoveredTo(Said(All()), p, n, view.S(), Span(view.S()))
              && Only(Said(All()), view.S(), Span(view.S())) && Frugal(Said(All()), CellCnt(), p, n, store)
    {
      hide Inv, Get, Announced, Covers, Sound, CoveredTo, Said, Flat, GoodRows, Counted, Spoken, SmallRows;
      hide Only, Frugal, CellCnt, FrameOps;
      ghost var c, p, n := view.S(), Announced(parent.S(), f, store), Announced(view.S(), f, store);
      NothingYet(p, n, store, c);
      FrameStart(p, n, c);
      var it := Iter(V4, None, 0, ACTIVE, 0, false, ACTIVE, 0, ACTIVE);
      it := view.FirstPfx(it, None, ACTIVE);
      CoverMove({}, p, n, c, 0, it);
      OnlyLater({}, c, 0, Where(c, it));
      while HasMorePfx(view.pfxs, it)
        invariant Counted() && Sound(Said(All()), p, n) && CoveredTo(Said(All()), p, n, c, Where(c, it))
        invariant PfxMoved(c, Where(c, it), None, ACTIVE, it)
        invariant Only(Said(All()), c, Where(c, it)) && Frugal(Said(All()), CellCnt(), p, n, store)
        decreases Span(c) - Where(c, it)
      {
        ghost var was, said, cells0 := it, Said(All()), CellCnt();
        SendNewRow(view, it, parent);
        SpokenStep(said, Said(All()), cells0, CellCnt(), p, n, store, c, it);
        it := view.NextPfx(it);
        CoverMove(Said(All()), p, n, c, Where(c, was) + 1, it);
        OnlyLater(Said(All()), c, Where(c, was) + 1, Where(c, it));
      }
    }

    /** One prefix of the parent: nothing if the new view still has it, its removal otherwise. */
    method SendOldRow(view: View, parent: View, pit: Iter) returns (found: bool)
      requires view.Valid() && parent.Valid() && HasRow(parent.S(), pit.ver, pit.pfx) && Counted()
      modifies this
      ensures Counted() && (found <==> ActivePfx(view.S(), PfxKey(parent.S(), pit.ver, pit.pfx)))
      ensures found ==> All() == old(All()) && CellCnt() == old(CellCnt())
      ensures !found ==> Spoken(Said(old(All())), Said(All()), old(CellCnt()), CellCnt(),
              Announced(parent.S(), f, store),
                                Announced(view.S(), f, store), store, PfxKey(parent.S(), pit.ver, pit.pfx))
    {
      hide Inv, Get, Announced, Covers, Sound, RowCells, Said, Flat, GoodRows, Counted, Spoken, SmallRows, CellCnt;
      ghost var p, n := Announced(parent.S(), f, store), Announced(view.S(), f, store);
      var pfx := parent.pfxs.At(pit.ver)[pit.pfx].key;
      var it;
      found, it := view.SeekPfx(pit, pfx, ACTIVE);
      if !found {
        var cells := PickCells(parent, pit, Remove);
        SilentPfx(view.S(), pfx, f, store);
        RemoveRow(cells, pfx, p, n);
        PickedNoPath(cells, pfx, p);
        SendRow(PfxRow(Remove, pfx, cells), p, n);
      }
    }

    /** The second pass: every prefix of the parent that the new view no longer has. */
    method SendOldPfxs(view: View, parent: View)
      requires view.Valid() && parent.Valid() && Counted()
      requires var p, n := Announced(parent.S(), f, store), Announced(view.S(), f, store);
               && Sound(Said(All()), p, n) && CoveredTo(Said(All()), p, n, view.S(), Span(view.S()))
               && Only(Said(All()), view.S(), Span(view.S())) && Frugal(Said(All()), CellCnt(), p, n, store)
      modifies this
      ensures var p, n := Announced(parent.S(), f, store), Announced(view.S(), f, store);
              && Counted() && Sound(Said(All()), p, n) && (forall pfx: Pfx :: Covers(Said(All()), p, n, pfx))
              && Frugal(Said(All()), CellCnt(), p, n, store)
    {
      hide Inv, Get, Announced, Covers, Sound, CoveredTo, Said, Flat, GoodRows, Counted, Spoken, SmallRows;
      hide Only, OnlyOld, Frugal, CellCnt, FrameOps, ActivePfx;
      ghost var c, d, p, n := view.S(), parent.S(), Announced(parent.S(), f, store), Announced(view.S(), f, store);
      CoverNone(Said(All()), p, n, d);
      var pit := Iter(V4, None, 0, ACTIVE, 0, false, ACTIVE, 0, ACTIVE);
      pit := parent.FirstPfx(pit, None, ACTIVE);
      CoverMove(Said(All()), p, n, d, 0, pit);
      OnlyFirst(Said(All()), c, d);
      OnlyOldLater(Said(All()), c, d, 0, Where(d, pit));
      while HasMorePfx(parent.pfxs, pit)
        invariant Counted() && Sound(Said(All()), p, n) && CoveredTo(Said(All()), p, n, c, Span(c))
        invariant CoveredTo(Said(All()), p, n, d, Where(d, pit)) && PfxMoved(d, Where(d, pit), None, ACTIVE, pit)
        invariant OnlyOld(Said(All()), c, d, Where(d, pit)) && Frugal(Said(All()), CellCnt(), p, n, store)
        decreases Span(d) - Where(d, pit)
      {
        ghost var was, said, cells0 := pit, Said(All()), CellCnt();
        var found := SendOldRow(view, parent, pit);
        if found {
          AlreadySpoken(said, p, n, c, d, pit);
        } else {
          SpokenOld(said, Said(All()), cells0, CellCnt(), p, n, store, c, d, pit);
        }
        pit := parent.NextPfx(pit);
        CoverMove(Said(All()), p, n, d, Where(d, was) + 1, pit);
        OnlyOldLater(Said(All()), c, d, Where(d, was) + 1, Where(d, pit));
      }
      CoverDone(Said(All()), c, d, f, store);
    }

    /** Send the difference between the view and its parent. */
    method SendDiffPfxs(view: View, parent: View) returns (cnt: nat)
      requires view.Valid() && parent.Valid()
      modifies this
      ensures buf == [] && cnt == |Flat(sent)| && Counted()
      ensures DiffOf(FrameOps(Flat(sent)), Announced(parent.S(), f, store), Announced(view.S(), f, store))
      ensures NoWaste(FrameOps(Flat(sent)), Announced(parent.S(), f, store), Announced(view.S(), f, store), store)
    {
      hide Inv, Announced, Covers, Sound, CoveredTo, Said, Flat, GoodRows, Counted, FrameOps, DiffOf, Only, Frugal;
      hide NoWaste;
      StartFrame();
      SendNewPfxs(view, parent);
      SendOldPfxs(view, parent);
      cnt := EndFrame();
      SaidIsDiff(Flat(sent), Announced(parent.S(), f, store), Announced(view.S(), f, store));
      FrugalFrame(Flat(sent), Announced(parent.S(), f, store), Announced(view.S(), f, store), store);
    }

    /** A whole sync frame: the peers, then the prefixes. */
    method SendSyncView(view: View, sigOf: PeerId -> PeerSig) returns (peers: seq<(PeerId, PeerSig)>, cnt: nat)
      requires view.Valid()
      modifies this
      ensures Lists(peers, view.S(), sigOf) && cnt == |Flat(sent)|
      ensures DiffOf(FrameOps(Flat(sent)), imap[], Announced(view.S(), f, store))
      ensures NoWaste(FrameOps(Flat(sent)), imap[], Announced(view.S(), f, store), store)
    {
      peers := SendPeers(view, sigOf);
      hide Inv, Announced, DiffOf, FrameOps, Flat, NoWaste;
      cnt := SendSyncPfxs(view);
    }

    /** A whole diff frame. */
    method SendDiffView(view: View, parent: View, sigOf: PeerId -> PeerSig)
      returns (peers: seq<(PeerId, PeerSig)>, cnt: nat)
      requires view.Valid() && parent.Valid()
      modifies this
      ensures Lists(peers, view.S(), sigOf) && cnt == |Flat(sent)|
      ensures DiffOf(FrameOps(Flat(sent)), Announced(parent.S(), f, store), Announced(view.S(), f, store))
      ensures NoWaste(FrameOps(Flat(sent)), Announced(parent.S(), f, store), Announced(view.S(), f, store), store)
    {
      peers := SendPeers(view, sigOf);
      hide Inv, Announced, DiffOf, FrameOps, Flat, NoWaste;
      cnt := SendDiffPfxs(view, parent);
    }
  }

  lemma NothingOld(upd: seq<WireCell>, rem: seq<WireCell>, pfx: Pfx, p: Table, n: Table, cells: Cells)
    ensures SettledTo(upd, rem, pfx, p, n, cells, 0)
  {
  }

  lemma NothingSaid(pfx: Pfx, p: Table, n: Table, cells: Cells, store: Store)
    ensures DiffSound([], [], pfx, p, n) && SettledTo([], [], pfx, p, n, cells, 0) && LeanCells([], pfx, p, n, store)
  {
  }

  lemma LeanMore(upd: seq<WireCell>, u: seq<WireCell>, pfx: Pfx, p: Table, n: Table, store: Store, k: PeerId)
    requires LeanCells(upd, pfx, p, n, store)
    requires |u| > 0 ==> |u| == 1 && u[0].peer == k && (OneId(store) ==> !Agree(p, n, (pfx, k)))
    ensures LeanCells(upd + u, pfx, p, n, store)
  {
  }

  lemma PickNone(op: Op, c: Core, it: Iter, f: Filter, store: Store)
    requires HasRow(c, it.ver, it.pfx)
    ensures PickedTo([], op, c, it.ver, it.pfx, Announced(c, f, store), 0)
  {
  }

  lemma FrameStart(p: Table, n: Table, c: Core)
    ensures Sound(Said([]), p, n) && CoveredTo(Said([]), p, n, c, 0) && Said([]) == {}
  {
  }

  lemma EmptyRow(row: PfxRow)
    requires |row.cells| == 0
    ensures Said([row]) == {}
  {
    OneRow(row);
  }

  lemma SoundMore(said: set<CellOp>, more: set<CellOp>, p: Table, n: Table)
    requires Sound(said, p, n) && Sound(more, p, n)
    ensures Sound(said + more, p, n)
  {
  }

  ghost predicate GoodRows(rs: seq<PfxRow>) { forall r | r in rs :: GoodRow(r) }

  ghost predicate SmallRows(rs: seq<PfxRow>) { forall r | r in rs :: Size(r) <= BUFFER_LEN / 2 }

  lemma SmallMore(rs: seq<PfxRow>, row: PfxRow)
    ensures SmallRows(rs + [row]) <==> SmallRows(rs) && Size(row) <= BUFFER_LEN / 2
  {
    hide Size;
    if SmallRows(rs + [row]) {
      assert row in rs + [row];
      forall r | r in rs ensures Size(r) <= BUFFER_LEN / 2 { assert r in rs + [row]; }
    }
  }

  /** Two rows that the format can carry, and that each fit the buffer alone, of which the second
      does not fit behind the first. */
  method LongRowOverruns(f: Filter, store: Store) returns (p: Producer, a: PfxRow, b: PfxRow)
    ensures Fits(a) && Fits(b) && Size(a) <= BUFFER_LEN && Size(b) <= BUFFER_LEN
    ensures p.Counted() && p.All() == [a, b] && !p.fits
  {
    var pfx := Pfx(Ip(V4, [192, 0, 2, 0]), 24);
    a := PfxRow(Sync, pfx, [WireCell(1, StorePath(0, seq(32000, _ => 0)))]);
    b := PfxRow(Sync, pfx, [WireCell(1, StorePath(0, seq(40000, _ => 0)))]);
    OneCellSize(a);
    OneCellSize(b);
    p := new Producer(f, store);
    p.StartFrame();
    p.Emit(a);
    p.Emit(b);
  }

  lemma OneCellSize(r: PfxRow)
    requires r.op.Sync? && |r.cells| == 1 && r.pfx.addr.Ok() && r.pfx.addr.ver.V4?
    ensures Size(r) == 16 + |r.cells[0].path.data|
  {
    assert r.cells[1..] == [] && CellsSize(r.op, []) == 0;
    assert CellsSize(r.op, r.cells) == 5 + |r.cells[0].path.data|;
    assert |PfxBytes(r.pfx)| == 6;
  }

  lemma SentNow(sent: seq<seq<PfxRow>>, buf: seq<PfxRow>, row: PfxRow)
    ensures var was, now := Flat(sent) + buf, Flat(sent + [[row]]) + buf;
            && Said(now) == Said(was) + Said([row]) && |now| == |was| + 1
            && |FrameOps(now)| == |FrameOps(was)| + |row.cells|
            && (GoodRows(was) && GoodRow(row) ==> GoodRows(now)) && (SmallRows(now) ==> SmallRows(was))
  {
    hide Said, Flat, Size, FrameOps;
    FlatMore(sent, [row]);
    FrameMore(Flat(sent), buf);
    FrameMore(Flat(sent) + [row], buf);
    OneRowMore(Flat(sent), row);
    SaidMore(Flat(sent), buf);
    SaidMore(Flat(sent), [row]);
    SaidMore(Flat(sent) + [row], buf);
  }

  lemma OneRowMore(rs: seq<PfxRow>, row: PfxRow)
    ensures |FrameOps(rs + [row])| == |FrameOps(rs)| + |row.cells|
  {
    assert (rs + [row])[..|rs|] == rs;
  }

  lemma FlatMore(sent: seq<seq<PfxRow>>, m: seq<PfxRow>)
    ensures Flat(sent + [m]) == Flat(sent) + m
  {
    assert (sent + [m])[..|sent|] == sent;
  }

  /** What has been said since `was` is sound and covers the prefix; it is about that prefix only,
      mentions no cell that is as it was, and has been sent once. */
  ghost predicate Spoken(was: set<CellOp>, now: set<CellOp>, cnt: nat, cnt': nat, p: Table, n: Table, store: Store,
                         pfx: Pfx) {
    exists more :: SpokenBy(was, now, cnt, cnt', p, n, store, pfx, more)
  }

  ghost predicate SpokenBy(was: set<CellOp>, now: set<CellOp>, cnt: nat, cnt': nat, p: Table, n: Table, store: Store,
                           pfx: Pfx, more: set<CellOp>) {
    && now == was + more && Sound(more, p, n) && Covers(more, p, n, pfx)
    && About(more, pfx) && Lean(more, p, n, store) && cnt' == cnt + |more|
  }

  /** One prefix of the new view further. */
  lemma SpokenStep(was: set<CellOp>, now: set<CellOp>, cnt: nat, cnt': nat, p: Table, n: Table, store: Store, c: Core,
                   it: Iter)
    requires Inv(c) && HasRow(c, it.ver, it.pfx) && Sound(was, p, n) && CoveredTo(was, p, n, c, Where(c, it))
    requires Row(c, it.ver, it.pfx).state.Active? && Only(was, c, Where(c, it)) && Frugal(was, cnt, p, n, store)
    requires Spoken(was, now, cnt, cnt', p, n, store, PfxKey(c, it.ver, it.pfx))
    ensures Sound(now, p, n) && CoveredTo(now, p, n, c, Where(c, it) + 1)
    ensures Only(now, c, Where(c, it) + 1) && Frugal(now, cnt', p, n, store)
  {
    hide Inv, Covers, Sound, CoveredTo, About, Lean, Only, Frugal, Where, ActivePfx, HasRow, Row;
    var pfx := PfxKey(c, it.ver, it.pfx);
    var more :| SpokenBy(was, now, cnt, cnt', p, n, store, pfx, more);
    SpokenMore(was, more, cnt, p, n, store, c, it);
  }

  lemma SpokenMore(was: set<CellOp>, more: set<CellOp>, cnt: nat, p: Table, n: Table, store: Store, c: Core, it: Iter)
    requires Inv(c) && HasRow(c, it.ver, it.pfx) && Sound(was, p, n) && CoveredTo(was, p, n, c, Where(c, it))
    requires Row(c, it.ver, it.pfx).state.Active? && Only(was, c, Where(c, it)) && Frugal(was, cnt, p, n, store)
    requires var pfx := PfxKey(c, it.ver, it.pfx);
             Sound(more, p, n) && Covers(more, p, n, pfx) && About(more, pfx) && Lean(more, p, n, store)
    ensures Sound(was + more, p, n) && CoveredTo(was + more, p, n, c, Where(c, it) + 1)
    ensures Only(was + more, c, Where(c, it) + 1) && Frugal(was + more, cnt + |more|, p, n, store)
  {
    hide Inv, Covers, Sound, CoveredTo, About, Lean, Only, Frugal, SilentOn, Where, ActivePfx, HasRow, Row;
    SoundMore(was, more, p, n);
    CoverStep(was, more, p, n, c, it);
    OnlyStep(was, more, c, it);
    FrugalMore(was, more, cnt, p, n, store, PfxKey(c, it.ver, it.pfx));
  }

  /** One prefix further that only the parent has. */
  lemma SpokenOld(was: set<CellOp>, now: set<CellOp>, cnt: nat, cnt': nat, p: Table, n: Table, store: Store, c: Core,
                  d: Core, it: Iter)
    requires Inv(d) && HasRow(d, it.ver, it.pfx) && Sound(was, p, n) && CoveredTo(was, p, n, d, Where(d, it))
    requires CoveredTo(was, p, n, c, Span(c)) && !ActivePfx(c, PfxKey(d, it.ver, it.pfx))
    requires OnlyOld(was, c, d, Where(d, it)) && Frugal(was, cnt, p, n, store)
    requires Spoken(was, now, cnt, cnt', p, n, store, PfxKey(d, it.ver, it.pfx))
    ensures Sound(now, p, n) && CoveredTo(now, p, n, d, Where(d, it) + 1) && CoveredTo(now, p, n, c, Span(c))
    ensures OnlyOld(now, c, d, Where(d, it) + 1) && Frugal(now, cnt', p, n, store)
  {
    hide Inv, Covers, Sound, CoveredTo, About, Lean, OnlyOld, Frugal, ActivePfx, Where, Span, HasRow;
    var pfx := PfxKey(d, it.ver, it.pfx);
    var more :| SpokenBy(was, now, cnt, cnt', p, n, store, pfx, more);
    SpokenOldMore(was, more, cnt, p, n, store, c, d, it);
  }

  lemma SpokenOldMore(was: set<CellOp>, more: set<CellOp>, cnt: nat, p: Table, n: Table, store: Store, c: Core, d: Core,
                      it: Iter)
    requires Inv(d) && HasRow(d, it.ver, it.pfx) && Sound(was, p, n) && CoveredTo(was, p, n, d, Where(d, it))
    requires CoveredTo(was, p, n, c, Span(c)) && !ActivePfx(c, PfxKey(d, it.ver, it.pfx))
    requires OnlyOld(was, c, d, Where(d, it)) && Frugal(was, cnt, p, n, store)
    requires var pfx := PfxKey(d, it.ver, it.pfx);
             Sound(more, p, n) && Covers(more, p, n, pfx) && About(more, pfx) && Lean(more, p, n, store)
    ensures Sound(was + more, p, n) && CoveredTo(was + more, p, n, d, Where(d, it) + 1)
    ensures CoveredTo(was + more, p, n, c, Span(c))
    ensures OnlyOld(was + more, c, d, Where(d, it) + 1) && Frugal(was + more, cnt + |more|, p, n, store)
  {
    hide Inv, Covers, Sound, CoveredTo, About, Lean, OnlyOld, Frugal, SilentOn, ActivePfx, Where, Span, HasRow;
    SoundMore(was, more, p, n);
    CoverStep(was, more, p, n, d, it);
    CoverMore(was, more, p, n, c, Span(c));
    OnlyOldStep(was, more, c, d, it);
    FrugalMore(was, more, cnt, p, n, store, PfxKey(d, it.ver, it.pfx));
  }

  /** A prefix of the new view was covered by the first pass. */
  lemma AlreadySpoken(said: set<CellOp>, p: Table, n: Table, c: Core, d: Core, it: Iter)
    requires Inv(d) && HasRow(d, it.ver, it.pfx) && CoveredTo(said, p, n, d, Where(d, it))
    requires CoveredTo(said, p, n, c, Span(c)) && ActivePfx(c, PfxKey(d, it.ver, it.pfx))
    requires OnlyOld(said, c, d, Where(d, it))
    ensures CoveredTo(said, p, n, d, Where(d, it) + 1) && OnlyOld(said, c, d, Where(d, it) + 1)
  {
    hide Covers, Get, Inv;
    assert Covers(said, p, n, PfxKey(d, it.ver, it.pfx));
    CoverStep(said, said, p, n, d, it);
    assert said == said + said;
  }

  lemma OnlyLater(said: set<CellOp>, c: Core, at: nat, at': nat)
    requires Only(said, c, at) && at <= at'
    ensures Only(said, c, at')
  {
    hide ActivePfx, PfxPos;
  }

  lemma OnlyOldLater(said: set<CellOp>, c: Core, d: Core, at: nat, at': nat)
    requires OnlyOld(said, c, d, at) && at <= at'
    ensures OnlyOld(said, c, d, at')
  {
    hide ActivePfx, PfxPos;
  }

  lemma NothingYet(p: Table, n: Table, store: Store, c: Core)
    ensures Frugal({}, 0, p, n, store) && Only({}, c, 0) && FrameOps([]) == []
  {
  }

  lemma OnlyFirst(said: set<CellOp>, c: Core, d: Core)
    requires Only(said, c, Span(c))
    ensures OnlyOld(said, c, d, 0)
  {
    hide ActivePfx, PfxPos;
  }

  lemma CoverNone(said: set<CellOp>, p: Table, n: Table, c: Core)
    ensures CoveredTo(said, p, n, c, 0)
  {
  }

  lemma RemovesNoPath(upd: seq<WireCell>, rem: seq<WireCell>, pfx: Pfx, p: Table, n: Table)
    requires DiffSound(upd, rem, pfx, p, n)
    ensures forall x | x in rem :: x.path == NO_PATH
  {
  }

  lemma PickedNoPath(cells: seq<WireCell>, pfx: Pfx, p: Table)
    requires RowCells(cells, Remove, pfx, p)
    ensures forall x | x in cells :: x.path == NO_PATH
  {
  }

  ghost predicate AllSync(rs: seq<PfxRow>) { forall r | r in rs :: r.op.Sync? }
}
