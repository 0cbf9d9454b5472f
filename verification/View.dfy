/** The view: a prefix-by-peer table whose fields are updated in place. An iterator is a
    plain struct of slot indices; copying one is what the cascades do before they walk. */
module ViewClass {
  import opened Net
  import opened Khash
  import opened ViewState
  import opened RowSwap
  import opened Cascade
  import opened CellOps
  import opened Inserts
  import opened Walk
  import opened Sweep
  import opened Collect
  import opened Copying

  class View {
    var time: nat
    var pfxs: Both<PfxTab>
    var pfxCnt: Both<Cnt>
    var peers: PeerTab
    var peerCnt: Cnt
    var gcPfxs: Both<bool>
    var gcPeers: bool

    ghost function S(): Core
      reads this
    {
      Core(pfxs, pfxCnt, peers, peerCnt)
    }

    ghost predicate Valid()
      reads this
    {
      Inv(S()) && Flagged(S(), gcPfxs, gcPeers)
    }

    constructor ()
      ensures Valid() && S() == FRESH && time == 0
    {
      time, pfxs, pfxCnt, peers, peerCnt := 0, Both([], []), Both(ZERO, ZERO), [], ZERO;
      gcPfxs, gcPeers := Both(false, false), false;
    }

    // -------------------------------------------------------------- adding

    /** Add the peer, or make it valid again; it starts out inactive. */
    method AddPeer(k: PeerId) returns (p: nat)
      requires Valid()
      modifies this`peers, this`peerCnt
      ensures Valid() && p < |peers| && p == Get(peers, k)
      ensures forall pfx: Pfx, h: PeerId :: CellAt(S(), pfx, h) == CellAt(old(S()), pfx, h)
      ensures forall h: PeerId :: PeerSt(peers, h) ==
                if h == k && PeerSt(old(peers), k).Invalid? then Inactive else PeerSt(old(peers), h)
    {
      hide Inv, Flagged, FreeFrom, CellAt;
      ghost var c := S();
      PeerIsReady(c, k);
      p := Get(peers, k);
      if p == |peers| {
        p := FreeFrom(peers, 0);
        peers := Room(peers)[p := Used(k, NO_PEER)];
      }
      if peers[p].val.state.Invalid? {
        peers := peers[p := Used(k, peers[p].val.(state := Inactive))];
        peerCnt := Cnt(peerCnt.act, peerCnt.ina + 1);
      }
      AddPeerEffect(c, S(), k, gcPfxs, gcPeers);
    }

    method ActivatePeer(p: nat)
      requires Valid() && p < |peers| && peers[p].Used? && !peers[p].val.state.Invalid?
      modifies this`peers, this`peerCnt
      ensures Valid() && |peers| == |old(peers)| && peers[p].Used? && peers[p].key == old(peers)[p].key
      ensures forall pfx: Pfx, h: PeerId :: CellAt(S(), pfx, h) == CellAt(old(S()), pfx, h)
      ensures forall h: PeerId :: PeerSt(peers, h) == if h == old(peers)[p].key then Active else PeerSt(old(peers), h)
    {
      ghost var c := S();
      GetIsSlot(peers, p);
      if !peers[p].val.state.Inactive? {
        return;
      }
      PeerTallied(c, p);
      peers := peers[p := Used(peers[p].key, peers[p].val.(state := Active))];
      peerCnt := peerCnt.Activate();
      SetPeer(c, S(), p, Active);
    }

    /** Make sure the prefix has a slot and is at least inactive. */
    method AddPfx(pfx: Pfx) returns (i: nat, ghost d: Core)
      requires Valid()
      modifies this`pfxs, this`pfxCnt
      ensures Inv(d) && SameView(old(S()), d) && d.peers == old(peers)
      ensures HasRow(d, pfx.Ver(), i) && PfxKey(d, pfx.Ver(), i) == pfx
      ensures Swapped(d, S(), pfx.Ver(), i, Opened(Row(d, pfx.Ver(), i)))
      ensures Row(d, pfx.Ver(), i).state.Invalid? <==> !PfxValid(old(S()), pfx)
      ensures Flagged(S(), gcPfxs, gcPeers)
    {
      hide Inv, Flagged, FreeFrom, CellAt, SameView;
      var v := pfx.Ver();
      PfxIsReady(S(), pfx);
      i := Get(pfxs.At(v), pfx);
      if i == |pfxs.At(v)| {
        i := FreeFrom(pfxs.At(v), 0);
        pfxs := pfxs.With(v, Room(pfxs.At(v))[i := Used(pfx, NO_PFX)]);
      }
      d := S();
      var info := pfxs.At(v)[i].val;
      if info.state.Invalid? {
        pfxs := pfxs.With(v, pfxs.At(v)[i := Used(pfx, info.(state := Inactive))]);
        pfxCnt := pfxCnt.With(v, Cnt(pfxCnt.At(v).act, pfxCnt.At(v).ina + 1));
        OpenSwap(d, S(), v, i);
      } else {
        SwapNothing(d, v, i);
      }
      OpenFlagged(old(S()), d, S(), pfx, gcPfxs, gcPeers);
    }

    /** Insert the peer's cell into the current prefix, or replace the path of the one there. */
    method PfxAddPeerById(it: Iter, k: PeerId, path: PathId) returns (r: Iter)
      requires HasRow(S(), it.ver, it.pfx) && Unique(peers) && Unique(Row(S(), it.ver, it.pfx).cells)
      requires Get(peers, k) < |peers|
      modifies this`pfxs, this`peers
      ensures Swapped(old(S()), S(), it.ver, it.pfx, Inserted(Row(old(S()), it.ver, it.pfx), k, path))
      ensures r == it.(peer := Get(old(peers), k), peerMask := ALL_VALID, cellMask := ALL_VALID, cellValid := true,
                       cell := CellSlot(Row(old(S()), it.ver, it.pfx).cells, k))
    {
      hide Unique, Tally, RowSts, FreeFrom, Room, Get;
      ghost var c := S();
      var v, i, p := it.ver, it.pfx, Get(peers, k);
      var key, info := pfxs.At(v)[i].key, pfxs.At(v)[i].val;
      var peer, st := peers[p].val, KeySt(info.cells, k);
      PutCellFacts(info.cells, k, Cell(if st.Invalid? then Inactive else st, path));
      pfxs := pfxs.With(v, pfxs.At(v)[i := Used(key, Inserted(info, k, path))]);
      var cnt := if st.Invalid? then Cnt(peer.cnt.At(v).act, peer.cnt.At(v).ina + 1) else peer.cnt.At(v);
      peers := peers[p := Used(k, peer.(cnt := peer.cnt.With(v, cnt)))];
      KeySwap(c, v, i, k, p, Inserted(info, k, path), cnt, S());
      r := it.(peer := p, peerMask := ALL_VALID, cell := CellSlot(info.cells, k), cellValid := true,
        cellMask := ALL_VALID);
    }

    /** Insert the cell of a valid peer, adding the prefix first when it is not there. */
    method AddPfxPeerById(it: Iter, pfx: Pfx, k: PeerId, path: PathId) returns (ok: bool, r: Iter)
      requires Valid()
      modifies this`pfxs, this`pfxCnt, this`peers
      ensures Valid() && (ok <==> !PeerSt(old(peers), k).Invalid?)
      ensures !ok ==> S() == old(S())
      ensures ok ==> AtCell(S(), r) && PfxKey(S(), r.ver, r.pfx) == pfx && CellKey(S(), r) == k
      ensures ok ==> CellPut(old(S()), S(), pfx, k,
              Cell(if CellAt(old(S()), pfx, k).state.Active? then Active else Inactive, path))
    {
      ok, r := !PeerSt(peers, k).Invalid?, it;
      if !ok {
        return;
      }
      hide Inv, Flagged, CellAt, SameView, KeySt;
      ghost var c := S();
      var i; ghost var d;
      i, d := AddPfx(pfx);
      ghost var e := S();
      OpenUnique(d, e, pfx.Ver(), i);
      r := it.(ver := pfx.Ver(), pfx := i);
      r := PfxAddPeerById(r, k, path);
      AddCellEffect(c, d, e, S(), pfx.Ver(), i, k, path);
      AtNewCell(e, S(), r, k, path);
      SwapFlagged(e, S(), pfx.Ver(), i, Inserted(Row(e, pfx.Ver(), i), k, path), gcPfxs, gcPfxs, gcPeers);
    }

    /** The same, but the prefix is added before the peer is looked for, and an invalid peer that
        still has a slot is taken: the view stays settled exactly when the peer is valid, or when
        there is no such peer and the prefix was valid before. */
    method AddPfxPeer(it: Iter, pfx: Pfx, k: PeerId, path: PathId) returns (ok: bool, r: Iter)
      requires Valid()
      modifies this`pfxs, this`pfxCnt, this`peers
      ensures ok <==> Get(old(peers), k) < |old(peers)|
      ensures Valid() <==> !PeerSt(old(peers), k).Invalid? || (!ok && PfxValid(old(S()), pfx))
      ensures !ok ==> SameView(old(S()), S())
      ensures !PeerSt(old(peers), k).Invalid? ==>
              AtCell(S(), r) && PfxKey(S(), r.ver, r.pfx) == pfx && CellKey(S(), r) == k
      ensures !PeerSt(old(peers), k).Invalid? ==>
                CellPut(old(S()), S(), pfx, k,
                  Cell(if CellAt(old(S()), pfx, k).state.Active? then Active else Inactive, path))
    {
      hide Inv, Flagged, CellAt, SameView, KeySt, PfxValid;
      ghost var c := S();
      var i; ghost var d;
      i, d := AddPfx(pfx);
      ghost var e := S();
      OpenUnique(d, e, pfx.Ver(), i);
      r := it.(ver := pfx.Ver(), pfx := i);
      ok := Get(peers, k) < |peers|;
      if !ok {
        OpenEffect(c, d, e, pfx.Ver(), i);
        return;
      }
      r := PfxAddPeerById(r, k, path);
      AtNewCell(e, S(), r, k, path);
      if PeerSt(c.peers, k).Invalid? {
        UnbackedCell(d, e, S(), pfx.Ver(), i, k, path);
      } else {
        AddCellEffect(c, d, e, S(), pfx.Ver(), i, k, path);
        SwapFlagged(e, S(), pfx.Ver(), i, Inserted(Row(e, pfx.Ver(), i), k, path), gcPfxs, gcPfxs, gcPeers);
      }
    }

    /** Activate the current cell; its peer must be active. */
    method PfxActivatePeer(it: Iter)
      requires Valid() && AtCell(S(), it) && PeerSt(peers, CellKey(S(), it)).Active?
      modifies this`pfxs, this`pfxCnt, this`peers
      ensures Valid() && AtCell(S(), it)
      ensures PfxKey(S(), it.ver, it.pfx) == PfxKey(old(S()), it.ver, it.pfx)
      ensures CellKey(S(), it) == CellKey(old(S()), it)
      ensures var pfx, k := PfxKey(old(S()), it.ver, it.pfx), CellKey(old(S()), it);
              CellPut(old(S()), S(), pfx, k, Cell(Active, CellAt(old(S()), pfx, k).path))
    {
      hide Inv, Flagged, CellAt, SameView, KeySt, Loose, RowOk;
      ghost var c := S();
      var v, i, j := it.ver, it.pfx, it.cell;
      InvLoose(c, v, i);
      var key, info := pfxs.At(v)[i].key, pfxs.At(v)[i].val;
      if info.cells[j].val.state.Inactive? {
        ActivateReady(c, it);
        var cnt := info.cnt.Activate();
        var state := info.state;
        if cnt.act == 1 && state.Inactive? {
          state := Active;
          pfxCnt := pfxCnt.With(v, pfxCnt.At(v).Activate());
        }
        var peer := peers[it.peer].val;
        var pc := peer.cnt.At(v).Activate();
        peers := peers[it.peer := Used(peers[it.peer].key, peer.(cnt := peer.cnt.With(v, pc)))];
        var info1 := PfxInfo(state, info.cells[j := Used(info.cells[j].key, Cell(Active, info.cells[j].val.path))],
          cnt);
        pfxs := pfxs.With(v, pfxs.At(v)[i := Used(key, info1)]);
        CellSwap(c, v, i, j, it.peer, info1, pc, S());
      } else {
        SwapNothing(c, v, i);
      }
      ActivateCellEffect(c, S(), it);
      SwapFlagged(c, S(), v, i, ActivatedOne(info, j), gcPfxs, gcPfxs, gcPeers);
      StillAt(c, S(), it, ActivatedOne(info, j));
    }

    // -------------------------------------------------------------- cells of one prefix

    /** Scan the current row from `from` on for a cell that the mask hits. */
    method ScanCells(it: Iter, from: nat) returns (r: Iter)
      requires HasRow(S(), it.ver, it.pfx) && from <= |Row(S(), it.ver, it.pfx).cells|
      ensures r == it.(cell := r.cell, cellValid := r.cellValid, peer := r.peer, peerMask := r.peerMask)
      ensures Scanned(S(), r, from, it.cellMask)
    {
      r := it.(cell := from, cellValid := false);
      var cells := pfxs.At(it.ver)[it.pfx].val.cells;
      while r.cell < |cells|
        invariant r == it.(cell := r.cell, cellValid := false) && from <= r.cell <= |cells|
        invariant forall j :: from <= j < r.cell ==> !it.cellMask.Hits(CellSt(cells[j]))
      {
        if cells[r.cell].Used? && it.cellMask.Hits(cells[r.cell].val.state) {
          r := r.(peer := Get(peers, cells[r.cell].key), peerMask := it.cellMask, cellValid := true);
          return;
        }
        r := r.(cell := r.cell + 1);
      }
    }

    // -------------------------------------------------------------- walking prefixes

    /** Scan the current table from the current slot on for a prefix that the mask hits. */
    method ScanPfxs(it: Iter) returns (r: Iter)
      requires it.pfx <= |pfxs.At(it.ver)|
      ensures r == it.(pfx := r.pfx) && it.pfx <= r.pfx <= |pfxs.At(it.ver)|
      ensures forall i :: it.pfx <= i < r.pfx ==> !it.pfxMask.Hits(PfxSt(pfxs.At(it.ver)[i]))
      ensures r.pfx < |pfxs.At(it.ver)| ==> it.pfxMask.Hits(PfxSt(pfxs.At(it.ver)[r.pfx]))
    {
      r := it;
      var tab := pfxs.At(it.ver);
      while r.pfx != |tab| && (!tab[r.pfx].Used? || !r.pfxMask.Hits(tab[r.pfx].val.state))
        invariant r == it.(pfx := r.pfx) && it.pfx <= r.pfx <= |tab|
        invariant forall i :: it.pfx <= i < r.pfx ==> !it.pfxMask.Hits(PfxSt(tab[i]))
      {
        r := r.(pfx := r.pfx + 1);
      }
    }

    method FirstPfx(it: Iter, filter: Option<Ver>, mask: Mask) returns (r: Iter)
      ensures PfxMoved(S(), Lo(S(), filter), filter, mask, r)
      ensures r.cellMask == it.cellMask && r.filter == filter
    {
      r := it.(filter := filter, pfxMask := mask, cellValid := false, pfx := 0, ver := if filter ==
        Some(V6) then V6 else V4);
      if r.ver.V4? {
        r := ScanPfxs(r);
        assert filter.Some? ==> filter.value.V4?;
        if HasMorePfx(pfxs, r) || filter.Some? {
          return;
        }
        r := r.(ver := V6, pfx := 0);
      }
      r := ScanPfxs(r);
    }

    method NextPfx(it: Iter) returns (r: Iter)
      requires HasMorePfx(pfxs, it) && (it.filter.Some? ==> it.ver == it.filter.value)
      ensures PfxMoved(S(), Where(S(), it) + 1, it.filter, it.pfxMask, r)
      ensures r.cellMask == it.cellMask
    {
      r := ScanPfxs(it.(cellValid := false, pfx := it.pfx + 1));
      if r.ver.V4? && !HasMorePfx(pfxs, r) && r.filter.None? {
        r := FirstPfx(r, Some(V6), r.pfxMask);
      }
    }

    // -------------------------------------------------------------- seeking

    method SeekPfx(it: Iter, pfx: Pfx, mask: Mask) returns (found: bool, r: Iter)
      ensures var tab, i := pfxs.At(pfx.Ver()), Get(pfxs.At(pfx.Ver()), pfx);
              found <==> i < |tab| && mask.Hits(tab[i].val.state)
      ensures found ==> HasRow(S(), r.ver, r.pfx) && r.ver == pfx.Ver() && r.pfx == Get(pfxs.At(r.ver), pfx)
      ensures !found ==> !HasMorePfx(pfxs, r)
    {
      var v := pfx.Ver();
      r := it.(filter := Some(v), ver := v, pfxMask := mask, cellValid := false, cell := 0,
        pfx := Get(pfxs.At(v), pfx));
      found := r.pfx < |pfxs.At(v)| && mask.Hits(pfxs.At(v)[r.pfx].val.state);
      if !found {
        r := r.(pfx := |pfxs.At(v)|);
      }
    }

    method PfxSeekPeer(it: Iter, k: PeerId, mask: Mask) returns (found: bool, r: Iter)
      requires HasRow(S(), it.ver, it.pfx)
      ensures found <==> mask.Hits(KeySt(Row(S(), it.ver, it.pfx).cells, k))
      ensures r.ver == it.ver && r.pfx == it.pfx && r.cellValid == found
      ensures found ==> r.cell == Get(Row(S(), it.ver, it.pfx).cells, k) && r.peer == Get(peers, k)
    {
      var cells := pfxs.At(it.ver)[it.pfx].val.cells;
      var j := Get(cells, k);
      found := j < |cells| && mask.Hits(cells[j].val.state);
      r := if found then it.(cellMask := mask, cellValid := true, cell := j, peer := Get(peers, k), peerMask := mask)
           else it.(cellMask := mask, cellValid := false);
    }

    // -------------------------------------------------------------- walking cells

    method FirstPfxPeer(it: Iter, filter: Option<Ver>, pfxMask: Mask, cellMask: Mask) returns (r: Iter)
      ensures r.pfxMask == pfxMask && r.cellMask == cellMask && (r.filter.Some? ==> r.ver == r.filter.value)
      ensures HasMorePfxPeer(pfxs, r) ==> FoundCell(S(), r) && Where(S(), r) < Hi(S(), filter)
      ensures r.filter == filter || (filter.None? && r.filter == Some(V6))
      ensures !HasMorePfxPeer(pfxs, r) ==> NoneFrom(S(), Lo(S(), filter), Hi(S(), filter), pfxMask, cellMask)
      ensures HasMorePfxPeer(pfxs, r) ==> NoneFrom(S(), Lo(S(), filter), Where(S(), r), pfxMask, cellMask)
    {
      hide NoneFrom, PfxMoved, PfxHit, Lo, Hi;
      r := FirstPfx(it, filter, pfxMask);
      NoneYet(S(), Lo(S(), filter), filter, pfxMask, cellMask, r);
      Standing(S(), Lo(S(), filter), filter, pfxMask, r);
      while HasMorePfx(pfxs, r)
        invariant PfxMoved(S(), Where(S(), r), filter, pfxMask, r)
        invariant Lo(S(), filter) <= Where(S(), r) <= Span(S())
        invariant NoneFrom(S(), Lo(S(), filter), Where(S(), r), pfxMask, cellMask)
        decreases Span(S()) - Where(S(), r)
      {
        Standing(S(), Where(S(), r), filter, pfxMask, r);
        r := ScanCells(r.(cellMask := cellMask), 0);
        if r.cellValid {
          return;
        }
        ghost var was := r;
        r := NextPfx(r);
        NextMoved(S(), was, filter, pfxMask, r);
        NoneMore(S(), Lo(S(), filter), was, r, filter, pfxMask, cellMask);
        Standing(S(), Where(S(), was) + 1, filter, pfxMask, r);
      }
      Standing(S(), Where(S(), r), filter, pfxMask, r);
      r := r.(cellMask := cellMask);
    }

    /** One step: to the next matching cell of the prefix, else to the first matching cell of
        the next matching prefix. If that prefix has none, the walk stops short. */
    method NextPfxPeer(it: Iter) returns (r: Iter)
      requires HasRow(S(), it.ver, it.pfx) && it.cell < |Row(S(), it.ver, it.pfx).cells|
      requires it.filter.Some? ==> it.ver == it.filter.value
      ensures Stepped(S(), it, r)
    {
      r := ScanCells(it, it.cell + 1);
      if r.cellValid {
        return;
      }
      r := NextPfx(r);
      if HasMorePfx(pfxs, r) {
        r := ScanCells(r, 0);
      }
    }

    /** A whole first/next walk with equal masks: every match once, v4 before v6. */
    method WalkAll(it: Iter, mask: Mask) returns (seen: seq<Key>)
      requires Valid()
      ensures forall q: Key :: q in seen <==> MatchKey(S(), q, mask)
      ensures forall a, b :: 0 <= a < b < |seen| ==> seen[a] != seen[b]
      ensures forall a, b :: 0 <= a < b < |seen| && seen[a].0.Ver().V6? ==> seen[b].0.Ver().V6?
    {
      hide Inv, MatchKey, PfxPos, CellPos, NothingSkipped, Visited, NoneFrom;
      var r := FirstPfxPeer(it, None, mask, mask);
      seen := [];
      FirstComplete(S(), r, mask);
      VisitFirst(S(), r, mask);
      while HasMorePfxPeer(pfxs, r)
        invariant r.pfxMask == mask && r.cellMask == mask && r.filter != Some(V4)
        invariant r.filter.Some? ==> r.ver == r.filter.value
        invariant HasMorePfxPeer(pfxs, r) ==> Match(S(), Where(S(), r), r.cell, mask) && AtCell(S(), r)
        invariant HasMorePfxPeer(pfxs, r) ==> Visited(S(), seen, Where(S(), r), r.cell, mask)
        invariant !HasMorePfxPeer(pfxs, r) ==> Visited(S(), seen, Span(S()), 0, mask)
        decreases Span(S()) - Where(S(), r), if HasMorePfxPeer(pfxs, r) then |pfxs.At(r.ver)[r.pfx].val.cells| - r.cell
          else 0
      {
        ghost var was := r;
        seen := seen + [(pfxs.At(r.ver)[r.pfx].key, pfxs.At(r.ver)[r.pfx].val.cells[r.cell].key)];
        r := NextPfxPeer(r);
        StepComplete(S(), was, r, mask);
        VisitStep(S(), was, r, seen[..|seen| - 1], mask);
      }
      VisitDone(S(), seen, mask);
    }

    // -------------------------------------------------------------- deactivation cascade

    method PfxDeactivatePeer(it: Iter)
      requires Loose(S(), it.ver, it.pfx, Inactive) && AtCell(S(), it)
      requires !Row(S(), it.ver, it.pfx).state.Invalid?
      modifies this`pfxs, this`pfxCnt, this`peers
      ensures Swapped(old(S()), S(), it.ver, it.pfx, DeactivatedOne(Row(old(S()), it.ver, it.pfx), it.cell))
      decreases pfxs.At(it.ver)[it.pfx].val.state.Rank(), pfxs.At(it.ver)[it.pfx].val.cnt.act, 0
    {
      ghost var c := S();
      var v, i, j := it.ver, it.pfx, it.cell;
      var key, info := pfxs.At(v)[i].key, pfxs.At(v)[i].val;
      if !info.cells[j].val.state.Active? {
        SwapNothing(c, v, i);
        return;
      }
      CountedCell(info.cells, j);
      var cnt := info.cnt.Deactivate();
      var info1 := info.(cells := info.cells[j := Lower(info.cells[j], Inactive)], cnt := cnt);
      pfxs := pfxs.With(v, pfxs.At(v)[i := Used(key, info1)]);
      if cnt.act == 0 {
        ghost var c1 := S();
        LastActive(c, c1, v, i, j);
        DeactivatePfx(it);
        LastActiveDone(c, c1, S(), v, i, j);
      }
      var peer := peers[it.peer].val;
      var pc := peer.cnt.At(v).Deactivate();
      peers := peers[it.peer := Used(peers[it.peer].key, peer.(cnt := peer.cnt.With(v, pc)))];
      CellSwap(c, v, i, j, it.peer, DeactivatedOne(info, j), pc, S());
    }

    method DeactivatePfx(it: Iter)
      requires Loose(S(), it.ver, it.pfx, Inactive)
      requires !Row(S(), it.ver, it.pfx).state.Invalid?
      modifies this`pfxs, this`pfxCnt, this`peers
      ensures Swapped(old(S()), S(), it.ver, it.pfx, DeactivatedAll(Row(old(S()), it.ver, it.pfx)))
      decreases pfxs.At(it.ver)[it.pfx].val.state.Rank(), pfxs.At(it.ver)[it.pfx].val.cnt.act, 1
    {
      ghost var c := S();
      var v, i := it.ver, it.pfx;
      var key, info := pfxs.At(v)[i].key, pfxs.At(v)[i].val;
      if !info.state.Active? {
        SwapNothing(c, v, i);
        return;
      }
      pfxs := pfxs.With(v, pfxs.At(v)[i := Used(key, info.(state := Inactive))]);
      ghost var c1 := S();
      LowerStart(c, c1, v, i, Inactive);
      DeactivateCells(it);
      ghost var d := S();
      LowerCount(c, c1, d, v, i, Inactive);
      pfxCnt := pfxCnt.With(v, pfxCnt.At(v).Deactivate());
      LowerDone(c, c1, d, S(), v, i, Inactive);
    }

    /** The walk over a row whose prefix has already been marked inactive. */
    method DeactivateCells(it: Iter)
      requires Lowering(S(), S(), it.ver, it.pfx, 0, Inactive)
      modifies this`pfxs, this`pfxCnt, this`peers
      ensures Lowering(old(S()), S(), it.ver, it.pfx, |Row(old(S()), it.ver, it.pfx).cells|, Inactive)
      decreases pfxs.At(it.ver)[it.pfx].val.state.Rank(), pfxs.At(it.ver)[it.pfx].val.cnt.act, 1
    {
      hide Swapped, Counted, Tally, Lowered, RowSts, Unique, Get;
      ghost var c, n := S(), |pfxs.At(it.ver)[it.pfx].val.cells|;
      var ti := ScanCells(it.(cellMask := ACTIVE), 0);
      LowerScan(c, c, ti, 0, Inactive);
      while ti.cellValid
        invariant ti.ver == it.ver && ti.pfx == it.pfx && ti.cellMask == ACTIVE
        invariant ti.cell <= n && (ti.cellValid <==> ti.cell < n)
        invariant Lowering(c, S(), it.ver, it.pfx, ti.cell, Inactive)
        invariant ti.cellValid ==>
                 AtCell(S(), ti) && CellSt(Row(c, it.ver, it.pfx).cells[ti.cell]).Rank() > Inactive.Rank()
        decreases n - ti.cell
      {
        ghost var d, m := S(), ti.cell;
        PfxDeactivatePeer(ti);
        SwapRow(d, S(), it.ver, it.pfx, DeactivatedOne(Row(d, it.ver, it.pfx), m));
        ti := ScanCells(ti, ti.cell + 1);
        OneIsLower(Row(d, it.ver, it.pfx), m);
        LowerNext(c, d, S(), ti, m, Inactive, DeactivatedOne(Row(d, it.ver, it.pfx), m));
      }
    }

    /** Deactivate the current cell of a settled view. */
    method DeactivateCell(it: Iter)
      requires Valid() && AtCell(S(), it)
      modifies this`pfxs, this`pfxCnt, this`peers
      ensures Valid() && HasRow(S(), it.ver, it.pfx) && PfxKey(S(), it.ver, it.pfx) == PfxKey(old(S()), it.ver, it.pfx)
      ensures var pfx, k := PfxKey(old(S()), it.ver, it.pfx), CellKey(old(S()), it);
              CellPut(old(S()), S(), pfx, k, Quiet(CellAt(old(S()), pfx, k)))
    {
      hide Inv, Flagged, CellAt, DeactivatedOne, Get;
      ghost var c := S();
      InvLoose(c, it.ver, it.pfx);
      ValidRow(c, it);
      PfxDeactivatePeer(it);
      DeactivateCellEffect(c, S(), it);
      SwapRow(c, S(), it.ver, it.pfx, DeactivatedOne(Row(c, it.ver, it.pfx), it.cell));
      KeepsFlags(c, S(), it, Inactive, gcPfxs, gcPfxs, gcPeers);
    }

    // -------------------------------------------------------------- removal cascade

    /** Remove the current cell of a settled view. */
    method RemoveCell(it: Iter)
      requires Valid() && AtCell(S(), it)
      modifies this`pfxs, this`pfxCnt, this`peers, this`gcPfxs
      ensures Valid() && CellPut(old(S()), S(), PfxKey(old(S()), it.ver, it.pfx), CellKey(old(S()), it), NO_CELL)
    {
      hide Inv, Flagged, CellAt, RemovedOne, Get;
      ghost var c, gc := S(), gcPfxs;
      InvLoose(c, it.ver, it.pfx);
      ValidRow(c, it);
      PfxRemovePeer(it);
      RemoveCellEffect(c, S(), it);
      SwapRow(c, S(), it.ver, it.pfx, RemovedOne(Row(c, it.ver, it.pfx), it.cell));
      KeepsFlags(c, S(), it, Invalid, gc, gcPfxs, gcPeers);
    }

    /** Remove the current prefix of a settled view, with all its cells. */
    method RemoveRow(it: Iter)
      requires Valid() && HasRow(S(), it.ver, it.pfx) && !Row(S(), it.ver, it.pfx).state.Invalid?
      modifies this`pfxs, this`pfxCnt, this`peers, this`gcPfxs
      ensures Valid() && forall k: PeerId :: PeerSt(peers, k) == PeerSt(old(peers), k)
      ensures forall pfx: Pfx, k: PeerId :: CellAt(S(), pfx, k) ==
                if pfx == PfxKey(old(S()), it.ver, it.pfx) then NO_CELL else CellAt(old(S()), pfx, k)
    {
      hide Flagged, CellAt, RemovedAll, Get, Tally, RowSts;
      ghost var c, gc := S(), gcPfxs;
      InvLoose(c, it.ver, it.pfx);
      RemovePfx(it);
      RemovePfxEffect(c, S(), it.ver, it.pfx);
      SwapFlagged(c, S(), it.ver, it.pfx, RemovedAll(Row(c, it.ver, it.pfx)), gc, gcPfxs, gcPeers);
    }

    method PfxRemovePeer(it: Iter)
      requires Loose(S(), it.ver, it.pfx, Invalid) && AtCell(S(), it)
      requires Row(S(), it.ver, it.pfx).state.Invalid? ==> Row(S(), it.ver, it.pfx).cnt.act == 0
      requires Has(pfxCnt.At(it.ver), Row(S(), it.ver, it.pfx).state)
      modifies this`pfxs, this`pfxCnt, this`peers, this`gcPfxs
      ensures Swapped(old(S()), S(), it.ver, it.pfx, RemovedOne(Row(old(S()), it.ver, it.pfx), it.cell))
      ensures gcPfxs == if !Row(old(S()), it.ver, it.pfx).state.Invalid? && Row(S(), it.ver, it.pfx).state.Invalid?
                        then old(gcPfxs).With(it.ver, true) else old(gcPfxs)
      decreases pfxs.At(it.ver)[it.pfx].val.state.Rank(),
        pfxs.At(it.ver)[it.pfx].val.cnt.act + pfxs.At(it.ver)[it.pfx].val.cnt.ina, 0
    {
      ghost var c := S();
      var v, i := it.ver, it.pfx;
      RetireCell(it);
      if !pfxs.At(v)[i].val.state.Invalid? && pfxs.At(v)[i].val.cnt.None() {
        ghost var d := S();
        RemovePfx(it);
        SwapTrans(c, d, S(), v, i, Row(d, v, i), RemovedAll(Row(d, v, i)));
      }
    }

    /** The part of a removal that touches only the cell, its counters and its peer's. */
    method RetireCell(it: Iter)
      requires Loose(S(), it.ver, it.pfx, Invalid) && AtCell(S(), it)
      requires Row(S(), it.ver, it.pfx).state.Invalid? ==> Row(S(), it.ver, it.pfx).cnt.act == 0
      requires Has(pfxCnt.At(it.ver), Row(S(), it.ver, it.pfx).state)
      modifies this`pfxs, this`pfxCnt, this`peers
      ensures Retired(old(S()), S(), it)
    {
      ghost var c := S();
      var v, i, j := it.ver, it.pfx, it.cell;
      CountedCell(pfxs.At(v)[i].val.cells, j);
      if pfxs.At(v)[i].val.cells[j].val.state.Active? {
        PfxDeactivatePeer(it);
      } else {
        SwapNothing(c, v, i);
      }
      ghost var d := S();
      RemoveFirst(c, d, it);
      DropCell(it);
      RemoveBoth(c, d, S(), it);
    }

    method DropCell(it: Iter)
      requires Loose(S(), it.ver, it.pfx, Invalid) && AtCell(S(), it)
      requires CellSt(Row(S(), it.ver, it.pfx).cells[it.cell]).Inactive?
      modifies this`pfxs, this`peers
      ensures Swapped(old(S()), S(), it.ver, it.pfx, DroppedOne(Row(old(S()), it.ver, it.pfx), it.cell))
    {
      ghost var c := S();
      var v, i, j := it.ver, it.pfx, it.cell;
      var key, info := pfxs.At(v)[i].key, pfxs.At(v)[i].val;
      CountedCell(info.cells, j);
      var info1 := info.(cells := info.cells[j := Lower(info.cells[j], Invalid)], cnt := info.cnt.DropInactive());
      pfxs := pfxs.With(v, pfxs.At(v)[i := Used(key, info1)]);
      var peer := peers[it.peer].val;
      var pc := peer.cnt.At(v).DropInactive();
      peers := peers[it.peer := Used(peers[it.peer].key, peer.(cnt := peer.cnt.With(v, pc)))];
      CellSwap(c, v, i, j, it.peer, info1, pc, S());
    }

    method RemovePfx(it: Iter)
      requires Loose(S(), it.ver, it.pfx, Invalid)
      requires !Row(S(), it.ver, it.pfx).state.Invalid? && Has(pfxCnt.At(it.ver), Row(S(), it.ver, it.pfx).state)
      requires Row(S(), it.ver, it.pfx).state.Inactive? ==> Row(S(), it.ver, it.pfx).cnt.act == 0
      modifies this`pfxs, this`pfxCnt, this`peers, this`gcPfxs
      ensures Swapped(old(S()), S(), it.ver, it.pfx, RemovedAll(Row(old(S()), it.ver, it.pfx)))
      ensures gcPfxs == old(gcPfxs).With(it.ver, true)
      decreases pfxs.At(it.ver)[it.pfx].val.state.Rank(),
        pfxs.At(it.ver)[it.pfx].val.cnt.act + pfxs.At(it.ver)[it.pfx].val.cnt.ina, 2
    {
      ghost var c := S();
      DeactivatePfx(it);
      ghost var d := S();
      RemoveAllFirst(c, d, it.ver, it.pfx);
      RemovedAllAfter(Row(c, it.ver, it.pfx));
      DropPfx(it);
      SwapTrans(c, d, S(), it.ver, it.pfx, Row(d, it.ver, it.pfx), RemovedAll(Row(d, it.ver, it.pfx)));
    }

    /** The rest of the removal, once the prefix is inactive. */
    method DropPfx(it: Iter)
      requires Loose(S(), it.ver, it.pfx, Invalid) && pfxCnt.At(it.ver).ina > 0
      requires Row(S(), it.ver, it.pfx).state.Inactive? && Row(S(), it.ver, it.pfx).cnt.act == 0
      modifies this`pfxs, this`pfxCnt, this`peers, this`gcPfxs
      ensures Swapped(old(S()), S(), it.ver, it.pfx, RemovedAll(Row(old(S()), it.ver, it.pfx)))
      ensures gcPfxs == old(gcPfxs).With(it.ver, true)
      decreases pfxs.At(it.ver)[it.pfx].val.state.Rank(),
        pfxs.At(it.ver)[it.pfx].val.cnt.act + pfxs.At(it.ver)[it.pfx].val.cnt.ina, 1
    {
      ghost var c := S();
      var v, i := it.ver, it.pfx;
      var key, info := pfxs.At(v)[i].key, pfxs.At(v)[i].val;
      pfxs := pfxs.With(v, pfxs.At(v)[i := Used(key, info.(state := Invalid))]);
      ghost var c1 := S();
      LowerStart(c, c1, v, i, Invalid);
      if !info.cnt.None() {
        RemoveCells(it);
      } else {
        NothingAbove(info, Invalid, peers, v);
      }
      ghost var d := S();
      LowerCount(c, c1, d, v, i, Invalid);
      pfxCnt := pfxCnt.With(v, pfxCnt.At(v).DropInactive());
      gcPfxs := gcPfxs.With(v, true);
      LowerDone(c, c1, d, S(), v, i, Invalid);
    }

    /** The walk over a row whose prefix has already been marked invalid. */
    method RemoveCells(it: Iter)
      requires Lowering(S(), S(), it.ver, it.pfx, 0, Invalid) && Row(S(), it.ver, it.pfx).cnt.act == 0
      modifies this`pfxs, this`pfxCnt, this`peers, this`gcPfxs
      ensures Lowering(old(S()), S(), it.ver, it.pfx, |Row(old(S()), it.ver, it.pfx).cells|, Invalid)
      ensures gcPfxs == old(gcPfxs)
      decreases pfxs.At(it.ver)[it.pfx].val.state.Rank(),
        pfxs.At(it.ver)[it.pfx].val.cnt.act + pfxs.At(it.ver)[it.pfx].val.cnt.ina, 1
    {
      hide Swapped, Counted, Tally, Lowered, RowSts, Unique, Get;
      ghost var c, n := S(), |pfxs.At(it.ver)[it.pfx].val.cells|;
      var ti := ScanCells(it.(cellMask := ALL_VALID), 0);
      LowerScan(c, c, ti, 0, Invalid);
      while ti.cellValid
        invariant ti.ver == it.ver && ti.pfx == it.pfx && ti.cellMask == ALL_VALID
        invariant ti.cell <= n && (ti.cellValid <==> ti.cell < n)
        invariant Lowering(c, S(), it.ver, it.pfx, ti.cell, Invalid)
        invariant ti.cellValid ==>
                 AtCell(S(), ti) && CellSt(Row(c, it.ver, it.pfx).cells[ti.cell]).Rank() > Invalid.Rank()
        invariant gcPfxs == old(gcPfxs)
        decreases n - ti.cell
      {
        ghost var d, m := S(), ti.cell;
        PfxRemovePeer(ti);
        SwapRow(d, S(), it.ver, it.pfx, RemovedOne(Row(d, it.ver, it.pfx), m));
        ti := ScanCells(ti, ti.cell + 1);
        OneIsLower(Row(d, it.ver, it.pfx), m);
        LowerNext(c, d, S(), ti, m, Invalid, RemovedOne(Row(d, it.ver, it.pfx), m));
      }
    }

    // -------------------------------------------------------------- whole peers

    /** Deactivate the peer's active cells in a walk over the active cells of the table. */
    method DeactivatePeerCells(it: Iter, k: PeerId)
      requires Valid()
      modifies this`pfxs, this`pfxCnt, this`peers
      ensures Valid() && Sweeping(old(S()), S(), k, Inactive, Span(S()), 0)
    {
      hide Inv, Flagged, Match, SomeLowered, ClearBefore, NothingSkipped, NoneFrom, SameShape, Get, Swapped;
      hide DeactivatedOne, Stepped;
      ghost var c := S();
      SweepStart(c, k, Inactive);
      var lit := FirstPfxPeer(it, None, ACTIVE, ACTIVE);
      FirstComplete(c, lit, ACTIVE);
      SweepMove(c, c, k, Inactive, 0, 0, lit);
      while HasMorePfxPeer(pfxs, lit)
        invariant Flagged(S(), gcPfxs, gcPeers) && Stands(S(), lit, ACTIVE)
        invariant HasMorePfxPeer(pfxs, lit) ==> Sweeping(c, S(), k, Inactive, Where(S(), lit), lit.cell)
        invariant !HasMorePfxPeer(pfxs, lit) ==> Sweeping(c, S(), k, Inactive, Span(S()), 0)
        decreases Ahead(S(), lit), Left(S(), lit)
      {
        ghost var d, was := S(), lit;
        if peers[lit.peer].key == k {
          OnRow(d, lit, ACTIVE);
          PfxDeactivatePeer(lit);
          SweepCell(c, d, S(), lit, k, Inactive);
          KeepsFlags(d, S(), lit, Inactive, gcPfxs, gcPfxs, gcPeers);
        } else {
          SweepOther(c, d, lit, k, Inactive);
        }
        lit := NextPfxPeer(lit);
        SweepNext(c, S(), was, lit, k, Inactive);
      }
    }

    /** Remove the peer's valid cells in a walk over the valid cells of the table. */
    method RemovePeerCells(it: Iter, k: PeerId)
      requires Valid()
      modifies this`pfxs, this`pfxCnt, this`peers, this`gcPfxs
      ensures Valid() && Sweeping(old(S()), S(), k, Invalid, Span(S()), 0)
    {
      hide Inv, Flagged, Match, SomeLowered, ClearBefore, NothingSkipped, NoneFrom, SameShape, Get, Swapped, RemovedOne;
      hide Stepped;
      ghost var c := S();
      SweepStart(c, k, Invalid);
      var lit := FirstPfxPeer(it, None, ALL_VALID, ALL_VALID);
      FirstComplete(c, lit, ALL_VALID);
      SweepMove(c, c, k, Invalid, 0, 0, lit);
      while HasMorePfxPeer(pfxs, lit)
        invariant Flagged(S(), gcPfxs, gcPeers) && Stands(S(), lit, ALL_VALID)
        invariant HasMorePfxPeer(pfxs, lit) ==> Sweeping(c, S(), k, Invalid, Where(S(), lit), lit.cell)
        invariant !HasMorePfxPeer(pfxs, lit) ==> Sweeping(c, S(), k, Invalid, Span(S()), 0)
        decreases Ahead(S(), lit), Left(S(), lit)
      {
        ghost var d, was, gc := S(), lit, gcPfxs;
        if peers[lit.peer].key == k {
          OnRow(d, lit, ALL_VALID);
          PfxRemovePeer(lit);
          SweepCell(c, d, S(), lit, k, Invalid);
          KeepsFlags(d, S(), lit, Invalid, gc, gcPfxs, gcPeers);
        } else {
          SweepOther(c, d, lit, k, Invalid);
        }
        lit := NextPfxPeer(lit);
        SweepNext(c, S(), was, lit, k, Invalid);
      }
    }

    /** Deactivate a peer and with it all its active cells. */
    method DeactivatePeer(it: Iter, p: nat)
      requires Valid() && p < |peers| && peers[p].Used? && !peers[p].val.state.Invalid?
      modifies this`pfxs, this`pfxCnt, this`peers, this`peerCnt
      ensures Valid() && SameKeys(old(peers), peers)
      ensures forall pfx: Pfx, h: PeerId :: CellAt(S(), pfx, h) ==
                if h == old(peers)[p].key then Quiet(CellAt(old(S()), pfx, h)) else CellAt(old(S()), pfx, h)
      ensures forall h: PeerId :: PeerSt(peers, h) == if h == old(peers)[p].key then Inactive else PeerSt(old(peers), h)
    {
      hide Inv, Flagged, CellAt, Sweeping, Get;
      ghost var c := S();
      var k, peer := peers[p].key, peers[p].val;
      if !peer.state.Active? {
        QuietPeer(c, p);
        return;
      }
      if peer.cnt.v4.act + peer.cnt.v6.act > 0 {
        DeactivatePeerCells(it, k);
      } else {
        NothingToSweep(c, p, Inactive);
      }
      ghost var d := S();
      SweptPeer(c, d, p, Inactive, gcPfxs, gcPeers);
      peers := peers[p := Used(k, peers[p].val.(state := Inactive))];
      peerCnt := peerCnt.Deactivate();
      LowerPeer(d, S(), p, Inactive, gcPfxs, gcPeers, gcPeers);
    }

    /** Remove a peer and with it all its cells. */
    method RemovePeer(it: Iter, p: nat)
      requires Valid() && p < |peers| && peers[p].Used? && !peers[p].val.state.Invalid?
      modifies this`pfxs, this`pfxCnt, this`peers, this`peerCnt, this`gcPfxs, this`gcPeers
      ensures Valid()
      ensures forall pfx: Pfx, h: PeerId :: CellAt(S(), pfx, h) ==
                if h == old(peers)[p].key then NO_CELL else CellAt(old(S()), pfx, h)
      ensures forall h: PeerId :: PeerSt(peers, h) == if h == old(peers)[p].key then Invalid else PeerSt(old(peers), h)
    {
      hide Inv, Flagged, CellAt, Sweeping, Get;
      ghost var k := peers[p].key;
      if peers[p].val.state.Active? {
        DeactivatePeer(it, p);
      } else {
        QuietPeer(S(), p);
      }
      ghost var c := S();
      StillPeer(c, p);
      var peer := peers[p].val;
      if !peer.cnt.v4.None() || !peer.cnt.v6.None() {
        RemovePeerCells(it, peers[p].key);
      } else {
        NothingToSweep(c, p, Invalid);
      }
      ghost var d := S();
      SweptPeer(c, d, p, Invalid, gcPfxs, gcPeers);
      peers := peers[p := Used(peers[p].key, NO_PEER)];
      gcPeers := true;
      peerCnt := peerCnt.DropInactive();
      LowerPeer(d, S(), p, Invalid, gcPfxs, old(gcPeers), gcPeers);
    }

    // -------------------------------------------------------------- walking peers

    method ScanPeers(it: Iter) returns (r: Iter)
      requires it.peer <= |peers|
      ensures r == it.(peer := r.peer) && it.peer <= r.peer <= |peers|
      ensures forall p :: it.peer <= p < r.peer ==> !it.peerMask.Hits(PeerSlotSt(peers[p]))
      ensures r.peer < |peers| ==> it.peerMask.Hits(PeerSlotSt(peers[r.peer]))
    {
      r := it;
      while r.peer != |peers| && (!peers[r.peer].Used? || !r.peerMask.Hits(peers[r.peer].val.state))
        invariant r == it.(peer := r.peer) && it.peer <= r.peer <= |peers|
        invariant forall p :: it.peer <= p < r.peer ==> !it.peerMask.Hits(PeerSlotSt(peers[p]))
      {
        r := r.(peer := r.peer + 1);
      }
    }

    /** The walk is at the first matching peer from slot `from` on. */
    ghost predicate PeerMoved(from: nat, mask: Mask, r: Iter)
      reads this
    {
      && r.peerMask == mask && from <= r.peer <= |peers|
      && (forall p :: from <= p < r.peer ==> !mask.Hits(PeerSlotSt(peers[p])))
      && (r.peer < |peers| ==> mask.Hits(PeerSlotSt(peers[r.peer])))
    }

    method FirstPeer(it: Iter, mask: Mask) returns (r: Iter)
      ensures PeerMoved(0, mask, r)
    {
      r := ScanPeers(it.(peer := 0, peerMask := mask, cellValid := false));
    }

    method NextPeer(it: Iter) returns (r: Iter)
      requires it.peer < |peers|
      ensures PeerMoved(it.peer + 1, it.peerMask, r)
    {
      r := ScanPeers(it.(peer := it.peer + 1, cellValid := false));
    }

    // -------------------------------------------------------------- collecting and clearing

    method GcPfxs(v: Ver)
      requires Inv(S())
      modifies this`pfxs
      ensures Inv(S()) && SameView(old(S()), S()) && NoInvalidPfx(pfxs.At(v))
      ensures pfxs.At(v.Other()) == old(pfxs).At(v.Other())
    {
      hide Inv, SameView;
      ghost var c, tab := S(), pfxs.At(v);
      var k := 0;
      while k != |pfxs.At(v)|
        invariant k <= |tab| && PfxsCollected(tab, pfxs.At(v), k) && pfxs == c.pfxs.With(v, pfxs.At(v))
        decreases |tab| - k
      {
        if pfxs.At(v)[k].Used? && pfxs.At(v)[k].val.state.Invalid? {
          pfxs := pfxs.With(v, pfxs.At(v)[k := Free]);
        }
        k := k + 1;
      }
      CollectPfxs(c, S(), v);
    }

    method GcPeers()
      requires Inv(S())
      modifies this`peers
      ensures Inv(S()) && SameView(old(S()), S()) && NoInvalidPeer(peers)
    {
      hide Inv, SameView;
      ghost var c, n := S(), |peers|;
      var k := 0;
      while k != |peers|
        invariant k <= n && PeersCollected(c.peers, peers, k)
        decreases n - k
      {
        if peers[k].Used? && peers[k].val.state.Invalid? {
          peers := peers[k := Free];
        }
        k := k + 1;
      }
      CollectPeers(c, S());
    }

    /** Drop every invalid slot. A table whose flag is down has none, so no reader can tell. */
    method Gc()
      requires Valid()
      modifies this
      ensures Valid() && SameView(old(S()), S()) && time == old(time)
      ensures NoInvalidPfx(pfxs.v4) && NoInvalidPfx(pfxs.v6) && NoInvalidPeer(peers)
      ensures gcPfxs == Both(false, false) && !gcPeers
    {
      hide Inv, SameView, NoInvalidPfx, NoInvalidPeer, Flagged;
      ghost var c := S();
      SameViewRefl(c);
      NothingFlagged(c, gcPfxs, gcPeers);
      if gcPfxs.v4 {
        GcPfxs(V4);
        gcPfxs := gcPfxs.With(V4, false);
      }
      ghost var d := S();
      SameViewRefl(d);
      assert NoInvalidPfx(pfxs.v4);
      assert pfxs.v6 == pfxs.At(V4.Other());
      if gcPfxs.v6 {
        GcPfxs(V6);
        assert pfxs.v4 == pfxs.At(V6.Other());
        gcPfxs := gcPfxs.With(V6, false);
      }
      SameViewTrans(c, d, S());
      ghost var e := S();
      if gcPeers {
        GcPeers();
        gcPeers := false;
        SameViewTrans(c, e, S());
      }
      NoneInvalid(S());
    }

    /** Mark every prefix invalid and drop its cells, then reset every peer. */
    method Clear()
      requires Valid()
      modifies this
      ensures Valid() && SameView(S(), FRESH) && time == 0
    {
      hide RowOk, SameView, Tally;
      ghost var c := S();
      InvalidPeersReset(c);
      time := 0;
      ClearPfxs();
      gcPfxs := Both(AnyUsed(pfxs.v4), AnyUsed(pfxs.v6));
      pfxCnt := Both(ZERO, ZERO);
      ClearPeers();
      gcPeers := AnyUsed(peers);
      peerCnt := ZERO;
      ClearEffect(c, S());
    }

    method ClearPfxs()
      requires RowsOk(S())
      modifies this`pfxs
      ensures AllDead(pfxs.v4) && AllDead(pfxs.v6)
      ensures SameKeys(old(pfxs).v4, pfxs.v4) && SameKeys(old(pfxs).v6, pfxs.v6)
    {
      hide Wiped, WipedRow;
      ghost var c := S();
      var lit := Iter(V4, None, 0, ACTIVE, 0, false, ACTIVE, 0, ACTIVE);
      lit := FirstPfx(lit, None, ALL_VALID);
      WipeMove(c, c, 0, lit);
      while HasMorePfx(pfxs, lit)
        invariant Wiped(c, S(), Where(S(), lit)) && PfxMoved(S(), Where(S(), lit), None, ALL_VALID, lit)
        decreases Span(S()) - Where(S(), lit)
      {
        ghost var d, was := S(), lit;
        var v, i := lit.ver, lit.pfx;
        pfxs := pfxs.With(v, pfxs.At(v)[i := Used(pfxs.At(v)[i].key, WipedRow(pfxs.At(v)[i].val))]);
        WipeStep(c, d, S(), v, i);
        lit := NextPfx(lit);
        WipeMove(c, S(), Where(S(), was) + 1, lit);
      }
      WipeDone(c, S());
    }

    method ClearPeers()
      requires forall p :: 0 <= p < |peers| && peers[p].Used? && peers[p].val.state.Invalid? ==> peers[p].val == NO_PEER
      modifies this`peers
      ensures AllReset(peers) && SameKeys(old(peers), peers)
    {
      ghost var was := peers;
      var lit := Iter(V4, None, 0, ACTIVE, 0, false, ACTIVE, 0, ACTIVE);
      lit := FirstPeer(lit, ALL_VALID);
      while lit.peer < |peers|
        invariant SameKeys(was, peers) && PeerMoved(lit.peer, ALL_VALID, lit)
        invariant forall p :: 0 <= p < lit.peer ==> PeerSlotSt(peers[p]).Invalid?
        invariant forall p :: 0 <= p < |peers| && peers[p].Used? && peers[p].val.state.Invalid? ==>
                 peers[p].val == NO_PEER
        decreases |was| - lit.peer
      {
        peers := peers[lit.peer := Used(peers[lit.peer].key, NO_PEER)];
        lit := NextPeer(lit);
      }
    }

    // -------------------------------------------------------------- copying

    /** Show the cell of an active peer as active: the first cell of a row goes in by prefix,
        the next ones go into the prefix that the iterator stands on. */
    method PutCell(it: Iter, first: bool, pfx: Pfx, k: PeerId, path: PathId) returns (r: Iter)
      requires Valid() && PeerSt(peers, k).Active?
      requires !first ==> OnPfx(S(), it, pfx)
      modifies this`pfxs, this`pfxCnt, this`peers
      ensures Valid() && OnPfx(S(), r, pfx)
      ensures CellPut(old(S()), S(), pfx, k, Cell(Active, path))
    {
      hide Inv, Flagged, CellAt, PeerSt;
      ghost var c := S();
      if first {
        var ok;
        ok, r := AddPfxPeerById(it, pfx, k, path);
      } else {
        r := PfxInsert(it, k, path);
      }
      ghost var d := S();
      PfxActivatePeer(r);
      PutThenActivate(c, d, S(), pfx, k, path);
      ValidRow(S(), r);
    }

    /** Insert into a settled row. */
    method PfxInsert(it: Iter, k: PeerId, path: PathId) returns (r: Iter)
      requires Valid() && HasRow(S(), it.ver, it.pfx) && !PeerSt(peers, k).Invalid?
      requires !Row(S(), it.ver, it.pfx).state.Invalid?
      modifies this`pfxs, this`peers
      ensures Valid() && AtCell(S(), r) && CellKey(S(), r) == k && r.ver == it.ver && r.pfx == it.pfx
      ensures PfxKey(S(), it.ver, it.pfx) == PfxKey(old(S()), it.ver, it.pfx)
      ensures var pfx := PfxKey(old(S()), it.ver, it.pfx);
              CellPut(old(S()), S(), pfx, k,
                Cell(if CellAt(old(S()), pfx, k).state.Active? then Active else Inactive, path))
    {
      hide Inv, Flagged, CellAt;
      ghost var c := S();
      RowKeys(c, it.ver, it.pfx);
      UniquePeers(c);
      r := PfxAddPeerById(it, k, path);
      InsertEffect(c, S(), it.ver, it.pfx, k, path);
      AtNewCell(c, S(), r, k, path);
      SwapFlagged(c, S(), it.ver, it.pfx, Inserted(Row(c, it.ver, it.pfx), k, path), gcPfxs, gcPfxs, gcPeers);
    }

    /** Add and activate every active peer of the source. */
    method CopyPeers(src: View)
      requires Valid() && src.Valid() && src != this && SameView(S(), FRESH)
      modifies this`peers, this`peerCnt
      ensures Valid() && PeersCopied(src.S(), S())
      ensures forall pfx: Pfx, k: PeerId :: CellAt(S(), pfx, k) == NO_CELL
    {
      hide Inv, Flagged, CellAt, Get;
      ghost var c := src.S();
      EmptyView(S());
      var it := Iter(V4, None, 0, ACTIVE, 0, false, ACTIVE, 0, ACTIVE);
      it := src.FirstPeer(it, ACTIVE);
      while it.peer < |src.peers|
        invariant Valid() && src.PeerMoved(it.peer, ACTIVE, it)
        invariant forall pfx: Pfx, k: PeerId :: CellAt(S(), pfx, k) == NO_CELL
        invariant PeersCopiedTo(c.peers, peers, it.peer)
        decreases |src.peers| - it.peer
      {
        ghost var was := peers;
        var p := AddPeer(src.peers[it.peer].key);
        assert !PeerSt(peers, src.peers[it.peer].key).Invalid?;
        ActivatePeer(p);
        CopyPeer(c, was, peers, it.peer);
        var r := src.NextPeer(it);
        SkipPeers(c, peers, it.peer + 1, r.peer);
        it := r;
      }
    }

    /** Copy the active cells of the prefix that the source iterator stands on. */
    method CopyRow(src: View, it: Iter)
      requires Valid() && src.Valid() && src != this && HasRow(src.S(), it.ver, it.pfx)
      requires PeersCopied(src.S(), S()) && CopiedTo(src.S(), S(), Where(src.S(), it), 0)
      modifies this`pfxs, this`pfxCnt, this`peers
      ensures Valid() && PeersCopied(src.S(), S()) && CopiedTo(src.S(), S(), Where(src.S(), it) + 1, 0)
    {
      hide Inv, Flagged, CellAt, Get, CopiedTo;
      ghost var c := src.S();
      var pfx := src.pfxs.At(it.ver)[it.pfx].key;
      var first, dst := true, it;
      var s := src.ScanCells(it.(cellMask := ACTIVE), 0);
      CopyScan(c, S(), s, 0);
      while s.cellValid
        invariant Valid() && PeersCopied(c, S()) && (!first ==> OnPfx(S(), dst, pfx))
        invariant s.ver == it.ver && s.pfx == it.pfx && s.cellMask == ACTIVE && Scanned(c, s, s.cell, ACTIVE)
        invariant CopiedTo(c, S(), Where(c, it), s.cell)
        invariant !s.cellValid ==> CopiedTo(c, S(), Where(c, it) + 1, 0)
        decreases |src.pfxs.At(it.ver)[it.pfx].val.cells| - s.cell
      {
        ghost var d := S();
        OnPeer(c, s, s.cell, ACTIVE);
        StandsOn(c, s);
        var x := src.pfxs.At(it.ver)[it.pfx].val.cells[s.cell];
        dst := PutCell(dst, first, pfx, x.key, x.val.path);
        first := false;
        CopyCell(c, d, S(), s);
        ghost var m := s.cell;
        s := src.ScanCells(s, s.cell + 1);
        CopyScan(c, S(), s, m + 1);
      }
    }

    /** Copy the active part of `src` into this empty view. */
    method CopyFrom(src: View)
      requires Valid() && src.Valid() && src != this && SameView(S(), FRESH)
      modifies this
      ensures Valid() && time == src.time && IsCopy(src.S(), S())
      ensures peerCnt.act == src.peerCnt.act && SameActs(src.S(), S())
      ensures pfxCnt.v4.act == src.pfxCnt.v4.act && pfxCnt.v6.act == src.pfxCnt.v6.act
    {
      hide Inv, Flagged, CellAt, Get, CopiedTo, PeersCopied, SameView;
      time := src.time;
      ghost var c := src.S();
      CopyPeers(src);
      CopyStart(c, S());
      var it := Iter(V4, None, 0, ACTIVE, 0, false, ACTIVE, 0, ACTIVE);
      it := src.FirstPfx(it, None, ACTIVE);
      CopyNext(c, S(), 0, it);
      while HasMorePfx(src.pfxs, it)
        invariant Valid() && PeersCopied(c, S()) && CopiedTo(c, S(), Where(c, it), 0)
        invariant PfxMoved(c, Where(c, it), None, ACTIVE, it) && time == src.time
        decreases Span(c) - Where(c, it)
      {
        ghost var was := it;
        CopyRow(src, it);
        it := src.NextPfx(it);
        CopyNext(c, S(), Where(c, was) + 1, it);
      }
      CopyDone(c, S());
      CopyCounts(c, S());
      assert c.pfxCnt.At(V4) == c.pfxCnt.v4 && c.pfxCnt.At(V6) == c.pfxCnt.v6;
      assert pfxCnt.At(V4) == pfxCnt.v4 && pfxCnt.At(V6) == pfxCnt.v6;
    }

    // -------------------------------------------------------------- after a received frame

    /** Deactivate every active peer that has no active cell. */
    method DropIdlePeers()
      requires Valid()
      modifies this`pfxs, this`pfxCnt, this`peers, this`peerCnt
      ensures Valid() && forall pfx: Pfx, k: PeerId :: CellAt(S(), pfx, k) == CellAt(old(S()), pfx, k)
      ensures forall k: PeerId :: PeerSt(peers, k).Active? <==> Busy(old(S()), k)
    {
      hide Inv, Flagged, CellAt, Get;
      ghost var c := S();
      var it := Iter(V4, None, 0, ACTIVE, 0, false, ACTIVE, 0, ACTIVE);
      it := FirstPeer(it, ACTIVE);
      BusyStart(c, it.peer);
      while it.peer < |peers|
        invariant Valid() && PeerMoved(it.peer, ACTIVE, it) && SameKeys(c.peers, peers)
        invariant forall pfx: Pfx, k: PeerId :: CellAt(S(), pfx, k) == CellAt(c, pfx, k)
        invariant BusyTo(c, peers, it.peer)
        decreases |c.peers| - it.peer
      {
        ghost var d := S();
        PeerCntMeans(d, it.peer);
        if peers[it.peer].val.cnt.v4.act + peers[it.peer].val.cnt.v6.act == 0 {
          DeactivatePeer(it, it.peer);
          IdleDropped(c, d, S(), it.peer);
        } else {
          BusyKept(c, d, it.peer);
        }
        ghost var p := it.peer;
        it := NextPeer(it);
        BusySkip(c, S(), p + 1, it.peer);
      }
      BusyDone(c, S());
    }
  }
}
