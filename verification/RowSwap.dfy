/** Every operation on cells and prefixes replaces one row and moves counters to match.
    This module says what "to match" means and proves once that it keeps the invariant. */
module RowSwap {
  import opened Net
  import opened Khash
  import opened ViewState

  ghost predicate HasRow(c: Core, v: Ver, i: nat) {
    i < |c.pfxs.At(v)| && c.pfxs.At(v)[i].Used?
  }

  ghost function Row(c: Core, v: Ver, i: nat): PfxInfo
    requires HasRow(c, v, i)
  {
    c.pfxs.At(v)[i].val
  }

  /** A peer's counters follow the change of its cell from one row content to another. */
  ghost predicate PeerShift(s: Slot<PeerId, PeerInfo>, t: Slot<PeerId, PeerInfo>, v: Ver, was: Cells, now: Cells) {
    if s.Free? then t == s else
      && t.Used? && t.key == s.key && t.val.state == s.val.state
      && t.val.cnt.At(v.Other()) == s.val.cnt.At(v.Other())
      && t.val.cnt.At(v).Add(KeySt(was, s.key)) == s.val.cnt.At(v).Add(KeySt(now, s.key))
  }

  /** `d` is `c` with row `i` replaced by `info` and every counter moved accordingly. */
  ghost predicate Swapped(c: Core, d: Core, v: Ver, i: nat, info: PfxInfo)
    requires HasRow(c, v, i)
  {
    && d.pfxs == c.pfxs.With(v, c.pfxs.At(v)[i := Used(c.pfxs.At(v)[i].key, info)])
    && d.pfxCnt.At(v.Other()) == c.pfxCnt.At(v.Other())
    && d.pfxCnt.At(v).Add(Row(c, v, i).state) == c.pfxCnt.At(v).Add(info.state)
    && |d.peers| == |c.peers|
    && (forall p :: 0 <= p < |c.peers| ==> PeerShift(c.peers[p], d.peers[p], v, Row(c, v, i).cells, info.cells))
    && d.peerCnt == c.peerCnt
  }

  lemma SwapNothing(c: Core, v: Ver, i: nat)
    requires HasRow(c, v, i)
    ensures Swapped(c, c, v, i, Row(c, v, i))
  {
    assert c.pfxs.At(v)[i := c.pfxs.At(v)[i]] == c.pfxs.At(v);
  }

  lemma SwapRow(c: Core, d: Core, v: Ver, i: nat, info: PfxInfo)
    requires HasRow(c, v, i) && Swapped(c, d, v, i, info)
    ensures HasRow(d, v, i) && Row(d, v, i) == info
  {
  }

  lemma SwapTrans(c: Core, d: Core, e: Core, v: Ver, i: nat, mid: PfxInfo, info: PfxInfo)
    requires HasRow(c, v, i) && Swapped(c, d, v, i, mid)
    requires HasRow(d, v, i) && Swapped(d, e, v, i, info)
    ensures Swapped(c, e, v, i, info)
  {
    forall p | 0 <= p < |c.peers|
      ensures PeerShift(c.peers[p], e.peers[p], v, Row(c, v, i).cells, info.cells)
    {
      assert PeerShift(c.peers[p], d.peers[p], v, Row(c, v, i).cells, mid.cells);
      assert PeerShift(d.peers[p], e.peers[p], v, mid.cells, info.cells);
    }
    assert c.pfxs.At(v)[i := Used(c.pfxs.At(v)[i].key, mid)][i := Used(c.pfxs.At(v)[i].key, info)]
        == c.pfxs.At(v)[i := Used(c.pfxs.At(v)[i].key, info)];
  }

  ghost predicate SamePeer(s: Slot<PeerId, PeerInfo>, t: Slot<PeerId, PeerInfo>) {
    if s.Free? then t.Free? else t.Used? && t.key == s.key && t.val.state == s.val.state
  }

  /** Peers whose slots keep their keys and states are found, and found in, the same way. */
  lemma SamePeers(peers: PeerTab, peers': PeerTab)
    requires Unique(peers) && |peers'| == |peers|
    requires forall p :: 0 <= p < |peers| ==> SamePeer(peers[p], peers'[p])
    ensures Unique(peers') && PeerSts(peers') == PeerSts(peers)
    ensures forall k :: Get(peers', k) == Get(peers, k)
    ensures forall k :: PeerSt(peers', k) == PeerSt(peers, k)
  {
    assert Unique(peers');
    forall k ensures Get(peers', k) == Get(peers, k) && PeerSt(peers', k) == PeerSt(peers, k) {
      var g, g' := Get(peers, k), Get(peers', k);
      if g < |peers| { GetIsSlot(peers', g); }
      if g' < |peers| { GetIsSlot(peers, g'); }
    }
    assert PeerSts(peers') == PeerSts(peers);
  }

  lemma SwapPeers(c: Core, d: Core, v: Ver, i: nat, info: PfxInfo)
    requires KeysOk(c) && HasRow(c, v, i) && Swapped(c, d, v, i, info)
    ensures Unique(d.peers) && PeerSts(d.peers) == PeerSts(c.peers)
    ensures forall k :: Get(d.peers, k) == Get(c.peers, k)
    ensures forall k :: PeerSt(d.peers, k) == PeerSt(c.peers, k)
  {
    forall p | 0 <= p < |c.peers|
      ensures SamePeer(c.peers[p], d.peers[p])
    {
      assert PeerShift(c.peers[p], d.peers[p], v, Row(c, v, i).cells, info.cells);
    }
    SamePeers(c.peers, d.peers);
  }

  lemma SwapKeys(c: Core, d: Core, v: Ver, i: nat, info: PfxInfo)
    requires KeysOk(c) && HasRow(c, v, i) && Swapped(c, d, v, i, info)
    ensures KeysOk(d)
  {
    SwapPeers(c, d, v, i, info);
    SetFacts(c.pfxs.At(v), i, info);
    forall w: Ver, h | 0 <= h < |d.pfxs.At(w)| && d.pfxs.At(w)[h].Used?
      ensures d.pfxs.At(w)[h].key.Ver() == w
    {
      assert c.pfxs.At(w)[h].Used? && c.pfxs.At(w)[h].key == d.pfxs.At(w)[h].key;
    }
  }

  lemma SwapSeen(c: Core, d: Core, v: Ver, i: nat, info: PfxInfo)
    requires SeenCounted(c) && HasRow(c, v, i) && Swapped(c, d, v, i, info)
    ensures SeenCounted(d)
  {
    forall w: Ver, p | 0 <= p < |d.peers| && d.peers[p].Used?
      ensures d.peers[p].val.cnt.At(w) == Tally(SeenSts(d.pfxs.At(w), d.peers[p].key))
    {
      var k := d.peers[p].key;
      assert PeerShift(c.peers[p], d.peers[p], v, Row(c, v, i).cells, info.cells);
      assert c.peers[p].val.cnt.At(w) == Tally(SeenSts(c.pfxs.At(w), k));
      if w == v {
        var s := SeenSts(c.pfxs.At(v), k);
        assert SeenSts(d.pfxs.At(v), k) == s[i := KeySt(info.cells, k)];
        TallyUpdate(s, i, KeySt(info.cells, k));
      } else {
        assert w == v.Other();
      }
    }
  }

  lemma SwapRows(c: Core, d: Core, v: Ver, i: nat, info: PfxInfo)
    requires KeysOk(c) && RowsOk(c) && CellsBacked(c) && HasRow(c, v, i) && Swapped(c, d, v, i, info)
    requires RowOk(info) && RowBacked(info.cells, c.peers)
    ensures RowsOk(d) && CellsBacked(d)
  {
    SwapPeers(c, d, v, i, info);
    forall w: Ver, h | 0 <= h < |d.pfxs.At(w)| && d.pfxs.At(w)[h].Used?
      ensures RowOk(d.pfxs.At(w)[h].val) && RowBacked(d.pfxs.At(w)[h].val.cells, d.peers)
    {
      if w == v && h == i {
        assert d.pfxs.At(w)[h].val == info;
      } else {
        assert d.pfxs.At(w)[h] == c.pfxs.At(w)[h];
        assert RowBacked(c.pfxs.At(w)[h].val.cells, c.peers);
      }
    }
  }

  /** Replacing a row by a settled, backed row keeps the whole invariant. */
  lemma SwapKeepsInv(c: Core, d: Core, v: Ver, i: nat, info: PfxInfo)
    requires Inv(c) && HasRow(c, v, i) && Swapped(c, d, v, i, info)
    requires RowOk(info) && RowBacked(info.cells, c.peers)
    ensures Inv(d)
  {
    SwapKeys(c, d, v, i, info);
    SwapSeen(c, d, v, i, info);
    SwapRows(c, d, v, i, info);
    SwapPeers(c, d, v, i, info);
    forall w: Ver ensures d.pfxCnt.At(w) == Tally(PfxSts(d.pfxs.At(w))) {
      if w == v {
        var s := PfxSts(c.pfxs.At(v));
        assert PfxSts(d.pfxs.At(v)) == s[i := info.state];
        TallyUpdate(s, i, info.state);
      } else {
        assert w == v.Other();
      }
    }
  }

  function RowCell(cells: Cells, k: PeerId): Cell {
    var j := Get(cells, k);
    if j == |cells| || cells[j].val.state.Invalid? then Cell(Invalid, 0) else cells[j].val
  }

  /** A reader sees the new row where it was put and nothing else changed. */
  lemma SwapView(c: Core, d: Core, v: Ver, i: nat, info: PfxInfo)
    requires KeysOk(c) && HasRow(c, v, i) && Swapped(c, d, v, i, info)
    ensures forall pfx: Pfx, k: PeerId ::
              CellAt(d, pfx, k) == if pfx == c.pfxs.At(v)[i].key then RowCell(info.cells, k) else CellAt(c, pfx, k)
    ensures forall k: PeerId :: PeerSt(d.peers, k) == PeerSt(c.peers, k)
  {
    SwapPeers(c, d, v, i, info);
    SetFacts(c.pfxs.At(v), i, info);
    forall pfx: Pfx, k: PeerId
      ensures CellAt(d, pfx, k) == if pfx == c.pfxs.At(v)[i].key then RowCell(info.cells, k) else CellAt(c, pfx, k)
    {
      if pfx == c.pfxs.At(v)[i].key { GetIsSlot(c.pfxs.At(v), i); }
    }
  }
}
