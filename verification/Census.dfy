/** What the cached counters mean to a reader: they are sizes of sets of the abstract view,
    so they depend on what the view shows and not on how its tables are laid out. */
module Census {
  import opened Net
  import opened Lists
  import opened Khash
  import opened ViewState
  import opened RowSwap
  import opened Cascade
  import opened CellOps
  import opened Walk

  /** The keys of the slots that are in state `st`. */
  ghost function KeysIn<K, V>(t: seq<Slot<K, V>>, sts: seq<State>, st: State): set<K>
    requires |sts| == |t|
  {
    if |t| == 0 then {} else
    var n := |t| - 1;
    KeysIn(t[..n], sts[..n], st) + if t[n].Used? && sts[n] == st then {t[n].key} else {}
  }

  ghost predicate KeyAt<K, V>(t: seq<Slot<K, V>>, sts: seq<State>, st: State, k: K, i: nat)
    requires |sts| == |t|
  {
    i < |t| && t[i].Used? && sts[i] == st && t[i].key == k
  }

  lemma {:induction false} KeysInAt<K, V>(t: seq<Slot<K, V>>, sts: seq<State>, st: State, k: K)
    requires |sts| == |t|
    ensures k in KeysIn(t, sts, st) <==> exists i :: KeyAt(t, sts, st, k, i)
  {
    if |t| > 0 {
      var n := |t| - 1;
      KeysInAt(t[..n], sts[..n], st, k);
      if k in KeysIn(t[..n], sts[..n], st) {
        var i :| KeyAt(t[..n], sts[..n], st, k, i);
        assert KeyAt(t, sts, st, k, i);
      }
      if i :| KeyAt(t, sts, st, k, i) {
        assert i == n || KeyAt(t[..n], sts[..n], st, k, i);
      }
      assert KeyAt(t, sts, st, k, n) <==> t[n].Used? && sts[n] == st && t[n].key == k;
    }
  }

  /** A recount over distinct keys is the size of the set of keys. */
  lemma {:induction false} TallyIsCard<K, V>(t: seq<Slot<K, V>>, sts: seq<State>)
    requires Unique(t) && |sts| == |t| && forall i :: 0 <= i < |t| && t[i].Free? ==> sts[i].Invalid?
    ensures Tally(sts) == Cnt(|KeysIn(t, sts, Active)|, |KeysIn(t, sts, Inactive)|)
  {
    if |t| > 0 {
      var n := |t| - 1;
      TallyIsCard(t[..n], sts[..n]);
      if !sts[n].Invalid? {
        KeysInAt(t[..n], sts[..n], sts[n], t[n].key);
        assert forall i :: !KeyAt(t[..n], sts[..n], sts[n], t[n].key, i);
      }
    }
  }

  // ---------------------------------------------------------------- sets of the abstract view

  /** The prefixes of one family that peer `k` sees in state `st`. */
  ghost function PfxsSeen(c: Core, v: Ver, k: PeerId, st: State): set<Pfx> {
    KeysIn(c.pfxs.At(v), SeenSts(c.pfxs.At(v), k), st)
  }

  /** The peers that see the prefix in state `st`. */
  ghost function PeersSeeing(c: Core, v: Ver, i: nat, st: State): set<PeerId>
    requires HasRow(c, v, i)
  {
    KeysIn(Row(c, v, i).cells, RowSts(Row(c, v, i).cells), st)
  }

  /** Membership in those sets is what the abstract view shows. */
  lemma PfxsSeenAt(c: Core, v: Ver, k: PeerId, st: State, pfx: Pfx)
    requires Inv(c) && !st.Invalid?
    ensures pfx in PfxsSeen(c, v, k, st) <==> pfx.Ver() == v && CellAt(c, pfx, k).state == st
  {
    hide Tally, Get, RowOk, PfxsCounted, PeersCounted, SeenCounted, CellsBacked, RowsOk;
    var tab := c.pfxs.At(v);
    KeysInAt(tab, SeenSts(tab, k), st, pfx);
    if pfx in PfxsSeen(c, v, k, st) {
      var i :| KeyAt(tab, SeenSts(tab, k), st, pfx, i);
      GetIsSlot(tab, i);
    }
    if pfx.Ver() == v && CellAt(c, pfx, k).state == st {
      var i := Get(tab, pfx);
      assert KeyAt(tab, SeenSts(tab, k), st, pfx, i);
    }
  }

  lemma PeersSeeingAt(c: Core, v: Ver, i: nat, st: State, k: PeerId)
    requires Inv(c) && HasRow(c, v, i) && !st.Invalid?
    ensures k in PeersSeeing(c, v, i, st) <==> CellAt(c, PfxKey(c, v, i), k).state == st
  {
    hide Inv, Tally, Get;
    RowKeys(c, v, i);
    RowIsView(c, v, i);
    var cells := Row(c, v, i).cells;
    KeysInAt(cells, RowSts(cells), st, k);
    if k in PeersSeeing(c, v, i, st) {
      var j :| KeyAt(cells, RowSts(cells), st, k, j);
      GetIsSlot(cells, j);
    }
    if RowCell(cells, k).state == st {
      var j := Get(cells, k);
      assert KeyAt(cells, RowSts(cells), st, k, j);
    }
  }

  /** A peer's cached counters are the numbers of prefixes that it shows. */
  lemma PeerCntIsCard(c: Core, p: nat, v: Ver)
    requires Inv(c) && p < |c.peers| && c.peers[p].Used?
    ensures c.peers[p].val.cnt.At(v) ==
            Cnt(|PfxsSeen(c, v, c.peers[p].key, Active)|, |PfxsSeen(c, v, c.peers[p].key, Inactive)|)
  {
    hide Tally, Get, RowOk, PfxsCounted, PeersCounted, CellsBacked, RowsOk;
    TallyIsCard(c.pfxs.At(v), SeenSts(c.pfxs.At(v), c.peers[p].key));
  }

  /** A prefix's cached counters are the numbers of peers that see it. */
  lemma PfxCntIsCard(c: Core, v: Ver, i: nat)
    requires Inv(c) && HasRow(c, v, i)
    ensures Row(c, v, i).cnt == Cnt(|PeersSeeing(c, v, i, Active)|, |PeersSeeing(c, v, i, Inactive)|)
  {
    hide Tally, Get, Inv;
    InvLoose(c, v, i);
    TallyIsCard(Row(c, v, i).cells, RowSts(Row(c, v, i).cells));
  }

  // ---------------------------------------------------------------- 16 bits are enough

  ghost function Ids(n: nat): (r: set<PeerId>)
    requires n <= 65535
    ensures |r| == n && forall k: PeerId :: k in r <==> k <= n
  {
    if n == 0 then {} else Ids(n - 1) + {n}
  }

  /** The 16-bit counters of a prefix cannot overflow, not even their sum. */
  lemma PfxCntFits(c: Core, v: Ver, i: nat)
    requires Inv(c) && HasRow(c, v, i)
    ensures Row(c, v, i).cnt.act + Row(c, v, i).cnt.ina <= 65535
  {
    hide Inv;
    PfxCntIsCard(c, v, i);
    var a, b := PeersSeeing(c, v, i, Active), PeersSeeing(c, v, i, Inactive);
    forall k | k in a ensures k !in b {
      PeersSeeingAt(c, v, i, Active, k);
      PeersSeeingAt(c, v, i, Inactive, k);
    }
    assert |a + b| == |a| + |b|;
    SubsetCard(a + b, Ids(65535));
  }

  // ---------------------------------------------------------------- layout does not matter

  lemma SameSeen(c: Core, d: Core, v: Ver, k: PeerId, st: State)
    requires Inv(c) && Inv(d) && !st.Invalid?
    requires forall pfx: Pfx :: CellAt(c, pfx, k).state == st <==> CellAt(d, pfx, k).state == st
    ensures PfxsSeen(c, v, k, st) == PfxsSeen(d, v, k, st)
  {
    hide Inv, CellAt, PfxsSeen;
    forall pfx ensures pfx in PfxsSeen(c, v, k, st) <==> pfx in PfxsSeen(d, v, k, st) {
      PfxsSeenAt(c, v, k, st, pfx);
      PfxsSeenAt(d, v, k, st, pfx);
    }
  }

  /** Two views that show a peer the same active cells cache the same active counts for it. */
  lemma SameActiveCnt(c: Core, d: Core, p: nat, q: nat, v: Ver)
    requires Inv(c) && Inv(d) && p < |c.peers| && c.peers[p].Used? && q < |d.peers| && d.peers[q].Used?
    requires c.peers[p].key == d.peers[q].key
    requires forall pfx: Pfx :: CellAt(c, pfx, c.peers[p].key).state.Active? <==>
             CellAt(d, pfx, c.peers[p].key).state.Active?
    ensures c.peers[p].val.cnt.At(v).act == d.peers[q].val.cnt.At(v).act
  {
    hide Inv, CellAt, PfxsSeen;
    SameSeen(c, d, v, c.peers[p].key, Active);
    PeerCntIsCard(c, p, v);
    PeerCntIsCard(d, q, v);
  }
}
