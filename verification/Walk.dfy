/** Walking the table: the v4 slots, then the v6 slots, and inside each prefix its cells. */
module Walk {
  import opened Net
  import opened Khash
  import opened ViewState
  import opened RowSwap
  import opened Cascade
  import opened CellOps

  /** Prefix slots in walking order. */
  ghost function Span(c: Core): nat { |c.pfxs.v4| + |c.pfxs.v6| }

  ghost function SlotAt(c: Core, at: nat): Slot<Pfx, PfxInfo>
    requires at < Span(c)
  {
    if at < |c.pfxs.v4| then c.pfxs.v4[at] else c.pfxs.v6[at - |c.pfxs.v4|]
  }

  ghost function Lin(c: Core, v: Ver, i: nat): nat { if v.V4? then i else |c.pfxs.v4| + i }

  /** The slots that a walk restricted to one address family, or to none, covers. */
  ghost function Lo(c: Core, filter: Option<Ver>): nat { if filter == Some(V6) then |c.pfxs.v4| else 0 }
  ghost function Hi(c: Core, filter: Option<Ver>): nat { if filter == Some(V4) then |c.pfxs.v4| else Span(c) }

  predicate HasMorePfx(pfxs: Both<PfxTab>, it: Iter) { it.pfx < |pfxs.At(it.ver)| }
  predicate HasMorePfxPeer(pfxs: Both<PfxTab>, it: Iter) { HasMorePfx(pfxs, it) && it.cellValid }

  ghost function Where(c: Core, it: Iter): nat { Lin(c, it.ver, it.pfx) }

  ghost predicate PfxHit(c: Core, at: nat, mask: Mask)
    requires at < Span(c)
  {
    mask.Hits(PfxSt(SlotAt(c, at)))
  }

  /** The walk has moved from slot `from` to the next matching prefix, or to the end. */
  ghost predicate PfxMoved(c: Core, from: nat, filter: Option<Ver>, mask: Mask, r: Iter) {
    && r.pfxMask == mask && !r.cellValid
    && from <= Where(c, r) <= Hi(c, filter) <= Span(c) && r.pfx <= |c.pfxs.At(r.ver)|
    && (HasMorePfx(c.pfxs, r) <==> Where(c, r) < Hi(c, filter))
    && (forall at :: from <= at < Where(c, r) ==> !PfxHit(c, at, mask))
    && (HasMorePfx(c.pfxs, r) ==> PfxHit(c, Where(c, r), mask))
    && (r.filter == filter || (filter.None? && r.filter == Some(V6)))
    && (r.filter.Some? ==> r.ver == r.filter.value)
  }

  ghost function RowAt(c: Core, at: nat): Cells
    requires at < Span(c)
  {
    if SlotAt(c, at).Used? then SlotAt(c, at).val.cells else []
  }

  /** A prefix matches and one of its cells does. */
  ghost predicate Match(c: Core, at: nat, j: nat, mask: Mask) {
    at < Span(c) && PfxHit(c, at, mask) && j < |RowAt(c, at)| && mask.Hits(CellSt(RowAt(c, at)[j]))
  }

  ghost predicate Before(at: nat, j: nat, at': nat, j': nat) { at < at' || (at == at' && j < j') }

  /** In a settled view a matching prefix has a matching cell. */
  lemma MatchingCell(c: Core, at: nat, mask: Mask)
    requires Inv(c) && at < Span(c) && PfxHit(c, at, mask)
    ensures exists j :: 0 <= j < |RowAt(c, at)| && mask.Hits(CellSt(RowAt(c, at)[j]))
  {
    hide Tally, RowSts;
    var v := if at < |c.pfxs.v4| then V4 else V6;
    var i := if at < |c.pfxs.v4| then at else at - |c.pfxs.v4|;
    var info := c.pfxs.At(v)[i].val;
    assert RowOk(info);
    TallyBounds(RowSts(info.cells));
    if info.state.Active? {
      var j :| 0 <= j < |info.cells| && RowSts(info.cells)[j].Active?;
      assert CellSt(RowAt(c, at)[j]).Active?;
    } else {
      var j :| 0 <= j < |info.cells| && RowSts(info.cells)[j].Inactive?;
      assert CellSt(RowAt(c, at)[j]).Inactive?;
    }
  }

  /** Where a prefix and its cell for a peer sit in walking order. */
  ghost function PfxPos(c: Core, pfx: Pfx): nat { Lin(c, pfx.Ver(), Get(c.pfxs.At(pfx.Ver()), pfx)) }
  ghost function CellPos(c: Core, pfx: Pfx, k: PeerId): nat {
    var tab := c.pfxs.At(pfx.Ver());
    var i := Get(tab, pfx);
    if i == |tab| then 0 else Get(tab[i].val.cells, k)
  }

  /** The walk stands on a matching cell of a prefix, and on that cell's peer. */
  ghost predicate FoundCell(c: Core, it: Iter) {
    && HasMorePfxPeer(c.pfxs, it) && HasRow(c, it.ver, it.pfx)
    && PfxHit(c, Where(c, it), it.pfxMask) && Scanned(c, it, 0, it.cellMask)
  }

  /** No matching prefix of the range has a matching cell. */
  ghost predicate NoneFrom(c: Core, from: nat, to: nat, pfxMask: Mask, cellMask: Mask)
    requires to <= Span(c)
  {
    forall at, j :: from <= at < to && PfxHit(c, at, pfxMask) && 0 <= j < |RowAt(c, at)| ==>
      !cellMask.Hits(CellSt(RowAt(c, at)[j]))
  }

  /** Where a walk over prefixes can stand. */
  lemma Standing(c: Core, from: nat, filter: Option<Ver>, mask: Mask, r: Iter)
    requires PfxMoved(c, from, filter, mask, r)
    ensures PfxMoved(c, Where(c, r), filter, mask, r) && from <= Where(c, r) <= Hi(c, filter) <= Span(c)
    ensures r.pfxMask == mask
    ensures HasMorePfx(c.pfxs, r) ==>
            HasRow(c, r.ver, r.pfx) && PfxHit(c, Where(c, r), mask) && Where(c, r) < Hi(c, filter)
    ensures !HasMorePfx(c.pfxs, r) ==> Where(c, r) == Hi(c, filter)
    ensures (r.filter == filter || (filter.None? && r.filter == Some(V6)))
    ensures (r.filter.Some? ==> r.ver == r.filter.value) && !r.cellValid
  {
  }

  /** Moving on under the narrowed filter is moving on under the one the walk began with. */
  lemma NextMoved(c: Core, it: Iter, filter: Option<Ver>, mask: Mask, r: Iter)
    requires HasRow(c, it.ver, it.pfx) && PfxMoved(c, Where(c, it) + 1, it.filter, mask, r)
    requires (it.filter == filter || (filter.None? && it.filter == Some(V6)))
    requires (it.filter.Some? ==> it.ver == it.filter.value)
    ensures PfxMoved(c, Where(c, it) + 1, filter, mask, r)
  {
  }

  lemma NoneYet(c: Core, from: nat, filter: Option<Ver>, pfxMask: Mask, cellMask: Mask, r: Iter)
    requires PfxMoved(c, from, filter, pfxMask, r)
    ensures NoneFrom(c, from, Where(c, r), pfxMask, cellMask)
  {
  }

  /** A row without a matching cell, and prefixes that do not match, extend such a range. */
  lemma NoneMore(c: Core, from: nat, it: Iter, r: Iter, filter: Option<Ver>, pfxMask: Mask, cellMask: Mask)
    requires HasRow(c, it.ver, it.pfx) && from <= Where(c, it) < Span(c)
    requires NoneFrom(c, from, Where(c, it), pfxMask, cellMask)
    requires forall j :: 0 <= j < |Row(c, it.ver, it.pfx).cells| ==>
             !cellMask.Hits(CellSt(Row(c, it.ver, it.pfx).cells[j]))
    requires PfxMoved(c, Where(c, it) + 1, filter, pfxMask, r)
    ensures NoneFrom(c, from, Where(c, r), pfxMask, cellMask)
  {
    assert SlotAt(c, Where(c, it)) == c.pfxs.At(it.ver)[it.pfx];
    forall at, j | from <= at < Where(c, r) && PfxHit(c, at, pfxMask) && 0 <= j < |RowAt(c, at)|
      ensures !cellMask.Hits(CellSt(RowAt(c, at)[j]))
    {
      if at == Where(c, it) { assert RowAt(c, at) == Row(c, it.ver, it.pfx).cells; }
    }
  }

  /** What one step of the walk does, whatever the view looks like. */
  ghost predicate Stepped(c: Core, it: Iter, r: Iter)
    requires HasRow(c, it.ver, it.pfx)
  {
    && r.pfxMask == it.pfxMask && r.cellMask == it.cellMask && (r.filter.Some? ==> r.ver == r.filter.value)
    && (r.filter == it.filter || (it.filter.None? && r.filter == Some(V6)))
    && if r.cellValid && Where(c, r) == Where(c, it) then
         r.ver == it.ver && r.pfx == it.pfx && Scanned(c, r, it.cell + 1, it.cellMask)
       else
         && (forall j :: it.cell < j < |Row(c, it.ver, it.pfx).cells| ==>
           !it.cellMask.Hits(CellSt(Row(c, it.ver, it.pfx).cells[j])))
         && PfxMoved(c, Where(c, it) + 1, it.filter, it.pfxMask, r.(cellValid := false))
         && (HasMorePfx(c.pfxs, r) ==> HasRow(c, r.ver, r.pfx) && Scanned(c, r, 0, it.cellMask))
         && (!HasMorePfx(c.pfxs, r) ==> !r.cellValid)
  }

  // ---------------------------------------------------------------- complete walks

  /** No match lies between the position `at, j` and where the walk now stands. */
  ghost predicate NothingSkipped(c: Core, at: nat, j: nat, r: Iter, mask: Mask) {
    forall a: nat, b: nat :: Match(c, a, b, mask) && (Before(at, j, a, b) || (a == at && b == j)) ==>
      HasMorePfxPeer(c.pfxs, r) && !Before(a, b, Where(c, r), r.cell)
  }

  /** With equal masks the first step of a walk over all prefixes skips nothing. */
  lemma FirstComplete(c: Core, r: Iter, mask: Mask)
    requires Inv(c) && r.pfxMask == mask && r.cellMask == mask
    requires !HasMorePfxPeer(c.pfxs, r) ==> NoneFrom(c, 0, Span(c), mask, mask)
    requires HasMorePfxPeer(c.pfxs, r) ==>
             FoundCell(c, r) && Where(c, r) <= Span(c) && NoneFrom(c, 0, Where(c, r), mask, mask)
    ensures NothingSkipped(c, 0, 0, r, mask)
    ensures HasMorePfxPeer(c.pfxs, r) ==> Match(c, Where(c, r), r.cell, mask) && AtCell(c, r)
  {
    hide Inv, Get;
    if HasMorePfxPeer(c.pfxs, r) { OnPeer(c, r, 0, mask); }
  }

  lemma OnPeer(c: Core, r: Iter, from: nat, mask: Mask)
    requires Inv(c) && Scanned(c, r, from, mask) && r.cellValid
    ensures AtCell(c, r)
  {
    CellCounted(c, r.ver, r.pfx, r.cell);
  }

  /** With equal masks a step skips nothing, provided that the prefix it leaves still matches
      or has no matching cell left; this is what deactivation and removal leave behind. */
  lemma StepComplete(c: Core, it: Iter, r: Iter, mask: Mask)
    requires Inv(c) && HasRow(c, it.ver, it.pfx) && it.cell < |Row(c, it.ver, it.pfx).cells|
    requires it.pfxMask == mask && it.cellMask == mask && it.filter != Some(V4)
    requires PfxHit(c, Where(c, it), mask) ||
             forall j :: 0 <= j < |Row(c, it.ver, it.pfx).cells| ==> !mask.Hits(CellSt(Row(c, it.ver, it.pfx).cells[j]))
    requires Stepped(c, it, r)
    ensures NothingSkipped(c, Where(c, it), it.cell + 1, r, mask)
    ensures HasMorePfxPeer(c.pfxs, r) ==>
            Match(c, Where(c, r), r.cell, mask) && Before(Where(c, it), it.cell, Where(c, r), r.cell)
    ensures HasMorePfxPeer(c.pfxs, r) ==> AtCell(c, r)
  {
    hide Inv, Get;
    if r.cellValid && Where(c, r) == Where(c, it) {
      OnPeer(c, r, it.cell + 1, mask);
    } else if HasMorePfx(c.pfxs, r) {
      MatchingCell(c, Where(c, r), mask);
      OnPeer(c, r, 0, mask);
    }
  }

  /** The prefix is in the view, it matches, and so does its cell for the peer. */
  ghost predicate MatchKey(c: Core, q: Key, mask: Mask) {
    var tab := c.pfxs.At(q.0.Ver());
    var i := Get(tab, q.0);
    i < |tab| && mask.Hits(tab[i].val.state) && mask.Hits(KeySt(tab[i].val.cells, q.1))
  }

  lemma KeyHasPos(c: Core, q: Key, mask: Mask)
    requires MatchKey(c, q, mask)
    ensures Match(c, PfxPos(c, q.0), CellPos(c, q.0, q.1), mask)
    ensures RowAt(c, PfxPos(c, q.0))[CellPos(c, q.0, q.1)].key == q.1
  {
  }

  lemma RowKeys(c: Core, v: Ver, i: nat)
    requires Inv(c) && HasRow(c, v, i)
    ensures Unique(c.pfxs.At(v)) && Unique(Row(c, v, i).cells) && PfxKey(c, v, i).Ver() == v
  {
    hide Tally, RowSts, Get, PfxsCounted, PeersCounted, SeenCounted, CellsBacked;
    assert RowOk(Row(c, v, i));
  }

  lemma PosHasKey(c: Core, it: Iter, mask: Mask)
    requires Inv(c) && AtCell(c, it) && Match(c, Where(c, it), it.cell, mask)
    ensures var q := (PfxKey(c, it.ver, it.pfx), CellKey(c, it));
            PfxPos(c, q.0) == Where(c, it) && CellPos(c, q.0, q.1) == it.cell && MatchKey(c, q, mask)
  {
    hide Inv, Get, Unique;
    RowKeys(c, it.ver, it.pfx);
    GetIsSlot(c.pfxs.At(it.ver), it.pfx);
    GetIsSlot(Row(c, it.ver, it.pfx).cells, it.cell);
  }

  /** Exactly the matches before position `at, j` have been visited, each once. */
  ghost predicate Visited(c: Core, seen: seq<Key>, at: nat, j: nat, mask: Mask) {
    && (forall q: Key :: q in seen <==> MatchKey(c, q, mask) && Before(PfxPos(c, q.0), CellPos(c, q.0, q.1), at, j))
    && (forall a, b :: 0 <= a < b < |seen| ==> seen[a] != seen[b] && PfxPos(c, seen[a].0) <= PfxPos(c, seen[b].0))
  }

  lemma VisitFirst(c: Core, r: Iter, mask: Mask)
    requires NothingSkipped(c, 0, 0, r, mask)
    ensures HasMorePfxPeer(c.pfxs, r) ==> Visited(c, [], Where(c, r), r.cell, mask)
    ensures !HasMorePfxPeer(c.pfxs, r) ==> Visited(c, [], Span(c), 0, mask)
  {
    hide MatchKey, PfxPos, CellPos, Match;
    forall q: Key | MatchKey(c, q, mask)
      ensures HasMorePfxPeer(c.pfxs, r) && !Before(PfxPos(c, q.0), CellPos(c, q.0, q.1), Where(c, r), r.cell)
    {
      KeyHasPos(c, q, mask);
    }
  }

  lemma VisitStep(c: Core, it: Iter, r: Iter, seen: seq<Key>, mask: Mask)
    requires Inv(c) && AtCell(c, it) && Match(c, Where(c, it), it.cell, mask)
    requires Visited(c, seen, Where(c, it), it.cell, mask) && NothingSkipped(c, Where(c, it), it.cell + 1, r, mask)
    requires HasMorePfxPeer(c.pfxs, r) ==> Before(Where(c, it), it.cell, Where(c, r), r.cell)
    ensures var seen' := seen + [(PfxKey(c, it.ver, it.pfx), CellKey(c, it))];
            && (HasMorePfxPeer(c.pfxs, r) ==> Visited(c, seen', Where(c, r), r.cell, mask))
            && (!HasMorePfxPeer(c.pfxs, r) ==> Visited(c, seen', Span(c), 0, mask))
  {
    hide Inv, Get, MatchKey, Match;
    var q0 := (PfxKey(c, it.ver, it.pfx), CellKey(c, it));
    PosHasKey(c, it, mask);
    forall q: Key | MatchKey(c, q, mask)
      ensures Before(PfxPos(c, q.0), CellPos(c, q.0, q.1), Where(c, it), it.cell) || q == q0 ||
              (HasMorePfxPeer(c.pfxs, r) && !Before(PfxPos(c, q.0), CellPos(c, q.0, q.1), Where(c, r), r.cell))
    {
      KeyHasPos(c, q, mask);
      if PfxPos(c, q.0) == Where(c, it) && CellPos(c, q.0, q.1) == it.cell { SamePos(c, q, q0, mask); }
    }
  }

  lemma SamePos(c: Core, q: Key, q': Key, mask: Mask)
    requires MatchKey(c, q, mask) && MatchKey(c, q', mask)
    requires PfxPos(c, q.0) == PfxPos(c, q'.0) && CellPos(c, q.0, q.1) == CellPos(c, q'.0, q'.1)
    ensures q == q'
  {
    assert SlotAt(c, PfxPos(c, q.0)).key == q.0 && SlotAt(c, PfxPos(c, q'.0)).key == q'.0;
    KeyHasPos(c, q, mask);
    KeyHasPos(c, q', mask);
  }

  lemma VisitDone(c: Core, seen: seq<Key>, mask: Mask)
    requires Visited(c, seen, Span(c), 0, mask)
    ensures forall q: Key :: q in seen <==> MatchKey(c, q, mask)
    ensures forall a, b :: 0 <= a < b < |seen| ==> seen[a] != seen[b]
    ensures forall a, b :: 0 <= a < b < |seen| && seen[a].0.Ver().V6? ==> seen[b].0.Ver().V6?
  {
    forall q: Key | MatchKey(c, q, mask) ensures q in seen { KeyHasPos(c, q, mask); }
    forall a, b | 0 <= a < b < |seen| && seen[a].0.Ver().V6? ensures seen[b].0.Ver().V6? {
      assert seen[a] in seen && seen[b] in seen;
      assert MatchKey(c, seen[a], mask) && MatchKey(c, seen[b], mask);
    }
  }
}
