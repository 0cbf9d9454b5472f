/** The prefix-to-AS consumer: per output interval it counts, for each prefix and origin, the
    views in which some full-feed or some partial-feed peer saw that origin. Slots of earlier
    intervals are recycled. */
module Pfx2as {
  import opened Net

  type Origin = nat

  /** An active cell: who sees the prefix, along which path, and whether as a full-feed peer. */
  datatype Sight = Sight(peer: PeerId, path: PathId, full: bool)
  type Sights = seq<Sight>

  /** What a walk over a view yields. */
  datatype ViewIn = ViewIn(time: nat, rows: seq<(Pfx, Sights)>)

  /** A walk meets each prefix once, and each peer of a prefix once. */
  ghost predicate Walked(v: ViewIn) {
    && (forall a, b :: 0 <= a < b < |v.rows| ==> v.rows[a].0 != v.rows[b].0)
    && forall a, i, j :: 0 <= a < |v.rows| && 0 <= i < j < |v.rows[a].1| ==> v.rows[a].1[i].peer != v.rows[a].1[j].peer
  }

  datatype Stat = Stat(full: nat, partial: nat, peers: map<PeerId, (nat, nat)>)
  datatype Slot = Slot(path: PathId, stat: Stat)

  /** All slots ever allocated for a prefix, and how many are in use. */
  datatype Info = Info(slots: seq<Slot>, cnt: nat)

  const NO_INFO := Info([], 0)
  const NO_STAT := Stat(0, 0, map[])

  type Origins = PathId -> Origin

  // ---------------------------------------------------------------- what is to be counted

  predicate Saw(s: Sight, origin: Origins, o: Origin, full: bool) { origin(s.path) == o && s.full == full }

  predicate SeenBy(ss: Sights, origin: Origins, o: Origin, full: bool) {
    exists i :: 0 <= i < |ss| && Saw(ss[i], origin, o, full)
  }

  ghost function BySelf(ss: Sights, origin: Origins, o: Origin, full: bool, k: PeerId): nat {
    if |ss| == 0 then 0 else
    BySelf(ss[..|ss| - 1], origin, o, full, k) + if Saw(ss[|ss| - 1], origin, o, full) && ss[|ss| - 1].peer == k then 1
      else 0
  }

  /** The row of a prefix in a view; empty when the view does not have it. */
  ghost function RowOf(rows: seq<(Pfx, Sights)>, pfx: Pfx): Sights {
    if |rows| == 0 then [] else if rows[|rows| - 1].0 == pfx then rows[|rows| - 1].1 else RowOf(rows[..|rows| - 1], pfx)
  }

  /** In how many of the views some full-feed (or some partial-feed) peer saw the origin. */
  ghost function Views(vs: seq<ViewIn>, origin: Origins, pfx: Pfx, o: Origin, full: bool): nat {
    if |vs| == 0 then 0 else
    Views(vs[..|vs| - 1], origin, pfx, o, full) + if SeenBy(RowOf(vs[|vs| - 1].rows, pfx), origin, o, full) then 1
      else 0
  }

  /** In how many of them peer `k` did. */
  ghost function PeerViews(vs: seq<ViewIn>, origin: Origins, pfx: Pfx, o: Origin, full: bool, k: PeerId): nat {
    if |vs| == 0 then 0 else
    PeerViews(vs[..|vs| - 1], origin, pfx, o, full, k) + BySelf(RowOf(vs[|vs| - 1].rows, pfx), origin, o, full, k)
  }

  // ---------------------------------------------------------------- what the slots say

  /** Slots in use have distinct origins. */
  ghost predicate InfoOk(info: Info, origin: Origins) {
    && info.cnt <= |info.slots|
    && forall i, j :: 0 <= i < j < info.cnt ==> origin(info.slots[i].path) != origin(info.slots[j].path)
  }

  /** The slot in use for the origin, or the number of slots in use. */
  ghost function Find(info: Info, origin: Origins, o: Origin): (i: nat)
    requires InfoOk(info, origin)
    ensures i <= info.cnt
    ensures i < info.cnt ==> origin(info.slots[i].path) == o
    ensures i == info.cnt ==> forall j :: 0 <= j < info.cnt ==> origin(info.slots[j].path) != o
  {
    if j :| 0 <= j < info.cnt && origin(info.slots[j].path) == o then j else info.cnt
  }

  /** What is recorded for the origin. */
  ghost function StatOf(info: Info, origin: Origins, o: Origin): Stat
    requires InfoOk(info, origin)
  {
    var i := Find(info, origin, o); if i < info.cnt then info.slots[i].stat else NO_STAT
  }

  function CntOf(s: Stat, full: bool): nat { if full then s.full else s.partial }
  function PeerCnt(s: Stat, full: bool, k: PeerId): nat {
    if k !in s.peers then 0 else if full then s.peers[k].0 else s.peers[k].1
  }

  /** The statistics `t` are `s` after one more row in which the origin was seen as in `ss`. */
  ghost predicate Grown(s: Stat, t: Stat, ss: Sights, origin: Origins, o: Origin) {
    && (forall full :: CntOf(t, full) == CntOf(s, full) + if SeenBy(ss, origin, o, full) then 1 else 0)
    && (forall full, k: PeerId :: PeerCnt(t, full, k) == PeerCnt(s, full, k) + BySelf(ss, origin, o, full, k))
  }

  ghost predicate Seen(ss: Sights, origin: Origins, o: Origin) {
    SeenBy(ss, origin, o, true) || SeenBy(ss, origin, o, false)
  }

  /** `info` is `base` after part of a row; `flags` say what the row has shown so far. */
  ghost predicate Counting(base: Info, info: Info, flags: seq<Flags>, origin: Origins, ss: Sights) {
    && InfoOk(base, origin) && InfoOk(info, origin) && |flags| == info.cnt
    && forall o ::
         && (Find(info, origin, o) < info.cnt <==> Find(base, origin, o) < base.cnt || Seen(ss, origin, o))
         && Grown(StatOf(base, origin, o), StatOf(info, origin, o), ss, origin, o)
         && forall full :: Flag(FlagOf(info, flags, origin, o), full) <==> SeenBy(ss, origin, o, full)
  }

  // ---------------------------------------------------------------- one cell

  /** Which kinds of peers have shown the origin in the current view already. */
  datatype Flags = Flags(full: bool, partial: bool)

  const UNSEEN := Flags(false, false)

  function Flag(f: Flags, full: bool): bool { if full then f.full else f.partial }
  function Raised(f: Flags, full: bool): Flags { if full then f.(full := true) else f.(partial := true) }

  ghost function FlagOf(info: Info, flags: seq<Flags>, origin: Origins, o: Origin): Flags
    requires InfoOk(info, origin) && |flags| == info.cnt
  {
    var i := Find(info, origin, o); if i < info.cnt then flags[i] else UNSEEN
  }

  function Bumped(s: Stat, x: Sight, first: bool): Stat {
    var was := if x.peer in s.peers then s.peers[x.peer] else (0, 0);
    if x.full then s.(full := if first then s.full + 1 else s.full, peers := s.peers[x.peer := (was.0 + 1, was.1)])
    else s.(partial := if first then s.partial + 1 else s.partial, peers := s.peers[x.peer := (was.0, was.1 + 1)])
  }

  /** One cell counted: only what is recorded for its origin changes. */
  ghost predicate Stepped(info: Info, flags: seq<Flags>, x: Sight, origin: Origins, r: Info, fs: seq<Flags>)
    requires InfoOk(info, origin) && |flags| == info.cnt
  {
    && InfoOk(r, origin) && |fs| == r.cnt
    && forall o ::
         if o == origin(x.path) then
           && Find(r, origin, o) < r.cnt
           && StatOf(r, origin, o) == Bumped(StatOf(info, origin, o), x, !Flag(FlagOf(info, flags, origin, o), x.full))
           && FlagOf(r, fs, origin, o) == Raised(FlagOf(info, flags, origin, o), x.full)
         else
           && (Find(r, origin, o) < r.cnt <==> Find(info, origin, o) < info.cnt)
           && StatOf(r, origin, o) == StatOf(info, origin, o) &&
             FlagOf(r, fs, origin, o) == FlagOf(info, flags, origin, o)
  }

  /** Find the slot of the sight's origin, or take a new or a recycled one; then count. */
  method CountCell(info: Info, flags: seq<Flags>, x: Sight, origin: Origins) returns (r: Info, fs: seq<Flags>)
    requires InfoOk(info, origin) && |flags| == info.cnt
    ensures Stepped(info, flags, x, origin, r, fs)
  {
    r, fs := info, flags;
    var oi := 0;
    while oi < info.cnt
      invariant oi <= info.cnt && forall i :: 0 <= i < oi ==> origin(info.slots[i].path) != origin(x.path)
    {
      if info.slots[oi].path == x.path || origin(x.path) == origin(info.slots[oi].path) {
        break;
      }
      oi := oi + 1;
    }
    if oi == info.cnt {
      var slot := Slot(x.path, NO_STAT);
      if info.cnt + 1 > |info.slots| {
        r := Info(info.slots + [slot], info.cnt + 1);
      } else {
        r := Info(info.slots[oi := slot], info.cnt + 1);
      }
      fs := flags + [UNSEEN];
      FreshSlot(info, flags, x, origin, r, fs);
    }
    BumpSlot(r, fs, x, origin, oi);
    r := r.(slots := r.slots[oi := Slot(r.slots[oi].path, Bumped(r.slots[oi].stat, x, !Flag(fs[oi], x.full)))]);
    fs := fs[oi := Raised(fs[oi], x.full)];
  }

  /** A slot that has just been reset adds nothing to any origin. */
  lemma FreshSlot(info: Info, flags: seq<Flags>, x: Sight, origin: Origins, r: Info, fs: seq<Flags>)
    requires InfoOk(info, origin) && |flags| == info.cnt && Find(info, origin, origin(x.path)) == info.cnt
    requires r.cnt == info.cnt + 1 <= |r.slots| && (forall i :: 0 <= i < info.cnt ==> r.slots[i] == info.slots[i])
    requires r.slots[info.cnt] == Slot(x.path, NO_STAT) && fs == flags + [UNSEEN]
    ensures InfoOk(r, origin) && Find(r, origin, origin(x.path)) == info.cnt
    ensures forall o :: StatOf(r, origin, o) == StatOf(info, origin, o)
    ensures forall o :: FlagOf(r, fs, origin, o) == FlagOf(info, flags, origin, o)
    ensures forall o :: o != origin(x.path) ==> (Find(r, origin, o) < r.cnt <==> Find(info, origin, o) < info.cnt)
  {
    forall o
      ensures Find(r, origin, o) == if o == origin(x.path) then info.cnt
              else if Find(info, origin, o) < info.cnt then Find(info, origin, o) else r.cnt
    {
      var i, j := Find(r, origin, o), Find(info, origin, o);
      if j < info.cnt { assert origin(r.slots[j].path) == o; }
    }
  }

  lemma BumpSlot(info: Info, flags: seq<Flags>, x: Sight, origin: Origins, oi: nat)
    requires InfoOk(info, origin) && |flags| == info.cnt && oi < info.cnt
    requires origin(info.slots[oi].path) == origin(x.path)
    ensures var r := info.(slots :=
            info.slots[oi := Slot(info.slots[oi].path, Bumped(info.slots[oi].stat, x, !Flag(flags[oi], x.full)))]);
            Stepped(info, flags, x, origin, r, flags[oi := Raised(flags[oi], x.full)])
  {
    var r := info.(slots :=
      info.slots[oi := Slot(info.slots[oi].path, Bumped(info.slots[oi].stat, x, !Flag(flags[oi], x.full)))]);
    assert forall i :: 0 <= i < |info.slots| ==> r.slots[i].path == info.slots[i].path;
    forall o ensures Find(r, origin, o) == Find(info, origin, o) {
      var i, j := Find(r, origin, o), Find(info, origin, o);
      if j < info.cnt { assert origin(r.slots[j].path) == o; }
    }
  }

  // ---------------------------------------------------------------- one row

  lemma SeenLast(ss: Sights, x: Sight, origin: Origins, o: Origin, full: bool, k: PeerId)
    ensures SeenBy(ss + [x], origin, o, full) <==> SeenBy(ss, origin, o, full) || Saw(x, origin, o, full)
    ensures BySelf(ss + [x], origin, o, full, k) == BySelf(ss, origin, o, full, k) + if Saw(x, origin, o, full) &&
            x.peer == k then 1 else 0
  {
    var t := ss + [x];
    assert t[..|ss|] == ss && t[|ss|] == x;
    if SeenBy(ss, origin, o, full) {
      var i :| 0 <= i < |ss| && Saw(ss[i], origin, o, full);
      assert Saw(t[i], origin, o, full);
    }
    if Saw(x, origin, o, full) { assert Saw(t[|ss|], origin, o, full); }
  }

  lemma CountStep(base: Info, info: Info, flags: seq<Flags>, ss: Sights, x: Sight, origin: Origins, r: Info,
                  fs: seq<Flags>)
    requires Counting(base, info, flags, origin, ss) && Stepped(info, flags, x, origin, r, fs)
    ensures Counting(base, r, fs, origin, ss + [x])
  {
    hide SeenBy, BySelf, Find, StatOf, FlagOf, Grown, Bumped;
    forall o
      ensures Find(r, origin, o) < r.cnt <==> Find(base, origin, o) < base.cnt || Seen(ss + [x], origin, o)
      ensures Grown(StatOf(base, origin, o), StatOf(r, origin, o), ss + [x], origin, o)
      ensures forall full :: Flag(FlagOf(r, fs, origin, o), full) <==> SeenBy(ss + [x], origin, o, full)
    {
      SeenLast(ss, x, origin, o, true, 1);
      SeenLast(ss, x, origin, o, false, 1);
      StatStep(StatOf(base, origin, o), StatOf(info, origin, o), ss, x, origin, o, FlagOf(info, flags, origin, o));
    }
  }

  lemma StatStep(s: Stat, t: Stat, ss: Sights, x: Sight, origin: Origins, o: Origin, f: Flags)
    requires Grown(s, t, ss, origin, o) && forall full :: Flag(f, full) <==> SeenBy(ss, origin, o, full)
    ensures Grown(s, if o == origin(x.path) then Bumped(t, x, !Flag(f, x.full)) else t, ss + [x], origin, o)
  {
    hide SeenBy, BySelf;
    var t' := if o == origin(x.path) then Bumped(t, x, !Flag(f, x.full)) else t;
    forall full ensures CntOf(t', full) == CntOf(s, full) + if SeenBy(ss + [x], origin, o, full) then 1 else 0 {
      SeenLast(ss, x, origin, o, full, 1);
      assert CntOf(t, full) == CntOf(s, full) + if SeenBy(ss, origin, o, full) then 1 else 0;
    }
    forall full, k: PeerId ensures PeerCnt(t', full, k) == PeerCnt(s, full, k) + BySelf(ss + [x], origin, o, full, k) {
      SeenLast(ss, x, origin, o, full, k);
      assert PeerCnt(t, full, k) == PeerCnt(s, full, k) + BySelf(ss, origin, o, full, k);
    }
  }

  /** Count one row of a view into the slots of its prefix. */
  method CountRow(base: Info, ss: Sights, origin: Origins) returns (info: Info)
    requires InfoOk(base, origin)
    ensures InfoOk(info, origin)
    ensures forall o :: Find(info, origin, o) < info.cnt <==> Find(base, origin, o) < base.cnt || Seen(ss, origin, o)
    ensures forall o :: Grown(StatOf(base, origin, o), StatOf(info, origin, o), ss, origin, o)
  {
    hide Find, StatOf, Grown, SeenBy, Seen;
    info := base;
    var flags := seq(base.cnt, _ => UNSEEN);
    CountNone(base, flags, origin);
    assert ss[..0] == [];
    var j := 0;
    while j < |ss|
      invariant j <= |ss| && Counting(base, info, flags, origin, ss[..j])
    {
      ghost var was, fs := info, flags;
      info, flags := CountCell(info, flags, ss[j], origin);
      CountStep(base, was, fs, ss[..j], ss[j], origin, info, flags);
      assert ss[..j] + [ss[j]] == ss[..j + 1];
      j := j + 1;
    }
    assert ss[..j] == ss;
  }

  lemma CountNone(base: Info, flags: seq<Flags>, origin: Origins)
    requires InfoOk(base, origin) && flags == seq(base.cnt, _ => UNSEEN)
    ensures Counting(base, base, flags, origin, [])
  {
  }

  // ---------------------------------------------------------------- an interval of views

  ghost function InfoAt(pfxs: map<Pfx, Info>, pfx: Pfx): Info { if pfx in pfxs then pfxs[pfx] else NO_INFO }

  /** The slots of the prefix say exactly what the views of the interval showed. */
  ghost predicate Exact(info: Info, origin: Origins, vs: seq<ViewIn>, pfx: Pfx) {
    && InfoOk(info, origin)
    && forall o ::
         && (Find(info, origin, o) < info.cnt <==>
           Views(vs, origin, pfx, o, true) + Views(vs, origin, pfx, o, false) > 0)
         && (forall full :: CntOf(StatOf(info, origin, o), full) == Views(vs, origin, pfx, o, full))
         && (forall full, k: PeerId ::
           PeerCnt(StatOf(info, origin, o), full, k) == PeerViews(vs, origin, pfx, o, full, k))
  }

  /** One more row read makes the slots exact for one more view. */
  lemma RowCounted(base: Info, info: Info, origin: Origins, vs: seq<ViewIn>, v: ViewIn, pfx: Pfx)
    requires Exact(base, origin, vs, pfx) && InfoOk(info, origin)
    requires forall o :: Find(info, origin, o) < info.cnt <==>
             Find(base, origin, o) < base.cnt || Seen(RowOf(v.rows, pfx), origin, o)
    requires forall o :: Grown(StatOf(base, origin, o), StatOf(info, origin, o), RowOf(v.rows, pfx), origin, o)
    ensures Exact(info, origin, vs + [v], pfx)
  {
    hide Find, StatOf, SeenBy, BySelf, RowOf;
    var ws := vs + [v];
    assert ws[..|vs|] == vs && ws[|vs|] == v;
    forall o
      ensures Find(info, origin, o) < info.cnt <==>
              Views(ws, origin, pfx, o, true) + Views(ws, origin, pfx, o, false) > 0
      ensures forall full :: CntOf(StatOf(info, origin, o), full) == Views(ws, origin, pfx, o, full)
      ensures forall full, k: PeerId ::
              PeerCnt(StatOf(info, origin, o), full, k) == PeerViews(ws, origin, pfx, o, full, k)
    {
      assert Grown(StatOf(base, origin, o), StatOf(info, origin, o), RowOf(v.rows, pfx), origin, o);
    }
  }

  lemma NoRow(info: Info, origin: Origins, vs: seq<ViewIn>, v: ViewIn, pfx: Pfx)
    requires Exact(info, origin, vs, pfx) && RowOf(v.rows, pfx) == []
    ensures Exact(info, origin, vs + [v], pfx)
  {
    hide Find, StatOf, RowOf;
    RowCounted(info, info, origin, vs, v, pfx);
  }

  lemma NothingCounted(info: Info, origin: Origins, pfx: Pfx)
    requires info.cnt == 0
    ensures Exact(info, origin, [], pfx)
  {
  }

  lemma {:induction false} RowOfAt(rows: seq<(Pfx, Sights)>, i: nat)
    requires i < |rows| && forall a, b :: 0 <= a < b < |rows| ==> rows[a].0 != rows[b].0
    ensures RowOf(rows, rows[i].0) == rows[i].1
  {
    var n := |rows| - 1;
    if i < n { RowOfAt(rows[..n], i); }
  }

  lemma {:induction false} RowOfNone(rows: seq<(Pfx, Sights)>, pfx: Pfx)
    requires forall a :: 0 <= a < |rows| ==> rows[a].0 != pfx
    ensures RowOf(rows, pfx) == []
  {
    if |rows| > 0 { RowOfNone(rows[..|rows| - 1], pfx); }
  }

  /** The prefixes of the first `n` rows count one view more than the others. */
  ghost predicate ExactTo(pfxs: map<Pfx, Info>, origin: Origins, vs: seq<ViewIn>, v: ViewIn, n: nat)
    requires n <= |v.rows|
  {
    forall pfx: Pfx :: Exact(InfoAt(pfxs, pfx), origin, if InRows(v.rows, n, pfx) then vs + [v] else vs, pfx)
  }

  ghost predicate InRows(rows: seq<(Pfx, Sights)>, n: nat, pfx: Pfx)
    requires n <= |rows|
  {
    exists i :: 0 <= i < n && rows[i].0 == pfx
  }

  lemma RowDone(pfxs: map<Pfx, Info>, origin: Origins, vs: seq<ViewIn>, v: ViewIn, n: nat, info: Info)
    requires n < |v.rows| && (forall a, b :: 0 <= a < b < |v.rows| ==> v.rows[a].0 != v.rows[b].0)
    requires ExactTo(pfxs, origin, vs, v, n) && Exact(info, origin, vs + [v], v.rows[n].0)
    ensures ExactTo(pfxs[v.rows[n].0 := info], origin, vs, v, n + 1)
  {
    hide Exact;
    var now := pfxs[v.rows[n].0 := info];
    forall pfx: Pfx ensures Exact(InfoAt(now, pfx), origin, if InRows(v.rows, n + 1, pfx) then vs + [v] else vs, pfx) {
      assert InRows(v.rows, n + 1, pfx) <==> InRows(v.rows, n, pfx) || pfx == v.rows[n].0;
      if pfx != v.rows[n].0 { assert InfoAt(now, pfx) == InfoAt(pfxs, pfx); }
    }
  }

  lemma ViewDone(pfxs: map<Pfx, Info>, origin: Origins, vs: seq<ViewIn>, v: ViewIn)
    requires ExactTo(pfxs, origin, vs, v, |v.rows|)
    ensures forall pfx: Pfx :: Exact(InfoAt(pfxs, pfx), origin, vs + [v], pfx)
  {
    hide Exact;
    forall pfx: Pfx ensures Exact(InfoAt(pfxs, pfx), origin, vs + [v], pfx) {
      if !InRows(v.rows, |v.rows|, pfx) {
        RowOfNone(v.rows, pfx);
        NoRow(InfoAt(pfxs, pfx), origin, vs, v, pfx);
      }
    }
  }

  // ---------------------------------------------------------------- intervals

  const MAX_VIEW_CNT := 65535

  datatype Outcome = Counted | Ended(start: nat, duration: nat) | IntervalChanged

  class Pfx2asConsumer {
    const outInterval: nat
    const origin: Origins
    var pfxs: map<Pfx, Info>
    var viewCnt: nat
    var nextOut: nat
    var prevTime: nat
    var prevInterval: nat
    var outStart: nat
    /** The views counted since the current output interval began. */
    ghost var views: seq<ViewIn>

    constructor (outInterval: nat, origin: Origins)
      ensures this.outInterval == outInterval && this.origin == origin && prevTime == 0 && Valid()
    {
      this.outInterval, this.origin := outInterval, origin;
      pfxs, viewCnt, nextOut, prevTime, prevInterval, outStart, views := map[], 0, 0, 0, 0, 0, [];
      new;
      forall pfx: Pfx ensures Exact(InfoAt(pfxs, pfx), origin, [], pfx) { NothingCounted(NO_INFO, origin, pfx); }
    }

    ghost predicate Valid()
      reads this
    {
      && (forall pfx: Pfx :: Exact(InfoAt(pfxs, pfx), origin, views, pfx))
      && viewCnt == |views| && (forall v | v in views :: Walked(v))
      && (if prevTime == 0 then viewCnt == 0 && prevInterval == 0 else Timed())
    }

    /** The views of the interval follow one another at equal distances from its start, and
        only the first of them may come after the time planned for the next output. */
    ghost predicate Timed()
      reads this
    {
      && 0 < viewCnt == |views| && views[viewCnt - 1].time == prevTime && nextOut <= outStart + outInterval
      && (prevInterval == 0 ==> viewCnt == 1)
      && outStart + (viewCnt - 1) * prevInterval == prevTime && (viewCnt > 1 ==> prevTime < nextOut)
    }

    /** Keep single slots for reuse and drop everything else; nothing counts any more. */
    method ClearPfxMap()
      modifies this`pfxs, this`views
      ensures views == [] && forall pfx: Pfx :: Exact(InfoAt(pfxs, pfx), origin, [], pfx)
      ensures forall pfx: Pfx :: pfx in pfxs <==> pfx in old(pfxs) && old(pfxs)[pfx].cnt == 1
      ensures forall pfx: Pfx :: pfx in pfxs ==> pfxs[pfx] == old(pfxs)[pfx].(cnt := 0)
    {
      pfxs := map p | p in pfxs && pfxs[p].cnt == 1 :: pfxs[p].(cnt := 0);
      views := [];
      forall pfx: Pfx
        ensures Exact(InfoAt(pfxs, pfx), origin, [], pfx)
      {
        NothingCounted(InfoAt(pfxs, pfx), origin, pfx);
      }
    }

    method CountView(v: ViewIn)
      requires forall pfx: Pfx :: Exact(InfoAt(pfxs, pfx), origin, views, pfx)
      requires forall a, b :: 0 <= a < b < |v.rows| ==> v.rows[a].0 != v.rows[b].0
      modifies this`pfxs, this`views
      ensures views == old(views) + [v] && forall pfx: Pfx :: Exact(InfoAt(pfxs, pfx), origin, views, pfx)
    {
      hide Exact, Find, StatOf, Grown, Seen;
      var i := 0;
      while i < |v.rows|
        invariant i <= |v.rows| && views == old(views) && ExactTo(pfxs, origin, views, v, i)
      {
        var pfx, ss := v.rows[i].0, v.rows[i].1;
        var base := if pfx in pfxs then pfxs[pfx] else NO_INFO;
        NotYet(pfxs, origin, views, v, i);
        var info := CountRow(base, ss, origin);
        RowOfAt(v.rows, i);
        RowCounted(base, info, origin, views, v, pfx);
        RowDone(pfxs, origin, views, v, i, info);
        pfxs := pfxs[pfx := info];
        i := i + 1;
      }
      ViewDone(pfxs, origin, views, v);
      views := views + [v];
    }

    /** Take in one view. An interval that is over is put out before the view is counted; it
        ends exactly where the next one starts. */
    method ProcessView(v: ViewIn) returns (r: Outcome)
      requires Valid() && v.time > prevTime && Walked(v)
      requires prevTime != 0 ==> outInterval / (v.time - prevTime) <= MAX_VIEW_CNT
      modifies this
      ensures Valid()
      ensures r.IntervalChanged? <==> old(prevInterval) != 0 && v.time - old(prevTime) != old(prevInterval)
      ensures r.IntervalChanged? ==>
              views == old(views) && prevTime == old(prevTime) && outStart == old(outStart) && viewCnt == old(viewCnt)
      ensures r.Ended? <==> !r.IntervalChanged? && old(prevTime) != 0 && v.time >= old(nextOut)
      ensures r.Ended? ==> r.start == old(outStart) && r.duration == old(viewCnt) * (v.time - old(prevTime))
      ensures r.Ended? ==> r.start + r.duration == outStart == v.time && views == [v]
      ensures r.Counted? ==> (if old(prevTime) == 0 then views == [v] &&
              outStart == v.time else views == old(views) + [v] && outStart == old(outStart))
      ensures !r.IntervalChanged? ==>
              prevTime == v.time && prevInterval == if old(prevTime) == 0 then 0 else v.time - old(prevTime)
      ensures nextOut == if old(prevTime) == 0 then v.time + outInterval
              else if r.Ended? then old(nextOut) + outInterval else old(nextOut)
    {
      hide Exact;
      var interval := 0;
      r := Counted;
      if prevTime == 0 {
        viewCnt, prevInterval, outStart, nextOut := 0, 0, v.time, v.time + outInterval;
      } else {
        interval := v.time - prevTime;
        if prevInterval != 0 && prevInterval != interval {
          return IntervalChanged;
        }
        TimeOf(outStart, viewCnt, prevInterval, interval, prevTime, v.time);
        if v.time >= nextOut {
          r := Ended(outStart, viewCnt * interval);
          ClearPfxMap();
          viewCnt, outStart, nextOut := 0, v.time, nextOut + outInterval;
        }
      }
      viewCnt := viewCnt + 1;
      CountView(v);
      prevInterval, prevTime := interval, v.time;
    }
  }

  lemma NotYet(pfxs: map<Pfx, Info>, origin: Origins, vs: seq<ViewIn>, v: ViewIn, i: nat)
    requires i < |v.rows| && (forall a, b :: 0 <= a < b < |v.rows| ==> v.rows[a].0 != v.rows[b].0)
    requires ExactTo(pfxs, origin, vs, v, i)
    ensures Exact(InfoAt(pfxs, v.rows[i].0), origin, vs, v.rows[i].0) && InfoOk(InfoAt(pfxs, v.rows[i].0), origin)
  {
    assert !InRows(v.rows, i, v.rows[i].0);
  }

  /** Start plus count times interval is the time of the view that arrives. */
  lemma TimeOf(start: nat, cnt: nat, was: nat, interval: nat, prev: nat, now: nat)
    requires cnt > 0 && start + (cnt - 1) * was == prev && now - prev == interval > 0 && (was == 0 ==> cnt == 1)
    requires (was != 0 ==> was == interval)
    ensures start + cnt * interval == now && start + (cnt - 1) * interval == prev
  {
    if was == 0 { assert (cnt - 1) * interval == 0; }
    assert cnt * interval == (cnt - 1) * interval + interval;
  }

  // ---------------------------------------------------------------- 16 bits

  lemma {:induction false} ViewsBound(vs: seq<ViewIn>, origin: Origins, pfx: Pfx, o: Origin, full: bool)
    ensures Views(vs, origin, pfx, o, full) <= |vs|
  {
    if |vs| > 0 { ViewsBound(vs[..|vs| - 1], origin, pfx, o, full); }
  }

  lemma {:induction false} PeerViewsBound(vs: seq<ViewIn>, origin: Origins, pfx: Pfx, o: Origin, full: bool, k: PeerId)
    requires forall v | v in vs :: Walked(v)
    ensures PeerViews(vs, origin, pfx, o, full, k) <= |vs|
  {
    hide Walked, BySelf, RowOf;
    if |vs| > 0 {
      var v := vs[|vs| - 1];
      PeerViewsBound(vs[..|vs| - 1], origin, pfx, o, full, k);
      DistinctRow(v.rows, pfx, v);
      AtMostOnce(RowOf(v.rows, pfx), origin, o, full, k);
    }
  }

  lemma {:induction false} DistinctRow(rows: seq<(Pfx, Sights)>, pfx: Pfx, v: ViewIn)
    requires Walked(v) && rows <= v.rows
    ensures forall i, j :: 0 <= i < j < |RowOf(rows, pfx)| ==> RowOf(rows, pfx)[i].peer != RowOf(rows, pfx)[j].peer
  {
    if |rows| > 0 {
      var n := |rows| - 1;
      if rows[n].0 == pfx { assert v.rows[n] == rows[n]; } else { DistinctRow(rows[..n], pfx, v); }
    }
  }

  lemma {:induction false} AtMostOnce(ss: Sights, origin: Origins, o: Origin, full: bool, k: PeerId)
    requires forall i, j :: 0 <= i < j < |ss| ==> ss[i].peer != ss[j].peer
    ensures BySelf(ss, origin, o, full, k) <= 1
    ensures (forall i :: 0 <= i < |ss| ==> ss[i].peer != k) ==> BySelf(ss, origin, o, full, k) == 0
  {
    if |ss| > 0 { AtMostOnce(ss[..|ss| - 1], origin, o, full, k); }
  }

  /** The number of views that an interval of `out` seconds can hold. */
  function Capacity(out: nat, interval: nat): nat
    requires interval > 0
  {
    out / interval + if out % interval == 0 then 0 else 1
  }

  lemma Squeeze(n: nat, q: nat, interval: nat, out: nat)
    requires interval > 0 && n * interval < out && out == q * interval + out % interval
    ensures n <= q && (out % interval == 0 ==> n < q)
  {
    if n > q { TimesMore(q + 1, n, interval); }
  }

  lemma TimesMore(a: nat, b: nat, c: nat)
    requires a <= b
    ensures a * c <= b * c
  {
  }

  /** No interval holds more views than its capacity, so the 16-bit counters are exact ... */
  lemma CountersFit(c: Pfx2asConsumer, pfx: Pfx, o: Origin, full: bool, k: PeerId)
    requires c.Valid() && c.prevTime != 0 && c.prevInterval != 0 && c.outInterval > 0
    ensures c.viewCnt <= Capacity(c.outInterval, c.prevInterval)
    ensures CntOf(StatOf(InfoAt(c.pfxs, pfx), c.origin, o), full) <= c.viewCnt
    ensures PeerCnt(StatOf(InfoAt(c.pfxs, pfx), c.origin, o), full, k) <= c.viewCnt
  {
    hide Find, Walked, Exact, Capacity;
    InCapacity(c.viewCnt, c.outStart, c.prevInterval, c.prevTime, c.nextOut, c.outInterval);
    ExactCount(InfoAt(c.pfxs, pfx), c.origin, c.views, pfx, o, full, k);
    ViewsBound(c.views, c.origin, pfx, o, full);
    PeerViewsBound(c.views, c.origin, pfx, o, full, k);
  }

  lemma InCapacity(n: nat, start: nat, interval: nat, prev: nat, next: nat, out: nat)
    requires n > 0 && interval > 0 && out > 0 && next <= start + out && start + (n - 1) * interval == prev
    requires n > 1 ==> prev < next
    ensures n <= Capacity(out, interval)
  {
    if n > 1 {
      Squeeze(n - 1, out / interval, interval, out);
    } else if out % interval == 0 {
      assert out == (out / interval) * interval;
    }
  }

  /** ... except for exactly one configuration that the check on entry lets through: then the
      first interval holds 65536 views. */
  lemma WhenCountersFit(out: nat, interval: nat)
    requires interval > 0 && out / interval <= MAX_VIEW_CNT
    ensures Capacity(out, interval) <= MAX_VIEW_CNT <==> out / interval < MAX_VIEW_CNT || out % interval == 0
    ensures !(Capacity(out, interval) <= MAX_VIEW_CNT) ==> Capacity(out, interval) == 65536
  {
  }

  lemma BelowCapacity(n: nat, out: nat, interval: nat)
    requires interval > 0 && n < Capacity(out, interval)
    ensures n * interval < out
  {
    var q := out / interval;
    assert out == q * interval + out % interval;
    TimesMore(n, if out % interval == 0 then q - 1 else q, interval);
    assert (q - 1) * interval == q * interval - interval;
  }

  /** Every view shows the prefix with the origin. */
  lemma {:induction false} AlwaysSeen(vs: seq<ViewIn>, origin: Origins, pfx: Pfx, o: Origin, full: bool)
    requires forall v | v in vs :: SeenBy(RowOf(v.rows, pfx), origin, o, full)
    ensures Views(vs, origin, pfx, o, full) == |vs|
  {
    if |vs| > 0 { AlwaysSeen(vs[..|vs| - 1], origin, pfx, o, full); }
  }

  /** Views that come at a fixed distance fill the first interval to its capacity, and the counter
      of an origin that they all show counts every one of them. */
  method FillInterval(out: nat, interval: nat, start: nat, pfx: Pfx, x: Sight, origin: Origins)
    returns (c: Pfx2asConsumer)
    requires out > 0 && interval > 0 && start > 0 && out / interval <= MAX_VIEW_CNT
    ensures c.Valid() && c.outInterval == out && c.origin == origin && c.viewCnt == Capacity(out, interval)
    ensures CntOf(StatOf(InfoAt(c.pfxs, pfx), origin, origin(x.path)), x.full) == Capacity(out, interval)
  {
    hide Exact, Walked, SeenBy, RowOf;
    c := new Pfx2asConsumer(out, origin);
    var n := 0;
    FillsSome(out, interval);
    while n < Capacity(out, interval)
      invariant n <= Capacity(out, interval) && c.Valid() && c.outInterval == out && c.origin == origin
      invariant c.viewCnt == n && fresh(c)
      invariant if n == 0 then c.prevTime == 0 else c.prevTime == start + (n - 1) * interval && c.nextOut == start + out
      invariant c.prevInterval == if n > 1 then interval else 0
      invariant forall v | v in c.views :: SeenBy(RowOf(v.rows, pfx), origin, origin(x.path), x.full)
    {
      BelowCapacity(n, out, interval);
      var v := ViewIn(start + n * interval, [(pfx, [x])]);
      assert n > 0 ==> (n - 1) * interval + interval == n * interval;
      OneSight(v, pfx, x, origin);
      var r := c.ProcessView(v);
      n := n + 1;
    }
    AlwaysSeen(c.views, origin, pfx, origin(x.path), x.full);
    ExactCount(InfoAt(c.pfxs, pfx), origin, c.views, pfx, origin(x.path), x.full, x.peer);
  }

  lemma ExactCount(info: Info, origin: Origins, vs: seq<ViewIn>, pfx: Pfx, o: Origin, full: bool, k: PeerId)
    requires Exact(info, origin, vs, pfx)
    ensures InfoOk(info, origin) && CntOf(StatOf(info, origin, o), full) == Views(vs, origin, pfx, o, full)
    ensures PeerCnt(StatOf(info, origin, o), full, k) == PeerViews(vs, origin, pfx, o, full, k)
  {
  }

  lemma FillsSome(out: nat, interval: nat)
    requires out > 0 && interval > 0
    ensures Capacity(out, interval) > 0
  {
  }

  lemma OneSight(v: ViewIn, pfx: Pfx, x: Sight, origin: Origins)
    requires v.rows == [(pfx, [x])]
    ensures Walked(v) && SeenBy(RowOf(v.rows, pfx), origin, origin(x.path), x.full)
  {
    assert Saw([x][0], origin, origin(x.path), x.full);
  }

  /** So the configuration that the check lets through does count to 65536. */
  method CounterExceeds16Bits(interval: nat, r: nat, start: nat, pfx: Pfx, x: Sight, origin: Origins)
    returns (c: Pfx2asConsumer)
    requires 0 < r < interval && start > 0
    ensures c.outInterval == 65535 * interval + r && c.outInterval / interval <= MAX_VIEW_CNT
    ensures c.Valid() && c.viewCnt == 65536 == CntOf(StatOf(InfoAt(c.pfxs, pfx), c.origin, c.origin(x.path)), x.full)
  {
    var out := 65535 * interval + r;
    DivMod(65535, interval, r);
    c := FillInterval(out, interval, start, pfx, x, origin);
  }

  lemma DivMod(q: nat, d: nat, r: nat)
    requires r < d
    ensures (q * d + r) / d == q && (q * d + r) % d == r
  {
    var n := q * d + r;
    assert n == (n / d) * d + n % d;
    if n / d < q { TimesMore(n / d + 1, q, d); } else if n / d > q { TimesMore(q + 1, n / d, d); }
  }
}
