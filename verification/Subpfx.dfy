/** The sub-prefix consumer: which prefixes lie inside another one with different (or with the
    same) origins, and how that relation changes from view to view. */
module Subpfx {
  import opened Net
  import opened Lists
  import opened Prefixes

  type Asn = nat
  datatype Mode = SubMoas | Defcon
  datatype Kind = New | Finished
  datatype Event = Event(kind: Kind, sub: Pfx, super: Pfx)

  type Relation = map<Pfx, Pfx>
  type Tree = map<Pfx, seq<Asn>>

  /** The prefixes of a view, each once, with what each of its full-feed peers sees as the origin. */
  type Rows = seq<(Pfx, seq<Option<Asn>>)>

  // ---------------------------------------------------------------- origins

  method ContainsAsn(ases: seq<Asn>, asn: Asn) returns (r: bool)
    ensures r <==> asn in ases
  {
    var i := 0;
    while i < |ases|
      invariant i <= |ases| && forall j :: 0 <= j < i ==> ases[j] != asn
    {
      if ases[i] == asn {
        return true;
      }
      i := i + 1;
    }
    return false;
  }

  /** Add an origin unless it is there; origins never hold duplicates. */
  method AddAsn(ases: seq<Asn>, asn: Asn) returns (r: seq<Asn>)
    requires Distinct(ases)
    ensures Distinct(r) && forall x :: x in r <==> x in ases || x == asn
  {
    var there := ContainsAsn(ases, asn);
    r := if there then ases else ases + [asn];
  }

  /** The origins seen by full-feed peers; sets and confederations are passed over. */
  method CollectOrigins(row: seq<Option<Asn>>) returns (ases: seq<Asn>)
    ensures Distinct(ases) && forall x :: x in ases <==> Some(x) in row
  {
    ases := [];
    var i := 0;
    while i < |row|
      invariant i <= |row| && Distinct(ases) && forall x :: x in ases <==> Some(x) in row[..i]
    {
      assert row[..i + 1] == row[..i] + [row[i]];
      if row[i].Some? {
        ases := AddAsn(ases, row[i].value);
      }
      i := i + 1;
    }
    assert row[..i] == row;
  }

  ghost predicate Wanted(mode: Mode, sub: seq<Asn>, super: seq<Asn>) {
    match mode
    case SubMoas => exists x :: x in sub && x !in super
    case Defcon => Elems(sub) == Elems(super)
  }

  /** Some new origin, or exactly the same origins. In the second case sizes and inclusion are
      compared; that is equality of sets because neither list holds duplicates. */
  method IsWanted(mode: Mode, sub: seq<Asn>, super: seq<Asn>) returns (r: bool)
    requires Distinct(sub) && Distinct(super)
    ensures r <==> Wanted(mode, sub, super)
  {
    DistinctSize(sub);
    DistinctSize(super);
    if mode.Defcon? && |sub| != |super| {
      return false;
    }
    var i := 0;
    while i < |sub|
      invariant i <= |sub| && forall j :: 0 <= j < i ==> sub[j] in super
    {
      var there := ContainsAsn(super, sub[i]);
      if !there {
        assert sub[i] in Elems(sub) && sub[i] !in Elems(super);
        return mode.SubMoas?;
      }
      i := i + 1;
    }
    if mode.Defcon? {
      assert Elems(sub) <= Elems(super);
      SameSizeSubset(Elems(sub), Elems(super));
    }
    return mode.Defcon?;
  }

  // ---------------------------------------------------------------- events

  ghost function Pairs(r: Relation): set<(Pfx, Pfx)> { set p | p in r :: (p, r[p]) }

  /** Replaying a log: beginnings add a pair, ends take it away. */
  ghost function Replay(log: seq<Event>): set<(Pfx, Pfx)> {
    if |log| == 0 then {} else
    var e := log[|log| - 1];
    if e.kind.New? then Replay(log[..|log| - 1]) + {(e.sub, e.super)} else Replay(log[..|log| - 1]) - {(e.sub, e.super)}
  }

  ghost function PairsOf(es: seq<Event>): set<(Pfx, Pfx)> {
    if |es| == 0 then {} else PairsOf(es[..|es| - 1]) + {(es[|es| - 1].sub, es[|es| - 1].super)}
  }

  lemma {:induction false} ReplayMore(log: seq<Event>, es: seq<Event>, kind: Kind)
    requires forall i :: 0 <= i < |es| ==> es[i].kind == kind
    ensures Replay(log + es) == if kind.New? then Replay(log) + PairsOf(es) else Replay(log) - PairsOf(es)
  {
    if |es| == 0 {
      assert log + es == log;
    } else {
      var n := |es| - 1;
      assert (log + es)[..|log + es| - 1] == log + es[..n];
      ReplayMore(log, es[..n], kind);
    }
  }

  /** The pairs of `a` that `b` does not have, one event each. */
  method Diff(a: Relation, b: Relation, kind: Kind) returns (es: seq<Event>)
    ensures PairsOf(es) == Pairs(a) - Pairs(b) && |es| == |Pairs(a) - Pairs(b)|
    ensures forall i :: 0 <= i < |es| ==> es[i].kind == kind
  {
    es := [];
    var todo := a.Keys;
    while todo != {}
      invariant todo <= a.Keys && forall i :: 0 <= i < |es| ==> es[i].kind == kind
      invariant |es| == |PairsOf(es)|
      invariant forall q :: q in PairsOf(es) <==>
               q.0 in a && q.0 !in todo && q.1 == a[q.0] && !(q.0 in b && b[q.0] == q.1)
      decreases |todo|
    {
      var p :| p in todo;
      if !(p in b && b[p] == a[p]) {
        OneMore(es, Event(kind, p, a[p]));
        es := es + [Event(kind, p, a[p])];
      }
      todo := todo - {p};
    }
    forall q ensures q in PairsOf(es) <==> q in Pairs(a) - Pairs(b) {}
    assert PairsOf(es) == Pairs(a) - Pairs(b);
  }

  lemma OneMore(es: seq<Event>, e: Event)
    ensures PairsOf(es + [e]) == PairsOf(es) + {(e.sub, e.super)}
  {
    assert (es + [e])[..|es|] == es;
  }

  // ---------------------------------------------------------------- prefixes inside prefixes

  /** `q` is the longest prefix of the tree that contains `p`, if there is one. */
  ghost predicate Smallest(t: set<Pfx>, p: Pfx, q: Option<Pfx>) {
    match q
    case None => forall h | h in t :: !Contains(h, p)
    case Some(s) => s in t && Contains(s, p) && forall h | h in t && Contains(h, p) :: h.len <= s.len
  }

  /** The lookup of the smallest covering prefix in the tree. */
  type Cover = (set<Pfx>, Pfx) -> Option<Pfx>

  ghost predicate CoverOk(cover: Cover) { forall t: set<Pfx>, p: Pfx :: Smallest(t, p, cover(t, p)) }

  /** There is such a prefix whenever any prefix covers: a plain search finds it. */
  method SmallestAround(t: set<Pfx>, p: Pfx) returns (q: Option<Pfx>)
    ensures Smallest(t, p, q)
  {
    hide Contains;
    q := None;
    var todo := t;
    while todo != {}
      invariant todo <= t && Smallest(t - todo, p, q)
      decreases |todo|
    {
      var h :| h in todo;
      if Contains(h, p) && (q.None? || q.value.len < h.len) {
        q := Some(h);
      }
      todo := todo - {h};
    }
    assert t - todo == t;
  }

  /** Covering prefixes of one prefix are nested, so the smallest one lies in all others. */
  lemma CoversNest(t: set<Pfx>, p: Pfx, q: Pfx, h: Pfx)
    requires Smallest(t, p, Some(q)) && h in t && Contains(h, p)
    ensures h.len == q.len || Contains(h, q)
  {
    forall i: nat | i < h.len ensures Bit(h.addr.bytes, i) == Bit(q.addr.bytes, i) {
      assert Bit(h.addr.bytes, i) == Bit(p.addr.bytes, i);
    }
  }

  // ---------------------------------------------------------------- the consumer

  ghost predicate TreeOk(t: Tree) { forall p | p in t :: |t[p]| > 0 && Distinct(t[p]) }

  /** `p` lies in `q` in the tree, and their origins are related as the mode asks. */
  ghost predicate Related(t: Tree, cover: Cover, mode: Mode, p: Pfx, q: Pfx) {
    p in t && q in t && cover(t.Keys, p) == Some(q) && Wanted(mode, t[p], t[q])
  }

  // ---------------------------------------------------------------- the same, from the rows of the view

  ghost predicate RowsOk(rows: Rows) { forall a, b :: 0 <= a < b < |rows| ==> rows[a].0 != rows[b].0 }

  /** The row takes part: it is not a default route, and some peer sees a plain origin. */
  ghost predicate TakesPart(row: (Pfx, seq<Option<Asn>>), defaults: set<Pfx>) {
    row.0 !in defaults && exists x :: Some(x) in row.1
  }

  /** The first row shows an origin that the second does not, or they show the same ones. */
  ghost predicate RelatedOrigins(mode: Mode, a: seq<Option<Asn>>, b: seq<Option<Asn>>) {
    match mode
    case SubMoas => exists x :: Some(x) in a && Some(x) !in b
    case Defcon => forall x :: Some(x) in a <==> Some(x) in b
  }

  ghost function Parts(rows: Rows, defaults: set<Pfx>): set<Pfx> {
    set row | row in rows && TakesPart(row, defaults) :: row.0
  }

  /** Both rows take part, the second is the longest such prefix around the first, and their origins
      are related as the mode asks. */
  ghost predicate LiesIn(rows: Rows, defaults: set<Pfx>, mode: Mode, i: nat, j: nat)
    requires i < |rows| && j < |rows|
  {
    && TakesPart(rows[i], defaults) && TakesPart(rows[j], defaults) && Contains(rows[j].0, rows[i].0)
    && (forall h :: 0 <= h < |rows| && TakesPart(rows[h], defaults) && Contains(rows[h].0, rows[i].0) ==>
          rows[h].0.len <= rows[j].0.len)
    && RelatedOrigins(mode, rows[i].1, rows[j].1)
  }

  ghost predicate Reportable(rows: Rows, defaults: set<Pfx>, mode: Mode, p: Pfx, q: Pfx) {
    exists i, j :: 0 <= i < |rows| && 0 <= j < |rows| && rows[i].0 == p && rows[j].0 == q &&
      LiesIn(rows, defaults, mode, i, j)
  }

  /** No network occurs twice, under addresses that differ only after the prefix. */
  ghost predicate OncePerNetwork(t: set<Pfx>) {
    forall p, q | p in t && q in t && p.addr.ver == q.addr.ver && p.len == q.len &&
      (forall i: nat :: i < p.len ==> Bit(p.addr.bytes, i) == Bit(q.addr.bytes, i)) :: p == q
  }

  /** Then the smallest covering prefix is the only one of its length. */
  lemma OneCover(t: set<Pfx>, p: Pfx, q: Pfx, h: Pfx)
    requires OncePerNetwork(t) && Smallest(t, p, Some(q)) && Smallest(t, p, Some(h))
    ensures h == q
  {
    forall i: nat | i < h.len ensures Bit(h.addr.bytes, i) == Bit(q.addr.bytes, i) {
      assert Bit(h.addr.bytes, i) == Bit(p.addr.bytes, i);
    }
  }

  /** The tree holds the rows that take part, with their origins. */
  ghost predicate TreeOf(t: Tree, rows: Rows, defaults: set<Pfx>) {
    && (forall i :: 0 <= i < |rows| ==> (rows[i].0 in t <==> TakesPart(rows[i], defaults)))
    && (forall i, x :: 0 <= i < |rows| && rows[i].0 in t ==> (x in t[rows[i].0] <==> Some(x) in rows[i].1))
    && forall p | p in t :: exists i :: 0 <= i < |rows| && rows[i].0 == p
  }

  lemma PartsOf(t: Tree, rows: Rows, defaults: set<Pfx>)
    requires TreeOf(t, rows, defaults)
    ensures t.Keys == Parts(rows, defaults)
  {
    hide TakesPart;
    forall p ensures p in t.Keys <==> p in Parts(rows, defaults) {
      if p in t {
        var i :| 0 <= i < |rows| && rows[i].0 == p;
        assert rows[i] in rows && TakesPart(rows[i], defaults);
      }
    }
  }

  lemma SmallestRow(t: Tree, rows: Rows, defaults: set<Pfx>, mode: Mode, i: nat, j: nat)
    requires TreeOf(t, rows, defaults) && i < |rows| && j < |rows| && rows[i].0 in t && rows[j].0 in t
    ensures LiesIn(rows, defaults, mode, i, j) <==>
            Smallest(t.Keys, rows[i].0, Some(rows[j].0)) && Wanted(mode, t[rows[i].0], t[rows[j].0])
  {
    hide Contains, TakesPart;
    var sub, super := t[rows[i].0], t[rows[j].0];
    assert (forall x :: x in sub <==> Some(x) in rows[i].1) && forall x :: x in super <==> Some(x) in rows[j].1;
    WantedRows(mode, sub, super, rows[i].1, rows[j].1);
    forall h | h in t.Keys ensures exists k :: 0 <= k < |rows| && rows[k].0 == h && TakesPart(rows[k], defaults) {
      var k :| 0 <= k < |rows| && rows[k].0 == h;
      assert TakesPart(rows[k], defaults);
    }
  }

  lemma WantedRows(mode: Mode, sub: seq<Asn>, super: seq<Asn>, a: seq<Option<Asn>>, b: seq<Option<Asn>>)
    requires (forall x :: x in sub <==> Some(x) in a) && forall x :: x in super <==> Some(x) in b
    ensures Wanted(mode, sub, super) <==> RelatedOrigins(mode, a, b)
  {
    if mode.Defcon? {
      if Elems(sub) == Elems(super) {
        forall x ensures Some(x) in a <==> Some(x) in b { assert x in Elems(sub) <==> x in Elems(super); }
      }
      if RelatedOrigins(mode, a, b) {
        assert Elems(sub) == Elems(super);
      }
    } else {
      if x :| x in sub && x !in super { assert Some(x) in a && Some(x) !in b; }
      if x :| Some(x) in a && Some(x) !in b { assert x in sub && x !in super; }
    }
  }

  /** What the tree relates is what the rows report, under the covering prefix that was looked up. */
  lemma RelatedRows(t: Tree, rows: Rows, defaults: set<Pfx>, cover: Cover, mode: Mode, p: Pfx, q: Pfx)
    requires TreeOf(t, rows, defaults) && CoverOk(cover)
    ensures Related(t, cover, mode, p, q) <==>
            Reportable(rows, defaults, mode, p, q) && cover(Parts(rows, defaults), p) == Some(q)
    ensures OncePerNetwork(Parts(rows, defaults)) && Reportable(rows, defaults, mode, p, q) ==>
              Related(t, cover, mode, p, q)
  {
    hide Contains, TakesPart, Wanted, Smallest, LiesIn, Parts, OncePerNetwork;
    PartsOf(t, rows, defaults);
    assert Smallest(t.Keys, p, cover(t.Keys, p));
    if Related(t, cover, mode, p, q) {
      var i :| 0 <= i < |rows| && rows[i].0 == p;
      var j :| 0 <= j < |rows| && rows[j].0 == q;
      SmallestRow(t, rows, defaults, mode, i, j);
    }
    if Reportable(rows, defaults, mode, p, q) {
      var i, j :| 0 <= i < |rows| && 0 <= j < |rows| && rows[i].0 == p && rows[j].0 == q &&
        LiesIn(rows, defaults, mode, i, j);
      RowsInTree(t, rows, defaults, mode, i, j);
      SmallestRow(t, rows, defaults, mode, i, j);
      CoverThere(t.Keys, p, q, cover(t.Keys, p));
      if OncePerNetwork(t.Keys) { OneCover(t.Keys, p, cover(t.Keys, p).value, q); }
    }
  }

  lemma RowsInTree(t: Tree, rows: Rows, defaults: set<Pfx>, mode: Mode, i: nat, j: nat)
    requires TreeOf(t, rows, defaults) && i < |rows| && j < |rows| && LiesIn(rows, defaults, mode, i, j)
    ensures rows[i].0 in t && rows[j].0 in t
  {
  }

  lemma CoverThere(t: set<Pfx>, p: Pfx, q: Pfx, found: Option<Pfx>)
    requires Smallest(t, p, Some(q)) && Smallest(t, p, found)
    ensures found.Some?
  {
  }

  class SubpfxConsumer {
    const mode: Mode
    const cover: Cover
    const defaults: set<Pfx>
    /** Two relations that take turns: the one being filled, and the one of the last view. */
    var maps: seq<Relation>
    var cur: nat
    var log: seq<Event>

    constructor (mode: Mode, cover: Cover, defaults: set<Pfx>)
      requires CoverOk(cover)
      ensures this.mode == mode && this.cover == cover && this.defaults == defaults && Valid() && log == []
    {
      this.mode, this.cover, this.defaults, maps, cur, log := mode, cover, defaults, [map[], map[]], 0, [];
    }

    /** Replaying everything logged so far gives the relation of the last view. */
    ghost predicate Valid()
      reads this
    {
      && |maps| == 2 && cur < 2 && CoverOk(cover)
      && maps[cur] == map[] && Replay(log) == Pairs(maps[1 - cur])
    }

    method BuildTree(rows: Rows) returns (t: Tree)
      requires RowsOk(rows)
      ensures TreeOk(t) && TreeOf(t, rows, defaults)
    {
      t := map[];
      var i := 0;
      while i < |rows|
        invariant i <= |rows| && TreeOk(t)
        invariant forall j :: 0 <= j < i ==>
                 (rows[j].0 in t <==> rows[j].0 !in defaults && exists x :: Some(x) in rows[j].1)
        invariant forall j, x :: 0 <= j < i && rows[j].0 in t ==> (x in t[rows[j].0] <==> Some(x) in rows[j].1)
        invariant forall p | p in t :: exists j :: 0 <= j < i && rows[j].0 == p
      {
        if rows[i].0 !in defaults {
          var ases := CollectOrigins(rows[i].1);
          if |ases| > 0 {
            assert ases[0] in ases;
            t := t[rows[i].0 := ases];
          }
        }
        i := i + 1;
      }
    }

    /** Walk the tree and fill the current relation. */
    method FindSubpfxs(t: Tree) returns (r: Relation)
      requires TreeOk(t) && CoverOk(cover)
      ensures forall p, q :: p in r && r[p] == q <==> Related(t, cover, mode, p, q)
    {
      r := map[];
      var todo := t.Keys;
      while todo != {}
        invariant todo <= t.Keys && forall p | p in r :: p !in todo
        invariant forall p, q :: p in r && r[p] == q <==> p !in todo && Related(t, cover, mode, p, q)
        decreases |todo|
      {
        var p :| p in todo;
        var super := cover(t.Keys, p);
        if super.Some? {
          var ok := IsWanted(mode, t[p], t[super.value]);
          if ok {
            r := r[p := super.value];
          }
        }
        todo := todo - {p};
      }
    }

    /** One view: new pairs were not in the last relation, finished ones were; then the maps
        change places. */
    method ProcessView(rows: Rows) returns (news: seq<Event>, ends: seq<Event>)
      requires Valid() && RowsOk(rows)
      modifies this
      ensures Valid() && log == old(log) + news + ends
      ensures forall p, q :: (p, q) in Replay(log) <==>
              Reportable(rows, defaults, mode, p, q) && cover(Parts(rows, defaults), p) == Some(q)
      ensures OncePerNetwork(Parts(rows, defaults)) ==>
                forall p, q :: (p, q) in Replay(log) <==> Reportable(rows, defaults, mode, p, q)
      ensures PairsOf(news) !! Replay(old(log)) && PairsOf(ends) <= Replay(old(log)) && PairsOf(news) !! PairsOf(ends)
      ensures |news| == |PairsOf(news)| && |ends| == |PairsOf(ends)|
      ensures (forall i :: 0 <= i < |news| ==> news[i].kind.New?)
      ensures forall i :: 0 <= i < |ends| ==> ends[i].kind.Finished?
    {
      hide Replay, PairsOf, Pairs, Related, TreeOk, TreeOf, Reportable, Parts, OncePerNetwork;
      var t := BuildTree(rows);
      var r := FindSubpfxs(t);
      maps := maps[cur := r];
      var prev := maps[1 - cur];
      news := Diff(r, prev, New);
      ends := Diff(prev, r, Finished);
      DiffReplays(log, news, ends, prev, r);
      log := log + news + ends;
      PairsAt(r);
      forall p, q ensures Related(t, cover, mode, p, q) <==>
                          Reportable(rows, defaults, mode, p, q) && cover(Parts(rows, defaults), p) == Some(q)
      {
        RelatedRows(t, rows, defaults, cover, mode, p, q);
      }
      forall p, q | OncePerNetwork(Parts(rows, defaults))
        ensures Reportable(rows, defaults, mode, p, q) ==> Related(t, cover, mode, p, q)
      {
        RelatedRows(t, rows, defaults, cover, mode, p, q);
      }
      maps := maps[1 - cur := map[]];
      cur := (cur + 1) % 2;
    }
  }

  lemma PairsAt(r: Relation)
    ensures forall p, q :: (p, q) in Pairs(r) <==> p in r && r[p] == q
  {
  }

  /** Adding what is new and taking away what is finished turns one relation into the next. */
  lemma DiffReplays(log: seq<Event>, news: seq<Event>, ends: seq<Event>, prev: Relation, r: Relation)
    requires Replay(log) == Pairs(prev) && PairsOf(news) == Pairs(r) - Pairs(prev)
    requires PairsOf(ends) == Pairs(prev) - Pairs(r)
    requires (forall i :: 0 <= i < |news| ==> news[i].kind.New?)
    requires forall i :: 0 <= i < |ends| ==> ends[i].kind.Finished?
    ensures Replay(log + news + ends) == Pairs(r)
    ensures PairsOf(news) !! Replay(log) && PairsOf(ends) <= Replay(log) && PairsOf(news) !! PairsOf(ends)
  {
    hide Replay, PairsOf, Pairs;
    ReplayMore(log, news, New);
    ReplayMore(log + news, ends, Finished);
  }
}
