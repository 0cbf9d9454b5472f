/** Tables as the protocol sees them: which cells are announced, and what the cells of a
    frame do to them. Correctness of a frame does not depend on the order of its messages. */
module Tables {
  import opened Net
  import opened RowCodec

  type Table = imap<Key, StorePath>

  /** What one cell of a row does: announce a path, or withdraw. */
  datatype CellOp = Put(key: Key, path: StorePath) | Del(key: Key)

  ghost function Apply(t: Table, x: CellOp): Table {
    match x
    case Put(q, p) => t[q := p]
    case Del(q) => imap r | r in t && r != q :: t[r]
  }

  ghost function ApplyAll(t: Table, xs: seq<CellOp>): Table {
    if |xs| == 0 then t else Apply(ApplyAll(t, xs[..|xs| - 1]), xs[|xs| - 1])
  }

  ghost predicate Agree(t: Table, u: Table, q: Key) {
    (q in t <==> q in u) && (q in t && q in u ==> t[q] == u[q])
  }

  lemma SameTable(t: Table, u: Table)
    requires forall q: Key :: Agree(t, u, q)
    ensures t == u
  {
    forall q: Key ensures q in t <==> q in u { assert Agree(t, u, q); }
    forall q: Key | q in t ensures t[q] == u[q] { assert Agree(t, u, q); }
  }

  ghost predicate Touches(xs: seq<CellOp>, q: Key) { exists i :: 0 <= i < |xs| && xs[i].key == q }

  lemma TouchesLast(xs: seq<CellOp>, q: Key)
    requires |xs| > 0
    ensures Touches(xs, q) <==> Touches(xs[..|xs| - 1], q) || xs[|xs| - 1].key == q
  {
    var i := |xs| - 1;
    if Touches(xs, q) && xs[i].key != q {
      var j :| 0 <= j < |xs| && xs[j].key == q;
      assert xs[..i][j].key == q;
    }
    if Touches(xs[..i], q) {
      var j :| 0 <= j < i && xs[..i][j].key == q;
      assert xs[j].key == q;
    }
  }

  /** Every cell of the frame says what the new table says. */
  ghost predicate Truthful(xs: seq<CellOp>, n: Table) {
    forall i :: 0 <= i < |xs| ==> (if xs[i].Put? then xs[i].key in n && n[xs[i].key] == xs[i].path else xs[i].key !in n)
  }

  lemma {:induction false} ApplyTruthful(t: Table, n: Table, xs: seq<CellOp>, q: Key)
    requires Truthful(xs, n)
    ensures Touches(xs, q) ==> Agree(ApplyAll(t, xs), n, q)
    ensures !Touches(xs, q) ==> Agree(ApplyAll(t, xs), t, q)
  {
    if |xs| > 0 {
      var i := |xs| - 1;
      assert Truthful(xs[..i], n) by { assert forall j :: 0 <= j < i ==> xs[..i][j] == xs[j]; }
      ApplyTruthful(t, n, xs[..i], q);
      TouchesLast(xs, q);
    }
  }

  /** A truthful frame turns a table into the new one exactly when the two agree wherever the
      frame is silent. */
  lemma TruthfulExact(t: Table, n: Table, xs: seq<CellOp>)
    requires Truthful(xs, n)
    ensures ApplyAll(t, xs) == n <==> forall q: Key :: !Touches(xs, q) ==> Agree(t, n, q)
  {
    forall q: Key
      ensures Touches(xs, q) ==> Agree(ApplyAll(t, xs), n, q)
      ensures !Touches(xs, q) ==> (Agree(ApplyAll(t, xs), n, q) <==> Agree(t, n, q))
    {
      ApplyTruthful(t, n, xs, q);
    }
    if forall q: Key :: !Touches(xs, q) ==> Agree(t, n, q) {
      SameTable(ApplyAll(t, xs), n);
    }
    if ApplyAll(t, xs) == n {
      forall q: Key | !Touches(xs, q) ensures Agree(t, n, q) {
        assert Agree(ApplyAll(t, xs), n, q);
      }
    }
  }

  /** The cells of a frame say everything that changed from `p` to `n`, and nothing false. */
  ghost predicate DiffOf(xs: seq<CellOp>, p: Table, n: Table) {
    && Truthful(xs, n)
    && (forall i :: 0 <= i < |xs| && xs[i].Del? ==> xs[i].key in p)
    && (forall q: Key :: !Agree(p, n, q) ==> Touches(xs, q))
  }

  /** Applying a frame to its parent gives the new table. */
  lemma DiffApplies(xs: seq<CellOp>, p: Table, n: Table)
    requires DiffOf(xs, p, n)
    ensures ApplyAll(p, xs) == n
  {
    TruthfulExact(p, n, xs);
  }

  /** ... in any order: only which cells occur matters. */
  lemma DiffAnyOrder(xs: seq<CellOp>, ys: seq<CellOp>, p: Table, n: Table)
    requires DiffOf(xs, p, n) && multiset(ys) == multiset(xs)
    ensures DiffOf(ys, p, n) && ApplyAll(p, ys) == n
  {
    forall i | 0 <= i < |ys| ensures ys[i] in xs {
      assert ys[i] in multiset(ys);
    }
    forall q: Key | Touches(xs, q) ensures Touches(ys, q) {
      var i :| 0 <= i < |xs| && xs[i].key == q;
      assert xs[i] in multiset(xs);
      assert xs[i] in ys;
    }
    DiffApplies(ys, p, n);
  }

  // ---------------------------------------------------------------- rows and frames

  function CellOf(op: Op, pfx: Pfx, k: PeerId, path: StorePath): CellOp {
    if op.Remove? then Del((pfx, k)) else Put((pfx, k), path)
  }

  /** The cells of a row. */
  function RowOps(r: PfxRow): (xs: seq<CellOp>)
    ensures |xs| == |r.cells|
    ensures forall j :: 0 <= j < |xs| ==> xs[j] == CellOf(r.op, r.pfx, r.cells[j].peer, r.cells[j].path)
  {
    seq(|r.cells|, j requires 0 <= j < |r.cells| => CellOf(r.op, r.pfx, r.cells[j].peer, r.cells[j].path))
  }

  function FrameOps(rs: seq<PfxRow>): seq<CellOp> {
    if |rs| == 0 then [] else FrameOps(rs[..|rs| - 1]) + RowOps(rs[|rs| - 1])
  }

  lemma {:induction false} ApplyMore(t: Table, xs: seq<CellOp>, ys: seq<CellOp>)
    ensures ApplyAll(t, xs + ys) == ApplyAll(ApplyAll(t, xs), ys)
  {
    if |ys| == 0 {
      assert xs + ys == xs;
    } else {
      var n := |ys| - 1;
      assert (xs + ys)[..|xs + ys| - 1] == xs + ys[..n];
      ApplyMore(t, xs, ys[..n]);
    }
  }

  lemma {:induction false} FrameMore(rs: seq<PfxRow>, ss: seq<PfxRow>)
    ensures FrameOps(rs + ss) == FrameOps(rs) + FrameOps(ss)
  {
    hide RowOps;
    if |ss| == 0 {
      assert rs + ss == rs;
    } else {
      var n := |ss| - 1;
      assert (rs + ss)[..|rs + ss| - 1] == rs + ss[..n];
      FrameMore(rs, ss[..n]);
      assert FrameOps(rs) + (FrameOps(ss[..n]) + RowOps(ss[n])) == FrameOps(rs) + FrameOps(ss[..n]) + RowOps(ss[n]);
    }
  }
}
