/** Per-location address runs: the blocks that cover a prefix are merged into runs per location,
    and the runs are later blown up into the /24 networks that they meet. */
module GeoRuns {

  type Loc = nat

  /** A block of consecutive addresses; a block without a code keeps the location before it. */
  datatype Block = Block(code: Loc, known: bool, num: nat)
  datatype Run = Run(addr: nat, num: nat)
  type Runs = seq<Run>

  const UNKNOWN: Loc := 0x3F3F

  // ---------------------------------------------------------------- what the blocks say

  /** The location in force after the blocks. */
  function LocAfter(bs: seq<Block>): Loc {
    if |bs| == 0 then UNKNOWN else if bs[|bs| - 1].known then bs[|bs| - 1].code else LocAfter(bs[..|bs| - 1])
  }

  /** The first address after the blocks. */
  function EndOf(first: nat, bs: seq<Block>): nat {
    if |bs| == 0 then first else EndOf(first, bs[..|bs| - 1]) + bs[|bs| - 1].num
  }

  ghost predicate NonEmpty(bs: seq<Block>) { forall i :: 0 <= i < |bs| ==> bs[i].num > 0 }

  /** The address lies in a block of the location. */
  ghost predicate In(first: nat, bs: seq<Block>, loc: Loc, a: nat) {
    |bs| > 0 &&
    var n := |bs| - 1;
    (In(first, bs[..n], loc, a) || (LocAfter(bs) == loc && EndOf(first, bs[..n]) <= a < EndOf(first, bs)))
  }

  // ---------------------------------------------------------------- what the runs say

  ghost predicate Within(runs: Runs, a: nat) {
    exists i :: 0 <= i < |runs| && runs[i].addr <= a < runs[i].addr + runs[i].num
  }

  /** Runs are non-empty, in order and never adjacent, and all end by `end`. */
  ghost predicate Merged(runs: Runs, end: nat) {
    && (forall i :: 0 <= i < |runs| ==> runs[i].num > 0 && runs[i].addr + runs[i].num <= end)
    && (forall i :: 0 < i < |runs| ==> runs[i - 1].addr + runs[i - 1].num < runs[i].addr)
  }

  /** Continue the last run or start a new one. The addresses of the block are added. */
  method UpdateRuns(runs: Runs, cur: nat, num: nat) returns (r: Runs)
    requires num > 0 && Merged(runs, cur)
    ensures Merged(r, cur + num)
    ensures forall a: nat :: Within(r, a) <==> Within(runs, a) || cur <= a < cur + num
  {
    hide Within;
    if runs == [] {
      r := [Run(cur, num)];
      OneRun(cur, num);
      return;
    }
    var n := |runs| - 1;
    assert runs[n].addr != cur;
    if cur == runs[n].addr + runs[n].num {
      r := runs[n := Run(runs[n].addr, runs[n].num + num)];
    } else {
      r := runs + [Run(cur, num)];
    }
    forall a: nat ensures Within(r, a) <==> Within(runs, a) || cur <= a < cur + num { Covers(runs, r, cur, num, a); }
  }

  lemma OneRun(cur: nat, num: nat)
    ensures forall a: nat :: (Within([Run(cur, num)], a) <==> cur <= a < cur + num) && !Within([], a)
  {
    assert [Run(cur, num)][0] == Run(cur, num);
  }

  lemma Covers(runs: Runs, r: Runs, cur: nat, num: nat, a: nat)
    requires |runs| > 0 && num > 0
    requires var n := |runs| - 1;
             if cur == runs[n].addr + runs[n].num then r == runs[n := Run(runs[n].addr, runs[n].num + num)]
               else r == runs + [Run(cur, num)]
    ensures Within(r, a) <==> Within(runs, a) || cur <= a < cur + num
  {
    if Within(runs, a) {
      var i :| 0 <= i < |runs| && runs[i].addr <= a < runs[i].addr + runs[i].num;
      assert r[i].addr <= a < r[i].addr + r[i].num;
    }
    if cur <= a < cur + num {
      assert r[|r| - 1].addr <= a < r[|r| - 1].addr + r[|r| - 1].num;
    }
    if Within(r, a) {
      var i :| 0 <= i < |r| && r[i].addr <= a < r[i].addr + r[i].num;
      if i < |runs| { assert runs[i].addr <= a < runs[i].addr + runs[i].num || cur <= a; }
    }
  }

  // ---------------------------------------------------------------- the cache of one prefix

  datatype Cache = Cache(locs: seq<Loc>, runs: seq<Runs>)

  /** Entries for different locations, with exactly their location's addresses; no address is left out. */
  ghost predicate Recorded(c: Cache, first: nat, bs: seq<Block>) {
    && |c.locs| == |c.runs|
    && (forall i, j :: 0 <= i < j < |c.locs| ==> c.locs[i] != c.locs[j])
    && (forall loc: Loc, a: nat :: In(first, bs, loc, a) ==> loc in c.locs)
    && (forall i :: 0 <= i < |c.locs| ==> Merged(c.runs[i], EndOf(first, bs)))
    && (forall i, a: nat :: 0 <= i < |c.locs| ==> (Within(c.runs[i], a) <==> In(first, bs, c.locs[i], a)))
  }

  ghost predicate Occurs(first: nat, bs: seq<Block>, loc: Loc) { exists a: nat :: In(first, bs, loc, a) }

  /** One entry for each location that occurs, none for any other, with exactly that location's addresses. */
  ghost predicate Faithful(c: Cache, first: nat, bs: seq<Block>) {
    Recorded(c, first, bs) && forall loc: Loc :: loc in c.locs <==> Occurs(first, bs, loc)
  }

  lemma Next(first: nat, bs: seq<Block>, b: Block)
    ensures EndOf(first, bs + [b]) == EndOf(first, bs) + b.num
    ensures LocAfter(bs + [b]) == if b.known then b.code else LocAfter(bs)
    ensures forall loc: Loc, a: nat :: In(first, bs + [b], loc, a) <==>
              In(first, bs, loc, a) || (loc == LocAfter(bs + [b]) && EndOf(first, bs) <= a < EndOf(first, bs) + b.num)
  {
    assert (bs + [b])[..|bs|] == bs;
  }

  method BuildCache(first: nat, bs: seq<Block>) returns (c: Cache)
    requires NonEmpty(bs)
    ensures Faithful(c, first, bs)
  {
    hide In, Within, Merged;
    c := Cache([], []);
    var cur, loc, i := first, UNKNOWN, 0;
    NothingYet(first);
    while i < |bs|
      invariant i <= |bs| && cur == EndOf(first, bs[..i]) && loc == LocAfter(bs[..i]) && Faithful(c, first, bs[..i])
    {
      var b := bs[i];
      if b.known {
        loc := b.code;
      }
      var k := 0;
      while k < |c.locs| && c.locs[k] != loc
        invariant k <= |c.locs| && forall h :: 0 <= h < k ==> c.locs[h] != loc
      {
        k := k + 1;
      }
      ghost var was := c;
      if k == |c.locs| {
        c := Cache(c.locs + [loc], c.runs + [[]]);
        NewLoc(was, first, bs[..i], loc);
      }
      ghost var mid := c;
      var runs := UpdateRuns(c.runs[k], cur, b.num);
      c := Cache(c.locs, c.runs[k := runs]);
      Next(first, bs[..i], b);
      OneBlock(mid, c, first, bs[..i], b, k);
      assert bs[..i] + [b] == bs[..i + 1];
      cur, i := cur + b.num, i + 1;
    }
    assert bs[..i] == bs;
  }

  lemma NothingYet(first: nat)
    ensures Faithful(Cache([], []), first, [])
  {
    NoBlocks(first);
  }

  /** A new location starts without addresses. */
  lemma NewLoc(c: Cache, first: nat, bs: seq<Block>, loc: Loc)
    requires Recorded(c, first, bs) && loc !in c.locs
    ensures Recorded(Cache(c.locs + [loc], c.runs + [[]]), first, bs)
  {
    hide In;
    var d := Cache(c.locs + [loc], c.runs + [[]]);
    forall i, a: nat | 0 <= i < |d.locs| ensures Within(d.runs[i], a) <==> In(first, bs, d.locs[i], a) {
      if i == |c.locs| { assert In(first, bs, loc, a) ==> loc in c.locs; }
    }
  }

  lemma OneBlock(c: Cache, d: Cache, first: nat, bs: seq<Block>, b: Block, k: nat)
    requires Recorded(c, first, bs) && k < |c.locs| && c.locs[k] == LocAfter(bs + [b]) && b.num > 0
    requires forall i :: 0 <= i < |c.locs| && i != k ==> Occurs(first, bs, c.locs[i])
    requires d.locs == c.locs && |d.runs| == |c.runs|
    requires forall i :: 0 <= i < |c.runs| && i != k ==> d.runs[i] == c.runs[i]
    requires Merged(d.runs[k], EndOf(first, bs) + b.num)
    requires forall a: nat :: Within(d.runs[k], a) <==>
             Within(c.runs[k], a) || EndOf(first, bs) <= a < EndOf(first, bs) + b.num
    ensures Faithful(d, first, bs + [b])
  {
    hide In, Within, Merged;
    Next(first, bs, b);
    forall i | 0 <= i < |d.locs| ensures Merged(d.runs[i], EndOf(first, bs + [b])) {
      if i != k { MergedLater(c.runs[i], EndOf(first, bs), b.num); }
    }
    assert Recorded(d, first, bs + [b]);
    assert In(first, bs + [b], c.locs[k], EndOf(first, bs));
    forall i | 0 <= i < |d.locs| ensures Occurs(first, bs + [b], d.locs[i]) {
      if i != k { OccursStill(first, bs, b, d.locs[i]); }
    }
  }

  lemma OccursStill(first: nat, bs: seq<Block>, b: Block, loc: Loc)
    requires Occurs(first, bs, loc)
    ensures Occurs(first, bs + [b], loc)
  {
    hide In;
    Next(first, bs, b);
    var a: nat :| In(first, bs, loc, a);
    assert In(first, bs + [b], loc, a);
  }

  lemma MergedLater(runs: Runs, end: nat, more: nat)
    requires Merged(runs, end)
    ensures Merged(runs, end + more)
  {
  }

  // ---------------------------------------------------------------- /24 networks

  /** The /24 that an address lies in. */
  function Net24(a: nat): nat { a - a % 256 }

  /** The number of /24 networks that a run takes up, counted from the one it begins in. */
  function Count24(run: Run): nat { (run.num + run.addr % 256 + 255) / 256 }

  ghost predicate Upto(run: Run, k: nat, s: nat) { exists h: nat :: h < k && s == Net24(run.addr) + h * 256 }

  /** Stepping by 256 from the first network reaches exactly the networks that the run meets. */
  lemma Reaches(run: Run, s: nat)
    requires run.num > 0
    ensures Upto(run, Count24(run), s) <==>
            exists a: nat :: run.addr <= a < run.addr + run.num && Net24(a) == s
  {
    if h: nat :| h < Count24(run) && s == Net24(run.addr) + h * 256 { StepMeets(run, h); }
    if a: nat :| run.addr <= a < run.addr + run.num && Net24(a) == s { MeetsStep(run, a); }
  }

  lemma StepMeets(run: Run, h: nat)
    requires run.num > 0 && h < Count24(run)
    ensures var a := if h == 0 then run.addr else Net24(run.addr) + h * 256;
            run.addr <= a < run.addr + run.num && Net24(a) == Net24(run.addr) + h * 256
  {
    Multiple(run.addr, h);
  }

  lemma Multiple(a: nat, h: nat)
    ensures Net24(Net24(a) + h * 256) == Net24(a) + h * 256
  {
    assert Net24(a) == a / 256 * 256;
    assert (a / 256 + h) * 256 % 256 == 0;
  }

  lemma MeetsStep(run: Run, a: nat)
    requires run.addr <= a < run.addr + run.num
    ensures var h := (Net24(a) - Net24(run.addr)) / 256;
            0 <= h < Count24(run) && Net24(a) == Net24(run.addr) + h * 256
  {
    assert Net24(a) == a / 256 * 256 && Net24(run.addr) == run.addr / 256 * 256;
  }

  /** Blow a list of runs up into the /24 networks that it meets. */
  method Explode(runs: Runs) returns (nets: set<nat>)
    requires forall i :: 0 <= i < |runs| ==> runs[i].num > 0
    ensures forall s: nat :: s in nets <==> exists a: nat :: Within(runs, a) && Net24(a) == s
  {
    hide Net24;
    nets := {};
    var j := 0;
    while j < |runs|
      invariant j <= |runs|
      invariant forall s: nat :: s in nets <==> exists a: nat :: Within(runs[..j], a) && Net24(a) == s
    {
      var more := ExplodeOne(runs[j]);
      forall s: nat ensures s in nets + more <==> exists a: nat :: Within(runs[..j + 1], a) && Net24(a) == s {
        OneRunMore(runs, j, s);
      }
      nets := nets + more;
      j := j + 1;
    }
    assert runs[..j] == runs;
  }

  lemma OneRunMore(runs: Runs, j: nat, s: nat)
    requires j < |runs|
    ensures (exists a: nat :: Within(runs[..j + 1], a) && Net24(a) == s) <==>
            (exists a: nat :: Within(runs[..j], a) && Net24(a) == s) || exists a: nat ::
              runs[j].addr <= a < runs[j].addr + runs[j].num && Net24(a) == s
  {
    hide Net24;
    forall a: nat
      ensures Within(runs[..j + 1], a) <==> Within(runs[..j], a) || runs[j].addr <= a < runs[j].addr + runs[j].num
    {
      if Within(runs[..j], a) {
        var i :| 0 <= i < j && runs[..j][i].addr <= a < runs[..j][i].addr + runs[..j][i].num;
        assert runs[..j + 1][i].addr <= a < runs[..j + 1][i].addr + runs[..j + 1][i].num;
      }
      if runs[j].addr <= a < runs[j].addr + runs[j].num {
        assert runs[..j + 1][j].addr <= a < runs[..j + 1][j].addr + runs[..j + 1][j].num;
      }
      if Within(runs[..j + 1], a) {
        var i :| 0 <= i <= j && runs[..j + 1][i].addr <= a < runs[..j + 1][i].addr + runs[..j + 1][i].num;
        if i < j { assert runs[..j][i].addr <= a < runs[..j][i].addr + runs[..j][i].num; }
      }
    }
  }

  method ExplodeOne(run: Run) returns (nets: set<nat>)
    requires run.num > 0
    ensures forall s: nat :: s in nets <==> exists a: nat :: run.addr <= a < run.addr + run.num && Net24(a) == s
  {
    var cnt := Count24(run);
    nets := {};
    var k := 0;
    while k < cnt
      invariant k <= cnt && forall s: nat :: s in nets <==> Upto(run, k, s)
    {
      forall s: nat ensures Upto(run, k + 1, s) <==> Upto(run, k, s) || s == Net24(run.addr) + k * 256 {
        if h: nat :| h < k + 1 && s == Net24(run.addr) + h * 256 { assert h < k || h == k; }
      }
      nets := nets + {Net24(run.addr) + k * 256};
      k := k + 1;
    }
    forall s: nat
      ensures s in nets <==> exists a: nat :: run.addr <= a < run.addr + run.num && Net24(a) == s
    {
      Reaches(run, s);
    }
  }

  /** A faithful cache of non-empty blocks keeps its runs inside the prefix. */
  lemma RunsInside(c: Cache, first: nat, bs: seq<Block>, i: nat, j: nat)
    requires Faithful(c, first, bs) && i < |c.runs| && j < |c.runs[i]|
    ensures first <= c.runs[i][j].addr && c.runs[i][j].addr + c.runs[i][j].num <= EndOf(first, bs)
  {
    var r := c.runs[i][j];
    assert Merged(c.runs[i], EndOf(first, bs));
    assert Within(c.runs[i], r.addr);
    InBounds(first, bs, c.locs[i], r.addr);
  }

  lemma {:induction false} InBounds(first: nat, bs: seq<Block>, loc: Loc, a: nat)
    requires In(first, bs, loc, a)
    ensures first <= a
  {
    var n := |bs| - 1;
    if In(first, bs[..n], loc, a) { InBounds(first, bs[..n], loc, a); } else { StartsAt(first, bs[..n]); }
  }

  lemma {:induction false} StartsAt(first: nat, bs: seq<Block>)
    ensures first <= EndOf(first, bs)
  {
    if |bs| > 0 { StartsAt(first, bs[..|bs| - 1]); }
  }

  // ---------------------------------------------------------------- 32-bit arithmetic

  /** The number of addresses of a prefix. */
  function Addresses(mask: nat): (n: nat)
    requires mask <= 32
    ensures n > 0
    decreases 32 - mask
  {
    if mask == 32 then 1 else 2 * Addresses(mask + 1)
  }

  lemma {:induction false} LongerIsSmaller(mask: nat)
    requires 1 <= mask <= 32
    ensures Addresses(mask) <= 0x8000_0000 && (mask >= 2 ==> Addresses(mask) <= 0x4000_0000)
  {
    assert Addresses(2) == 0x4000_0000 by { ManyBits(); }
    if mask > 2 { LongerIsSmaller(mask - 1); }
  }

  lemma ManyBits()
    ensures Addresses(2) == 0x4000_0000
  {
    assert Addresses(28) == 16;
    assert Addresses(24) == 256;
    assert Addresses(20) == 0x1000;
    assert Addresses(16) == 0x1_0000;
    assert Addresses(12) == 0x10_0000;
    assert Addresses(8) == 0x100_0000;
    assert Addresses(4) == 0x1000_0000;
  }

  /** What the code computes for the `k`-th network of a run, with its 32-bit operands: the
      length, the rounded length, the shifted counter and the network. */
  ghost predicate Fits32(run: Run, k: nat) {
    && run.num < 0x1_0000_0000 && run.num + run.addr % 256 + 255 < 0x1_0000_0000
    && k * 256 < 0x8000_0000 && Net24(run.addr) + k * 256 < 0x1_0000_0000
  }

  /** For every prefix but the default route, whatever blocks cover it, the arithmetic on each
      run of its cache stays within 32 bits, and the shifted counter within 31. */
  lemma NoOverflow(c: Cache, first: nat, bs: seq<Block>, mask: nat, i: nat, j: nat, k: nat)
    requires 1 <= mask <= 32 && (mask == 1 ==> first % 256 == 0)
    requires Faithful(c, first, bs) && EndOf(first, bs) == first + Addresses(mask) <= 0x1_0000_0000
    requires i < |c.runs| && j < |c.runs[i]| && k < Count24(c.runs[i][j])
    ensures Fits32(c.runs[i][j], k)
  {
    hide Faithful, EndOf, Addresses;
    LongerIsSmaller(mask);
    RunsInside(c, first, bs, i, j);
    SmallRun(c.runs[i][j], first, Addresses(mask), k);
  }

  lemma SmallRun(run: Run, first: nat, size: nat, k: nat)
    requires first <= run.addr && run.addr + run.num <= first + size <= 0x1_0000_0000 && k < Count24(run)
    requires size <= 0x4000_0000 || (size <= 0x8000_0000 && first % 256 == 0)
    ensures Fits32(run, k)
  {
  }

  /** The default route in one block does not fit: its length needs 33 bits. */
  lemma DefaultRouteOverflows(code: Loc)
    ensures EndOf(0, [Block(code, true, 0x1_0000_0000)]) == Addresses(0)
    ensures Faithful(Cache([code], [[Run(0, 0x1_0000_0000)]]), 0, [Block(code, true, 0x1_0000_0000)])
    ensures !Fits32(Run(0, 0x1_0000_0000), 0)
  {
    hide Faithful;
    ManyBits();
    OneBlockCache(code, 0x1_0000_0000);
  }

  lemma OneBlockCache(code: Loc, num: nat)
    requires num > 0
    ensures Faithful(Cache([code], [[Run(0, num)]]), 0, [Block(code, true, num)])
    ensures EndOf(0, [Block(code, true, num)]) == num
  {
    hide In, Within;
    var b := Block(code, true, num);
    assert [] + [b] == [b];
    Next(0, [], b);
    OneRun(0, num);
    NoBlocks(0);
    assert In(0, [b], code, 0);
  }

  lemma NoBlocks(first: nat)
    ensures forall loc: Loc, a: nat :: !In(first, [], loc, a)
  {
  }
}
