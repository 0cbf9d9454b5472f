/** The MOAS consumer: prefixes announced by several origins are tracked per set of origins,
    and their beginnings and ends are logged, within a sliding window of time. */
module Moas {
  import opened Net
  import opened Lists

  type Asn = nat
  type Sig = set<Asn>
  type Case = (Pfx, Sig)

  datatype Cat = New | NewRec | Ongoing | Finished

  /** A start of zero marks a case that has finished. */
  datatype Props = Props(start: nat, end: nat)
  type Entry = Option<Props>

  datatype Event = Event(time: nat, key: Case, cat: Cat)

  /** A line of the log of one case. */
  datatype Note = Note(time: nat, cat: Cat)

  // ---------------------------------------------------------------- signatures

  /** Collect the distinct origins of the full-feed peers; other segments are passed over. */
  method BuildSignature(origins: seq<Option<Asn>>) returns (sig: seq<Asn>)
    ensures Distinct(sig) && forall x :: x in sig <==> Some(x) in origins
  {
    sig := [];
    var i := 0;
    while i < |origins|
      invariant i <= |origins| && Distinct(sig) && forall x :: x in sig <==> Some(x) in origins[..i]
    {
      assert origins[..i + 1] == origins[..i] + [origins[i]];
      if origins[i].Some? {
        var k := 0;
        while k < |sig| && sig[k] != origins[i].value
          invariant k <= |sig| && forall h :: 0 <= h < k ==> sig[h] != origins[i].value
        {
          k := k + 1;
        }
        if k == |sig| {
          sig := sig + [origins[i].value];
        }
      }
      i := i + 1;
    }
    assert origins[..i] == origins;
  }

  function Insert(x: Asn, s: seq<Asn>): (r: seq<Asn>)
    ensures multiset(r) == multiset(s) + multiset{x}
  {
    if |s| == 0 || x <= s[0] then [x] + s else
    assert s == [s[0]] + s[1..];
    [s[0]] + Insert(x, s[1..])
  }

  function Sort(s: seq<Asn>): (r: seq<Asn>)
    ensures multiset(r) == multiset(s)
  {
    if |s| == 0 then s else
    assert s == [s[0]] + s[1..];
    Insert(s[0], Sort(s[1..]))
  }

  ghost predicate Ascending(s: seq<Asn>) { forall i, j :: 0 <= i < j < |s| ==> s[i] <= s[j] }

  lemma {:induction false} InsertAscends(x: Asn, s: seq<Asn>)
    requires Ascending(s)
    ensures Ascending(Insert(x, s))
  {
    if |s| > 0 && x > s[0] {
      InsertAscends(x, s[1..]);
      var r := Insert(x, s[1..]);
      forall i | 0 <= i < |r| ensures s[0] <= r[i] {
        assert r[i] in multiset(r);
        assert r[i] in multiset(s[1..]) + multiset{x};
      }
    }
  }

  lemma {:induction false} SortAscends(s: seq<Asn>)
    ensures Ascending(Sort(s))
  {
    if |s| > 0 {
      SortAscends(s[1..]);
      InsertAscends(s[0], Sort(s[1..]));
    }
  }

  lemma {:induction false} SortedUnique(a: seq<Asn>, b: seq<Asn>)
    requires Ascending(a) && Ascending(b) && multiset(a) == multiset(b)
    ensures a == b
  {
    assert |a| == |multiset(a)| == |multiset(b)| == |b|;
    if |a| > 0 {
      assert a[0] in multiset(b) && b[0] in multiset(a);
      assert a[0] == b[0];
      assert a == [a[0]] + a[1..] && b == [b[0]] + b[1..];
      assert multiset(a[1..]) == multiset(a) - multiset{a[0]};
      assert multiset(b[1..]) == multiset(b) - multiset{b[0]};
      SortedUnique(a[1..], b[1..]);
    }
  }

  /** Equal length, then equal element by element after sorting. */
  predicate SigEqual(a: seq<Asn>, b: seq<Asn>) { |a| == |b| && Sort(a) == Sort(b) }

  lemma {:induction false} DistinctMultiset(a: seq<Asn>, x: Asn)
    requires Distinct(a)
    ensures multiset(a)[x] == if x in a then 1 else 0
  {
    if |a| > 0 {
      var n := |a| - 1;
      assert a == a[..n] + [a[n]];
      DistinctMultiset(a[..n], x);
    }
  }

  /** The comparison by sorting is equality of sets, because signatures hold no duplicates. */
  lemma SigEqualIsSet(a: seq<Asn>, b: seq<Asn>)
    requires Distinct(a) && Distinct(b)
    ensures SigEqual(a, b) <==> Elems(a) == Elems(b)
  {
    if Elems(a) == Elems(b) {
      forall x: Asn ensures multiset(a)[x] == multiset(b)[x] {
        DistinctMultiset(a, x);
        DistinctMultiset(b, x);
        assert x in Elems(a) <==> x in Elems(b);
      }
      assert multiset(a) == multiset(b);
      assert |a| == |multiset(a)| == |multiset(b)| == |b|;
      SortAscends(a);
      SortAscends(b);
      SortedUnique(Sort(a), Sort(b));
    }
    if SigEqual(a, b) {
      forall x: Asn ensures x in a <==> x in b { assert x in multiset(a) <==> x in multiset(b); }
    }
  }

  // ---------------------------------------------------------------- one case, one view

  /** The oldest time still in the window, in 32-bit unsigned arithmetic. */
  function LastValid(ts: nat, window: nat): nat { (ts - window) % 0x1_0000_0000 }

  function AddCat(e: Entry, lv: nat): Cat {
    if e.None? then New else if e.value.start != 0 then Ongoing else if e.value.end < lv then New else NewRec
  }

  function Added(e: Entry, ts: nat): Props {
    if e.None? || e.value.start == 0 then Props(ts, ts) else e.value.(end := ts)
  }

  predicate Finishes(e: Entry, ts: nat, lv: nat) {
    e.Some? && !(e.value.end < lv) && e.value.end < ts && e.value.start > 0
  }

  function Cleaned(e: Entry, ts: nat, lv: nat): Entry {
    if e.None? || e.value.end < lv then None else if Finishes(e, ts, lv) then Some(e.value.(start := 0)) else e
  }

  function Next(e: Entry, seen: bool, ts: nat, lv: nat): Entry {
    Cleaned(if seen then Some(Added(e, ts)) else e, ts, lv)
  }

  /** The line that is logged, if any; ongoing cases are only counted. */
  function Line(e: Entry, seen: bool, ts: nat, lv: nat): seq<Note> {
    if seen then (if AddCat(e, lv).Ongoing? then [] else [Note(ts, AddCat(e, lv))])
    else if Finishes(e, ts, lv) then [Note(ts, Finished)]
    else []
  }

  // ---------------------------------------------------------------- the consumer

  datatype ViewIn = ViewIn(time: nat, rows: seq<(Pfx, seq<Option<Asn>>)>)

  /** The cases that the first `n` rows of the view show. */
  ghost predicate Shows(v: ViewIn, blacklist: set<Pfx>, n: nat, key: Case)
    requires n <= |v.rows|
  {
    exists i :: 0 <= i < n && ShowsAt(v, blacklist, i, key)
  }

  ghost predicate ShowsAt(v: ViewIn, blacklist: set<Pfx>, i: nat, key: Case)
    requires i < |v.rows|
  {
    v.rows[i].0 == key.0 && key.0 !in blacklist && |key.1| > 1 && forall x: Asn :: x in key.1 <==>
      Some(x) in v.rows[i].1
  }

  /** The lines of the log that are about one case. */
  ghost function Proj(log: seq<Event>, key: Case): seq<Note> {
    if |log| == 0 then [] else
    var e := log[|log| - 1];
    Proj(log[..|log| - 1], key) + if e.key == key then [Note(e.time, e.cat)] else []
  }

  lemma ProjMore(log: seq<Event>, e: Event, key: Case)
    ensures Proj(log + [e], key) == Proj(log, key) + if e.key == key then [Note(e.time, e.cat)] else []
  {
    assert (log + [e])[..|log|] == log;
  }

  // ---------------------------------------------------------------- the history of one case

  /** Whether a view at some time showed the case. */
  datatype Look = Look(time: nat, seen: bool)

  ghost function Looks(vs: seq<ViewIn>, blacklist: set<Pfx>, key: Case): seq<Look> {
    seq(|vs|, i requires 0 <= i < |vs| => Look(vs[i].time, Shows(vs[i], blacklist, |vs[i].rows|, key)))
  }

  ghost function StateAfter(h: seq<Look>, window: nat): Entry {
    if |h| == 0 then None else
    var x := h[|h| - 1];
    Next(StateAfter(h[..|h| - 1], window), x.seen, x.time, LastValid(x.time, window))
  }

  ghost function Lines(h: seq<Look>, window: nat): seq<Note> {
    if |h| == 0 then [] else
    var x := h[|h| - 1];
    Lines(h[..|h| - 1], window) + Line(StateAfter(h[..|h| - 1], window), x.seen, x.time, LastValid(x.time, window))
  }

  lemma OneMoreLook(vs: seq<ViewIn>, v: ViewIn, blacklist: set<Pfx>, key: Case)
    ensures Looks(vs + [v], blacklist, key) ==
            Looks(vs, blacklist, key) + [Look(v.time, Shows(v, blacklist, |v.rows|, key))]
  {
    hide Shows;
  }

  lemma LookStep(h: seq<Look>, x: Look, window: nat)
    ensures StateAfter(h + [x], window) == Next(StateAfter(h, window), x.seen, x.time, LastValid(x.time, window))
    ensures Lines(h + [x], window) ==
            Lines(h, window) + Line(StateAfter(h, window), x.seen, x.time, LastValid(x.time, window))
  {
    assert (h + [x])[..|h|] == h;
  }

  /** Times grow, and never lie before the window's length. */
  ghost predicate Growing(h: seq<Look>, window: nat) {
    && (forall i :: 0 <= i < |h| ==> 0 < h[i].time < 0x1_0000_0000 && window <= h[i].time)
    && (forall i :: 0 < i < |h| ==> h[i - 1].time < h[i].time)
  }

  /** ... and no gap between views is longer than the window. */
  ghost predicate Paced(h: seq<Look>, window: nat) {
    Growing(h, window) && forall i :: 0 < i < |h| ==> h[i].time <= h[i - 1].time + window
  }

  /** When the case was last seen. */
  ghost function LastSeen(h: seq<Look>): Option<nat> {
    if |h| == 0 then None else if h[|h| - 1].seen then Some(h[|h| - 1].time) else LastSeen(h[..|h| - 1])
  }

  lemma {:induction false} SeenBefore(h: seq<Look>, window: nat)
    requires Growing(h, window) && LastSeen(h).Some?
    ensures 0 < LastSeen(h).value <= h[|h| - 1].time && (LastSeen(h).value == h[|h| - 1].time <==> h[|h| - 1].seen)
    ensures exists i :: 0 <= i < |h| && h[i].seen && h[i].time == LastSeen(h).value
  {
    var n := |h| - 1;
    if !h[n].seen {
      SeenBefore(h[..n], window);
      var i :| 0 <= i < n && h[..n][i].seen && h[..n][i].time == LastSeen(h).value;
      assert h[i].seen;
      assert h[n - 1].time < h[n].time;
    }
  }

  lemma {:induction false} SeenSince(h: seq<Look>, window: nat, i: nat)
    requires Growing(h, window) && i < |h| && h[i].seen
    ensures LastSeen(h).Some? && h[i].time <= LastSeen(h).value
  {
    var n := |h| - 1;
    if h[n].seen { TimesGrow(h, window, i, n); } else { SeenSince(h[..n], window, i); }
  }

  lemma {:induction false} TimesGrow(h: seq<Look>, window: nat, i: nat, j: nat)
    requires Growing(h, window) && i <= j < |h|
    ensures h[i].time <= h[j].time
  {
    if i < j { TimesGrow(h, window, i, j - 1); }
  }

  /** What the table holds at time `now` for a case last seen at time `last`. */
  ghost predicate Recalls(e: Entry, last: Option<nat>, now: nat, window: nat) {
    match last
    case None => e.None?
    case Some(t) =>
      if t + window < now then e.None?
      else e.Some? && e.value.end == t && (e.value.start > 0 <==> t == now)
  }

  ghost predicate Remembers(e: Entry, h: seq<Look>, window: nat) {
    if |h| == 0 then e.None? else Recalls(e, LastSeen(h), h[|h| - 1].time, window)
  }

  lemma RecallStep(e: Entry, last: Option<nat>, prev: nat, x: Look, window: nat)
    requires Recalls(e, last, prev, window) && (last.Some? ==> 0 < last.value <= prev)
    requires 0 < x.time < 0x1_0000_0000 && window <= x.time && prev < x.time
    ensures Recalls(Next(e, x.seen, x.time, LastValid(x.time, window)), if x.seen then Some(x.time) else last, x.time,
            window)
  {
    assert LastValid(x.time, window) == x.time - window;
  }

  lemma {:induction false} StateRemembers(h: seq<Look>, window: nat)
    requires Growing(h, window)
    ensures Remembers(StateAfter(h, window), h, window)
  {
    hide Next, Recalls;
    if |h| > 0 {
      var n := |h| - 1;
      var g := h[..n];
      StateRemembers(g, window);
      if n == 0 {
        FirstLook(h[0], window);
      } else {
        if LastSeen(g).Some? { SeenBefore(g, window); }
        assert h[n - 1].time < h[n].time;
        RecallStep(StateAfter(g, window), LastSeen(g), h[n - 1].time, h[n], window);
      }
    }
  }

  lemma FirstLook(x: Look, window: nat)
    requires 0 < x.time < 0x1_0000_0000 && window <= x.time
    ensures Recalls(Next(None, x.seen, x.time, LastValid(x.time, window)), if x.seen then Some(x.time) else None,
            x.time, window)
  {
    assert LastValid(x.time, window) == x.time - window;
  }

  /** What a sighting is, told from the whole history: ongoing if the view before showed the
      case, recurring if it was last seen earlier but within the window, new otherwise. */
  ghost function CatOf(h: seq<Look>, ts: nat, window: nat): Cat {
    if |h| > 0 && h[|h| - 1].seen then Ongoing
    else if exists i :: 0 <= i < |h| && h[i].seen && ts <= h[i].time + window then NewRec
    else New
  }

  lemma RecallCat(e: Entry, last: Option<nat>, prev: nat, ts: nat, window: nat)
    requires Recalls(e, last, prev, window) && (last.Some? ==> last.value <= prev) && prev < ts < 0x1_0000_0000
    requires window <= ts
    ensures AddCat(e, LastValid(ts, window)) ==
            if last == Some(prev) then Ongoing else if last.Some? && ts <= last.value + window then NewRec else New
  {
    assert LastValid(ts, window) == ts - window;
  }

  /** The consumer's bookkeeping agrees with the history. */
  lemma CategoryFromHistory(h: seq<Look>, ts: nat, window: nat)
    requires Growing(h + [Look(ts, true)], window)
    ensures AddCat(StateAfter(h, window), LastValid(ts, window)) == CatOf(h, ts, window)
  {
    hide StateAfter, Recalls, AddCat;
    var g := h + [Look(ts, true)];
    assert g[|h|].time == ts && forall i :: 0 <= i < |h| ==> g[i] == h[i];
    assert Growing(h, window);
    StateRemembers(h, window);
    if |h| == 0 {
      FirstCat(LastValid(ts, window));
    } else {
      assert g[|h| - 1].time < g[|h|].time;
      LastTells(h, ts, window);
      if LastSeen(h).Some? { SeenBefore(h, window); }
      RecallCat(StateAfter(h, window), LastSeen(h), h[|h| - 1].time, ts, window);
    }
  }

  lemma FirstCat(lv: nat)
    ensures AddCat(None, lv) == New
  {
  }

  /** Seen within the window at all means last seen within the window. */
  lemma LastTells(h: seq<Look>, ts: nat, window: nat)
    requires Growing(h, window)
    ensures (exists i :: 0 <= i < |h| && h[i].seen && ts <= h[i].time + window) <==>
            LastSeen(h).Some? && ts <= LastSeen(h).value + window
  {
    hide LastSeen, Growing;
    if i :| 0 <= i < |h| && h[i].seen && ts <= h[i].time + window { SeenSince(h, window, i); }
    if LastSeen(h).Some? { SeenBefore(h, window); }
  }

  /** A case ends in the first view that does not show it, if the gap is no longer than the window. */
  lemma FinishedFromHistory(h: seq<Look>, ts: nat, window: nat)
    requires Growing(h + [Look(ts, false)], window)
    ensures Finishes(StateAfter(h, window), ts, LastValid(ts, window)) <==>
            |h| > 0 && h[|h| - 1].seen && ts <= h[|h| - 1].time + window
  {
    hide StateAfter, Recalls, Finishes, LastSeen;
    var g := h + [Look(ts, false)];
    assert g[|h|].time == ts && forall i :: 0 <= i < |h| ==> g[i] == h[i];
    assert Growing(h, window);
    StateRemembers(h, window);
    if |h| == 0 {
      NoneFinishes(ts, LastValid(ts, window));
    } else {
      assert g[|h| - 1].time < g[|h|].time;
      if LastSeen(h).Some? { SeenBefore(h, window); }
      if h[|h| - 1].seen { SeenSince(h, window, |h| - 1); }
      RecallEnd(StateAfter(h, window), LastSeen(h), h[|h| - 1].time, ts, window);
    }
  }

  lemma NoneFinishes(ts: nat, lv: nat)
    ensures !Finishes(None, ts, lv)
  {
  }

  lemma RecallEnd(e: Entry, last: Option<nat>, prev: nat, ts: nat, window: nat)
    requires Recalls(e, last, prev, window) && (last.Some? ==> last.value <= prev) && prev < ts < 0x1_0000_0000
    requires window <= ts
    ensures Finishes(e, ts, LastValid(ts, window)) <==> last == Some(prev) && ts <= prev + window
  {
    assert LastValid(ts, window) == ts - window;
  }

  ghost predicate Alternates(c: seq<Note>) {
    forall i :: 0 <= i < |c| ==> (if i % 2 == 0 then c[i].cat.New? || c[i].cat.NewRec? else c[i].cat.Finished?)
  }

  /** A view that shows the case after one that did not, or the other way round. */
  ghost predicate Turns(h: seq<Look>, k: nat)
    requires k < |h|
  {
    h[k].seen != (k > 0 && h[k - 1].seen)
  }

  ghost predicate NotedAt(c: seq<Note>, ts: nat, seen: bool) {
    exists i :: 0 <= i < |c| && c[i].time == ts && (c[i].cat.Finished? <==> !seen)
  }

  ghost predicate AtTurn(h: seq<Look>, ts: nat) { exists k :: 0 <= k < |h| && Turns(h, k) && h[k].time == ts }

  /** The log has a line for each turn, with that view's time, and no other lines. */
  ghost predicate NotesTurns(c: seq<Note>, h: seq<Look>) {
    && (forall k :: 0 <= k < |h| ==> (NotedAt(c, h[k].time, h[k].seen) <==> Turns(h, k)))
    && (forall x | x in c :: AtTurn(h, x.time))
    && forall i, j :: 0 <= i < j < |c| ==> c[i].time < c[j].time
  }

  /** The log of a case strictly alternates beginnings and ends; they are the views where it turns up
      or goes missing, in order. */
  lemma {:induction false} LogAlternates(h: seq<Look>, window: nat)
    requires Paced(h, window)
    ensures Alternates(Lines(h, window)) && (|Lines(h, window)| % 2 == 1 <==> |h| > 0 && h[|h| - 1].seen)
    ensures NotesTurns(Lines(h, window), h)
  {
    hide Line, Finishes, AddCat, Paced, NotesTurns;
    PacedPrefix(h, window);
    if |h| == 0 {
      assert NotesTurns([], h) by { NoTurns(h); }
    } else {
      var n := |h| - 1;
      var g := h[..n];
      LogAlternates(g, window);
      assert h == g + [h[n]];
      var lv := LastValid(h[n].time, window);
      PacedEnd(h, window);
      if h[n].seen { CategoryFromHistory(g, h[n].time, window); } else { FinishedFromHistory(g, h[n].time, window); }
      var before := n > 0 && g[n - 1].seen;
      AlternatesOn(Lines(g, window), StateAfter(g, window), h[n].seen, h[n].time, lv, before);
      LineIsTurn(StateAfter(g, window), h[n].seen, h[n].time, lv, before);
      TurnsOn(Lines(g, window), h, window, Line(StateAfter(g, window), h[n].seen, h[n].time, lv));
    }
  }

  lemma NoTurns(h: seq<Look>)
    requires |h| == 0
    ensures NotesTurns([], h)
  {
  }

  ghost predicate OneLine(more: seq<Note>, seen: bool, ts: nat, before: bool) {
    && (more == [] <==> seen == before) && |more| <= 1
    && forall x | x in more :: x.time == ts && (x.cat.Finished? <==> !seen)
  }

  lemma LineIsTurn(e: Entry, seen: bool, ts: nat, lv: nat, before: bool)
    requires seen ==> (AddCat(e, lv).Ongoing? <==> before) && !AddCat(e, lv).Finished?
    requires !seen ==> (Finishes(e, ts, lv) <==> before)
    ensures OneLine(Line(e, seen, ts, lv), seen, ts, before)
  {
  }

  lemma TurnsOn(c: seq<Note>, h: seq<Look>, window: nat, more: seq<Note>)
    requires |h| > 0 && Growing(h, window) && NotesTurns(c, h[..|h| - 1])
    requires OneLine(more, h[|h| - 1].seen, h[|h| - 1].time, |h| > 1 && h[|h| - 2].seen)
    ensures NotesTurns(c + more, h)
  {
    hide Growing, NotedAt, AtTurn;
    var n, d := |h| - 1, c + more;
    forall x | x in c ensures x.time < h[n].time && AtTurn(h, x.time) { TurnStill(h, window, x.time); }
    if more != [] { TurnLast(more, h); }
    forall k | 0 <= k < |h| ensures NotedAt(d, h[k].time, h[k].seen) <==> Turns(h, k) {
      if k < n {
        Later(h, window, k, n);
        assert Turns(h, k) <==> Turns(h[..n], k);
        NotedStill(c, more, h[k].time, h[k].seen);
      } else {
        NotedLast(c, more, h[n].time, h[n].seen);
      }
    }
    forall i, j | 0 <= i < j < |d| ensures d[i].time < d[j].time {
      assert i < |c| && c[i] in c;
      if j >= |c| { assert d[j] in more; }
    }
  }

  lemma TurnStill(h: seq<Look>, window: nat, ts: nat)
    requires |h| > 0 && Growing(h, window) && AtTurn(h[..|h| - 1], ts)
    ensures ts < h[|h| - 1].time && AtTurn(h, ts)
  {
    var n := |h| - 1;
    var k :| 0 <= k < n && Turns(h[..n], k) && h[..n][k].time == ts;
    Later(h, window, k, n);
    assert Turns(h, k);
  }

  lemma TurnLast(more: seq<Note>, h: seq<Look>)
    requires |h| > 0 && more != []
    requires OneLine(more, h[|h| - 1].seen, h[|h| - 1].time, |h| > 1 && h[|h| - 2].seen)
    ensures forall x | x in more :: AtTurn(h, x.time)
  {
    assert Turns(h, |h| - 1);
  }

  lemma NotedLast(c: seq<Note>, more: seq<Note>, ts: nat, seen: bool)
    requires (forall x | x in c :: x.time < ts) && |more| <= 1
    requires forall x | x in more :: x.time == ts && (x.cat.Finished? <==> !seen)
    ensures NotedAt(c + more, ts, seen) <==> more != []
  {
    if more != [] { assert more[0] in more && (c + more)[|c|] == more[0]; }
    assert forall i :: 0 <= i < |c| ==> (c + more)[i] in c;
  }

  lemma NotedStill(c: seq<Note>, more: seq<Note>, ts: nat, seen: bool)
    requires forall x | x in more :: x.time != ts
    ensures NotedAt(c + more, ts, seen) <==> NotedAt(c, ts, seen)
  {
    if i :| 0 <= i < |c| && c[i].time == ts && (c[i].cat.Finished? <==> !seen) { assert (c + more)[i] == c[i]; }
    assert forall i :: |c| <= i < |c + more| ==> (c + more)[i] in more;
  }

  lemma {:induction false} Later(h: seq<Look>, window: nat, i: nat, j: nat)
    requires Growing(h, window) && i < j < |h|
    ensures h[i].time < h[j].time
  {
    if i + 1 < j { Later(h, window, i, j - 1); }
  }

  lemma PacedEnd(h: seq<Look>, window: nat)
    requires Paced(h, window) && |h| > 0
    ensures Growing(h, window) && (|h| > 1 ==> h[|h| - 1].time <= h[..|h| - 1][|h| - 2].time + window)
  {
  }

  lemma PacedPrefix(h: seq<Look>, window: nat)
    requires Paced(h, window)
    ensures |h| > 0 ==> Paced(h[..|h| - 1], window)
  {
  }

  lemma AlternatesOn(c: seq<Note>, e: Entry, seen: bool, ts: nat, lv: nat, before: bool)
    requires Alternates(c) && (|c| % 2 == 1 <==> before)
    requires seen ==> (AddCat(e, lv).Ongoing? <==> before) && !AddCat(e, lv).Finished?
    requires !seen ==> (Finishes(e, ts, lv) <==> before)
    ensures Alternates(c + Line(e, seen, ts, lv)) && (|c + Line(e, seen, ts, lv)| % 2 == 1 <==> seen)
  {
  }

  // ---------------------------------------------------------------- where the promise ends

  /** A case that is seen is remembered exactly when the view's time is at least the window:
      before that the subtraction wraps and the case is dropped at once. */
  lemma RememberedIff(e: Entry, ts: nat, window: nat)
    requires 0 < ts < 0x1_0000_0000 && window < 0x1_0000_0000
    ensures Next(e, true, ts, LastValid(ts, window)).Some? <==> window <= ts
  {
  }

  /** So a case seen in two early views in a row is logged as new twice. */
  lemma EarlyViewsFail()
    ensures var h := [Look(5, true)]; CatOf(h, 6, 10) == Ongoing && AddCat(StateAfter(h, 10), LastValid(6, 10)) == New
  {
    var h := [Look(5, true)];
    assert h[..0] == [];
  }

  /** The end of an ongoing case is logged exactly when the gap is no longer than the window. */
  lemma FinishedIff(e: Entry, ts: nat, window: nat)
    requires e.Some? && e.value.start > 0 && e.value.end < ts < 0x1_0000_0000 && window <= ts
    ensures Finishes(e, ts, LastValid(ts, window)) <==> ts - e.value.end <= window
  {
  }

  // ---------------------------------------------------------------- the consumer itself

  type Cases = map<Case, Props>

  function EntryAt(m: Cases, key: Case): Entry { if key in m then Some(m[key]) else None }

  class MoasConsumer {
    const window: nat
    const blacklist: set<Pfx>
    var current: Cases
    var log: seq<Event>
    /** Every view processed so far. */
    ghost var views: seq<ViewIn>

    constructor (window: nat, blacklist: set<Pfx>)
      ensures this.window == window && this.blacklist == blacklist && views == [] && Valid()
    {
      this.window, this.blacklist, current, log, views := window, blacklist, map[], [], [];
    }

    /** Each case is where its own history of sightings has taken it, and so is its log. */
    ghost predicate Valid()
      reads this
    {
      forall k: Case :: EntryAt(current, k) == StateAfter(Looks(views, blacklist, k), window) &&
        Proj(log, k) == Lines(Looks(views, blacklist, k), window)
    }

    method AddMoas(key: Case, ts: nat, lv: nat)
      modifies this`current, this`log
      ensures forall k: Case :: EntryAt(current, k) == if k == key then Some(Added(EntryAt(old(current), k), ts))
              else EntryAt(old(current), k)
      ensures forall k: Case ::
              Proj(log, k) == Proj(old(log), k) + if k == key then Line(EntryAt(old(current), k), true, ts, lv) else []
    {
      var e := EntryAt(current, key);
      var cat := AddCat(e, lv);
      current := current[key := Added(e, ts)];
      if !cat.Ongoing? {
        forall k: Case
          ensures Proj(log + [Event(ts, key, cat)], k) == Proj(log, k) + if key == k then [Note(ts, cat)] else []
        {
          ProjMore(log, Event(ts, key, cat), k);
        }
        log := log + [Event(ts, key, cat)];
      }
    }

    /** Drop cases that have left the window, log the ones that have just ended. */
    method CleanMoas(ts: nat, lv: nat)
      modifies this`current, this`log
      ensures forall k: Case :: EntryAt(current, k) == Cleaned(EntryAt(old(current), k), ts, lv)
      ensures forall k: Case ::
              Proj(log, k) == Proj(old(log), k) + if Finishes(EntryAt(old(current), k), ts, lv)
                then [Note(ts, Finished)] else []
    {
      hide Proj, Cleaned, Finishes;
      ghost var was, lines := current, log;
      var todo := current.Keys;
      CleanNone(was, lines, ts, lv);
      while todo != {}
        invariant todo <= was.Keys && CleanedBut(was, current, lines, log, todo, ts, lv)
        decreases |todo|
      {
        var key :| key in todo;
        StillThere(was, current, lines, log, todo, ts, lv, key);
        ghost var m, l := current, log;
        var p := current[key];
        if p.end < lv {
          current := current - {key};
        } else if p.end < ts && p.start > 0 {
          log := log + [Event(ts, key, Finished)];
          current := current[key := p.(start := 0)];
        }
        CleanOne(was, m, current, lines, l, log, todo, ts, lv, key);
        todo := todo - {key};
      }
    }

    /** Process one view: add what it shows, then clean up. */
    method ProcessView(v: ViewIn)
      requires Valid() && forall a, b :: 0 <= a < b < |v.rows| ==> v.rows[a].0 != v.rows[b].0
      modifies this
      ensures Valid() && views == old(views) + [v]
    {
      hide Proj, Shows, StateAfter, Lines, Looks, Next, Line;
      ApplyView(v);
      forall k: Case
        ensures EntryAt(current, k) == StateAfter(Looks(views + [v], blacklist, k), window)
        ensures Proj(log, k) == Lines(Looks(views + [v], blacklist, k), window)
      {
        OneMoreLook(views, v, blacklist, k);
        LookStep(Looks(views, blacklist, k), Look(v.time, Shows(v, blacklist, |v.rows|, k)), window);
      }
      views := views + [v];
    }

    method ApplyView(v: ViewIn)
      requires forall a, b :: 0 <= a < b < |v.rows| ==> v.rows[a].0 != v.rows[b].0
      modifies this`current, this`log
      ensures var lv := LastValid(v.time, window);
              forall k: Case :: EntryAt(current, k) ==
                Next(EntryAt(old(current), k), Shows(v, blacklist, |v.rows|, k), v.time, lv)
                && Proj(log, k) == Proj(old(log), k) + Line(EntryAt(old(current), k), Shows(v, blacklist, |v.rows|, k),
                  v.time, lv)
    {
      hide Proj, Shows;
      var lv := LastValid(v.time, window);
      var i := 0;
      NothingShown(v, blacklist);
      while i < |v.rows|
        invariant i <= |v.rows|
        invariant forall k: Case ::
                 EntryAt(current, k) == if Shows(v, blacklist, i, k) then Some(Added(EntryAt(old(current), k), v.time))
                   else EntryAt(old(current), k)
        invariant forall k: Case ::
                 Proj(log, k) == Proj(old(log), k) + if Shows(v, blacklist, i, k)
                   then Line(EntryAt(old(current), k), true, v.time, lv) else []
      {
        var pfx := v.rows[i].0;
        if pfx !in blacklist {
          var sig := BuildSignature(v.rows[i].1);
          var s := set x | x in sig;
          DistinctSize(sig);
          if |sig| > 1 {
            RowShows(v, blacklist, i, s);
            AddMoas((pfx, s), v.time, lv);
          } else {
            RowSilent(v, blacklist, i, s);
          }
        } else {
          RowBlack(v, blacklist, i);
        }
        i := i + 1;
      }
      CleanMoas(v.time, lv);
    }
  }

  /** Every case outside `todo` has been cleaned and logged; the others are as they were. */
  ghost predicate CleanedBut(m: Cases, m': Cases, log: seq<Event>, log': seq<Event>, todo: set<Case>, ts: nat,
                             lv: nat) {
    && (forall k: Case :: EntryAt(m', k) == if k in todo then EntryAt(m, k) else Cleaned(EntryAt(m, k), ts, lv))
    && (forall k: Case :: Proj(log', k) == Proj(log, k) + if k !in todo &&
      Finishes(EntryAt(m, k), ts, lv) then [Note(ts, Finished)] else [])
  }

  lemma CleanNone(m: Cases, log: seq<Event>, ts: nat, lv: nat)
    ensures CleanedBut(m, m, log, log, m.Keys, ts, lv)
  {
    hide Proj;
  }

  lemma StillThere(m: Cases, m': Cases, log: seq<Event>, log': seq<Event>, todo: set<Case>, ts: nat, lv: nat, key: Case)
    requires CleanedBut(m, m', log, log', todo, ts, lv) && key in todo && todo <= m.Keys
    ensures key in m' && m'[key] == m[key]
  {
    hide Proj, Cleaned, Finishes;
    assert EntryAt(m', key) == EntryAt(m, key);
  }

  lemma CleanOne(m: Cases, m': Cases, m'': Cases, log: seq<Event>, log': seq<Event>, log'': seq<Event>, todo: set<Case>,
                 ts: nat, lv: nat, key: Case)
    requires CleanedBut(m, m', log, log', todo, ts, lv) && key in todo && key in m && key in m' && m'[key] == m[key]
    requires var p := m[key];
             if p.end < lv then m'' == m' - {key} && log'' == log'
             else if p.end < ts && p.start > 0 then m'' == m'[key := p.(start := 0)] &&
               log'' == log' + [Event(ts, key, Finished)]
             else m'' == m' && log'' == log'
    ensures CleanedBut(m, m'', log, log'', todo - {key}, ts, lv)
  {
    hide Proj;
    forall k: Case
      ensures Proj(log'', k) == Proj(log, k) + if k !in todo - {key} &&
              Finishes(EntryAt(m, k), ts, lv) then [Note(ts, Finished)]
              else []
    {
      assert Proj(log', k) == Proj(log, k) + if k !in todo && Finishes(EntryAt(m, k), ts, lv) then [Note(ts, Finished)]
        else [];
      if log'' != log' { ProjMore(log', Event(ts, key, Finished), k); }
    }
  }

  lemma NothingShown(v: ViewIn, blacklist: set<Pfx>)
    ensures forall k: Case :: !Shows(v, blacklist, 0, k)
  {
  }

  lemma RowShows(v: ViewIn, blacklist: set<Pfx>, i: nat, s: Sig)
    requires i < |v.rows| && (forall a, b :: 0 <= a < b < |v.rows| ==> v.rows[a].0 != v.rows[b].0)
    requires v.rows[i].0 !in blacklist && |s| > 1 && forall x: Asn :: x in s <==> Some(x) in v.rows[i].1
    ensures forall k: Case :: Shows(v, blacklist, i + 1, k) <==> Shows(v, blacklist, i, k) || k == (v.rows[i].0, s)
    ensures !Shows(v, blacklist, i, (v.rows[i].0, s))
  {
    forall k: Case ensures Shows(v, blacklist, i + 1, k) <==> Shows(v, blacklist, i, k) || k == (v.rows[i].0, s) {
      if ShowsAt(v, blacklist, i, k) { assert k.1 == s; }
      if k == (v.rows[i].0, s) { assert ShowsAt(v, blacklist, i, k); }
    }
  }

  lemma RowSilent(v: ViewIn, blacklist: set<Pfx>, i: nat, s: Sig)
    requires i < |v.rows| && |s| <= 1 && forall x: Asn :: x in s <==> Some(x) in v.rows[i].1
    ensures forall k: Case :: Shows(v, blacklist, i + 1, k) <==> Shows(v, blacklist, i, k)
  {
    forall k: Case | k.0 == v.rows[i].0 && |k.1| > 1 ensures !ShowsAt(v, blacklist, i, k) {
      assert k.1 != s;
    }
  }

  lemma RowBlack(v: ViewIn, blacklist: set<Pfx>, i: nat)
    requires i < |v.rows| && v.rows[i].0 in blacklist
    ensures forall k: Case :: Shows(v, blacklist, i + 1, k) <==> Shows(v, blacklist, i, k)
  {
    assert forall k: Case :: !ShowsAt(v, blacklist, i, k);
  }
}
