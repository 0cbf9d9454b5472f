/** The tables of a view as values: what every slot holds, what the cached counters must
    say about the slots, and which states may sit next to each other. */
module ViewState {
  import opened Net
  import opened Khash

  datatype State = Invalid | Inactive | Active {
    function Rank(): nat { match this case Invalid => 0 case Inactive => 1 case Active => 2 }
  }

  /** A state mask; no mask ever hits an invalid field. */
  datatype Mask = Mask(active: bool, inactive: bool) {
    predicate Hits(s: State) { (s.Active? && active) || (s.Inactive? && inactive) }
  }

  const ACTIVE := Mask(true, false)
  const ALL_VALID := Mask(true, true)

  /** A pair of counters, one for the active and one for the inactive fields. */
  datatype Cnt = Cnt(act: nat, ina: nat) {
    predicate None() { act == 0 && ina == 0 }
    function Add(s: State): Cnt {
      match s
      case Invalid => this
      case Inactive => Cnt(act, ina + 1)
      case Active => Cnt(act + 1, ina)
    }
    function Activate(): Cnt requires ina > 0 { Cnt(act + 1, ina - 1) }
    function Deactivate(): Cnt requires act > 0 { Cnt(act - 1, ina + 1) }
    function DropInactive(): Cnt requires ina > 0 { Cnt(act, ina - 1) }
  }

  const ZERO := Cnt(0, 0)

  datatype Both<T> = Both(v4: T, v6: T) {
    function At(v: Ver): T { if v.V4? then v4 else v6 }
    function With(v: Ver, x: T): Both<T> { if v.V4? then Both(x, v6) else Both(v4, x) }
  }

  datatype Cell = Cell(state: State, path: PathId)
  type Cells = seq<Slot<PeerId, Cell>>

  /** A prefix: its state, its row of cells and the cached count of those cells. */
  datatype PfxInfo = PfxInfo(state: State, cells: Cells, cnt: Cnt)
  type PfxTab = seq<Slot<Pfx, PfxInfo>>

  /** A peer: its state and the cached count of its cells, per address family. */
  datatype PeerInfo = PeerInfo(state: State, cnt: Both<Cnt>)
  type PeerTab = seq<Slot<PeerId, PeerInfo>>

  datatype Core = Core(pfxs: Both<PfxTab>, pfxCnt: Both<Cnt>, peers: PeerTab, peerCnt: Cnt)

  const FRESH := Core(Both([], []), Both(ZERO, ZERO), [], ZERO)
  const NO_PFX := PfxInfo(Invalid, [], ZERO)
  const NO_PEER := PeerInfo(Invalid, Both(ZERO, ZERO))

  // ---------------------------------------------------------------- reading states off slots

  function CellSt(s: Slot<PeerId, Cell>): State { if s.Used? then s.val.state else Invalid }
  function PfxSt(s: Slot<Pfx, PfxInfo>): State { if s.Used? then s.val.state else Invalid }
  function PeerSlotSt(s: Slot<PeerId, PeerInfo>): State { if s.Used? then s.val.state else Invalid }
  function KeySt(cells: Cells, k: PeerId): State {
    var j := Get(cells, k); if j < |cells| then cells[j].val.state else Invalid
  }
  function SeenSt(s: Slot<Pfx, PfxInfo>, k: PeerId): State {
    if s.Used? then KeySt(s.val.cells, k) else Invalid
  }
  function PeerSt(peers: PeerTab, k: PeerId): State {
    var p := Get(peers, k); if p < |peers| then peers[p].val.state else Invalid
  }

  function RowSts(cells: Cells): (r: seq<State>)
    ensures |r| == |cells| && forall j :: 0 <= j < |r| ==> r[j] == CellSt(cells[j])
  {
    seq(|cells|, j requires 0 <= j < |cells| => CellSt(cells[j]))
  }
  function PfxSts(tab: PfxTab): (r: seq<State>)
    ensures |r| == |tab| && forall i :: 0 <= i < |r| ==> r[i] == PfxSt(tab[i])
  {
    seq(|tab|, i requires 0 <= i < |tab| => PfxSt(tab[i]))
  }
  function SeenSts(tab: PfxTab, k: PeerId): (r: seq<State>)
    ensures |r| == |tab| && forall i :: 0 <= i < |r| ==> r[i] == SeenSt(tab[i], k)
  {
    seq(|tab|, i requires 0 <= i < |tab| => SeenSt(tab[i], k))
  }
  function PeerSts(peers: PeerTab): (r: seq<State>)
    ensures |r| == |peers| && forall p :: 0 <= p < |r| ==> r[p] == PeerSlotSt(peers[p])
  {
    seq(|peers|, p requires 0 <= p < |peers| => PeerSlotSt(peers[p]))
  }

  // ---------------------------------------------------------------- recounting

  /** The recount that a cached counter stands for. */
  function Tally(s: seq<State>): Cnt {
    if |s| == 0 then ZERO else Tally(s[..|s| - 1]).Add(s[|s| - 1])
  }

  /** Changing one entry moves one unit from the old state's counter to the new one's. */
  lemma {:induction false} TallyUpdate(s: seq<State>, i: nat, x: State)
    requires i < |s|
    ensures Tally(s[i := x]).Add(s[i]) == Tally(s).Add(x)
  {
    var n := |s| - 1;
    if i == n {
      assert s[i := x][..n] == s[..n];
    } else {
      assert s[i := x][..n] == s[..n][i := x];
      TallyUpdate(s[..n], i, x);
    }
  }

  lemma {:induction false} TallyBounds(s: seq<State>)
    ensures Tally(s).act + Tally(s).ina <= |s|
    ensures Tally(s).act > 0 <==> exists i :: 0 <= i < |s| && s[i].Active?
    ensures Tally(s).ina > 0 <==> exists i :: 0 <= i < |s| && s[i].Inactive?
  {
    if |s| > 0 {
      var n := |s| - 1;
      TallyBounds(s[..n]);
      assert forall i :: 0 <= i < n ==> s[..n][i] == s[i];
      if Tally(s[..n]).act > 0 { var i :| 0 <= i < n && s[..n][i].Active?; assert s[i].Active?; }
      if Tally(s[..n]).ina > 0 { var i :| 0 <= i < n && s[..n][i].Inactive?; assert s[i].Inactive?; }
    }
  }

  lemma TallyNone(s: seq<State>)
    requires forall i :: 0 <= i < |s| ==> s[i].Invalid?
    ensures Tally(s) == ZERO
  {
    TallyBounds(s);
  }

  // ---------------------------------------------------------------- the invariant

  function StateOf(c: Cnt): State {
    if c.act > 0 then Active else if c.ina > 0 then Inactive else Invalid
  }

  /** A settled row: cells keyed by distinct peers, the cached count is the recount, and the
      prefix is active, inactive or invalid exactly as its best cell is. */
  ghost predicate RowOk(info: PfxInfo) {
    && Unique(info.cells)
    && info.cnt == Tally(RowSts(info.cells))
    && info.state == StateOf(info.cnt)
  }

  ghost predicate KeysOk(c: Core) {
    && Unique(c.pfxs.v4) && Unique(c.pfxs.v6) && Unique(c.peers)
    && forall v: Ver, i :: 0 <= i < |c.pfxs.At(v)| && c.pfxs.At(v)[i].Used? ==> c.pfxs.At(v)[i].key.Ver() == v
  }
  ghost predicate RowsOk(c: Core) {
    forall v: Ver, i :: 0 <= i < |c.pfxs.At(v)| && c.pfxs.At(v)[i].Used? ==> RowOk(c.pfxs.At(v)[i].val)
  }
  ghost predicate PfxsCounted(c: Core) {
    forall v: Ver :: c.pfxCnt.At(v) == Tally(PfxSts(c.pfxs.At(v)))
  }
  ghost predicate PeersCounted(c: Core) {
    c.peerCnt == Tally(PeerSts(c.peers))
  }
  ghost predicate SeenCounted(c: Core) {
    forall v: Ver, p :: 0 <= p < |c.peers| && c.peers[p].Used? ==>
      c.peers[p].val.cnt.At(v) == Tally(SeenSts(c.pfxs.At(v), c.peers[p].key))
  }
  /** A cell is never livelier than its peer. */
  ghost predicate RowBacked(cells: Cells, peers: PeerTab) {
    forall j :: 0 <= j < |cells| && cells[j].Used? ==>
      cells[j].val.state.Rank() <= PeerSt(peers, cells[j].key).Rank()
  }
  ghost predicate CellsBacked(c: Core) {
    forall v: Ver, i :: 0 <= i < |c.pfxs.At(v)| && c.pfxs.At(v)[i].Used? ==>
      RowBacked(c.pfxs.At(v)[i].val.cells, c.peers)
  }

  ghost predicate Inv(c: Core) {
    && KeysOk(c) && RowsOk(c) && PfxsCounted(c) && PeersCounted(c) && SeenCounted(c) && CellsBacked(c)
  }

  // ---------------------------------------------------------------- the abstract view

  /** What a reader of the view sees of a cell; an invalid cell is as good as none. */
  function CellAt(c: Core, pfx: Pfx, k: PeerId): Cell {
    var tab := c.pfxs.At(pfx.Ver());
    var i := Get(tab, pfx);
    if i == |tab| then Cell(Invalid, 0) else
    var cells := tab[i].val.cells;
    var j := Get(cells, k);
    if j == |cells| || cells[j].val.state.Invalid? then Cell(Invalid, 0) else cells[j].val
  }

  /** Two views that no reader can tell apart. */
  ghost predicate SameView(c: Core, d: Core) {
    && (forall pfx: Pfx, k: PeerId :: CellAt(c, pfx, k) == CellAt(d, pfx, k))
    && (forall k: PeerId :: PeerSt(c.peers, k) == PeerSt(d.peers, k))
  }
}
