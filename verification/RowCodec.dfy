/** The prefix-row format: the bytes of one row, of a message of rows, and the parser that
    undoes them. A row carries no length; the parser finds its end by itself. */
module RowCodec {
  import opened Net

  type Id16 = x: int | 0 <= x < 0x10000

  /** A path as it travels: whether it is a core path, and its segment data. */
  datatype StorePath = StorePath(core: byte, data: seq<byte>) {
    predicate Ok() { |data| < 0x10000 }
  }

  const NO_PATH := StorePath(0, [])

  datatype Op = Sync | Update | Remove {
    function Code(): byte { match this case Sync => 83 case Update => 85 case Remove => 82 }
  }

  /** One cell of a row; a removal carries no path. */
  datatype WireCell = WireCell(peer: PeerId, path: StorePath)
  datatype PfxRow = PfxRow(op: Op, pfx: Pfx, cells: seq<WireCell>)

  const END_OF_PEERS: Id16 := 0xffff
  /** The parser looks at no more peer identifiers than this. */
  const MAX_READS: nat := 0xffff

  // ---------------------------------------------------------------- printing

  function Big16(x: Id16): seq<byte> { [x / 256, x % 256] }
  function Little16(x: Id16): seq<byte> { [x % 256, x / 256] }

  function IpBytes(ip: Ip): seq<byte> { [if ip.ver.V4? then 4 else 6] + ip.bytes }
  function PfxBytes(p: Pfx): seq<byte> { IpBytes(p.addr) + [p.len] }
  function PathBytes(p: StorePath): seq<byte>
    requires p.Ok()
  {
    [p.core] + Little16(|p.data|) + p.data
  }

  function CellBytes(op: Op, x: WireCell): seq<byte>
    requires x.path.Ok()
  {
    Big16(x.peer) + if op.Remove? then [] else PathBytes(x.path)
  }

  predicate CellFits(op: Op, x: WireCell) {
    x.path.Ok() && x.peer < END_OF_PEERS && (op.Remove? ==> x.path == NO_PATH)
  }

  predicate CellsFit(op: Op, cells: seq<WireCell>) { forall j :: 0 <= j < |cells| ==> CellFits(op, cells[j]) }

  function CellsBytes(op: Op, cells: seq<WireCell>): seq<byte>
    requires CellsFit(op, cells)
  {
    if |cells| == 0 then [] else CellBytes(op, cells[0]) + CellsBytes(op, cells[1..])
  }

  /** What the format can carry. */
  predicate Fits(r: PfxRow) {
    && r.pfx.addr.Ok() && CellsFit(r.op, r.cells) && |r.cells| < MAX_READS
  }

  function TailBytes(n: Id16): seq<byte> { Big16(END_OF_PEERS) + Big16(n) }

  /** The row without its leading operation byte. */
  function BodyBytes(r: PfxRow): seq<byte>
    requires Fits(r)
  {
    PfxBytes(r.pfx) + CellsBytes(r.op, r.cells) + TailBytes(|r.cells|)
  }

  function RowBytes(r: PfxRow): seq<byte>
    requires Fits(r)
  {
    [r.op.Code()] + BodyBytes(r)
  }

  /** The number of bytes of a row, whether or not it fits the format. */
  function Size(r: PfxRow): nat { 1 + |PfxBytes(r.pfx)| + CellsSize(r.op, r.cells) + 4 }

  function CellsSize(op: Op, cells: seq<WireCell>): nat {
    if |cells| == 0 then 0 else 2 + (if op.Remove? then 0 else 3 + |cells[0].path.data|) + CellsSize(op, cells[1..])
  }

  lemma {:induction false} CellsSizeIs(op: Op, cells: seq<WireCell>)
    requires CellsFit(op, cells)
    ensures CellsSize(op, cells) == |CellsBytes(op, cells)|
  {
    if |cells| > 0 { CellsSizeIs(op, cells[1..]); }
  }

  lemma SizeIs(r: PfxRow)
    requires Fits(r)
    ensures Size(r) == |RowBytes(r)|
  {
    CellsSizeIs(r.op, r.cells);
  }

  predicate AllFit(rs: seq<PfxRow>) { forall i :: 0 <= i < |rs| ==> Fits(rs[i]) }

  function MsgBytes(rs: seq<PfxRow>): seq<byte>
    requires AllFit(rs)
  {
    if |rs| == 0 then [] else RowBytes(rs[0]) + MsgBytes(rs[1..])
  }

  // ---------------------------------------------------------------- parsing

  /** A value and the number of bytes it took. */
  datatype Parsed<+T> = Bad | Got(value: T, used: nat)

  function GetBig16(s: seq<byte>): Parsed<Id16> {
    if |s| < 2 then Bad else Got(s[0] as int * 256 + s[1] as int, 2)
  }

  function GetIp(s: seq<byte>): Parsed<Ip> {
    if |s| >= 5 && s[0] == 4 then Got(Ip(V4, s[1..5]), 5)
    else if |s| >= 17 && s[0] == 6 then Got(Ip(V6, s[1..17]), 17)
    else Bad
  }

  function GetPfx(s: seq<byte>): (r: Parsed<Pfx>)
    ensures r.Got? ==> 0 < r.used <= |s|
  {
    match GetIp(s)
    case Bad => Bad
    case Got(ip, n) => if n < |s| then Got(Pfx(ip, s[n]), n + 1) else Bad
  }

  function GetPath(s: seq<byte>): (r: Parsed<StorePath>)
    ensures r.Got? ==> r.used <= |s| && r.value.Ok()
  {
    if |s| < 3 then Bad else
    var n: nat := s[1] as int + s[2] as int * 256;
    if |s| < 3 + n then Bad else Got(StorePath(s[0], s[3..3 + n]), 3 + n)
  }

  function GetCellPath(op: Op, s: seq<byte>): (r: Parsed<StorePath>)
    ensures r.Got? ==> r.used <= |s| && r.value.Ok()
  {
    if op.Remove? then Got(NO_PATH, 0) else GetPath(s)
  }

  /** The cells of a row, reading at most `left` peer identifiers. */
  function GetCells(op: Op, s: seq<byte>, left: nat): (r: Parsed<seq<WireCell>>)
    ensures r.Got? ==> r.used <= |s| && |r.value| <= left
    decreases left
  {
    if left == 0 then Got([], 0) else
    match GetBig16(s)
    case Bad => Bad
    case Got(id, _) =>
      if id == END_OF_PEERS then Got([], 2) else if id == 0 then Bad else
      match GetCellPath(op, s[2..])
      case Bad => Bad
      case Got(path, m) =>
        match GetCells(op, s[2 + m..], left - 1)
        case Bad => Bad
        case Got(cells, n) => Got([WireCell(id, path)] + cells, 2 + m + n)
  }

  function GetRow(op: Op, s: seq<byte>): (r: Parsed<PfxRow>)
    ensures r.Got? ==> 0 < r.used <= |s|
  {
    match GetPfx(s)
    case Bad => Bad
    case Got(pfx, a) =>
      match GetCells(op, s[a..], MAX_READS)
      case Bad => Bad
      case Got(cells, b) =>
        match GetBig16(s[a + b..])
        case Bad => Bad
        case Got(cnt, _) => if cnt == |cells| then Got(PfxRow(op, pfx, cells), a + b + 2) else Bad
  }

  function GetOp(b: byte): Option<Op> {
    if b == 83 then Some(Sync) else if b == 85 then Some(Update) else if b == 82 then Some(Remove) else None
  }

  /** The rows of a message whose current operation byte has been read. */
  function GetRows(code: byte, s: seq<byte>): Option<seq<PfxRow>>
    decreases |s|
  {
    if |s| == 0 then Some([]) else
    match GetOp(code)
    case None => None
    case Some(op) =>
      match GetRow(op, s)
      case Bad => None
      case Got(row, n) =>
        if n == |s| then Some([row]) else
        match GetRows(s[n], s[n + 1..])
        case None => None
        case Some(rows) => Some([row] + rows)
  }

  function GetMsg(s: seq<byte>): Option<seq<PfxRow>> {
    if |s| == 0 then None else GetRows(s[0], s[1..])
  }

  // ---------------------------------------------------------------- parsing undoes printing

  lemma PfxRound(p: Pfx, rest: seq<byte>)
    requires p.addr.Ok()
    ensures GetPfx(PfxBytes(p) + rest) == Got(p, |PfxBytes(p)|)
  {
    var s := PfxBytes(p) + rest;
    assert s[1..1 + p.addr.ver.Bytes()] == p.addr.bytes;
  }

  lemma PathRound(p: StorePath, rest: seq<byte>)
    requires p.Ok()
    ensures GetPath(PathBytes(p) + rest) == Got(p, |PathBytes(p)|)
  {
    var s := PathBytes(p) + rest;
    assert s[1] as int + s[2] as int * 256 == |p.data|;
    assert s[3..3 + |p.data|] == p.data;
  }

  lemma CellRound(op: Op, x: WireCell, rest: seq<byte>)
    requires CellFits(op, x)
    ensures var s := CellBytes(op, x) + rest;
            && GetBig16(s) == Got(x.peer, 2) && x.peer != END_OF_PEERS
            && GetCellPath(op, s[2..]) == Got(x.path, |CellBytes(op, x)| - 2)
            && s[|CellBytes(op, x)|..] == rest
  {
    var s := CellBytes(op, x) + rest;
    if !op.Remove? {
      assert s[2..] == PathBytes(x.path) + rest;
      PathRound(x.path, rest);
    }
  }

  lemma EndMark(n: Id16, rest: seq<byte>)
    ensures GetBig16(TailBytes(n) + rest) == Got(END_OF_PEERS, 2) && (TailBytes(n) + rest)[2..] == Big16(n) + rest
    ensures GetBig16(Big16(n) + rest) == Got(n, 2)
  {
  }

  /** The parser stops at the end mark, however the bytes go on. */
  lemma {:induction false} CellsRound(op: Op, cells: seq<WireCell>, n: Id16, rest: seq<byte>, left: nat)
    requires CellsFit(op, cells) && |cells| < left
    ensures GetCells(op, CellsBytes(op, cells) + TailBytes(n) + rest, left) == Got(cells, |CellsBytes(op, cells)| + 2)
    decreases |cells|
  {
    hide CellBytes, TailBytes, GetCells;
    var s := CellsBytes(op, cells) + TailBytes(n) + rest;
    if |cells| == 0 {
      assert s == TailBytes(n) + rest;
      NoCells(op, n, rest, left);
    } else {
      var tail := CellsBytes(op, cells[1..]) + TailBytes(n) + rest;
      assert s == CellBytes(op, cells[0]) + tail;
      CellsRound(op, cells[1..], n, rest, left - 1);
      OneCell(op, cells[0], tail, left, cells[1..], |CellsBytes(op, cells[1..])| + 2);
      assert [cells[0]] + cells[1..] == cells;
    }
  }

  lemma NoCells(op: Op, n: Id16, rest: seq<byte>, left: nat)
    requires left > 0
    ensures GetCells(op, TailBytes(n) + rest, left) == Got([], 2)
  {
    hide TailBytes, GetBig16;
    EndMark(n, rest);
  }

  /** A cell in front of cells that parse parses with them. */
  lemma OneCell(op: Op, x: WireCell, tail: seq<byte>, left: nat, cells: seq<WireCell>, used: nat)
    requires CellFits(op, x) && left > 0 && GetCells(op, tail, left - 1) == Got(cells, used)
    ensures GetCells(op, CellBytes(op, x) + tail, left) == Got([x] + cells, |CellBytes(op, x)| + used)
  {
    hide CellBytes, GetCellPath, GetBig16;
    CellRound(op, x, tail);
    var s, m := CellBytes(op, x) + tail, |CellBytes(op, x)| - 2;
    assert s[2 + m..] == tail;
  }

  /** A row parses back to itself and to nothing more than its own bytes. */
  lemma RowRound(r: PfxRow, rest: seq<byte>)
    requires Fits(r)
    ensures GetRow(r.op, BodyBytes(r) + rest) == Got(r, |BodyBytes(r)|)
  {
    hide CellsBytes, TailBytes, PfxBytes, GetPfx, GetCells, GetBig16, CellsFit;
    var s := BodyBytes(r) + rest;
    var a, cs := |PfxBytes(r.pfx)|, CellsBytes(r.op, r.cells);
    assert s == PfxBytes(r.pfx) + (cs + TailBytes(|r.cells|) + rest);
    PfxRound(r.pfx, cs + TailBytes(|r.cells|) + rest);
    assert s[a..] == cs + TailBytes(|r.cells|) + rest;
    CellsRound(r.op, r.cells, |r.cells|, rest, MAX_READS);
    EndMark(|r.cells|, rest);
    assert s[a + |cs|..] == TailBytes(|r.cells|) + rest;
    assert s[a + |cs| + 2..] == Big16(|r.cells|) + rest;
  }

  lemma {:induction false} RowsRound(rs: seq<PfxRow>)
    requires AllFit(rs) && |rs| > 0
    ensures GetMsg(MsgBytes(rs)) == Some(rs)
  {
    hide BodyBytes, GetRow, Fits;
    var s := MsgBytes(rs);
    var rest := MsgBytes(rs[1..]);
    assert s[1..] == BodyBytes(rs[0]) + rest;
    RowRound(rs[0], rest);
    if |rs| > 1 {
      RowsRound(rs[1..]);
      assert s[1..][|BodyBytes(rs[0])|..] == rest;
      assert rs == [rs[0]] + rs[1..];
    } else {
      assert rest == [] && rs == [rs[0]];
    }
  }

  /** One read fewer than cells and end mark need, and the parser stops short of the mark. */
  lemma {:induction false} OneReadShort(op: Op, cells: seq<WireCell>, n: Id16, rest: seq<byte>)
    requires CellsFit(op, cells)
    ensures GetCells(op, CellsBytes(op, cells) + TailBytes(n) + rest, |cells|) == Got(cells, |CellsBytes(op, cells)|)
    decreases |cells|
  {
    hide CellBytes, TailBytes, GetCells;
    if |cells| > 0 {
      var tail := CellsBytes(op, cells[1..]) + TailBytes(n) + rest;
      assert CellsBytes(op, cells) + TailBytes(n) + rest == CellBytes(op, cells[0]) + tail;
      OneReadShort(op, cells[1..], n, rest);
      OneCell(op, cells[0], tail, |cells|, cells[1..], |CellsBytes(op, cells[1..])|);
      assert [cells[0]] + cells[1..] == cells;
    } else {
      NoReads(op, CellsBytes(op, cells) + TailBytes(n) + rest);
    }
  }

  lemma NoReads(op: Op, s: seq<byte>)
    ensures GetCells(op, s, 0) == Got([], 0)
  {
  }

  ghost predicate DistinctPeers(cells: seq<WireCell>) {
    forall i, j :: 0 <= i < j < |cells| ==> cells[i].peer != cells[j].peer
  }

  ghost function IdsUpTo(n: nat): (r: set<PeerId>)
    requires n < END_OF_PEERS
    ensures |r| == n && forall k: PeerId :: k in r <==> k <= n
  {
    if n == 0 then {} else IdsUpTo(n - 1) + {n}
  }

  lemma {:induction false} FewPeers(cells: seq<WireCell>, some: set<PeerId>)
    requires DistinctPeers(cells) && forall j :: 0 <= j < |cells| ==> cells[j].peer in some
    ensures |cells| <= |some|
  {
    if |cells| > 0 {
      var n := |cells| - 1;
      FewPeers(cells[..n], some - {cells[n].peer});
    }
  }

  /** Every row of distinct peers 1..65534 fits: the bound on reads is just enough. */
  lemma DistinctRowFits(r: PfxRow)
    requires r.pfx.addr.Ok() && CellsFit(r.op, r.cells) && DistinctPeers(r.cells)
    ensures Fits(r)
  {
    FewPeers(r.cells, IdsUpTo(END_OF_PEERS - 1));
  }

  // ---------------------------------------------------------------- byte by byte

  /** The bytes begin with the cell: the peer in network order and then, unless it is a removal,
      whether the path is a core path, its length with the low byte first, and its data. */
  ghost predicate CellLies(s: seq<byte>, op: Op, x: WireCell) {
    && 2 <= |s| && s[0] as int * 256 + s[1] as int == x.peer
    && (op.Remove? ||
        (&& 5 + |x.path.data| <= |s| && s[2] == x.path.core
         && s[3] as int + 256 * s[4] as int == |x.path.data|
         && s[5..5 + |x.path.data|] == x.path.data))
  }

  /** The bytes are the cells, one after the other, and then `rest`. */
  ghost predicate CellsLie(s: seq<byte>, op: Op, cells: seq<WireCell>, rest: seq<byte>) {
    if |cells| == 0 then s == rest
    else CellLies(s, op, cells[0]) &&
         CellsLie(s[if op.Remove? then 2 else 5 + |cells[0].path.data|..], op, cells[1..], rest)
  }

  lemma {:induction false} CellsLayout(op: Op, cells: seq<WireCell>, rest: seq<byte>)
    requires CellsFit(op, cells)
    ensures CellsLie(CellsBytes(op, cells) + rest, op, cells, rest)
    decreases |cells|
  {
    hide CellLies, CellBytes;
    if |cells| == 0 {
      assert CellsBytes(op, cells) + rest == rest;
    } else {
      var b, tail := CellBytes(op, cells[0]), CellsBytes(op, cells[1..]) + rest;
      assert CellsBytes(op, cells) + rest == b + tail;
      CellLayout(op, cells[0], tail);
      CellsLayout(op, cells[1..], rest);
    }
  }

  lemma CellLayout(op: Op, x: WireCell, tail: seq<byte>)
    requires CellFits(op, x)
    ensures var s, n := CellBytes(op, x) + tail, if op.Remove? then 2 else 5 + |x.path.data|;
            CellLies(s, op, x) && |CellBytes(op, x)| == n && s[n..] == tail
  {
    if !op.Remove? {
      assert (CellBytes(op, x) + tail)[5..5 + |x.path.data|] == x.path.data;
    }
  }

  /** A row on the wire: its letter, the version and the bytes of the address, the prefix length, the
      cells, two bytes 0xff, and the number of cells in network order. */
  lemma RowLayout(r: PfxRow)
    requires Fits(r)
    ensures var s, n := RowBytes(r), r.pfx.addr.ver.Bytes();
            && |s| >= n + 7 && n == (if r.pfx.addr.ver.V4? then 4 else 16)
            && s[0] == (match r.op case Sync => 'S' as int case Update => 'U' as int case Remove => 'R' as int)
            && s[1] == (if r.pfx.addr.ver.V4? then 4 else 6) && s[2..n + 2] == r.pfx.addr.bytes && s[n + 2] == r.pfx.len
            && CellsLie(s[n + 3..], r.op, r.cells, [0xff, 0xff, |r.cells| / 256, |r.cells| % 256])
  {
    hide CellsBytes, CellsLie, CellsFit;
    var s, n, cs := RowBytes(r), r.pfx.addr.ver.Bytes(), CellsBytes(r.op, r.cells);
    assert s[2..n + 2] == r.pfx.addr.bytes;
    assert s[n + 3..] == cs + [0xff, 0xff, |r.cells| / 256, |r.cells| % 256];
    CellsLayout(r.op, r.cells, [0xff, 0xff, |r.cells| / 256, |r.cells| % 256]);
  }

  // ---------------------------------------------------------------- any split into messages

  function Flat<T>(gs: seq<seq<T>>): seq<T> {
    if |gs| == 0 then [] else Flat(gs[..|gs| - 1]) + gs[|gs| - 1]
  }

  /** Parse message after message; one bad message spoils the lot. */
  function GetAll(ms: seq<seq<byte>>): Option<seq<PfxRow>> {
    if |ms| == 0 then Some([]) else
    match GetAll(ms[..|ms| - 1])
    case None => None
    case Some(rows) =>
      match GetMsg(ms[|ms| - 1])
      case None => None
      case Some(more) => Some(rows + more)
  }

  /** However rows are grouped into messages, the receiver left the same rows. */
  lemma {:induction false} SplitRound(gs: seq<seq<PfxRow>>)
    requires forall i :: 0 <= i < |gs| ==> AllFit(gs[i]) && |gs[i]| > 0
    ensures GetAll(seq(|gs|, i requires 0 <= i < |gs| => MsgBytes(gs[i]))) == Some(Flat(gs))
  {
    if |gs| > 0 {
      var n := |gs| - 1;
      SplitRound(gs[..n]);
      var ms := seq(|gs|, i requires 0 <= i < |gs| => MsgBytes(gs[i]));
      assert ms[..n] == seq(n, i requires 0 <= i < n => MsgBytes(gs[..n][i]));
      RowsRound(gs[n]);
    }
  }

  // ---------------------------------------------------------------- parsing in a loop

  /** The parse of the whole, when `xs` have been read from `used` bytes and the rest parses to `r`. */
  ghost function Onto<T>(xs: seq<T>, used: nat, r: Parsed<seq<T>>): Parsed<seq<T>> {
    if r.Bad? then Bad else Got(xs + r.value, used + r.used)
  }

  lemma OntoOne<T>(xs: seq<T>, used: nat, x: T, n: nat, r: Parsed<seq<T>>)
    ensures Onto(xs, used, if r.Bad? then Bad else Got([x] + r.value, n + r.used)) == Onto(xs + [x], used + n, r)
  {
    if r.Got? { assert xs + ([x] + r.value) == xs + [x] + r.value; }
  }

  lemma OntoNothing<T>(r: Parsed<seq<T>>)
    ensures Onto([], 0, r) == r
  {
    if r.Got? { assert [] + r.value == r.value; }
  }

  lemma OntoEnd<T>(xs: seq<T>, used: nat, n: nat)
    ensures Onto(xs, used, Bad) == Bad && Onto(xs, used, Got([], n)) == Got(xs, used + n)
  {
    assert xs + [] == xs;
  }
}
