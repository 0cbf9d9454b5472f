/** The serializers and the parser as they run: bytes written into a buffer through a moving
    offset, and a message read from front to back. */
module RowBuffer {
  import opened Net
  import opened RowCodec

  /** The buffer with `s` laid over it at offset `at`. */
  ghost function Patched(b: seq<byte>, at: nat, s: seq<byte>): seq<byte>
    requires at + |s| <= |b|
  {
    b[..at] + s + b[at + |s|..]
  }

  lemma PatchOn(b: seq<byte>, at: nat, s: seq<byte>, t: seq<byte>)
    requires at + |s| + |t| <= |b|
    ensures Patched(Patched(b, at, s), at + |s|, t) == Patched(b, at, s + t)
  {
  }

  method CopyBytes(buf: array<byte>, at: nat, s: seq<byte>)
    requires at + |s| <= buf.Length
    modifies buf
    ensures buf[..] == Patched(old(buf[..]), at, s)
  {
    for i := 0 to |s|
      invariant forall k :: 0 <= k < buf.Length ==> buf[k] == if at <= k < at + i then s[k - at] else old(buf[k])
    {
      buf[at + i] := s[i];
    }
    assert buf[..] == Patched(old(buf[..]), at, s);
  }

  method SerializePfx(buf: array<byte>, at: nat, p: Pfx) returns (w: nat)
    requires p.addr.Ok() && at + |PfxBytes(p)| <= buf.Length
    modifies buf
    ensures w == |PfxBytes(p)| && buf[..] == Patched(old(buf[..]), at, PfxBytes(p))
  {
    ghost var b := buf[..];
    var version: seq<byte> := [if p.addr.ver.V4? then 4 else 6];
    CopyBytes(buf, at, version);
    w := 1;
    CopyBytes(buf, at + w, p.addr.bytes);
    PatchOn(b, at, version, p.addr.bytes);
    w := w + |p.addr.bytes|;
    CopyBytes(buf, at + w, [p.len]);
    PatchOn(b, at, version + p.addr.bytes, [p.len]);
    w := w + 1;
  }

  method SerializePath(buf: array<byte>, at: nat, p: StorePath) returns (w: nat)
    requires p.Ok() && at + |PathBytes(p)| <= buf.Length
    modifies buf
    ensures w == |PathBytes(p)| && buf[..] == Patched(old(buf[..]), at, PathBytes(p))
  {
    hide Patched;
    ghost var b := buf[..];
    var head := [p.core] + Little16(|p.data|);
    CopyBytes(buf, at, head);
    CopyBytes(buf, at + 3, p.data);
    PatchOn(b, at, head, p.data);
    w := 3 + |p.data|;
  }

  method SerializeCell(buf: array<byte>, at: nat, op: Op, x: WireCell) returns (w: nat)
    requires CellFits(op, x) && at + |CellBytes(op, x)| <= buf.Length
    modifies buf
    ensures w == |CellBytes(op, x)| && buf[..] == Patched(old(buf[..]), at, CellBytes(op, x))
  {
    hide Patched;
    ghost var b := buf[..];
    var id := Big16(x.peer);
    CopyBytes(buf, at, id);
    w := 2;
    if !op.Remove? {
      var n := SerializePath(buf, at + w, x.path);
      PatchOn(b, at, id, PathBytes(x.path));
      w := w + n;
    } else {
      assert CellBytes(op, x) == id;
    }
  }

  lemma {:induction false} CellsSnoc(op: Op, cells: seq<WireCell>, x: WireCell)
    requires CellsFit(op, cells) && CellFits(op, x)
    ensures CellsFit(op, cells + [x]) && CellsBytes(op, cells + [x]) == CellsBytes(op, cells) + CellBytes(op, x)
  {
    hide CellBytes;
    if |cells| > 0 {
      assert (cells + [x])[1..] == cells[1..] + [x];
      CellsSnoc(op, cells[1..], x);
    }
  }

  lemma {:induction false} CellsPrefix(op: Op, cells: seq<WireCell>, j: nat)
    requires CellsFit(op, cells) && j <= |cells|
    ensures |CellsBytes(op, cells[..j])| <= |CellsBytes(op, cells)|
    decreases |cells| - j
  {
    hide CellBytes, CellsBytes, CellFits;
    if j < |cells| {
      CellsSnoc(op, cells[..j], cells[j]);
      assert cells[..j] + [cells[j]] == cells[..j + 1];
      CellsPrefix(op, cells, j + 1);
    } else {
      assert cells[..j] == cells;
    }
  }

  /** Write one row, its operation byte first. */
  method SerializeRow(buf: array<byte>, at: nat, r: PfxRow) returns (w: nat)
    requires Fits(r) && at + |RowBytes(r)| <= buf.Length
    modifies buf
    ensures w == |RowBytes(r)| && buf[..] == Patched(old(buf[..]), at, RowBytes(r))
  {
    hide CellBytes, PfxBytes, Patched;
    ghost var b, head := buf[..], [r.op.Code()] + PfxBytes(r.pfx);
    assert |RowBytes(r)| == |head| + |CellsBytes(r.op, r.cells)| + 4;
    CopyBytes(buf, at, [r.op.Code()]);
    w := SerializePfx(buf, at + 1, r.pfx);
    PatchOn(b, at, [r.op.Code()], PfxBytes(r.pfx));
    w := w + 1;
    var j := 0;
    assert r.cells[..0] == [] && head + CellsBytes(r.op, []) == head;
    while j < |r.cells|
      invariant j <= |r.cells| && w == |head| + |CellsBytes(r.op, r.cells[..j])|
      invariant |CellsBytes(r.op, r.cells[..j])| <= |CellsBytes(r.op, r.cells)|
      invariant buf[..] == Patched(b, at, head + CellsBytes(r.op, r.cells[..j]))
    {
      ghost var done := CellsBytes(r.op, r.cells[..j]);
      CellsSnoc(r.op, r.cells[..j], r.cells[j]);
      assert r.cells[..j] + [r.cells[j]] == r.cells[..j + 1];
      CellsPrefix(r.op, r.cells, j + 1);
      var n := SerializeCell(buf, at + w, r.op, r.cells[j]);
      PatchOn(b, at, head + done, CellBytes(r.op, r.cells[j]));
      assert head + done + CellBytes(r.op, r.cells[j]) == head + CellsBytes(r.op, r.cells[..j + 1]);
      w, j := w + n, j + 1;
    }
    assert r.cells[..j] == r.cells;
    CopyBytes(buf, at + w, TailBytes(|r.cells|));
    PatchOn(b, at, head + CellsBytes(r.op, r.cells), TailBytes(|r.cells|));
    assert RowBytes(r) == head + CellsBytes(r.op, r.cells) + TailBytes(|r.cells|);
    w := w + |TailBytes(|r.cells|)|;
  }

  // ---------------------------------------------------------------- reading

  /** Read one row; a row that is cut short or miscounted is refused. */
  method DeserializeRow(s: seq<byte>, op: Op) returns (r: Parsed<PfxRow>)
    ensures r == GetRow(op, s)
  {
    hide GetPfx, GetCellPath, GetCells, Onto;
    var p := GetPfx(s);
    if p.Bad? {
      return Bad;
    }
    var cells: seq<WireCell>, read, j := [], p.used, 0;
    ghost var body := s[p.used..];
    OntoNothing(GetCells(op, body, MAX_READS));
    while j < MAX_READS
      invariant j <= MAX_READS && p.used <= read <= |s|
      invariant GetCells(op, body, MAX_READS) == Onto(cells, read - p.used, GetCells(op, s[read..], MAX_READS - j))
    {
      CellsStep(op, s[read..], MAX_READS - j);
      var id := GetBig16(s[read..]);
      if id.Bad? {
        OntoEnd(cells, read - p.used, 0);
        return Bad;
      }
      if id.value == END_OF_PEERS {
        break;
      }
      if id.value == 0 {
        OntoEnd(cells, read - p.used, 0);
        return Bad;
      }
      var path := GetCellPath(op, s[read + 2..]);
      assert s[read..][2..] == s[read + 2..];
      if path.Bad? {
        OntoEnd(cells, read - p.used, 0);
        return Bad;
      }
      assert s[read..][2 + path.used..] == s[read + 2 + path.used..];
      OntoOne(cells, read - p.used, WireCell(id.value, path.value), 2 + path.used,
        GetCells(op, s[read + 2 + path.used..], MAX_READS - j - 1));
      cells, read, j := cells + [WireCell(id.value, path.value)], read + 2 + path.used, j + 1;
    }
    CellsStep(op, s[read..], MAX_READS - j);
    OntoEnd(cells, read - p.used, if j < MAX_READS then 2 else 0);
    read := if j < MAX_READS then read + 2 else read;
    var cnt := GetBig16(s[read..]);
    if cnt.Bad? || cnt.value != |cells| {
      return Bad;
    }
    return Got(PfxRow(op, p.value, cells), read + 2);
  }

  /** One turn of the loop over the cells. */
  lemma CellsStep(op: Op, s: seq<byte>, left: nat)
    ensures left == 0 ==> GetCells(op, s, left) == Got([], 0)
    ensures left > 0 && |s| < 2 ==> GetCells(op, s, left) == Bad
    ensures left > 0 && GetBig16(s) == Got(END_OF_PEERS, 2) ==> GetCells(op, s, left) == Got([], 2)
    ensures left > 0 && GetBig16(s) == Got(0, 2) ==> GetCells(op, s, left) == Bad
    ensures left > 0 && |s| >= 2 && GetBig16(s).value !in {0, END_OF_PEERS} ==>
              var path := GetCellPath(op, s[2..]);
              if path.Bad? then GetCells(op, s, left) == Bad else
              var rest := GetCells(op, s[2 + path.used..], left - 1);
              GetCells(op, s, left) ==
                if rest.Bad? then Bad
                  else Got([WireCell(GetBig16(s).value, path.value)] + rest.value, 2 + path.used + rest.used)
  {
  }

  /** Read a message of rows, the type of the next row following each row. */
  method DeserializeMsg(s: seq<byte>) returns (r: Option<seq<PfxRow>>)
    requires |s| > 0
    ensures r == GetMsg(s)
  {
    hide GetRow;
    var code, read, rows: seq<PfxRow> := s[0], 1, [];
    AfterNothing(GetRows(code, s[1..]));
    while read < |s|
      invariant 1 <= read <= |s|
      invariant GetMsg(s) == After(rows, GetRows(code, s[read..]))
      decreases |s| - read
    {
      var op := GetOp(code);
      if op.None? {
        return None;
      }
      var row := DeserializeRow(s[read..], op.value);
      if row.Bad? {
        return None;
      }
      if read + row.used < |s| {
        ghost var n := read + row.used;
        assert s[read..][row.used] == s[n] && s[read..][row.used + 1..] == s[n + 1..];
        AfterTwice(rows, row.value, GetRows(s[n], s[n + 1..]));
        code, read, rows := s[read + row.used], read + row.used + 1, rows + [row.value];
      } else {
        AfterEnd(rows + [row.value]);
        read, rows := read + row.used, rows + [row.value];
      }
    }
    AfterEnd(rows);
    return Some(rows);
  }

  ghost function After(rows: seq<PfxRow>, r: Option<seq<PfxRow>>): Option<seq<PfxRow>> {
    if r.None? then None else Some(rows + r.value)
  }

  lemma AfterNothing(r: Option<seq<PfxRow>>)
    ensures After([], r) == r
  {
    if r.Some? { assert [] + r.value == r.value; }
  }

  lemma AfterEnd(rows: seq<PfxRow>)
    ensures After(rows, Some([])) == Some(rows)
  {
    assert rows + [] == rows;
  }

  lemma AfterTwice(rows: seq<PfxRow>, x: PfxRow, r: Option<seq<PfxRow>>)
    ensures After(rows, if r.None? then None else Some([x] + r.value)) == After(rows + [x], r)
  {
    if r.Some? { assert rows + ([x] + r.value) == rows + [x] + r.value; }
  }
}
