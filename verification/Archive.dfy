/** The archive file format: tables of records, each table closed by an end mark of eight bytes
    that the reader looks for before every record. */
module Archive {
  import opened Net
  import opened RowCodec

  type Bytes = seq<byte>

  /** "BGPV" and the four letters that tell the marks apart. */
  function Magic(tag: Bytes): Bytes { [0x42, 0x47, 0x50, 0x56] + tag }

  const START: Bytes := [0x53, 0x54, 0x52, 0x54]
  const END: Bytes := [0x56, 0x45, 0x4E, 0x44]
  const PEER_END: Bytes := [0x50, 0x45, 0x4E, 0x44]
  const PATH_END: Bytes := [0x50, 0x41, 0x54, 0x48]
  const PFX_END: Bytes := [0x58, 0x45, 0x4E, 0x44]

  type Word = x: int | 0 <= x < 0x1_0000_0000

  datatype PeerRec = PeerRec(id: PeerId, sig: PeerSig)
  datatype PathRec = PathRec(idx: Word, path: StorePath)
  datatype CellRec = CellRec(peer: PeerId, idx: Word)
  datatype RowRec = RowRec(pfx: Pfx, cells: seq<CellRec>)
  datatype File = File(time: Word, peers: seq<PeerRec>, paths: seq<PathRec>, rows: seq<RowRec>)

  // ---------------------------------------------------------------- printing

  function Big32(x: Word): Bytes { [x / 0x1000000, x / 0x10000 % 256, x / 256 % 256, x % 256] }
  function Little32(x: Word): Bytes { [x % 256, x / 256 % 256, x / 0x10000 % 256, x / 0x1000000] }

  function AddrBytes(ip: Ip): Bytes { [if ip.ver.V4? then 4 else 16] + ip.bytes }

  function PutPeer(x: PeerRec): Bytes {
    Big16(x.id) + [|x.sig.collector| % 256] + x.sig.collector + AddrBytes(x.sig.ip) + Big32(x.sig.asn % 0x1_0000_0000)
  }
  function PutPath(x: PathRec): Bytes {
    Little32(x.idx) + [x.path.core] + Little16(|x.path.data| % 0x10000) + x.path.data
  }
  function PutCell(x: CellRec): Bytes { Big16(x.peer) + Little32(x.idx) }

  function PutList<T>(put: T -> Bytes, xs: seq<T>): Bytes {
    if |xs| == 0 then [] else put(xs[0]) + PutList(put, xs[1..])
  }

  /** A count closes a table, in two or four bytes. */
  function PutCount(n: nat, wide: bool): Bytes { if wide then Big32(n % 0x1_0000_0000) else Big16(n % 0x10000) }

  /** A table of records, its mark and its count. */
  function PutTable<T>(put: T -> Bytes, tag: Bytes, xs: seq<T>, wide: bool): Bytes {
    PutList(put, xs) + Magic(tag) + PutCount(|xs|, wide)
  }

  function PutRow(x: RowRec): Bytes {
    AddrBytes(x.pfx.addr) + [x.pfx.len] + PutTable(PutCell, PEER_END, x.cells, false)
  }

  function PutFile(f: File): Bytes {
    Magic(START) + Big32(f.time)
    + PutTable(PutPeer, PEER_END, f.peers, false) + PutTable(PutPath, PATH_END, f.paths, true) + PutTable(PutRow,
      PFX_END, f.rows, true)
    + Magic(END)
  }

  // ---------------------------------------------------------------- byte by byte

  ghost predicate Spells(s: Bytes, text: string) {
    |s| == |text| && forall i :: 0 <= i < |s| ==> s[i] as int == text[i] as int
  }

  /** Numbers with the high byte first, and with the low byte first. */
  ghost predicate High(s: Bytes, o: nat, n: nat, x: int)
    decreases n
  {
    o + n <= |s| && (if n == 0 then x == 0 else High(s, o, n - 1, x / 256) && s[o + n - 1] as int == x % 256)
  }

  ghost predicate Low(s: Bytes, o: nat, n: nat, x: int)
    decreases n
  {
    o + n <= |s| && (if n == 0 then x == 0 else s[o] as int == x % 256 && Low(s, o + 1, n - 1, x / 256))
  }

  /** A peer record: identifier, the length and the bytes of the collector, the length and the bytes of
      the address, and the AS number. */
  lemma PeerLayout(x: PeerRec)
    requires |x.sig.collector| < 256 && x.sig.ip.Ok() && x.sig.asn < 0x1_0000_0000
    ensures var s, c, n := PutPeer(x), |x.sig.collector|, x.sig.ip.ver.Bytes();
            && |s| == c + n + 8 && High(s, 0, 2, x.id) && s[2] == c && s[3..c + 3] == x.sig.collector
            && s[c + 3] == n && s[c + 4..c + 4 + n] == x.sig.ip.bytes && High(s, c + 4 + n, 4, x.sig.asn)
  {
    var s, c, n := PutPeer(x), |x.sig.collector|, x.sig.ip.ver.Bytes();
    assert s[3..c + 3] == x.sig.collector;
    assert s[c + 4..c + 4 + n] == x.sig.ip.bytes;
    assert s[c + 4 + n..c + 8 + n] == Big32(x.sig.asn);
    Big32High(s, c + 4 + n, x.sig.asn);
  }

  /** A path record: its index, whether it is a core path, and the length and the bytes of its data. */
  lemma PathLayout(x: PathRec)
    requires x.path.Ok()
    ensures var s, n := PutPath(x), |x.path.data|;
            |s| == n + 7 && Low(s, 0, 4, x.idx) && s[4] == x.path.core && Low(s, 5, 2, n) && s[7..] == x.path.data
  {
    Little32Low(PutPath(x), 0, x.idx);
  }

  /** A prefix record: the length and the bytes of the address, the prefix length, and the table of cells. */
  lemma RowRecLayout(x: RowRec)
    requires x.pfx.addr.Ok() && |x.cells| < 0x10000
    ensures var s, n := PutRow(x), x.pfx.addr.ver.Bytes();
            && |s| > n + 1 && s[0] == n && s[1..n + 1] == x.pfx.addr.bytes && s[n + 1] == x.pfx.len
            && TableLies(s, n + 2, PutList(PutCell, x.cells), "BGPVPEND", false, |x.cells|)
  {
    hide PutTable, TableLies, PutList;
    var s, n, head := PutRow(x), x.pfx.addr.ver.Bytes(), AddrBytes(x.pfx.addr) + [x.pfx.len];
    MarksSpell();
    TableLayout(PutCell, PEER_END, x.cells, false, "BGPVPEND", head, []);
    assert s == head + PutTable(PutCell, PEER_END, x.cells, false) + [];
    assert s[1..n + 1] == x.pfx.addr.bytes;
  }

  lemma CellRecLayout(x: CellRec)
    ensures |PutCell(x)| == 6 && High(PutCell(x), 0, 2, x.peer) && Low(PutCell(x), 2, 4, x.idx)
  {
    Little32Low(PutCell(x), 2, x.idx);
  }

  /** The text at offset `o`. */
  ghost predicate SpellsAt(s: Bytes, o: nat, text: string) { o + |text| <= |s| && Spells(s[o..o + |text|], text) }

  /** A table at offset `o`: the bytes of its records, the mark, and their number in two or four bytes. */
  ghost predicate TableLies(s: Bytes, o: nat, recs: Bytes, text: string, wide: bool, n: nat) {
    && o + |recs| <= |s| && s[o..o + |recs|] == recs && SpellsAt(s, o + |recs|, text)
    && High(s, o + |recs| + 8, if wide then 4 else 2, n)
  }

  lemma TableLayout<T>(put: T -> Bytes, tag: Bytes, xs: seq<T>, wide: bool, text: string, pre: Bytes, post: Bytes)
    requires Spells(Magic(tag), text) && |text| == 8 && |xs| < if wide then 0x1_0000_0000 else 0x10000
    ensures TableLies(pre + PutTable(put, tag, xs, wide) + post, |pre|, PutList(put, xs), text, wide, |xs|)
    ensures |PutTable(put, tag, xs, wide)| == |PutList(put, xs)| + if wide then 12 else 10
  {
    hide PutList, High, SpellsAt, Spells, Magic, PutCount;
    var s, o, recs := pre + PutTable(put, tag, xs, wide) + post, |pre|, PutList(put, xs);
    var mark, cnt := Magic(tag), PutCount(|xs|, wide);
    assert |mark| == 8 && |cnt| == if wide then 4 else 2 by { MarkSize(tag, text); CountSize(|xs|, wide); }
    Slices(pre, recs, mark, cnt, post);
    MarkThere(s, o + |recs|, tag, text);
    CountHigh(s, o + |recs| + 8, |xs|, wide);
  }

  lemma MarkSize(tag: Bytes, text: string)
    requires Spells(Magic(tag), text)
    ensures |Magic(tag)| == |text|
  {
  }

  lemma CountSize(n: nat, wide: bool)
    ensures |PutCount(n, wide)| == if wide then 4 else 2
  {
  }

  lemma CountHigh(s: Bytes, o: nat, n: nat, wide: bool)
    requires n < (if wide then 0x1_0000_0000 else 0x10000) && o + |PutCount(n, wide)| <= |s|
    requires s[o..o + |PutCount(n, wide)|] == PutCount(n, wide)
    ensures High(s, o, if wide then 4 else 2, n)
  {
    hide High;
    if wide { Big32High(s, o, n); } else { Big16High(s, o, n); }
  }

  lemma Slices(pre: Bytes, x: Bytes, y: Bytes, z: Bytes, post: Bytes)
    ensures var s, o := pre + (x + y + z) + post, |pre|;
            && s[o..o + |x|] == x && s[o + |x|..o + |x| + |y|] == y
            && s[o + |x| + |y|..o + |x| + |y| + |z|] == z
  {
  }

  /** An archive: a mark, the time, the tables of peers, of paths and of rows, and a last mark. */
  lemma FileLayout(f: File)
    requires |f.peers| < 0x10000 && |f.paths| < 0x1_0000_0000 && |f.rows| < 0x1_0000_0000
    ensures var s, peers, paths, rows := PutFile(f), PutList(PutPeer, f.peers), PutList(PutPath, f.paths),
                                         PutList(PutRow, f.rows);
            var a := 22 + |peers|;
            var b := a + |paths| + 12;
            var c := b + |rows| + 12;
            && |s| == c + 8 && SpellsAt(s, 0, "BGPVSTRT") && High(s, 8, 4, f.time) && SpellsAt(s, c, "BGPVVEND")
            && TableLies(s, 12, peers, "BGPVPEND", false, |f.peers|)
            && TableLies(s, a, paths, "BGPVPATH", true, |f.paths|)
            && TableLies(s, b, rows, "BGPVXEND", true, |f.rows|)
  {
    hide PutList, High, SpellsAt, PutTable, Magic, TableLies, Spells;
    var s, head := PutFile(f), Magic(START) + Big32(f.time);
    var t, u, v := PutTable(PutPeer, PEER_END, f.peers, false), PutTable(PutPath, PATH_END, f.paths, true),
                   PutTable(PutRow, PFX_END, f.rows, true);
    MarksSpell();
    TableLayout(PutPeer, PEER_END, f.peers, false, "BGPVPEND", head, u + v + Magic(END));
    TableLayout(PutPath, PATH_END, f.paths, true, "BGPVPATH", head + t, v + Magic(END));
    TableLayout(PutRow, PFX_END, f.rows, true, "BGPVXEND", head + t + u, Magic(END));
    assert s == head + t + (u + v + Magic(END)) == head + t + u + (v + Magic(END)) == head + t + u + v + Magic(END);
    assert s[0..8] == Magic(START) && s[8..12] == Big32(f.time);
    assert s[|s| - 8..|s|] == Magic(END);
    MarkThere(s, 0, START, "BGPVSTRT");
    MarkThere(s, |s| - 8, END, "BGPVVEND");
    Big32High(s, 8, f.time);
  }

  lemma MarksSpell()
    ensures Spells(Magic(START), "BGPVSTRT") && Spells(Magic(END), "BGPVVEND") && Spells(Magic(PEER_END), "BGPVPEND")
    ensures Spells(Magic(PATH_END), "BGPVPATH") && Spells(Magic(PFX_END), "BGPVXEND")
    ensures |Magic(START)| == |Magic(END)| == 8
  {
  }

  lemma MarkThere(s: Bytes, o: nat, tag: Bytes, text: string)
    requires o + 8 <= |s| && s[o..o + 8] == Magic(tag) && Spells(Magic(tag), text)
    ensures SpellsAt(s, o, text)
  {
  }

  lemma Big16High(s: Bytes, o: nat, x: Id16)
    requires o + 2 <= |s| && s[o..o + 2] == Big16(x)
    ensures High(s, o, 2, x)
  {
    var b := s[o..o + 2];
    assert b[0] == s[o] && b[1] == s[o + 1];
    assert High(s, o, 1, x / 256);
  }

  lemma Big32High(s: Bytes, o: nat, x: Word)
    requires o + 4 <= |s| && s[o..o + 4] == Big32(x)
    ensures High(s, o, 4, x)
  {
    var b := s[o..o + 4];
    assert b[0] == s[o] && b[1] == s[o + 1] && b[2] == s[o + 2] && b[3] == s[o + 3];
    assert High(s, o, 2, x / 0x10000);
    assert High(s, o, 3, x / 256);
  }

  lemma Little32Low(s: Bytes, o: nat, x: Word)
    requires o + 4 <= |s| && s[o..o + 4] == Little32(x)
    ensures Low(s, o, 4, x)
  {
    var b := s[o..o + 4];
    assert b[0] == s[o] && b[1] == s[o + 1] && b[2] == s[o + 2] && b[3] == s[o + 3];
    assert Low(s, o + 2, 2, x / 0x10000);
    assert Low(s, o + 1, 3, x / 256);
  }

  // ---------------------------------------------------------------- reading

  /** Is the mark next? Reading it needs all its eight bytes. */
  predicate AtMagic(s: Bytes, tag: Bytes) { |s| >= 8 && s[..8] == Magic(tag) }

  function GetBig32(s: Bytes): Parsed<Word> {
    if |s| < 4 then Bad else Got(s[0] as int * 0x1000000 + s[1] as int * 0x10000 + s[2] as int * 256 + s[3] as int, 4)
  }
  function GetLittle32(s: Bytes): Parsed<Word> {
    if |s| < 4 then Bad else Got(s[3] as int * 0x1000000 + s[2] as int * 0x10000 + s[1] as int * 256 + s[0] as int, 4)
  }

  function GetAddr(s: Bytes): (r: Parsed<Ip>)
    ensures r.Got? ==> 0 < r.used <= |s|
  {
    if |s| >= 5 && s[0] == 4 then Got(Ip(V4, s[1..5]), 5)
    else if |s| >= 17 && s[0] == 16 then Got(Ip(V6, s[1..17]), 17)
    else Bad
  }

  function GetPeer(s: Bytes): (r: Parsed<PeerRec>)
    ensures r.Got? ==> 0 < r.used <= |s|
  {
    match GetBig16(s)
    case Bad => Bad
    case Got(id, _) =>
      if id == 0 || |s| < 3 || |s| < 3 + s[2] as int then Bad else
      var n := 3 + s[2] as int;
      match GetAddr(s[n..])
      case Bad => Bad
      case Got(ip, m) =>
        match GetBig32(s[n + m..])
        case Bad => Bad
        case Got(asn, _) => Got(PeerRec(id, PeerSig(s[3..n], ip, asn)), n + m + 4)
  }

  /** Path data longer than the read buffer is refused. */
  const BUFFER_LEN := 1024

  function GetPathRec(s: Bytes): (r: Parsed<PathRec>)
    ensures r.Got? ==> 0 < r.used <= |s|
  {
    if |s| < 7 then Bad else
    var n: nat := s[5] as int + s[6] as int * 256;
    if n > BUFFER_LEN || |s| < 7 + n then Bad
      else Got(PathRec(GetLittle32(s).value, StorePath(s[4], s[7..7 + n])), 7 + n)
  }

  function GetCell(s: Bytes): (r: Parsed<CellRec>)
    ensures r.Got? ==> 0 < r.used <= |s|
  {
    if |s| < 6 then Bad else
    var id := GetBig16(s).value;
    if id == 0 then Bad else Got(CellRec(id, GetLittle32(s[2..]).value), 6)
  }

  /** Records up to the mark, at most `left` of them. */
  function GetList<T>(get: Bytes -> Parsed<T>, tag: Bytes, s: Bytes, left: nat): (r: Parsed<seq<T>>)
    ensures r.Got? ==> r.used <= |s|
    decreases left
  {
    if left == 0 then Got([], 0) else if AtMagic(s, tag) then Got([], 8) else
    match get(s)
    case Bad => Bad
    case Got(x, n) =>
      if n > |s| then Bad else
      match GetList(get, tag, s[n..], left - 1)
      case Bad => Bad
      case Got(xs, m) => Got([x] + xs, n + m)
  }

  const MAX_WORD: nat := 0xFFFF_FFFF

  function GetCount(s: Bytes, wide: bool): (r: Parsed<nat>)
    ensures r.Got? ==> r.used <= |s|
  {
    if wide then match GetBig32(s) case Bad => Bad case Got(n, _) => Got(n, 4)
    else match GetBig16(s) case Bad => Bad case Got(n, _) => Got(n, 2)
  }

  /** As many records as a count can say, the mark, and the count. */
  function GetTable<T>(get: Bytes -> Parsed<T>, tag: Bytes, s: Bytes, wide: bool): (r: Parsed<seq<T>>)
    ensures r.Got? ==> r.used <= |s|
  {
    match GetList(get, tag, s, Most(wide))
    case Bad => Bad
    case Got(xs, n) =>
      match GetCount(s[n..], wide)
      case Bad => Bad
      case Got(cnt, m) => if cnt == |xs| then Got(xs, n + m) else Bad
  }

  function Most(wide: bool): nat { if wide then MAX_WORD else MAX_READS }

  function GetRowRec(s: Bytes): (r: Parsed<RowRec>)
    ensures r.Got? ==> 0 < r.used <= |s|
  {
    match GetAddr(s)
    case Bad => Bad
    case Got(ip, a) =>
      if |s| <= a then Bad else
      match GetTable(GetCell, PEER_END, s[a + 1..], false)
      case Bad => Bad
      case Got(cells, b) => Got(RowRec(Pfx(ip, s[a]), cells), a + 1 + b)
  }

  function GetFile(s: Bytes): Parsed<File> {
    if !AtMagic(s, START) then Bad else
    match GetBig32(s[8..])
    case Bad => Bad
    case Got(time, _) =>
      match GetTable(GetPeer, PEER_END, s[12..], false)
      case Bad => Bad
      case Got(peers, a) =>
        match GetTable(GetPathRec, PATH_END, s[12 + a..], true)
        case Bad => Bad
        case Got(paths, b) =>
          match GetTable(GetRowRec, PFX_END, s[12 + a + b..], true)
          case Bad => Bad
          case Got(rows, c) =>
            // a missing last mark is only reported
            Got(File(time, peers, paths, rows), 12 + a + b + c + if AtMagic(s[12 + a + b + c..], END) then 8 else 0)
  }

  // ---------------------------------------------------------------- what can be archived

  /** The fields have the widths that the writer gives them. */
  predicate PeerShape(x: PeerRec) { |x.sig.collector| < 256 && x.sig.ip.Ok() && x.sig.asn < 0x1_0000_0000 }
  predicate PathShape(x: PathRec) { x.path.core < 2 && |x.path.data| <= BUFFER_LEN }
  predicate RowShape(x: RowRec) { x.pfx.addr.Ok() }
  predicate Shaped(f: File) {
    (forall x | x in f.peers :: PeerShape(x)) && (forall x | x in f.paths :: PathShape(x)) &&
      (forall x | x in f.rows :: RowShape(x))
  }

  /** The identifier and the path index that read like the first bytes of a mark. */
  const MARK_ID := 0x4247
  const MARK_IDX := 0x45505650
  const MARK_NEXT := 0x4E44

  /** A peer, and a pair of neighbouring cells, that read like the end of a table. */
  predicate PeerMark(x: PeerRec) {
    x.id == MARK_ID && |x.sig.collector| == 0x50 && x.sig.collector[..5] == [0x56, 0x50, 0x45, 0x4E, 0x44]
  }
  predicate CellMark(x: CellRec, y: CellRec) { x.peer == MARK_ID && x.idx == MARK_IDX && y.peer == MARK_NEXT }

  predicate RowOk(x: RowRec) {
    |x.cells| < MAX_READS && forall i :: 0 <= i < |x.cells| - 1 ==> !CellMark(x.cells[i], x.cells[i + 1])
  }
  predicate FileOk(f: File) {
    && (forall x | x in f.peers :: !PeerMark(x)) && (forall x | x in f.rows :: RowOk(x))
    && |f.peers| < MAX_READS && |f.paths| < MAX_WORD && |f.rows| < MAX_WORD
  }

  // ---------------------------------------------------------------- reading undoes printing

  lemma Word32(x: Word, rest: Bytes)
    ensures GetBig32(Big32(x) + rest) == Got(x, 4) && GetLittle32(Little32(x) + rest) == Got(x, 4)
  {
    FourBytes(x);
    var s, t := Big32(x) + rest, Little32(x) + rest;
    assert s[0] == Big32(x)[0] && s[1] == Big32(x)[1] && s[2] == Big32(x)[2] && s[3] == Big32(x)[3];
    assert t[0] == Little32(x)[0] && t[1] == Little32(x)[1] && t[2] == Little32(x)[2] && t[3] == Little32(x)[3];
  }

  lemma FourBytes(x: Word)
    ensures x == (x / 0x1000000) * 0x1000000 + (x / 0x10000 % 256) * 0x10000 + (x / 256 % 256) * 256 + x % 256
  {
    assert x == x / 256 * 256 + x % 256;
    assert x / 256 == x / 256 / 256 * 256 + x / 256 % 256;
    assert x / 256 / 256 == x / 0x10000;
    assert x / 0x10000 == x / 0x10000 / 256 * 256 + x / 0x10000 % 256;
    assert x / 0x10000 / 256 == x / 0x1000000;
  }

  lemma AddrRound(ip: Ip, rest: Bytes)
    requires ip.Ok()
    ensures GetAddr(AddrBytes(ip) + rest) == Got(ip, |AddrBytes(ip)|)
  {
    assert (AddrBytes(ip) + rest)[1..1 + ip.ver.Bytes()] == ip.bytes;
  }

  /** The bytes of a mark that tell it from the records. */
  lemma MagicAt(s: Bytes, tag: Bytes)
    requires |tag| == 4
    ensures AtMagic(s, tag) ==> s[0] == 0x42 && s[1] == 0x47 && s[4] == tag[0]
  {
    if AtMagic(s, tag) { assert s[..8][0] == s[0] && s[..8][1] == s[1] && s[..8][4] == s[4]; }
  }

  /** Whatever follows, the record parses back if it is good, and not to itself if it is not. */
  ghost predicate Faithful<T(!new)>(get: Bytes -> Parsed<T>, put: T -> Bytes, good: T -> bool, x: T) {
    forall rest: Bytes :: Returns(get(put(x) + rest), x, |put(x)|, good(x))
  }

  ghost predicate Returns<T>(r: Parsed<T>, x: T, n: nat, good: bool) {
    if good then r == Got(x, n) else r.Bad? || r.value != x
  }

  /** No tail of the list reads like the mark. */
  ghost predicate MarkFree<T>(put: T -> Bytes, tag: Bytes, xs: seq<T>, rest: Bytes) {
    |xs| > 0 ==> !AtMagic(PutList(put, xs) + Magic(tag) + rest, tag) && MarkFree(put, tag, xs[1..], rest)
  }

  // ---------------------------------------------------------------- records

  lemma PeerRound(x: PeerRec, rest: Bytes)
    requires PeerShape(x)
    ensures GetPeer(PutPeer(x) + rest) == Got(x, |PutPeer(x)|)
  {
    hide Big32, GetBig32, GetAddr, AddrBytes;
    var s, n := PutPeer(x) + rest, 3 + |x.sig.collector|;
    var tail := AddrBytes(x.sig.ip) + (Big32(x.sig.asn) + rest);
    assert s == Big16(x.id) + [|x.sig.collector|] + x.sig.collector + tail;
    assert s[3..n] == x.sig.collector;
    assert s[n..] == tail;
    AddrRound(x.sig.ip, Big32(x.sig.asn) + rest);
    assert s[n + |AddrBytes(x.sig.ip)|..] == Big32(x.sig.asn) + rest;
    Word32(x.sig.asn, rest);
    assert s[0] as int * 256 + s[1] as int == x.id;
    Len32(x.sig.asn);
  }

  /** Exactly which peer record would be taken for the end of the peers. */
  lemma PeerLooksLikeMark(x: PeerRec, rest: Bytes)
    requires |x.sig.collector| < 256
    ensures AtMagic(PutPeer(x) + rest, PEER_END) <==> PeerMark(x)
  {
    var s, c := PutPeer(x) + rest, x.sig.collector;
    assert s == Big16(x.id) + [|c|] + c + (AddrBytes(x.sig.ip) + Big32(x.sig.asn % 0x1_0000_0000) + rest);
    if |c| >= 5 {
      assert s[..8] == Big16(x.id) + [|c|] + c[..5];
      SplitMark(x.id, |c|, c[..5]);
    } else {
      assert s[2] == |c|;
      if |s| >= 8 { assert s[..8][2] == s[2]; }
    }
  }

  lemma SplitMark(id: PeerId, n: byte, t: Bytes)
    requires |t| == 5
    ensures Big16(id) + [n] + t == Magic(PEER_END) <==>
            id == MARK_ID && n == 0x50 && t == [0x56, 0x50, 0x45, 0x4E, 0x44]
  {
    var s, m := Big16(id) + [n] + t, Magic(PEER_END);
    assert s[3..] == t && m[3..] == [0x56, 0x50, 0x45, 0x4E, 0x44];
    assert m[..3] == [0x42, 0x47, 0x50] && m == m[..3] + m[3..];
    assert s[0] as int * 256 + s[1] as int == id;
    if s == m { assert s[0] == 0x42 && s[1] == 0x47 && s[2] == 0x50; }
  }

  lemma {:induction false} PeersMarkFree(xs: seq<PeerRec>, rest: Bytes)
    requires forall x | x in xs :: PeerShape(x)
    ensures MarkFree(PutPeer, PEER_END, xs, rest) <==> forall x | x in xs :: !PeerMark(x)
  {
    hide PutPeer, PeerMark;
    if |xs| > 0 {
      assert PutList(PutPeer, xs) + Magic(PEER_END) + rest ==
        PutPeer(xs[0]) + (PutList(PutPeer, xs[1..]) + Magic(PEER_END) + rest);
      assert PeerShape(xs[0]);
      PeerLooksLikeMark(xs[0], PutList(PutPeer, xs[1..]) + Magic(PEER_END) + rest);
      PeersMarkFree(xs[1..], rest);
      assert forall x :: x in xs <==> x == xs[0] || x in xs[1..];
    }
  }

  /** A path is never taken for a mark: its core flag is 0 or 1. */
  lemma PathRecRound(x: PathRec, rest: Bytes)
    requires PathShape(x)
    ensures GetPathRec(PutPath(x) + rest) == Got(x, |PutPath(x)|) && !AtMagic(PutPath(x) + rest, PATH_END)
  {
    var s := PutPath(x) + rest;
    assert s == Little32(x.idx) + ([x.path.core] + Little16(|x.path.data|) + x.path.data + rest);
    Word32(x.idx, [x.path.core] + Little16(|x.path.data|) + x.path.data + rest);
    assert s[7..7 + |x.path.data|] == x.path.data;
    MagicAt(s, PATH_END);
  }

  lemma {:induction false} PathsMarkFree(xs: seq<PathRec>, rest: Bytes)
    requires forall x | x in xs :: PathShape(x)
    ensures MarkFree(PutPath, PATH_END, xs, rest)
  {
    hide PutPath, AtMagic;
    if |xs| > 0 {
      assert PutList(PutPath, xs) + Magic(PATH_END) + rest ==
        PutPath(xs[0]) + (PutList(PutPath, xs[1..]) + Magic(PATH_END) + rest);
      PathRecRound(xs[0], PutList(PutPath, xs[1..]) + Magic(PATH_END) + rest);
      PathsMarkFree(xs[1..], rest);
    }
  }

  lemma CellRound(x: CellRec, rest: Bytes)
    ensures GetCell(PutCell(x) + rest) == Got(x, |PutCell(x)|)
  {
    assert (PutCell(x) + rest)[2..] == Little32(x.idx) + rest;
    Word32(x.idx, rest);
  }

  /** Exactly which cells would be taken for the end of a row, given the two bytes after them. */
  lemma CellLooksLikeMark(x: CellRec, next: Id16, rest: Bytes)
    ensures AtMagic(PutCell(x) + Big16(next) + rest, PEER_END) <==>
            x.peer == MARK_ID && x.idx == MARK_IDX && next == MARK_NEXT
  {
    var s, m := PutCell(x) + Big16(next) + rest, Magic(PEER_END);
    assert s[..8] == PutCell(x) + Big16(next);
    assert s[0] as int * 256 + s[1] as int == x.peer && s[6] as int * 256 + s[7] as int == next;
    FourBytes(x.idx);
    assert s[2] == Little32(x.idx)[0] && s[3] == Little32(x.idx)[1] && s[4] == Little32(x.idx)[2] &&
      s[5] == Little32(x.idx)[3];
    assert s[..8] == [s[0], s[1], s[2], s[3], s[4], s[5], s[6], s[7]];
    assert m == [0x42, 0x47, 0x50, 0x56, 0x50, 0x45, 0x4E, 0x44];
  }

  lemma {:induction false} CellsMarkFree(xs: seq<CellRec>, rest: Bytes)
    ensures MarkFree(PutCell, PEER_END, xs, rest) <==> forall i :: 0 <= i < |xs| - 1 ==> !CellMark(xs[i], xs[i + 1])
  {
    hide AtMagic, PutCell;
    if |xs| > 0 {
      var s, t := PutList(PutCell, xs) + Magic(PEER_END) + rest, PutList(PutCell, xs[1..]) + Magic(PEER_END) + rest;
      assert s == PutCell(xs[0]) + t;
      CellsMarkFree(xs[1..], rest);
      if |xs| == 1 {
        assert t == Big16(MARK_ID) + t[2..];
        assert s == PutCell(xs[0]) + Big16(MARK_ID) + t[2..];
        CellLooksLikeMark(xs[0], MARK_ID, t[2..]);
      } else {
        FirstTwo(xs[1..], rest);
        assert s == PutCell(xs[0]) + Big16(xs[1].peer) + t[2..];
        CellLooksLikeMark(xs[0], xs[1].peer, t[2..]);
        Neighbours(xs);
      }
    }
  }

  lemma FirstTwo(xs: seq<CellRec>, rest: Bytes)
    requires |xs| > 0
    ensures var t := PutList(PutCell, xs) + Magic(PEER_END) + rest; |t| >= 2 && t == Big16(xs[0].peer) + t[2..]
  {
  }

  lemma Neighbours(xs: seq<CellRec>)
    requires |xs| > 1
    ensures (forall i :: 0 <= i < |xs| - 1 ==> !CellMark(xs[i], xs[i + 1])) <==>
            !CellMark(xs[0], xs[1]) && forall i :: 0 <= i < |xs[1..]| - 1 ==> !CellMark(xs[1..][i], xs[1..][i + 1])
  {
    if forall i :: 0 <= i < |xs[1..]| - 1 ==> !CellMark(xs[1..][i], xs[1..][i + 1]) {
      forall i | 1 <= i < |xs| - 1 ensures !CellMark(xs[i], xs[i + 1]) {
        assert xs[1..][i - 1] == xs[i] && xs[1..][i] == xs[i + 1];
      }
    }
  }

  // ---------------------------------------------------------------- tables

  /** A list of records reads back as itself if and only if it is short enough, its records are
      good and no tail of it reads like the mark. */
  lemma {:induction false} ListExact<T(!new)>(get: Bytes -> Parsed<T>, put: T -> Bytes, good: T -> bool, tag: Bytes,
                                       xs: seq<T>, rest: Bytes, left: nat)
    requires |tag| == 4 && forall x | x in xs :: Faithful(get, put, good, x)
    ensures var r := GetList(get, tag, PutList(put, xs) + Magic(tag) + rest, left);
      && (r.Got? && r.value == xs <==> |xs| <= left && MarkFree(put, tag, xs, rest) && forall x | x in xs :: good(x))
      && (r.Got? && r.value == xs ==> r.used == |PutList(put, xs)| + if |xs| < left then 8 else 0)
    decreases |xs|
  {
    var s := PutList(put, xs) + Magic(tag) + rest;
    if |xs| == 0 {
      assert s[..8] == Magic(tag);
    } else if left > 0 && !AtMagic(s, tag) {
      var tail := PutList(put, xs[1..]) + Magic(tag) + rest;
      assert s == put(xs[0]) + tail;
      assert Faithful(get, put, good, xs[0]) && Returns(get(put(xs[0]) + tail), xs[0], |put(xs[0])|, good(xs[0]));
      ListExact(get, put, good, tag, xs[1..], rest, left - 1);
      assert s[|put(xs[0])|..] == tail;
      Consed(xs, GetList(get, tag, tail, left - 1));
      assert forall x :: x in xs <==> x == xs[0] || x in xs[1..];
    }
  }

  lemma Consed<T>(xs: seq<T>, r: Parsed<seq<T>>)
    requires |xs| > 0
    ensures r.Got? ==> ([xs[0]] + r.value == xs <==> r.value == xs[1..])
  {
    if r.Got? && [xs[0]] + r.value == xs { assert r.value == ([xs[0]] + r.value)[1..]; }
  }

  lemma TableExact<T(!new)>(get: Bytes -> Parsed<T>, put: T -> Bytes, good: T -> bool, tag: Bytes, xs: seq<T>,
                     rest: Bytes, wide: bool)
    requires |tag| == 4 && forall x | x in xs :: Faithful(get, put, good, x)
    ensures var r := GetTable(get, tag, PutTable(put, tag, xs, wide) + rest, wide);
      && (r.Got? && r.value == xs <==>
        |xs| < Most(wide) && MarkFree(put, tag, xs, PutCount(|xs|, wide) + rest) && forall x | x in xs :: good(x))
      && (r.Got? && r.value == xs ==> r.used == |PutTable(put, tag, xs, wide)|)
  {
    hide Faithful, MarkFree, GetList, PutList, PutCount, GetCount, Magic;
    var s, tail := PutTable(put, tag, xs, wide) + rest, PutCount(|xs|, wide) + rest;
    assert s == PutList(put, xs) + Magic(tag) + tail;
    ListExact(get, put, good, tag, xs, tail, Most(wide));
    MagicIsNoCount(tag, tail, wide);
    assert s[|PutList(put, xs)| + 8..] == tail;
    assert s[|PutList(put, xs)|..] == Magic(tag) + tail;
    CountRound(|xs|, wide, rest);
  }

  lemma CountRound(n: nat, wide: bool, rest: Bytes)
    ensures n <= Most(wide) ==> GetCount(PutCount(n, wide) + rest, wide) == Got(n, |PutCount(n, wide)|)
  {
    if wide { Word32(n % 0x1_0000_0000, rest); }
  }

  /** Read as a count, a mark is never the largest one. */
  lemma MagicIsNoCount(tag: Bytes, rest: Bytes, wide: bool)
    requires |tag| == 4
    ensures |Magic(tag)| == 8
    ensures GetCount(Magic(tag) + rest, wide).Got? && GetCount(Magic(tag) + rest, wide).value != Most(wide)
  {
    var s := Magic(tag) + rest;
    assert s[0] == 0x42 && s[1] == 0x47 && s[2] == 0x50 && s[3] == 0x56;
  }

  lemma Len32(x: Word)
    ensures |Big32(x)| == 4
  {
  }

  // ---------------------------------------------------------------- rows and files

  predicate Always<T>(x: T) { true }

  lemma CellsFaithful(xs: seq<CellRec>)
    ensures forall x | x in xs :: Faithful(GetCell, PutCell, Always, x)
  {
    hide GetCell, PutCell;
    forall x, rest: Bytes | x in xs
      ensures Returns(GetCell(PutCell(x) + rest), x, |PutCell(x)|, Always(x))
    {
      CellRound(x, rest);
    }
  }

  /** A row is never taken for a mark, as it begins with an address length of 4 or 16, and parses
      back if and only if its cells do not read like its end. */
  lemma RowRecExact(x: RowRec, rest: Bytes)
    requires RowShape(x)
    ensures Returns(GetRowRec(PutRow(x) + rest), x, |PutRow(x)|, RowOk(x)) && !AtMagic(PutRow(x) + rest, PFX_END)
  {
    hide GetTable, PutTable, GetAddr, Faithful, MarkFree, CellMark, PutCount;
    var s, body := PutRow(x) + rest, PutTable(PutCell, PEER_END, x.cells, false) + rest;
    assert s == AddrBytes(x.pfx.addr) + ([x.pfx.len] + body);
    AddrRound(x.pfx.addr, [x.pfx.len] + body);
    assert s[|AddrBytes(x.pfx.addr)| + 1..] == body;
    CellsFaithful(x.cells);
    TableExact(GetCell, PutCell, Always, PEER_END, x.cells, rest, false);
    CellsMarkFree(x.cells, PutCount(|x.cells|, false) + rest);
    MagicAt(s, PFX_END);
  }

  lemma {:induction false} RowsMarkFree(xs: seq<RowRec>, rest: Bytes)
    requires forall x | x in xs :: RowShape(x)
    ensures MarkFree(PutRow, PFX_END, xs, rest)
  {
    hide PutRow, AtMagic;
    if |xs| > 0 {
      assert PutList(PutRow, xs) + Magic(PFX_END) + rest ==
        PutRow(xs[0]) + (PutList(PutRow, xs[1..]) + Magic(PFX_END) + rest);
      RowRecExact(xs[0], PutList(PutRow, xs[1..]) + Magic(PFX_END) + rest);
      RowsMarkFree(xs[1..], rest);
    }
  }

  /** The three tables of a file, each exactly when it reads back. */
  lemma PeerTableExact(xs: seq<PeerRec>, rest: Bytes)
    requires forall x | x in xs :: PeerShape(x)
    ensures var r := GetTable(GetPeer, PEER_END, PutTable(PutPeer, PEER_END, xs, false) + rest, false);
      && (r.Got? && r.value == xs <==> |xs| < MAX_READS && forall x | x in xs :: !PeerMark(x))
      && (r.Got? && r.value == xs ==> r.used == |PutTable(PutPeer, PEER_END, xs, false)|)
  {
    hide GetPeer, PutPeer, PeerMark, GetTable, PutTable, MarkFree;
    forall x, s: Bytes | x in xs
      ensures Returns(GetPeer(PutPeer(x) + s), x, |PutPeer(x)|, Always(x))
    {
      PeerRound(x, s);
    }
    assert forall x | x in xs :: Faithful(GetPeer, PutPeer, Always, x);
    TableExact(GetPeer, PutPeer, Always, PEER_END, xs, rest, false);
    PeersMarkFree(xs, PutCount(|xs|, false) + rest);
  }

  lemma PathTableExact(xs: seq<PathRec>, rest: Bytes)
    requires forall x | x in xs :: PathShape(x)
    ensures var r := GetTable(GetPathRec, PATH_END, PutTable(PutPath, PATH_END, xs, true) + rest, true);
      && (r.Got? && r.value == xs <==> |xs| < MAX_WORD)
      && (r.Got? && r.value == xs ==> r.used == |PutTable(PutPath, PATH_END, xs, true)|)
  {
    hide GetPathRec, PutPath, GetTable, PutTable, MarkFree;
    forall x, s: Bytes | x in xs
      ensures Returns(GetPathRec(PutPath(x) + s), x, |PutPath(x)|, Always(x))
    {
      PathRecRound(x, s);
    }
    assert forall x | x in xs :: Faithful(GetPathRec, PutPath, Always, x);
    TableExact(GetPathRec, PutPath, Always, PATH_END, xs, rest, true);
    PathsMarkFree(xs, PutCount(|xs|, true) + rest);
  }

  lemma RowTableExact(xs: seq<RowRec>, rest: Bytes)
    requires forall x | x in xs :: RowShape(x)
    ensures var r := GetTable(GetRowRec, PFX_END, PutTable(PutRow, PFX_END, xs, true) + rest, true);
      && (r.Got? && r.value == xs <==> |xs| < MAX_WORD && forall x | x in xs :: RowOk(x))
      && (r.Got? && r.value == xs ==> r.used == |PutTable(PutRow, PFX_END, xs, true)|)
  {
    hide GetRowRec, PutRow, GetTable, PutTable, MarkFree, RowOk;
    forall x, s: Bytes | x in xs
      ensures Returns(GetRowRec(PutRow(x) + s), x, |PutRow(x)|, RowOk(x))
    {
      RowRecExact(x, s);
    }
    assert forall x | x in xs :: Faithful(GetRowRec, PutRow, RowOk, x);
    TableExact(GetRowRec, PutRow, RowOk, PFX_END, xs, rest, true);
    RowsMarkFree(xs, PutCount(|xs|, true) + rest);
  }

  /** An archive reads back as exactly what was written, and no byte more is consumed, if and only
      if none of its records reads like a mark and its tables are within the reader's bounds. */
  lemma FileRound(f: File, rest: Bytes)
    requires Shaped(f)
    ensures GetFile(PutFile(f) + rest) == Got(f, |PutFile(f)|) <==> FileOk(f)
  {
    hide GetTable, PutTable, Big32, GetBig32, PeerMark, RowOk, PeerShape, PathShape, RowShape;
    var s, end := PutFile(f) + rest, Magic(END) + rest;
    var peers, paths, rows :=
      PutTable(PutPeer, PEER_END, f.peers, false), PutTable(PutPath, PATH_END, f.paths, true),
        PutTable(PutRow, PFX_END, f.rows, true);
    Len32(f.time);
    assert s == Magic(START) + Big32(f.time) + peers + paths + rows + end;
    Sections(Magic(START), Big32(f.time), peers, paths, rows, end);
    Word32(f.time, peers + (paths + (rows + end)));
    PeerTableExact(f.peers, paths + (rows + end));
    PathTableExact(f.paths, rows + end);
    RowTableExact(f.rows, end);
    assert end[..8] == Magic(END);
  }

  /** An archive with one peer, whose record begins like the end of the peers, is lost. */
  lemma MarkedPeerLost()
    ensures var name: Bytes := [0x56, 0x50, 0x45, 0x4E, 0x44] + seq(75, _ => 0x2E);
            var f := File(0, [PeerRec(MARK_ID, PeerSig(name, Ip(V4, [192, 0, 2, 1]), 0))], [], []);
            Shaped(f) && GetFile(PutFile(f)) != Got(f, |PutFile(f)|)
  {
    hide GetFile, PutFile;
    var name: Bytes := [0x56, 0x50, 0x45, 0x4E, 0x44] + seq(75, _ => 0x2E);
    var x := PeerRec(MARK_ID, PeerSig(name, Ip(V4, [192, 0, 2, 1]), 0));
    var f := File(0, [x], [], []);
    assert PeerMark(x) && x in f.peers;
    FileRound(f, []);
    assert PutFile(f) + [] == PutFile(f);
  }

  /** So is one with two neighbouring cells that read like the end of their row. */
  lemma MarkedCellsLost()
    ensures var row := RowRec(Pfx(Ip(V4, [192, 0, 2, 0]), 24), [CellRec(MARK_ID, MARK_IDX), CellRec(MARK_NEXT, 0)]);
            var f := File(0, [], [], [row]);
            Shaped(f) && GetFile(PutFile(f)) != Got(f, |PutFile(f)|)
  {
    hide GetFile, PutFile;
    var row := RowRec(Pfx(Ip(V4, [192, 0, 2, 0]), 24), [CellRec(MARK_ID, MARK_IDX), CellRec(MARK_NEXT, 0)]);
    var f := File(0, [], [], [row]);
    assert CellMark(row.cells[0], row.cells[1]) && row in f.rows;
    FileRound(f, []);
    assert PutFile(f) + [] == PutFile(f);
  }

  lemma Sections(a: Bytes, b: Bytes, c: Bytes, d: Bytes, e: Bytes, f: Bytes)
    requires |a| == 8 && |b| == 4
    ensures var s := a + b + c + d + e + f;
      && s[..8] == a && s[8..] == b + (c + (d + (e + f))) && s[12..] == c + (d + (e + f))
      && s[12 + |c|..] == d + (e + f) && s[12 + |c| + |d|..] == e + f && s[12 + |c| + |d| + |e|..] == f
  {
  }
}
