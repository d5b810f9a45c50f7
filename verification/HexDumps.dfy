/** The chunked hex dump of the log: `outputBinary` and `formLog`, and a reader that gets the bytes back. */
module HexDumps {
  import opened ByteStrings

  const SPACE: byte := ' ' as int
  const PRINTSIZE: nat := 512
  const BUFSIZE: nat := PRINTSIZE * 3 + 8
  const UINT: nat := 0x1_0000_0000

  // ---------------------------------------------------------------- the text

  function HexDigit(n: nat): (c: byte)
    requires n < 16
    ensures c != 0
  {
    if n < 10 then ZERO + n else 'a' as int + (n - 10)
  }

  /** `%06u`. */
  function Padded(n: nat): (s: Bytes)
    ensures AllDigits(s)
  {
    Filled(n, 6)
  }

  /** The padding stands in front: the digits denote the number, and there are six of them or as many as it needs. */
  lemma PaddedReadsBack(n: nat)
    ensures DecValue(Padded(n)) == n && |Padded(n)| == if |DecNat(n)| >= 6 then |DecNat(n)| else 6
  {
    FilledValue(n, 6);
  }

  /** The row number in front of a row, counted in 32 bits. */
  function Header(row: nat): Bytes {
    Padded(row % UINT) + [SPACE]
  }

  /** What stands in front of byte `k` of a chunk whose first row has number `row`. */
  function Lead(row: nat, k: nat): Bytes {
    (if k % 32 == 0 then (if k != 0 then [LF] else []) + Header(row + k / 32) else [])
    + (if k % 16 == 0 then [SPACE] else [])
  }

  function Pair(b: byte): Bytes {
    [HexDigit(b / 16), HexDigit(b % 16)]
  }

  /** The text of the bytes of one chunk. */
  function Cells(row: nat, data: Bytes): Bytes {
    if data == [] then []
    else
      var k := |data| - 1;
      Cells(row, data[..k]) + Lead(row, k) + Pair(data[k])
  }

  /** The chunks of a dump, each closed by a line feed. */
  function Chunks(row: nat, data: Bytes): Bytes
    decreases |data|
  {
    if |data| <= PRINTSIZE then (if data == [] then [] else Cells(row, data) + [LF])
    else Cells(row, data[..PRINTSIZE]) + [LF] + Chunks(row + 16, data[PRINTSIZE..])
  }

  function Title(address: int, size: nat): Bytes {
    Ascii("address[") + Dec(address) + Ascii("] size[") + DecNat(size) + Ascii("] \n")
  }

  // ---------------------------------------------------------------- the length of a chunk

  lemma {:induction false} HeaderLength(row: nat)
    ensures 7 <= |Header(row)| <= 11
  {
    assert Pow10(10) > UINT by {
      assert Pow10(10) == 10 * Pow10(9) == 100 * Pow10(8) == 1000 * Pow10(7) == 10000 * Pow10(6);
      assert Pow10(6) == 10 * Pow10(5) == 100 * Pow10(4) == 1000 * Pow10(3) == 10000 * Pow10(2) == 100000 * Pow10(1);
      assert Pow10(1) == 10 * Pow10(0);
    }
    DecNatLength(row % UINT, 10);
    FilledValue(row % UINT, 6);
  }

  /** A chunk takes two bytes a byte, one more each sixteen and at most twelve more each row. */
  lemma {:induction false} CellsLength(row: nat, data: Bytes)
    ensures |Cells(row, data)| <= 2 * |data| + (|data| + 15) / 16 + 12 * ((|data| + 31) / 32)
  {
    hide Lead, Header, Pair;
    if data != [] {
      var k := |data| - 1;
      LeadLength(row, k);
      assert |Pair(data[k])| == 2 by {
        PairLength(data[k]);
      }
      CellsLength(row, data[..k]);
      Rows(k);
    }
  }

  lemma PairLength(b: byte)
    ensures |Pair(b)| == 2
  {}

  lemma LeadLength(row: nat, k: nat)
    ensures |Lead(row, k)| <= (if k % 32 == 0 then 12 else 0) + (if k % 16 == 0 then 1 else 0)
  {
    HeaderLength(row + k / 32);
  }

  /** A row begins at each multiple of 32, a gap at each multiple of 16. */
  lemma Rows(k: nat)
    ensures (k + 32) / 32 == (k + 31) / 32 + (if k % 32 == 0 then 1 else 0)
    ensures (k + 16) / 16 == (k + 15) / 16 + (if k % 16 == 0 then 1 else 0)
  {
    Rounded(k, 32, k / 32);
    Rounded(k, 16, k / 16);
  }

  lemma Rounded(k: nat, d: nat, q: nat)
    requires (d == 16 || d == 32) && q == k / d
    ensures (k + d) / d == q + 1
    ensures (k + d - 1) / d == if k % d == 0 then q else q + 1
  {
    if d == 16 {
      assert k == 16 * q + k % 16;
    } else {
      assert k == 32 * q + k % 32;
    }
  }

  // ---------------------------------------------------------------- reading a dump back

  /** A row as a reader sees it: its number, and its bytes in the groups that spaces make. */
  datatype Row = Row(number: nat, groups: seq<Bytes>)

  /** Where a reader of a dump is: in the title line, in a row's number (with its value so far), or among its bytes,
      perhaps after half a byte. */
  datatype Place = InTitle | InNumber(value: nat) | InRow | HalfByte(high: byte)

  datatype Reader = Reader(place: Place, data: Bytes, rows: seq<Row>)

  function DigitValue(c: byte): (v: nat)
    ensures v < 16
  {
    if IsDigit(c) then c - ZERO else if 'a' as int <= c < 'g' as int then c - 'a' as int + 10 else 0
  }

  /** A space begins a group of the last row. */
  function AddGroup(rows: seq<Row>): seq<Row> {
    if rows == [] then [] else
      var last := rows[|rows| - 1];
      rows[..|rows| - 1] + [last.(groups := last.groups + [[]])]
  }

  /** A byte goes to the last group of the last row. */
  function AddByte(rows: seq<Row>, b: byte): seq<Row> {
    if rows == [] || rows[|rows| - 1].groups == [] then rows else
      var last := rows[|rows| - 1];
      var n := |last.groups| - 1;
      rows[..|rows| - 1] + [last.(groups := last.groups[..n] + [last.groups[n] + [b]])]
  }

  function ReadOne(r: Reader, c: byte): Reader {
    match r.place
    case InTitle => if c == LF then r.(place := InNumber(0)) else r
    case InNumber(v) =>
      if c == SPACE then Reader(InRow, r.data, r.rows + [Row(v, [])])
      else r.(place := InNumber(v * 10 + DigitValue(c)))
    case InRow =>
      if c == LF then r.(place := InNumber(0))
      else if c == SPACE then r.(rows := AddGroup(r.rows))
      else r.(place := HalfByte(DigitValue(c)))
    case HalfByte(high) =>
      var b: byte := (high * 16 + DigitValue(c)) % 0x100;
      Reader(InRow, r.data + [b], AddByte(r.rows, b))
  }

  function Read(r: Reader, text: Bytes): Reader {
    if text == [] then r else ReadOne(Read(r, text[..|text| - 1]), text[|text| - 1])
  }

  /** What a reader gets from a whole dump. */
  function Undump(text: Bytes): Reader {
    Read(Reader(InTitle, [], []), text)
  }

  /** Up to 32 bytes in groups of sixteen. */
  function Groups(d: Bytes): seq<Bytes> {
    if |d| <= 16 then [d] else [d[..16], d[16..]]
  }

  /** Row `i` of the bytes, when rows hold 32 and are numbered from `row` on in 32 bits. */
  function RowAt(row: nat, data: Bytes, i: nat): Row
    requires 32 * i < |data|
  {
    Row((row + i) % UINT, Groups(if 32 * i + 32 <= |data| then data[32 * i..32 * i + 32] else data[32 * i..]))
  }

  function RowsOf(row: nat, data: Bytes): (rows: seq<Row>)
    ensures |rows| == (|data| + 31) / 32
  {
    seq((|data| + 31) / 32, i requires 0 <= i < (|data| + 31) / 32 => RowAt(row, data, i))
  }

  lemma {:induction false} ReadOn(r: Reader, a: Bytes, b: Bytes)
    ensures Read(r, a + b) == Read(Read(r, a), b)
  {
    hide ReadOne;
    if b == [] {
      assert a + b == a;
    } else {
      var n := |b| - 1;
      ReadOn(r, a, b[..n]);
      assert (a + b)[..|a + b| - 1] == a + b[..n];
    }
  }

  lemma ReadTwo(r: Reader, c: byte, d: byte)
    ensures Read(r, [c]) == ReadOne(r, c) && Read(r, [c, d]) == ReadOne(ReadOne(r, c), d)
  {
    hide ReadOne;
    assert [c][..0] == [] && [c, d][..1] == [c];
  }

  lemma ReadNone(r: Reader)
    ensures Read(r, []) == r
  {}

  /** The digits of a row's number are read as the number. */
  lemma {:induction false} ReadNumber(r: Reader, s: Bytes)
    requires AllDigits(s) && r.place == InNumber(0)
    ensures Read(r, s) == r.(place := InNumber(DecValue(s)))
  {
    if s != [] {
      ReadNumber(r, s[..|s| - 1]);
    }
  }

  lemma ReadHeader(r: Reader, row: nat)
    requires r.place == InNumber(0)
    ensures Read(r, Header(row)) == Reader(InRow, r.data, r.rows + [Row(row % UINT, [])])
  {
    hide Read, Padded;
    ReadNumber(r, Padded(row % UINT));
    PaddedReadsBack(row % UINT);
    ReadOn(r, Padded(row % UINT), [SPACE]);
    ReadTwo(r.(place := InNumber(row % UINT)), SPACE, SPACE);
  }

  lemma ReadPair(r: Reader, b: byte)
    requires r.place == InRow
    ensures Read(r, Pair(b)) == Reader(InRow, r.data + [b], AddByte(r.rows, b))
  {
    hide Read, AddByte;
    ReadTwo(r, HexDigit(b / 16), HexDigit(b % 16));
    assert forall n: nat | n < 16 :: DigitValue(HexDigit(n)) == n && HexDigit(n) != LF && HexDigit(n) != SPACE;
  }

  /** What stands in front of byte `k` begins a row, a group, or nothing. */
  lemma ReadLead(r: Reader, row: nat, k: nat)
    requires r.place == if k == 0 then InNumber(0) else InRow
    ensures Read(r, Lead(row, k))
            == Reader(InRow, r.data,
                      if k % 32 == 0 then AddGroup(r.rows + [Row((row + k / 32) % UINT, [])])
                      else if k % 16 == 0 then AddGroup(r.rows) else r.rows)
  {
    hide Read, Header, AddGroup, HexDigit;
    var feed := if k % 32 == 0 && k != 0 then [LF] else [];
    var head := if k % 32 == 0 then Header(row + k / 32) else [];
    var gap := if k % 16 == 0 then [SPACE] else [];
    Sixteens(k % 32, k / 32);
    assert k % 32 + 32 * (k / 32) == k;
    assert Lead(row, k) == feed + head + gap;
    ReadOn(r, feed + head, gap);
    ReadOn(r, feed, head);
    var r1 := if k % 32 == 0 then r.(place := InNumber(0)) else r;
    ReadFeed(r, k);
    var r2 := if k % 32 == 0 then Reader(InRow, r.data, r.rows + [Row((row + k / 32) % UINT, [])]) else r;
    if k % 32 == 0 {
      ReadHeader(r1, row + k / 32);
    } else {
      ReadNone(r1);
    }
    ReadNone(r2);
    ReadTwo(r2, SPACE, SPACE);
  }

  lemma ReadFeed(r: Reader, k: nat)
    requires r.place == if k == 0 then InNumber(0) else InRow
    ensures Read(r, if k % 32 == 0 && k != 0 then [LF] else []) == if k % 32 == 0 then r.(place := InNumber(0)) else r
  {
    hide Read;
    ReadTwo(r, LF, LF);
    ReadNone(r);
  }

  // ---------------------------------------------------------------- rows

  /** Whole rows stay when bytes come behind them. */
  lemma RowStays(row: nat, data: Bytes, more: Bytes, i: nat)
    requires 32 * i + 32 <= |data| && data <= more
    ensures RowAt(row, more, i) == RowAt(row, data, i)
  {
    assert more[32 * i..32 * i + 32] == data[32 * i..32 * i + 32];
  }

  /** The number of rows of `k` bytes, and of one byte more. */
  lemma RowCount(k: nat)
    ensures var n := k / 32;
            32 * n + k % 32 == k && (k + 31) / 32 == (if k % 32 == 0 then n else n + 1) && (k + 32) / 32 == n + 1
  {
    Rounded(k, 32, k / 32);
  }

  /** One more byte of the data is one more byte of the rows, in a new row or a new group when it is due. */
  lemma RowsStep(row: nat, data: Bytes, b: byte)
    ensures var k, rows := |data|, RowsOf(row, data);
            RowsOf(row, data + [b])
            == AddByte(if k % 32 == 0 then AddGroup(rows + [Row((row + k / 32) % UINT, [])])
                       else if k % 16 == 0 then AddGroup(rows) else rows, b)
  {
    hide AddByte, AddGroup, RowsOf, Groups;
    var k, n := |data|, |data| / 32;
    RowCount(k);
    var rows, now := RowsOf(row, data), RowsOf(row, data + [b]);
    RowsStay(row, data, b, n);
    if k % 32 == 0 {
      FirstByte(row, data, b, n);
      assert rows[..n] == rows && now == now[..n] + [now[n]];
      FirstOfRow(rows, (row + n) % UINT, b);
    } else {
      var part := data[32 * n..];
      LastRow(row, data, b, n);
      GroupsStep(part, b);
      NextInRow(rows, now, part, b);
    }
  }

  lemma RowsStay(row: nat, data: Bytes, b: byte, n: nat)
    requires 32 * n <= |data|
    ensures n <= |RowsOf(row, data)| && n <= |RowsOf(row, data + [b])|
    ensures RowsOf(row, data + [b])[..n] == RowsOf(row, data)[..n]
  {
    hide RowAt;
    var all := data + [b];
    forall i | 0 <= i < n ensures RowAt(row, all, i) == RowAt(row, data, i) {
      RowStays(row, data, all, i);
    }
  }

  /** Whole rows are whole groups. */
  lemma {:induction false} Sixteens(j: nat, n: nat)
    ensures (j + 32 * n) % 16 == j % 16
  {
    if n > 0 {
      Sixteens(j, n - 1);
      AddThirtyTwo(j + 32 * (n - 1));
    }
  }

  lemma AddThirtyTwo(x: nat)
    ensures (x + 32) % 16 == x % 16
  {
  }

  lemma FirstByte(row: nat, data: Bytes, b: byte, n: nat)
    requires |data| == 32 * n
    ensures var now := RowsOf(row, data + [b]); |now| == n + 1 && now[n] == Row((row + n) % UINT, [[b]])
  {
    assert (data + [b])[32 * n..] == [b];
  }

  lemma LastRow(row: nat, data: Bytes, b: byte, n: nat)
    requires 32 * n < |data| < 32 * n + 32
    ensures var rows, now := RowsOf(row, data), RowsOf(row, data + [b]);
            && |rows| == |now| == n + 1 && rows[n] == Row((row + n) % UINT, Groups(data[32 * n..]))
            && now[n] == Row((row + n) % UINT, Groups(data[32 * n..] + [b]))
    ensures (|data| - 32 * n) % 16 == |data| % 16
  {
    hide Groups;
    Sixteens(|data| - 32 * n, n);
    var all := data + [b];
    assert all[32 * n..] == data[32 * n..] + [b];
    assert |all| == 32 * n + 32 ==> all[32 * n..32 * n + 32] == all[32 * n..];
  }

  lemma FirstOfRow(rows: seq<Row>, number: nat, b: byte)
    ensures AddByte(AddGroup(rows + [Row(number, [])]), b) == rows + [Row(number, [[b]])]
  {
    hide AddByte, AddGroup;
    var none: seq<Bytes>, empty: Bytes := [], [];
    GroupBehind(rows, Row(number, none));
    assert none + [[]] == [empty];
    ByteBehind(rows, Row(number, [empty]), b);
    assert empty + [b] == [b];
    assert [empty][..0] + [empty + [b]] == [[b]];
  }

  lemma GroupBehind(rows: seq<Row>, last: Row)
    ensures AddGroup(rows + [last]) == rows + [last.(groups := last.groups + [[]])]
  {
    assert (rows + [last])[..|rows|] == rows;
  }

  lemma ByteBehind(rows: seq<Row>, last: Row, b: byte)
    requires last.groups != []
    ensures var n := |last.groups| - 1;
            AddByte(rows + [last], b) == rows + [last.(groups := last.groups[..n] + [last.groups[n] + [b]])]
  {
    assert (rows + [last])[..|rows|] == rows;
  }

  lemma GroupsStep(part: Bytes, b: byte)
    requires 1 <= |part| <= 31
    ensures var g := if |part| % 16 == 0 then Groups(part) + [[]] else Groups(part);
            Groups(part + [b]) == g[..|g| - 1] + [g[|g| - 1] + [b]]
  {
    var all := part + [b];
    if |part| == 16 {
      assert all[..16] == part && all[16..] == [] + [b];
      assert (Groups(part) + [[]])[..1] == Groups(part);
    } else if |part| > 16 {
      assert all[..16] == part[..16] && all[16..] == part[16..] + [b];
    }
  }

  lemma NextInRow(rows: seq<Row>, now: seq<Row>, part: Bytes, b: byte)
    requires rows != [] && |now| == |rows| && now[..|rows| - 1] == rows[..|rows| - 1] && 1 <= |part| <= 31
    requires var last, g := rows[|rows| - 1], if |part| % 16 == 0 then Groups(part) + [[]] else Groups(part);
             last.groups == Groups(part) && now[|rows| - 1] == last.(groups := g[..|g| - 1] + [g[|g| - 1] + [b]])
    ensures now == AddByte(if |part| % 16 == 0 then AddGroup(rows) else rows, b)
  {
    var n := |rows| - 1;
    var with := if |part| % 16 == 0 then AddGroup(rows) else rows;
    assert with[..n] == rows[..n];
    assert now == now[..n] + [now[n]];
  }

  /** Rows before do not matter to what is added at the end. */
  lemma AddBehind(before: seq<Row>, rows: seq<Row>, b: byte)
    requires rows != []
    ensures AddGroup(before + rows) == before + AddGroup(rows)
    ensures AddByte(before + rows, b) == before + AddByte(rows, b)
    ensures AddGroup(rows) != []
  {
    assert (before + rows)[..|before + rows| - 1] == before + rows[..|rows| - 1];
  }

  /** Whole rows can be split off. */
  lemma RowsSplit(row: nat, data: Bytes, k: nat)
    requires 32 * k <= |data|
    ensures RowsOf(row, data) == RowsOf(row, data[..32 * k]) + RowsOf(row + k, data[32 * k..])
  {
    hide RowAt;
    var front, rest := data[..32 * k], data[32 * k..];
    var a, b, all := RowsOf(row, front), RowsOf(row + k, rest), RowsOf(row, data);
    SplitCount(|rest|, k);
    forall i | 0 <= i < k ensures all[i] == a[i] {
      RowStays(row, front, data, i);
    }
    forall i | 0 <= i < |b| ensures all[k + i] == b[i] {
      RowShifts(row, data, k, i);
    }
  }

  lemma SplitCount(n: nat, k: nat)
    ensures (32 * k + n + 31) / 32 == k + (n + 31) / 32 && (32 * k + 31) / 32 == k
  {
  }

  lemma RowShifts(row: nat, data: Bytes, k: nat, i: nat)
    requires 32 * k + 32 * i < |data|
    ensures RowAt(row, data, k + i) == RowAt(row + k, data[32 * k..], i)
  {
    var rest := data[32 * k..];
    var p := 32 * (k + i);
    assert rest[32 * i..] == data[p..];
    assert p + 32 <= |data| ==> rest[32 * i..32 * i + 32] == data[p..p + 32];
  }

  // ---------------------------------------------------------------- what a reader gets

  /** A reader in front of a chunk gets the bytes of the chunk, and its rows. */
  lemma {:induction false} ReadCells(r: Reader, row: nat, data: Bytes)
    requires r.place == InNumber(0)
    ensures Read(r, Cells(row, data))
            == Reader(if data == [] then InNumber(0) else InRow, r.data + data, r.rows + RowsOf(row, data))
  {
    hide Read, Lead, Pair, RowsOf, AddByte, AddGroup;
    if data != [] {
      var k := |data| - 1;
      var front, b := data[..k], data[k];
      assert front + [b] == data;
      ReadCells(r, row, front);
      ReadOn(r, Cells(row, front) + Lead(row, k), Pair(b));
      ReadOn(r, Cells(row, front), Lead(row, k));
      var r1 := Reader(if k == 0 then InNumber(0) else InRow, r.data + front, r.rows + RowsOf(row, front));
      ReadLead(r1, row, k);
      ReadPair(Read(r1, Lead(row, k)), b);
      RowsStep(row, front, b);
      RowsBehind(r.rows, row, front, b);
      assert r.data + data == r.data + front + [b];
    } else {
      assert r.data + data == r.data;
      NoRows(row);
      assert r.rows + [] == r.rows;
      ReadNone(r);
    }
  }

  lemma NoRows(row: nat)
    ensures RowsOf(row, []) == []
  {}

  lemma RowsBehind(before: seq<Row>, row: nat, front: Bytes, b: byte)
    ensures var k, rows, first := |front|, RowsOf(row, front), Row((row + |front| / 32) % UINT, []);
            AddByte(if k % 32 == 0 then AddGroup(before + rows + [first])
                    else if k % 16 == 0 then AddGroup(before + rows) else before + rows, b)
            == before + AddByte(if k % 32 == 0 then AddGroup(rows + [first])
                                else if k % 16 == 0 then AddGroup(rows) else rows, b)
  {
    hide AddByte, AddGroup;
    var k, rows, first := |front|, RowsOf(row, front), Row((row + |front| / 32) % UINT, []);
    if k % 32 == 0 {
      assert before + rows + [first] == before + (rows + [first]);
      AddBehind(before, rows + [first], b);
      AddBehind(before, AddGroup(rows + [first]), b);
    } else {
      assert rows != [];
      AddBehind(before, rows, b);
      AddBehind(before, AddGroup(rows), b);
    }
  }

  lemma ReadChunk(r: Reader, row: nat, data: Bytes)
    requires r.place == InNumber(0) && data != []
    ensures Read(r, Cells(row, data) + [LF]) == Reader(InNumber(0), r.data + data, r.rows + RowsOf(row, data))
  {
    hide Read, RowsOf;
    ReadCells(r, row, data);
    ReadOn(r, Cells(row, data), [LF]);
    ReadTwo(Read(r, Cells(row, data)), LF, LF);
  }

  /** Reading the chunks back gives the bytes dumped in rows of 32, whatever their number and the row they start at: no
      row is broken where a chunk ends. */
  lemma {:induction false} ReadChunks(r: Reader, row: nat, data: Bytes)
    requires r.place == InNumber(0)
    ensures Read(r, Chunks(row, data)) == Reader(InNumber(0), r.data + data, r.rows + RowsOf(row, data))
    decreases |data|
  {
    hide Read, Cells, RowsOf;
    if data == [] {
      assert r.data + data == r.data;
      NoRows(row);
      assert r.rows + [] == r.rows;
      ReadNone(r);
    } else if |data| <= PRINTSIZE {
      ReadChunk(r, row, data);
    } else {
      var here, rest := data[..PRINTSIZE], data[PRINTSIZE..];
      ReadChunk(r, row, here);
      ReadOn(r, Cells(row, here) + [LF], Chunks(row + 16, rest));
      ReadChunks(Reader(InNumber(0), r.data + here, r.rows + RowsOf(row, here)), row + 16, rest);
      RowsSplit(row, data, 16);
      assert r.data + here + rest == r.data + data;
      assert r.rows + RowsOf(row, here) + RowsOf(row + 16, rest) == r.rows + RowsOf(row, data);
    }
  }

  lemma {:induction false} ReadTitle(s: Bytes)
    requires OneLine(s)
    ensures Read(Reader(InTitle, [], []), s) == Reader(InTitle, [], [])
  {
    if s != [] {
      ReadTitle(s[..|s| - 1]);
    }
  }

  predicate OneLine(s: Bytes) {
    forall i | 0 <= i < |s| :: s[i] != LF
  }

  lemma DecimalOneLine(n: int)
    ensures OneLine(Dec(n))
  {}

  lemma TitleLine(address: int, size: nat) returns (line: Bytes)
    ensures Title(address, size) == line + [LF] && OneLine(line)
  {
    var a, b, c := Ascii("address["), Ascii("] size["), Ascii("] ");
    assert OneLine(a) && OneLine(b) && OneLine(c);
    assert Ascii("] \n") == c + [LF];
    DecimalOneLine(address);
    DecimalOneLine(size);
    line := a + Dec(address) + b + DecNat(size) + c;
    assert OneLine(a + Dec(address)) && OneLine(a + Dec(address) + b) && OneLine(a + Dec(address) + b + DecNat(size));
  }

  /** The title names the address first and then the size. */
  lemma TitleExample()
    ensures Title(-3, 20) == Ascii("address[-3] size[20] \n")
  {
    assert Dec(-3) == Ascii("-3") && DecNat(20) == DecNat(2) + [ZERO] == Ascii("20");
  }

  /** The whole dump reads back as the bytes dumped, in rows of 32 numbered from 0 in 32 bits, each in groups of
      sixteen. */
  lemma DumpReadsBack(address: int, data: Bytes)
    ensures Undump(Title(address, |data|) + Chunks(0, data)) == Reader(InNumber(0), data, RowsOf(0, data))
  {
    hide Read, Chunks, Title, RowsOf;
    var r := Reader(InTitle, [], []);
    var title := Title(address, |data|);
    var line := TitleLine(address, |data|);
    ReadTitle(line);
    ReadOn(r, line, [LF]);
    ReadTwo(r, LF, LF);
    ReadOn(r, title, Chunks(0, data));
    ReadChunks(Reader(InNumber(0), [], []), 0, data);
    assert [] + data == data && [] + RowsOf(0, data) == RowsOf(0, data);
  }

  // ---------------------------------------------------------------- the code

  /** The buffer holds a C string and nothing behind it. */
  ghost predicate HoldsString(szbuf: array<byte>, text: Bytes)
    reads szbuf
  {
    && szbuf.Length == BUFSIZE && |text| < BUFSIZE
    && (forall i | 0 <= i < |text| :: text[i] != 0)
    && szbuf[..|text|] == text
    && (forall i | |text| <= i < BUFSIZE :: szbuf[i] == 0)
  }

  method Strlen(szbuf: array<byte>, ghost text: Bytes) returns (len: nat)
    requires HoldsString(szbuf, text)
    ensures len == |text|
  {
    len := 0;
    assert forall i | 0 <= i < |text| :: szbuf[i] == szbuf[..|text|][i] == text[i];
    while szbuf[len] != 0
      invariant len <= |text|
      decreases |text| - len
    {
      len := len + 1;
    }
  }

  /** `strcat` behind a string that is as long as `len` says. */
  method Strcat(szbuf: array<byte>, src: Bytes, ghost text: Bytes)
    requires HoldsString(szbuf, text) && |text| + |src| < BUFSIZE
    requires forall i | 0 <= i < |src| :: src[i] != 0
    modifies szbuf
    ensures HoldsString(szbuf, text + src)
  {
    var len := Strlen(szbuf, text);
    var i := 0;
    while i < |src|
      invariant 0 <= i <= |src|
      invariant HoldsString(szbuf, text + src[..i])
    {
      szbuf[len + i] := src[i];
      assert text + src[..i + 1] == text + src[..i] + [src[i]];
      i := i + 1;
    }
    szbuf[len + i] := 0;
    assert src[..i] == src;
  }

  method Put(szbuf: array<byte>, len: nat, c: byte, ghost text: Bytes)
    requires HoldsString(szbuf, text) && len == |text| && len + 1 < BUFSIZE && c != 0
    modifies szbuf
    ensures HoldsString(szbuf, text + [c])
  {
    szbuf[len] := c;
    assert szbuf[..len + 1] == szbuf[..len] + [c];
  }

  method Memset(szbuf: array<byte>)
    requires szbuf.Length == BUFSIZE
    modifies szbuf
    ensures HoldsString(szbuf, [])
  {
    var i := 0;
    while i < szbuf.Length
      invariant 0 <= i <= szbuf.Length
      invariant forall j | 0 <= j < i :: szbuf[j] == 0
    {
      szbuf[i] := 0;
      i := i + 1;
    }
  }

  /** One chunk of at most `PRINTSIZE` bytes into the cleared buffer: it is never cut short and never runs over. */
  method FormLog(index: nat, szbuf: array<byte>, buffer: Bytes, ghost row: nat) returns (next: nat)
    requires HoldsString(szbuf, []) && |buffer| <= PRINTSIZE
    requires index == row % UINT
    modifies szbuf
    ensures HoldsString(szbuf, Cells(row, buffer) + [LF])
    ensures next == (row + (|buffer| + 31) / 32) % UINT
  {
    hide HoldsString, Cells, Lead, Header, HexDigit;
    var len, lsize, headlen := 0, 0, 0;
    next := index;
    ghost var text: Bytes := [];
    NoCells(row);
    while |buffer| > lsize && len + 10 < BUFSIZE
      invariant lsize <= |buffer| && len == |text|
      invariant text == Cells(row, buffer[..lsize]) && HoldsString(szbuf, text)
      invariant headlen == 0 <==> lsize == 0
      invariant next == (row + (lsize + 31) / 32) % UINT
    {
      OneCell(row, buffer, lsize);
      len, headlen, next := PutLead(next, szbuf, len, lsize, headlen, row, text);
      text := text + Lead(row, lsize);
      Put(szbuf, len, HexDigit(buffer[lsize] / 16), text);
      Put(szbuf, len + 1, HexDigit(buffer[lsize] % 16), text + [HexDigit(buffer[lsize] / 16)]);
      assert text + [HexDigit(buffer[lsize] / 16)] + [HexDigit(buffer[lsize] % 16)] == text + Pair(buffer[lsize]);
      text := text + Pair(buffer[lsize]);
      len := len + 2;
      lsize := lsize + 1;
    }
    ChunkFits(row, buffer[..lsize]);
    assert buffer[..lsize] == buffer;
    Put(szbuf, len, LF, text);
    len := len + 1;
    Terminate(szbuf, len, text + [LF]);
  }

  /** What stands in front of a byte: at a new row the line end of the last one and the number, and a gap. */
  method PutLead(index: nat, szbuf: array<byte>, len: nat, lsize: nat, headlen: nat, ghost row: nat, ghost text: Bytes)
    returns (len': nat, headlen': nat, next: nat)
    requires HoldsString(szbuf, text) && len == |text| && len + 30 < BUFSIZE && |Header(row + lsize / 32)| <= 11
    requires headlen == 0 <==> lsize == 0
    requires index == (row + (lsize + 31) / 32) % UINT
    modifies szbuf
    ensures HoldsString(szbuf, text + Lead(row, lsize)) && len' == |text + Lead(row, lsize)|
    ensures headlen' != 0
    ensures next == (row + (lsize + 32) / 32) % UINT
    ensures |Lead(row, lsize)| <= 13
  {
    hide HoldsString, Header, Padded, Lead, Filled;
    len', headlen', next := len, headlen, index;
    RowNumber(row, lsize, index);
    LeadIs(text, row, lsize);
    ghost var front := text;
    if lsize % 32 == 0 {
      if headlen != 0 {
        Put(szbuf, len', LF, front);
        len', front := len' + 1, front + [LF];
      }
      var szhead := Padded(next) + [SPACE];
      HeaderIs(row, lsize, next);
      next := (next + 1) % UINT;
      headlen' := |szhead|;
      Strcat(szbuf, szhead, front);
      len', front := len' + headlen', front + szhead;
    }
    if lsize % 16 == 0 && headlen' != 0 {
      Put(szbuf, len', SPACE, front);
      len', front := len' + 1, front + [SPACE];
    }
    assert front == text + Lead(row, lsize);
  }

  lemma LeadIs(text: Bytes, row: nat, k: nat)
    ensures var feed := if k % 32 == 0 && k != 0 then text + [LF] else text;
            var head := if k % 32 == 0 then feed + Header(row + k / 32) else feed;
            text + Lead(row, k) == if k % 16 == 0 then head + [SPACE] else head
  {}

  /** Row numbers go up by one at each new row, in 32 bits. */
  lemma RowNumber(row: nat, k: nat, index: nat)
    requires index == (row + (k + 31) / 32) % UINT
    ensures (row + (k + 32) / 32) % UINT == if k % 32 == 0 then (index + 1) % UINT else index
  {
    Rounded(k, 32, k / 32);
    Successor(row + (k + 31) / 32);
  }

  lemma Successor(n: nat)
    ensures (n % UINT + 1) % UINT == (n + 1) % UINT
  {
    var q := n / UINT;
    assert n == UINT * q + n % UINT;
    if n % UINT + 1 == UINT {
      assert n + 1 == UINT * (q + 1);
    } else {
      assert n + 1 == UINT * q + (n % UINT + 1);
    }
  }

  lemma HeaderIs(row: nat, lsize: nat, index: nat)
    requires lsize % 32 == 0 && index == (row + (lsize + 31) / 32) % UINT
    ensures Padded(index) + [SPACE] == Header(row + lsize / 32)
  {}

  method Terminate(szbuf: array<byte>, len: nat, ghost text: Bytes)
    requires HoldsString(szbuf, text) && len == |text|
    modifies szbuf
    ensures HoldsString(szbuf, text)
  {
    szbuf[len] := 0;
  }

  lemma NoCells(row: nat)
    ensures Cells(row, []) == []
  {}

  lemma OneCell(row: nat, buffer: Bytes, k: nat)
    requires k < |buffer| <= PRINTSIZE
    ensures Cells(row, buffer[..k + 1]) == Cells(row, buffer[..k]) + Lead(row, k) + Pair(buffer[k])
    ensures |Cells(row, buffer[..k])| + 30 < BUFSIZE && |Header(row + k / 32)| <= 11
  {
    hide Lead, Pair, Header;
    assert buffer[..k + 1][..k] == buffer[..k];
    ChunkFits(row, buffer[..k]);
    HeaderLength(row + k / 32);
  }

  lemma ChunkFits(row: nat, data: Bytes)
    requires |data| <= PRINTSIZE
    ensures |Cells(row, data)| + 30 < BUFSIZE
  {
    hide Cells;
    CellsLength(row, data);
    assert (|data| + 15) / 16 <= 32 && (|data| + 31) / 32 <= 16;
  }

  /** The whole dump: the line that is logged reads back as the bytes dumped. */
  method OutputBinary(address: int, buffer: Bytes) returns (line: Bytes)
    ensures line == Title(address, |buffer|) + Chunks(0, buffer)
    ensures Undump(line) == Reader(InNumber(0), buffer, RowsOf(0, buffer))
  {
    hide HoldsString, Chunks, Cells, Title, Undump, RowsOf;
    var szbuf := new byte[BUFSIZE];
    var lsize: nat, index: nat := 0, 0;
    ghost var row: nat := 0;
    line := Title(address, |buffer|);
    assert buffer[0..] == buffer;
    while |buffer| > lsize
      invariant lsize <= |buffer| && index == row % UINT
      invariant line + Chunks(row, buffer[lsize..]) == Title(address, |buffer|) + Chunks(0, buffer)
    {
      Memset(szbuf);
      var n := if |buffer| - lsize > PRINTSIZE then PRINTSIZE else |buffer| - lsize;
      var chunk := buffer[lsize..lsize + n];
      NextChunk(row, buffer, lsize, n);
      index := FormLog(index, szbuf, chunk, row);
      var text := CString(szbuf, Cells(row, chunk) + [LF]);
      line := line + text;
      row := row + (n + 31) / 32;
      lsize := lsize + n;
    }
    assert buffer[lsize..] == [];
    NoChunks(row);
    DumpReadsBack(address, buffer);
  }

  method CString(szbuf: array<byte>, ghost text: Bytes) returns (s: Bytes)
    requires HoldsString(szbuf, text)
    ensures s == text
  {
    var len := Strlen(szbuf, text);
    s := szbuf[..len];
  }

  lemma NextChunk(row: nat, data: Bytes, k: nat, n: nat)
    requires k < |data| && n == if |data| - k > PRINTSIZE then PRINTSIZE else |data| - k
    ensures Chunks(row, data[k..]) == Cells(row, data[k..k + n]) + [LF] + Chunks(row + (n + 31) / 32, data[k + n..])
  {
    hide Cells;
    assert data[k..][..n] == data[k..k + n] && data[k..][n..] == data[k + n..];
    if k + n == |data| {
      assert data[k..k + n] == data[k..] && data[k + n..] == [];
      NoChunks(row + (n + 31) / 32);
    } else {
      assert n == PRINTSIZE && (n + 31) / 32 == 16;
    }
  }

  lemma NoChunks(row: nat)
    ensures Chunks(row, []) == []
  {}
}
