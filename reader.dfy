/** read_sendump: the header strings, the two counts, then 4 * r blocks of c bytes, one per
    (feature stream i, row j), each spread over the column opdf[:, i, j] as an exponent b << 10. */
module Reader {
  import opened Results
  import opened Bytes
  import opened Header
  import opened Arith

  /** What read_sendump learns before the pdf blocks: the header, r (rows per stream), c (entries
      per block) and the position of the first block. */
  datatype Layout = Layout(header: Header, rows: nat, cols: nat, body: nat)

  /** The header, then struct.unpack('II', read(8)) in the reader's byte order. A stream that ends
      inside the header or inside the two counts is a DecodeError. */
  function ReadCounts(order: ByteOrder, data: seq<byte>): (res: Result<Layout>)
    ensures res.Ok? ==> res.value.body <= |data|
    ensures ParseHeader(order, data).Err? ==> res == Err(ParseHeader(order, data).error)
    ensures ParseHeader(order, data).Ok? ==>
      var p := ParseHeader(order, data).value.next;
      && (res.Err? <==> |data| < p + 8)
      && (res.Err? ==> res.error == DecodeError)
      && (res.Ok? ==> (
        && p + 8 <= |data|
        && res.value.header == ParseHeader(order, data).value.value
        && res.value.rows == U32(order, data[p..p + 4])
        && res.value.cols == U32(order, data[p + 4..p + 8])
        && res.value.body == p + 8))
  {
    match ParseHeader(order, data)
    case Err(e) => Err(e)
    case Ok(Read(h, pos)) =>
      if |data| < pos + 8 then Err(DecodeError)
      else Ok(Layout(h, U32(order, data[pos..pos + 4]), U32(order, data[pos + 4..pos + 8]), pos + 8))
  }

  /** Where block q (q = i * r + j) would start if every block before it were complete. */
  function BlockStart(l: Layout, q: nat): nat
  {
    l.body + q * l.cols
  }

  /** How many bytes numpy.fromfile(fh, 'B', c) returns for block q: c when the file holds the whole
      block, what is left of the file when it ends inside the block, nothing when it ends before it. */
  function Avail(data: seq<byte>, l: Layout, q: nat): (k: nat)
    ensures k <= l.cols
    ensures k == l.cols || BlockStart(l, q) + k == |data| || (k == 0 && |data| <= BlockStart(l, q))
    ensures k == 0 || BlockStart(l, q) + k <= |data|
  {
    var start := BlockStart(l, q);
    if start + l.cols <= |data| then l.cols
    else if start < |data| then |data| - start
    else 0
  }

  /** Assigning the block to opdf[:, i, j] succeeds when it has c values, or one value that numpy
      broadcasts over the column; any other length is a broadcast error. */
  predicate BlockFits(data: seq<byte>, l: Layout, q: nat)
  {
    Avail(data, l, q) == l.cols || Avail(data, l, q) == 1
  }

  /** In terms of file positions: a block can be assigned iff its column is empty, the block is
      whole in the file, or the file ends exactly one byte into it. */
  lemma BlockFitsAt(data: seq<byte>, l: Layout, q: nat)
    ensures BlockFits(data, l, q) <==>
      l.cols == 0 || BlockStart(l, q) + l.cols <= |data| || BlockStart(l, q) + 1 == |data|
  {
  }

  predicate BlocksFit(data: seq<byte>, l: Layout)
  {
    forall q :: 0 <= q < 4 * l.rows ==> BlockFits(data, l, q)
  }

  /** The value read_sendump leaves in opdf[s, i, j] for q = i * r + j, as the exponent b << 10 that
      numpy.power(1.0001, -x) is then applied to: the s-th byte of the block, or the block's single
      byte when a short read left only one. */
  function Cell(data: seq<byte>, l: Layout, s: nat, q: nat): int
    requires s < l.cols && BlockFits(data, l, q)
  {
    var start := BlockStart(l, q);
    if start + l.cols <= |data| then (data[start + s] as int) * 1024 else (data[start] as int) * 1024
  }

  /** A cell holds a byte shifted up by 10: entry s of a whole block, or, for a block cut to one
      byte, the last byte of the file. */
  lemma CellValue(data: seq<byte>, l: Layout, s: nat, q: nat)
    requires s < l.cols && BlockFits(data, l, q)
    ensures 0 <= Cell(data, l, s, q) < 0x100 * 1024 && Cell(data, l, s, q) % 1024 == 0
    ensures BlockStart(l, q) + l.cols <= |data| ==> Cell(data, l, s, q) == (data[BlockStart(l, q) + s] as int) * 1024
    ensures BlockStart(l, q) + l.cols > |data| ==> 0 < |data| && Cell(data, l, s, q) == (data[|data| - 1] as int) * 1024
  {
  }

  /** The whole of read_sendump as a value: the layout when the header, the counts and every block
      assignment succeed, a DecodeError otherwise. Once the counts are read, the outcome follows from
      the length of the file. */
  function Decode(order: ByteOrder, data: seq<byte>): (res: Result<Layout>)
    ensures res.Ok? <==> ReadCounts(order, data).Ok? && BlocksFit(data, ReadCounts(order, data).value)
    ensures res.Ok? ==> res == ReadCounts(order, data)
    ensures ReadCounts(order, data).Ok? ==> var l := ReadCounts(order, data).value;
      (res.Ok? <==> (|| l.rows == 0
                     || l.body + 4 * l.rows * l.cols <= |data|
                     || |data| == l.body + (4 * l.rows - 1) * l.cols + 1))
  {
    match ReadCounts(order, data)
    case Err(e) => Err(e)
    case Ok(l) =>
      BlocksFitLength(data, l);
      if BlocksFit(data, l) then Ok(l) else Err(DecodeError)
  }

  /** Once the counts are read, read_sendump succeeds exactly when every block can be assigned. */
  lemma DecodeAfterCounts(order: ByteOrder, data: seq<byte>, l: Layout, ok: bool)
    requires ReadCounts(order, data) == Ok(l) && (ok <==> BlocksFit(data, l))
    ensures Decode(order, data) == if ok then Ok(l) else Err(DecodeError)
  {
  }

  /** Whether the block loops succeed depends on the length of the file alone: they succeed iff there
      are no blocks, the file holds every block in full, or it ends exactly one byte into the last
      block, which numpy then broadcasts. A file cut anywhere else inside the block table fails. */
  lemma BlocksFitLength(data: seq<byte>, l: Layout)
    requires l.body <= |data|
    ensures BlocksFit(data, l) <==>
      l.rows == 0 || l.body + 4 * l.rows * l.cols <= |data| || |data| == l.body + (4 * l.rows - 1) * l.cols + 1
  {
    var n := 4 * l.rows;
    if l.rows > 0 {
      MulSucc(n - 1, l.cols);
      if BlocksFit(data, l) {
        assert BlockFits(data, l, n - 1);
      } else if l.body + n * l.cols <= |data| {
        CompleteBlocks(data, l);
      } else if |data| == l.body + (n - 1) * l.cols + 1 {
        forall q | 0 <= q < n
          ensures BlockFits(data, l, q)
        {
          if q < n - 1 {
            MulMonotone(q + 1, n - 1, l.cols);
            MulSucc(q, l.cols);
          }
        }
      }
    }
  }

  /** Reading block q from a cursor at min(BlockStart(q), |data|) sees Avail(q) bytes, and they are
      the bytes Cell takes. */
  lemma BlockFromCursor(data: seq<byte>, l: Layout, q: nat, pos: nat)
    requires pos == Cursor(data, l, q)
    ensures Avail(data, l, q) == if pos + l.cols <= |data| then l.cols else |data| - pos
    ensures BlockFits(data, l, q) && 0 < l.cols ==> pos == BlockStart(l, q) < |data|
  {
  }

  /** After a block that numpy could assign, the cursor stands where the next block would start. */
  lemma CursorStep(data: seq<byte>, l: Layout, q: nat, pos: nat)
    requires pos == Cursor(data, l, q) && BlockFits(data, l, q)
    ensures pos + Avail(data, l, q) == Cursor(data, l, q + 1)
  {
    MulSucc(q, l.cols);
  }

  /** opdf[:, i, j] = the block of k bytes at pos, shifted up by 10: the bytes one by one when k == c,
      the single byte broadcast over the column when k == 1. No other cell changes. */
  method StoreBlock(data: seq<byte>, l: Layout, q: nat, pos: nat, k: nat, opdf: array3<int>, i: nat, j: nat)
    requires pos == Cursor(data, l, q)
    requires k == Avail(data, l, q) && BlockFits(data, l, q)
    requires k == if pos + l.cols <= |data| then l.cols else |data| - pos
    requires opdf.Length0 == l.cols && i < opdf.Length1 && j < opdf.Length2
    modifies opdf
    ensures forall s :: 0 <= s < l.cols ==> opdf[s, i, j] == Cell(data, l, s, q)
    ensures forall s, i', j' :: (0 <= s < opdf.Length0 && 0 <= i' < opdf.Length1 && 0 <= j' < opdf.Length2
      && (i' != i || j' != j)) ==> opdf[s, i', j'] == old(opdf[s, i', j'])
  {
    BlockFromCursor(data, l, q, pos);
    for s := 0 to l.cols
      invariant forall s' :: 0 <= s' < s ==> opdf[s', i, j] == Cell(data, l, s', q)
      invariant forall s', i', j' :: (0 <= s' < opdf.Length0 && 0 <= i' < opdf.Length1 && 0 <= j' < opdf.Length2
        && (i' != i || j' != j)) ==> opdf[s', i', j'] == old(opdf[s', i', j'])
    {
      opdf[s, i, j] := (if k == l.cols then data[pos + s] as int else data[pos] as int) * 1024;
    }
  }

  /** One block of the j loop: mixw = numpy.fromfile(fh, 'B', c) at the cursor, then the assignment to
      opdf[:, i, j], which fails unless the block has c bytes or one. No other column changes. */
  method ReadBlock(data: seq<byte>, l: Layout, q: nat, pos: nat, opdf: array3<int>, i: nat, j: nat)
    returns (ok: bool, next: nat)
    requires pos == Cursor(data, l, q)
    requires opdf.Length0 == l.cols && i < opdf.Length1 && j < opdf.Length2
    modifies opdf
    ensures ok <==> BlockFits(data, l, q)
    ensures ok ==> next == Cursor(data, l, q + 1)
    ensures ok ==> forall s :: 0 <= s < l.cols ==> opdf[s, i, j] == Cell(data, l, s, q)
    ensures forall s, i', j' :: (0 <= s < opdf.Length0 && 0 <= i' < opdf.Length1 && 0 <= j' < opdf.Length2
      && (i' != i || j' != j)) ==> opdf[s, i', j'] == old(opdf[s, i', j'])
  {
    BlockFromCursor(data, l, q, pos);
    var k := if pos + l.cols <= |data| then l.cols else |data| - pos;
    if k != l.cols && k != 1 {
      return false, pos;
    }
    StoreBlock(data, l, q, pos, k, opdf, i, j);
    CursorStep(data, l, q, pos);
    ok, next := true, pos + k;
  }

  /** Where the cursor stands before block q: after every earlier block, or at the end of the file. */
  function Cursor(data: seq<byte>, l: Layout, q: nat): nat
  {
    if BlockStart(l, q) <= |data| then BlockStart(l, q) else |data|
  }

  /** Stream i of the block loop: for j in 0..r-1, read block i * r + j at the cursor and store it in
      opdf[:, i, j]. It stops with false at the first block numpy could not assign to its column. */
  method ReadRow(data: seq<byte>, l: Layout, opdf: array3<int>, i: nat, base: nat, pos0: nat) returns (ok: bool, pos: nat)
    requires base == i * l.rows
    requires pos0 == Cursor(data, l, base)
    requires opdf.Length0 == l.cols && i < opdf.Length1 && opdf.Length2 == l.rows
    modifies opdf
    ensures ok <==> forall q :: base <= q < base + l.rows ==> BlockFits(data, l, q)
    ensures ok ==> pos == Cursor(data, l, base + l.rows)
    ensures ok ==> forall s, j :: 0 <= s < l.cols && 0 <= j < l.rows ==>
      opdf[s, i, j] == Cell(data, l, s, base + j)
    ensures forall s, i', j :: (0 <= s < opdf.Length0 && 0 <= i' < opdf.Length1 && 0 <= j < opdf.Length2
      && i' != i) ==> opdf[s, i', j] == old(opdf[s, i', j])
  {
    var r, c := l.rows, l.cols;
    pos := pos0;
    for j := 0 to r
      invariant pos == Cursor(data, l, base + j)
      invariant forall q :: base <= q < base + j ==> BlockFits(data, l, q)
      invariant forall s, j' :: 0 <= s < c && 0 <= j' < j ==> opdf[s, i, j'] == Cell(data, l, s, base + j')
      invariant forall s, i', j' :: (0 <= s < opdf.Length0 && 0 <= i' < opdf.Length1 && 0 <= j' < opdf.Length2
        && i' != i) ==> opdf[s, i', j'] == old(opdf[s, i', j'])
    {
      var blockOk, next := ReadBlock(data, l, base + j, pos, opdf, i, j);
      if !blockOk {
        return false, pos;
      }
      pos := next;
    }
    ok := true;
  }

  /** The block loop of read_sendump: the four streams one after the other. */
  method ReadBlocks(data: seq<byte>, l: Layout, opdf: array3<int>) returns (ok: bool)
    requires l.body <= |data|
    requires opdf.Length0 == l.cols && opdf.Length1 == 4 && opdf.Length2 == l.rows
    modifies opdf
    ensures ok <==> BlocksFit(data, l)
    ensures ok ==> forall s, i, j :: 0 <= s < l.cols && 0 <= i < 4 && 0 <= j < l.rows ==>
      opdf[s, i, j] == Cell(data, l, s, i * l.rows + j)
  {
    var r := l.rows;
    var pos := l.body;
    for i := 0 to 4
      invariant pos == Cursor(data, l, i * r)
      invariant forall q :: 0 <= q < i * r ==> BlockFits(data, l, q)
      invariant forall s, i', j :: 0 <= s < l.cols && 0 <= i' < i && 0 <= j < r ==>
        opdf[s, i', j] == Cell(data, l, s, i' * r + j)
    {
      var rowOk;
      rowOk, pos := ReadRow(data, l, opdf, i, i * r, pos);
      if !rowOk {
        ghost var q :| i * r <= q < i * r + r && !BlockFits(data, l, q);
        MulMonotone(i + 1, 4, r);
        return false;
      }
      assert i * r + r == (i + 1) * r;
    }
    ok := true;
  }

  /** read_sendump. The array has the shape (c, 4, r) of numpy.empty((c,4,r)), allocated once the
      counts are known. */
  method ReadSendump(order: ByteOrder, data: seq<byte>) returns (res: Result<Layout>, opdf: array3<int>)
    ensures res == Decode(order, data)
    ensures fresh(opdf)
    ensures res.Ok? ==>
      opdf.Length0 == res.value.cols && opdf.Length1 == 4 && opdf.Length2 == res.value.rows
    ensures res.Ok? ==> forall s, i, j :: 0 <= s < opdf.Length0 && 0 <= i < 4 && 0 <= j < opdf.Length2 ==>
      opdf[s, i, j] == Cell(data, res.value, s, i * res.value.rows + j)
  {
    opdf := new int[0, 0, 0];
    var hd := ReadHeader(order, data);
    if hd.Err? {
      return Err(hd.error), opdf;
    }
    var pos := hd.value.next;
    if |data| < pos + 8 {
      assert ReadCounts(order, data) == Err(DecodeError);
      return Err(DecodeError), opdf;
    }
    var r := U32(order, data[pos..pos + 4]);
    var c := U32(order, data[pos + 4..pos + 8]);
    var l := Layout(hd.value.value, r, c, pos + 8);
    assert ReadCounts(order, data) == Ok(l);
    opdf := new int[c, 4, r];
    var ok := ReadBlocks(data, l, opdf);
    DecodeAfterCounts(order, data, l, ok);
    res := if ok then Ok(l) else Err(DecodeError);
  }

  /** When the file holds all 4 * r * c block bytes, every block assignment succeeds and the cell for
      entry s of block q holds byte body + q * c + s of the file, shifted up by 10. */
  lemma CompleteBlocks(data: seq<byte>, l: Layout)
    requires l.body + 4 * l.rows * l.cols <= |data|
    ensures BlocksFit(data, l)
    ensures forall s, q :: 0 <= s < l.cols && 0 <= q < 4 * l.rows ==>
      BlockStart(l, q) + s < |data| && Cell(data, l, s, q) == (data[BlockStart(l, q) + s] as int) * 1024
  {
    forall q | 0 <= q < 4 * l.rows
      ensures BlockStart(l, q) + l.cols <= |data|
    {
      MulMonotone(q + 1, 4 * l.rows, l.cols);
      MulSucc(q, l.cols);
    }
  }

  /** A two-entry file with its last block cut to a single byte 7: numpy broadcasts that byte, so
      the read succeeds and both entries of the last column hold 7 << 10. */
  lemma ShortLastBlockBroadcasts()
    ensures var data := [0, 0, 0, 0, 0, 0, 0, 0] + BE32(1) + BE32(2) + [1, 2, 3, 4, 5, 6, 7];
      var l := Layout(Header(None, []), 1, 2, 16);
      && Decode(BigEndian, data) == Ok(l)
      && Cell(data, l, 0, 3) == 7 * 1024 && Cell(data, l, 1, 3) == 7 * 1024
  {
    var data: seq<byte> := [0, 0, 0, 0, 0, 0, 0, 0] + BE32(1) + BE32(2) + [1, 2, 3, 4, 5, 6, 7];
    var l := Layout(Header(None, []), 1, 2, 16);
    U32OfBE32(0);
    U32OfBE32(1);
    U32OfBE32(2);
    assert data[0..4] == BE32(0) && data[4..8] == BE32(0);
    assert data[8..12] == BE32(1) && data[12..16] == BE32(2);
    assert ParseHeader(BigEndian, data) == Ok(Read(Header(None, []), 8));
    assert ReadCounts(BigEndian, data) == Ok(l);
    assert Avail(data, l, 3) == 1;
  }

  /** The same file cut one byte shorter: the last block is empty, numpy cannot broadcast an empty
      array over the column, and the read fails. */
  lemma EmptyLastBlockFails()
    ensures Decode(BigEndian, [0, 0, 0, 0, 0, 0, 0, 0] + BE32(1) + BE32(2) + [1, 2, 3, 4, 5, 6]) == Err(DecodeError)
  {
    var data: seq<byte> := [0, 0, 0, 0, 0, 0, 0, 0] + BE32(1) + BE32(2) + [1, 2, 3, 4, 5, 6];
    var l := Layout(Header(None, []), 1, 2, 16);
    U32OfBE32(0);
    U32OfBE32(1);
    U32OfBE32(2);
    assert data[0..4] == BE32(0) && data[4..8] == BE32(0);
    assert data[8..12] == BE32(1) && data[12..16] == BE32(2);
    assert ParseHeader(BigEndian, data) == Ok(Read(Header(None, []), 8));
    assert ReadCounts(BigEndian, data) == Ok(l);
    assert !BlockFits(data, l, 3);
  }
}
