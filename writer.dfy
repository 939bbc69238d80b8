/** write_sendump_hb: the 4-bit sendump file as a byte sequence. */
module Writer {
  import opened Results
  import opened Bytes
  import opened Text
  import opened Nibble
  import opened Header
  import opened Arith

  /** The code written for the zero-weight (sentinel) cluster. */
  const SENTINEL_CODE: byte := 159

  /** The fixed opening lines of fmtdesc3, which describe the format. */
  const DescBegin: string := "BEGIN FILE FORMAT DESCRIPTION"
  const DescLength: string := "(int32) <length(string)> " + "(including trailing 0)"
  const DescString: string := "<string> (including trailing 0)"
  const DescRepeat: string := "... preceding 2 items " + "repeated any number of times"
  const DescZero: string := "(int32) 0 (length(string)=0 " + "terminates the header)"
  const DescCentroids: string := "cluster_count centroids"
  const DescIndexArray: string := "cluster index array " + "(feature_count x mixture_count " + "x model_count)"
  const DescRepeatCodebook: string := "... preceding 2 items " + "repeated codebook_count times"
  const DescEnd: string := "END FILE FORMAT DESCRIPTION"

  const DescriptionHead: seq<string> :=
    [DescBegin, DescLength, DescString, DescRepeat, DescZero, DescCentroids, DescIndexArray, DescRepeatCodebook, DescEnd]

  /** The fixed closing lines of fmtdesc3. */
  const DescriptionTail: seq<string> := ["cluster_bits 4", "logbase 1.0001", "mixw_shift 10"]

  /** The lines of fmtdesc3 that carry the four "%d" fields, filled in. */
  function CountLines(nFeat: nat, nGau: nat, nSen: nat, nCb: nat): (lines: seq<string>)
    ensures |lines| == 5
  {
    [ "feature_count " + Dec(nFeat),
      "codebook_count 1",
      "mixture_count " + Dec(nGau),
      "model_count " + Dec(nSen),
      "cluster_count " + Dec(nCb)]
  }

  /** fmtdesc3 with its four "%d" fields filled in, one element per line. */
  function FormatLines(nFeat: nat, nGau: nat, nSen: nat, nCb: nat): (lines: seq<string>)
    ensures |lines| == 17
  {
    DescriptionHead + CountLines(nFeat, nGau, nSen, nCb) + DescriptionTail
  }

  // One small lemma per pair of literal lines keeps each proof cheap.
  lemma BeginLinesNoNewline()
    ensures '\n' !in DescBegin && '\n' !in DescLength
  {
  }

  lemma StringLinesNoNewline()
    ensures '\n' !in DescString && '\n' !in DescRepeat
  {
  }

  lemma ZeroLinesNoNewline()
    ensures '\n' !in DescZero && '\n' !in DescCentroids
  {
  }

  lemma IndexArrayNoNewline()
    ensures '\n' !in DescIndexArray
  {
  }

  lemma EndLinesNoNewline()
    ensures '\n' !in DescRepeatCodebook && '\n' !in DescEnd
  {
  }

  lemma HeadNoNewline()
    ensures forall i :: 0 <= i < |DescriptionHead| ==> '\n' !in DescriptionHead[i]
  {
    BeginLinesNoNewline();
    StringLinesNoNewline();
    ZeroLinesNoNewline();
    IndexArrayNoNewline();
    EndLinesNoNewline();
  }

  lemma CountLinesNoNewline(nFeat: nat, nGau: nat, nSen: nat, nCb: nat)
    ensures forall i :: 0 <= i < 5 ==> '\n' !in CountLines(nFeat, nGau, nSen, nCb)[i]
  {
    var c := CountLines(nFeat, nGau, nSen, nCb);
    DecLine("feature_count ", nFeat);
    DecLine("mixture_count ", nGau);
    DecLine("model_count ", nSen);
    DecLine("cluster_count ", nCb);
    assert '\n' !in c[0] && '\n' !in c[1] && '\n' !in c[2] && '\n' !in c[3] && '\n' !in c[4];
  }

  lemma DecLine(prefix: string, n: nat)
    requires '\n' !in prefix
    ensures '\n' !in prefix + Dec(n)
  {
  }

  /** No line of the description holds a newline: the counts are written in decimal digits. */
  lemma FormatLinesNoNewline(nFeat: nat, nGau: nat, nSen: nat, nCb: nat)
    ensures forall i :: 0 <= i < 17 ==> '\n' !in FormatLines(nFeat, nGau, nSen, nCb)[i]
  {
    var t := DescriptionTail;
    HeadNoNewline();
    CountLinesNoNewline(nFeat, nGau, nSen, nCb);
    assert '\n' !in t[0] && '\n' !in t[1] && '\n' !in t[2];
  }

  /** fmtdesc3 % (n_feat, n_gau, n_sen, len(cb)): the description as one text. */
  function FormatDescription(nFeat: nat, nGau: nat, nSen: nat, nCb: nat): string
  {
    Join(FormatLines(nFeat, nGau, nSen, nCb), '\n')
  }

  /** fmtdesc0.split('\n') gives back the 17 lines of the description. */
  lemma SplitDescription(nFeat: nat, nGau: nat, nSen: nat, nCb: nat)
    ensures Split(FormatDescription(nFeat, nGau, nSen, nCb), '\n') == FormatLines(nFeat, nGau, nSen, nCb)
  {
    FormatLinesNoNewline(nFeat, nGau, nSen, nCb);
    SplitJoin(FormatLines(nFeat, nGau, nSen, nCb), '\n');
  }

  /** Each line as the byte string that fh.write(line) writes. */
  function LinesToBytes(parts: seq<string>): (lines: seq<seq<byte>>)
    ensures |lines| == |parts|
    ensures forall i :: 0 <= i < |parts| ==> lines[i] == ToBytes(parts[i])
  {
    seq(|parts|, i requires 0 <= i < |parts| => ToBytes(parts[i]))
  }

  lemma FormatLinesTitle(nFeat: nat, nGau: nat, nSen: nat, nCb: nat)
    ensures FormatLines(nFeat, nGau, nSen, nCb)[0] == DescBegin
  {
  }

  /** The header lines as written: fmtdesc0.split('\n'), each line a byte string. They are the 17
      lines of the description, the first being its title. */
  function HeaderLines(nFeat: nat, nGau: nat, nSen: nat, nCb: nat): (lines: seq<seq<byte>>)
    ensures lines == LinesToBytes(FormatLines(nFeat, nGau, nSen, nCb))
    ensures |lines| == 17
    ensures lines[0] == ToBytes(DescBegin)
  {
    SplitDescription(nFeat, nGau, nSen, nCb);
    FormatLinesTitle(nFeat, nGau, nSen, nCb);
    LinesToBytes(Split(FormatDescription(nFeat, nGau, nSen, nCb), '\n'))
  }

  /** numpy.resize(x, n): x repeated cyclically up to length n, zeros when x is empty. */
  function Resize(x: seq<byte>, n: nat): (r: seq<byte>)
    ensures |r| == n
    ensures forall i :: 0 <= i < n && i < |x| ==> r[i] == x[i]
    ensures forall i :: 0 < |x| <= i < n ==> r[i] == r[i - |x|]
    ensures |x| == 0 ==> forall i :: 0 <= i < n ==> r[i] == 0
  {
    if |x| == 0 then seq(n, i => 0)
    else
      ModPeriod(|x|, n);
      seq(n, i requires 0 <= i < n => x[i % |x|])
  }

  lemma ModPeriod(k: nat, n: nat)
    requires 0 < k
    ensures forall i :: 0 <= i < n && i < k ==> i % k == i
    ensures forall i :: k <= i < n ==> i % k == (i - k) % k
  {
    forall i | k <= i < n
      ensures i % k == (i - k) % k
    {
      ModShift(i, k);
    }
  }

  /** One codebook entry: t is (v / log(1.0001)).astype('i'); the code is (-t) >> 10, stored as uint8.
      Python's >> on a negative number rounds toward minus infinity, as Dafny's / by a positive divisor does. */
  function QCode(t: int): (code: byte)
    ensures (code as int) * 1024 <= (-t) % (0x100 * 1024) < (code as int + 1) * 1024
    ensures 0 <= -t < 0x100 * 1024 ==> (code as int) * 1024 <= -t < (code as int + 1) * 1024
  {
    (((-t) / 1024) % 0x100) as byte
  }

  /** qcb: the resized code array with its extra last slot overwritten by the sentinel code. The
      result is one code per centroid, in order, followed by 159. */
  function CodebookBlock(cb: seq<real>, toFixed: real -> int): (q: seq<byte>)
    ensures |q| == |cb| + 1
    ensures q[..|cb|] == seq(|cb|, i requires 0 <= i < |cb| => QCode(toFixed(cb[i])))
    ensures q[|cb|] == SENTINEL_CODE
  {
    var codes := seq(|cb|, i requires 0 <= i < |cb| => QCode(toFixed(cb[i])));
    var grown := Resize(codes, |cb| + 1);
    assert grown[..|cb|] == codes;
    grown[|cb| := SENTINEL_CODE]
  }

  /** mixwmap[:, f, g]: the cluster indices of every sentone for one feature and one Gaussian. */
  function Column(m: array3<byte>, f: nat, g: nat): (col: seq<byte>)
    requires f < m.Length1 && g < m.Length2
    reads m
    ensures |col| == m.Length0
    ensures forall s :: 0 <= s < m.Length0 ==> col[s] == m[s, f, g]
  {
    seq(m.Length0, s requires 0 <= s < m.Length0 reads m => m[s, f, g])
  }

  /** The columns of feature f, Gaussian by Gaussian. */
  function FeatureColumns(m: array3<byte>, f: nat): (cols: seq<seq<byte>>)
    requires f < m.Length1
    reads m
    ensures |cols| == m.Length2
    ensures forall g :: 0 <= g < m.Length2 ==> cols[g] == Column(m, f, g)
  {
    seq(m.Length2, g requires 0 <= g < m.Length2 reads m => Column(m, f, g))
  }

  /** The columns of features 0 .. f-1 in the order they are written: feature outer, Gaussian inner. */
  function ColumnsBefore(m: array3<byte>, f: nat): seq<seq<byte>>
    requires f <= m.Length1
    reads m
  {
    if f == 0 then [] else ColumnsBefore(m, f - 1) + FeatureColumns(m, f - 1)
  }

  /** The packed columns, one after the other. */
  function PackAll(cols: seq<seq<byte>>): seq<byte>
  {
    if |cols| == 0 then [] else PackAll(cols[..|cols| - 1]) + Pack(cols[|cols| - 1])
  }

  /** Everything after the codebook: every column of the map, packed, in write order. */
  function Body(m: array3<byte>): seq<byte>
    reads m
  {
    PackAll(ColumnsBefore(m, m.Length1))
  }

  /** The header lines for the shape of the map and the size of the codebook. */
  function MapHeaderLines(m: array3<byte>, cb: seq<real>): seq<seq<byte>>
  {
    HeaderLines(m.Length1, m.Length2, m.Length0, |cb|)
  }

  /** What follows the header block: the codebook block, then the packed columns. */
  function AfterHeader(m: array3<byte>, cb: seq<real>, toFixed: real -> int): seq<byte>
    reads m
  {
    CodebookBlock(cb, toFixed) + Body(m)
  }

  /** The file write_sendump_hb writes with the given header lines: framed header, codebook codes,
      packed columns. */
  function SendumpBytes(lines: seq<seq<byte>>, m: array3<byte>, cb: seq<real>, toFixed: real -> int): seq<byte>
    requires Fits(lines)
    reads m
  {
    EncodeHeader(lines) + AfterHeader(m, cb, toFixed)
  }

  lemma PackAllSnoc(cols: seq<seq<byte>>, col: seq<byte>)
    ensures PackAll(cols + [col]) == PackAll(cols) + Pack(col)
  {
    assert (cols + [col])[..|cols|] == cols;
  }

  /** Packing a list of columns in two parts writes the two parts one after the other. */
  lemma {:induction false} PackAllAppend(a: seq<seq<byte>>, b: seq<seq<byte>>)
    ensures PackAll(a + b) == PackAll(a) + PackAll(b)
    decreases |b|
  {
    if |b| == 0 {
      assert a + b == a;
    } else {
      var b' := b[..|b| - 1];
      assert a + b == (a + b') + [b[|b| - 1]];
      PackAllSnoc(a + b', b[|b| - 1]);
      PackAllAppend(a, b');
      assert b == b' + [b[|b| - 1]];
      PackAllSnoc(b', b[|b| - 1]);
    }
  }

  /** The inner loop of write_sendump_hb: hb_encode every Gaussian's column of feature f. */
  method EncodeFeature(mixwmap: array3<byte>, f: nat) returns (out: seq<byte>)
    requires f < mixwmap.Length1
    ensures out == PackAll(FeatureColumns(mixwmap, f))
  {
    ghost var row := FeatureColumns(mixwmap, f);
    out := [];
    for g := 0 to mixwmap.Length2
      invariant out == PackAll(row[..g])
    {
      var col := Column(mixwmap, f, g);
      assert col == row[g];
      var mm := HbEncode(col);
      assert row[..g + 1] == row[..g] + [row[g]];
      PackAllSnoc(row[..g], row[g]);
      out := out + mm;
    }
    assert row[..mixwmap.Length2] == row;
  }

  /** The loop of write_sendump_hb over features: every column of the map, packed, in write order. */
  method EncodeColumns(mixwmap: array3<byte>) returns (out: seq<byte>)
    ensures out == Body(mixwmap)
  {
    out := [];
    for f := 0 to mixwmap.Length1
      invariant out == PackAll(ColumnsBefore(mixwmap, f))
    {
      var mm := EncodeFeature(mixwmap, f);
      PackAllAppend(ColumnsBefore(mixwmap, f), FeatureColumns(mixwmap, f));
      out := out + mm;
    }
  }

  /** write_sendump_hb: the header, the codebook block, then one hb_encode'd column per feature and
      Gaussian, features outer. A header line too long for its length field is an EncodeError. */
  method WriteSendumpHb(mixwmap: array3<byte>, cb: seq<real>, toFixed: real -> int) returns (res: Result<seq<byte>>)
    ensures Fits(MapHeaderLines(mixwmap, cb)) ==> res == Ok(SendumpBytes(MapHeaderLines(mixwmap, cb), mixwmap, cb, toFixed))
    ensures !Fits(MapHeaderLines(mixwmap, cb)) ==> res == Err(EncodeError)
    ensures res.Ok? ==> ParseHeader(BigEndian, res.value) == Ok(Read(
      Header(Some(ToBytes(DescBegin) + [0]), WithNul(MapHeaderLines(mixwmap, cb)[1..])),
      |EncodeHeader(MapHeaderLines(mixwmap, cb))|))
  {
    var header := WriteHeader(MapHeaderLines(mixwmap, cb));
    if header.Err? {
      return Err(header.error);
    }
    var body := EncodeColumns(mixwmap);
    WrittenHeaderParses(MapHeaderLines(mixwmap, cb), mixwmap, cb, toFixed);
    res := Ok(header.value + (CodebookBlock(cb, toFixed) + body));
  }

  // Layout of the written file

  /** Where the packed column of feature f and Gaussian g starts in the body: columns are written
      feature outer, Gaussian inner, (n_sen + 1) / 2 bytes each. */
  function ColumnStart(m: array3<byte>, f: nat, g: nat): nat
  {
    (f * m.Length2 + g) * ((m.Length0 + 1) / 2)
  }

  /** A list of columns that all hold n entries packs to half as many bytes per column, rounded up. */
  lemma {:induction false} PackAllLength(cols: seq<seq<byte>>, n: nat)
    requires forall k :: 0 <= k < |cols| ==> |cols[k]| == n
    ensures |PackAll(cols)| == |cols| * ((n + 1) / 2)
    decreases |cols|
  {
    if |cols| > 0 {
      PackAllLength(cols[..|cols| - 1], n);
      assert |cols| * ((n + 1) / 2) == (|cols| - 1) * ((n + 1) / 2) + (n + 1) / 2;
    }
  }

  /** With uniform columns, packed column k starts at k * ((n + 1) / 2). */
  lemma {:induction false} PackAllAt(cols: seq<seq<byte>>, n: nat, k: nat, p: nat)
    requires forall k :: 0 <= k < |cols| ==> |cols[k]| == n
    requires k < |cols| && p < (n + 1) / 2
    ensures k * ((n + 1) / 2) + p < |PackAll(cols)|
    ensures PackAll(cols)[k * ((n + 1) / 2) + p] == Pack(cols[k])[p]
    decreases |cols|
  {
    var h := (n + 1) / 2;
    var init := cols[..|cols| - 1];
    PackAllLength(cols, n);
    PackAllLength(init, n);
    assert PackAll(cols) == PackAll(init) + Pack(cols[|cols| - 1]);
    if k == |cols| - 1 {
      assert |PackAll(init)| == k * h;
    } else {
      PackAllAt(init, n, k, p);
      MulMonotone(k + 1, |cols| - 1, h);
      assert k * h + p < (k + 1) * h;
    }
  }

  /** The columns written before feature f: f * n_gau of them, each with n_sen entries. */
  lemma {:induction false} ColumnsBeforeShape(m: array3<byte>, f: nat)
    requires f <= m.Length1
    ensures |ColumnsBefore(m, f)| == f * m.Length2
    ensures forall k :: 0 <= k < |ColumnsBefore(m, f)| ==> |ColumnsBefore(m, f)[k]| == m.Length0
  {
    if f > 0 {
      ColumnsBeforeShape(m, f - 1);
      assert ColumnsBefore(m, f) == ColumnsBefore(m, f - 1) + FeatureColumns(m, f - 1);
      assert f * m.Length2 == (f - 1) * m.Length2 + m.Length2;
    }
  }

  /** Among the columns written before feature f, feature f' and Gaussian g is at f' * n_gau + g. */
  lemma {:induction false} ColumnsBeforeAt(m: array3<byte>, f: nat, f': nat, g: nat)
    requires f <= m.Length1 && f' < f && g < m.Length2
    ensures 0 <= f' * m.Length2 + g < |ColumnsBefore(m, f)|
    ensures ColumnsBefore(m, f)[f' * m.Length2 + g] == Column(m, f', g)
  {
    var nG := m.Length2;
    var before := ColumnsBefore(m, f - 1);
    var row := FeatureColumns(m, f - 1);
    ColumnsBeforeShape(m, f - 1);
    ColumnsBeforeShape(m, f);
    GridIndex(f', g, f, nG);
    assert ColumnsBefore(m, f) == before + row;
    if f' < f - 1 {
      ColumnsBeforeAt(m, f - 1, f', g);
    } else {
      assert f' * nG + g == |before| + g;
    }
  }

  lemma AppendIndex(a: seq<byte>, b: seq<byte>, k: int)
    requires 0 <= k < |b|
    ensures |a| + k < |a + b| && (a + b)[|a| + k] == b[k]
  {
  }

  /** The body holds n_feat * n_gau packed columns of (n_sen + 1) / 2 bytes each; the packed column of
      feature f and Gaussian g starts at (f * n_gau + g) * ((n_sen + 1) / 2). */
  lemma BodyLayout(m: array3<byte>, f: nat, g: nat, p: nat)
    requires f < m.Length1 && g < m.Length2 && p < (m.Length0 + 1) / 2
    ensures |Body(m)| == m.Length1 * m.Length2 * ((m.Length0 + 1) / 2)
    ensures ColumnStart(m, f, g) + p < |Body(m)|
    ensures Body(m)[ColumnStart(m, f, g) + p] == Pack(Column(m, f, g))[p]
  {
    var nF, nG, h := m.Length1, m.Length2, (m.Length0 + 1) / 2;
    var cols := ColumnsBefore(m, nF);
    var k := f * nG + g;
    ColumnsBeforeShape(m, nF);
    ColumnsBeforeAt(m, nF, f, g);
    PackAllLength(cols, m.Length0);
    PackAllAt(cols, m.Length0, k, p);
  }

  /** The reader side of the layout: the (n_sen + 1) / 2 body bytes at ColumnStart(f, g) are the packed
      column, and when every index in it is a nibble, unpacking them gives mixwmap[:, f, g] back. */
  lemma BodyColumnDecodes(m: array3<byte>, f: nat, g: nat)
    requires f < m.Length1 && g < m.Length2
    requires forall s :: 0 <= s < m.Length0 ==> IsNibble(m[s, f, g])
    ensures ColumnStart(m, f, g) + (m.Length0 + 1) / 2 <= |Body(m)|
    ensures Unpack(Body(m)[ColumnStart(m, f, g)..ColumnStart(m, f, g) + (m.Length0 + 1) / 2], m.Length0)
      == Column(m, f, g)
  {
    var h := (m.Length0 + 1) / 2;
    var start := ColumnStart(m, f, g);
    var col := Column(m, f, g);
    if h == 0 {
      assert start == 0;
    } else {
      BodyLayout(m, f, g, h - 1);
    }
    var slice := Body(m)[start..start + h];
    forall p | 0 <= p < h
      ensures slice[p] == Pack(col)[p]
    {
      BodyLayout(m, f, g, p);
    }
    assert slice == Pack(col);
    UnpackPack(col);
  }

  /** The body placed after any prefix q keeps its layout, shifted by |q|. */
  lemma BodyAfter(q: seq<byte>, base: int, m: array3<byte>, f: nat, g: nat, p: nat)
    requires base == |q|
    requires f < m.Length1 && g < m.Length2 && p < (m.Length0 + 1) / 2
    ensures |q + Body(m)| == base + m.Length1 * m.Length2 * ((m.Length0 + 1) / 2)
    ensures 0 <= base + ColumnStart(m, f, g) + p < |q + Body(m)|
    ensures (q + Body(m))[base + ColumnStart(m, f, g) + p] == Pack(Column(m, f, g))[p]
  {
    GridIndex(f, g, m.Length1, m.Length2);
    MulMonotone(0, f * m.Length2 + g, (m.Length0 + 1) / 2);
    BodyLayout(m, f, g, p);
    AppendIndex(q, Body(m), ColumnStart(m, f, g) + p);
  }

  /** After the header: one code per centroid, in order, then the sentinel 159, then the body. */
  lemma AfterHeaderCodes(m: array3<byte>, cb: seq<real>, toFixed: real -> int)
    ensures var rest := AfterHeader(m, cb, toFixed);
      && |rest| == |cb| + 1 + |Body(m)|
      && (forall i :: 0 <= i < |cb| ==> rest[i] == QCode(toFixed(cb[i])))
      && rest[|cb|] == SENTINEL_CODE
      && rest[|cb| + 1..] == Body(m)
  {
    var q := CodebookBlock(cb, toFixed);
    forall i | 0 <= i < |cb|
      ensures (q + Body(m))[i] == QCode(toFixed(cb[i]))
    {
      assert q[i] == q[..|cb|][i];
    }
  }

  /** After the header and the |cb| + 1 codebook bytes, the packed column of feature f and Gaussian g
      sits at ColumnStart(f, g); the whole tail is n_feat * n_gau such columns long. */
  lemma AfterHeaderColumn(m: array3<byte>, cb: seq<real>, toFixed: real -> int, f: nat, g: nat, p: nat)
    requires f < m.Length1 && g < m.Length2 && p < (m.Length0 + 1) / 2
    ensures var rest := AfterHeader(m, cb, toFixed);
      && |rest| == |cb| + 1 + m.Length1 * m.Length2 * ((m.Length0 + 1) / 2)
      && |cb| + 1 + ColumnStart(m, f, g) + p < |rest|
      && rest[|cb| + 1 + ColumnStart(m, f, g) + p] == Pack(Column(m, f, g))[p]
  {
    BodyAfter(CodebookBlock(cb, toFixed), |cb| + 1, m, f, g, p);
  }

  /** The whole file is the framed header followed by the codebook block and the body. */
  lemma SendumpSplit(lines: seq<seq<byte>>, m: array3<byte>, cb: seq<real>, toFixed: real -> int)
    requires Fits(lines)
    ensures var out := SendumpBytes(lines, m, cb, toFixed);
      var h := |EncodeHeader(lines)|;
      && h == FramedSize(lines) + 4
      && out[..h] == EncodeHeader(lines)
      && out[h..] == AfterHeader(m, cb, toFixed)
  {
    EncodeHeaderLength(lines);
  }

  /** The header that write_sendump_hb writes is read back by readstr and its loop, under big-endian:
      the first line is the title, the others are the header strings, each with its NUL, and reading
      stops right after the zero length. */
  lemma WrittenHeaderParses(lines: seq<seq<byte>>, m: array3<byte>, cb: seq<real>, toFixed: real -> int)
    requires Fits(lines) && |lines| >= 1
    ensures ParseHeader(BigEndian, SendumpBytes(lines, m, cb, toFixed))
      == Ok(Read(Header(Some(lines[0] + [0]), WithNul(lines[1..])), |EncodeHeader(lines)|))
  {
    HeaderRoundTrip(lines, AfterHeader(m, cb, toFixed));
  }
}
