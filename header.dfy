/** The text header of a sendump file: length-prefixed, NUL-terminated lines ended by a zero length. */
module Header {
  import opened Bytes
  import opened Results

  /** Every line's framed length, |line| + 1, fits the 32-bit length field. */
  predicate Fits(lines: seq<seq<byte>>)
  {
    forall i :: 0 <= i < |lines| ==> |lines[i]| + 1 < U32_LIMIT
  }

  /** One line as the writer frames it: its length counting the NUL, the line, the NUL. */
  function Frame(line: seq<byte>): seq<byte>
    requires |line| + 1 < U32_LIMIT
  {
    BE32(|line| + 1) + line + [0]
  }

  function Frames(lines: seq<seq<byte>>): seq<byte>
    requires Fits(lines)
    decreases |lines|
  {
    if lines == [] then [] else Frame(lines[0]) + Frames(lines[1..])
  }

  /** The whole header block: every line framed, in order, then a zero length. */
  function EncodeHeader(lines: seq<seq<byte>>): seq<byte>
    requires Fits(lines)
  {
    Frames(lines) + BE32(0)
  }

  /** The number of bytes the lines take once framed: |line| + 5 each. */
  function FramedSize(lines: seq<seq<byte>>): nat
    decreases |lines|
  {
    if lines == [] then 0 else |lines[0]| + 5 + FramedSize(lines[1..])
  }

  lemma {:induction false} FramesSnoc(lines: seq<seq<byte>>, line: seq<byte>)
    requires Fits(lines) && |line| + 1 < U32_LIMIT
    ensures Fits(lines + [line])
    ensures Frames(lines + [line]) == Frames(lines) + Frame(line)
    decreases |lines|
  {
    var all := lines + [line];
    if lines != [] {
      assert all[1..] == lines[1..] + [line];
      FramesSnoc(lines[1..], line);
    } else {
      assert all[1..] == [];
    }
  }

  /** The header is sum(|line| + 5) + 4 bytes long. */
  lemma {:induction false} EncodeHeaderLength(lines: seq<seq<byte>>)
    requires Fits(lines)
    ensures |EncodeHeader(lines)| == FramedSize(lines) + 4
    decreases |lines|
  {
    if lines != [] {
      EncodeHeaderLength(lines[1..]);
    }
  }

  /** The header part of write_sendump_hb: each line framed as it is written, then the zero marker.
      A line too long for struct.pack('>I', ...) is an EncodeError. */
  method WriteHeader(lines: seq<seq<byte>>) returns (res: Result<seq<byte>>)
    ensures Fits(lines) ==> res == Ok(EncodeHeader(lines))
    ensures !Fits(lines) ==> res == Err(EncodeError)
  {
    var out: seq<byte> := [];
    for k := 0 to |lines|
      invariant Fits(lines[..k])
      invariant out == Frames(lines[..k])
    {
      var line := lines[k];
      if |line| + 1 >= U32_LIMIT {
        return Err(EncodeError);
      }
      FramesSnoc(lines[..k], line);
      assert lines[..k + 1] == lines[..k] + [line];
      // the three writes of one line: its length, the line, the NUL
      out := out + Frame(line);
    }
    assert lines[..|lines|] == lines;
    res := Ok(out + BE32(0));
  }

  /** What readstr returns: None for a zero length, otherwise the bytes that followed it. */
  datatype StrRead = NoString | Str(bytes: seq<byte>)

  /** readstr: a 4-byte length in the reader's byte order, then that many bytes, as fh.read(n) gives
      them: exactly n when the file holds them, otherwise all that is left. A stream that ends inside
      the length is a DecodeError. */
  function ReadStr(order: ByteOrder, data: seq<byte>, pos: nat): (r: Result<Read<StrRead>>)
    requires pos <= |data|
    ensures r.Err? <==> |data| < pos + 4
    ensures r.Ok? ==> pos + 4 <= r.value.next <= |data|
    ensures r.Ok? ==> (r.value.value.NoString? <==> U32(order, data[pos..pos + 4]) == 0)
    ensures r.Ok? && r.value.value.NoString? ==> r.value.next == pos + 4
    ensures r.Ok? && r.value.value.Str? ==>
      r.value.value.bytes == data[pos + 4..r.value.next] &&
      |r.value.value.bytes| <= U32(order, data[pos..pos + 4])
    ensures r.Ok? && r.value.value.Str? ==>
      |r.value.value.bytes| ==
        if pos + 4 + U32(order, data[pos..pos + 4]) <= |data| then U32(order, data[pos..pos + 4]) else |data| - pos - 4
  {
    if |data| < pos + 4 then Err(DecodeError)
    else
      var n := U32(order, data[pos..pos + 4]);
      if n == 0 then Ok(Read(NoString, pos + 4))
      else
        var end := if pos + 4 + n <= |data| then pos + 4 + n else |data|;
        Ok(Read(Str(data[pos + 4..end]), end))
  }

  /** The strings of r with lines put in front; an error stays an error. */
  function Prepend(lines: seq<seq<byte>>, r: Result<Read<seq<seq<byte>>>>): Result<Read<seq<seq<byte>>>>
  {
    match r
    case Err(e) => Err(e)
    case Ok(Read(rest, end)) => Ok(Read(lines + rest, end))
  }

  /** The strings read from pos up to the first zero length, and the cursor after it. */
  function ReadStrings(order: ByteOrder, data: seq<byte>, pos: nat): Result<Read<seq<seq<byte>>>>
    requires pos <= |data|
    decreases |data| - pos
  {
    match ReadStr(order, data, pos)
    case Err(e) => Err(e)
    case Ok(Read(NoString, next)) => Ok(Read([], next))
    case Ok(Read(Str(s), next)) => Prepend([s], ReadStrings(order, data, next))
  }

  /** The title string (None when its length is zero) and the header strings after it. */
  datatype Header = Header(title: Option<seq<byte>>, lines: seq<seq<byte>>)

  /** The header part of read_sendump: one readstr for the title, then readstr until it returns None. */
  function ParseHeader(order: ByteOrder, data: seq<byte>): Result<Read<Header>>
  {
    match ReadStr(order, data, 0)
    case Err(e) => Err(e)
    case Ok(Read(t, p)) =>
      match ReadStrings(order, data, p)
      case Err(e) => Err(e)
      case Ok(Read(lines, end)) => Ok(Read(Header(if t.Str? then Some(t.bytes) else None, lines), end))
  }

  lemma PrependNil(r: Result<Read<seq<seq<byte>>>>)
    ensures Prepend([], r) == r
  {
    if r.Ok? {
      assert [] + r.value.value == r.value.value;
    }
  }

  lemma PrependStep(lines: seq<seq<byte>>, s: seq<byte>, r: Result<Read<seq<seq<byte>>>>)
    ensures Prepend(lines, Prepend([s], r)) == Prepend(lines + [s], r)
  {
    if r.Ok? {
      assert lines + ([s] + r.value.value) == (lines + [s]) + r.value.value;
    }
  }

  /** read_sendump's header loop, keeping the strings it reads (the source discards them). */
  method ReadHeader(order: ByteOrder, data: seq<byte>) returns (res: Result<Read<Header>>)
    ensures res == ParseHeader(order, data)
  {
    var t := ReadStr(order, data, 0);
    if t.Err? {
      return Err(t.error);
    }
    var title := if t.value.value.Str? then Some(t.value.value.bytes) else None;
    var start := t.value.next;
    var pos := start;
    var lines: seq<seq<byte>> := [];
    PrependNil(ReadStrings(order, data, start));
    while true
      invariant start <= pos <= |data|
      invariant ReadStrings(order, data, start) == Prepend(lines, ReadStrings(order, data, pos))
      decreases |data| - pos
    {
      var h := ReadStr(order, data, pos);
      if h.Err? {
        return Err(h.error);
      }
      if h.value.value.NoString? {
        assert ReadStrings(order, data, pos) == Ok(Read([], h.value.next));
        assert lines + [] == lines;
        return Ok(Read(Header(title, lines), h.value.next));
      }
      var s := h.value.value.bytes;
      var next := h.value.next;
      assert ReadStrings(order, data, pos) == Prepend([s], ReadStrings(order, data, next));
      PrependStep(lines, s, ReadStrings(order, data, next));
      lines := lines + [s];
      pos := next;
    }
  }

  /** Each line as the reader returns it: the line followed by the NUL that the length counted. */
  function WithNul(lines: seq<seq<byte>>): (r: seq<seq<byte>>)
    ensures |r| == |lines|
  {
    seq(|lines|, i requires 0 <= i < |lines| => lines[i] + [0])
  }

  /** A slice that holds x + y holds x, then y. */
  lemma SliceSplit(data: seq<byte>, pos: nat, x: seq<byte>, y: seq<byte>)
    requires pos + |x| + |y| <= |data| && data[pos..pos + |x| + |y|] == x + y
    ensures data[pos..pos + |x|] == x && data[pos + |x|..pos + |x| + |y|] == y
  {
    assert data[pos..pos + |x|] == data[pos..pos + |x| + |y|][..|x|];
    assert data[pos + |x|..pos + |x| + |y|] == data[pos..pos + |x| + |y|][|x|..];
  }

  /** A big-endian readstr at a framed line returns the line and its NUL and moves past the frame. */
  lemma ReadFrame(data: seq<byte>, pos: nat, line: seq<byte>)
    requires |line| + 1 < U32_LIMIT
    requires pos + |line| + 5 <= |data| && data[pos..pos + |line| + 5] == Frame(line)
    ensures ReadStr(BigEndian, data, pos) == Ok(Read(Str(line + [0]), pos + |line| + 5))
  {
    SliceSplit(data, pos, BE32(|line| + 1), line + [0]);
    U32OfBE32(|line| + 1);
  }

  /** A big-endian readstr at the zero marker returns None and moves past it. */
  lemma ReadZero(data: seq<byte>, pos: nat)
    requires pos + 4 <= |data| && data[pos..pos + 4] == BE32(0)
    ensures ReadStr(BigEndian, data, pos) == Ok(Read(NoString, pos + 4))
  {
    U32OfBE32(0);
  }

  lemma EncodeHeaderCons(lines: seq<seq<byte>>)
    requires Fits(lines) && lines != []
    ensures EncodeHeader(lines) == Frame(lines[0]) + EncodeHeader(lines[1..])
  {
    assert Frames(lines) == Frame(lines[0]) + Frames(lines[1..]);
  }

  /** Where a written header with a first line starts, readstr returns that line with its NUL, and
      the header of the remaining lines follows its frame. */
  lemma ReadFirstLine(data: seq<byte>, pos: nat, lines: seq<seq<byte>>)
    requires Fits(lines) && lines != []
    requires pos + |EncodeHeader(lines)| <= |data| && data[pos..pos + |EncodeHeader(lines)|] == EncodeHeader(lines)
    ensures |EncodeHeader(lines)| == |lines[0]| + 5 + |EncodeHeader(lines[1..])|
    ensures ReadStr(BigEndian, data, pos) == Ok(Read(Str(lines[0] + [0]), pos + |lines[0]| + 5))
    ensures var next := pos + |lines[0]| + 5;
      data[next..next + |EncodeHeader(lines[1..])|] == EncodeHeader(lines[1..])
  {
    EncodeHeaderCons(lines);
    SliceSplit(data, pos, Frame(lines[0]), EncodeHeader(lines[1..]));
    ReadFrame(data, pos, lines[0]);
  }

  /** The reader's list for lines is the first line with its NUL, then the list for the others. */
  lemma WithNulCons(lines: seq<seq<byte>>)
    requires lines != []
    ensures WithNul(lines) == [lines[0] + [0]] + WithNul(lines[1..])
  {
    assert forall i :: 0 <= i < |lines| - 1 ==> WithNul(lines[1..])[i] == lines[i + 1] + [0];
  }

  /** The first line with its NUL ahead of the other lines' list is the list for all lines. */
  lemma PrependFirstLine(lines: seq<seq<byte>>, r: Result<Read<seq<seq<byte>>>>, end: nat)
    requires lines != [] && r == Ok(Read(WithNul(lines[1..]), end))
    ensures Prepend([lines[0] + [0]], r) == Ok(Read(WithNul(lines), end))
  {
    WithNulCons(lines);
  }

  /** Where a written header with a first line starts, the string loop returns that line with its
      NUL ahead of whatever it reads after the line's frame. */
  lemma ReadStringsFirst(data: seq<byte>, pos: nat, lines: seq<seq<byte>>)
    requires Fits(lines) && lines != []
    requires pos + |EncodeHeader(lines)| <= |data| && data[pos..pos + |EncodeHeader(lines)|] == EncodeHeader(lines)
    ensures Fits(lines[1..])
    ensures |EncodeHeader(lines)| == |lines[0]| + 5 + |EncodeHeader(lines[1..])|
    ensures data[pos + |lines[0]| + 5..pos + |EncodeHeader(lines)|] == EncodeHeader(lines[1..])
    ensures ReadStrings(BigEndian, data, pos) ==
      Prepend([lines[0] + [0]], ReadStrings(BigEndian, data, pos + |lines[0]| + 5))
  {
    ReadFirstLine(data, pos, lines);
  }

  /** Reading strings where a written header starts yields each line with its NUL and stops right after
      the header. */
  lemma {:induction false} ReadStringsOfHeader(data: seq<byte>, pos: nat, lines: seq<seq<byte>>)
    requires Fits(lines)
    requires pos + |EncodeHeader(lines)| <= |data| && data[pos..pos + |EncodeHeader(lines)|] == EncodeHeader(lines)
    ensures ReadStrings(BigEndian, data, pos) == Ok(Read(WithNul(lines), pos + |EncodeHeader(lines)|))
    decreases |lines|
  {
    if lines == [] {
      assert EncodeHeader(lines) == BE32(0);
      ReadZero(data, pos);
    } else {
      var next := pos + |lines[0]| + 5;
      ReadStringsFirst(data, pos, lines);
      ReadStringsOfHeader(data, next, lines[1..]);
      PrependFirstLine(lines, ReadStrings(BigEndian, data, next), pos + |EncodeHeader(lines)|);
    }
  }

  /** The title read, then the string loop: the header as read_sendump sees it. */
  lemma ParseHeaderStep(order: ByteOrder, data: seq<byte>, title: seq<byte>, p: nat, lines: seq<seq<byte>>, end: nat)
    requires ReadStr(order, data, 0) == Ok(Read(Str(title), p))
    requires ReadStrings(order, data, p) == Ok(Read(lines, end))
    ensures ParseHeader(order, data) == Ok(Read(Header(Some(title), lines), end))
  {
  }

  /** Header round trip: a big-endian reader recovers the first written line as the title and every
      other line, each with its NUL, in order, and stops exactly where the header ends. */
  lemma HeaderRoundTrip(lines: seq<seq<byte>>, rest: seq<byte>)
    requires Fits(lines) && |lines| >= 1
    ensures ParseHeader(BigEndian, EncodeHeader(lines) + rest)
         == Ok(Read(Header(Some(lines[0] + [0]), WithNul(lines[1..])), |EncodeHeader(lines)|))
  {
    var data := EncodeHeader(lines) + rest;
    var next := |lines[0]| + 5;
    assert data[0..|EncodeHeader(lines)|] == EncodeHeader(lines);
    ReadFirstLine(data, 0, lines);
    ReadStringsOfHeader(data, next, lines[1..]);
    ParseHeaderStep(BigEndian, data, lines[0] + [0], next, WithNul(lines[1..]), |EncodeHeader(lines)|);
  }

  /** The string loop only succeeds by reading a zero length, which ends right before its cursor. */
  lemma {:induction false} ReadStringsEndsAtZero(order: ByteOrder, data: seq<byte>, pos: nat)
    requires pos <= |data|
    requires ReadStrings(order, data, pos).Ok?
    ensures var end := ReadStrings(order, data, pos).value.next;
      pos + 4 <= end <= |data| && U32(order, data[end - 4..end]) == 0
    decreases |data| - pos
  {
    var r := ReadStr(order, data, pos);
    if r.value.value.Str? {
      ReadStringsEndsAtZero(order, data, r.value.next);
    }
  }

  /** The reader's native order matters: a little-endian reader rejects the header [""] that a
      big-endian reader accepts, since it takes the length 1 for 2^24 and runs off the end. */
  lemma LittleEndianRejectsHeader()
    ensures ParseHeader(BigEndian, EncodeHeader([[]])).Ok?
    ensures ParseHeader(LittleEndian, EncodeHeader([[]])).Err?
  {
    var data := EncodeHeader([[]]);
    HeaderRoundTrip([[]], []);
    assert data + [] == data;
    LittleEndianHeader(data);
  }

  lemma LittleEndianHeader(data: seq<byte>)
    requires data == [0, 0, 0, 1, 0, 0, 0, 0, 0]
    ensures ParseHeader(LittleEndian, data).Err?
  {
    assert data[0..4] == [0, 0, 0, 1];
    assert ReadStr(LittleEndian, data, 0) == Ok(Read(Str(data[4..9]), 9));
  }
}
