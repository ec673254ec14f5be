/** Partial requests: the `Range` header of a GET (`handle_get`) and the
    file response `get_file` builds from it, a status line, the file's
    `Content-Type` line, a `Content-Range` or `Content-Length` line, then
    the bytes `_read_file_helper` reads. */
module Ranges {
  import opened Basics
  import opened PyStr
  import opened Config
  import opened Chunking
  import Utf8

  /** The two ends `handle_get` parses, None where the header leaves one
      out. Both None is what `get_file` sees when there is no header. */
  datatype ByteRange = ByteRange(start: Option<nat>, end: Option<nat>)

  const NoRange := ByteRange(None, None)

  /** One end: `int(s) if s else None`. The text holds no `-`, so a value
      `int` accepts is never negative. */
  function Bound(piece: string): (r: Result<Option<nat>>)
    requires '-' !in piece
    ensures r.Err? ==> r.error == ValueError
    ensures r == Ok(None) <==> piece == []
  {
    if piece == [] then Ok(None)
    else match PyInt(piece)
      case None => Err(ValueError)
      case Some(n) => Ok(Some(n))
  }

  /** `handle_get` on the value of a `Range` header:
      `start, end = value.split("=", 1)[1].split("-")`, then `Bound` of each.
      The unit before `=` is not looked at. */
  function ParseRange(value: string): Result<ByteRange>
  {
    match SplitFirst(value, '=')
    case None => Err(IndexError)
    case Some(kv) =>
      var ends := Split(kv.1, '-');
      if |ends| != 2 then Err(ValueError)
      else
        SplitPieces(kv.1, '-');
        match Bound(ends[0])
        case Err(e) => Err(e)
        case Ok(s) =>
          match Bound(ends[1])
          case Err(e) => Err(e)
          case Ok(t) => Ok(ByteRange(s, t))
  }

  /** The text of one end: its decimal digits, or nothing. */
  function EndText(n: Option<nat>): (r: string)
    ensures '-' !in r && '=' !in r
  {
    if n.None? then [] else Decimal(n.value)
  }

  /** A header value for a range, in unit `unit`: `unit=start-end`. */
  function RangeText(unit: string, r: ByteRange): string
  {
    unit + "=" + EndText(r.start) + "-" + EndText(r.end)
  }

  lemma BoundText(n: Option<nat>)
    ensures Bound(EndText(n)) == Ok(n)
  {
    if n.Some? {
      PyIntDecimal(n.value);
    }
  }

  /** `handle_get` reads back every range written as `unit=start-end`,
      whatever the unit; `bytes=-` gives no bound at all. */
  lemma ParseRangeText(unit: string, r: ByteRange)
    requires '=' !in unit
    ensures ParseRange(RangeText(unit, r)) == Ok(r)
  {
    var a, b := EndText(r.start), EndText(r.end);
    var s := RangeText(unit, r);
    assert s == unit + ['='] + (a + ['-'] + b);
    assert s[..|unit|] == unit;
    SplitFirstAt(s, '=', |unit|);
    assert s[|unit| + 1..] == a + ['-'] + b;
    SplitPair(a, b, '-');
    BoundText(r.start);
    BoundText(r.end);
  }

  /** A value without `=` fails with `IndexError`, and only such a value. */
  lemma ParseRangeIndexError(value: string)
    ensures ParseRange(value) == Err(IndexError) <==> '=' !in value
  {
    SplitFirstSpec(value, '=');
  }

  /** A value whose part after the first `=` holds more than one `-`, such
      as a list of ranges, fails with `ValueError`. */
  lemma ParseRangeTwoDashes(value: string, x: string, y: string, z: string)
    requires SplitFirst(value, '=').Some? && SplitFirst(value, '=').value.1 == x + "-" + y + "-" + z
    requires '-' !in x
    ensures ParseRange(value) == Err(ValueError)
  {
    var rest := y + "-" + z;
    assert SplitFirst(value, '=').value.1 == x + ['-'] + rest;
    SplitHead(x, rest, '-');
    assert rest[|y|] == '-';
    SplitCount(rest, '-');
  }

  // ---------------------------------------------------------------------
  // get_file

  /** `start is not None or end is not None`. */
  predicate Ranged(r: ByteRange)
  {
    r.start.Some? || r.end.Some?
  }

  /** `start or 0`. */
  function StartOf(r: ByteRange): nat
  {
    if r.start.None? then 0 else r.start.value
  }

  /** `end or size`: a missing end and an end of 0 both stand for the size. */
  function EndOf(r: ByteRange, size: nat): nat
  {
    if r.end.None? || r.end.value == 0 then size else r.end.value
  }

  /** The status of a file response: 206 only for a range with a start
      above 0. */
  function FileStatus(r: ByteRange): Status
  {
    if Ranged(r) && StartOf(r) > 0 then Partial206 else Ok200
  }

  /** The last header line: `Content-Range: bytes start-end/size` for a
      range, `Content-Length: size` otherwise, then the empty line. */
  function LengthLine(r: ByteRange, size: nat): string
  {
    if Ranged(r) then
      "Content-Range: bytes " + Decimal(StartOf(r)) + "-" + Decimal(EndOf(r, size)) + "/" + Decimal(size) + "\n\n"
    else "Content-Length: " + Decimal(size) + "\n\n"
  }

  /** The head of a file response; `ctype` is what `check_filetype` gives
      for the file. Without a range the offsets are 0 and the size, which is
      also what `StartOf` and `EndOf` give for `NoRange`. */
  function FileHead(r: ByteRange, size: nat, ctype: seq<byte>): seq<byte>
  {
    Utf8.Encode(FileStatus(r).Line()) + ctype + Utf8.Encode(LengthLine(r, size))
  }

  /** `get_file(path, start, end)` on the content of the file: the head,
      then the chunks `_read_file_helper` reads from `start` to `end`. */
  function FileChunks(file: seq<byte>, ctype: seq<byte>, r: ByteRange): seq<seq<byte>>
  {
    [FileHead(r, |file|, ctype)] + FileBody(file, r)
  }

  /** The chunks after the head. */
  function FileBody(file: seq<byte>, r: ByteRange): seq<seq<byte>>
  {
    ReadsFrom(file, CHUNK_SIZE, StartOf(r), EndOf(r, |file|) - StartOf(r))
  }

  /** `get_file` itself: the head, then the reader run to the end. The body
      is `file[start:end]` in chunks of at most `CHUNK_SIZE` bytes. */
  method GetFile(file: seq<byte>, ctype: seq<byte>, r: ByteRange) returns (out: seq<seq<byte>>)
    ensures out == FileChunks(file, ctype, r)
    ensures out[0] == FileHead(r, |file|, ctype)
    ensures Flatten(out[1..]) == PySlice(file, StartOf(r), EndOf(r, |file|))
    ensures forall k :: 1 <= k < |out| ==> |out[k]| <= CHUNK_SIZE
  {
    var size := |file|;
    var start, end := 0, size;
    if Ranged(r) {
      start := StartOf(r);
      end := EndOf(r, size);
    }
    var head := FileHead(r, size, ctype);
    out := ReadFileHelper(head, file, CHUNK_SIZE, start, end);
    ReadFileHelperSpec(file, CHUNK_SIZE, start, end);
    assert out[1..] == ReadsFrom(file, CHUNK_SIZE, start, end - start);
  }

  /** 206 is sent exactly when the range has a start above 0; everything
      else, `bytes=0-99` included, is 200. */
  lemma FileStatusSpec(r: ByteRange)
    ensures FileStatus(r) == Partial206 <==> r.start.Some? && r.start.value > 0
    ensures FileStatus(r) != Partial206 ==> FileStatus(r) == Ok200
  {
  }

  /** Without a range the whole file is sent. */
  lemma FileBodyWhole(file: seq<byte>, ctype: seq<byte>)
    ensures Flatten(FileChunks(file, ctype, NoRange)[1..]) == file
  {
    assert StartOf(NoRange) == 0 && EndOf(NoRange, |file|) == |file|;
    FileBodyRange(file, ctype, NoRange);
    assert file[0..|file|] == file;
  }

  /** Without a range, `int()` reads the `Content-Length` line back as the
      number of bytes sent after the head. */
  lemma FileLengthLine(file: seq<byte>, ctype: seq<byte>)
    ensures LengthLine(NoRange, |file|) == "Content-Length: " + Decimal(|file|) + "\n\n"
    ensures PyInt(Decimal(|file|)) == Some(|Flatten(FileChunks(file, ctype, NoRange)[1..])|)
  {
    FileBodyWhole(file, ctype);
    PyIntDecimal(|file|);
  }

  /** With a range inside the file, `end - start` bytes from `start` are
      sent: the same offsets as the `Content-Range` line prints. */
  lemma FileBodyRange(file: seq<byte>, ctype: seq<byte>, r: ByteRange)
    requires StartOf(r) <= EndOf(r, |file|) <= |file|
    ensures Flatten(FileChunks(file, ctype, r)[1..]) == file[StartOf(r)..EndOf(r, |file|)]
  {
    var start, end := StartOf(r), EndOf(r, |file|);
    FileChunksParts(file, ctype, r);
    assert FileBody(file, r) == ReadsFrom(file, CHUNK_SIZE, start, end - start);
    ReadFileHelperSpec(file, CHUNK_SIZE, start, end);
    PySliceIn(file, start, end);
  }

  /** A range that ends at or before its start sends the head alone. */
  lemma FileBodyEmpty(file: seq<byte>, ctype: seq<byte>, r: ByteRange)
    requires EndOf(r, |file|) <= StartOf(r)
    ensures FileChunks(file, ctype, r) == [FileHead(r, |file|, ctype)]
  {
    FileChunksParts(file, ctype, r);
    ReadFileHelperSpec(file, CHUNK_SIZE, StartOf(r), EndOf(r, |file|));
    assert [FileHead(r, |file|, ctype)] + [] == [FileHead(r, |file|, ctype)];
  }

  /** A file response is its head followed by the chunks read. */
  lemma FileChunksParts(file: seq<byte>, ctype: seq<byte>, r: ByteRange)
    ensures FileChunks(file, ctype, r) == [FileHead(r, |file|, ctype)] + FileBody(file, r)
    ensures FileChunks(file, ctype, r)[1..] == FileBody(file, r)
  {
  }

  /** An end of 0 is served as a missing end: `bytes=5-0` sends from 5 to
      the end of the file. */
  lemma EndZeroIsEnd(file: seq<byte>, ctype: seq<byte>, n: nat)
    ensures FileChunks(file, ctype, ByteRange(Some(n), Some(0))) == FileChunks(file, ctype, ByteRange(Some(n), None))
  {
    var r1, r2 := ByteRange(Some(n), Some(0)), ByteRange(Some(n), None);
    assert EndOf(r1, |file|) == EndOf(r2, |file|);
    assert LengthLine(r1, |file|) == LengthLine(r2, |file|);
    assert FileHead(r1, |file|, ctype) == FileHead(r2, |file|, ctype);
  }
}
