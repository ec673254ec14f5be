/** How a response body is cut into the chunks the transmitter sends:
    `_slice_helper` for an in-memory response and `_read_file_helper` for a
    file read lazily from an offset; `send_response` then writes the chunks
    in order (the rate limiting between writes is not modelled). */
module Chunking {
  import opened Basics
  import opened Config

  /** `_slice_helper(data, size)`: `data[i:i+size]` for `i` in `range(0, len(data), size)`. */
  function SliceChunks<T>(data: seq<T>, size: nat): (r: seq<seq<T>>)
    requires size > 0
    ensures forall k :: 0 <= k < |r| ==> 0 < |r[k]| <= size
    ensures forall k :: 0 <= k < |r| - 1 ==> |r[k]| == size
    decreases |data|
  {
    if data == [] then []
    else if |data| <= size then [data]
    else [data[..size]] + SliceChunks(data[size..], size)
  }

  /** There are ceil(len(data) / size) chunks: just enough to hold the data. */
  lemma {:induction false} SliceChunksCount<T>(data: seq<T>, size: nat)
    requires size > 0
    ensures |SliceChunks(data, size)| * size >= |data|
    ensures |data| > 0 ==> (|SliceChunks(data, size)| - 1) * size < |data|
    ensures |data| == 0 ==> SliceChunks(data, size) == []
    decreases |data|
  {
    if |data| > size {
      var n := |SliceChunks(data[size..], size)|;
      SliceChunksCount(data[size..], size);
      assert (n + 1) * size == n * size + size;
    }
  }

  /** The chunks concatenate back to the data. */
  lemma {:induction false} SliceChunksFlatten<T>(data: seq<T>, size: nat)
    requires size > 0
    ensures Flatten(SliceChunks(data, size)) == data
    decreases |data|
  {
    if |data| > size {
      SliceChunksFlatten(data[size..], size);
      FlattenCons(data[..size], SliceChunks(data[size..], size));
      assert data[..size] + data[size..] == data;
    } else if data != [] {
      FlattenCons(data, []);
    }
  }

  /** Chunk `k` is the slice `data[k*size : k*size+size]`, as the `range`
      loop of the source takes it. */
  lemma SliceChunksAt<T>(data: seq<T>, size: nat, k: nat)
    requires size > 0 && k < |SliceChunks(data, size)|
    ensures SliceChunks(data, size)[k] == PySlice(data, k * size, k * size + size)
  {
    var off := Offset(k, size);
    OffsetIsProduct(k, size);
    ChunkFrom(data, size, k, off);
    PySliceFrom(data, off, size);
  }

  /** `s[i:i+n]` for an offset inside `s`. */
  lemma PySliceFrom<T>(s: seq<T>, i: nat, n: nat)
    requires i <= |s|
    ensures PySlice(s, i, i + n) == s[i..Min(i + n, |s|)]
  {
  }

  /** `k * size`, by repeated addition. */
  function Offset(k: nat, size: nat): nat
  {
    if k == 0 then 0 else Offset(k - 1, size) + size
  }

  lemma {:induction false} OffsetIsProduct(k: nat, size: nat)
    ensures Offset(k, size) == k * size
  {
    if k > 0 {
      OffsetIsProduct(k - 1, size);
      assert k * size == (k - 1) * size + size;
    }
  }

  /** Chunk `k`, which starts at offset `off = k * size`, runs from there
      for `size` elements or to the end. */
  lemma {:induction false} ChunkFrom<T>(data: seq<T>, size: nat, k: nat, off: nat)
    requires size > 0 && k < |SliceChunks(data, size)| && off == Offset(k, size)
    ensures off < |data| && SliceChunks(data, size)[k] == data[off..Min(off + size, |data|)]
    decreases k
  {
    if k > 0 {
      ChunksTail(data, size, k);
      var rest := data[size..];
      ChunkFrom(rest, size, k - 1, off - size);
      DropSlice(data, size, off, Min(off + size, |data|));
    }
  }

  /** Chunk `k > 0` is chunk `k - 1` of what follows the first chunk. */
  lemma ChunksTail<T>(data: seq<T>, size: nat, k: nat)
    requires size > 0 && 0 < k < |SliceChunks(data, size)|
    ensures |data| > size && k - 1 < |SliceChunks(data[size..], size)|
    ensures SliceChunks(data, size)[k] == SliceChunks(data[size..], size)[k - 1]
  {
  }

  lemma DropSlice<T>(data: seq<T>, n: nat, i: nat, j: nat)
    requires n <= i <= j <= |data|
    ensures data[n..][i - n..j - n] == data[i..j]
  {
  }

  /** The sizes `_read_file_helper` asks `file.read` for when `n` bytes
      remain: `min(chunk_size, n)` each time, until nothing remains. */
  function Requests(chunkSize: nat, n: int): (r: seq<nat>)
    requires chunkSize > 0
    decreases n
  {
    if n <= 0 then [] else [Min(chunkSize, n)] + Requests(chunkSize, n - Min(chunkSize, n))
  }

  /** `file.read(size)` with the file at position `pos`: the next `size`
      bytes, fewer at the end of the file, none past it. */
  function ReadAt(file: seq<byte>, pos: nat, size: nat): (r: seq<byte>)
    ensures |r| <= size
  {
    if pos >= |file| then [] else file[pos..Min(pos + size, |file|)]
  }

  /** Two reads in a row read what one larger read would. */
  lemma ReadAtConcat(file: seq<byte>, pos: nat, a: nat, b: nat)
    ensures ReadAt(file, pos, a) + ReadAt(file, pos + a, b) == ReadAt(file, pos, a + b)
  {
    if pos < |file| && pos + a < |file| {
      assert file[pos..pos + a] + file[pos + a..Min(pos + a + b, |file|)] == file[pos..Min(pos + a + b, |file|)];
    }
  }

  /** A read of `n` bytes from `p` is the slice `file[p:p+n]`. */
  lemma ReadAtSlice(file: seq<byte>, p: nat, n: nat)
    ensures ReadAt(file, p, n) == PySlice(file, p, p + n)
  {
  }

  /** The chunks `_read_file_helper` reads when `n` bytes remain to be
      read from offset `p`: `file.read(min(chunk_size, n))`, then the rest
      from where that read was asked to stop. */
  function ReadsFrom(file: seq<byte>, chunkSize: nat, p: nat, n: int): (r: seq<seq<byte>>)
    requires chunkSize > 0
    decreases n
  {
    if n <= 0 then []
    else
      var size := Min(chunkSize, n);
      [ReadAt(file, p, size)] + ReadsFrom(file, chunkSize, p + size, n - size)
  }

  /** `_read_file_helper(head, file, chunk_size, start, end)`, run to the end:
      the head, then the chunks read after `file.seek(start)`. A short file
      makes some reads return fewer bytes, or none, but `total` still
      advances by the size asked. */
  method ReadFileHelper(head: seq<byte>, file: seq<byte>, chunkSize: nat, start: nat, end: nat)
      returns (out: seq<seq<byte>>)
    requires chunkSize > 0
    ensures out == [head] + ReadsFrom(file, chunkSize, start, end - start)
  {
    ghost var goal := [head] + ReadsFrom(file, chunkSize, start, end - start);
    out := [head];
    var pos := start;
    var total := 0;
    while total < end - start
      invariant 0 <= total
      invariant goal == out + ReadsFrom(file, chunkSize, start + total, end - start - total)
      invariant pos == if start + total <= |file| then start + total else Max(start, |file|)
      decreases end - start - total
    {
      var size := Min(chunkSize, end - start - total);
      var data := ReadAt(file, pos, size);
      ReadStep(file, start, total, size, pos);
      ReadsFromStep(out, file, chunkSize, start + total, end - start - total);
      out := out + [data];
      pos := pos + |data|;
      total := total + size;
    }
    assert out + [] == out;
  }

  /** The next read comes after the chunks already yielded. */
  lemma ReadsFromStep(out: seq<seq<byte>>, file: seq<byte>, chunkSize: nat, p: nat, n: int)
    requires chunkSize > 0 && n > 0
    ensures var size := Min(chunkSize, n);
      out + ReadsFrom(file, chunkSize, p, n)
      == (out + [ReadAt(file, p, size)]) + ReadsFrom(file, chunkSize, p + size, n - size)
  {
    var size := Min(chunkSize, n);
    var rest := ReadsFrom(file, chunkSize, p + size, n - size);
    assert out + ([ReadAt(file, p, size)] + rest) == (out + [ReadAt(file, p, size)]) + rest;
  }

  /** One `read(size)` at the file position reads on from where the previous
      reads, asked for `total` bytes from `start`, stopped; the position then
      moves by the number of bytes read. */
  lemma ReadStep(file: seq<byte>, start: nat, total: nat, size: nat, pos: nat)
    requires pos == if start + total <= |file| then start + total else Max(start, |file|)
    ensures ReadAt(file, pos, size) == ReadAt(file, start + total, size)
    ensures pos + |ReadAt(file, pos, size)|
            == if start + total + size <= |file| then start + total + size else Max(start, |file|)
  {
  }

  lemma {:induction false} SumCons(x: nat, xs: seq<nat>)
    ensures Sum([x] + xs) == x + Sum(xs)
    decreases |xs|
  {
    if xs != [] {
      var init := xs[..|xs| - 1];
      SumCons(x, init);
      assert ([x] + xs)[..|xs|] == [x] + init;
    }
  }

  /** Each size asked is between 1 and `chunk_size`, and all but the last
      are exactly `chunk_size`. */
  lemma {:induction false} RequestsSizes(chunkSize: nat, n: int)
    requires chunkSize > 0
    ensures forall k :: 0 <= k < |Requests(chunkSize, n)| ==> 1 <= Requests(chunkSize, n)[k] <= chunkSize
    ensures forall k :: 0 <= k < |Requests(chunkSize, n)| - 1 ==> Requests(chunkSize, n)[k] == chunkSize
    decreases n
  {
    if n > 0 {
      var size := Min(chunkSize, n);
      var rest := Requests(chunkSize, n - size);
      RequestsSizes(chunkSize, n - size);
      var r := Requests(chunkSize, n);
      assert r == [size] + rest;
      forall k | 0 <= k < |r|
        ensures 1 <= r[k] <= chunkSize && (k < |r| - 1 ==> r[k] == chunkSize)
      {
        if k > 0 {
          assert r[k] == rest[k - 1];
        } else if |r| > 1 {
          assert n - size > 0;
        }
      }
    }
  }

  /** The sizes add up to the `n` bytes wanted, and none is asked for when
      `n <= 0`. */
  lemma {:induction false} RequestsSum(chunkSize: nat, n: int)
    requires chunkSize > 0
    ensures Sum(Requests(chunkSize, n)) == Max(n, 0)
    ensures n <= 0 <==> Requests(chunkSize, n) == []
    decreases n
  {
    if n > 0 {
      var size := Min(chunkSize, n);
      RequestsSum(chunkSize, n - size);
      SumCons(size, Requests(chunkSize, n - size));
    }
  }

  /** There are ceil(n / chunk_size) reads. */
  lemma {:induction false} RequestsCount(chunkSize: nat, n: int)
    requires chunkSize > 0
    ensures |Requests(chunkSize, n)| * chunkSize >= n
    ensures n > 0 ==> (|Requests(chunkSize, n)| - 1) * chunkSize < n
    decreases n
  {
    if n > 0 {
      var size := Min(chunkSize, n);
      var m := |Requests(chunkSize, n - size)|;
      RequestsCount(chunkSize, n - size);
      assert |Requests(chunkSize, n)| == m + 1;
      assert (m + 1) * chunkSize == m * chunkSize + chunkSize;
      if n - size > 0 {
        assert size == chunkSize;
        assert (m - 1) * chunkSize == m * chunkSize - chunkSize;
      } else {
        assert Requests(chunkSize, n - size) == [];
      }
    }
  }

  /** One chunk per size asked, none longer than the size asked. */
  lemma {:induction false} ReadsFromSizes(file: seq<byte>, chunkSize: nat, p: nat, n: int)
    requires chunkSize > 0
    ensures |ReadsFrom(file, chunkSize, p, n)| == |Requests(chunkSize, n)|
    ensures forall k :: 0 <= k < |Requests(chunkSize, n)| ==>
      |ReadsFrom(file, chunkSize, p, n)[k]| <= Requests(chunkSize, n)[k]
    decreases n
  {
    if n > 0 {
      var size := Min(chunkSize, n);
      ReadsFromSizes(file, chunkSize, p + size, n - size);
      var r := ReadsFrom(file, chunkSize, p, n);
      var q := Requests(chunkSize, n);
      assert forall k :: 1 <= k < |q| ==>
        r[k] == ReadsFrom(file, chunkSize, p + size, n - size)[k - 1] && q[k] == Requests(chunkSize, n - size)[k - 1];
    }
  }

  /** The chunks concatenate to what one read of all `n` bytes from `p`
      would return. */
  lemma {:induction false} ReadsFromFlatten(file: seq<byte>, chunkSize: nat, p: nat, n: int)
    requires chunkSize > 0
    ensures Flatten(ReadsFrom(file, chunkSize, p, n)) == ReadAt(file, p, Max(n, 0))
    decreases n
  {
    if n > 0 {
      var size := Min(chunkSize, n);
      var first := ReadAt(file, p, size);
      var rest := ReadsFrom(file, chunkSize, p + size, n - size);
      ReadsFromFlatten(file, chunkSize, p + size, n - size);
      FlattenCons(first, rest);
      ReadAtConcat(file, p, size, n - size);
    } else {
      assert ReadAt(file, p, 0) == [];
    }
  }

  /** On a file that holds all the bytes asked for, the chunks read are the
      chunks `_slice_helper` cuts the same bytes into. */
  lemma {:induction false} ReadsFromSlices(file: seq<byte>, chunkSize: nat, p: nat, n: nat)
    requires chunkSize > 0 && p + n <= |file|
    ensures ReadsFrom(file, chunkSize, p, n) == SliceChunks(file[p..p + n], chunkSize)
    decreases n
  {
    if n > 0 {
      var size := Min(chunkSize, n);
      ReadsFromSlices(file, chunkSize, p + size, n - size);
      var data := file[p..p + n];
      if n > chunkSize {
        assert data[..chunkSize] == file[p..p + size];
        assert data[chunkSize..] == file[p + size..p + n];
      } else {
        assert ReadsFrom(file, chunkSize, p + size, n - size) == [];
      }
    }
  }

  /** Every chunk holds at most `size` bytes. */
  predicate AtMost(chunks: seq<seq<byte>>, size: nat)
  {
    forall k :: 0 <= k < |chunks| ==> |chunks[k]| <= size
  }

  /** `_read_file_helper`: after the head, one chunk per read, each of at
      most `chunk_size` bytes, which together are `file[start:end]`; nothing
      follows the head when `end <= start`. */
  lemma ReadFileHelperSpec(file: seq<byte>, chunkSize: nat, start: nat, end: nat)
    requires chunkSize > 0
    ensures AtMost(ReadsFrom(file, chunkSize, start, end - start), chunkSize)
    ensures Flatten(ReadsFrom(file, chunkSize, start, end - start)) == PySlice(file, start, end)
    ensures end <= start ==> ReadsFrom(file, chunkSize, start, end - start) == []
  {
    RequestsSizes(chunkSize, end - start);
    ReadsFromSizes(file, chunkSize, start, end - start);
    ReadsFromFlatten(file, chunkSize, start, end - start);
    if end > start {
      ReadAtSlice(file, start, end - start);
    }
  }

  /** What `send_response` is given: a complete buffer or a chunk sequence. */
  datatype Body = Buffer(bytes: seq<byte>) | Chunks(chunks: seq<seq<byte>>)

  /** The chunks `send_response` sends: a buffer is cut by `_slice_helper`. */
  function ChunksOf(b: Body): seq<seq<byte>>
  {
    match b
    case Buffer(bytes) => SliceChunks(bytes, CHUNK_SIZE)
    case Chunks(cs) => cs
  }

  /** `send_response` without its throttling: one `sock.send` per chunk, in
      order. Returns the bytes on the wire and the number of bytes sent. */
  method SendResponse(b: Body) returns (wire: seq<byte>, total: nat)
    ensures wire == Flatten(ChunksOf(b))
    ensures total == |wire|
    ensures b.Buffer? ==> wire == b.bytes
  {
    var chunks := ChunksOf(b);
    wire, total := [], 0;
    var i := 0;
    while i < |chunks|
      invariant 0 <= i <= |chunks|
      invariant wire == Flatten(chunks[..i]) && total == |wire|
    {
      assert chunks[..i + 1][..i] == chunks[..i];
      wire := wire + chunks[i];
      total := total + |chunks[i]|;
      i := i + 1;
    }
    assert chunks[..i] == chunks;
    if b.Buffer? {
      SliceChunksFlatten(b.bytes, CHUNK_SIZE);
    }
  }
}
