/** The message body that streams a file: `file_body::size`, a reader that hands the file
    out in chunks of at most 4096 bytes, and a writer that stores received buffers in a
    file. The C stdio calls it makes are modelled by CFile below; the filesystem is a
    value the caller supplies. */
module FileBody {
  import opened CTypes

  /** `sizeof(buf_)`, the largest chunk the reader hands out. */
  const BufferSize: nat := 4096

  // ---------------------------------------------------------------------------------
  // The filesystem and C stdio

  /** What `boost::filesystem::file_size(path, ec)` reports. */
  datatype SizeResult = SizeOk(size: uint64) | SizeError(message: string)

  /** The part of the filesystem the body types observe: whether a path exists, what
      its size query reports, what `fopen(path, "rb")` opens (None when it fails), and
      whether `fopen(path, "wb")` can create or truncate it. */
  datatype FileSystem = FileSystem(
    present: string -> bool,
    fileSize: string -> SizeResult,
    contents: string -> Option<seq<byte>>,
    canCreate: string -> bool)

  /** The two `fopen` modes the body types use. */
  datatype OpenMode = ReadBinary | WriteBinary

  /** A C `FILE` stream: the bytes of the file, the read position, the sticky error
      indicator that `ferror` reports, and whether the stream is still open. A stream
      opened with "wb" starts empty and every write appends at its end. */
  class CFile {
    var data: seq<byte>
    var pos: nat
    var error: bool
    var isOpen: bool

    ghost predicate Valid()
      reads this
    {
      pos <= |data|
    }

    constructor (contents: seq<byte>)
      ensures Valid() && data == contents && pos == 0 && !error && isOpen
    {
      data := contents;
      pos := 0;
      error := false;
      isOpen := true;
    }

    /** `fread(buf, 1, amount, file)`: copies up to `amount` bytes from the read position
        into `buf`. The read may fail part-way, for reasons outside the model; a failure
        sets the error indicator. A read that leaves the indicator clear is short only at
        the end of the file. */
    method Read(buf: array<byte>, amount: nat) returns (n: nat)
      requires Valid() && isOpen && amount <= buf.Length
      modifies this`pos, this`error, buf
      ensures Valid() && n <= amount && pos == old(pos) + n
      ensures buf[..n] == data[old(pos)..pos]
      ensures old(error) ==> error
      ensures !error ==> n == Min(amount, |data| - old(pos))
    {
      var avail := Min(amount, |data| - pos);
      var fails: bool :| true;
      if fails {
        n :| 0 <= n <= avail;
        error := true;
      } else {
        n := avail;
      }
      assert error == (fails || old(error));
      var k := 0;
      while k < n
        invariant 0 <= k <= n && pos == old(pos) && error == (fails || old(error))
        invariant pos + n <= |data|
        invariant buf[..k] == data[pos..pos + k]
      {
        buf[k] := data[pos + k];
        assert buf[..k + 1] == buf[..k] + [buf[k]];
        assert data[pos..pos + k + 1] == data[pos..pos + k] + [data[pos + k]];
        k := k + 1;
      }
      pos := pos + n;
    }

    /** `fwrite(bytes, 1, size, file)`: appends the bytes to the file; the write may stop
        early, which sets the error indicator. */
    method Write(bytes: seq<byte>) returns (n: nat)
      requires Valid() && isOpen
      modifies this`data, this`error
      ensures Valid() && n <= |bytes| && data == old(data) + bytes[..n]
      ensures old(error) ==> error
      ensures n < |bytes| ==> error
    {
      var fails: bool :| true;
      if fails {
        n :| 0 <= n <= |bytes|;
        error := true;
      } else {
        n := |bytes|;
      }
      data := data + bytes[..n];
    }

    /** `fflush(file)`: may fail, which sets the error indicator. */
    method Flush()
      requires Valid() && isOpen
      modifies this`error
      ensures old(error) ==> error
    {
      var fails: bool :| true;
      if fails {
        error := true;
      }
    }

    /** `fclose(file)` */
    method Close()
      requires isOpen
      modifies this`isOpen
      ensures !isOpen
    {
      isOpen := false;
    }
  }

  /** `fopen(path, mode)`: null when the file cannot be opened in that mode. "rb" opens
      the file's bytes for reading from the start; "wb" creates or truncates it. */
  method FOpen(fs: FileSystem, path: string, mode: OpenMode) returns (f: CFile?)
    ensures mode == ReadBinary ==> (f == null <==> fs.contents(path).None?)
    ensures mode == WriteBinary ==> (f == null <==> !fs.canCreate(path))
    ensures f != null ==> fresh(f) && f.Valid() && f.pos == 0 && !f.error && f.isOpen
    ensures f != null ==> f.data == (if mode == ReadBinary then fs.contents(path).value else [])
  {
    if mode == ReadBinary {
      match fs.contents(path)
      case None => f := null;
      case Some(bytes) => f := new CFile(bytes);
    } else if fs.canCreate(path) {
      f := new CFile([]);
    } else {
      f := null;
    }
  }

  // ---------------------------------------------------------------------------------
  // file_body::size

  /** `file_body::size(path)`: the size of the file, or 0 when the size query fails. */
  function Size(fs: FileSystem, path: string): (r: uint64)
    ensures fs.fileSize(path).SizeError? ==> r == 0
    ensures fs.fileSize(path).SizeOk? ==> r == fs.fileSize(path).size
  {
    match fs.fileSize(path)
    case SizeOk(n) => n
    case SizeError(_) => 0
  }

  // ---------------------------------------------------------------------------------
  // The reader's arithmetic

  /** The number of bytes one `get` asks for: all that remains, but at most a buffer. */
  function Amount(remain: nat): (a: nat)
    ensures a == Min(remain, BufferSize)
  {
    if remain > BufferSize then BufferSize else remain
  }

  /** `remain_` after a read of `nread` bytes: decreased by `nread`, and never below 0. */
  function RemainAfter(remain: nat, nread: nat): (r: nat)
    ensures r <= remain
    ensures r == if nread <= remain then remain - nread else 0
  {
    if nread > remain then 0 else remain - nread
  }

  /** One chunk handed out by `get`: the bytes read, and whether more will follow. */
  datatype Chunk = Chunk(bytes: seq<byte>, more: bool)

  /** The buffers of a buffer sequence, one after the other. */
  function Flatten(parts: seq<seq<byte>>): seq<byte> {
    if parts == [] then [] else Flatten(parts[..|parts| - 1]) + parts[|parts| - 1]
  }

  lemma {:induction false} FlattenAppend(a: seq<seq<byte>>, b: seq<seq<byte>>)
    ensures Flatten(a + b) == Flatten(a) + Flatten(b)
    decreases |b|
  {
    if b != [] {
      var n := |b| - 1;
      assert (a + b)[..|a + b| - 1] == a + b[..n];
      assert (a + b)[|a + b| - 1] == b[n];
      FlattenAppend(a, b[..n]);
      assert Flatten(a + b) == Flatten(a) + Flatten(b[..n]) + b[n];
    } else {
      assert a + b == a;
    }
  }

  /** Read from the front: the first buffer, then the others. */
  lemma FlattenFront(parts: seq<seq<byte>>)
    requires parts != []
    ensures Flatten(parts) == parts[0] + Flatten(parts[1..])
  {
    FlattenAppend([parts[0]], parts[1..]);
    assert [parts[0]] + parts[1..] == parts;
    assert Flatten([parts[0]]) == Flatten([]) + parts[0];
  }

  /** The chunks a reader hands out when no read fails: `data` is what is left of the
      file from the read position, `remain` what the size query promised and is not yet
      handed out. The sequence ends when nothing remains, or when the file ends first;
      the next `get` then reports an I/O error. */
  function FileChunks(data: seq<byte>, remain: nat): (r: seq<Chunk>)
    ensures forall k :: 0 <= k < |r| ==> 0 < |r[k].bytes| <= BufferSize
    ensures r == [] <==> remain == 0 || data == []
    decreases remain
  {
    var n := Min(Amount(remain), |data|);
    if n == 0 then []
    else
      var left := RemainAfter(remain, n);
      [Chunk(data[..n], left > 0)] + FileChunks(data[n..], left)
  }

  /** One read of the whole amount, or of what is left of the file, takes off the first
      chunk. */
  lemma ChunksStep(data: seq<byte>, pos: nat, remain: nat, nread: nat)
    requires pos <= |data| && 0 < nread == Min(Amount(remain), |data| - pos)
    ensures FileChunks(data[pos..], remain)
         == [Chunk(data[pos..pos + nread], RemainAfter(remain, nread) > 0)]
            + FileChunks(data[pos + nread..], RemainAfter(remain, nread))
  {
    assert data[pos..][..nread] == data[pos..pos + nread];
    assert data[pos..][nread..] == data[pos + nread..];
  }

  function ChunkBytes(chunks: seq<Chunk>): seq<byte> {
    if chunks == [] then [] else chunks[0].bytes + ChunkBytes(chunks[1..])
  }

  /** When the file holds at least what the size query reported, the chunks are the first
      `remain` bytes of the file, in order, each between 1 and 4096 bytes long, and only
      the last one says no more follows. */
  lemma {:induction false} ChunksCoverFile(data: seq<byte>, remain: nat)
    requires remain <= |data|
    ensures ChunkBytes(FileChunks(data, remain)) == data[..remain]
    ensures forall k :: 0 <= k < |FileChunks(data, remain)| ==>
      0 < |FileChunks(data, remain)[k].bytes| <= BufferSize &&
      (FileChunks(data, remain)[k].more <==> k < |FileChunks(data, remain)| - 1)
    decreases remain
  {
    var n := Min(Amount(remain), |data|);
    if n > 0 {
      var left := RemainAfter(remain, n);
      var rest := FileChunks(data[n..], left);
      ChunksCoverFile(data[n..], left);
      assert FileChunks(data, remain) == [Chunk(data[..n], left > 0)] + rest;
      assert data[..remain] == data[..n] + data[n..][..left];
      assert left == 0 ==> rest == [];
      assert left > 0 ==> |rest| > 0;
    }
  }

  /** When the file is shorter than the size query reported, the chunks are the whole
      file, and the last of them still says more follows. */
  lemma {:induction false} ChunksOfShortFile(data: seq<byte>, remain: nat)
    requires |data| < remain
    ensures ChunkBytes(FileChunks(data, remain)) == data
    ensures |data| > 0 ==>
      |FileChunks(data, remain)| > 0 && FileChunks(data, remain)[|FileChunks(data, remain)| - 1].more
    decreases remain
  {
    var n := Min(Amount(remain), |data|);
    if n > 0 {
      var left := RemainAfter(remain, n);
      ChunksOfShortFile(data[n..], left);
      assert data == data[..n] + data[n..];
    }
  }

  // ---------------------------------------------------------------------------------
  // file_body::reader

  /** `file_body::reader`. `emitted` records every byte handed out so far and `initial`
      the value `remain_` started with. */
  class Reader {
    const path: string
    var file: CFile?
    var remain: uint64
    const buf: array<byte>
    ghost var initial: nat
    ghost var emitted: seq<byte>

    /** Bytes handed out and bytes still to come add up to what the size query reported,
        and while no read has failed the bytes handed out are the file's first bytes, in
        order. A reader whose `fopen` failed has nothing to hand out. */
    ghost predicate Valid()
      reads this, file
    {
      buf.Length == BufferSize &&
      |emitted| + remain as nat == initial &&
      (file == null ==> remain == 0 && emitted == []) &&
      (file != null ==>
        file.Valid() && file.isOpen &&
        (!file.error ==> file.pos == |emitted| && emitted == file.data[..file.pos]))
    }

    /** The chunks still to come if no read fails. */
    ghost function Pending(): seq<Chunk>
      reads this, file
      requires Valid() && file != null
    {
      FileChunks(file.data[file.pos..], remain as nat)
    }

    constructor (path: string, file: CFile?, remain: uint64)
      requires file == null ==> remain == 0
      requires file != null ==> file.Valid() && file.isOpen && file.pos == 0 && !file.error
      ensures Valid() && fresh(buf)
      ensures this.path == path && this.file == file && this.remain == remain
      ensures initial == remain as nat && emitted == []
    {
      this.path := path;
      this.file := file;
      this.remain := remain;
      buf := new byte[BufferSize];
      initial := remain as nat;
      emitted := [];
    }

    /** `get(ec)`: asks for `Amount(remain_)` bytes. Nothing remaining gives no chunk and
        a clear error code without touching the file. A read that sets the error
        indicator gives an errno error, and a read of nothing an I/O error; in both cases
        `remain_` is unchanged. Otherwise the chunk holds the bytes read, `remain_` drops
        by their count, and the "more" flag says whether anything remains. */
    method Get() returns (chunk: Option<Chunk>, ec: ErrorCode)
      requires Valid()
      modifies this`remain, this`emitted, file, buf
      ensures Valid() && file == old(file) && initial == old(initial)
      ensures file != null ==> file.data == old(file.data) && file.isOpen == old(file.isOpen)
      ensures Amount(old(remain) as nat) == 0 ==>
        chunk == None && ec == NoError && remain == old(remain) &&
        (file != null ==> file.pos == old(file.pos) && file.error == old(file.error))
      ensures chunk.None? ==> remain == old(remain) && emitted == old(emitted)
      ensures chunk.None? && Amount(old(remain) as nat) > 0 ==>
        file != null && (if file.error then ec == Errno else ec == IoError && file.pos == |file.data|)
      ensures chunk.Some? ==> ec == NoError && file != null && !file.error
      ensures chunk.Some? ==>
        var n := |chunk.value.bytes|;
        0 < n <= Amount(old(remain) as nat) &&
        chunk.value.bytes == buf[..n] &&
        emitted == old(emitted) + chunk.value.bytes &&
        remain as nat == old(remain) as nat - n &&
        chunk.value.more == (remain > 0)
      ensures file != null && !file.error ==>
        (chunk.Some? <==> old(Pending()) != []) &&
        (chunk.Some? ==> chunk.value == old(Pending())[0] && Pending() == old(Pending())[1..])
    {
      var amount := Amount(remain as nat);
      if amount == 0 {
        assert remain == 0;
        chunk, ec := None, NoError;
        return;
      }
      ghost var start := file.pos;
      var nread := file.Read(buf, amount);
      if file.error {
        chunk, ec := None, Errno;
        return;
      }
      if nread == 0 {
        chunk, ec := None, IoError;
        return;
      }
      ChunksStep(file.data, start, remain as nat, nread);
      assert file.data[..file.pos] == file.data[..start] + file.data[start..file.pos];
      remain := RemainAfter(remain as nat, nread) as uint64;
      emitted := emitted + buf[..nread];
      chunk, ec := Some(Chunk(buf[..nread], remain > 0)), NoError;
    }

    /** `~reader()`: closes the file exactly when `fopen` had opened it. */
    method Dispose()
      requires Valid()
      modifies file
      ensures file != null ==> !file.isOpen
      ensures file != null ==>
        file.data == old(file.data) && file.pos == old(file.pos) && file.error == old(file.error)
    {
      if file != null {
        file.Close();
      }
    }
  }

  /** `reader(m, ec)`: opens the file named by the body with "rb". When that fails the
      error code is the errno error and no file is held; otherwise the size query sets
      `remain_`, and when it fails the error code is its error and `remain_` is 0. */
  method NewReader(fs: FileSystem, path: string) returns (r: Reader, ec: ErrorCode)
    ensures fresh(r) && r.Valid() && r.path == path && r.emitted == []
    ensures fs.contents(path).None? ==> ec == Errno && r.file == null && r.remain == 0
    ensures fs.contents(path).Some? ==>
      r.file != null && fresh(r.file) && r.file.data == fs.contents(path).value &&
      r.file.pos == 0 && !r.file.error
    ensures fs.contents(path).Some? && fs.fileSize(path).SizeError? ==>
      ec == SystemError(fs.fileSize(path).message) && r.remain == 0
    ensures fs.contents(path).Some? && fs.fileSize(path).SizeOk? ==>
      ec == NoError && r.remain == fs.fileSize(path).size
  {
    var f := FOpen(fs, path, ReadBinary);
    if f == null {
      r := new Reader(path, null, 0);
      ec := Errno;
      return;
    }
    match fs.fileSize(path)
    case SizeError(message) =>
      r := new Reader(path, f, 0);
      ec := SystemError(message);
    case SizeOk(n) =>
      r := new Reader(path, f, n);
      ec := NoError;
  }

  // ---------------------------------------------------------------------------------
  // file_body::writer

  /** `file_body::writer`: the file the request body is stored in. */
  class Writer {
    const path: string
    var file: CFile?

    ghost predicate Valid()
      reads this, file
    {
      file != null ==> file.Valid() && file.isOpen
    }

    constructor (path: string, file: CFile?)
      requires file != null ==> file.Valid() && file.isOpen
      ensures Valid() && this.path == path && this.file == file
    {
      this.path := path;
      this.file := file;
    }

    /** `put(buffers, ec)`: writes the buffers in order and stops at the first one after
        which the error indicator is set. The error code is cleared only when every
        buffer was written, which is when there were no buffers at all or the indicator
        is still clear at the end. */
    method Put(buffers: seq<seq<byte>>) returns (ec: ErrorCode, ghost failedAt: nat, ghost written: nat)
      requires Valid() && file != null
      modifies file
      ensures Valid()
      ensures ec == NoError || ec == Errno
      ensures ec == NoError <==> (buffers == [] || !file.error)
      ensures ec == NoError ==> file.data == old(file.data) + Flatten(buffers)
      ensures ec == Errno ==>
        failedAt < |buffers| && written <= |buffers[failedAt]| &&
        file.data == old(file.data) + Flatten(buffers[..failedAt]) + buffers[failedAt][..written]
    {
      failedAt, written := 0, 0;
      var i := 0;
      while i < |buffers|
        invariant 0 <= i <= |buffers|
        invariant file.Valid() && file.isOpen
        invariant file.data == old(file.data) + Flatten(buffers[..i])
        invariant i > 0 ==> !file.error
      {
        var n := file.Write(buffers[i]);
        if file.error {
          ec, failedAt, written := Errno, i, n;
          return;
        }
        assert buffers[..i + 1][..i] == buffers[..i];
        i := i + 1;
      }
      assert buffers[..i] == buffers;
      ec := NoError;
    }

    /** `finish(ec)`: flushes the file; the error code is cleared exactly when the error
        indicator is clear afterwards. */
    method Finish() returns (ec: ErrorCode)
      requires Valid() && file != null
      modifies file
      ensures Valid() && file.data == old(file.data)
      ensures ec == NoError <==> !file.error
      ensures ec != NoError ==> ec == Errno
    {
      file.Flush();
      ec := if file.error then Errno else NoError;
    }

    /** `~writer()`: closes the file exactly when `fopen` had opened it. */
    method Dispose()
      requires Valid()
      modifies file
      ensures file != null ==> !file.isOpen
      ensures file != null ==>
        file.data == old(file.data) && file.pos == old(file.pos) && file.error == old(file.error)
    {
      if file != null {
        file.Close();
      }
    }
  }

  /** `writer(m, content_length, ec)`: opens the file named by the body with "wb"; the
      expected content length is ignored. */
  method NewWriter(fs: FileSystem, path: string, contentLength: Option<uint64>) returns (w: Writer, ec: ErrorCode)
    ensures fresh(w) && w.Valid() && w.path == path
    ensures fs.canCreate(path) ==> ec == NoError && w.file != null && fresh(w.file) && w.file.data == [] && !w.file.error
    ensures !fs.canCreate(path) ==> ec == Errno && w.file == null
  {
    var f := FOpen(fs, path, WriteBinary);
    w := new Writer(path, f);
    ec := if f == null then Errno else NoError;
  }
}
