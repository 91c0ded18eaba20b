/** `WebSysFile`: a browser `File` behind a 64-bit cursor, with `read` copying the
    next bytes into a caller's buffer and `seek` moving the cursor absolutely or
    relative to the cursor or to the end. A Rust panic (`expect`) is modelled as a
    precondition: the callers who meet it are exactly those for whom it does not
    fire. */
module Reader {
  import opened Ints
  import opened SafeNumber
  import opened SignedOffset
  import opened Blob

  /** `std::io::SeekFrom`. */
  datatype SeekFrom = Start(n: U64) | End(delta: I64) | Current(delta: I64)

  /** The kind of a `std::io::Error`; `seek` reports only `InvalidInput`. */
  datatype ErrorKind = InvalidInput

  datatype Result<T> = Ok(value: T) | Err(error: ErrorKind)

  /** Reference meaning of a relative seek: the position `base + delta` when it is
      a valid `u64`, an invalid-input error otherwise. */
  function Offset(base: int, delta: int): Result<U64> {
    if 0 <= base + delta <= U64_MAX then Ok(base + delta) else Err(InvalidInput)
  }

  class WebSysFile {
    const file: File
    var pos: U64

    /** `WebSysFile::new`: wraps the file with the cursor at offset 0. */
    constructor (file: File)
      ensures this.file == file && pos == 0
    {
      this.file := file;
      pos := 0;
    }

    /** `size`: the reported size through `f64_to_u64_safe`; it panics when the
        size is NaN, an infinity, negative or above `MAX_SAFE_INTEGER`. */
    method Size() returns (s: U64)
      requires F64ToU64Safe(file.ReportedSize()).Some?
      ensures s == |file.bytes|
    {
      s := F64ToU64Safe(file.ReportedSize()).value;
    }

    /** `Read::read`: obtains the clipped range [pos, pos + buf.Length) of the file,
        copies it into the front of `buf`, leaves the rest of `buf` alone and
        advances the cursor by the count obtained, which it returns. It panics
        when the cursor or the saturated end of the range is above
        `MAX_SAFE_INTEGER`. */
    method Read(buf: array<bv8>) returns (n: nat)
      requires buf.Length <= U64_MAX
      requires U64ToF64Safe(pos).Some?
      requires U64ToF64Safe(SaturatingAdd(pos, buf.Length)).Some?
      modifies this`pos, buf
      ensures n <= buf.Length
      ensures buf[..n] == Clip(file.bytes, old(pos), old(pos) + buf.Length)
      ensures buf[n..] == old(buf[n..])
      ensures pos == old(pos) + n
    {
      var bufLen: U64 := buf.Length;
      var oldOffset := pos;
      var offset := U64ToF64Safe(oldOffset).value;
      var offsetEnd := U64ToF64Safe(SaturatingAdd(oldOffset, bufLen)).value;
      var bytes := Slice(file, offset, offsetEnd);
      var actualReadBytes := |bytes|;
      forall i | 0 <= i < actualReadBytes {
        buf[i] := bytes[i];
      }
      var newPos := CheckedAdd(oldOffset, actualReadBytes);
      pos := newPos.value;
      n := actualReadBytes;
    }

    /** `Seek::seek`: `Start(n)` moves to `n` unconditionally, even past the end;
        `End(d)` and `Current(d)` add `d` to the size or to the cursor with
        `checked_add_signed`, and on overflow or underflow report `InvalidInput`
        and leave the cursor where it was. `End` panics as `size` does. */
    method Seek(style: SeekFrom) returns (r: Result<U64>)
      requires style.End? ==> F64ToU64Safe(file.ReportedSize()).Some?
      modifies this`pos
      ensures r.Ok? ==> pos == r.value
      ensures r.Err? ==> pos == old(pos)
      ensures match style
        case Start(n) => r == Ok(n)
        case End(d) => r == Offset(|file.bytes|, d)
        case Current(d) => r == Offset(old(pos), d)
    {
      var basePos: U64, offset: I64;
      match style {
        case Start(n) =>
          pos := n;
          return Ok(n);
        case End(d) =>
          basePos := Size();
          offset := d;
        case Current(d) =>
          basePos := pos;
          offset := d;
      }
      match CheckedAddSigned(basePos, offset) {
        case Some(n) =>
          pos := n;
          r := Ok(pos);
        case None =>
          r := Err(InvalidInput);
      }
    }
  }

  /** The panics of `read` on its offsets and buffer length all stay silent
      exactly when the end of the requested range, `pos + len`, is a safe
      integer. */
  lemma ReadFits(pos: U64, len: nat)
    ensures (len <= U64_MAX && U64ToF64Safe(pos).Some? && U64ToF64Safe(SaturatingAdd(pos, len)).Some?)
        <==> pos + len <= MAX_SAFE_INTEGER
  {
  }

  /** One `read` into a fresh buffer of `len` bytes: the bytes obtained are the
      clipped range at the cursor, and the cursor advances by their count. */
  method ReadChunk(f: WebSysFile, len: nat) returns (chunk: seq<bv8>)
    requires f.pos + len <= MAX_SAFE_INTEGER
    modifies f
    ensures chunk == Clip(f.file.bytes, old(f.pos), old(f.pos) + len)
    ensures f.pos == old(f.pos) + |chunk|
  {
    ReadFits(f.pos, len);
    var buf := new bv8[len];
    var n := f.Read(buf);
    chunk := buf[..n];
  }

  /** A caller reading with buffers of lengths `lens`, one `Read` per buffer, from
      a position inside the file: the bytes it collects are the run of reads
      `ReadRun`, so together they are one clipped read of the summed lengths, and
      the cursor ends up advanced by their count. */
  method ReadBuffers(f: WebSysFile, lens: seq<nat>) returns (acc: seq<bv8>)
    requires f.pos <= |f.file.bytes|
    requires forall i | 0 <= i < |lens| :: |f.file.bytes| + lens[i] <= MAX_SAFE_INTEGER
    modifies f
    ensures acc == ReadRun(f.file.bytes, old(f.pos), lens, 0).0
    ensures acc == Clip(f.file.bytes, old(f.pos), old(f.pos) + Total(lens, 0))
    ensures f.pos == old(f.pos) + |acc|
  {
    ghost var bytes := f.file.bytes;
    ghost var p0 := f.pos;
    acc := [];
    var i := 0;
    while i < |lens|
      invariant i <= |lens|
      invariant f.pos <= |bytes|
      invariant f.pos == p0 + |acc|
      invariant acc + ReadRun(bytes, f.pos, lens, i).0 == ReadRun(bytes, p0, lens, 0).0
    {
      ghost var pos := f.pos;
      var chunk := ReadChunk(f, lens[i]);
      ReadRunStep(bytes, pos, lens, i, chunk, f.pos, acc);
      acc := acc + chunk;
      i := i + 1;
    }
    RunIsClip(bytes, p0, lens);
  }

  /** A ten-byte file holding 0..9: seeks and reads behave as a caller of the
      contracts above may conclude. */
  method TenByteFileScenario() {
    var f := new WebSysFile(File([0, 1, 2, 3, 4, 5, 6, 7, 8, 9]));
    var r := f.Seek(Start(3));
    assert r == Ok(3);
    var buf := new bv8[4];
    var n := f.Read(buf);
    assert buf[..] == buf[..n] == Clip(f.file.bytes, 3, 7);
    assert n == 4 && buf[..] == [3, 4, 5, 6] && f.pos == 7;
    r := f.Seek(End(-2));
    assert r == Ok(8);
    var buf2 := new bv8[5];
    n := f.Read(buf2);
    assert n == 2 && buf2[..2] == [8, 9];
    r := f.Seek(Current(-20));
    assert r == Err(InvalidInput) && f.pos == 10;
    r := f.Seek(Start(15));
    assert r == Ok(15);
    var buf3 := new bv8[3];
    n := f.Read(buf3);
    assert n == 0 && f.pos == 15;
  }
}
