/** The browser `File` as the adapter sees it: its bytes, the size it reports, and
    `slice` followed by a synchronous read of the slice, which yields the bytes of
    the requested range clipped to the end of the file. */
module Blob {
  import opened Ints
  import opened SafeNumber

  datatype File = File(bytes: seq<bv8>) {
    /** `File::size`, as the browser reports it. */
    function ReportedSize(): F64 {
      Finite(|bytes| as real)
    }
  }

  function Min(a: int, b: int): int {
    if a <= b then a else b
  }

  function Max(a: int, b: int): int {
    if a <= b then b else a
  }

  /** The bytes of `bytes` in the half-open range [start, end), clipped to its
      extent: nothing at or past the end, and never more than requested. */
  function Clip(bytes: seq<bv8>, start: nat, end: nat): (r: seq<bv8>)
    ensures |r| == if start < |bytes| && start < end then Min(end, |bytes|) - start else 0
  {
    var s := Min(start, |bytes|);
    bytes[s..Min(Max(s, end), |bytes|)]
  }

  /** The i-th byte obtained is the file's byte at `start + i`. */
  lemma ClipAt(bytes: seq<bv8>, start: nat, end: nat, i: nat)
    requires i < |Clip(bytes, start, end)|
    ensures start + i < |bytes| && Clip(bytes, start, end)[i] == bytes[start + i]
  {
  }

  /** `slice_with_f64_and_f64(start, end)` materialized by `read_as_array_buffer`:
      the specified clipping of `slice` for the non-negative finite offsets the
      adapter passes, whose integer parts are the offsets. */
  function Slice(file: File, start: F64, end: F64): seq<bv8>
    requires start.Finite? && 0.0 <= start.v
    requires end.Finite? && 0.0 <= end.v
  {
    Clip(file.bytes, start.v.Floor, end.v.Floor)
  }

  /** The number of bytes a read of `len` bytes at `pos` obtains from a file of
      `size` bytes: what is left of the file, but never more than requested. */
  function Avail(size: nat, pos: nat, len: nat): nat {
    if pos < size then Min(len, size - pos) else 0
  }

  /** From inside the file, the clipped range is the next `Avail` bytes. */
  lemma ClipAvail(bytes: seq<bv8>, pos: nat, len: nat)
    requires pos <= |bytes|
    ensures Clip(bytes, pos, pos + len) == bytes[pos..pos + Avail(|bytes|, pos, len)]
  {
  }

  /** The summed length of the buffers `lens[k..]`. */
  function Total(lens: seq<nat>, k: nat): nat
    requires k <= |lens|
    decreases |lens| - k
  {
    if k == |lens| then 0 else lens[k] + Total(lens, k + 1)
  }

  /** A run of reads with buffer lengths `lens[k..]` starting at `pos`, each one
      obtaining the clipped range at the current position (`ClipAvail`) and
      advancing the position by the count obtained: the bytes read, in order,
      and the final position. */
  function ReadRun(bytes: seq<bv8>, pos: nat, lens: seq<nat>, k: nat): (seq<bv8>, nat)
    requires k <= |lens| && pos <= |bytes|
    decreases |lens| - k
  {
    if k == |lens| then ([], pos)
    else
      var n := Avail(|bytes|, pos, lens[k]);
      var rest := ReadRun(bytes, pos + n, lens, k + 1);
      (bytes[pos..pos + n] + rest.0, rest.1)
  }

  /** Two adjacent reads, the second starting where the first stopped, obtain as
      many bytes as one read of their total length. */
  lemma AvailAdd(size: nat, pos: nat, len1: nat, len2: nat)
    ensures Avail(size, pos, len1) + Avail(size, pos + Avail(size, pos, len1), len2)
         == Avail(size, pos, len1 + len2)
  {
  }

  lemma SliceConcat(s: seq<bv8>, a: nat, b: nat, c: nat)
    requires a <= b <= c <= |s|
    ensures s[a..b] + s[b..c] == s[a..c]
  {
  }

  /** Consecutive reads concatenate to one read of the total length: the next
      `Avail` bytes for the summed buffer lengths, which is the clipped range
      [pos, pos + Total(lens, k)) by `ClipAvail`. */
  lemma {:induction false} SequentialReads(bytes: seq<bv8>, pos: nat, lens: seq<nat>, k: nat)
    requires k <= |lens| && pos <= |bytes|
    ensures ReadRun(bytes, pos, lens, k).0 == bytes[pos..pos + Avail(|bytes|, pos, Total(lens, k))]
    decreases |lens| - k
  {
    if k < |lens| {
      var n := Avail(|bytes|, pos, lens[k]);
      var m := Avail(|bytes|, pos + n, Total(lens, k + 1));
      SequentialReads(bytes, pos + n, lens, k + 1);
      AvailAdd(|bytes|, pos, lens[k], Total(lens, k + 1));
      SliceConcat(bytes, pos, pos + n, pos + n + m);
    }
  }

  /** One read of the run from a position inside the file: it obtains the
      clipped range of its buffer length, which stays inside the file, and the
      rest of the run goes on from where it stopped, so appending the bytes read
      to what was collected before keeps the collected bytes a prefix of the
      run. */
  lemma ReadRunStep(bytes: seq<bv8>, pos: nat, lens: seq<nat>, k: nat, chunk: seq<bv8>, next: nat, acc: seq<bv8>)
    requires k < |lens| && pos <= |bytes|
    requires chunk == Clip(bytes, pos, pos + lens[k])
    requires next == pos + |chunk|
    ensures next <= |bytes|
    ensures (acc + chunk) + ReadRun(bytes, next, lens, k + 1).0 == acc + ReadRun(bytes, pos, lens, k).0
  {
    ClipAvail(bytes, pos, lens[k]);
    var rest := ReadRun(bytes, next, lens, k + 1).0;
    assert ReadRun(bytes, pos, lens, k).0 == chunk + rest;
    assert (acc + chunk) + rest == acc + (chunk + rest);
  }

  /** A whole run of reads from a position inside the file obtains the clipped
      range of the summed buffer lengths. */
  lemma RunIsClip(bytes: seq<bv8>, pos: nat, lens: seq<nat>)
    requires pos <= |bytes|
    ensures ReadRun(bytes, pos, lens, 0).0 == Clip(bytes, pos, pos + Total(lens, 0))
  {
    SequentialReads(bytes, pos, lens, 0);
    ClipAvail(bytes, pos, Total(lens, 0));
  }

  /** Consecutive reads advance the position by exactly the number of bytes they
      obtain, and never past the end of the file. */
  lemma {:induction false} ReadRunAdvances(bytes: seq<bv8>, pos: nat, lens: seq<nat>, k: nat)
    requires k <= |lens| && pos <= |bytes|
    ensures ReadRun(bytes, pos, lens, k).1 == pos + |ReadRun(bytes, pos, lens, k).0|
    ensures ReadRun(bytes, pos, lens, k).1 <= |bytes|
    decreases |lens| - k
  {
    if k < |lens| {
      ReadRunAdvances(bytes, pos + Avail(|bytes|, pos, lens[k]), lens, k + 1);
    }
  }

  /** Reading a whole file from offset 0 with buffers whose lengths add up to at
      least its size yields exactly its bytes, the cursor then sits at its end,
      and every further read obtains nothing. */
  lemma ReadToEnd(bytes: seq<bv8>, lens: seq<nat>, more: nat)
    requires Total(lens, 0) >= |bytes|
    ensures ReadRun(bytes, 0, lens, 0).0 == bytes
    ensures ReadRun(bytes, 0, lens, 0).1 == |bytes|
    ensures Clip(bytes, ReadRun(bytes, 0, lens, 0).1, ReadRun(bytes, 0, lens, 0).1 + more) == []
  {
    var run := ReadRun(bytes, 0, lens, 0);
    assert run.0 == bytes by {
      SequentialReads(bytes, 0, lens, 0);
      assert bytes[0..|bytes|] == bytes;
    }
    assert run.1 == |bytes| by {
      ReadRunAdvances(bytes, 0, lens, 0);
    }
    ClipPastEnd(bytes, run.1, run.1 + more);
  }

  /** A read from at or past the end of the file obtains nothing. */
  lemma ClipPastEnd(bytes: seq<bv8>, start: nat, end: nat)
    requires start >= |bytes|
    ensures Clip(bytes, start, end) == []
  {
  }
}
