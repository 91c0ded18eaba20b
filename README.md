# WebSysFile: `Read` and `Seek` over a browser `File`

This project models `WebSysFile`, a Rust adapter that lets a browser `File` be used with
`std::io::Read` and `std::io::Seek`. The browser only offers two things: `slice(start, end)`
on the file, and a synchronous read of that slice, both taking double-precision offsets.
The adapter keeps one piece of state, the cursor `pos: u64`. It has three parts:

- **Safe-number guards** (module `SafeNumber`). `u64_to_f64_safe` and `f64_to_u64_safe` let an
  offset cross into, or a size come back from, the browser's number type only when the value
  does not exceed `Number.MAX_SAFE_INTEGER` = 2^53 - 1. `u64_to_f64_safe` is exact at or below
  that bound. `f64_to_u64_safe` accepts every number in `[0, MAX_SAFE_INTEGER]`. It is exact for
  integral numbers and drops the fractional part of the others.
- **Signed-offset arithmetic** (module `SignedOffset`). `overflowing_add_signed` reinterprets an
  `i64` as a `u64` and adds with wrap-around. Its overflow flag is the carry XOR the sign of the
  offset. `checked_add_signed` turns a set flag into `None`. The standard `u64` operations it
  builds on are in module `Ints`, with wrap-around written out modulo 2^64.
- **The cursor** (module `Reader`, class `WebSysFile`). `new` starts at offset 0. `size` converts
  the file's reported size. `Read` fetches the range `[pos, pos saturating+ len)` of the file and
  copies the bytes it gets into the front of the caller's buffer (an `array<bv8>`). It then
  advances `pos` by the number of bytes it got. `Seek` moves to an absolute offset without any
  bounds check. It can also move relative to the end or to the cursor with `checked_add_signed`.
  When that fails it reports `InvalidInput` and leaves `pos` unchanged.

The browser side is in module `Blob`. A `File` is its sequence of bytes, and it reports its
byte count as its size. `slice` followed by the synchronous read yields the requested range
clipped to the extent of the file (`Clip`). This is the clipping behaviour of the W3C File
API's `Blob.slice()`, and it is all the adapter relies on.

A Rust panic (`expect`) becomes a precondition. The callers who satisfy it are the ones for
whom the panic does not fire. This applies to `size` (the reported size is NaN, an infinity, negative, or above
`MAX_SAFE_INTEGER`),
to `read` (the cursor or the saturated end offset is above `MAX_SAFE_INTEGER`, or the buffer
length does not fit in a `u64`) and to `seek(End)` (through `size`). `Read` reaches
`checked_add(..).expect("new position too large")` on every call. Its proof shows that this
panic never fires when the read's own preconditions hold. Error results are modelled as a tagged
`Result` whose error carries only the `ErrorKind`.

`Reader.ReadBuffers` is a client method that calls `Read` in a loop, once per buffer, and proves
that the bytes it collects are the run of reads `Blob.ReadRun`.

`Reader.TenByteFileScenario` is a client method on a ten-byte file. It seeks and reads, and it
asserts only what the contracts let a caller conclude: the returned counts, the buffer
contents, the clipped read at the end, a refused negative seek, and a read past the end that
gets zero bytes.

Two points where the code does less than its own comments or signatures suggest. The model
follows the code in both:
- The doc comment of `f64_to_u64_safe` (src/lib.rs:43-44) promises a conversion without loss of
  precision. The code, however, truncates an in-range value with a fractional part through
  `x as u64` (src/lib.rs:46-47). So a reported size of 3.5 is accepted as 3.
- Failures of `slice_with_f64_and_f64` and of `read_as_array_buffer` panic (src/lib.rs:65, 69).
  `read` does not return them as an `io::Error`.

## Model

| member | source | states |
|---|---|---|
| `Ints.OverflowingAdd` | src/lib.rs:88 | the result is the sum modulo 2^64; the flag is set exactly when the mathematical sum exceeds `u64::MAX` |
| `Ints.CheckedAdd` | src/lib.rs:78-80 | `Some` exactly when the sum fits in a `u64`, and then it holds the sum |
| `Ints.SaturatingAdd` | src/lib.rs:59 | never below either operand; equals the sum, or `u64::MAX` when the sum does not fit (never wraps) |
| `SafeNumber.U64ToF64Safe` | src/lib.rs:31-41 | succeeds exactly when `x <= MAX_SAFE_INTEGER`; the accepted number loses no precision: it converts back through `f64_to_u64_safe` to exactly `x` |
| `SafeNumber.F64ToU64Safe` | src/lib.rs:43-51 | succeeds exactly for finite numbers in `[0, MAX_SAFE_INTEGER]`; the result is at most the bound and is the integer part of the input |
| `SafeNumber.F64ToU64SafeRefuses` | src/lib.rs:46-50 | NaN, both infinities, negative numbers and numbers above the bound give `None` |
| `SafeNumber.F64ToU64SafeExact` | src/lib.rs:46-47 | an integral number in the safe range comes back as exactly that integer |
| `SafeNumber.SafeRoundTrip` | src/lib.rs:33-51 | every `u64` at or below the bound survives the forward guard and then the backward one unchanged; every `u64` above the bound is refused |
| `SafeNumber.SafeRoundTripBack` | src/lib.rs:33-51 | an accepted integral number survives the backward guard and then the forward one unchanged |
| `SignedOffset.AsUnsigned` | src/lib.rs:88 | `rhs as u64` is congruent to `rhs` modulo 2^64, and its value is above `i64::MAX` exactly when `rhs` is negative |
| `SignedOffset.OverflowingAddSigned` | src/lib.rs:87-90 | the value is `lhs + rhs` modulo 2^64; the carry-XOR-sign flag is set exactly when the mathematical sum is outside `[0, u64::MAX]` |
| `SignedOffset.CheckedAddSigned` | src/lib.rs:92-99 | `Some(lhs + rhs)` exactly when `0 <= lhs + rhs <= u64::MAX` in mathematical integers, `None` otherwise |
| `SignedOffset.OverflowingAddSignedBoundaries` | src/lib.rs:87-90 | wrapped value and flag at 0, `u64::MAX`, `i64::MIN` and `i64::MAX`, including a carrying negative addition that is legal and a non-carrying one that underflows |
| `Blob.Clip` | src/lib.rs:62-72 | the bytes obtained for `[start, end)`: `max(0, min(end, size) - start)` of them, so none from a `start` at or past the end of the file or from an empty range, and never more than requested; `Blob.Slice`, the model of `slice_with_f64_and_f64` followed by `read_as_array_buffer` and `Uint8Array`, is `Clip` at the integer parts of its two non-negative finite offsets |
| `Blob.ClipAt` | src/lib.rs:62-72 | the i-th byte obtained is the file's byte at `start + i` |
| `Blob.ClipPastEnd` | src/lib.rs:62-72 | a read from at or past the end of the file obtains nothing |
| `Blob.ClipAvail` | src/lib.rs:62-76 | from inside the file, a read of `len` bytes obtains the next `Avail` bytes: what is left of the file, capped at `len` |
| `Blob.AvailAdd` | src/lib.rs:54-83 | two adjacent reads, the second starting where the first stopped, obtain as many bytes as one read of their total length |
| `Blob.SequentialReads` | src/lib.rs:54-83 | a run of reads from any position inside the file concatenates to the bytes one read of the summed buffer lengths obtains |
| `Blob.ReadRunStep` | src/lib.rs:54-83 | one read of a run obtains the clipped range of its buffer length and stays inside the file; appending it to the bytes collected so far keeps them a prefix of the run |
| `Blob.RunIsClip` | src/lib.rs:54-83 | a whole run of reads from inside the file obtains the clipped range of the summed buffer lengths |
| `Blob.ReadRunAdvances` | src/lib.rs:78-80 | after a run of reads, the position is the start plus the number of bytes obtained, and never past the end of the file |
| `Blob.ReadToEnd` | src/lib.rs:54-83 | reads from 0 whose lengths add up to at least the size yield exactly the file's bytes and leave the cursor at the end, where every further read obtains nothing |
| `Reader.WebSysFile.constructor` | src/lib.rs:19-21 | wraps the given file with `pos == 0` |
| `Reader.WebSysFile.Size` | src/lib.rs:24-28 | returns the file's byte count; panics (precondition) unless `f64_to_u64_safe` accepts the reported size, `Blob.File.ReportedSize`, the model of `File::size` (src/lib.rs:25), which is the byte count as a finite number |
| `Reader.WebSysFile.Read` | src/lib.rs:53-83 | `buf[..n]` holds exactly the clipped bytes of `[old pos, old pos + buf.Length)`; `buf[n..]` is unchanged; `n <= buf.Length`; `pos` becomes `old pos + n`; panics (precondition) when `pos` or `pos.saturating_add(len)` exceeds `MAX_SAFE_INTEGER` |
| `Reader.WebSysFile.Seek` | src/lib.rs:101-122 | `Start(n)` sets `pos := n` and returns `n`, with no size check; `End(d)` and `Current(d)` return the size plus `d` or the old `pos` plus `d` when that is in `[0, u64::MAX]`, and `InvalidInput` otherwise; on success `pos` is the returned value, on error `pos` is unchanged |
| `Reader.ReadFits` | src/lib.rs:55-61 | the three `expect`s of `read` on the buffer length, the offset and the saturated end offset all stay silent exactly when `pos + len <= MAX_SAFE_INTEGER` |
| `Reader.ReadChunk` | src/lib.rs:54-83 | one `read` into a fresh buffer of `len` bytes, allowed whenever `pos + len` is a safe integer, obtains the clipped range at the cursor and advances the cursor by its count |
| `Reader.ReadBuffers` | src/lib.rs:54-83 | a caller issuing one `read` per buffer from a position inside the file, each buffer passing `read`'s guard wherever in the file the cursor stands, collects exactly the run of reads, which is one clipped read of the summed buffer lengths, and the cursor advances by the count collected |

## Left out

- The thread-local `FileReaderSync` and its construction (src/lib.rs:8-10) are not modelled. Neither are the failures of `slice_with_f64_and_f64` and `read_as_array_buffer` (src/lib.rs:62-70), which panic. That browser and worker I/O is the total function `Blob.Slice`, which never fails.
- `js_sys::Uint8Array`, `File::size` and `File::slice_with_f64_and_f64` are foreign bindings. A `File` is modelled as its bytes, and its reported size is its exact byte count.
- Blob.Slice: is defined only for the finite non-negative offsets that `read` passes. Negative, infinite and NaN arguments of the W3C `slice()` are not modelled.
- IEEE-754 rounding is not modelled. A finite `f64` is an exact real. In the source, `u64_to_f64_safe` compares the rounded value `x as f64` with the bound. The model compares `x` itself. The two agree: rounding is monotone and 2^53 is representable, so every `x` above the bound rounds to at least 2^53.
- Reader.WebSysFile.Read: `Uint8Array::byte_length` returns a `u32`, and `usize::try_from` depends on the platform (src/lib.rs:72-74). Neither is modelled, so the count obtained is the full clipped length even for 4 GiB or more. `u64::try_from(buf_len)` (src/lib.rs:59) is kept as the precondition `buf.Length <= u64::MAX`.
- The `std::io::Error` message strings and the `Read`/`Seek` trait plumbing are not modelled. An error is only its `ErrorKind`.
- Concurrency is not modelled. The adapter is single-threaded and synchronous.
- Blob.SequentialReads: the run of reads `ReadRun` starts at a position inside the file or at its end. A run that starts past the end, after a `seek(Start(n))` beyond the size, obtains nothing at each step by `Blob.ClipPastEnd` and is not stated as a run.
