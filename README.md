# bytebuffer in Dafny

A model of the Go package `bytebuffer`: a `Buffer` holding a byte slice `BS`
and a separate counter `len`, and a `Pool` that wraps a `sync.Pool` of such
buffers. `NewPool` resolves the capacity of new buffers. `Get` hands out a
cached or a newly minted buffer, after resetting it and stamping it with its
owner. `Free` hands the buffer back to that owner.

The model follows the code, which does less than a textbook growable buffer.

- `Grow` never reallocates. It re-slices `BS[:len]` over the same array, so the
  new length must lie between 0 and `cap(BS)` (Go panics otherwise). `Write`
  and `WriteString` go through `Grow`, so they also work only within capacity:
  neither `Grow` nor `Write` ever reallocates.
- `WriteByte` uses `append`. That may reallocate, but it never updates `len`,
  so afterwards `Len()` is one less than `len(Bytes())`, when the two agreed
  before (each further `WriteByte` widens the gap by one). A later `Write` starts
  at `len` and overwrites or drops that byte.
- `Grow` after `Reset` re-exposes whatever the backing array held, including
  bytes written before the reset.

Files:

- `buffer_state.dfy`, module `BufferState`. The value of a buffer's fields is
  `BufState`: the whole backing array, `len(BS)` and the counter. The four
  mutating operations are functions on that value. Lemmas relate them to each
  other.
- `bytebuffer.dfy`, module `ByteBuffer`. `Buffer` and `Pool` are classes. Every
  mutating `Buffer` method ties the new `State()` to the `BufferState`
  function of the old one and says what else stays the same; the `Pool`
  methods and `Buffer.Free` state how the cache changes. `Buffer.Valid()` says the counter never
  passes the slice, the slice lies within its array and the capacity is never below the owner pool's capacity.
  `Pool.Valid()` says every cached buffer is valid and owned by that pool.
- `scenarios.dfy`, module `Scenarios`. The cases of buffer_test.go and two
  end-to-end uses, as client methods whose results are proved.

## Model

| member | source | states |
|---|---|---|
| BufferState.BufState.Reset | buffer.go:73-76 | the slice and the counter both become 0, so the view is empty and the two agree; the backing array (capacity and contents) is untouched |
| BufferState.BufState.Grow | buffer.go:79-82 | defined only when `len + n` lies in `0..cap`; the counter moves by `n`, the slice follows it, and the array is unchanged, so the view is the array's first `len + n` bytes; growing a consistent state keeps its old view as a prefix |
| BufferState.BufState.Write | buffer.go:85-90 | defined only within capacity; the view becomes the first `len` bytes followed by `bs`, which is the old view followed by `bs` when the counter agreed with the slice; capacity and the array beyond the write are unchanged, and the counter agrees with the slice afterwards |
| BufferState.BufState.WriteByte | buffer.go:93-96 | the view grows by exactly `v` and the counter does not move; capacity only grows, and only when the slice was full; on reallocation the new array holds the slice, `v` and zeros; otherwise the rest of the array is untouched |
| BufferState.ResetIdempotent | buffer.go:73-76 | resetting twice leaves the same state as resetting once |
| BufferState.WriteTwice | buffer.go:85-90 | writing `a` and then `b` leaves exactly the state left by writing `a + b` |
| BufferState.WriteEmptyIsNoop | buffer.go:85-90 | writing nothing into a consistent buffer changes nothing |
| BufferState.WriteByteDesynchronises | buffer.go:93-96 | after `WriteByte` on a consistent buffer the counter and the slice disagree: the view is one byte longer than the counter |
| BufferState.WriteAfterWriteByteDropsByte | buffer.go:85-96 | a `Write` after a `WriteByte` yields the old view followed by the written bytes, without the byte `WriteByte` appended |
| BufferState.GrowAfterResetExposesBacking | buffer.go:73-82 | growing by `n` after a reset shows the first `n` bytes of the backing array, which are the old view's first `n` bytes when it was that long |
| BufferState.ResetThenWrite | buffer.go:73-90 | whatever a buffer held, resetting it and writing `s` gives a view equal to `s` and a counter of `|s|` |
| BufferState.WriteAllIsOneWrite | buffer.go:85-90 | any non-empty sequence of writes that fits in the capacity leaves the state of one write of their concatenation |
| ByteBuffer.ResolveCap | buffer.go:34-50 | a missing configuration or one with `Cap <= 1` resolves to 1024; any `Cap > 1` is taken as it is; the result is always above 1 |
| ByteBuffer.Buffer.constructor | buffer.go:52-55 | a minted buffer has a new zeroed array of the requested capacity, slice length 0, counter 0 and no owner |
| ByteBuffer.Buffer.Reset | buffer.go:73-76 | the state becomes the reset state; the array and the owner stay; `Len()` is 0 and `Bytes()` is empty |
| ByteBuffer.Buffer.Grow | buffer.go:79-82 | requires `0 <= len + n <= Cap()`; the state becomes the grown state; the view is the old array's first `len + n` bytes; array and owner are unchanged |
| ByteBuffer.Buffer.Write | buffer.go:85-90 | requires `len + |bs| <= Cap()`; the state becomes the written state, `bs` having been copied to positions `len..len+|bs|`; returns `(|bs|, nil)`; the view is the old view followed by `bs` when the counter agreed with the slice |
| ByteBuffer.Copy | buffer.go:89 | Go's `copy` into `dst[from:to]`: the count is the smaller of `to - from` and `|src|`, the array becomes its old prefix, that many bytes of `src`, and its old suffix |
| ByteBuffer.Buffer.WriteByte | buffer.go:93-96 | the state becomes the appended state for the capacity now in use; the view gains `v` and the counter is unchanged; the array stays when there was room and is a new, larger one otherwise; returns nil |
| ByteBuffer.Buffer.WriteString | buffer.go:99-102 | the same state change as writing the string's bytes; returns nil; `String()` gains `s` when the buffer was consistent |
| ByteBuffer.Buffer.Len | buffer.go:105-107 | the counter, equal to the view's length whenever the counter and the slice agree |
| ByteBuffer.Buffer.Cap | buffer.go:110-112 | the array's size, never below the view's length, which is never below `Len()`, nor below the owner pool's capacity |
| ByteBuffer.Buffer.Bytes | buffer.go:115-117 | the bytes of `BS` at the time of the call: its i-th byte is the array's i-th byte, for every index below the slice length |
| ByteBuffer.Buffer.String | buffer.go:119-121 | the same bytes as `Bytes()` |
| ByteBuffer.Buffer.Free | buffer.go:124-126 | the owner's cache gains this buffer once more and stays valid |
| ByteBuffer.Pool.constructor | buffer.go:34-57 | `NewPool(c)`: an empty cache and a capacity of `ResolveCap(c)` |
| ByteBuffer.Pool.Fetch | buffer.go:52-56 | `sync.Pool.Get` with the pool's `New`: either a new buffer with a zeroed array of the pool's capacity, no owner and the cache unchanged, or one cached buffer owned by this pool removed from the cache; the pool stays valid |
| ByteBuffer.Pool.Get | buffer.go:60-65 | whatever it fetched is returned reset and stamped: a valid, consistent, empty buffer owned by this pool with capacity at least the pool's; a new buffer has a zeroed array of the pool's capacity and leaves the cache unchanged, a reused one leaves the cache once and keeps its array; every other cached buffer keeps its array, slice length, counter and owner |
| ByteBuffer.Pool.Put | buffer.go:68-70 | the cache gains the buffer once more and stays valid |
| Scenarios.NewPoolCase | buffer_test.go:33-47 | a new pool's first buffer has length 0 and the resolved capacity, for every configuration |
| Scenarios.PoolCreationCases | buffer_test.go:21-50 | the configurations nil, 2048 and 512 give length 0 and capacities 1024, 2048 and 512 |
| Scenarios.WriteByteCase | buffer_test.go:62-76 | the first case, on a new default pool: after `WriteByte(v)` the first byte of `Bytes()` is `v` while `Len()` stays 0 |
| Scenarios.SharedPoolWriteByteCase | buffer_test.go:62-78 | a later case on the same pool, after an earlier buffer appended a byte and was freed: the first byte of `Bytes()` is the new byte and `Len()` is 0, whether or not the freed buffer came back |
| Scenarios.WriteByteCases | buffer_test.go:52-79 | the bytes 'a' and then '2', the second case on a pool left as the first case leaves it, read back as the first byte, and `Len()` is 0 both times |
| Scenarios.WriteCase | buffer_test.go:91-112 | the first case, on a new default pool: any byte sequence of at most 1024 bytes reads back exactly from `Bytes()` |
| Scenarios.WriteCases | buffer_test.go:81-114 | the empty sequence and then "hello world", the second case on a pool left as the first case leaves it, read back exactly |
| Scenarios.WriteStringCase | buffer_test.go:126-141 | the first case, on a new default pool: any string of at most 1024 bytes written with `WriteString` reads back exactly from `String()` |
| Scenarios.SharedPoolWriteStringCase | buffer_test.go:126-142 | a later case on the same pool, after an earlier buffer was written with `WriteString` and freed: `String()` is exactly the new string, whether or not the freed buffer came back |
| Scenarios.WriteStringCases | buffer_test.go:116-143 | "" and then "Hello World", the second case on a pool left as the first case leaves it, read back exactly |
| Scenarios.SharedPoolCase | buffer_test.go:91-112 | a later case of the write test on the same pool, after an earlier buffer was written and freed: `Bytes()` is exactly what the new buffer was written with, whether or not it is the same buffer |
| Scenarios.StringThenBytes | buffer.go:85-102 | `WriteString(s)` then `Write(bs)` reads back `s + bs` from `String()` with `Len()` equal to their total length |
| Scenarios.HelloWorld | buffer.go:85-102 | `WriteString("hello ")` then `Write("world")` gives `String()` "hello world" and `Len()` 11 |
| Scenarios.ReuseAfterFree | buffer.go:60-82 | after writing `secret`, freeing and getting again, the view is empty; growing it by `|secret|` shows `secret` (the same buffer came back) or zeros (a new one was minted) |

## Left out

- `sync.Pool` internals: thread safety, per-processor caches, ordering, and the
  discarding of cached buffers by the garbage collector are not modelled. The
  cache is a multiset, and `Get` chooses nondeterministically between a cached
  buffer and a new one.
- Go's slice growth policy inside `append` is not modelled. `WriteByte` on a
  full slice chooses any capacity larger than the current length.
- `byteToString` (buffer.go:129-135) reinterprets the slice header as a string
  header with `unsafe`. Dafny sequences are values, so `String()` returns the
  same bytes as `Bytes()` and the aliasing itself is not captured: a string
  taken before a later mutation does not change in the model, as it would in Go.
- Go panics are not modelled: the panic conditions of `Grow`, `Write` and
  `WriteString` (new length outside `0..cap`) are preconditions. `Free` on a
  buffer that no `Get` stamped (nil owner) is excluded by a precondition too.
- Machine integer width: `len` and the capacities are unbounded naturals. Go's
  `int` overflow cannot arise within the preconditions.
- Misuse that the code does not detect (double `Free`, use after `Free`) is
  allowed by the model as in Go: a buffer freed twice sits in the cache twice.
- The recover-based helpers of buffer_test.go (lines 9-19) and the `testing`
  framework are not modelled; each scenario states as its postcondition what
  the corresponding test asserts.
- Every `Buffer` method requires `Buffer.Valid()`, and `Pool.Get`, `Pool.Put`
  and `Buffer.Free` require `Pool.Valid()`. These are object invariants that
  every operation keeps, not conditions that buffer.go checks.
- A `Write` beyond the capacity, such as 23 bytes into a fresh buffer of
  capacity 4, is outside `Write`'s precondition: in buffer.go `Grow` does not
  reallocate and the re-slice panics.
- ByteBuffer.Buffer.Bytes: returns the bytes as a value, so the aliasing of
  the returned slice with the backing array is not captured. In Go, storing
  into the result changes the buffer, and a slice taken earlier shows bytes
  that a later in-place `WriteByte`, or a `Reset` followed by a `Write`,
  stores there. `String()` inherits the same gap.
- Assigning the exported field `BS` directly, for example to a slice of
  smaller capacity before `Free`, is outside the model: only the methods of
  buffer.go change a buffer, so `Get` always hands out at least the pool's
  capacity.
