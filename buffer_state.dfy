/** Value semantics of the three fields of a `Buffer` in buffer.go.
    A Go byte slice `BS` that was only ever re-sliced as `BS[:k]` or produced by
    `append` always starts at offset 0 of its backing array, so it is fully
    described by that array's contents and the slice length; `cap(BS)` is the
    array's size. The counter `len` is a separate field that the code keeps
    beside the slice. */
module BufferState {

  /** Go's `byte`. */
  newtype byte = x: int | 0 <= x < 256

  /** The bytes of freshly allocated Go memory. */
  function Zeros(k: nat): (z: seq<byte>)
    ensures |z| == k
    ensures forall i :: 0 <= i < k ==> z[i] == 0
  {
    seq(k, _ => 0)
  }

  /** `backing` is the whole backing array of `BS` (its size is `cap(BS)`),
      `sliceLen` is `len(BS)` and `len` is the field `b.len`. */
  datatype BufState = BufState(backing: seq<byte>, sliceLen: nat, len: nat)
  {
    /** What Go guarantees of every slice: its length is within its capacity. */
    predicate Valid() {
      sliceLen <= |backing|
    }

    /** The counter agrees with the slice: every operation except `WriteByte`
        keeps this. */
    predicate Consistent() {
      len == sliceLen
    }

    function Cap(): nat {
      |backing|
    }

    /** The bytes of `BS`, which `Bytes()` and `String()` hand out. */
    function Bytes(): seq<byte>
      requires Valid()
    {
      backing[..sliceLen]
    }

    /** `BS = BS[:0]; len = 0`. */
    function Reset(): (r: BufState)
      ensures r.Valid() && r.Consistent() && r.Bytes() == []
      ensures r.len == 0
      ensures r.backing == backing
    {
      this.(sliceLen := 0, len := 0)
    }

    /** `len += n; BS = BS[:len]`: the view is re-extended over the same
        backing array, never reallocated. Go panics unless the new length
        lies in `0..cap(BS)`. */
    function Grow(n: int): (r: BufState)
      requires 0 <= len + n <= |backing|
      ensures r.Valid() && r.Consistent() && r.len == len + n
      ensures r.backing == backing
      ensures r.Bytes() == backing[..len + n]
      ensures Valid() && Consistent() && 0 <= n ==> r.Bytes()[..sliceLen] == Bytes()
    {
      this.(len := len + n, sliceLen := len + n)
    }

    /** `Grow(len(bs))` followed by `copy(BS[m:m+len(bs)], bs)` where `m` is
        the counter before the call. */
    function Write(bs: seq<byte>): (r: BufState)
      requires len + |bs| <= |backing|
      ensures r.Valid() && r.Consistent() && r.len == len + |bs|
      ensures r.Cap() == Cap()
      ensures r.Bytes() == backing[..len] + bs
      ensures r.backing[len + |bs|..] == backing[len + |bs|..]
      ensures Consistent() ==> r.Bytes() == Bytes() + bs
    {
      var grown := Grow(|bs|);
      grown.(backing := backing[..len] + bs + backing[len + |bs|..])
    }

    /** `BS = append(BS, v)`; the counter is left alone. When the slice is
        full, Go's runtime allocates a zeroed array of some capacity
        `newCap > len(BS)` and copies the slice into it; otherwise `v` is
        stored in place, over whatever the backing array held there. */
    function WriteByte(v: byte, newCap: nat): (r: BufState)
      requires Valid()
      requires sliceLen < |backing| || sliceLen < newCap
      ensures r.Valid() && r.sliceLen == sliceLen + 1 && r.len == len
      ensures r.Bytes() == Bytes() + [v]
      ensures r.Cap() >= Cap()
      ensures r.Cap() != Cap() ==> sliceLen == Cap() && r.Cap() == newCap
      ensures sliceLen < Cap() ==> r.backing[sliceLen + 1..] == backing[sliceLen + 1..]
      ensures sliceLen == Cap() ==> r.backing[sliceLen + 1..] == Zeros(newCap - sliceLen - 1)
    {
      if sliceLen < |backing| then
        this.(backing := backing[sliceLen := v], sliceLen := sliceLen + 1)
      else
        BufState(backing + [v] + Zeros(newCap - sliceLen - 1), sliceLen + 1, len)
    }
  }

  /** Resetting twice is resetting once. */
  lemma ResetIdempotent(st: BufState)
    ensures st.Reset().Reset() == st.Reset()
  {
  }

  /** Writing `a` and then `b` leaves exactly the state that writing `a + b`
      in one call leaves, whatever the buffer held before. */
  lemma WriteTwice(st: BufState, a: seq<byte>, b: seq<byte>)
    requires st.len + |a| + |b| <= |st.backing|
    ensures st.Write(a).Write(b) == st.Write(a + b)
  {
  }

  /** Writing nothing into a buffer whose counter agrees with its slice
      changes nothing. */
  lemma WriteEmptyIsNoop(st: BufState)
    requires st.Valid() && st.Consistent()
    ensures st.Write([]) == st
  {
  }

  /** `WriteByte` moves the slice one byte past the counter, so afterwards
      `Len()` is one less than `len(Bytes())`. */
  lemma WriteByteDesynchronises(st: BufState, v: byte, newCap: nat)
    requires st.Valid() && st.Consistent()
    requires st.sliceLen < st.Cap() || st.sliceLen < newCap
    ensures !st.WriteByte(v, newCap).Consistent()
    ensures |st.WriteByte(v, newCap).Bytes()| == st.WriteByte(v, newCap).len + 1
  {
  }

  /** A `Write` after a `WriteByte` starts at the counter, not at the end of
      the slice: the byte appended by `WriteByte` is overwritten or cut off. */
  lemma WriteAfterWriteByteDropsByte(st: BufState, v: byte, newCap: nat, bs: seq<byte>)
    requires st.Valid() && st.Consistent()
    requires st.sliceLen < st.Cap() || st.sliceLen < newCap
    requires st.len + |bs| <= st.WriteByte(v, newCap).Cap()
    ensures st.WriteByte(v, newCap).Write(bs).Bytes() == st.Bytes() + bs
  {
  }

  /** `Grow` after `Reset` does not clear anything: the re-extended view shows
      what the backing array held, including bytes written before the reset. */
  lemma GrowAfterResetExposesBacking(st: BufState, n: int)
    requires 0 <= n <= st.Cap()
    ensures st.Reset().Grow(n).Bytes() == st.backing[..n]
    ensures st.Valid() && n <= st.sliceLen ==> st.Reset().Grow(n).Bytes() == st.Bytes()[..n]
  {
  }

  /** Whatever the buffer held, resetting it and writing `s` yields exactly
      `s`. */
  lemma ResetThenWrite(st: BufState, s: seq<byte>)
    requires |s| <= st.Cap()
    ensures st.Reset().Write(s).Bytes() == s
    ensures st.Reset().Write(s).len == |s|
  {
  }

  /** The bytes of several writes, in order. */
  function Flatten(chunks: seq<seq<byte>>): (all: seq<byte>)
    ensures chunks == [] ==> all == []
  {
    if chunks == [] then [] else chunks[0] + Flatten(chunks[1..])
  }

  /** A sequence of `Write` calls, one per chunk. */
  function WriteAll(st: BufState, chunks: seq<seq<byte>>): (r: BufState)
    requires st.len + |Flatten(chunks)| <= st.Cap()
    ensures r.Cap() == st.Cap()
    decreases |chunks|
  {
    if chunks == [] then st else WriteAll(st.Write(chunks[0]), chunks[1..])
  }

  /** Any sequence of writes that fits in the capacity is one write of their
      concatenation, so earlier bytes are never lost. */
  lemma {:induction false} WriteAllIsOneWrite(st: BufState, chunks: seq<seq<byte>>)
    requires chunks != []
    requires st.len + |Flatten(chunks)| <= st.Cap()
    ensures WriteAll(st, chunks) == st.Write(Flatten(chunks))
    decreases |chunks|
  {
    var rest := chunks[1..];
    if rest == [] {
      assert Flatten(chunks) == chunks[0];
    } else {
      WriteAllIsOneWrite(st.Write(chunks[0]), rest);
      WriteTwice(st, chunks[0], Flatten(rest));
    }
  }
}
