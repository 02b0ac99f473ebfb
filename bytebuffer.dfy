/** The pool and the buffer of buffer.go as Dafny classes. Each mutating
    method says how it changes the buffer's state (`State()`, a value of
    `BufferState.BufState`) and what else it leaves alone. */
module ByteBuffer {
  import opened BufferState

  /** Length of the slice of a freshly minted buffer. */
  const BaseLength: nat := 0
  /** Capacity used when the configuration is absent or too small. */
  const BaseCapacity: nat := 1024

  datatype Config = Config(Cap: int)
  datatype Option<T> = None | Some(value: T)
  datatype GoError = GoError(message: string)

  /** Go's `string` is an immutable sequence of bytes. */
  type GoString = seq<byte>

  /** The capacity `NewPool` gives every buffer it mints: the configured one
      when it is above 1, otherwise 1024. */
  function ResolveCap(c: Option<Config>): (cap: nat)
    ensures cap > 1
    ensures c.Some? && c.value.Cap > 1 ==> cap == c.value.Cap
    ensures c.None? || c.value.Cap <= 1 ==> cap == BaseCapacity
  {
    match c
    case None => BaseCapacity
    case Some(conf) => if conf.Cap > 1 then conf.Cap else BaseCapacity
  }

  class Buffer {
    /** The backing array of `BS`; its size is `cap(BS)`. */
    var backing: array<byte>
    /** `len(BS)`. */
    var sliceLen: nat
    /** The field `len`. */
    var len: nat
    /** The owner stamped by `Get`; null stands for Go's zero `Pool`. */
    var pool: Pool?

    /** The counter never passes the slice, the slice lies within its array,
        and a buffer never has less capacity than its owner mints buffers
        with. */
    ghost predicate Valid()
      reads this
    {
      len <= sliceLen <= backing.Length &&
      (pool != null ==> pool.capacity <= backing.Length)
    }

    function State(): BufState
      reads this, backing
    {
      BufState(backing[..], sliceLen, len)
    }

    predicate Consistent()
      reads this, backing
    {
      State().Consistent()
    }

    /** The pool's `New`: `&Buffer{BS: make([]byte, BaseLength, cap)}`. */
    constructor (capacity: nat)
      ensures Valid() && fresh(backing)
      ensures State() == BufState(Zeros(capacity), BaseLength, 0)
      ensures pool == null
    {
      backing := new byte[capacity](_ => 0);
      sliceLen, len, pool := BaseLength, 0, null;
      new;
      assert backing[..] == Zeros(capacity);
    }

    method Reset()
      requires Valid()
      modifies this
      ensures Valid() && State() == old(State()).Reset()
      ensures backing == old(backing) && pool == old(pool)
      ensures Len() == 0 && Bytes() == [] && Consistent()
    {
      sliceLen := 0;
      len := 0;
    }

    /** Re-slices over the same array: the caller must keep the new length
        within `0..Cap()`, which is where Go's slice expression does not
        panic. */
    method Grow(n: int)
      requires Valid()
      requires 0 <= len + n <= backing.Length
      modifies this
      ensures Valid() && State() == old(State()).Grow(n)
      ensures backing == old(backing) && pool == old(pool)
      ensures Len() == old(len) + n && Consistent()
      ensures Bytes() == old(backing[..len + n])
    {
      len := len + n;
      sliceLen := len;
    }

    method Write(bs: seq<byte>) returns (n: int, err: Option<GoError>)
      requires Valid()
      requires len + |bs| <= backing.Length
      modifies this, backing
      ensures Valid() && State() == old(State()).Write(bs)
      ensures backing == old(backing) && pool == old(pool)
      ensures n == |bs| && err == None
      ensures old(Consistent()) ==> Bytes() == old(Bytes()) + bs
    {
      var m := len;
      var end := m + |bs|;
      ghost var before := State();
      Grow(|bs|);
      n := Copy(backing, m, end, bs);
      assert bs[..n] == bs;
      assert backing[..] == before.backing[..m] + bs + before.backing[end..];
      assert State() == before.Write(bs);
      err := None;
    }

    /** Go's `append`: in place while there is room; otherwise the runtime
        picks a larger capacity, allocates a zeroed array and copies the
        slice. The counter `len` is not updated. */
    method WriteByte(v: byte) returns (err: Option<GoError>)
      requires Valid()
      modifies this, backing
      ensures Valid() && old(sliceLen) < backing.Length
      ensures State() == old(State()).WriteByte(v, backing.Length)
      ensures pool == old(pool) && len == old(len)
      ensures old(sliceLen) < old(backing.Length) ==> backing == old(backing)
      ensures old(sliceLen) == old(backing.Length) ==> fresh(backing) && backing.Length > old(backing.Length)
      ensures Bytes() == old(Bytes()) + [v]
      ensures err == None
    {
      if sliceLen < backing.Length {
        backing[sliceLen] := v;
        sliceLen := sliceLen + 1;
      } else {
        var newCap: nat :| newCap > sliceLen;
        var kept := backing[..sliceLen];
        var grown := new byte[newCap](i => if 0 <= i < |kept| then kept[i] else if i == |kept| then v else 0);
        assert grown[..] == kept + [v] + Zeros(newCap - |kept| - 1);
        backing := grown;
        sliceLen := sliceLen + 1;
      }
      err := None;
    }

    /** `Write([]byte(s))`, whose results are discarded. */
    method WriteString(s: GoString) returns (err: Option<GoError>)
      requires Valid()
      requires len + |s| <= backing.Length
      modifies this, backing
      ensures Valid() && State() == old(State()).Write(s)
      ensures backing == old(backing) && pool == old(pool)
      ensures err == None
      ensures old(Consistent()) ==> String() == old(String()) + s
    {
      var _, _ := Write(s);
      err := None;
    }

    /** The counter, which matches the view's length unless `WriteByte` was
        called since the last `Reset`, `Grow` or `Write`. */
    function Len(): (n: nat)
      reads this, backing
      ensures Consistent() && Valid() ==> n == |Bytes()|
    {
      len
    }

    function Cap(): (c: nat)
      reads this
      ensures Valid() ==> len <= sliceLen <= c
      ensures Valid() && pool != null ==> pool.capacity <= c
    {
      backing.Length
    }

    /** The bytes of `BS` at the time of the call: the value of the slice
        that Go's `Bytes()` returns, without its aliasing of the array. */
    function Bytes(): (bs: seq<byte>)
      reads this, backing
      requires Valid()
      ensures bs == State().Bytes()
      ensures |bs| == sliceLen && forall i :: 0 <= i < |bs| ==> bs[i] == backing[i]
    {
      backing[..sliceLen]
    }

    /** `byteToString(BS)`: the same bytes as `Bytes()`, read from the same
        memory. */
    function String(): (s: GoString)
      reads this, backing
      requires Valid()
      ensures s == Bytes()
    {
      State().Bytes()
    }

    /** Hands the buffer back to the pool that last gave it out. */
    method Free()
      requires Valid() && pool != null && pool.Valid()
      modifies pool
      ensures pool.Valid() && pool.cache == old(pool.cache) + multiset{this}
    {
      pool.Put(this);
    }
  }

  /** A `sync.Pool` of buffers: an unordered cache that may hold the same
      buffer more than once (a buffer freed twice). */
  class Pool {
    /** The capacity captured by the pool's `New` function. */
    const capacity: nat
    var cache: multiset<Buffer>

    /** Every cached buffer is valid and owned by this pool. */
    ghost predicate Valid()
      reads this, cache
    {
      forall b :: b in cache ==> b.pool == this && b.Valid()
    }

    /** `NewPool(c)`. */
    constructor (c: Option<Config>)
      ensures Valid() && capacity == ResolveCap(c) && cache == multiset{}
    {
      capacity := ResolveCap(c);
      cache := multiset{};
    }

    /** `p.p.Get()`: `sync.Pool.Get` either takes some cached buffer out of
        the cache or ignores the cache and calls the pool's `New`. */
    method Fetch() returns (b: Buffer)
      requires Valid()
      modifies this
      ensures Valid() && b.Valid()
      ensures || (fresh(b) && fresh(b.backing) && b.State() == BufState(Zeros(capacity), BaseLength, 0)
                  && b.pool == null && cache == old(cache))
              || (b in old(cache) && b.pool == this && cache == old(cache) - multiset{b})
    {
      var reuse: bool :| reuse ==> cache != multiset{};
      if reuse {
        b :| b in cache;
        cache := cache - multiset{b};
      } else {
        b := new Buffer(capacity);
      }
    }

    /** `Get`: the fetched buffer is reset and stamped with this pool before
        it is returned. */
    method Get() returns (b: Buffer)
      requires Valid()
      modifies this, cache
      ensures Valid()
      ensures b.Valid() && b.pool == this && b.Consistent()
      ensures b.Len() == 0 && b.Bytes() == [] && b.String() == []
      ensures b.Cap() >= capacity
      ensures || (fresh(b) && fresh(b.backing) && b.backing[..] == Zeros(capacity) && cache == old(cache))
              || (b in old(cache) && cache == old(cache) - multiset{b} && b.backing == old(b.backing))
      ensures forall x :: x in old(cache) && x != b ==>
                x.backing == old(x.backing) && x.sliceLen == old(x.sliceLen) &&
                x.len == old(x.len) && x.pool == old(x.pool)
    {
      b := Fetch();
      b.Reset();
      b.pool := this;
    }

    /** `put`, reached only through `Buffer.Free`. */
    method Put(b: Buffer)
      requires Valid() && b.Valid() && b.pool == this
      modifies this
      ensures Valid() && cache == old(cache) + multiset{b}
    {
      cache := cache + multiset{b};
    }
  }

  /** Go's `copy(dst[from:to], src)`: copies `min(to - from, len(src))`
      bytes and returns that count; the rest of the array is untouched. */
  method Copy(dst: array<byte>, from: nat, to: nat, src: seq<byte>) returns (count: nat)
    requires from <= to <= dst.Length
    modifies dst
    ensures count == if to - from < |src| then to - from else |src|
    ensures dst[..] == old(dst[..from]) + src[..count] + old(dst[from + count..])
  {
    count := 0;
    while count < to - from && count < |src|
      invariant count <= to - from && count <= |src|
      invariant forall k :: 0 <= k < from ==> dst[k] == old(dst[k])
      invariant forall k :: from <= k < from + count ==> dst[k] == src[k - from]
      invariant forall k :: from + count <= k < dst.Length ==> dst[k] == old(dst[k])
    {
      dst[from + count] := src[count];
      count := count + 1;
    }
    assert dst[..] == old(dst[..from]) + src[..count] + old(dst[from + count..]);
  }
}
