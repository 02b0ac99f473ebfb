/** The cases of buffer_test.go and end-to-end uses, written as clients of
    the classes. Each case is a method over all inputs of its kind, whose
    postcondition follows from the contracts of `ByteBuffer` alone; the
    test's own inputs are instances of it. */
module Scenarios {
  import opened BufferState
  import opened ByteBuffer

  /** The bytes of a Go string literal whose characters are all ASCII. */
  function Ascii(s: string): (r: GoString)
    requires forall i :: 0 <= i < |s| ==> s[i] as int < 128
    ensures |r| == |s|
    ensures forall i :: 0 <= i < |s| ==> r[i] as int == s[i] as int
  {
    seq(|s|, i requires 0 <= i < |s| => s[i] as int as byte)
  }

  /** A new pool hands out an empty buffer of the resolved capacity. */
  method NewPoolCase(c: Option<Config>) returns (length: nat, capacity: nat)
    ensures length == 0 && capacity == ResolveCap(c)
  {
    var pool := new Pool(c);
    var b := pool.Get();
    length, capacity := b.Len(), b.Cap();
    b.Free();
  }

  /** The three configurations of the pool-creation test. */
  method PoolCreationCases() returns (lengths: seq<nat>, capacities: seq<nat>)
    ensures lengths == [0, 0, 0] && capacities == [1024, 2048, 512]
  {
    var l0, c0 := NewPoolCase(None);
    var l1, c1 := NewPoolCase(Some(Config(2048)));
    var l2, c2 := NewPoolCase(Some(Config(512)));
    lengths, capacities := [l0, l1, l2], [c0, c1, c2];
  }

  /** A fresh pool whose cache holds exactly one buffer, freed after `bs`
      was written into it. */
  method WrittenAndFreed(bs: seq<byte>) returns (pool: Pool, b: Buffer)
    requires |bs| <= BaseCapacity
    ensures fresh(pool) && fresh(b) && fresh(b.backing)
    ensures pool.Valid() && pool.capacity == BaseCapacity && pool.cache == multiset{b}
    ensures b.backing.Length == BaseCapacity && b.backing[..|bs|] == bs
  {
    pool := new Pool(None);
    b := pool.Get();
    var _, _ := b.Write(bs);
    b.Free();
  }

  /** A later case of the write test, on the pool of an earlier case that
      wrote `earlier` and freed its buffer: it reads back only what it wrote
      itself, whether or not the pool hands it the same buffer. */
  method SharedPoolCase(earlier: seq<byte>, later: seq<byte>) returns (result: seq<byte>)
    requires |earlier| <= BaseCapacity && |later| <= BaseCapacity
    ensures result == later
  {
    var pool, _ := WrittenAndFreed(earlier);
    var b := pool.Get();
    var _, _ := b.Write(later);
    result := b.Bytes();
    b.Free();
  }

  /** The same as `WrittenAndFreed`, written with `WriteString`. */
  method StringWrittenAndFreed(s: GoString) returns (pool: Pool, b: Buffer)
    requires |s| <= BaseCapacity
    ensures fresh(pool) && fresh(b) && fresh(b.backing)
    ensures pool.Valid() && pool.capacity == BaseCapacity && pool.cache == multiset{b}
    ensures b.backing.Length == BaseCapacity && b.backing[..|s|] == s
  {
    pool := new Pool(None);
    b := pool.Get();
    var _ := b.WriteString(s);
    b.Free();
  }

  /** A fresh pool whose cache holds exactly one buffer, freed after the byte
      `v` was appended to it. */
  method ByteWrittenAndFreed(v: byte) returns (pool: Pool, b: Buffer)
    ensures fresh(pool) && fresh(b) && fresh(b.backing)
    ensures pool.Valid() && pool.capacity == BaseCapacity && pool.cache == multiset{b}
  {
    pool := new Pool(None);
    b := pool.Get();
    var _ := b.WriteByte(v);
    b.Free();
  }

  /** A later case of the write-byte test, on the pool of an earlier case
      that appended `earlier` and freed its buffer. */
  method SharedPoolWriteByteCase(earlier: byte, input: byte) returns (first: byte, length: nat)
    ensures first == input && length == 0
  {
    var pool, _ := ByteWrittenAndFreed(earlier);
    var b := pool.Get();
    var _ := b.WriteByte(input);
    first, length := b.Bytes()[0], b.Len();
    b.Free();
  }

  /** A later case of the write-string test, on the pool of an earlier case
      that wrote `earlier` and freed its buffer. */
  method SharedPoolWriteStringCase(earlier: GoString, later: GoString) returns (result: GoString)
    requires |earlier| <= BaseCapacity && |later| <= BaseCapacity
    ensures result == later
  {
    var pool, _ := StringWrittenAndFreed(earlier);
    var b := pool.Get();
    var _ := b.WriteString(later);
    result := b.String();
    b.Free();
  }

  /** The first case of the write-byte test, on a new pool: the byte shows
      up in `Bytes()`, while `Len()` stays 0. */
  method WriteByteCase(input: byte) returns (first: byte, length: nat)
    ensures first == input && length == 0
  {
    var pool := new Pool(None);
    var b := pool.Get();
    var _ := b.WriteByte(input);
    first, length := b.Bytes()[0], b.Len();
    b.Free();
  }

  /** The write-byte test: the second case runs on a pool left as the first
      case leaves it, so it may be handed the buffer the first one freed. */
  method WriteByteCases() returns (firsts: seq<byte>, lengths: seq<nat>)
    ensures firsts == Ascii("a2") && lengths == [0, 0]
  {
    var f0, l0 := WriteByteCase(Ascii("a")[0]);
    var f1, l1 := SharedPoolWriteByteCase(Ascii("a")[0], Ascii("2")[0]);
    firsts, lengths := [f0, f1], [l0, l1];
  }

  /** The first case of the write test, on a new pool: whatever fits in the
      default capacity reads back exactly as written. */
  method WriteCase(input: seq<byte>) returns (result: seq<byte>)
    requires |input| <= BaseCapacity
    ensures result == input
  {
    var pool := new Pool(None);
    var b := pool.Get();
    var _, _ := b.Write(input);
    result := b.Bytes();
    b.Free();
  }

  /** The write test: an empty write, then "hello world" on a pool left as
      the first case leaves it. */
  method WriteCases() returns (results: seq<seq<byte>>)
    ensures results == [[], Ascii("hello world")]
  {
    var r0 := WriteCase([]);
    var r1 := SharedPoolCase([], Ascii("hello world"));
    results := [r0, r1];
  }

  /** The first case of the write-string test, on a new pool: whatever
      string fits in the default capacity reads back through `String()`
      exactly as written. */
  method WriteStringCase(input: GoString) returns (result: GoString)
    requires |input| <= BaseCapacity
    ensures result == input
  {
    var pool := new Pool(None);
    var b := pool.Get();
    var _ := b.WriteString(input);
    result := b.String();
    b.Free();
  }

  /** The write-string test: "", then "Hello World" on a pool left as the
      first case leaves it. */
  method WriteStringCases() returns (results: seq<GoString>)
    ensures results == [[], Ascii("Hello World")]
  {
    var r0 := WriteStringCase([]);
    var r1 := SharedPoolWriteStringCase([], Ascii("Hello World"));
    results := [r0, r1];
  }

  /** A string write followed by a byte write reads back as one text. */
  method StringThenBytes(s: GoString, bs: seq<byte>) returns (text: GoString, length: nat)
    requires |s| + |bs| <= BaseCapacity
    ensures text == s + bs && length == |s| + |bs|
  {
    var pool := new Pool(None);
    var b := pool.Get();
    var _ := b.WriteString(s);
    var _, _ := b.Write(bs);
    text, length := b.String(), b.Len();
    b.Free();
  }

  /** `WriteString("hello ")` then `Write("world")`. */
  method HelloWorld() returns (text: GoString, length: nat)
    ensures text == Ascii("hello world") && length == 11
  {
    text, length := StringThenBytes(Ascii("hello "), Ascii("world"));
    assert Ascii("hello ") + Ascii("world") == Ascii("hello world");
  }

  /** After a buffer is written, freed and its pool asked again, the buffer
      handed out is empty; but growing it by the old length re-exposes the
      old contents when the pool returned the same buffer, and zeros when it
      minted a new one. */
  method ReuseAfterFree(secret: seq<byte>) returns (view: seq<byte>, grown: seq<byte>)
    requires |secret| <= BaseCapacity
    ensures view == []
    ensures grown == secret || grown == Zeros(|secret|)
  {
    var pool, b := WrittenAndFreed(secret);
    var again := pool.Get();
    assert again.backing[..|secret|] == secret || again.backing[..|secret|] == Zeros(|secret|);
    view := again.Bytes();
    again.Grow(|secret|);
    grown := again.Bytes();
    again.Free();
  }
}
