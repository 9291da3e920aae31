/** The growable byte buffer every connection reads requests from and writes
    responses into: a vector of bytes with a read cursor and a write cursor.
    Bytes in `[readPos, writePos)` are readable, `[writePos, capacity)` is
    writable, and `[0, readPos)` has been consumed and can be reclaimed. */
module ByteBuffer {

  /** The byte `bzero` writes and `std::vector` value-initialises with. */
  const Zero: char := '\0'

  class Buffer {
    var buf: array<char>
    var readPos: nat
    var writePos: nat

    /** The cursor invariant. */
    ghost predicate Valid()
      reads this
    {
      readPos <= writePos <= buf.Length
    }

    function Capacity(): nat
      reads this
    {
      buf.Length
    }

    /** The bytes not yet consumed, in order. */
    function Readable(): (s: seq<char>)
      reads this, buf
      requires Valid()
      ensures |s| == ReadableBytes()
    {
      buf[readPos..writePos]
    }

    constructor (initBufferSize: nat)
      ensures Valid() && fresh(buf)
      ensures Capacity() == initBufferSize && readPos == 0 && writePos == 0
      ensures forall k :: 0 <= k < buf.Length ==> buf[k] == Zero
    {
      buf := new char[initBufferSize](_ => Zero);
      readPos, writePos := 0, 0;
    }

    function ReadableBytes(): (n: nat)
      reads this
      requires Valid()
      ensures n <= Capacity()
    {
      writePos - readPos
    }

    /** Readable, writable and prependable bytes always partition the capacity. */
    function WritableBytes(): (n: nat)
      reads this
      requires Valid()
      ensures ReadableBytes() + n + PrependableBytes() == Capacity()
    {
      buf.Length - writePos
    }

    function PrependableBytes(): (n: nat)
      reads this
      requires Valid()
      ensures n + ReadableBytes() <= Capacity()
    {
      readPos
    }

    /** The offset the readable view starts at (the C++ returns a pointer). */
    function Peek(): (p: nat)
      reads this, buf
      requires Valid()
      ensures p + ReadableBytes() == writePos && buf[p..writePos] == Readable()
    {
      readPos
    }

    /** The offset the writable region starts at. */
    function BeginWrite(): (p: nat)
      reads this
      requires Valid()
      ensures p + WritableBytes() == Capacity() && p == Peek() + ReadableBytes()
    {
      writePos
    }

    /** Consume `len` readable bytes; storage and write cursor are untouched. */
    method Retrieve(len: nat)
      requires Valid() && len <= ReadableBytes()
      modifies this
      ensures Valid() && buf == old(buf) && writePos == old(writePos)
      ensures readPos == old(readPos) + len
      ensures Readable() == old(Readable())[len..]
    {
      readPos := readPos + len;
    }

    /** Consume every readable byte, zero the whole storage, reset both cursors. */
    method RetrieveAll()
      requires Valid()
      modifies this, buf
      ensures Valid() && buf == old(buf) && Capacity() == old(Capacity())
      ensures readPos == 0 && writePos == 0
      ensures forall k :: 0 <= k < buf.Length ==> buf[k] == Zero
    {
      forall k | 0 <= k < buf.Length {
        buf[k] := Zero;
      }
      readPos := 0;
      writePos := 0;
    }

    /** Consume the bytes up to offset `end`, which lies inside the readable view. */
    method RetrieveUntil(end: nat)
      requires Valid() && Peek() <= end && end - Peek() <= ReadableBytes()
      modifies this
      ensures Valid() && buf == old(buf) && writePos == old(writePos)
      ensures readPos == end
      ensures Readable() == old(Readable())[end - old(readPos)..]
    {
      Retrieve(end - Peek());
    }

    /** Return the readable bytes in order, then `RetrieveAll`. */
    method RetrieveAllToStr() returns (s: string)
      requires Valid()
      modifies this, buf
      ensures s == old(Readable())
      ensures Valid() && buf == old(buf) && readPos == 0 && writePos == 0
      ensures forall k :: 0 <= k < buf.Length ==> buf[k] == Zero
    {
      s := Readable();
      RetrieveAll();
    }

    /** `MakeSpace_`: grow to `writePos + len + 1` when compaction cannot free
        `len` bytes; otherwise move the readable bytes to offset 0. */
    method MakeSpace(len: nat)
      requires Valid()
      modifies this, buf
      ensures Valid()
      ensures old(WritableBytes() + PrependableBytes()) < len ==>
        && fresh(buf) && buf.Length == old(writePos) + len + 1
        && readPos == old(readPos) && writePos == old(writePos)
        && buf[..old(buf.Length)] == old(buf[..])
        && forall k :: old(buf.Length) <= k < buf.Length ==> buf[k] == Zero
      ensures old(WritableBytes() + PrependableBytes()) >= len ==>
        && buf == old(buf) && readPos == 0 && writePos == old(ReadableBytes())
        && buf[..] == old(buf[readPos..writePos]) + old(buf[..])[old(ReadableBytes())..]
    {
      if WritableBytes() + PrependableBytes() < len {
        buf := Grown(buf, writePos + len + 1);
      } else {
        var n := ReadableBytes();
        ShiftDown(buf, readPos, n);
        readPos := 0;
        writePos := n;
      }
    }

    /** Make room for `len` more bytes, keeping the readable bytes. */
    method EnsureWritable(len: nat)
      requires Valid()
      modifies this, buf
      ensures Valid() && WritableBytes() >= len
      ensures Readable() == old(Readable())
      ensures buf == old(buf) || fresh(buf)
      ensures old(WritableBytes()) >= len ==>
        buf == old(buf) && readPos == old(readPos) && writePos == old(writePos) && buf[..] == old(buf[..])
      ensures Capacity() ==
        if old(WritableBytes() + PrependableBytes()) < len then old(writePos) + len + 1 else old(Capacity())
    {
      if WritableBytes() < len {
        ghost var before := Readable();
        ghost var r, w := readPos, writePos;
        MakeSpace(len);
        assert buf[readPos..writePos] == before by {
          if readPos == r {
            assert buf[..old(buf.Length)][r..w] == buf[r..w];
          } else {
            assert buf[..] == before + old(buf[..])[w - r..];
            assert buf[..][0..w - r] == buf[0..w - r];
          }
        }
      }
    }

    /** Advance the write cursor over `len` bytes just written. */
    method HasWritten(len: nat)
      requires Valid() && len <= WritableBytes()
      modifies this
      ensures Valid() && buf == old(buf) && readPos == old(readPos)
      ensures writePos == old(writePos) + len
    {
      writePos := writePos + len;
    }

    /** Every `Append` overload taking bytes (`const char*`, `const void*`,
        `std::string`): the readable content gains `s` at its end. */
    method Append(s: seq<char>)
      requires Valid()
      modifies this, buf
      ensures Valid() && (buf == old(buf) || fresh(buf))
      ensures Readable() == old(Readable()) + s
      ensures Capacity() >= old(Capacity())
    {
      EnsureWritable(|s|);
      ghost var before := buf[..];
      Copy(buf, writePos, s);
      CopiedSlice(buf[..], before[..writePos], s, before[writePos + |s|..], readPos);
      HasWritten(|s|);
    }

    /** `Append(const Buffer&)`: append another buffer's readable bytes. */
    method AppendBuffer(other: Buffer)
      requires Valid() && other.Valid() && other != this
      modifies this, buf
      ensures Valid() && (buf == old(buf) || fresh(buf))
      ensures Readable() == old(Readable()) + old(other.Readable())
      ensures Capacity() >= old(Capacity())
    {
      Append(other.Readable());
    }
  }

  /** `std::copy(s.begin(), s.end(), a + at)`: overwrite `|s|` elements of `a`
      starting at `at`, leaving the others alone. */
  method Copy(a: array<char>, at: nat, s: seq<char>)
    requires at + |s| <= a.Length
    modifies a
    ensures a[..] == old(a[..at]) + s + old(a[at + |s|..])
  {
    var k := 0;
    while k < |s|
      invariant k <= |s|
      invariant a[..] == old(a[..at]) + s[..k] + old(a[at + k..])
    {
      a[at + k] := s[k];
      k := k + 1;
    }
  }

  /** After `p + s + q`, the stretch from inside `p` to the end of `s` is the
      tail of `p` followed by `s`. */
  lemma CopiedSlice(b: seq<char>, p: seq<char>, s: seq<char>, q: seq<char>, r: nat)
    requires b == p + s + q && r <= |p|
    ensures b[r..|p| + |s|] == p[r..] + s
  {
    assert b[r..|p| + |s|] == (p + s)[r..];
  }

  /** The `resize` of the vector in `MakeSpace_`: a fresh array of `size`
      bytes that starts with `a` and is zero-filled after it. */
  method Grown(a: array<char>, size: nat) returns (g: array<char>)
    requires a.Length < size
    ensures fresh(g) && g.Length == size
    ensures g[..a.Length] == a[..]
    ensures forall k :: a.Length <= k < size ==> g[k] == Zero
  {
    g := new char[size](_ => Zero);
    Copy(g, 0, a[..]);
    assert g[..a.Length] == a[..];
  }

  /** The `std::copy` in `MakeSpace_`: the `n` bytes at `from` move to the front
      of `a`, and the bytes from `n` on are left as they were. */
  method ShiftDown(a: array<char>, from: nat, n: nat)
    requires from + n <= a.Length
    modifies a
    ensures a[..] == old(a[from..from + n]) + old(a[..])[n..]
  {
    var k := 0;
    while k < n
      invariant k <= n
      invariant forall t :: 0 <= t < k ==> a[t] == old(a[from + t])
      invariant forall t :: k <= t < a.Length ==> a[t] == old(a[t])
    {
      a[k] := a[from + k];
      k := k + 1;
    }
    forall t | 0 <= t < a.Length
      ensures a[..][t] == (old(a[from..from + n]) + old(a[..])[n..])[t]
    {
      if t < n {
        assert old(a[from..from + n])[t] == old(a[from + t]);
      }
    }
  }

  /** Appending and then retrieving as many bytes as were readable before gives
      back exactly what was appended. */
  method AppendThenRetrieve(b: Buffer, s: seq<char>) returns (got: seq<char>)
    requires b.Valid()
    modifies b, b.buf
    ensures got == s
  {
    var n := b.ReadableBytes();
    b.Append(s);
    b.Retrieve(n);
    got := b.RetrieveAllToStr();
  }
}
