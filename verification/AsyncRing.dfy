/** The growing ring buffer that the asynchronous writer's clients fill and its worker empties. */
module AsyncRing {
  import opened CStrings
  import opened Memory
  import opened Arith

  const INITIAL_SIZE: nat := 8 * 1024
  const CHUNK_SIZE: nat := 64 * 1024

  /** The front of the queue that one turn of the worker takes. */
  function Chunk(queue: seq<byte>): (c: seq<byte>) {
    Front(queue, CHUNK_SIZE)
  }

  /** The bytes from `r` up to `w` in a circular buffer; equal positions mean none. */
  function Between(b: seq<byte>, r: nat, w: nat): (s: seq<byte>)
    requires r < |b| && w < |b|
    ensures |s| == if r <= w then w - r else |b| + w - r
  {
    if r <= w then b[r..w] else b[r..] + b[..w]
  }

  function Wrap(n: nat, p: nat): nat
    requires p < 2 * n
  {
    if p < n then p else p - n
  }

  lemma WrapIsMod(n: nat, p: nat)
    requires p < 2 * n
    ensures Wrap(n, p) == p % n
  {
    DivModIs(p, n, if p < n then 0 else 1, Wrap(n, p));
  }

  /** Bytes written in one piece behind the others. */
  lemma WriteStraight(b: seq<byte>, b': seq<byte>, r: nat, w: nat, d: seq<byte>)
    requires r < |b| && w < |b| && w + |d| <= |b| && |d| < |b| - |Between(b, r, w)|
    requires b' == b[..w] + d + b[w + |d|..]
    ensures Between(b', r, Wrap(|b|, w + |d|)) == Between(b, r, w) + d
  {
    var w' := w + |d|;
    assert b'[..w'] == b[..w] + d && b'[w'..] == b[w'..];
    if r <= w {
      assert b'[r..w'] == b[r..w] + d;
    } else {
      assert b'[r..] == b[r..];
    }
  }

  /** Bytes written up to the end of the buffer and on from its front. */
  lemma WriteAround(b: seq<byte>, b': seq<byte>, r: nat, w: nat, d: seq<byte>)
    requires r < |b| && w < |b| && |b| - w < |d| && |d| < |b| - |Between(b, r, w)|
    requires var c := |b| - w; b' == d[c..] + b[|d| - c..w] + d[..c]
    ensures Between(b', r, |d| - (|b| - w)) == Between(b, r, w) + d
  {
    var c := |b| - w;
    assert r <= w && |d| - c < r;
    assert b'[r..] == b[r..w] + d[..c];
    assert d == d[..c] + d[c..];
  }

  lemma TakeFront(b: seq<byte>, r: nat, w: nat, k: nat)
    requires r < |b| && w < |b| && k <= |Between(b, r, w)|
    ensures r + k < 2 * |b| && Between(b, r, w)[k..] == Between(b, Wrap(|b|, r + k), w)
  {
  }

  lemma FrontOfBoth(a: seq<byte>, b: seq<byte>, n: nat)
    ensures Front(a + b, n) == Front(a, n) + Front(b, n - |Front(a, n)|)
  {
  }

  /** The two copies of a write that wraps around. */
  method CopyAround(buffer: array<byte>, at: nat, data: seq<byte>, contiguous: nat)
    requires contiguous <= |data| && at + contiguous == buffer.Length && |data| - contiguous <= at
    modifies buffer
    ensures buffer[..] == data[contiguous..] + old(buffer[|data| - contiguous..at]) + data[..contiguous]
  {
    ghost var was := buffer[..];
    MemCopy(buffer, at, data[..contiguous]);
    ghost var half := buffer[..];
    assert half == was[..at] + data[..contiguous];
    MemCopy(buffer, 0, data[contiguous..]);
    assert half[|data| - contiguous..] == was[|data| - contiguous..at] + data[..contiguous];
  }

  class Ring {
    var buffer: array<byte>
    var readPos: nat
    var writePos: nat

    ghost predicate Valid()
      reads this
    {
      readPos < buffer.Length && writePos < buffer.Length
    }

    /** The queued bytes, oldest first. */
    ghost function Contents(): (s: seq<byte>)
      requires Valid()
      reads this, buffer
      ensures |s| < buffer.Length
    {
      Between(buffer[..], readPos, writePos)
    }

    constructor ()
      ensures Valid() && fresh(buffer) && buffer.Length == INITIAL_SIZE && Contents() == []
    {
      buffer := new byte[INITIAL_SIZE](_ => 0);
      readPos, writePos := 0, 0;
    }

    /** `buffer_len`. */
    method Len() returns (n: nat)
      requires Valid()
      ensures n == |Contents()|
    {
      if writePos >= readPos {
        n := writePos - readPos;
      } else {
        n := buffer.Length + writePos - readPos;
      }
    }

    /** `buffer_ptrs`: the queued bytes as at most two stretches of the buffer. */
    method Stretches() returns (start1: nat, len1: nat, len2: nat)
      requires Valid()
      ensures start1 + len1 <= buffer.Length && len2 <= buffer.Length
      ensures buffer[start1..start1 + len1] + buffer[..len2] == Contents()
      ensures len1 == 0 ==> len2 == 0
      ensures Contents() != [] ==> start1 == readPos && (len2 > 0 ==> start1 + len1 == buffer.Length)
    {
      start1, len1, len2 := 0, 0, 0;
      if readPos < writePos {
        start1, len1 := readPos, writePos - readPos;
      } else if readPos > writePos {
        start1, len1 := readPos, buffer.Length - readPos;
        len2 := writePos;
      }
    }

    /** `aio_write_unlocked`. */
    method Write(data: seq<byte>)
      requires Valid()
      modifies this, buffer
      ensures Valid() && Contents() == old(Contents()) + data
      ensures buffer == old(buffer) || fresh(buffer)
    {
      var len := Len();
      if |data| < buffer.Length - len {
        WriteWithin(data);
      } else {
        Grow(data);
      }
    }

    /** The queue has room: the bytes go in behind the others and may wrap around. */
    method WriteWithin(data: seq<byte>)
      requires Valid() && |data| < buffer.Length - |Contents()|
      modifies this`writePos, buffer
      ensures Valid() && Contents() == old(Contents()) + data
    {
      var contiguous := buffer.Length - writePos;
      if |data| > contiguous {
        WriteBoth(data, contiguous);
      } else {
        ghost var was := buffer[..];
        MemCopy(buffer, writePos, data);
        WriteStraight(was, buffer[..], readPos, writePos, data);
        WrapIsMod(buffer.Length, writePos + |data|);
        writePos := (writePos + |data|) % buffer.Length;
      }
    }

    /** The branch that wraps: `contiguous` bytes at the end of the buffer, the rest at its front. */
    method WriteBoth(data: seq<byte>, contiguous: nat)
      requires Valid() && |data| < buffer.Length - |Contents()|
      requires contiguous == buffer.Length - writePos < |data|
      modifies this`writePos, buffer
      ensures Valid() && Contents() == old(Contents()) + data
    {
      ghost var was := buffer[..];
      CopyAround(buffer, writePos, data, contiguous);
      WriteAround(was, buffer[..], readPos, writePos, data);
      WrapIsMod(buffer.Length, |data| - contiguous);
      writePos := (0 + (|data| - contiguous)) % buffer.Length;
    }

    /** Copies the whole queue to the front of `next`. */
    method CopyTo(next: array<byte>) returns (n: nat)
      requires Valid() && next != buffer && |Contents()| <= next.Length
      modifies next
      ensures n == |Contents()| && next[..n] == Contents()
    {
      var start1, len1, len2 := Stretches();
      ghost var queue := Contents();
      assert queue == buffer[start1..start1 + len1] + buffer[..len2];
      MemCopyBoth(next, buffer[start1..start1 + len1], buffer[..len2]);
      n := len1 + len2;
    }

    /** The queue moves into a buffer at least one byte larger than it needs. */
    method Grow(data: seq<byte>)
      requires Valid()
      modifies this
      ensures Valid() && fresh(buffer) && Contents() == old(Contents()) + data
    {
      ghost var queue := Contents();
      var len := Len();
      var size := NextBufferSize(buffer.Length, len + |data| + 1);
      var next := new byte[size](_ => 0);
      var n := CopyTo(next);
      MemCopy(next, n, data);
      assert next[..n + |data|] == queue + data;
      buffer := next;
      readPos, writePos := 0, n + |data|;
    }

    /** Copies the front of the queue, up to the size of `local`. */
    method CopyFront(local: array<byte>) returns (len1: nat, len2: nat)
      requires Valid() && local != buffer
      modifies local
      ensures len1 + len2 <= local.Length && local[..len1 + len2] == Front(Contents(), local.Length)
    {
      var start1;
      start1, len1, len2 := Stretches();
      ghost var a, b := buffer[start1..start1 + len1], buffer[..len2];
      assert Contents() == a + b;
      if len1 > local.Length {
        len1 := local.Length;
      }
      if len2 > local.Length - len1 {
        len2 := local.Length - len1;
      }
      FrontOfBoth(a, b, local.Length);
      assert buffer[start1..start1 + len1] == Front(a, local.Length);
      assert buffer[..len2] == Front(b, local.Length - len1);
      MemCopyBoth(local, buffer[start1..start1 + len1], buffer[..len2]);
    }

    /** The worker's copy under the lock: at most `CHUNK_SIZE` bytes leave the queue. */
    method Take() returns (chunk: seq<byte>)
      requires Valid() && Contents() != []
      modifies this`readPos
      ensures Valid() && chunk == Chunk(old(Contents())) && chunk != []
      ensures |chunk| == if |old(Contents())| < 0x1_0000 then |old(Contents())| else 0x1_0000
      ensures old(Contents()) == chunk + Contents()
    {
      var local := new byte[CHUNK_SIZE](_ => 0);
      var len1, len2 := CopyFront(local);
      chunk := local[..len1 + len2];
      TakeFront(buffer[..], readPos, writePos, len1 + len2);
      WrapIsMod(buffer.Length, readPos + len1 + len2);
      readPos := (readPos + len1 + len2) % buffer.Length;
    }
  }

  /** `next_buffer_size`: doubled until it is large enough, so less than twice what is needed. */
  method NextBufferSize(size: nat, need: nat) returns (r: nat)
    requires size > 0
    ensures size >= need ==> r == size
    ensures size < need ==> need <= r < 2 * need
  {
    r := size;
    while r < need
      invariant r == size || (size < need && r < 2 * need)
      invariant r >= size
      decreases need - r
    {
      r := r * 2;
    }
  }
}
