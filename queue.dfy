// Model of queue/queue.c: a fixed-capacity circular byte buffer
// (RingBufferContext, queue/queue.h:9-15) and its two wrappers.
//
// The buffer's bytes live in `storage` (buffer_base .. buffer_end, so
// buffer_size == storage.Length).  `cursor` is data_ptr - buffer_base and
// `count` is data_size.  The bytes held are the `count` bytes that start at
// `cursor`, continuing at offset 0 once they run past the physical end; the
// ghost function Contents gives them in first-in, first-out order.
module Queue {

  function Min(a: int, b: int): int
  {
    if a <= b then a else b
  }

  /** x reduced into [0, cap) when it is known to be below 2 * cap: the
      pointer correction the source applies when a pointer runs past
      buffer_end. */
  function Wrap(x: int, cap: int): int
    requires 0 < cap && 0 <= x < 2 * cap
  {
    if x < cap then x else x - cap
  }

  /** The n bytes of s that start at offset start, wrapping past the end. */
  function Window(s: seq<bv8>, start: nat, n: nat): seq<bv8>
    requires start < |s| && n <= |s|
  {
    seq(n, i requires 0 <= i < n => s[Wrap(start + i, |s|)])
  }

  /** s with the bytes of d stored from offset at on, wrapping past the end. */
  function Placed(s: seq<bv8>, at: nat, d: seq<bv8>): seq<bv8>
    requires at < |s| && |d| <= |s|
  {
    seq(|s|, j requires 0 <= j < |s| =>
      var k := if at <= j then j - at else j + |s| - at;
      if k < |d| then d[k] else s[j])
  }

  // -----------------------------------------------------------------------
  // Facts about Window and Placed

  /** Wrap is reduction modulo cap. */
  lemma WrapIsMod(x: int, cap: int)
    requires 0 < cap && 0 <= x < 2 * cap
    ensures Wrap(x, cap) == x % cap
  {
    if x >= cap {
      assert x == cap * 1 + (x - cap);
    }
  }

  /** A window is the stretch from start to the physical end followed by the
      stretch from offset 0: the two copies the source makes. */
  lemma WindowSegments(s: seq<bv8>, start: nat, n: nat)
    requires start < |s| && n <= |s|
    ensures start + n <= |s| ==> Window(s, start, n) == s[start..start + n]
    ensures start + n > |s| ==> Window(s, start, n) == s[start..] + s[..start + n - |s|]
  {
    var w := Window(s, start, n);
    var t := if start + n <= |s| then s[start..start + n] else s[start..] + s[..start + n - |s|];
    assert |w| == |t|;
    forall i | 0 <= i < n ensures w[i] == t[i] {
      assert w[i] == s[Wrap(start + i, |s|)];
      if start + i < |s| {
        assert t[i] == s[start + i];
      } else {
        assert t[i] == s[..start + n - |s|][i - (|s| - start)];
      }
    }
  }

  /** Taking k bytes from the front of a window leaves the window that starts
      k bytes further on. */
  lemma WindowDrop(s: seq<bv8>, start: nat, n: nat, k: nat)
    requires start < |s| && n <= |s| && k <= n
    ensures Window(s, start, n)[k..] == Window(s, Wrap(start + k, |s|), n - k)
    ensures Window(s, start, n)[..k] == Window(s, start, k)
  {
    var a, b := Window(s, start, n)[k..], Window(s, Wrap(start + k, |s|), n - k);
    assert |a| == |b|;
    forall i | 0 <= i < n - k ensures a[i] == b[i] {
      assert a[i] == s[Wrap(start + k + i, |s|)];
      assert b[i] == s[Wrap(Wrap(start + k, |s|) + i, |s|)];
    }
  }

  /** Storing d just past the end of a window extends the window by d and
      leaves its bytes as they were. */
  lemma WindowAppend(s: seq<bv8>, start: nat, n: nat, d: seq<bv8>)
    requires start < |s| && n + |d| <= |s|
    ensures Window(Placed(s, Wrap(start + n, |s|), d), start, n + |d|) == Window(s, start, n) + d
  {
    var at := Wrap(start + n, |s|);
    var a, b := Window(Placed(s, at, d), start, n + |d|), Window(s, start, n) + d;
    assert |a| == |b|;
    forall i | 0 <= i < n + |d| ensures a[i] == b[i] {
      var j := Wrap(start + i, |s|);
      var k := if at <= j then j - at else j + |s| - at;
      if i < n {
        assert k == i + |s| - n;
      } else {
        assert k == i - n;
      }
    }
  }

  /** Placed is what the source's one or two copies into storage produce. */
  lemma PlacedSegments(s: seq<bv8>, at: nat, d: seq<bv8>)
    requires at < |s| && |d| <= |s|
    ensures at + |d| <= |s| ==> Placed(s, at, d) == s[..at] + d + s[at + |d|..]
    ensures at + |d| > |s| ==>
      Placed(s, at, d) == d[|s| - at..] + s[at + |d| - |s|..at] + d[..|s| - at]
  {
  }

  // -----------------------------------------------------------------------
  // memcpy

  /** memcpy(dst + at, src, |src|). */
  method Memcpy(dst: array<bv8>, at: nat, src: seq<bv8>)
    requires at + |src| <= dst.Length
    modifies dst
    ensures dst[..] == old(dst[..at]) + src + old(dst[at + |src|..])
  {
    var k := 0;
    while k < |src|
      invariant 0 <= k <= |src|
      invariant forall i :: 0 <= i < dst.Length ==>
        dst[i] == if at <= i < at + k then src[i - at] else old(dst[i])
    {
      dst[at + k] := src[k];
      k := k + 1;
    }
    assert dst[..] == old(dst[..at]) + src + old(dst[at + |src|..]);
  }

  /** Two copies from offset 0: x, then y right after it. */
  lemma ConsecutiveCopies(d0: seq<bv8>, d1: seq<bv8>, d2: seq<bv8>, x: seq<bv8>, y: seq<bv8>)
    requires |x| + |y| <= |d0|
    requires d1 == d0[..0] + x + d0[|x|..]
    requires d2 == d1[..|x|] + y + d1[|x| + |y|..]
    ensures d2 == x + y + d0[|x| + |y|..]
  {
    assert d1[..|x|] == x;
    assert d1[|x| + |y|..] == d0[|x| + |y|..];
  }

  /** Two copies that wrap: x fills s from offset w to the end, then y
      goes to offset 0. */
  lemma WrappedCopies(s: seq<bv8>, s1: seq<bv8>, s2: seq<bv8>, w: nat, x: seq<bv8>, y: seq<bv8>)
    requires w + |x| == |s| && |y| <= w
    requires s1 == s[..w] + x + s[w + |x|..]
    requires s2 == s1[..0] + y + s1[|y|..]
    ensures s2 == y + s[|y|..w] + x
  {
    assert s1[|y|..] == s[|y|..w] + x;
  }

  // -----------------------------------------------------------------------
  // The buffer

  class RingBuffer {
    /** buffer_base .. buffer_end; its length is buffer_size. */
    const storage: array<bv8>
    /** data_ptr - buffer_base: where the oldest unread byte is. */
    var cursor: nat
    /** data_size: how many bytes are held. */
    var count: nat

    ghost predicate Valid()
      reads this
    {
      0 < storage.Length && cursor < storage.Length && count <= storage.Length
    }

    /** The bytes held, oldest first. */
    ghost function Contents(): seq<bv8>
      reads this, storage
      requires Valid()
    {
      Window(storage[..], cursor, count)
    }

    /** ring_buffer_init: allocate size zeroed bytes, empty, cursor at the base. */
    constructor Init(size: int)
      requires size > 0
      ensures Valid() && fresh(storage)
      ensures storage.Length == size && cursor == 0 && count == 0
      ensures forall i :: 0 <= i < size ==> storage[i] == 0
      ensures Contents() == []
    {
      storage := new bv8[size](_ => 0);
      cursor := 0;
      count := 0;
    }

    /** ring_buffer_datasize. */
    function DataSize(): (n: int)
      reads this, storage
      requires Valid()
      ensures n == |Contents()|
      ensures 0 <= n <= BufferSize()
    {
      count
    }

    /** ring_buffer_buffersize. */
    function BufferSize(): (n: int)
      reads this
      requires Valid()
      ensures n > 0
    {
      storage.Length
    }

    /** ring_buffer_freesize. */
    function FreeSize(): (n: int)
      reads this, storage
      requires Valid()
      ensures n == BufferSize() - DataSize()
      ensures 0 <= n <= BufferSize()
      ensures n == 0 <==> |Contents()| == BufferSize()
    {
      storage.Length - count
    }

    /** ring_buffer_write: all or nothing.  When the bytes fit they are stored
        from (cursor + count) mod capacity on and appended to the contents;
        otherwise -1 is returned and nothing changes. */
    method Write(data: seq<bv8>) returns (rc: int)
      requires Valid()
      modifies this`count, storage
      ensures Valid()
      ensures rc == (if |data| <= storage.Length - old(count) then 0 else -1)
      ensures cursor == old(cursor)
      ensures rc == -1 ==> count == old(count) && storage[..] == old(storage[..])
      ensures rc == 0 ==> count == old(count) + |data|
      ensures rc == 0 ==>
        storage[..] == Placed(old(storage[..]), Wrap(cursor + old(count), storage.Length), data)
      ensures rc == 0 ==> Contents() == old(Contents()) + data
    {
      if |data| <= storage.Length - count {
        ghost var s := storage[..];
        Store(cursor + count, data);
        WindowAppend(s, cursor, count, data);
        count := count + |data|;
        rc := 0;
      } else {
        rc := -1;
      }
    }

    /** The copies of ring_buffer_write: data goes to offset w (cursor plus
        count, corrected once when it lies past the end), and what does not
        fit before the end goes to offset 0. */
    method Store(w: nat, data: seq<bv8>)
      requires Valid() && w == cursor + count && |data| <= storage.Length - count
      modifies storage
      ensures storage[..] == Placed(old(storage[..]), Wrap(w, storage.Length), data)
    {
      var cap := storage.Length;
      ghost var s := storage[..];
      PlacedSegments(s, Wrap(w, cap), data);
      if w >= cap {
        Memcpy(storage, w - cap, data);
      } else if w + |data| > cap {
        var first := cap - w;
        Memcpy(storage, w, data[..first]);
        ghost var s1 := storage[..];
        Memcpy(storage, 0, data[first..]);
        WrappedCopies(s, s1, storage[..], w, data[..first], data[first..]);
        assert data[first..] + s[|data| - first..w] + data[..first]
          == data[cap - w..] + s[w + |data| - cap..w] + data[..cap - w];
      } else {
        Memcpy(storage, w, data);
      }
    }

    /** ring_buffer_read: best effort.  Delivers min(size, count) bytes into
        dest, oldest first, and drops them from the contents.  When fewer
        bytes are held than requested and they do not wrap, the cursor moves
        by the requested size (to the base if that passes the end). */
    method Read(dest: array<bv8>, size: nat) returns (n: int)
      requires Valid() && dest != storage
      requires Min(size, count) <= dest.Length
      modifies this, dest
      ensures Valid()
      ensures n == Min(size, old(count))
      ensures dest[..] == old(Contents())[..n] + old(dest[n..])
      ensures count == old(count) - n
      ensures Contents() == old(Contents())[n..]
      ensures cursor ==
        if size <= old(count) || old(cursor) + old(count) > storage.Length
        then Wrap(old(cursor) + n, storage.Length)
        else if old(cursor) + size >= storage.Length then 0
        else old(cursor) + size
    {
      var cap := storage.Length;
      ghost var s := storage[..];
      WindowDrop(s, cursor, count, Min(size, count));
      if size <= count {
        CopyOut(dest, size);
        if cursor + size > cap {
          cursor := cursor + size - cap;
        } else {
          cursor := cursor + size;
          if cursor >= cap {
            cursor := 0;
          }
        }
        count := count - size;
        n := size;
      } else {
        n := count;
        CopyOut(dest, count);
        if cursor + count > cap {
          cursor := cursor + count - cap;
        } else {
          cursor := cursor + size;
          if cursor >= cap {
            cursor := 0;
          }
        }
        count := 0;
      }
    }

    /** The copy both branches of ring_buffer_read make: the first n bytes
        held, from the cursor to the physical end and then from the base. */
    method CopyOut(dest: array<bv8>, n: nat)
      requires Valid() && dest != storage && n <= count && n <= dest.Length
      modifies dest
      ensures dest[..] == Contents()[..n] + old(dest[n..])
    {
      var cap := storage.Length;
      WindowSegments(storage[..], cursor, n);
      WindowDrop(storage[..], cursor, count, n);
      if cursor + n > cap {
        var size0 := cap - cursor;
        ghost var d0 := dest[..];
        Memcpy(dest, 0, storage[cursor..]);
        ghost var d1 := dest[..];
        Memcpy(dest, size0, storage[..cursor + n - cap]);
        ConsecutiveCopies(d0, d1, dest[..], storage[cursor..], storage[..cursor + n - cap]);
      } else {
        Memcpy(dest, 0, storage[cursor..cursor + n]);
      }
    }

    /** read_data: 0 when empty, otherwise reads min(held, bufSize) bytes. */
    method ReadData(buffer: array<bv8>, bufSize: nat) returns (r: int)
      requires Valid() && buffer != storage && bufSize <= buffer.Length
      modifies this, buffer
      ensures Valid()
      ensures r == Min(old(count), bufSize)
      ensures buffer[..] == old(Contents())[..r] + old(buffer[r..])
      ensures count == old(count) - r
      ensures cursor == Wrap(old(cursor) + r, storage.Length)
      ensures Contents() == old(Contents())[r..]
    {
      var size := count;
      if size <= 0 {
        return 0;
      } else if size > bufSize {
        size := bufSize;
      }
      r := Read(buffer, size);
    }

    /** write_data: 0 when the buffer is full, -1 when there is some room but
        not enough for the whole payload (nothing is written), otherwise
        writes the whole payload and returns its length. */
    method WriteData(buffer: seq<bv8>) returns (r: int)
      requires Valid()
      modifies this`count, storage
      ensures Valid() && cursor == old(cursor)
      ensures r == (if old(count) == storage.Length then 0
                    else if storage.Length - old(count) < |buffer| then -1
                    else |buffer|)
      ensures r <= 0 ==> count == old(count) && storage[..] == old(storage[..])
      ensures r > 0 ==> count == old(count) + |buffer|
      ensures r > 0 ==> Contents() == old(Contents()) + buffer
    {
      var free := storage.Length - count;
      var size := free;
      if size <= 0 {
        return 0;
      } else if size >= |buffer| {
        size := |buffer|;
      } else {
        return -1;
      }
      r := Write(buffer);
      if r == 0 {
        r := size;
      } else {
        r := 0;
      }
    }
  }

  // -----------------------------------------------------------------------
  // Clients

  /** Writing X into an empty buffer and reading |X| bytes gives X back. */
  method RoundTrip(capacity: int, x: seq<bv8>) returns (y: seq<bv8>)
    requires 0 < capacity && |x| <= capacity
    ensures y == x
  {
    var rb := new RingBuffer.Init(capacity);
    var rc := rb.Write(x);
    var out := new bv8[|x|];
    var n := rb.Read(out, |x|);
    y := out[..n];
  }

  /** A 16-byte buffer: write 10 bytes, refuse 7 more, read 4, write 6 (which
      wraps past the physical end), read 12.  The bytes come out in the order
      they went in, and the refused write leaves no trace. */
  method WrapScenario(a: seq<bv8>, b: seq<bv8>, c: seq<bv8>)
    returns (first: seq<bv8>, second: seq<bv8>, sizes: seq<int>)
    requires |a| == 10 && |b| == 7 && |c| == 6
    ensures first == a[..4] && second == a[4..] + c
    ensures sizes == [10, 6, 10, 6, 12, 0]
  {
    var rb := new RingBuffer.Init(16);
    var rc := rb.Write(a);
    var s1, f1 := rb.DataSize(), rb.FreeSize();
    rc := rb.Write(b);
    var s2 := rb.DataSize();
    var out1 := new bv8[4];
    var n1 := rb.Read(out1, 4);
    var s3 := rb.DataSize();
    rc := rb.Write(c);
    var s4 := rb.DataSize();
    var out2 := new bv8[12];
    var n2 := rb.Read(out2, 12);
    var s5 := rb.DataSize();
    first, second := out1[..n1], out2[..n2];
    sizes := [s1, f1, s2, s3, s4, s5];
  }
}
