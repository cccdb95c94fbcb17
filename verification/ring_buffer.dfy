/** The byte ring buffer: two counters that only move, and an array indexed modulo its size. */
module RingBuffers {
  import opened Bytes

  /** Positions wrap at most once within one turn of the array. */
  lemma Wrap(x: nat, k: nat, size: nat)
    requires size > 0 && k <= size
    ensures (x + k) % size == if x % size + k < size then x % size + k else x % size + k - size
  {
    var q, r := x / size, x % size;
    assert x == q * size + r;
    if r + k < size {
      ModUnique(x + k, q, r + k, size);
    } else {
      assert x + k == (q + 1) * size + (r + k - size);
      ModUnique(x + k, q + 1, r + k - size, size);
    }
  }

  lemma ModUnique(x: nat, q: nat, r: nat, size: nat)
    requires size > 0 && r < size && x == q * size + r
    ensures x % size == r
  {
    var q', r' := x / size, x % size;
    if q' > q { Apart(q', q, size); }
    if q' < q { Apart(q, q', size); }
  }

  lemma Apart(a: nat, b: nat, size: nat)
    requires a > b
    ensures a * size >= b * size + size
  {
    assert a * size == b * size + (a - b) * size;
    assert (a - b) * size == size + (a - b - 1) * size;
  }

  method CopyBytes(source: array<Byte>, from: nat, target: array<Byte>, to: nat, count: nat)
    requires source != target && from + count <= source.Length && to + count <= target.Length
    modifies target
    ensures target[..] == Layout(old(target[..]), to, source[from..from + count])
  {
    ghost var was := target[..];
    LayoutNothing(was, to);
    for i := 0 to count
      invariant target[..] == Layout(was, to, source[from..from + i])
    {
      Put(target, to + i, source[from + i], was, to, source[from..from + i]);
      assert source[from..from + i + 1] == source[from..from + i] + [source[from + i]];
    }
  }

  /** The n bytes from position x on, around the end of a. */
  ghost function Window(a: seq<Byte>, x: nat, n: nat): (s: seq<Byte>)
    requires |a| > 0
    ensures |s| == n
  {
    seq(n, i requires 0 <= i < n => a[(x + i) % |a|])
  }

  /** A window is at most two pieces of the array: this is what the two-part copies rely on. */
  lemma WindowIsTwoPieces(a: seq<Byte>, x: nat, n: nat)
    requires 0 < |a| && n <= |a|
    ensures var first := Min(n, |a| - x % |a|);
      Window(a, x, n) == a[x % |a|..x % |a| + first] + a[..n - first]
  {
    var w, first := Window(a, x, n), Min(n, |a| - x % |a|);
    forall i | 0 <= i < n
      ensures w[i] == (a[x % |a|..x % |a| + first] + a[..n - first])[i]
    {
      Wrap(x, i, |a|);
    }
  }

  /** Copying the two pieces to the front of a buffer puts the window there. */
  lemma FetchedIsWindow(a: seq<Byte>, x: nat, b: seq<Byte>, n: nat)
    requires 0 < |a| && n <= |a| && n <= |b|
    ensures var off, first := x % |a|, Min(n, |a| - x % |a|);
      var half := Layout(b, 0, a[off..off + first]);
      && (first == n ==> half == Window(a, x, n) + b[n..])
      && (first < n ==> Layout(half, first, a[0..n - first]) == Window(a, x, n) + b[n..])
  {
    WindowIsTwoPieces(a, x, n);
    hide Window;
  }

  lemma WindowSlice(a: seq<Byte>, x: nat, n: nat, i: nat, j: nat)
    requires |a| > 0 && i <= j <= n
    ensures Window(a, x, n)[i..j] == Window(a, x + i, j - i)
  {
    forall k | 0 <= k < j - i
      ensures Window(a, x, n)[i..j][k] == Window(a, x + i, j - i)[k]
    {
      assert x + (i + k) == (x + i) + k;
    }
  }

  /** The array after the bytes b have been written, in two parts, from position x on. */
  ghost function Written(a: seq<Byte>, x: nat, b: seq<Byte>): seq<Byte>
    requires 0 < |a| && |b| <= |a|
  {
    var off, first := x % |a|, Min(|b|, |a| - x % |a|);
    Layout(Layout(a, off, b[..first]), 0, b[first..])
  }

  /** Writing after a window extends it, and disturbs nothing that was in it. */
  lemma WrittenExtends(a: seq<Byte>, x: nat, n: nat, b: seq<Byte>)
    requires 0 < |a| && n + |b| <= |a|
    ensures |Written(a, x + n, b)| == |a|
    ensures Window(Written(a, x + n, b), x, n + |b|) == Window(a, x, n) + b
  {
    var a', w := Written(a, x + n, b), Window(Written(a, x + n, b), x, n + |b|);
    Wrap(x, n, |a|);
    forall i | 0 <= i < n + |b|
      ensures w[i] == (Window(a, x, n) + b)[i]
    {
      Wrap(x, i, |a|);
    }
  }

  datatype Status = Success | NotEnoughSpace | NoMemory

  class RingBuffer {
    const size: nat
    var write: nat
    var read: nat
    const data: array<Byte>

    ghost predicate Valid()
      reads this
    {
      size > 0 && data.Length == size && read <= write && write - read <= size
    }

    /** The queue the buffer stands for, oldest byte first. */
    ghost function Contents(): (s: seq<Byte>)
      requires Valid()
      reads this, data
      ensures |s| == write - read
    {
      Window(data[..], read, write - read)
    }

    constructor (size: nat)
      requires size > 0
      ensures Valid() && fresh(data) && this.size == size && Contents() == []
    {
      this.size := size;
      data := new Byte[size];
      read, write := 0, 0;
    }

    /** A buffer of that size, unless the size is zero or there is no memory for it. */
    static method Init(size: nat, memory: bool) returns (status: Status, ring: RingBuffer?)
      ensures status == if size == 0 then NotEnoughSpace else if !memory then NoMemory else Success
      ensures status.Success? <==> ring != null
      ensures ring != null ==> fresh(ring) && fresh(ring.data) && ring.Valid() && ring.size == size && ring.Contents() == []
    {
      if size == 0 {
        return NotEnoughSpace, null;
      }
      if !memory {
        return NoMemory, null;
      }
      ring := new RingBuffer(size);
      status := Success;
    }

    function DataCount(): (n: nat)
      requires Valid()
      reads this, data
      ensures n == |Contents()|
    {
      write - read
    }

    function FreeSpace(): (n: nat)
      requires Valid()
      reads this, data
      ensures n == size - |Contents()|
    {
      size - (write - read)
    }

    method Truncate(count: nat) returns (n: nat)
      requires Valid()
      modifies `read
      ensures Valid() && n == Min(|old(Contents())|, count) && Contents() == old(Contents())[n..]
    {
      n := Min(DataCount(), count);
      WindowSlice(data[..], read, write - read, n, write - read);
      read := read + n;
    }

    method Remove(count: nat) returns (n: nat)
      requires Valid()
      modifies `write
      ensures Valid() && n == Min(|old(Contents())|, count)
      ensures Contents() == old(Contents())[..|old(Contents())| - n]
    {
      n := Min(DataCount(), count);
      WindowSlice(data[..], read, write - read, 0, write - read - n);
      write := write - n;
    }

    /** Copy the n bytes from an absolute position into a buffer, in one or two parts. */
    method CopyOut(position: nat, buffer: array<Byte>, n: nat)
      requires Valid() && buffer != data && n <= size && n <= buffer.Length
      modifies buffer
      ensures buffer[..] == Window(data[..], position, n) + old(buffer[n..])
    {
      hide Layout, Window;
      var offset := position % size;
      var remaining := size - offset;
      var first := Min(n, remaining);
      ghost var a, b := data[..], buffer[..];
      CopyBytes(data, offset, buffer, 0, first);
      if first != n {
        CopyBytes(data, 0, buffer, first, n - first);
      }
      FetchedIsWindow(a, position, b, n);
    }

    method Read(buffer: array<Byte>, count: nat) returns (n: nat)
      requires Valid() && buffer != data && count <= buffer.Length
      modifies `read, buffer
      ensures Valid() && n == Min(count, |old(Contents())|)
      ensures buffer[..] == old(Contents())[..n] + old(buffer[n..]) && Contents() == old(Contents())[n..]
    {
      n := Min(count, DataCount());
      WindowSlice(data[..], read, write - read, 0, n);
      WindowSlice(data[..], read, write - read, n, write - read);
      CopyOut(read, buffer, n);
      read := read + n;
    }

    method Peek(buffer: array<Byte>, offset: nat, count: nat) returns (n: nat)
      requires Valid() && buffer != data && count <= buffer.Length
      modifies buffer
      ensures Contents() == old(Contents())
      ensures offset >= |Contents()| ==> n == 0 && buffer[..] == old(buffer[..])
      ensures offset < |Contents()| ==>
        n == Min(count, |Contents()| - offset) && buffer[..] == Contents()[offset..offset + n] + old(buffer[n..])
    {
      if offset >= DataCount() {
        return 0;
      }
      n := Min(count, DataCount() - offset);
      WindowSlice(data[..], read, write - read, offset, offset + n);
      CopyOut(read + offset, buffer, n);
    }

    /** Copy n bytes into the array from an absolute position on, in one or two parts. */
    method CopyIn(position: nat, buffer: array<Byte>, n: nat)
      requires Valid() && buffer != data && n <= size && n <= buffer.Length
      modifies data
      ensures data[..] == Written(old(data[..]), position, buffer[..n])
    {
      hide Layout;
      var offset := position % size;
      var remaining := size - offset;
      var first := Min(n, remaining);
      ghost var a, b := data[..], buffer[..n];
      assert buffer[0..first] == b[..first] && buffer[first..n] == b[first..];
      CopyBytes(buffer, 0, data, offset, first);
      if first != n {
        CopyBytes(buffer, first, data, 0, n - first);
      } else {
        LayoutNothing(data[..], 0);
        assert b[first..] == [];
      }
    }

    method Write(buffer: array<Byte>, count: nat) returns (n: nat)
      requires Valid() && buffer != data && count <= buffer.Length
      modifies `write, data
      ensures Valid() && n == Min(count, size - |old(Contents())|)
      ensures Contents() == old(Contents()) + buffer[..n]
    {
      n := Min(count, FreeSpace());
      WrittenExtends(data[..], read, write - read, buffer[..n]);
      CopyIn(write, buffer, n);
      write := write + n;
    }
  }
}
