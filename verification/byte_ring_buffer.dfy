/**
 * The growable circular byte buffer that stages raw input between its arrival
 * from a transport and its decoding into messages.
 *
 * The backing array holds `contentSize` logical bytes starting at `headIndex`
 * and wrapping around the end of the array. `put` grows the array (copying the
 * logical content to the front) while it is below `maxCapacity`; once it cannot
 * grow, `put` overwrites the oldest bytes instead of failing.
 */
module RingBuffers {
  import opened JavaTypes
  import opened Results

  const BUFFER_DEFAULT_INIT_CAPACITY: nat := 128
  const BUFFER_DEFAULT_MAX_CAPACITY: int := 2048

  /** The logical content of a circular array: `size` bytes from `head` on, wrapping around. */
  function Logical(buf: seq<byte>, head: nat, size: nat): (r: seq<byte>)
    requires |buf| > 0 && head < |buf| && size <= |buf|
    ensures |r| == size
  {
    seq(size, i requires 0 <= i < size => buf[(head + i) % |buf|])
  }

  /** The last `n` elements of `s`, or all of `s` when it is no longer than `n`. */
  function Keep(s: seq<byte>, n: nat): (r: seq<byte>)
    ensures |r| == Min(|s|, n)
    ensures forall i :: 0 <= i < |r| ==> r[i] == s[|s| - |r| + i]
  {
    if |s| <= n then s else s[|s| - n..]
  }

  /** Keeping the last `n` bytes twice, around an append, is keeping them once. */
  lemma {:induction false} KeepAppend(s: seq<byte>, t: seq<byte>, n: nat)
    ensures Keep(Keep(s, n) + t, n) == Keep(s + t, n)
  {
    if |s| > n {
      var j := |s| - n;
      assert Keep(s, n) + t == (s + t)[j..];
      KeepOfSuffix(s + t, j, n);
    }
  }

  /** Dropping a prefix that leaves at least `n` bytes does not change the last `n`. */
  lemma KeepOfSuffix(x: seq<byte>, j: nat, n: nat)
    requires j + n <= |x|
    ensures Keep(x[j..], n) == Keep(x, n)
  {
    assert x[j..][|x| - j - n..] == x[|x| - n..];
  }

  lemma ModShift(z: int, n: int)
    requires 0 < n
    ensures (z + n) % n == z % n
  {
    var a, b := (z + n) % n, z % n;
    var d := z / n + 1 - (z + n) / n;
    assert z + n == n * ((z + n) / n) + a;
    assert z == n * (z / n) + b;
    assert a - b == n * d;
  }

  lemma {:induction false} ModMultiple(z: int, q: nat, n: int)
    requires 0 < n
    ensures (z + q * n) % n == z % n
  {
    if q > 0 {
      ModMultiple(z, q - 1, n);
      assert z + q * n == (z + (q - 1) * n) + n;
      ModShift(z + (q - 1) * n, n);
    }
  }

  /** Reducing the first summand modulo `n` does not change the sum modulo `n`. */
  lemma ModAdd(x: int, y: int, n: int)
    requires 0 < n && 0 <= x && 0 <= y
    ensures (x % n + y) % n == (x + y) % n
  {
    var q := x / n;
    assert x == q * n + x % n;
    ModMultiple(x % n + y, q, n);
    assert x + y == (x % n + y) + q * n;
  }

  lemma ModSmall(x: int, n: int)
    requires 0 <= x < n
    ensures x % n == x
  {
  }

  /** Two distinct positions less than `n` apart fall in different slots modulo `n`. */
  lemma DistinctMod(a: int, b: int, n: int)
    requires 0 <= a < b < a + n
    ensures a % n != b % n
  {
    var r, k := a % n, b - a;
    assert a == n * (a / n) + r;
    assert b == (r + k) + (a / n) * n;
    ModMultiple(r + k, a / n, n);
    if r + k < n {
      ModSmall(r + k, n);
    } else {
      ModShift(r + k - n, n);
      ModSmall(r + k - n, n);
    }
  }


  /** Logical index `i` of the content starting at `(h + d) % n` is physical slot `(h + d + i) % n`. */
  lemma ShiftedSlot(h: nat, d: nat, i: nat, n: int)
    requires n > 0
    ensures ((h + d) % n + i) % n == (h + d + i) % n
  {
    ModAdd(h + d, i, n);
  }

  /** Content that starts at slot 0 is a plain prefix of the array. */
  lemma LogicalFromStart(buf: seq<byte>, c: nat)
    requires 0 < |buf| && c <= |buf|
    ensures Logical(buf, 0, c) == buf[..c]
  {
    forall i | 0 <= i < c ensures Logical(buf, 0, c)[i] == buf[i] {
      ModSmall(i, |buf|);
    }
  }

  /** Dropping `size` leading bytes of the content is advancing the head by `size`. */
  lemma LogicalDrop(buf: seq<byte>, h: nat, c: nat, size: nat)
    requires |buf| > 0 && h < |buf| && size <= c <= |buf|
    ensures Logical(buf, (h + size) % |buf|, c - size) == Logical(buf, h, c)[size..]
  {
    var a, b := Logical(buf, (h + size) % |buf|, c - size), Logical(buf, h, c)[size..];
    forall i | 0 <= i < c - size ensures a[i] == b[i] {
      ShiftedSlot(h, size, i, |buf|);
    }
  }

  /**
   * One pass of the copy loop in `put`: `seg` is written at the tail position
   * `(h + c) % L` without running past the end of the array. Afterwards the
   * buffer holds the last `L` bytes of the old content followed by `seg`, and
   * the head has moved past whatever was overwritten.
   */
  lemma PutStep(buf: seq<byte>, buf': seq<byte>, h: nat, c: nat, seg: seq<byte>, h': nat, c': nat)
    requires |buf| > 0 && |buf'| == |buf| && h < |buf| && c <= |buf|
    requires (h + c) % |buf| + |seg| <= |buf|
    requires buf' == buf[..(h + c) % |buf|] + seg + buf[(h + c) % |buf| + |seg|..]
    requires c' == Min(|buf|, c + |seg|) && h' == (h + c + |seg| - c') % |buf|
    ensures h' < |buf| && c' <= |buf|
    ensures Logical(buf', h', c') == Keep(Logical(buf, h, c) + seg, |buf|)
  {
    var lhs, rhs := Logical(buf', h', c'), Keep(Logical(buf, h, c) + seg, |buf|);
    forall i | 0 <= i < c' ensures lhs[i] == rhs[i] {
      PutStepAt(buf, buf', h, c, seg, h', c', i);
    }
  }

  /** `PutStep` at logical index `i`: an old byte that survived, or an appended one. */
  lemma PutStepAt(buf: seq<byte>, buf': seq<byte>, h: nat, c: nat, seg: seq<byte>, h': nat, c': nat, i: nat)
    requires |buf| > 0 && |buf'| == |buf| && h < |buf| && c <= |buf|
    requires (h + c) % |buf| + |seg| <= |buf|
    requires buf' == buf[..(h + c) % |buf|] + seg + buf[(h + c) % |buf| + |seg|..]
    requires c' == Min(|buf|, c + |seg|) && h' == (h + c + |seg| - c') % |buf| && i < c'
    ensures Logical(buf', h', c')[i] == Keep(Logical(buf, h, c) + seg, |buf|)[i]
  {
    var j := c + |seg| - c' + i;
    SlotOfNewContent(h, c, |seg|, |buf|, c', i);
    KeepAt(Logical(buf, h, c) + seg, |buf|, i, j);
    PutSlot(buf, buf', h, c, seg, c', j);
  }

  /** Every slot that holds retained content after the pass holds the right byte. */
  lemma PutSlot(buf: seq<byte>, buf': seq<byte>, h: nat, c: nat, seg: seq<byte>, c': nat, j: nat)
    requires |buf| > 0 && |buf'| == |buf| && h < |buf| && c <= |buf|
    requires (h + c) % |buf| + |seg| <= |buf|
    requires buf' == buf[..(h + c) % |buf|] + seg + buf[(h + c) % |buf| + |seg|..]
    requires c' == Min(|buf|, c + |seg|) && c + |seg| - c' <= j < c + |seg|
    ensures buf'[(h + j) % |buf|] == (Logical(buf, h, c) + seg)[j]
  {
    if j < c {
      PutKeepsOldSlot(buf, buf', h, c, seg, c', j);
    } else {
      PutWritesNewSlot(buf, buf', h, c, seg, j);
    }
  }

  /** Index `i` of what `Keep` retains is index `j` of the whole sequence. */
  lemma KeepAt(s: seq<byte>, n: nat, i: nat, j: nat)
    requires i < Min(|s|, n) && j == |s| - Min(|s|, n) + i
    ensures j < |s| && Keep(s, n)[i] == s[j]
  {
  }

  /** An old byte that survives the append is still in its slot. */
  lemma PutKeepsOldSlot(buf: seq<byte>, buf': seq<byte>, h: nat, c: nat, seg: seq<byte>, c': nat, j: nat)
    requires |buf| > 0 && |buf'| == |buf| && h < |buf| && c <= |buf|
    requires (h + c) % |buf| + |seg| <= |buf|
    requires buf' == buf[..(h + c) % |buf|] + seg + buf[(h + c) % |buf| + |seg|..]
    requires c' == Min(|buf|, c + |seg|) && c + |seg| - c' <= j < c
    ensures buf'[(h + j) % |buf|] == (Logical(buf, h, c) + seg)[j]
  {
    var L, p, q := |buf|, (h + c) % |buf|, (h + j) % |buf|;
    OldSlotNotOverwritten(h, c, |seg|, L, c', j);
    SpliceOutside(buf, buf', seg, p, q);
    assert (Logical(buf, h, c) + seg)[j] == Logical(buf, h, c)[j];
  }

  /** A byte appended by this pass is in the slot it was written to. */
  lemma PutWritesNewSlot(buf: seq<byte>, buf': seq<byte>, h: nat, c: nat, seg: seq<byte>, j: nat)
    requires |buf| > 0 && |buf'| == |buf| && h < |buf| && c <= |buf|
    requires (h + c) % |buf| + |seg| <= |buf|
    requires buf' == buf[..(h + c) % |buf|] + seg + buf[(h + c) % |buf| + |seg|..]
    requires c <= j < c + |seg|
    ensures buf'[(h + j) % |buf|] == (Logical(buf, h, c) + seg)[j]
  {
    NewSlotWritten(h, c, |seg|, |buf|, j);
    SpliceInside(buf, buf', seg, (h + c) % |buf|, (h + j) % |buf|);
  }

  /** A slot outside the written segment keeps its byte. */
  lemma SpliceOutside(buf: seq<byte>, buf': seq<byte>, seg: seq<byte>, p: nat, q: nat)
    requires p + |seg| <= |buf| && q < |buf| && buf' == buf[..p] + seg + buf[p + |seg|..]
    requires !(p <= q < p + |seg|)
    ensures buf'[q] == buf[q]
  {
  }

  /** A slot inside the written segment holds the segment's byte. */
  lemma SpliceInside(buf: seq<byte>, buf': seq<byte>, seg: seq<byte>, p: nat, q: nat)
    requires p + |seg| <= |buf| && buf' == buf[..p] + seg + buf[p + |seg|..]
    requires p <= q < p + |seg|
    ensures buf'[q] == seg[q - p]
  {
  }

  /** New logical index `i` sits in the slot of old-plus-appended index `c + k - c' + i`. */
  lemma SlotOfNewContent(h: nat, c: nat, k: nat, L: int, c': nat, i: nat)
    requires L > 0 && c' <= c + k
    ensures ((h + c + k - c') % L + i) % L == (h + (c + k - c' + i)) % L
  {
    ModAdd(h + c + k - c', i, L);
  }

  /** Surviving old bytes lie outside the slots written by this pass. */
  lemma OldSlotNotOverwritten(h: nat, c: nat, k: nat, L: int, c': nat, j: nat)
    requires L > 0 && (h + c) % L + k <= L && c' == Min(L, c + k)
    requires c + k - c' <= j < c
    ensures !((h + c) % L <= (h + j) % L < (h + c) % L + k)
  {
    var p, q := (h + c) % L, (h + j) % L;
    if p <= q < p + k {
      ModAdd(h + c, q - p, L);
      ModSmall(q, L);
      assert c + (q - p) - j < L;
      DistinctMod(h + j, h + c + (q - p), L);
      assert false;
    }
  }

  /** Appended byte `j - c` lands in slot `(h + c) % L + (j - c)`. */
  lemma NewSlotWritten(h: nat, c: nat, k: nat, L: int, j: nat)
    requires L > 0 && (h + c) % L + k <= L && c <= j < c + k
    ensures (h + j) % L == (h + c) % L + (j - c)
  {
    ModAdd(h + c, j - c, L);
    ModSmall((h + c) % L + (j - c), L);
  }

  /**
   * What holds after `put` has copied the first `copied` bytes of `data`:
   * `start` bytes were held before, starting at `h0`, and the content is the
   * last `|buf|` bytes of the old content followed by the bytes copied so far.
   */
  ghost predicate PutProgress(buf: seq<byte>, h: nat, c: nat, old': seq<byte>, data: seq<byte>, copied: nat, h0: nat, start: nat)
    requires |buf| > 0 && h < |buf| && c <= |buf| && copied <= |data|
  {
    && c == Min(start + copied, |buf|)
    && Logical(buf, h, c) == Keep(old' + data[..copied], |buf|)
    && h == (h0 + start + copied - c) % |buf|
  }

  /** One pass of the copy loop of `put` keeps `PutProgress`. */
  lemma PutPass(buf: seq<byte>, buf': seq<byte>, h: nat, c: nat, h': nat, c': nat, old': seq<byte>, data: seq<byte>,
                copied: nat, copy: nat, h0: nat, start: nat)
    requires |buf| > 0 && |buf'| == |buf| && h < |buf| && c <= |buf| && copied + copy <= |data|
    requires PutProgress(buf, h, c, old', data, copied, h0, start)
    requires (h + c) % |buf| + copy <= |buf|
    requires buf' == buf[..(h + c) % |buf|] + data[copied..copied + copy] + buf[(h + c) % |buf| + copy..]
    requires c' == Min(|buf|, c + copy) && h' == (h + c + copy - c') % |buf|
    ensures h' < |buf'| && c' <= |buf'|
    ensures PutProgress(buf', h', c', old', data, copied + copy, h0, start)
  {
    var L := |buf|;
    PutPassContent(buf, buf', h, c, h', c', old', data, copied, copy);
    PutPassHead(h, c, copy, c', L, h0 + start + copied - c);
  }

  /** The content half of `PutPass`. */
  lemma PutPassContent(buf: seq<byte>, buf': seq<byte>, h: nat, c: nat, h': nat, c': nat, old': seq<byte>, data: seq<byte>,
                       copied: nat, copy: nat)
    requires |buf| > 0 && |buf'| == |buf| && h < |buf| && c <= |buf| && copied + copy <= |data|
    requires Logical(buf, h, c) == Keep(old' + data[..copied], |buf|)
    requires (h + c) % |buf| + copy <= |buf|
    requires buf' == buf[..(h + c) % |buf|] + data[copied..copied + copy] + buf[(h + c) % |buf| + copy..]
    requires c' == Min(|buf|, c + copy) && h' == (h + c + copy - c') % |buf|
    ensures h' < |buf| && c' <= |buf|
    ensures Logical(buf', h', c') == Keep(old' + data[..copied + copy], |buf|)
  {
    var seg := data[copied..copied + copy];
    PutStep(buf, buf', h, c, seg, h', c');
    KeepAppendSlice(old', data, copied, copy, |buf|);
  }

  /** Keeping the last `L` bytes after each slice of `data` is keeping them once after the whole prefix. */
  lemma KeepAppendSlice(old': seq<byte>, data: seq<byte>, copied: nat, copy: nat, L: nat)
    requires copied + copy <= |data|
    ensures Keep(Keep(old' + data[..copied], L) + data[copied..copied + copy], L) == Keep(old' + data[..copied + copy], L)
  {
    var seg := data[copied..copied + copy];
    KeepAppend(old' + data[..copied], seg, L);
    assert (old' + data[..copied]) + seg == old' + data[..copied + copy];
  }

  /** The head half of `PutPass`: `x` counts the bytes ever dropped before this pass. */
  lemma PutPassHead(h: nat, c: nat, copy: nat, c': nat, L: int, x: nat)
    requires L > 0 && h == x % L && c' <= c + copy
    ensures (h + c + copy - c') % L == (x + c + copy - c') % L
  {
    ModAdd(x, c + copy - c', L);
  }

  class ByteRingBuffer {
    var buffer: array<byte>
    var maxCapacity: int
    var contentSize: nat
    var headIndex: nat

    /** The object invariant: a non-empty backing array with head and size inside it. */
    ghost predicate Valid()
      reads this
    {
      buffer.Length > 0 && contentSize <= buffer.Length && headIndex < buffer.Length
    }

    /** The logical bytes, oldest first. */
    function Contents(): (r: seq<byte>)
      reads this, buffer
      requires Valid()
      ensures |r| == contentSize
    {
      Logical(buffer[..], headIndex, contentSize)
    }

    /** `new ByteRingBuffer()`: capacity 128, maximum 2048. */
    constructor ()
      ensures Valid() && fresh(buffer) && Contents() == []
      ensures buffer.Length == BUFFER_DEFAULT_INIT_CAPACITY && maxCapacity == BUFFER_DEFAULT_MAX_CAPACITY
      ensures headIndex == 0
    {
      buffer := new byte[BUFFER_DEFAULT_INIT_CAPACITY];
      maxCapacity := BUFFER_DEFAULT_MAX_CAPACITY;
      contentSize, headIndex := 0, 0;
    }

    /** `new ByteRingBuffer(capacity)`: the maximum stays at the default 2048. */
    constructor WithCapacity(capacity: nat)
      requires capacity > 0
      ensures Valid() && fresh(buffer) && Contents() == []
      ensures buffer.Length == capacity && maxCapacity == BUFFER_DEFAULT_MAX_CAPACITY
      ensures headIndex == 0
    {
      buffer := new byte[capacity];
      maxCapacity := BUFFER_DEFAULT_MAX_CAPACITY;
      contentSize, headIndex := 0, 0;
    }

    /** `new ByteRingBuffer(capacity, maxCapacity)`. */
    constructor WithMaxCapacity(capacity: nat, maxCapacity: int)
      requires capacity > 0
      ensures Valid() && fresh(buffer) && Contents() == []
      ensures buffer.Length == capacity && this.maxCapacity == maxCapacity
      ensures headIndex == 0
    {
      buffer := new byte[capacity];
      this.maxCapacity := maxCapacity;
      contentSize, headIndex := 0, 0;
    }

    function AvailableSize(): (n: int)
      reads this
      requires Valid()
      ensures 0 <= n <= buffer.Length
      ensures n + contentSize == buffer.Length
    {
      buffer.Length - contentSize
    }

    /** `changeMaxCapacity`: the maximum may be raised or kept, never lowered. */
    method ChangeMaxCapacity(newMax: int) returns (r: Outcome)
      requires Valid()
      modifies this`maxCapacity
      ensures Valid()
      ensures r == (if old(maxCapacity) > newMax then Threw(IllegalArgument) else Done)
      ensures maxCapacity == (if r.Done? then newMax else old(maxCapacity))
    {
      if maxCapacity > newMax {
        return Threw(IllegalArgument);
      }
      maxCapacity := newMax;
      return Done;
    }

    /**
     * `put`: appends `data`. When room is short and the array is below the
     * maximum, the array is first replaced by one of `min(contentSize + |data|,
     * maxCapacity)` bytes holding the content from index 0. The content is then
     * the last `buffer.Length` bytes of the old content followed by `data`.
     */
    method Put(data: seq<byte>)
      requires Valid()
      modifies this, buffer
      ensures Valid() && maxCapacity == old(maxCapacity)
      ensures var grow := old(AvailableSize()) < |data| && old(buffer.Length) < maxCapacity;
        && buffer.Length == (if grow then Min(old(contentSize) + |data|, maxCapacity) else old(buffer.Length))
        && (grow ==> fresh(buffer))
        && (!grow ==> buffer == old(buffer))
        && headIndex == ((if grow then 0 else old(headIndex)) + old(contentSize) + |data| - contentSize) % buffer.Length
      ensures contentSize == Min(old(contentSize) + |data|, buffer.Length)
      ensures Contents() == Keep(old(Contents()) + data, buffer.Length)
    {
      if AvailableSize() < |data| {
        if buffer.Length < maxCapacity {
          ExpandBuffer(contentSize + |data|);
        }
        // Otherwise the oldest bytes are overwritten below.
      }
      CopyIn(data);
    }

    /**
     * The copy loop of `put`: writes `data` at the tail run by run, never past
     * the end of the array, advancing the head over any bytes it overwrites.
     */
    method CopyIn(data: seq<byte>)
      requires Valid()
      modifies buffer, this`headIndex, this`contentSize
      ensures Valid()
      ensures contentSize == Min(old(contentSize) + |data|, buffer.Length)
      ensures headIndex == (old(headIndex) + old(contentSize) + |data| - contentSize) % buffer.Length
      ensures Contents() == Keep(old(Contents()) + data, buffer.Length)
    {
      ghost var c0, h0, start := Contents(), headIndex, contentSize;
      assert c0 + data[..0] == c0 == Keep(c0, buffer.Length);
      ModSmall(h0, buffer.Length);
      var dataLength := |data|;
      var dataIndex := 0;
      while dataLength > 0
        invariant Valid()
        invariant 0 <= dataLength && dataIndex + dataLength == |data|
        invariant PutProgress(buffer[..], headIndex, contentSize, c0, data, dataIndex, h0, start)
      {
        var copyLength := RunLength(headIndex + contentSize, dataLength, buffer.Length);
        CopyRun(data, dataIndex, copyLength, c0, h0, start);
        dataLength := dataLength - copyLength;
        dataIndex := dataIndex + copyLength;
      }
      assert data[..dataIndex] == data;
    }

    /**
     * One pass of the copy loop of `put`: `copyLength` bytes of `data` from
     * `dataIndex` on are written at the tail, which the run does not carry
     * past the end of the array; the size grows up to the capacity and the
     * head moves past whatever was overwritten.
     */
    method CopyRun(data: seq<byte>, dataIndex: nat, copyLength: nat, ghost c0: seq<byte>, ghost h0: nat, ghost start: nat)
      requires Valid() && dataIndex + copyLength <= |data|
      requires (headIndex + contentSize) % buffer.Length + copyLength <= buffer.Length
      requires PutProgress(buffer[..], headIndex, contentSize, c0, data, dataIndex, h0, start)
      modifies buffer, this`headIndex, this`contentSize
      ensures Valid()
      ensures contentSize == Min(buffer.Length, old(contentSize) + copyLength)
      ensures headIndex == (old(headIndex) + old(contentSize) + copyLength - contentSize) % buffer.Length
      ensures PutProgress(buffer[..], headIndex, contentSize, c0, data, dataIndex + copyLength, h0, start)
    {
      var tailIndex := headIndex + contentSize;
      ghost var before, h, c := buffer[..], headIndex, contentSize;
      ArrayCopy(data, dataIndex, buffer, tailIndex % buffer.Length, copyLength);
      ghost var after := buffer[..];
      contentSize := Min(buffer.Length, contentSize + copyLength);
      headIndex := ((tailIndex + copyLength) - contentSize) % buffer.Length;
      PutPass(before, after, h, c, headIndex, contentSize, c0, data, dataIndex, copyLength, h0, start);
    }

    /**
     * The length of one run of the copy loop of `put` from the unwrapped tail
     * position `t`: the rest of the data when it fits before the end of the
     * array, else up to the end of the array, or, when the tail has wrapped,
     * up to the old position of the tail.
     */
    static function RunLength(t: nat, remaining: nat, n: nat): (k: nat)
      requires 0 < n && t < 2 * n && 0 < remaining
      ensures 0 < k <= remaining && t % n + k <= n
    {
      var k := if t + remaining < n then remaining
               else if t < n then n - t
               else Min(remaining, n - (t - n));
      TailFits(t, n, k);
      k
    }

    /** The run written at the tail position `t % n` fits before the end of the array. */
    static lemma TailFits(t: nat, n: int, k: nat)
      requires 0 < n && t < 2 * n
      requires t < n ==> t + k <= n
      requires t >= n ==> t - n + k <= n
      ensures t % n + k <= n
    {
      if t >= n {
        ModShift(t - n, n);
      }
    }

    /** `System.arraycopy(src, srcPos, dest, destPos, length)` from a byte sequence. */
    static method ArrayCopy(src: seq<byte>, srcPos: nat, dest: array<byte>, destPos: nat, length: nat)
      requires srcPos + length <= |src| && destPos + length <= dest.Length
      modifies dest
      ensures dest[..] == old(dest[..])[..destPos] + src[srcPos..srcPos + length] + old(dest[..])[destPos + length..]
    {
      for n := 0 to length
        invariant forall k :: 0 <= k < dest.Length ==>
          dest[k] == if destPos <= k < destPos + n then src[srcPos + k - destPos] else old(dest[k])
      {
        dest[destPos + n] := src[srcPos + n];
      }
      assert dest[..] == old(dest[..])[..destPos] + src[srcPos..srcPos + length] + old(dest[..])[destPos + length..];
    }

    /**
     * `fillByteArrayFromInternalBuffer`: copies `length` logical bytes starting
     * at logical index `sourceIndex` into `target` from `targetIndex` on.
     */
    method FillByteArrayFromInternalBuffer(target: array<byte>, targetIndex: nat, sourceIndex: nat, length: nat)
      returns (r: Outcome)
      requires Valid() && target != buffer
      modifies target
      ensures r == (if targetIndex + length > target.Length || length > contentSize - sourceIndex
                    then Threw(IndexOutOfBounds) else Done)
      ensures r.Done? ==> target[..] == old(target[..])[..targetIndex]
                                         + Contents()[sourceIndex..sourceIndex + length]
                                         + old(target[..])[targetIndex + length..]
      ensures r.Threw? ==> target[..] == old(target[..])
    {
      if targetIndex + length > target.Length || length > contentSize - sourceIndex {
        return Threw(IndexOutOfBounds);
      }
      ghost var content, t0 := Contents(), target[..];
      var localHeadIndex := (headIndex + sourceIndex) % buffer.Length;
      var remaining, t := length, targetIndex;
      ghost var pos := headIndex + sourceIndex;
      while remaining > 0
        invariant 0 <= remaining && t + remaining == targetIndex + length
        invariant pos == headIndex + sourceIndex + (t - targetIndex) && localHeadIndex == pos % buffer.Length
        invariant target[..] == t0[..targetIndex] + content[sourceIndex..sourceIndex + (t - targetIndex)] + t0[t..]
      {
        var copyLength := Min(remaining, buffer.Length - localHeadIndex);
        FillRun(target, targetIndex, sourceIndex, t, localHeadIndex, copyLength, t0, content);
        ModAdd(pos, copyLength, buffer.Length);
        localHeadIndex := (localHeadIndex + copyLength) % buffer.Length;
        pos := pos + copyLength;
        remaining := remaining - copyLength;
        t := t + copyLength;
      }
      assert t == targetIndex + length && content == Contents();
      return Done;
    }

    /**
     * One pass of the loop of `fillByteArrayFromInternalBuffer`: the run of
     * `k` bytes at slot `from` extends the requested prefix already copied
     * to `target` by its next `k` logical bytes.
     */
    method FillRun(target: array<byte>, targetIndex: nat, sourceIndex: nat, t: nat, from: nat, k: nat,
                   ghost t0: seq<byte>, ghost content: seq<byte>)
      requires Valid() && target != buffer && |t0| == target.Length && content == Contents()
      requires targetIndex <= t && t + k <= target.Length && sourceIndex + (t - targetIndex) + k <= contentSize
      requires from == (headIndex + sourceIndex + (t - targetIndex)) % buffer.Length && from + k <= buffer.Length
      requires target[..] == t0[..targetIndex] + content[sourceIndex..sourceIndex + (t - targetIndex)] + t0[t..]
      modifies target
      ensures target[..] == t0[..targetIndex] + content[sourceIndex..sourceIndex + (t + k - targetIndex)] + t0[t + k..]
    {
      ghost var before := target[..];
      CopyOut(from, target, t, k);
      FillPass(buffer[..], headIndex, contentSize, sourceIndex + (t - targetIndex), k);
      FillSplice(t0, before, target[..], content, targetIndex, sourceIndex, t, k);
    }

    /** The bytes `CopyOut` reads from the array are the logical bytes the caller asked for. */
    static lemma FillPass(buf: seq<byte>, h: nat, c: nat, m: nat, k: nat)
      requires |buf| > 0 && h < |buf| && c <= |buf| && m + k <= c
      requires (h + m) % |buf| + k <= |buf|
      ensures buf[(h + m) % |buf|..(h + m) % |buf| + k] == Logical(buf, h, c)[m..m + k]
    {
      var p := (h + m) % |buf|;
      var run, wanted := buf[p..p + k], Logical(buf, h, c)[m..m + k];
      forall i | 0 <= i < k ensures run[i] == wanted[i] {
        ShiftedSlot(h, m, i, |buf|);
        ModSmall(p + i, |buf|);
      }
    }

    /** The target after one more run still holds the requested prefix, then the untouched rest. */
    static lemma FillSplice(t0: seq<byte>, before: seq<byte>, after: seq<byte>, content: seq<byte>,
                            targetIndex: nat, sourceIndex: nat, t: nat, k: nat)
      requires targetIndex <= t && t + k <= |t0| && sourceIndex + (t - targetIndex) + k <= |content|
      requires before == t0[..targetIndex] + content[sourceIndex..sourceIndex + (t - targetIndex)] + t0[t..]
      requires after == before[..t] + content[sourceIndex + (t - targetIndex)..sourceIndex + (t - targetIndex) + k] + before[t + k..]
      ensures after == t0[..targetIndex] + content[sourceIndex..sourceIndex + (t + k - targetIndex)] + t0[t + k..]
    {
      var m := sourceIndex + (t - targetIndex);
      assert before[..t] == t0[..targetIndex] + content[sourceIndex..m];
      assert before[t + k..] == t0[t + k..];
      assert content[sourceIndex..m] + content[m..m + k] == content[sourceIndex..m + k];
    }

    /** `System.arraycopy(buffer, from, target, targetIndex, length)`. */
    method CopyOut(from: nat, target: array<byte>, targetIndex: nat, length: nat)
      requires Valid() && target != buffer
      requires from + length <= buffer.Length && targetIndex + length <= target.Length
      modifies target
      ensures target[..] == old(target[..])[..targetIndex] + buffer[from..from + length] + old(target[..])[targetIndex + length..]
    {
      for n := 0 to length
        invariant forall k :: 0 <= k < target.Length ==>
          target[k] == if targetIndex <= k < targetIndex + n then buffer[from + k - targetIndex] else old(target[k])
      {
        target[targetIndex + n] := buffer[from + n];
      }
      assert target[..] == old(target[..])[..targetIndex] + buffer[from..from + length] + old(target[..])[targetIndex + length..];
    }

    /** `expandBuffer`: a new array of `min(requestedSize, maxCapacity)` bytes holding the content from index 0. */
    method ExpandBuffer(requestedSize: nat)
      requires Valid() && 0 < Min(requestedSize, maxCapacity) && contentSize <= Min(requestedSize, maxCapacity)
      modifies this
      ensures Valid() && fresh(buffer) && buffer.Length == Min(requestedSize, maxCapacity)
      ensures headIndex == 0 && contentSize == old(contentSize) && maxCapacity == old(maxCapacity)
      ensures Contents() == old(Contents())
    {
      var newBuffer := new byte[Min(requestedSize, maxCapacity)];
      var r := FillByteArrayFromInternalBuffer(newBuffer, 0, 0, contentSize);
      ghost var c := Contents();
      assert newBuffer[..contentSize] == c;
      buffer := newBuffer;
      headIndex := 0;
      LogicalFromStart(buffer[..], contentSize);
    }

    /** `consume`: drops the `size` oldest bytes, or throws when fewer are held. */
    method Consume(size: nat) returns (r: Outcome)
      requires Valid()
      modifies this`headIndex, this`contentSize
      ensures Valid()
      ensures r == (if size > old(contentSize) then Threw(IllegalArgument) else Done)
      ensures r.Done? ==> Contents() == old(Contents())[size..]
      ensures r.Done? ==> headIndex == (old(headIndex) + size) % buffer.Length
      ensures r.Threw? ==> headIndex == old(headIndex) && contentSize == old(contentSize)
    {
      if size > contentSize {
        return Threw(IllegalArgument);
      }
      LogicalDrop(buffer[..], headIndex, contentSize, size);
      headIndex := (headIndex + size) % buffer.Length;
      contentSize := contentSize - size;
      return Done;
    }

    /**
     * `peek`: the logical byte at `index`, without consuming anything. Only
     * `index >= contentSize` is refused: a negative index reads the physical
     * slot that far before the head while that stays in the array; below the
     * array, Java's truncating `%` gives slot 0 at a multiple of the length
     * and a negative subscript otherwise.
     */
    method Peek(index: int) returns (r: Result<byte>)
      requires Valid()
      ensures 0 <= index < contentSize ==> r == Ok(Contents()[index])
      ensures index >= contentSize ==> r == Err(IndexOutOfBounds)
      ensures index < 0 && headIndex + index >= 0 ==> r == Ok(buffer[headIndex + index])
      ensures index < 0 && headIndex + index < 0 ==>
                r == (if (-(headIndex + index)) % buffer.Length == 0 then Ok(buffer[0]) else Err(IndexOutOfBounds))
    {
      if index >= contentSize {
        return Err(IndexOutOfBounds);
      }
      // A negative index reaches before the head, or below the array.
      var position := JavaRem(headIndex + index, buffer.Length);
      if index < 0 && headIndex + index >= 0 {
        RemOfSmall(headIndex + index, buffer.Length);
      }
      if position < 0 {
        return Err(IndexOutOfBounds);
      }
      return Ok(buffer[position]);
    }

    /** `readWithoutConsume`: a copy of the `length` oldest bytes; the buffer is unchanged. */
    method ReadWithoutConsume(length: int) returns (r: Result<seq<byte>>)
      requires Valid()
      ensures r == (if length > contentSize then Err(IndexOutOfBounds)
                    else if length < 0 then Err(NegativeArraySize)
                    else Ok(Contents()[..length]))
    {
      if length > contentSize {
        return Err(IndexOutOfBounds);
      } else if length < 0 {
        return Err(NegativeArraySize);
      }
      var result := new byte[length];
      var filled := FillByteArrayFromInternalBuffer(result, 0, 0, length);
      assert result[..] == Contents()[0..length];
      return Ok(result[..]);
    }

    /** `read`: `readWithoutConsume` followed by `consume` of the same length. */
    method Read(length: int) returns (r: Result<seq<byte>>)
      requires Valid()
      modifies this`headIndex, this`contentSize
      ensures Valid()
      ensures r == (if length > old(contentSize) then Err(IndexOutOfBounds)
                    else if length < 0 then Err(NegativeArraySize)
                    else Ok(old(Contents())[..length]))
      ensures r.Ok? ==> Contents() == old(Contents())[length..]
      ensures r.Ok? ==> headIndex == (old(headIndex) + length) % buffer.Length
      ensures r.Err? ==> headIndex == old(headIndex) && contentSize == old(contentSize)
    {
      r := ReadWithoutConsume(length);
      if r.Ok? {
        var consumed := Consume(length);
      }
    }

    /** `clear`: empties the buffer; the array and its capacity stay. */
    method Clear()
      requires Valid()
      modifies this`headIndex, this`contentSize
      ensures Valid() && headIndex == 0 && contentSize == 0 && Contents() == []
    {
      headIndex := 0;
      contentSize := 0;
    }
  }
}
