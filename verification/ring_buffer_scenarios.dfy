/**
 * The unit scenarios of the ring buffer, replayed against the contracts of
 * `ByteRingBuffer`: a put that overflows the maximum, a put after the maximum
 * was raised, and a read. Each returns the physical array, the head index and
 * the content size the scenario ends with.
 */
module RingBufferScenarios {
  import opened JavaTypes
  import opened Results
  import opened RingBuffers

  /** `n` consecutive byte values from `start` on, as the scenarios generate them. */
  function Ramp(start: nat, n: nat): (r: seq<byte>)
    requires start + n <= 128
    ensures |r| == n
    ensures forall i :: 0 <= i < n ==> r[i] as int == start + i
  {
    seq(n, i requires 0 <= i < n => (start + i) as byte)
  }

  /** A full circular array, read back from its logical content and head. */
  lemma PhysicalOfFull(buf: seq<byte>, h: nat)
    requires 0 < |buf| && h < |buf|
    ensures buf == Logical(buf, h, |buf|)[|buf| - h..] + Logical(buf, h, |buf|)[..|buf| - h]
  {
    var l := Logical(buf, h, |buf|);
    forall i | 0 <= i < |buf| ensures l[i] == buf[if h + i < |buf| then h + i else h + i - |buf|] {
      if h + i >= |buf| {
        ModShift(h + i - |buf|, |buf|);
        ModSmall(h + i - |buf|, |buf|);
      } else {
        ModSmall(h + i, |buf|);
      }
    }
    assert buf == l[|buf| - h..] + l[..|buf| - h];
  }

  /** A full array whose content is a ramp: the wrapped part of the ramp, then its start. */
  lemma FullRampLayout(buf: seq<byte>, h: nat, start: nat, n: nat)
    requires 0 < n && |buf| == n && h < n && start + n <= 128
    requires Logical(buf, h, n) == Ramp(start, n)
    ensures buf == Ramp(start + n - h, h) + Ramp(start, n - h)
  {
    PhysicalOfFull(buf, h);
    assert Ramp(start, n)[n - h..] == Ramp(start + n - h, h);
    assert Ramp(start, n)[..n - h] == Ramp(start, n - h);
  }

  /** Two adjacent ramps make one. */
  lemma RampsJoin(start: nat, n: nat, m: nat)
    requires start + n + m <= 128
    ensures Ramp(start, n) + Ramp(start + n, m) == Ramp(start, n + m)
  {
  }

  /** 17 bytes into an array of 10 that may grow to 15: it grows to 15 and the two oldest bytes are lost. */
  method PutBeyondMaximum() returns (physical: seq<byte>, head: nat, size: nat)
    ensures physical == Ramp(15, 2) + Ramp(2, 13)
    ensures head == 2 && size == 15
  {
    var buffer := new ByteRingBuffer.WithMaxCapacity(10, 15);
    buffer.Put(Ramp(0, 17));
    assert buffer.Contents() == Ramp(2, 15);
    physical, head, size := buffer.buffer[..], buffer.headIndex, buffer.contentSize;
    FullRampLayout(physical, head, 2, 15);
  }

  /** The common start of two scenarios: 19 bytes into an array of 10 that may grow to 15. */
  method FilledToFifteen() returns (buffer: ByteRingBuffer)
    ensures fresh(buffer) && fresh(buffer.buffer) && buffer.Valid()
    ensures buffer.buffer.Length == 15 && buffer.maxCapacity == 15
    ensures buffer.headIndex == 4 && buffer.contentSize == 15
    ensures buffer.Contents() == Ramp(4, 15)
  {
    buffer := new ByteRingBuffer.WithMaxCapacity(10, 15);
    buffer.Put(Ramp(0, 19));
    assert buffer.Contents() == Ramp(4, 15);
  }

  /** The last 20 of the 23 bytes held after the second put. */
  lemma KeepAfterRaising()
    ensures Keep(Ramp(4, 15) + Ramp(19, 8), 20) == Ramp(7, 20)
  {
    RampsJoin(4, 15, 8);
    assert Keep(Ramp(4, 23), 20) == Ramp(4, 23)[3..];
  }

  /** After the maximum is raised to 20, 8 more bytes grow the array to 20 and overwrite 3 old bytes. */
  method PutAfterRaisingMaximum() returns (physical: seq<byte>, head: nat, size: nat)
    ensures physical == Ramp(24, 3) + Ramp(7, 17)
    ensures head == 3 && size == 20
  {
    var buffer := FilledToFifteen();
    var raised := buffer.ChangeMaxCapacity(20);
    buffer.Put(Ramp(19, 8));
    KeepAfterRaising();
    physical, head, size := buffer.buffer[..], buffer.headIndex, buffer.contentSize;
    FullRampLayout(physical, head, 7, 20);
  }

  /** Reading 11 of 15 bytes returns the oldest 11, leaves the array as it was and moves the head. */
  method ReadAfterPut() returns (read: Result<seq<byte>>, physical: seq<byte>, head: nat, size: nat)
    ensures read == Ok(Ramp(4, 11))
    ensures physical == Ramp(15, 4) + Ramp(4, 11)
    ensures head == (4 + 11) % 15 && size == 15 - 11
  {
    var buffer := FilledToFifteen();
    ghost var before := buffer.buffer[..];
    assert buffer.headIndex == 4 && |before| == 15;
    assert Logical(before, buffer.headIndex, |before|) == Ramp(4, 15);
    PhysicalOfFull(before, buffer.headIndex);
    assert Ramp(4, 15)[11..] == Ramp(15, 4);
    assert Ramp(4, 15)[..11] == Ramp(4, 11);
    assert before == Ramp(15, 4) + Ramp(4, 11);
    read := buffer.Read(11);
    physical, head, size := buffer.buffer[..], buffer.headIndex, buffer.contentSize;
    assert physical == before;
  }
}
