/** The mutex-protected byte ring of circular_buffer.cc. Each method is the section
    that runs while the lock is held; a wait on the condition variable has
    already ended, either because its predicate holds or by its timeout. */
module CircularBuffers {
  import opened MachineTypes
  import opened RingModel
  import Runs = RingRuns

  datatype BufferError = BUF_NOERROR | BUF_OVERFLOW | BUF_NODATA | BUF_TIMEOUT

  function Min(a: uint32, b: uint32): (m: uint32)
    ensures m <= a && m <= b && (m == a || m == b)
  {
    if a < b then a else b
  }

  /** (index + n) % size; the addition does not wrap around 32 bits. */
  function Advance(index: uint32, n: uint32, size: uint32): (next: uint32)
    requires index < size && index as int + n as int <= size as int
    ensures next as nat == Wrap(size as nat, index as nat + n as nat)
  {
    WrapIsMod(size as nat, index as nat + n as nat);
    (index + n) % size
  }

  method Memcpy(dst: array<byte>, at: nat, src: seq<byte>)
    requires at + |src| <= dst.Length
    modifies dst
    ensures dst[..] == Splice(old(dst[..]), at, src)
  {
    forall i | 0 <= i < |src| {
      dst[at + i] := src[i];
    }
  }

  /** The copy loop of write: stores a block of any length, several laps of the ring
      included, and returns the new head_. */
  method CopyIn(buf: array<byte>, first: uint32, data: seq<byte>) returns (head: uint32)
    requires first as int < buf.Length < 0x1_0000_0000 && |data| < 0x1_0000_0000
    modifies buf
    ensures head as int < buf.Length
    ensures (buf[..], head as nat) == Cells(old(buf[..]), first as nat, data)
  {
    ghost var was := buf[..];
    assert Cells(was, first as nat, data[..0]) == (was, first as nat);
    hide Cells, Advance, Splice;
    head := first;
    var size, lenData, done := buf.Length as uint32, |data| as uint32, 0;
    while lenData > 0
      invariant head < size && done + lenData as int == |data|
      invariant (buf[..], head as nat) == Cells(was, first as nat, data[..done])
    {
      // one memcpy reaches up to the last cell at most
      var c := Min(lenData, size - head);
      var chunk := data[done..done + c as int];
      CellsRound(was, first as nat, data, done, |chunk|, buf[..], head as nat);
      Memcpy(buf, head as nat, chunk);
      lenData := lenData - c;
      done := done + |chunk|;
      head := Advance(head, c, size);
    }
    assert data[..done] == data;
  }

  /** The memcpy of read: c bytes from cell tail on, behind the done bytes copied before. */
  method CopyChunk(r: Ring, tail: nat, data: array<byte>, done: nat, c: nat, ghost was: seq<byte>)
    requires Ok(r) && Taken(r, was, done, tail, data[..])
    requires done + c <= Count(r) && done + c <= data.Length && tail + c <= |r.buf|
    modifies data
    ensures Taken(r, was, done + c, Wrap(|r.buf|, tail + c), data[..])
  {
    hide *;
    ReadRound(r, was, done, tail, data[..], c);
    Memcpy(data, done, r.buf[tail..tail + c]);
  }

  /** The copy loop of read: takes the oldest len live bytes and returns the new tail_. */
  method CopyOut(r: Ring, data: array<byte>, len: uint32) returns (tail: uint32)
    requires Ok(r) && |r.buf| < 0x1_0000_0000
    requires len as int <= Count(r) && len as int <= data.Length
    modifies data
    ensures tail as int < |r.buf| && Taken(r, old(data[..]), len as nat, tail as nat, data[..])
  {
    assert r.tail < |r.buf|;
    hide *;
    ghost var was := data[..];
    TakenNone(r, was);
    tail := r.tail as uint32;
    var size, lenData, done := |r.buf| as uint32, len, 0;
    while lenData > 0
      invariant tail < size && done + lenData as int == len as int
      invariant Taken(r, was, done, tail as nat, data[..])
    {
      var c := Min(lenData, size - tail);
      CopyChunk(r, tail as nat, data, done, c as nat, was);
      lenData := lenData - c;
      done := done + c as int;
      tail := Advance(tail, c, size);
    }
  }

  class CircularBuffer {
    var buf: array<byte>
    var size: uint32
    var head: uint32
    var tail: uint32
    var destructorCall: bool

    ghost predicate Valid()
      reads this
    {
      buf.Length == size as int && head < size && tail < size
    }

    ghost function Value(): (r: Ring)
      reads this, buf
      requires Valid()
      ensures Ok(r)
    {
      Ring(buf[..], head as nat, tail as nat, destructorCall)
    }

    constructor (sizeBytes: uint32 := 4096)
      requires sizeBytes >= 1
      ensures Valid() && fresh(buf) && size == sizeBytes
      ensures Contents(Value()) == [] && !destructorCall
      ensures forall i :: 0 <= i < buf.Length ==> buf[i] == 0
    {
      size := sizeBytes;
      destructorCall := false;
      head, tail := 0, 0;
      buf := new byte[sizeBytes as int](_ => 0);
    }

    function RemainBytes(): (val: uint32)
      reads this, buf
      requires Valid()
      ensures val as int == size as int - 1 - |Contents(Value())|
    {
      if head >= tail then (size - 1) - (head - tail) else tail - head - 1
    }

    function CountBytes(): (val: uint32)
      reads this, buf
      requires Valid()
      ensures val as int == |Contents(Value())|
    {
      (size - 1) - RemainBytes()
    }

    /** What ends the wait of read: the bytes are there, or the ring is destroyed. */
    predicate CheckFreeSpace(len: uint32): (free: bool)
      reads this, buf
      requires Valid()
      ensures free <==> destructorCall || len as int <= |Contents(Value())|
      ensures free <==>
                || Runs.Enabled(Value(), Runs.Read(len as nat))
                || Runs.Enabled(Value(), Runs.GiveUp(len as nat, false))
    {
      if !destructorCall then CountBytes() >= len else true
    }

    method Write(data: seq<byte>) returns (retVal: BufferError)
      requires Valid() && |data| < 0x1_0000_0000
      modifies this`head, this`tail, buf
      ensures Valid() && Value() == WriteRing(old(Value()), data)
      ensures Runs.Enabled(old(Value()), Runs.Write(data)) && Value() == Runs.Next(old(Value()), Runs.Write(data))
      ensures Contents(Value()) == Last(size as int - 1, old(Contents(Value())) + data)
      ensures retVal == if old(|Contents(Value())|) + |data| > size as int - 1
                        then BUF_OVERFLOW else BUF_NOERROR
    {
      ghost var r := Value();
      hide Contents, Cells, WriteRing, Last, Wrap, RemainBytes, Advance, Count;
      retVal := BUF_NOERROR;
      var overflow := |data| as uint32 > RemainBytes();
      assert overflow <==> Overflows(r, |data|);
      head := CopyIn(buf, head, data);
      if overflow {
        tail := Advance(head, 1, size);
        retVal := BUF_OVERFLOW;
      }
      ghost var now := buf[..];
      WriteDone(r, data, now, head as nat, tail as nat);
      assert Value() == Ring(now, head as nat, tail as nat, r.destroyed);
    }

    /** With timeout 0 the wait ends only once CheckFreeSpace holds. */
    method Read(data: array<byte>, len: uint32, timeout: uint32) returns (retVal: BufferError)
      requires Valid() && data != buf && len as int <= data.Length
      requires timeout > 0 || CheckFreeSpace(len)
      modifies this`tail, data
      ensures Valid() && data[len..] == old(data[len..])
      ensures retVal == if !destructorCall && len as int <= old(|Contents(Value())|)
                        then BUF_NOERROR else BUF_TIMEOUT
      ensures retVal == BUF_NOERROR ==>
                && Value() == ReadRing(old(Value()), len as nat)
                && data[..len] == old(Contents(Value()))[..len]
                && Contents(Value()) == old(Contents(Value()))[len..]
      ensures retVal == BUF_TIMEOUT ==> Value() == old(Value()) && data[..] == old(data[..])
      ensures timeout == 0 && !destructorCall ==> retVal == BUF_NOERROR
      ensures var s := if retVal == BUF_NOERROR then Runs.Read(len as nat) else Runs.GiveUp(len as nat, timeout > 0);
              Runs.Enabled(old(Value()), s) && Value() == Runs.Next(old(Value()), s)
    {
      ghost var r, was := Value(), data[..];
      hide Contents, ReadRing, Taken;
      retVal := BUF_NOERROR;
      if CountBytes() < len || destructorCall {
        return BUF_TIMEOUT;
      }
      tail := CopyOut(Ring(buf[..], head as nat, tail as nat, destructorCall), data, len);
      ReadDone(r, was, len as nat, tail as nat, data[..]);
    }

    method ClearBuffer()
      requires Valid()
      modifies this`head, this`tail
      ensures Valid() && Value() == Runs.Next(old(Value()), Runs.Clear) && Contents(Value()) == []
    {
      head, tail := 0, 0;
    }

    /** The locked effect of the destructor: waiting readers give up. */
    method Destroy()
      requires Valid()
      modifies this`destructorCall
      ensures Valid() && Value() == Runs.Next(old(Value()), Runs.Destroy) == old(Value()).(destroyed := true)
    {
      destructorCall := true;
    }

    /** On a destroyed ring the byte is whatever the local variable held. */
    method ReadNextByte() returns (data: byte)
      requires Valid() && CheckFreeSpace(1)
      modifies this`tail
      ensures Valid()
      ensures destructorCall ==> Value() == old(Value())
      ensures !destructorCall ==>
                && Value() == ReadRing(old(Value()), 1)
                && [data] + Contents(Value()) == old(Contents(Value()))
    {
      var cell := new byte[1];
      var _ := Read(cell, 1, 0);
      data := cell[0];
      assert !destructorCall ==> cell[..1] == [data];
    }

    /** Sequential use; count() is stored in a C++ int. A destroyed ring yields zero bytes. */
    method GetAllBytes() returns (data: seq<byte>)
      requires Valid() && size as int <= 0x8000_0000
      modifies this`tail
      ensures Valid()
      ensures !destructorCall ==> data == old(Contents(Value())) && Contents(Value()) == []
      ensures destructorCall ==>
                && Value() == old(Value())
                && data == seq(old(|Contents(Value())|), _ => 0 as byte)
    {
      var len := CountBytes();
      var bytes := new byte[len as int](_ => 0);
      var _ := Read(bytes, len, 0);
      data := bytes[..];
      assert bytes[..] == bytes[..len];
    }
  }
}
