/** The byte ring of circular_buffer.cc on values: its fields, what they mean,
    and the bounded drop-oldest queue they stand for. */
module RingModel {
  import opened MachineTypes

  /** buf_, head_, tail_ and destructor_call_; size_ is |buf|. */
  datatype Ring = Ring(buf: seq<byte>, head: nat, tail: nat, destroyed: bool)

  predicate Ok(r: Ring) {
    r.head < |r.buf| && r.tail < |r.buf|
  }

  /** One slot is always left empty, so that head == tail means empty. */
  function Capacity(r: Ring): nat
    requires Ok(r)
  {
    |r.buf| - 1
  }

  function Count(r: Ring): (c: nat)
    requires Ok(r)
    ensures c <= Capacity(r)
  {
    if r.head >= r.tail then r.head - r.tail else |r.buf| - r.tail + r.head
  }

  /** x modulo n for the only values the ring produces: at most one lap ahead. */
  function Wrap(n: nat, x: nat): (w: nat)
    requires x < 2 * n
    ensures w < n
  {
    if x < n then x else x - n
  }

  lemma WrapIsMod(n: nat, x: nat)
    requires x < 2 * n
    ensures x % n == Wrap(n, x)
  {
    if x >= n {
      assert x == n * 1 + (x - n);
    }
  }

  /** The live bytes, oldest first. */
  function Contents(r: Ring): (q: seq<byte>)
    requires Ok(r)
    ensures |q| == Count(r)
  {
    seq(Count(r), i requires 0 <= i < Count(r) => r.buf[Wrap(|r.buf|, r.tail + i)])
  }

  /** Storing one byte: a full ring first gives up its oldest byte. */
  function Put(r: Ring, b: byte): (p: Ring)
    requires Ok(r)
    ensures Ok(p) && |p.buf| == |r.buf|
  {
    var n := |r.buf|;
    var h := Wrap(n, r.head + 1);
    Ring(r.buf[r.head := b], h, if Count(r) == n - 1 then Wrap(n, h + 1) else r.tail, r.destroyed)
  }

  /** Storing a block one byte at a time. */
  function WriteRing(r: Ring, data: seq<byte>): (w: Ring)
    requires Ok(r)
    ensures Ok(w) && |w.buf| == |r.buf| && w.destroyed == r.destroyed
    decreases |data|
  {
    if data == [] then r else WriteRing(Put(r, data[0]), data[1..])
  }

  function ReadRing(r: Ring, len: nat): (w: Ring)
    requires Ok(r) && len <= Count(r)
    ensures Ok(w) && |w.buf| == |r.buf|
  {
    r.(tail := Wrap(|r.buf|, r.tail + len))
  }

  function ClearRing(r: Ring): Ring {
    r.(head := 0, tail := 0)
  }

  /** Whether a block of n bytes pushes out live or own bytes. */
  predicate Overflows(r: Ring, n: nat)
    requires Ok(r)
  {
    Count(r) + n > Capacity(r)
  }

  /** What memcpy leaves in a block: src from position at on, the rest as before. */
  function Splice<T>(s: seq<T>, at: nat, src: seq<T>): (t: seq<T>)
    requires at + |src| <= |s|
    ensures |t| == |s|
  {
    s[..at] + src + s[at + |src|..]
  }

  // ---- the ring is a drop-oldest queue -------------------------------------

  lemma PutContents(r: Ring, b: byte)
    requires Ok(r)
    ensures Contents(Put(r, b)) == Last(Capacity(r), Contents(r) + [b])
  {
    var p, q := Put(r, b), Contents(r) + [b];
    var lost := if Count(r) == Capacity(r) then 1 else 0;
    assert Count(p) == Count(r) + 1 - lost;
    forall i | 0 <= i < Count(p)
      ensures Contents(p)[i] == q[i + lost]
    {
      var at := Wrap(|r.buf|, p.tail + i);
      assert Contents(p)[i] == p.buf[at];
      if i + lost < Count(r) {
        assert at == Wrap(|r.buf|, r.tail + i + lost) && at != r.head;
      } else {
        assert at == r.head;
      }
    }
    assert Contents(p) == Last(Capacity(r), q);
  }

  lemma {:induction false} WriteContents(r: Ring, data: seq<byte>)
    requires Ok(r)
    ensures Contents(WriteRing(r, data)) == Last(Capacity(r), Contents(r) + data)
    decreases |data|
  {
    if data == [] {
      assert Contents(r) + data == Contents(r);
    } else {
      var p := Put(r, data[0]);
      assert Capacity(p) == Capacity(r) && WriteRing(r, data) == WriteRing(p, data[1..]);
      PutContents(r, data[0]);
      hide *;
      WriteContents(p, data[1..]);
      LastOfMore(Capacity(r), Contents(r), data);
    }
  }

  lemma LastOfMore<T>(n: nat, s: seq<T>, t: seq<T>)
    requires t != []
    ensures Last(n, Last(n, s + [t[0]]) + t[1..]) == Last(n, s + t)
  {
    hide Last;
    LastAgain(n, s + [t[0]], t[1..]);
    assert s + [t[0]] + t[1..] == s + t;
  }

  /** In plain terms: at most size_ - 1 bytes are live, the newest ones. */
  lemma WriteKeepsNewest(r: Ring, data: seq<byte>)
    requires Ok(r)
    ensures var all, live := Contents(r) + data, Contents(WriteRing(r, data));
            && |live| == (if |all| < |r.buf| then |all| else |r.buf| - 1)
            && live == all[|all| - |live|..]
  {
    hide Contents, WriteRing, Count;
    WriteContents(r, data);
  }

  lemma LastAgain<T>(n: nat, s: seq<T>, t: seq<T>)
    ensures Last(n, Last(n, s) + t) == Last(n, s + t)
  {
  }

  /** Two blocks in a row leave the same buf_, head_ and tail_ as one block,
      overflowing or not; the joint block overflows iff one of the two does. */
  lemma {:induction false} WriteAppend(r: Ring, x: seq<byte>, y: seq<byte>)
    requires Ok(r)
    ensures WriteRing(WriteRing(r, x), y) == WriteRing(r, x + y)
    ensures Overflows(r, |x + y|) <==> Overflows(r, |x|) || Overflows(WriteRing(r, x), |y|)
    decreases |x|
  {
    if x == [] {
      assert x + y == y;
    } else {
      assert (x + y)[0] == x[0] && (x + y)[1..] == x[1..] + y;
      WriteAppend(Put(r, x[0]), x[1..], y);
    }
    WriteContents(r, x);
  }

  lemma ReadContents(r: Ring, len: nat)
    requires Ok(r) && len <= Count(r)
    ensures Contents(ReadRing(r, len)) == Contents(r)[len..]
  {
    var w := ReadRing(r, len);
    forall i | 0 <= i < Count(w)
      ensures Contents(w)[i] == Contents(r)[len + i]
    {
      assert Wrap(|r.buf|, w.tail + i) == Wrap(|r.buf|, r.tail + (len + i));
    }
  }

  /** Live bytes that do not reach past the end of the storage are one memcpy. */
  lemma ContentsChunk(r: Ring, from: nat, n: nat)
    requires Ok(r) && from + n <= Count(r) && Wrap(|r.buf|, r.tail + from) + n <= |r.buf|
    ensures var at := Wrap(|r.buf|, r.tail + from); Contents(r)[from..from + n] == r.buf[at..at + n]
  {
    var at := Wrap(|r.buf|, r.tail + from);
    var live, cells := Contents(r)[from..from + n], r.buf[at..at + n];
    forall i | 0 <= i < n
      ensures live[i] == cells[i]
    {
      assert Wrap(|r.buf|, r.tail + (from + i)) == at + i;
    }
  }

  /** Halfway through read's loop: the first done live bytes are in the caller's block,
      which was the block was, and tail_ has moved past them. */
  ghost predicate Taken(r: Ring, was: seq<byte>, done: nat, tail: nat, now: seq<byte>)
    requires Ok(r)
  {
    && done <= Count(r) && done <= |was|
    && tail == Wrap(|r.buf|, r.tail + done)
    && now == Contents(r)[..done] + was[done..]
  }

  lemma TakenNone(r: Ring, was: seq<byte>)
    requires Ok(r)
    ensures Taken(r, was, 0, r.tail, was)
  {
    assert Contents(r)[..0] + was[0..] == was;
  }

  /** One round of read's loop, which copies c bytes from cell tail on. */
  lemma ReadRound(r: Ring, was: seq<byte>, done: nat, tail: nat, now: seq<byte>, c: nat)
    requires Ok(r) && Taken(r, was, done, tail, now)
    requires done + c <= Count(r) && done + c <= |now| && tail + c <= |r.buf|
    ensures Taken(r, was, done + c, Wrap(|r.buf|, tail + c), Splice(now, done, r.buf[tail..tail + c]))
  {
    var q := Contents(r);
    ContentsChunk(r, done, c);
    assert now[..done] + q[done..done + c] == q[..done + c];
    assert now[done + c..] == was[done + c..];
  }

  /** Reading a and then b bytes is reading a + b bytes. */
  lemma ReadTwice(r: Ring, a: nat, b: nat)
    requires Ok(r) && a + b <= Count(r)
    ensures b <= Count(ReadRing(r, a))
    ensures ReadRing(ReadRing(r, a), b) == ReadRing(r, a + b)
    ensures Contents(r)[..a] + Contents(ReadRing(r, a))[..b] == Contents(r)[..a + b]
  {
    ReadContents(r, a);
  }

  // ---- the copy loop of write ----------------------------------------------

  /** buf_ and head_ after storing a block from head_ on; tail_ is not looked at. */
  function Cells(buf: seq<byte>, head: nat, data: seq<byte>): (c: (seq<byte>, nat))
    requires head < |buf|
    ensures |c.0| == |buf| && c.1 < |buf|
    decreases |data|
  {
    if data == [] then (buf, head)
    else Cells(buf[head := data[0]], Wrap(|buf|, head + 1), data[1..])
  }

  lemma {:induction false} CellsAppend(buf: seq<byte>, head: nat, x: seq<byte>, y: seq<byte>)
    requires head < |buf|
    ensures Cells(buf, head, x + y) == var c := Cells(buf, head, x); Cells(c.0, c.1, y)
    decreases |x|
  {
    if x == [] {
      assert x + y == y;
    } else {
      assert (x + y)[0] == x[0] && (x + y)[1..] == x[1..] + y;
      CellsAppend(buf[head := x[0]], Wrap(|buf|, head + 1), x[1..], y);
    }
  }

  /** A block that does not reach past the end of the storage is one memcpy. */
  lemma {:induction false} CellsChunk(buf: seq<byte>, head: nat, chunk: seq<byte>)
    requires head + |chunk| <= |buf| && head < |buf|
    ensures Cells(buf, head, chunk)
         == (Splice(buf, head, chunk), Wrap(|buf|, head + |chunk|))
    decreases |chunk|
  {
    if chunk == [] {
      assert buf[..head] + chunk + buf[head..] == buf;
    } else if |chunk| == 1 {
      assert buf[head := chunk[0]] == buf[..head] + chunk + buf[head + 1..];
    } else {
      var b := buf[head := chunk[0]];
      CellsChunk(b, head + 1, chunk[1..]);
      assert b[..head + 1] + chunk[1..] + b[head + |chunk|..]
          == buf[..head] + chunk + buf[head + |chunk|..];
    }
  }

  /** One round of write's loop, which stores c more bytes of the block. */
  lemma CellsRound(buf: seq<byte>, head: nat, data: seq<byte>, done: nat, c: nat, now: seq<byte>, at: nat)
    requires head < |buf| && done + c <= |data|
    requires Cells(buf, head, data[..done]) == (now, at) && at + c <= |now|
    ensures Cells(buf, head, data[..done + c])
         == (Splice(now, at, data[done..done + c]), Wrap(|buf|, at + c))
  {
    CellsAppend(buf, head, data[..done], data[done..done + c]);
    assert data[..done] + data[done..done + c] == data[..done + c];
    CellsChunk(now, at, data[done..done + c]);
  }

  /** What write does -- copy the block, then put tail_ right behind head_ if the
      block did not fit -- is the byte-at-a-time drop-oldest write. */
  lemma {:induction false} WriteCells(r: Ring, data: seq<byte>)
    requires Ok(r)
    ensures var c := Cells(r.buf, r.head, data);
            WriteRing(r, data) == Ring(c.0, c.1,
              if Overflows(r, |data|) then Wrap(|r.buf|, c.1 + 1) else r.tail, r.destroyed)
    decreases |data|
  {
    if data != [] {
      PutCount(r, data[0]);
      WriteCells(Put(r, data[0]), data[1..]);
    }
  }

  lemma PutCount(r: Ring, b: byte)
    requires Ok(r)
    ensures Count(Put(r, b)) == if Count(r) == Capacity(r) then Count(r) else Count(r) + 1
  {
  }

  /** The state write leaves behind, from the fields it leaves behind. */
  lemma WriteDone(r: Ring, data: seq<byte>, buf: seq<byte>, head: nat, tail: nat)
    requires Ok(r) && (buf, head) == Cells(r.buf, r.head, data)
    requires tail == if Overflows(r, |data|) then Wrap(|buf|, head + 1) else r.tail
    ensures Ring(buf, head, tail, r.destroyed) == WriteRing(r, data)
    ensures Contents(WriteRing(r, data)) == Last(Capacity(r), Contents(r) + data)
  {
    WriteCells(r, data);
    WriteContents(r, data);
  }

  /** The state read leaves behind, and what it copied out. */
  lemma ReadDone(r: Ring, was: seq<byte>, len: nat, tail: nat, now: seq<byte>)
    requires Ok(r) && Taken(r, was, len, tail, now)
    ensures |now| == |was| && now[..len] == Contents(r)[..len] && now[len..] == was[len..]
    ensures r.(tail := tail) == ReadRing(r, len)
    ensures Contents(ReadRing(r, len)) == Contents(r)[len..]
  {
    ReadContents(r, len);
  }
}
