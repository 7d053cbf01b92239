/** get_all_bytes: it takes count() without the lock, in four loads of head_ and tail_,
    and then reads that many bytes, while other threads write. */
module UnlockedCounts {
  import opened MachineTypes
  import opened RingModel
  import opened RingRuns

  predicate OnlyWrites(steps: seq<Step>) {
    forall s :: s in steps ==> s.Write?
  }

  /** What writes make of a ring: it does not get emptier, and tail_ is moved only
      when that leaves the ring full. */
  ghost predicate Grown(r: Ring, later: Ring) {
    && Ok(r) && Ok(later) && |later.buf| == |r.buf| && later.destroyed == r.destroyed
    && Count(r) <= Count(later)
    && (later.tail == r.tail || Count(later) == Capacity(later))
  }

  lemma {:induction false} WriteGrows(r: Ring, data: seq<byte>)
    requires Ok(r)
    ensures Grown(r, WriteRing(r, data))
    decreases |data|
  {
    if data != [] {
      PutCount(r, data[0]);
      WriteGrows(Put(r, data[0]), data[1..]);
    }
  }

  lemma {:induction false} RunGrows(m: Monitor, steps: seq<Step>)
    requires Ok(m.ring) && Possible(m, steps) && OnlyWrites(steps)
    ensures Grown(m.ring, Run(m, steps).ring)
    decreases |steps|
  {
    if steps != [] {
      assert steps[0].Write?;
      WriteGrows(m.ring, steps[0].data);
      hide Grown;
      RunGrows(Observe(m, steps[0]), steps[1..]);
      GrownTwice(m.ring, Observe(m, steps[0]).ring, Run(m, steps).ring);
    } else {
      assert Grown(m.ring, m.ring);
    }
  }

  lemma GrownTwice(r: Ring, r1: Ring, r2: Ring)
    requires Grown(r, r1) && Grown(r1, r2)
    ensures Grown(r, r2)
  {
  }

  lemma WritesKeepCount(m: Monitor, steps: seq<Step>)
    requires Ok(m.ring) && Possible(m, steps) && OnlyWrites(steps)
    ensures Count(m.ring) <= Count(Run(m, steps).ring)
    ensures Run(m, steps).ring.destroyed == m.ring.destroyed
  {
    RunGrows(m, steps);
  }

  // ---- what an unlocked load can see -------------------------------------------------

  /** A write with the first k bytes of its block stored and head_ moved behind them;
      tail_ is moved last of all, if at all. */
  function Midway(r: Ring, data: seq<byte>, k: nat): (w: Ring)
    requires Ok(r) && k <= |data|
    ensures Ok(w) && |w.buf| == |r.buf|
  {
    var c := Cells(r.buf, r.head, data[..k]);
    Ring(c.0, c.1, r.tail, r.destroyed)
  }

  /** A moment of a run of writes: after some steps, and within the next one after it has
      stored some bytes of its block. The code moves head_ once for each memcpy, so a load
      can see some of these. */
  datatype Moment = Moment(step: nat, stored: nat)

  predicate InRun(steps: seq<Step>, t: Moment) {
    if t.step < |steps| then steps[t.step].Write? && t.stored <= |steps[t.step].data|
    else t.step == |steps| && t.stored == 0
  }

  function At(m: Monitor, steps: seq<Step>, t: Moment): (r: Ring)
    requires Ok(m.ring) && Possible(m, steps) && InRun(steps, t)
    ensures Ok(r) && |r.buf| == |m.ring.buf|
    decreases |steps|
  {
    if steps == [] then m.ring
    else if t.step == 0 then Midway(m.ring, steps[0].data, t.stored)
    else At(Observe(m, steps[0]), steps[1..], t.(step := t.step - 1))
  }

  /** The end of a run of writes, seen from a moment of it: either the ring is full then,
      or tail_ has not moved and head_ has not been overtaken. */
  ghost predicate Leaves(x: Ring, end: Ring) {
    && Ok(x) && Ok(end) && |x.buf| == |end.buf|
    && (Count(end) == Capacity(end) || (x.tail == end.tail && Count(x) <= Count(end)))
  }

  lemma MidwayLeaves(r: Ring, data: seq<byte>, k: nat)
    requires Ok(r) && k <= |data|
    ensures Leaves(Midway(r, data, k), WriteRing(r, data))
  {
    WriteContents(r, data);
    if !Overflows(r, |data|) {
      var x := WriteRing(r, data[..k]);
      WriteCells(r, data[..k]);
      assert Midway(r, data, k) == x;
      WriteAppend(r, data[..k], data[k..]);
      assert data == data[..k] + data[k..];
      WriteGrows(x, data[k..]);
    }
  }

  lemma LeavesAndGrows(x: Ring, r: Ring, end: Ring)
    requires Leaves(x, r) && Grown(r, end)
    ensures Leaves(x, end)
  {
  }

  lemma {:induction false} MomentLeaves(m: Monitor, steps: seq<Step>, t: Moment)
    requires Ok(m.ring) && Possible(m, steps) && OnlyWrites(steps) && InRun(steps, t)
    ensures Leaves(At(m, steps, t), Run(m, steps).ring)
    decreases |steps|
  {
    if steps == [] {
      assert Leaves(m.ring, m.ring);
    } else {
      assert steps[0].Write?;
      var m1 := Observe(m, steps[0]);
      if t.step == 0 {
        MidwayLeaves(m.ring, steps[0].data, t.stored);
        RunGrows(m1, steps[1..]);
        hide Leaves, Grown;
        LeavesAndGrows(At(m, steps, t), m1.ring, Run(m, steps).ring);
      } else {
        hide Leaves;
        MomentLeaves(m1, steps[1..], t.(step := t.step - 1));
      }
    }
  }

  // ---- the four loads ---------------------------------------------------------------

  /** count() in 32-bit arithmetic, when remain_bytes loads head1 and tail1 for its
      comparison and head2 and tail2 for its subtraction. */
  function TornCount(size: nat, head1: nat, tail1: nat, head2: nat, tail2: nat): nat
    requires size >= 1
  {
    var remain := if head1 >= tail1 then size - 1 - (head2 - tail2) else tail2 - head2 - 1;
    (size - 1 - remain) % 0x1_0000_0000
  }

  predicate SameSide(head1: nat, tail1: nat, head2: nat, tail2: nat) {
    head1 >= tail1 <==> head2 >= tail2
  }

  /** seen has the head_ and tail_ of the subtraction. If they are on the sides that the
      comparison saw, the count is that of seen. Otherwise no ring of this size can hold
      so much; and if then the comparison saw head_ in front, the count does not even fit
      a C++ int. */
  lemma TornCountIs(head1: nat, tail1: nat, seen: Ring)
    requires Ok(seen) && |seen.buf| <= 0x8000_0000
    requires head1 < |seen.buf| && tail1 < |seen.buf|
    ensures var n := TornCount(|seen.buf|, head1, tail1, seen.head, seen.tail);
            if SameSide(head1, tail1, seen.head, seen.tail) then n == Count(seen)
            else n > Capacity(seen) && (head1 >= tail1 ==> n > 0x7FFF_FFFF)
  {
  }

  /** head_ and tail_ from any two moments never count more than the ring holds in the end. */
  lemma MixedCountIsThere(x: Ring, y: Ring, end: Ring)
    requires Leaves(x, end) && Leaves(y, end)
    ensures Count(end.(head := x.head, tail := y.tail)) <= Count(end)
  {
  }

  /** The moments of the four loads; their order is up to the compiler. */
  datatype Loads = Loads(head1: Moment, tail1: Moment, head2: Moment, tail2: Moment)

  predicate LoadsInRun(steps: seq<Step>, l: Loads) {
    InRun(steps, l.head1) && InRun(steps, l.tail1) && InRun(steps, l.head2) && InRun(steps, l.tail2)
  }

  function LoadedCount(m: Monitor, steps: seq<Step>, l: Loads): nat
    requires Ok(m.ring) && Possible(m, steps) && LoadsInRun(steps, l)
  {
    TornCount(|m.ring.buf|, At(m, steps, l.head1).head, At(m, steps, l.tail1).tail,
              At(m, steps, l.head2).head, At(m, steps, l.tail2).tail)
  }

  /** Both pairs of loads see head_ on the same side of tail_. */
  predicate LoadsAgree(m: Monitor, steps: seq<Step>, l: Loads)
    requires Ok(m.ring) && Possible(m, steps) && LoadsInRun(steps, l)
  {
    SameSide(At(m, steps, l.head1).head, At(m, steps, l.tail1).tail,
             At(m, steps, l.head2).head, At(m, steps, l.tail2).tail)
  }

  /** Whatever is written between the loads and after them: the count is at most what the
      ring holds in the end iff the loads agree. */
  lemma LoadedCountFitsIffLoadsAgree(m: Monitor, steps: seq<Step>, l: Loads)
    requires Ok(m.ring) && |m.ring.buf| <= 0x8000_0000 && Possible(m, steps) && OnlyWrites(steps)
    requires LoadsInRun(steps, l)
    ensures var n := LoadedCount(m, steps, l);
            if LoadsAgree(m, steps, l) then n <= Count(Run(m, steps).ring) else n > Capacity(m.ring)
  {
    var x, y, end := At(m, steps, l.head2), At(m, steps, l.tail2), Run(m, steps).ring;
    MomentLeaves(m, steps, l.head2);
    MomentLeaves(m, steps, l.tail2);
    hide Leaves, Run, At, Possible, InRun;
    TornCountIs(At(m, steps, l.head1).head, At(m, steps, l.tail1).tail, end.(head := x.head, tail := y.tail));
    MixedCountIsThere(x, y, end);
  }

  // ---- the locked read ----------------------------------------------------------------

  /** A read of n bytes can run, and delivers the oldest n live bytes. */
  ghost predicate ReadTakesOldest(m: Monitor, n: nat) {
    && Ok(m.ring) && Enabled(m.ring, Read(n))
    && OldestAt(m) + n <= |m.written|
    && var m' := Observe(m, Read(n));
       && m'.delivered == m.delivered + m.written[OldestAt(m)..OldestAt(m) + n]
       && Contents(m'.ring) == m.written[OldestAt(m) + n..]
  }

  /** Whatever happens from now on, a read of n bytes is never possible. */
  ghost predicate NeverThere(m: Monitor, n: nat)
    requires Ok(m.ring)
  {
    forall later :: Possible(m, later) ==> !Enabled(Run(m, later).ring, Read(n))
  }

  lemma ThereOrNever(m: Monitor, n: nat)
    requires Inv(m) && !m.ring.destroyed
    ensures n <= Count(m.ring) ==> Enabled(m.ring, Read(n)) && ReadTakesOldest(m, n)
    ensures n > Capacity(m.ring) ==> !Enabled(m.ring, Read(n)) && NeverThere(m, n)
  {
    hide Run, Possible, Contents, DeliveryInv, LedgerInv, Count;
    if n <= Count(m.ring) {
      StreamRead(m, n);
    }
  }

  lemma RunsOn(r: Ring, before: seq<Step>, between: seq<Step>)
    requires Fresh(r) && Possible(Start(r), before) && OnlyWrites(between)
    requires var m := Run(Start(r), before); !m.ring.destroyed && Possible(m, between)
    ensures var m := Run(Start(r), before); var m1 := Run(m, between);
            Inv(m1) && !m1.ring.destroyed && Count(m.ring) <= Count(m1.ring)
  {
    var m := Run(Start(r), before);
    InvFromFresh(r, before);
    hide Inv, Run, Possible;
    InvHolds(m, between);
    WritesKeepCount(m, between);
  }

  /** After any history the single reader loads its count while others write, and they
      may write on before its read gets the lock. The read does not wait, and returns
      exactly that many bytes, the oldest ones live when it runs, iff the loads agree. If
      they do not, so many bytes will never be there, whatever happens next. */
  lemma GetAllWaitsIffLoadsDisagree(r: Ring, before: seq<Step>, between: seq<Step>, l: Loads)
    requires Fresh(r) && |r.buf| <= 0x8000_0000
    requires Possible(Start(r), before) && OnlyWrites(between) && LoadsInRun(between, l)
    requires var m := Run(Start(r), before); !m.ring.destroyed && Possible(m, between)
    ensures var m := Run(Start(r), before);
            var n, m1 := LoadedCount(m, between, l), Run(m, between);
            && (Enabled(m1.ring, Read(n)) <==> LoadsAgree(m, between, l))
            && if LoadsAgree(m, between, l) then ReadTakesOldest(m1, n) else NeverThere(m1, n)
  {
    hide Run, Possible, Count, Contents, Inv, Enabled, LoadedCount, LoadsAgree, ReadTakesOldest, NeverThere;
    var m := Run(Start(r), before);
    RunsOn(r, before, between);
    LoadedCountFitsIffLoadsAgree(m, between, l);
    ThereOrNever(Run(m, between), LoadedCount(m, between, l));
  }

  /** So a count whose loads all see the same moment is always safe. */
  lemma GetAllNeverBlocks(r: Ring, before: seq<Step>, between: seq<Step>, t: Moment)
    requires Fresh(r) && Possible(Start(r), before) && OnlyWrites(between) && InRun(between, t)
    requires var m := Run(Start(r), before); !m.ring.destroyed && Possible(m, between)
    ensures var m := Run(Start(r), before);
            ReadTakesOldest(Run(m, between), Count(At(m, between, t)))
  {
    hide Run, Possible, Contents, Inv, Enabled, At, ReadTakesOldest, NeverThere;
    var m := Run(Start(r), before);
    RunsOn(r, before, between);
    MomentLeaves(m, between, t);
    ThereOrNever(Run(m, between), Count(At(m, between, t)));
  }

  // ---- counts that go wrong -------------------------------------------------------------

  /** A ring of size 4, and what a block of six bytes makes of it. */
  const EMPTY: Ring := Ring([0, 0, 0, 0], 0, 0, false)
  const FULL: Ring := Ring([5, 6, 3, 4], 2, 3, false)
  const LAP: seq<Step> := [Write([1, 2, 3, 4, 5, 6])]

  const BEGIN: Moment := Moment(0, 0)
  const END: Moment := Moment(1, 0)

  lemma {:induction false} WritesOne(m: Monitor, data: seq<byte>)
    requires Ok(m.ring) && |data| < 0x1_0000_0000
    ensures Possible(m, [Write(data)]) && OnlyWrites([Write(data)])
    ensures Run(m, [Write(data)]).ring == WriteRing(m.ring, data)
    ensures At(m, [Write(data)], BEGIN).head == m.ring.head && At(m, [Write(data)], BEGIN).tail == m.ring.tail
    ensures At(m, [Write(data)], END) == WriteRing(m.ring, data)
    ensures At(m, [Write(data)], Moment(0, |data|)) == Midway(m.ring, data, |data|)
  {
    var steps := [Write(data)];
    assert steps[1..] == [] && data[..0] == [];
    hide WriteRing;
    var m1 := Observe(m, steps[0]);
    assert Possible(m1, []) && Run(m1, []) == m1;
    assert At(m, steps, END) == At(m1, [], Moment(0, 0));
  }

  /** One overflowing write to a full ring between the loads is enough. If it comes after
      both loads of the comparison, the count is 7 and the read waits as long as the ring
      lives; if it comes after the first load, the count is -1 as an int and get_all_bytes
      does not get as far as its read. In the third run the last three loads fall between
      the moves of head_ and of tail_ within one write. */
  lemma LoadsCanDisagree()
    ensures Fresh(EMPTY) && Possible(Start(EMPTY), LAP)
    ensures var m, one, three := Run(Start(EMPTY), LAP), [Write([7])], [Write([7, 8, 9])];
            && m.ring == FULL && OnlyWrites(one) && OnlyWrites(three)
            && Possible(m, one) && LoadedCount(m, one, Loads(BEGIN, BEGIN, END, END)) == 7
            && Possible(m, three) && LoadedCount(m, three, Loads(BEGIN, END, END, END)) == 0xFFFF_FFFF
            && LoadedCount(m, one, Loads(BEGIN, Moment(0, 1), Moment(0, 1), Moment(0, 1))) == 4
  {
    var m := Run(Start(EMPTY), LAP);
    WritesOne(Start(EMPTY), [1, 2, 3, 4, 5, 6]);
    WritesOne(m, [7]);
    WritesOne(m, [7, 8, 9]);
    Stores();
    StoresHalf();
    hide *;
  }

  lemma Stores()
    ensures WriteRing(EMPTY, [1, 2, 3, 4, 5, 6]) == FULL
    ensures WriteRing(FULL, [7]) == Ring([5, 6, 7, 4], 3, 0, false)
    ensures WriteRing(FULL, [7, 8, 9]) == Ring([9, 6, 7, 8], 1, 2, false)
  {
  }

  lemma StoresHalf()
    ensures Midway(FULL, [7], 1) == Ring([5, 6, 7, 4], 3, 3, false)
  {
    var data: seq<byte> := [7];
    assert data[..1] == data && data[1..] == [];
    assert Cells(FULL.buf[2 := 7], 3, []) == (FULL.buf[2 := 7], 3);
  }
}
