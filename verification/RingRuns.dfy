/** Whole runs of the byte ring: any number of threads, each locked section one step. */
module RingRuns {
  import opened MachineTypes
  import opened RingModel

  datatype Step =
    | Write(data: seq<byte>)
    | Read(len: nat)
    | GiveUp(len: nat, timed: bool)  // read returned BUF_TIMEOUT
    | Clear
    | Destroy

  /** When a step's locked section can run; a read waits otherwise. */
  predicate Enabled(r: Ring, s: Step)
    requires Ok(r)
  {
    match s
    case Write(data) => |data| < 0x1_0000_0000
    case Read(len) => !r.destroyed && len <= Count(r)
    case GiveUp(len, timed) => r.destroyed || (timed && Count(r) < len)
    case Clear => true
    case Destroy => true
  }

  function Next(r: Ring, s: Step): (r': Ring)
    requires Ok(r) && Enabled(r, s)
    ensures Ok(r') && |r'.buf| == |r.buf|
  {
    match s
    case Write(data) => WriteRing(r, data)
    case Read(len) => ReadRing(r, len)
    case GiveUp(_, _) => r
    case Clear => ClearRing(r)
    case Destroy => r.(destroyed := true)
  }

  /** The ring together with what an outside observer has seen so far. */
  datatype Monitor = Monitor(
    ring: Ring,
    written: seq<byte>,     // all blocks passed to write, in lock order
    delivered: seq<byte>,   // all bytes copied out by read, in lock order
    positions: seq<nat>,    // for each delivered byte, its index in written
    clearedAt: nat,         // |written| at the last clear
    dropped: nat,           // bytes pushed out by overflow or thrown away by clear
    overflows: nat,         // writes that returned BUF_OVERFLOW
    clears: nat)

  function Start(r: Ring): Monitor {
    Monitor(r, [], [], [], 0, 0, 0, 0)
  }

  function Observe(m: Monitor, s: Step): (m': Monitor)
    requires Ok(m.ring) && Enabled(m.ring, s)
    ensures m'.ring == Next(m.ring, s)
  {
    var r := m.ring;
    var m1 := m.(ring := Next(r, s));
    match s
    case Write(data) =>
      var over := Overflows(r, |data|);
      m1.(written := m.written + data,
          dropped := m.dropped + if over then Count(r) + |data| - Capacity(r) else 0,
          overflows := m.overflows + if over then 1 else 0)
    case Read(len) =>
      m1.(delivered := m.delivered + Contents(r)[..len],
          positions := m.positions + Places(OldestAt(m), len))
    case Clear =>
      m1.(clearedAt := |m.written|, dropped := m.dropped + Count(r), clears := m.clears + 1)
    case GiveUp(_, _) => m1
    case Destroy => m1
  }

  function Places(from: nat, len: nat): (p: seq<nat>)
    ensures |p| == len
  {
    seq(len, i requires 0 <= i < len => from + i)
  }

  /** Where the oldest live byte sits in the written stream. */
  function OldestAt(m: Monitor): nat
    requires Ok(m.ring)
  {
    if Count(m.ring) <= |m.written| then |m.written| - Count(m.ring) else 0
  }

  predicate Possible(m: Monitor, steps: seq<Step>)
    requires Ok(m.ring)
    decreases |steps|
  {
    steps == [] || (Enabled(m.ring, steps[0]) && Possible(Observe(m, steps[0]), steps[1..]))
  }

  function Run(m: Monitor, steps: seq<Step>): (m': Monitor)
    requires Ok(m.ring) && Possible(m, steps)
    ensures Ok(m'.ring) && |m'.ring.buf| == |m.ring.buf|
    decreases |steps|
  {
    if steps == [] then m else Run(Observe(m, steps[0]), steps[1..])
  }

  // ---- the invariant ---------------------------------------------------------

  ghost predicate StreamInv(m: Monitor) {
    && Ok(m.ring)
    && m.clearedAt <= OldestAt(m)
    && Count(m.ring) <= |m.written|
    && Contents(m.ring) == m.written[OldestAt(m)..]
  }

  ghost predicate DeliveryInv(m: Monitor) {
    && Ok(m.ring)
    && |m.positions| == |m.delivered|
    && (forall i :: 0 <= i < |m.positions| ==> m.positions[i] < OldestAt(m))
    && (forall i, j :: 0 <= i < j < |m.positions| ==> m.positions[i] < m.positions[j])
    && (forall i :: 0 <= i < |m.positions| ==>
          m.positions[i] < |m.written| && m.delivered[i] == m.written[m.positions[i]])
  }

  ghost predicate LedgerInv(m: Monitor) {
    && Ok(m.ring)
    && |m.written| == |m.delivered| + m.dropped + Count(m.ring)
    && (m.overflows == 0 && m.clears == 0 ==> m.dropped == 0)
  }

  ghost predicate Inv(m: Monitor) {
    StreamInv(m) && DeliveryInv(m) && LedgerInv(m)
  }

  lemma StreamWrite(m: Monitor, data: seq<byte>)
    requires StreamInv(m) && Enabled(m.ring, Write(data))
    ensures StreamInv(Observe(m, Write(data))) && OldestAt(m) <= OldestAt(Observe(m, Write(data)))
  {
    var m' := Observe(m, Write(data));
    WriteContents(m.ring, data);
    assert |Contents(m'.ring)| <= |Contents(m.ring)| + |data|;
    assert Contents(m.ring) + data == m'.written[OldestAt(m)..];
    assert Last(Capacity(m.ring), m'.written[OldestAt(m)..]) == m'.written[OldestAt(m')..];
  }

  lemma StreamRead(m: Monitor, len: nat)
    requires StreamInv(m) && Enabled(m.ring, Read(len))
    ensures StreamInv(Observe(m, Read(len))) && OldestAt(m) + len == OldestAt(Observe(m, Read(len)))
    ensures Contents(m.ring)[..len] == m.written[OldestAt(m)..OldestAt(m) + len]
  {
    ReadContents(m.ring, len);
    assert m.written[OldestAt(m)..][len..] == m.written[OldestAt(m) + len..];
  }

  lemma StreamStep(m: Monitor, s: Step)
    requires StreamInv(m) && Enabled(m.ring, s)
    ensures StreamInv(Observe(m, s)) && OldestAt(m) <= OldestAt(Observe(m, s))
  {
    match s
    case Write(data) => StreamWrite(m, data);
    case Read(len) => StreamRead(m, len);
    case _ =>
  }

  lemma DeliveryStep(m: Monitor, s: Step)
    requires StreamInv(m) && DeliveryInv(m) && Enabled(m.ring, s)
    ensures DeliveryInv(Observe(m, s))
  {
    StreamStep(m, s);
    if s.Read? {
      ReadContents(m.ring, s.len);
    }
  }

  lemma LedgerStep(m: Monitor, s: Step)
    requires StreamInv(m) && LedgerInv(m) && Enabled(m.ring, s)
    ensures LedgerInv(Observe(m, s))
  {
    match s
    case Write(data) => WriteContents(m.ring, data);
    case Read(len) => ReadContents(m.ring, len);
    case _ =>
  }

  lemma {:induction false} InvHolds(m: Monitor, steps: seq<Step>)
    requires Inv(m) && Possible(m, steps)
    ensures Inv(Run(m, steps))
    decreases |steps|
  {
    if steps != [] {
      StreamStep(m, steps[0]);
      DeliveryStep(m, steps[0]);
      LedgerStep(m, steps[0]);
      InvHolds(Observe(m, steps[0]), steps[1..]);
    }
  }

  // ---- what the steps themselves say ---------------------------------------------

  /** All bytes that the steps write, and those since the last clear, begun with given ones. */
  function BytesOf(steps: seq<Step>): seq<byte> {
    if steps == [] then []
    else (if steps[0].Write? then steps[0].data else []) + BytesOf(steps[1..])
  }

  function SinceClear(before: seq<byte>, steps: seq<Step>): seq<byte>
    decreases |steps|
  {
    if steps == [] then before
    else
      var s := steps[0];
      SinceClear(if s.Clear? then [] else if s.Write? then before + s.data else before, steps[1..])
  }

  lemma StepWrites(m: Monitor, s: Step)
    requires Ok(m.ring) && Enabled(m.ring, s) && m.clearedAt <= |m.written|
    ensures var m1 := Observe(m, s);
            && m1.written == m.written + (if s.Write? then s.data else [])
            && m1.clearedAt <= |m1.written|
            && m1.written[m1.clearedAt..] ==
                 if s.Clear? then [] else m.written[m.clearedAt..] + if s.Write? then s.data else []
  {
    hide Contents, Count, Overflows;
  }

  lemma {:induction false} WrittenIs(m: Monitor, steps: seq<Step>)
    requires Ok(m.ring) && Possible(m, steps) && m.clearedAt <= |m.written|
    ensures var e := Run(m, steps);
            && e.written == m.written + BytesOf(steps)
            && e.clearedAt <= |e.written|
            && e.written[e.clearedAt..] == SinceClear(m.written[m.clearedAt..], steps)
    decreases |steps|
  {
    if steps != [] {
      hide Enabled, Next, Contents, Count, OldestAt, Observe;
      StepWrites(m, steps[0]);
      WrittenIs(Observe(m, steps[0]), steps[1..]);
      hide *;
      if !steps[0].Clear? && !steps[0].Write? {
        assert m.written[m.clearedAt..] + [] == m.written[m.clearedAt..];
      }
    }
  }

  /** No step clears the ring, and every block fits when it is written. */
  predicate AllFits(m: Monitor, steps: seq<Step>)
    requires Ok(m.ring) && Possible(m, steps)
    decreases |steps|
  {
    steps != [] ==>
      && !steps[0].Clear?
      && (steps[0].Write? ==> |Contents(m.ring)| + |steps[0].data| <= |m.ring.buf| - 1)
      && AllFits(Observe(m, steps[0]), steps[1..])
  }

  lemma {:induction false} AllFitsIff(m: Monitor, steps: seq<Step>)
    requires Ok(m.ring) && Possible(m, steps)
    ensures var e := Run(m, steps);
            && m.overflows <= e.overflows && m.clears <= e.clears
            && (AllFits(m, steps) <==> e.overflows == m.overflows && e.clears == m.clears)
    decreases |steps|
  {
    if steps != [] {
      hide Contents, Count;
      AllFitsIff(Observe(m, steps[0]), steps[1..]);
    }
  }

  lemma WrittenFromStart(r: Ring, steps: seq<Step>)
    requires Fresh(r) && Possible(Start(r), steps)
    ensures var m := Run(Start(r), steps);
            && m.written == BytesOf(steps) && m.clearedAt <= |m.written|
            && m.written[m.clearedAt..] == SinceClear([], steps)
  {
    hide Run, Possible, BytesOf, SinceClear;
    var none: seq<byte> := [];
    assert none[0..] == none && none + BytesOf(steps) == BytesOf(steps);
    WrittenIs(Start(r), steps);
  }

  // ---- main results over every run from an empty ring -------------------------

  ghost predicate Fresh(r: Ring) {
    Ok(r) && Count(r) == 0
  }

  /** The live bytes are the newest bytes written since the last clear. */
  lemma LiveBytesAreNewest(r: Ring, steps: seq<Step>)
    requires Fresh(r) && Possible(Start(r), steps)
    ensures var m := Run(Start(r), steps); var n := Count(m.ring);
            && m.written == BytesOf(steps)
            && m.clearedAt + n <= |m.written| && Contents(m.ring) == m.written[|m.written| - n..]
            && var kept := SinceClear([], steps);
               n <= |kept| && Contents(m.ring) == kept[|kept| - n..]
  {
    var m := Run(Start(r), steps);
    hide *;
    InvFromFresh(r, steps);
    WrittenFromStart(r, steps);
    LiveIsKept(m, SinceClear([], steps));
  }

  lemma LiveIsKept(m: Monitor, kept: seq<byte>)
    requires Inv(m) && m.clearedAt <= |m.written| && m.written[m.clearedAt..] == kept
    ensures var n := Count(m.ring);
            && m.clearedAt + n <= |m.written| && Contents(m.ring) == m.written[|m.written| - n..]
            && n <= |kept| && Contents(m.ring) == kept[|kept| - n..]
  {
    hide Contents, Count, DeliveryInv, LedgerInv;
  }

  /** Nothing is delivered twice, out of order, or altered. */
  lemma DeliveredIsSubsequence(r: Ring, steps: seq<Step>)
    requires Fresh(r) && Possible(Start(r), steps)
    ensures var m := Run(Start(r), steps);
            && m.written == BytesOf(steps)
            && |m.positions| == |m.delivered|
            && (forall i, j :: 0 <= i < j < |m.positions| ==> m.positions[i] < m.positions[j])
            && (forall i :: 0 <= i < |m.positions| ==>
                  m.positions[i] < |m.written| - Count(m.ring)
                  && m.delivered[i] == m.written[m.positions[i]])
  {
    InvFromFresh(r, steps);
    WrittenFromStart(r, steps);
    hide Run, Possible, Contents, LedgerInv, SinceClear;
  }

  /** Every byte written is delivered, dropped or still live, and counted once. */
  lemma Conservation(r: Ring, steps: seq<Step>)
    requires Fresh(r) && Possible(Start(r), steps)
    ensures var m := Run(Start(r), steps);
            |BytesOf(steps)| == |m.written| == |m.delivered| + m.dropped + Count(m.ring)
  {
    InvFromFresh(r, steps);
    WrittenFromStart(r, steps);
    hide Run, Possible, Contents, DeliveryInv, SinceClear;
  }

  /** A strictly increasing sequence of n numbers below n is 0, 1, ..., n - 1. */
  lemma {:induction false} IncreasingFillsUp(p: seq<nat>, n: nat, i: nat)
    requires |p| == n && i < n && (forall j :: 0 <= j < n ==> p[j] < n)
    requires forall j, k :: 0 <= j < k < n ==> p[j] < p[k]
    ensures p[i] == i
  {
    LowerBound(p, i);
    UpperBound(p, n, i);
  }

  lemma {:induction false} LowerBound(p: seq<nat>, i: nat)
    requires i < |p| && (forall j, k :: 0 <= j < k < |p| ==> p[j] < p[k])
    ensures i <= p[i]
  {
    if i > 0 {
      LowerBound(p, i - 1);
      assert p[i - 1] < p[i];
    }
  }

  lemma {:induction false} UpperBound(p: seq<nat>, n: nat, i: nat)
    requires i < |p| == n && (forall j :: 0 <= j < n ==> p[j] < n)
    requires forall j, k :: 0 <= j < k < n ==> p[j] < p[k]
    ensures p[i] <= i
    decreases n - i
  {
    if i + 1 < n {
      UpperBound(p, n, i + 1);
      assert p[i] < p[i + 1];
    }
  }

  lemma NothingDroppedIsPrefix(m: Monitor)
    requires Inv(m) && m.dropped == 0
    ensures m.delivered == m.written[..OldestAt(m)]
  {
    forall i | 0 <= i < |m.delivered|
      ensures m.delivered[i] == m.written[i]
    {
      IncreasingFillsUp(m.positions, |m.delivered|, i);
    }
  }

  /** When every block fits and nothing is cleared the ring is a lossless FIFO. */
  lemma LosslessFifo(r: Ring, steps: seq<Step>)
    requires Fresh(r) && Possible(Start(r), steps)
    ensures var m := Run(Start(r), steps);
            && (AllFits(Start(r), steps) <==> m.overflows == 0 && m.clears == 0)
            && (AllFits(Start(r), steps) ==> m.delivered + Contents(m.ring) == m.written == BytesOf(steps))
  {
    InvFromFresh(r, steps);
    AllFitsIff(Start(r), steps);
    WrittenFromStart(r, steps);
    hide Run, Possible, Contents, AllFits, Inv, BytesOf, SinceClear;
    if AllFits(Start(r), steps) {
      NothingLost(Run(Start(r), steps));
    }
  }

  lemma InvFromFresh(r: Ring, steps: seq<Step>)
    requires Fresh(r) && Possible(Start(r), steps)
    ensures Inv(Run(Start(r), steps))
  {
    hide Run, Possible;
    InvHolds(Start(r), steps);
  }

  lemma NothingLost(m: Monitor)
    requires Inv(m) && m.overflows == 0 && m.clears == 0
    ensures m.delivered + Contents(m.ring) == m.written
  {
    hide Contents, DeliveryInv;
    NothingDroppedIsPrefix(m);
  }

  // ---- the specification machine: a bounded queue that drops its oldest bytes --

  datatype Queue = Queue(live: seq<byte>, closed: bool, out: seq<byte>)

  predicate QueueEnabled(q: Queue, s: Step) {
    match s
    case Write(data) => |data| < 0x1_0000_0000
    case Read(len) => !q.closed && len <= |q.live|
    case GiveUp(len, timed) => q.closed || (timed && |q.live| < len)
    case Clear => true
    case Destroy => true
  }

  function QueueNext(cap: nat, q: Queue, s: Step): Queue
    requires QueueEnabled(q, s)
  {
    match s
    case Write(data) => q.(live := Last(cap, q.live + data))
    case Read(len) => q.(live := q.live[len..], out := q.out + q.live[..len])
    case GiveUp(_, _) => q
    case Clear => q.(live := [])
    case Destroy => q.(closed := true)
  }

  predicate QueuePossible(cap: nat, q: Queue, steps: seq<Step>)
    decreases |steps|
  {
    steps == [] || (QueueEnabled(q, steps[0]) && QueuePossible(cap, QueueNext(cap, q, steps[0]), steps[1..]))
  }

  function QueueRun(cap: nat, q: Queue, steps: seq<Step>): Queue
    requires QueuePossible(cap, q, steps)
    decreases |steps|
  {
    if steps == [] then q else QueueRun(cap, QueueNext(cap, q, steps[0]), steps[1..])
  }

  function Abstract(m: Monitor): Queue
    requires Ok(m.ring)
  {
    Queue(Contents(m.ring), m.ring.destroyed, m.delivered)
  }

  lemma StepRefines(m: Monitor, s: Step)
    requires Ok(m.ring)
    ensures Enabled(m.ring, s) <==> QueueEnabled(Abstract(m), s)
    ensures Enabled(m.ring, s) ==>
              Abstract(Observe(m, s)) == QueueNext(Capacity(m.ring), Abstract(m), s)
  {
    if Enabled(m.ring, s) {
      match s
      case Write(data) => WriteContents(m.ring, data);
      case Read(len) => ReadContents(m.ring, len);
      case _ =>
    }
  }

  /** The ring can do exactly the runs of a queue of capacity size_ - 1, and
      hands out exactly the same bytes in them. */
  lemma {:induction false} RunsAreQueueRuns(m: Monitor, steps: seq<Step>)
    requires Ok(m.ring)
    ensures Possible(m, steps) <==> QueuePossible(Capacity(m.ring), Abstract(m), steps)
    ensures Possible(m, steps) ==>
              Abstract(Run(m, steps)) == QueueRun(Capacity(m.ring), Abstract(m), steps)
    decreases |steps|
  {
    if steps != [] {
      StepRefines(m, steps[0]);
      if Enabled(m.ring, steps[0]) {
        RunsAreQueueRuns(Observe(m, steps[0]), steps[1..]);
      }
    }
  }
}
