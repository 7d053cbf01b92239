/** Buffer<Type> of buffer_template.h with each whole operation taken as one step. */
module PacketRing {
  import opened MachineTypes
  import opened Modular

  /** Of the writes numbered below w, the number of the newest one that went to the
      slot the get number r reads: r itself, or laps later. */
  function Served(n: nat, w: nat, r: nat): (s: nat)
    requires n > 0 && r < w
  {
    r + n * ((w - 1 - r) / n)
  }

  lemma ServedIsNewestInSlot(n: nat, w: nat, r: nat)
    requires n > 0 && r < w
    ensures var s := Served(n, w, r);
            && r <= s < w <= s + n && s % n == r % n
            && (forall j: nat :: s < j < w ==> j % n != r % n)
  {
    var d := w - 1 - r;
    var s := Served(n, w, r);
    assert d == n * (d / n) + d % n;
    ModShift(r, d / n, n);
    forall j: nat | s < j < w
      ensures j % n != r % n
    {
      CloseSlotsDiffer(s, j, n);
    }
  }

  /** A get returns the oldest packet not yet fetched exactly while the writer is at
      most one lap ahead; from then on it returns a newer one. */
  lemma FifoIffNotLapped(n: nat, w: nat, r: nat)
    requires n > 0 && r < w
    ensures Served(n, w, r) == r <==> w - r <= n
  {
    var d := w - 1 - r;
    assert d == n * (d / n) + d % n;
    if d < n {
      ModUnique(d, n, 0, d);
    }
    MulMonotone(1, d / n, n);
  }

  // ---- runs of whole operations ------------------------------------------------------

  datatype Operation<T> = Put(packet: T) | Get

  /** All packets written so far, and the number of the packet each get returned. */
  datatype History<T> = History(written: seq<T>, fetched: seq<nat>)

  /** A get goes ahead once the indices differ, that is unless the packets outstanding are
      a whole number of laps. */
  predicate Enabled<T>(n: nat, h: History<T>, op: Operation<T>)
    requires n > 0
  {
    op.Get? ==> |h.fetched| < |h.written| && (|h.written| - |h.fetched|) % n != 0
  }

  function Next<T>(n: nat, h: History<T>, op: Operation<T>): History<T>
    requires n > 0 && Enabled(n, h, op)
  {
    match op
    case Put(packet) => h.(written := h.written + [packet])
    case Get => h.(fetched := h.fetched + [Served(n, |h.written|, |h.fetched|)])
  }

  predicate Possible<T>(n: nat, h: History<T>, run: seq<Operation<T>>)
    requires n > 0
    decreases |run|
  {
    run == [] || (Enabled(n, h, run[0]) && Possible(n, Next(n, h, run[0]), run[1..]))
  }

  function Run<T>(n: nat, h: History<T>, run: seq<Operation<T>>): History<T>
    requires n > 0 && Possible(n, h, run)
    decreases |run|
  {
    if run == [] then h else Run(n, Next(n, h, run[0]), run[1..])
  }

  /** Gets return ever newer packets, each from the slot whose turn it is. */
  ghost predicate FetchInv<T>(n: nat, h: History<T>)
    requires n > 0
  {
    && |h.fetched| <= |h.written|
    && (forall i :: 0 <= i < |h.fetched| ==> i <= h.fetched[i] < |h.written| && h.fetched[i] % n == i % n)
    && (forall i, j :: 0 <= i < j < |h.fetched| ==> h.fetched[i] < h.fetched[j])
  }

  /** Whatever was fetched last from the slot before, and however far the writer has come
      since: an enabled get returns a newer packet. */
  lemma LaterGetsAreNewer(n: nat, w: nat, r: nat, last: nat)
    requires n > 0 && r + 1 < w && last < w && last % n == r % n
    requires (w - (r + 1)) % n != 0
    ensures last < Served(n, w, r + 1)
  {
    ServedIsNewestInSlot(n, w, r + 1);
    ModNext(last, n);
    ModNext(r, n);
    SameSlot(r + 1, w, n);
    assert (last + 1) % n == (r + 1) % n;
  }

  lemma StepKeepsFetchInv<T>(n: nat, h: History<T>, op: Operation<T>)
    requires n > 0 && FetchInv(n, h) && Enabled(n, h, op)
    ensures FetchInv(n, Next(n, h, op))
  {
    if op.Get? {
      var w, r := |h.written|, |h.fetched|;
      ServedIsNewestInSlot(n, w, r);
      if r > 0 {
        LaterGetsAreNewer(n, w, r - 1, h.fetched[r - 1]);
      }
      hide Served;
    }
  }

  lemma {:induction false} RunKeepsFetchInv<T>(n: nat, h: History<T>, run: seq<Operation<T>>)
    requires n > 0 && FetchInv(n, h) && Possible(n, h, run)
    ensures FetchInv(n, Run(n, h, run))
    decreases |run|
  {
    if run != [] {
      StepKeepsFetchInv(n, h, run[0]);
      RunKeepsFetchInv(n, Next(n, h, run[0]), run[1..]);
    }
  }

  /** The packets that a run writes, in order, and the number of its gets. */
  function Puts<T>(run: seq<Operation<T>>): seq<T> {
    if run == [] then [] else (if run[0].Put? then [run[0].packet] else []) + Puts(run[1..])
  }

  function Gets<T>(run: seq<Operation<T>>): nat {
    if run == [] then 0 else (if run[0].Get? then 1 else 0) + Gets(run[1..])
  }

  lemma {:induction false} AllIsRecorded<T>(n: nat, h: History<T>, run: seq<Operation<T>>)
    requires n > 0 && Possible(n, h, run)
    ensures Run(n, h, run).written == h.written + Puts(run)
    ensures |Run(n, h, run).fetched| == |h.fetched| + Gets(run)
    decreases |run|
  {
    if run != [] {
      AllIsRecorded(n, Next(n, h, run[0]), run[1..]);
      hide Served;
    }
  }

  /** The packets that the gets returned. */
  function Returned<T>(h: History<T>): (r: seq<T>)
    requires forall i :: 0 <= i < |h.fetched| ==> h.fetched[i] < |h.written|
    ensures |r| == |h.fetched|
  {
    seq(|h.fetched|, i requires 0 <= i < |h.fetched| => h.written[h.fetched[i]])
  }

  /** In every run, laps included, packets may be lost but none is returned twice or
      after a newer one. */
  lemma GetsNeverGoBack<T>(n: nat, run: seq<Operation<T>>)
    requires n > 0 && Possible(n, History([], []), run)
    ensures var h := Run(n, History([], []), run);
            && h.written == Puts(run) && |h.fetched| == Gets(run) <= |Puts(run)|
            && (forall i :: 0 <= i < |h.fetched| ==> i <= h.fetched[i] < |h.written|)
            && (forall i, j :: 0 <= i < j < |h.fetched| ==> h.fetched[i] < h.fetched[j])
  {
    RunKeepsFetchInv(n, History([], []), run);
    AllIsRecorded(n, History([], []), run);
  }

  /** At every get the writer is at most one lap ahead. */
  predicate NeverLapped<T>(n: nat, h: History<T>, run: seq<Operation<T>>)
    requires n > 0 && Possible(n, h, run)
    decreases |run|
  {
    run != [] ==>
      && (run[0].Get? ==> |h.written| - |h.fetched| <= n)
      && NeverLapped(n, Next(n, h, run[0]), run[1..])
  }

  predicate InOrder(fetched: seq<nat>) {
    forall i :: 0 <= i < |fetched| ==> fetched[i] == i
  }

  lemma {:induction false} RunKeepsFetched<T>(n: nat, h: History<T>, run: seq<Operation<T>>)
    requires n > 0 && Possible(n, h, run)
    ensures h.fetched <= Run(n, h, run).fetched && h.written <= Run(n, h, run).written
    decreases |run|
  {
    if run != [] {
      RunKeepsFetched(n, Next(n, h, run[0]), run[1..]);
    }
  }

  lemma {:induction false} InOrderIffNeverLapped<T>(n: nat, h: History<T>, run: seq<Operation<T>>)
    requires n > 0 && Possible(n, h, run) && InOrder(h.fetched)
    ensures InOrder(Run(n, h, run).fetched) <==> NeverLapped(n, h, run)
    decreases |run|
  {
    if run != [] {
      var w, r, h1 := |h.written|, |h.fetched|, Next(n, h, run[0]);
      if run[0].Get? {
        FifoIffNotLapped(n, w, r);
        hide Served;
        assert h1.fetched[r] == r <==> w - r <= n;
      }
      if InOrder(h1.fetched) {
        InOrderIffNeverLapped(n, h1, run[1..]);
      } else {
        RunKeepsFetched(n, h1, run[1..]);
        assert h1.fetched[r] != r;
      }
    }
  }

  /** A run returns the packets in order and without loss iff the writer was at most one
      lap ahead at every get. */
  lemma FifoIffNeverLapped<T>(n: nat, run: seq<Operation<T>>)
    requires n > 0 && Possible(n, History([], []), run)
    ensures InOrder(Run(n, History([], []), run).fetched) <==> NeverLapped(n, History([], []), run)
  {
    InOrderIffNeverLapped(n, History([], []), run);
  }

  /** So while the writer is at most one lap ahead, k gets return the first k packets
      written. */
  lemma NeverLappedReturnsFirst<T>(n: nat, run: seq<Operation<T>>)
    requires n > 0 && Possible(n, History([], []), run) && NeverLapped(n, History([], []), run)
    ensures var h := Run(n, History([], []), run);
            && (forall i :: 0 <= i < |h.fetched| ==> h.fetched[i] < |h.written|)
            && Gets(run) <= |Puts(run)| && Returned(h) == Puts(run)[..Gets(run)]
  {
    GetsNeverGoBack(n, run);
    FifoIffNeverLapped(n, run);
  }

  // ---- the class -------------------------------------------------------------------------

  class Buffer<T(0)> {
    var size: uint32
    var writeIndex: uint32
    var readIndex: uint32
    var buffer: array<T>
    ghost var history: History<T>

    ghost predicate Valid()
      reads this, buffer
    {
      var n, w := size as nat, |history.written|;
      && n > 0 && buffer.Length == n
      && FetchInv(n, history)
      && writeIndex as nat == w % n
      && readIndex as nat == |history.fetched| % n
      && (forall j: nat :: w - n <= j < w ==> buffer[j % n] == history.written[j])
    }

    constructor (size: uint32 := 200)
      requires size > 0
      ensures Valid() && fresh(buffer) && this.size == size
      ensures history == History([], [])
    {
      this.size := size;
      writeIndex, readIndex := 0, 0;
      buffer := new T[size as int];
      history := History([], []);
    }

    method Write(data: T)
      requires Valid()
      modifies this`writeIndex, this`history, buffer
      ensures Valid() && history == Next(size as nat, old(history), Put(data))
      ensures history.written == old(history.written) + [data] && history.fetched == old(history.fetched)
    {
      ghost var n, w := size as nat, |history.written|;
      ModNext(w, n);
      StepKeepsFetchInv(n, history, Put(data));
      buffer[writeIndex] := data;
      writeIndex := writeIndex + 1;
      if writeIndex == size {
        writeIndex := 0;
      }
      history := Next(n, history, Put(data));
      forall j: nat | w + 1 - n <= j < w + 1
        ensures buffer[j % n] == history.written[j]
      {
        if j < w {
          CloseSlotsDiffer(j, w, n);
        }
      }
    }

    /** The spin loop has ended. */
    method GetNextPacket() returns (msg: T)
      requires Valid() && readIndex != writeIndex
      modifies this`readIndex, this`history
      ensures Valid() && Enabled(size as nat, old(history), Get)
      ensures history == Next(size as nat, old(history), Get)
      ensures history.written == old(history.written) && |history.fetched| == |old(history.fetched)| + 1
      ensures var i := |old(history.fetched)|;
              history.fetched[i] < |history.written| && msg == history.written[history.fetched[i]]
    {
      ghost var n, w, r := size as nat, |history.written|, |history.fetched|;
      GetEnabledIff();
      ModNext(r, n);
      StepKeepsFetchInv(n, history, Get);
      ServedIsNewestInSlot(n, w, r);
      ghost var s := Served(n, w, r);
      hide Served;
      msg := buffer[readIndex];
      assert msg == buffer[s % n];
      history := Next(n, history, Get);
      readIndex := readIndex + 1;
      if readIndex == size {
        readIndex := 0;
      }
    }

    /** A get goes ahead iff the outstanding packets are not a whole number of laps;
        so a writer exactly one lap ahead makes the ring look empty. */
    lemma GetEnabledIff()
      requires Valid()
      ensures readIndex != writeIndex <==> Enabled(size as nat, history, Get)
      ensures readIndex != writeIndex <==> (|history.written| - |history.fetched|) % (size as nat) != 0
    {
      SameSlot(|history.fetched|, |history.written|, size as nat);
    }
  }
}
