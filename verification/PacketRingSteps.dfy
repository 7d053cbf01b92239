/** Buffer<Type> of buffer_template.h with one writer and one reader thread, each
    access to write_index_, read_index_ or a slot being a step of its own. */
module PacketRingSteps {
  import opened Modular

  /** Where the writer stands in write, and what it holds. */
  datatype WriterAt<T> =
    | WReady                          // not in write
    | WStore(item: T, index: nat)     // line 42, write_index_ loaded
    | WBump                           // line 43
    | WTest                           // line 44
    | WReset                          // line 45

  /** Where the reader stands in get_next_packet, and what it holds. */
  datatype ReaderAt =
    | RReady                          // line 51
    | RCompare(tested: nat)           // line 51, read_index_ loaded
    | RFetch                          // line 54
    | RCopy(index: nat)               // line 54, read_index_ loaded
    | RBump                           // line 55
    | RTest                           // line 56
    | RReset                          // line 57

  datatype State<T> = State(
    slots: seq<T>,
    writeIndex: nat,
    readIndex: nat,
    writer: WriterAt<T>,
    reader: ReaderAt,
    written: seq<T>,    // packets whose write has begun
    published: nat,     // executions of line 43
    delivered: seq<T>)  // packets copied out on line 54

  function Start<T>(slots: seq<T>): State<T> {
    State(slots, 0, 0, WReady, RReady, [], 0, [])
  }

  /** Which thread steps next; Begin enters write with a packet. */
  datatype Choice<T> = Begin(item: T) | Writer | Reader

  predicate Enabled<T>(s: State<T>, c: Choice<T>) {
    match c
    case Begin(_) => s.writer.WReady?
    case Writer =>
      && !s.writer.WReady?
      && (s.writer.WStore? ==> s.writer.index < |s.slots|)
    case Reader => s.reader.RCopy? ==> s.reader.index < |s.slots|
  }

  function Next<T>(s: State<T>, c: Choice<T>): (s': State<T>)
    requires Enabled(s, c)
    ensures |s'.slots| == |s.slots|
  {
    match c
    case Begin(item) => s.(writer := WStore(item, s.writeIndex), written := s.written + [item])
    case Writer => (
      match s.writer
      case WStore(item, index) => s.(slots := s.slots[index := item], writer := WBump)
      case WBump => s.(writeIndex := s.writeIndex + 1, writer := WTest, published := s.published + 1)
      case WTest => s.(writer := if s.writeIndex == |s.slots| then WReset else WReady)
      case WReset => s.(writeIndex := 0, writer := WReady))
    case Reader => (
      match s.reader
      case RReady => s.(reader := RCompare(s.readIndex))
      case RCompare(tested) => s.(reader := if tested == s.writeIndex then RReady else RFetch)
      case RFetch => s.(reader := RCopy(s.readIndex))
      case RCopy(index) => s.(reader := RBump, delivered := s.delivered + [s.slots[index]])
      case RBump => s.(readIndex := s.readIndex + 1, reader := RTest)
      case RTest => s.(reader := if s.readIndex == |s.slots| then RReset else RReady)
      case RReset => s.(readIndex := 0, reader := RReady))
  }

  predicate Possible<T>(s: State<T>, run: seq<Choice<T>>)
    decreases |run|
  {
    run == [] || (Enabled(s, run[0]) && Possible(Next(s, run[0]), run[1..]))
  }

  function Run<T>(s: State<T>, run: seq<Choice<T>>): State<T>
    requires Possible(s, run)
    decreases |run|
  {
    if run == [] then s else Run(Next(s, run[0]), run[1..])
  }

  /** The packets whose writes a run begins, in order. */
  function Begun<T>(run: seq<Choice<T>>): seq<T> {
    if run == [] then [] else (if run[0].Begin? then [run[0].item] else []) + Begun(run[1..])
  }

  lemma {:induction false} AllIsRecorded<T>(s: State<T>, run: seq<Choice<T>>)
    requires Possible(s, run)
    ensures Run(s, run).written == s.written + Begun(run)
    decreases |run|
  {
    if run != [] {
      AllIsRecorded(Next(s, run[0]), run[1..]);
    }
  }

  // ---- index safety, in every interleaving ------------------------------------

  ghost predicate InBounds<T>(s: State<T>) {
    var n := |s.slots|;
    && n > 0
    && (if s.writer.WTest? then s.writeIndex <= n
        else if s.writer.WReset? then s.writeIndex == n else s.writeIndex < n)
    && (if s.reader.RTest? then s.readIndex <= n
        else if s.reader.RReset? then s.readIndex == n else s.readIndex < n)
    && (s.writer.WStore? ==> s.writer.index < n)
    && (s.reader.RCopy? ==> s.reader.index < n)
  }

  predicate Control<T>(s: State<T>, c: Choice<T>) {
    match c
    case Begin(_) => s.writer.WReady?
    case Writer => !s.writer.WReady?
    case Reader => true
  }

  lemma {:induction false} RunStaysInBounds<T>(s: State<T>, run: seq<Choice<T>>)
    requires InBounds(s) && Possible(s, run)
    ensures InBounds(Run(s, run)) && |Run(s, run).slots| == |s.slots|
    decreases |run|
  {
    if run != [] {
      RunStaysInBounds(Next(s, run[0]), run[1..]);
    }
  }

  /** Whatever the interleaving, and however far the writer is ahead, both slot
      accesses are below size_: a thread inside an operation can always step. */
  lemma SlotAccessesInBounds<T>(slots: seq<T>, run: seq<Choice<T>>, c: Choice<T>)
    requires |slots| > 0 && Possible(Start(slots), run)
    ensures var e := Run(Start(slots), run);
            && (e.writer.WStore? ==> e.writer.index < |slots|)
            && (e.reader.RCopy? ==> e.reader.index < |slots|)
            && (Control(e, c) ==> Enabled(e, c))
  {
    RunStaysInBounds(Start(slots), run);
  }

  // ---- FIFO -------------------------------------------------------------------

  /** The writer begins only with at most size_ - 2 packets outstanding. */
  predicate RoomToBegin<T>(s: State<T>, c: Choice<T>) {
    c.Begin? ==> |s.written| - |s.delivered| <= |s.slots| - 2
  }

  /** The reader tests emptiness with read_index_ 0 while write_index_ holds size_. */
  predicate Hazard<T>(s: State<T>, c: Choice<T>) {
    c.Reader? && s.reader.RCompare? && s.reader.tested == 0 && s.writeIndex == |s.slots|
  }

  /** A test that lets the reader through does so only if there is a packet for it. */
  predicate TrueTest<T>(s: State<T>, c: Choice<T>) {
    c.Reader? && s.reader.RCompare? && s.reader.tested != s.writeIndex ==> |s.delivered| < s.published
  }

  predicate AllRoom<T>(s: State<T>, run: seq<Choice<T>>)
    requires Possible(s, run)
    decreases |run|
  {
    run != [] ==> RoomToBegin(s, run[0]) && AllRoom(Next(s, run[0]), run[1..])
  }

  predicate NoHazard<T>(s: State<T>, run: seq<Choice<T>>)
    requires Possible(s, run)
    decreases |run|
  {
    run != [] ==> !Hazard(s, run[0]) && NoHazard(Next(s, run[0]), run[1..])
  }

  predicate AllTestsTrue<T>(s: State<T>, run: seq<Choice<T>>)
    requires Possible(s, run)
    decreases |run|
  {
    run != [] ==> TrueTest(s, run[0]) && AllTestsTrue(Next(s, run[0]), run[1..])
  }

  ghost predicate WriterInv<T>(s: State<T>)
    requires |s.slots| > 0
  {
    var n, w := |s.slots|, |s.written|;
    match s.writer
    case WReady => s.published == w && s.writeIndex == w % n
    case WStore(item, index) =>
      s.published + 1 == w && s.writeIndex == index == (w - 1) % n && item == s.written[w - 1]
    case WBump =>
      s.published + 1 == w && s.writeIndex == (w - 1) % n && s.slots[(w - 1) % n] == s.written[w - 1]
    case WTest => s.published == w > 0 && s.writeIndex == (w - 1) % n + 1
    case WReset => s.published == w > 0 && s.writeIndex == (w - 1) % n + 1 == n
  }

  ghost predicate ReaderInv<T>(s: State<T>)
    requires |s.slots| > 0
  {
    var n, d := |s.slots|, |s.delivered|;
    match s.reader
    case RReady => s.readIndex == d % n
    case RCompare(tested) => s.readIndex == tested == d % n
    case RFetch => s.readIndex == d % n
    case RCopy(index) => s.readIndex == index == d % n
    case RBump => d > 0 && s.readIndex == (d - 1) % n
    case RTest => d > 0 && s.readIndex == (d - 1) % n + 1
    case RReset => d > 0 && s.readIndex == (d - 1) % n + 1 == n
  }

  /** The reader is past the emptiness test although there is no packet for it. */
  predicate Rash<T>(s: State<T>) {
    (s.reader.RFetch? || s.reader.RCopy?) && |s.delivered| == s.published
  }

  ghost predicate QueueInv<T>(s: State<T>) {
    var n := |s.slots|;
    && n > 0
    && |s.delivered| <= s.published <= |s.written| < |s.delivered| + n
    && WriterInv(s) && ReaderInv(s)
    && s.delivered == s.written[..|s.delivered|]
    && (forall j: nat :: |s.delivered| <= j < s.published ==> s.slots[j % n] == s.written[j])
  }

  ghost predicate FifoInv<T>(s: State<T>) {
    QueueInv(s) && !Rash(s)
  }

  lemma BeginKeepsQueue<T>(s: State<T>, item: T)
    requires QueueInv(s) && Enabled(s, Begin(item)) && RoomToBegin(s, Begin(item))
    ensures QueueInv(Next(s, Begin(item)))
  {
  }

  lemma WriterStores<T>(s: State<T>)
    requires QueueInv(s) && Enabled(s, Writer) && s.writer.WStore?
    ensures QueueInv(Next(s, Writer))
  {
    var n, w, s' := |s.slots|, |s.written|, Next(s, Writer);
    forall j: nat | |s.delivered| <= j < s.published
      ensures s'.slots[j % n] == s.written[j]
    {
      CloseSlotsDiffer(j, w - 1, n);
    }
  }

  lemma WriterKeepsQueue<T>(s: State<T>)
    requires QueueInv(s) && Enabled(s, Writer)
    ensures QueueInv(Next(s, Writer))
  {
    if s.writer.WStore? {
      WriterStores(s);
    } else {
      ModNext(|s.written| - 1, |s.slots|);
      assert ReaderInv(Next(s, Writer));
    }
  }

  lemma ReaderCopies<T>(s: State<T>)
    requires QueueInv(s) && !Rash(s) && Enabled(s, Reader) && s.reader.RCopy?
    ensures QueueInv(Next(s, Reader))
  {
    assert s.slots[|s.delivered| % |s.slots|] == s.written[|s.delivered|];
  }

  predicate Copies<T>(s: State<T>, c: Choice<T>) {
    c.Reader? && s.reader.RCopy?
  }

  predicate Publishes<T>(s: State<T>, c: Choice<T>) {
    c.Writer? && s.writer.WBump?
  }

  lemma ReaderKeepsQueue<T>(s: State<T>)
    requires QueueInv(s) && Enabled(s, Reader) && !(Rash(s) && s.reader.RCopy?)
    ensures QueueInv(Next(s, Reader))
  {
    if s.reader.RCopy? {
      ReaderCopies(s);
    } else {
      var s' := Next(s, Reader);
      ReaderMoves(s);
      hide Next, ReaderInv;
      assert WriterInv(s');
    }
  }

  lemma ReaderMoves<T>(s: State<T>)
    requires |s.slots| > 0 && ReaderInv(s) && Enabled(s, Reader) && !s.reader.RCopy?
    ensures var s' := Next(s, Reader);
            ReaderInv(s') && s' == s.(reader := s'.reader, readIndex := s'.readIndex)
  {
    if |s.delivered| > 0 {
      ModNext(|s.delivered| - 1, |s.slots|);
    }
  }

  lemma StepKeepsQueue<T>(s: State<T>, c: Choice<T>)
    requires QueueInv(s) && Enabled(s, c) && RoomToBegin(s, c) && !(Rash(s) && Copies(s, c))
    ensures QueueInv(Next(s, c))
  {
    match c
    case Begin(item) => BeginKeepsQueue(s, item);
    case Writer => WriterKeepsQueue(s);
    case Reader => ReaderKeepsQueue(s);
  }

  /** In a good state the emptiness test is right exactly when it is no hazard, and
      it never keeps the reader from a published packet. */
  lemma TestIsTrueIffNoHazard<T>(s: State<T>, c: Choice<T>)
    requires QueueInv(s)
    ensures TrueTest(s, c) <==> !Hazard(s, c)
    ensures s.reader.RCompare? && |s.delivered| < s.published ==> s.reader.tested != s.writeIndex
  {
    var n, d, p := |s.slots|, |s.delivered|, s.published;
    if s.reader.RCompare? && p > 0 {
      ModNext(p - 1, n);
      if d < p {
        CloseSlotsDiffer(d, p, n);
      }
    }
  }

  lemma StepKeepsFifo<T>(s: State<T>, c: Choice<T>)
    requires FifoInv(s) && Enabled(s, c) && RoomToBegin(s, c) && TrueTest(s, c)
    ensures FifoInv(Next(s, c))
  {
    StepKeepsQueue(s, c);
    TestIsTrueIffNoHazard(s, c);
    hide QueueInv;
  }

  lemma {:induction false} RunKeepsFifo<T>(s: State<T>, run: seq<Choice<T>>)
    requires FifoInv(s) && Possible(s, run) && AllRoom(s, run)
    ensures NoHazard(s, run) ==> FifoInv(Run(s, run))
    ensures AllTestsTrue(s, run) <==> NoHazard(s, run)
    decreases |run|
  {
    if run != [] {
      TestIsTrueIffNoHazard(s, run[0]);
      if TrueTest(s, run[0]) {
        StepKeepsFifo(s, run[0]);
        RunKeepsFifo(Next(s, run[0]), run[1..]);
      }
    }
  }

  // ---- when a hazard does harm ---------------------------------------------------

  /** Whether the last test was a hazard, and nothing was published or copied out since. */
  function Armed<T>(s: State<T>, c: Choice<T>, armed: bool): bool {
    Hazard(s, c) || (armed && !Publishes(s, c) && !Copies(s, c))
  }

  /** No hazard is followed by its line 54 before the next line 43. */
  predicate NoRashCopy<T>(s: State<T>, run: seq<Choice<T>>, armed: bool)
    requires Possible(s, run)
    decreases |run|
  {
    run != [] ==>
      && !(armed && Copies(s, run[0]))
      && NoRashCopy(Next(s, run[0]), run[1..], Armed(s, run[0], armed))
  }

  /** What has been delivered are the first packets written, all of them published. */
  ghost predicate InOrder<T>(s: State<T>) {
    |s.delivered| <= s.published && s.delivered <= s.written
  }

  ghost predicate AlwaysInOrder<T>(s: State<T>, run: seq<Choice<T>>)
    requires Possible(s, run)
    decreases |run|
  {
    InOrder(s) && (run != [] ==> AlwaysInOrder(Next(s, run[0]), run[1..]))
  }

  lemma RashIffArmed<T>(s: State<T>, c: Choice<T>)
    requires QueueInv(s) && Enabled(s, c) && !(Rash(s) && Copies(s, c))
    ensures Rash(Next(s, c)) <==> Armed(s, c, Rash(s))
  {
    TestIsTrueIffNoHazard(s, c);
  }

  lemma {:induction false} InOrderIffNoRashCopy<T>(s: State<T>, run: seq<Choice<T>>)
    requires QueueInv(s) && Possible(s, run) && AllRoom(s, run)
    ensures AlwaysInOrder(s, run) <==> NoRashCopy(s, run, Rash(s))
    decreases |run|
  {
    assert InOrder(s);
    if run != [] {
      var c := run[0];
      if Rash(s) && Copies(s, c) {
        assert !InOrder(Next(s, c));
      } else {
        StepKeepsQueue(s, c);
        RashIffArmed(s, c);
        hide QueueInv, InOrder, Rash, Copies, Armed;
        InOrderIffNoRashCopy(Next(s, c), run[1..]);
      }
    }
  }

  /** The exact condition for FIFO: in a run that starts writes with room, everything is
      delivered in order and after it was published, at every moment, iff no hazard is
      followed by its copy before the writer publishes. */
  lemma FifoIffNoRashCopy<T>(slots: seq<T>, run: seq<Choice<T>>)
    requires |slots| > 0 && Possible(Start(slots), run) && AllRoom(Start(slots), run)
    ensures AlwaysInOrder(Start(slots), run) <==> NoRashCopy(Start(slots), run, false)
  {
    StartIsGood(slots);
    InOrderIffNoRashCopy(Start(slots), run);
  }

  lemma StartIsGood<T>(slots: seq<T>)
    requires |slots| > 0
    ensures FifoInv(Start(slots))
  {
  }

  /** Every run that starts writes with room and meets no hazard delivers exactly the
      written packets, in order, each one only after it was published; and a test
      that finds the ring empty is right. */
  lemma FifoWithoutHazard<T>(slots: seq<T>, run: seq<Choice<T>>)
    requires |slots| > 0 && Possible(Start(slots), run)
    requires AllRoom(Start(slots), run) && NoHazard(Start(slots), run)
    ensures var e := Run(Start(slots), run);
            && |e.delivered| <= e.published <= |e.written|
            && e.delivered == e.written[..|e.delivered|] && e.written == Begun(run)
            && (e.reader.RCompare? && e.reader.tested == e.writeIndex ==> |e.delivered| == e.published)
  {
    StartIsGood(slots);
    RunKeepsFifo(Start(slots), run);
    AllIsRecorded(Start(slots), run);
    TestIsTrueIffNoHazard(Run(Start(slots), run), Reader);
  }

  /** The condition is exact: in the runs without a hazard, and in no others, the
      reader is let through only to packets that are there. */
  lemma TestsAreTrueIffNoHazard<T>(slots: seq<T>, run: seq<Choice<T>>)
    requires |slots| > 0 && Possible(Start(slots), run) && AllRoom(Start(slots), run)
    ensures AllTestsTrue(Start(slots), run) <==> NoHazard(Start(slots), run)
  {
    StartIsGood(slots);
    RunKeepsFifo(Start(slots), run);
  }

  /** At any size, a hazard breaks FIFO: three steps of the reader, with none of the
      writer between, copy out what slot 0 holds, one packet more than were published. */
  lemma HazardBreaksFifo<T>(s: State<T>)
    requires FifoInv(s) && Hazard(s, Reader)
    ensures Possible(s, [Reader, Reader, Reader])
    ensures var e := Run(s, [Reader, Reader, Reader]);
            && e.published == s.published == |s.delivered|
            && e.delivered == s.delivered + [s.slots[0]]
            && !FifoInv(e)
  {
    TestIsTrueIffNoHazard(s, Reader);
    var run: seq<Choice<T>> := [Reader, Reader, Reader];
    assert run[1..] == [Reader, Reader] && run[1..][1..] == [Reader] && run[1..][1..][1..] == [];
    var s1 := Next(s, Reader);
    var s2 := Next(s1, Reader);
    var s3 := Next(s2, Reader);
    assert s1.reader.RFetch? && s2.reader == RCopy(s.readIndex) && s.readIndex == 0;
    assert Possible(s3, run[1..][1..][1..]) && Possible(s2, run[1..][1..]) && Possible(s1, run[1..]);
  }

  lemma {:induction false} RunAppend<T>(s: State<T>, a: seq<Choice<T>>, b: seq<Choice<T>>)
    requires Possible(s, a) && Possible(Run(s, a), b)
    ensures Possible(s, a + b) && Run(s, a + b) == Run(Run(s, a), b)
    ensures AllRoom(s, a) && AllRoom(Run(s, a), b) ==> AllRoom(s, a + b)
    decreases |a|
  {
    if a == [] {
      assert a + b == b;
    } else {
      assert (a + b)[0] == a[0] && (a + b)[1..] == a[1..] + b;
      RunAppend(Next(s, a[0]), a[1..], b);
    }
  }

  // ---- a run that breaks FIFO ----------------------------------------------------

  lemma OneStep<T>(s: State<T>, c: Choice<T>)
    requires Enabled(s, c)
    ensures Possible(s, [c]) && Run(s, [c]) == Next(s, c)
    ensures RoomToBegin(s, c) ==> AllRoom(s, [c])
  {
    assert [c][1..] == [];
  }

  /** A run of the given steps leads from s to e; if roomy, writes begin with room. */
  ghost predicate Leads<T>(roomy: bool, s: State<T>, run: seq<Choice<T>>, e: State<T>) {
    Possible(s, run) && Run(s, run) == e && (roomy ==> AllRoom(s, run))
  }

  lemma Extend<T>(roomy: bool, s: State<T>, run: seq<Choice<T>>, e: State<T>, c: Choice<T>)
    requires Leads(roomy, s, run, e) && Enabled(e, c) && (roomy ==> RoomToBegin(e, c))
    ensures Leads(roomy, s, run + [c], Next(e, c))
  {
    OneStep(e, c);
    RunAppend(s, run, [c]);
  }

  /** One whole write, the reader standing anywhere. */
  lemma Produce<T>(roomy: bool, s: State<T>, run: seq<Choice<T>>, e: State<T>, item: T)
    returns (run': seq<Choice<T>>)
    requires Leads(roomy, s, run, e) && e.writer.WReady? && e.writeIndex < |e.slots|
    requires roomy ==> RoomToBegin(e, Begin(item))
    ensures Leads(roomy, s, run', e.(
              slots := e.slots[e.writeIndex := item],
              writeIndex := if e.writeIndex + 1 == |e.slots| then 0 else e.writeIndex + 1,
              written := e.written + [item], published := e.published + 1))
  {
    Extend(roomy, s, run, e, Begin(item));
    var e1 := Next(e, Begin(item));
    Extend(roomy, s, run + [Begin(item)], e1, Writer);
    var e2 := Next(e1, Writer);
    Extend(roomy, s, run + [Begin(item)] + [Writer], e2, Writer);
    var e3 := Next(e2, Writer);
    run' := run + [Begin(item)] + [Writer] + [Writer];
    hide Leads;
    Extend(roomy, s, run', e3, Writer);
    run' := run' + [Writer];
    var e4 := Next(e3, Writer);
    if e4.writer.WReset? {
      Extend(roomy, s, run', e4, Writer);
      run' := run' + [Writer];
    }
  }

  /** One whole get from a ring whose emptiness test lets the reader through. */
  lemma Fetch<T>(roomy: bool, s: State<T>, run: seq<Choice<T>>, e: State<T>) returns (run': seq<Choice<T>>)
    requires Leads(roomy, s, run, e) && e.reader.RReady?
    requires e.readIndex < |e.slots| && e.readIndex != e.writeIndex
    ensures Leads(roomy, s, run', e.(
              readIndex := if e.readIndex + 1 == |e.slots| then 0 else e.readIndex + 1,
              delivered := e.delivered + [e.slots[e.readIndex]]))
  {
    run' := FinishGet(roomy, s, run, e, e);
  }

  /** The rest of a get that started in e and has come to state at. */
  lemma FinishGet<T>(roomy: bool, s: State<T>, run: seq<Choice<T>>, e: State<T>, from: State<T>)
    returns (run': seq<Choice<T>>)
    requires Leads(roomy, s, run, from) && e.readIndex < |e.slots| && Fetching(e, from)
    requires from.reader.RReady? ==> from == e
    requires from.reader.RReady? || from.reader.RCompare? ==> e.readIndex != e.writeIndex
    ensures exists at :: Leads(roomy, s, run', at) && Fetched(e, at)
  {
    hide Leads;
    run' := run;
    var at, more := from, true;
    while more
      invariant Leads(roomy, s, run', at) && Fetching(e, at) && (!more ==> Fetched(e, at))
      invariant more && at.reader.RReady? ==> at == e
      invariant more && (at.reader.RReady? || at.reader.RCompare?) ==> e.readIndex != e.writeIndex
      decreases more, StepsLeft(at.reader)
    {
      Extend(roomy, s, run', at, Reader);
      run', at := run' + [Reader], Next(at, Reader);
      more := !at.reader.RReady?;
    }
  }

  /** How far a get that started in e has come in state at. */
  ghost predicate Fetching<T>(e: State<T>, at: State<T>)
    requires e.readIndex < |e.slots|
  {
    var i, got := e.readIndex, e.delivered + [e.slots[e.readIndex]];
    match at.reader
    case RReady => at == e || Fetched(e, at)
    case RCompare(tested) => tested == i && at == e.(reader := at.reader)
    case RFetch => at == e.(reader := at.reader)
    case RCopy(index) => index == i && at == e.(reader := at.reader)
    case RBump => at == e.(reader := at.reader, delivered := got)
    case RTest => at == e.(reader := at.reader, delivered := got, readIndex := i + 1)
    case RReset => at == e.(reader := at.reader, delivered := got, readIndex := i + 1) && i + 1 == |e.slots|
  }

  ghost predicate Fetched<T>(e: State<T>, at: State<T>)
    requires e.readIndex < |e.slots|
  {
    at == e.(reader := RReady, readIndex := if e.readIndex + 1 == |e.slots| then 0 else e.readIndex + 1,
             delivered := e.delivered + [e.slots[e.readIndex]])
  }

  function StepsLeft(r: ReaderAt): nat {
    match r
    case RReady => 7
    case RCompare(_) => 6
    case RFetch => 5
    case RCopy(_) => 4
    case RBump => 3
    case RTest => 2
    case RReset => 1
  }

  /** Two slots: the writer stops between lines 43 and 45 of its second write, the
      reader fetches both packets and then gets the first one once more. */
  lemma HazardDeliversTwice<T>(a: T, b: T)
    ensures exists run: seq<Choice<T>>, e: State<T> ::
              Leads(true, Start([a, a]), run, e) && e.written == [a, b] && e.delivered == [a, b, a]
  {
    var s := Start([a, a]);
    assert Leads(true, s, [], s);
    hide Leads;
    var r1 := Produce(true, s, [], s, a);
    var e1 := State([a, a], 1, 0, WReady, RReady, [a], 1, []);
    assert Leads(true, s, r1, e1);
    var r2 := Fetch(true, s, r1, e1);
    var e2 := State([a, a], 1, 1, WReady, RReady, [a], 1, [a]);
    assert Leads(true, s, r2, e2);
    Extend(true, s, r2, e2, Begin(b));
    var e3 := Next(e2, Begin(b));
    Extend(true, s, r2 + [Begin(b)], e3, Writer);
    var e4 := Next(e3, Writer);
    Extend(true, s, r2 + [Begin(b)] + [Writer], e4, Writer);
    var r5 := Fetch(true, s, r2 + [Begin(b)] + [Writer] + [Writer], Next(e4, Writer));
    var e5 := State([a, b], 2, 0, WTest, RReady, [a, b], 2, [a, b]);
    assert Leads(true, s, r5, e5);
    var r6 := Fetch(true, s, r5, e5);
    assert [a, b] + [a] == [a, b, a];
  }

  /** Four slots, and a writer more than a lap ahead: between the test and the copy of the
      second get it writes the fifth packet and stores the sixth, which that get then
      returns; the next get goes back to the third. */
  lemma LappedReaderGoesBack<T>(a: T, b: T, c: T, d: T, e: T, f: T)
    ensures exists run: seq<Choice<T>>, end: State<T> ::
              && Leads(false, Start([a, a, a, a]), run, end)
              && end.written == [a, b, c, d, e, f] && end.delivered == [a, f, c]
  {
    var s := Start([a, a, a, a]);
    var run, at := LapTheReader(a, b, c, d, e, f);
    hide Leads;
    run := FinishGet(false, s, run, at.(reader := RReady), at);
    assert [a] + [f] == [a, f];
    var at1 := State([e, f, c, d], 1, 2, WBump, RReady, [a, b, c, d, e, f], 5, [a, f]);
    assert Leads(false, s, run, at1);
    run := Fetch(false, s, run, at1);
    assert [a, f] + [c] == [a, f, c];
  }

  /** The run up to the copy of the second get. */
  lemma LapTheReader<T>(a: T, b: T, c: T, d: T, e: T, f: T) returns (run: seq<Choice<T>>, at: State<T>)
    ensures Leads(false, Start([a, a, a, a]), run, at)
    ensures at == State([e, f, c, d], 1, 1, WBump, RFetch, [a, b, c, d, e, f], 5, [a])
  {
    var s := Start([a, a, a, a]);
    assert Leads(false, s, [], s);
    hide Leads;
    run := Produce(false, s, [], s, a);
    at := State([a, a, a, a], 1, 0, WReady, RReady, [a], 1, []);
    assert Leads(false, s, run, at);
    run := Produce(false, s, run, at, b);
    at := State([a, b, a, a], 2, 0, WReady, RReady, [a, b], 2, []);
    assert Leads(false, s, run, at);
    run := Produce(false, s, run, at, c);
    at := State([a, b, c, a], 3, 0, WReady, RReady, [a, b, c], 3, []);
    assert Leads(false, s, run, at);
    run := Fetch(false, s, run, at);
    at := State([a, b, c, a], 3, 1, WReady, RReady, [a, b, c], 3, [a]);
    assert Leads(false, s, run, at);
    run := Produce(false, s, run, at, d);
    at := State([a, b, c, d], 0, 1, WReady, RReady, [a, b, c, d], 4, [a]);
    assert Leads(false, s, run, at);
    Extend(false, s, run, at, Reader);
    Extend(false, s, run + [Reader], Next(at, Reader), Reader);
    run, at := run + [Reader] + [Reader], at.(reader := RFetch);
    run := Produce(false, s, run, at, e);
    at := State([e, b, c, d], 1, 1, WReady, RFetch, [a, b, c, d, e], 5, [a]);
    assert Leads(false, s, run, at);
    Extend(false, s, run, at, Begin(f));
    Extend(false, s, run + [Begin(f)], Next(at, Begin(f)), Writer);
    run, at := run + [Begin(f)] + [Writer], Next(Next(at, Begin(f)), Writer);
    assert [a, b, c, d, e] + [f] == [a, b, c, d, e, f];
  }
}
