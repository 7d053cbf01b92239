/** The ping state machine of ping.cc on values: the fields of Ping, the asynchronous
    operations it has outstanding, and its handlers as state transformers. */
module PingModel {
  import opened MachineTypes
  import opened Checksums
  import opened Modular
  import opened IcmpHeaders
  import opened Ipv4Headers

  /** The handlers that are bound to timer_. */
  datatype Continuation = HandleTimeout | StartSend

  /** What happened, in order; Judged is an execution of handle_timeout. */
  datatype Entry = Sent(request: seq<byte>) | Matched | Judged | Halted

  datatype PingState = PingState(
    identifier: uint16,
    sequenceNumber: uint16,
    numReplies: nat,
    timeOut: int,
    timeOutCounter: int,
    waiting: seq<Continuation>,  // async_wait calls whose timer still runs
    ready: seq<Continuation>,    // async_wait calls expired or cancelled, handler queued
    receives: nat,               // async_receive calls outstanding
    stopped: bool,               // io_service_.stop() was called
    log: seq<Entry>)

  /** "\"Hello!\" from Asio ping." in ASCII. */
  const BODY: seq<byte> := [
    0x22, 0x48, 0x65, 0x6C, 0x6C, 0x6F, 0x21, 0x22, 0x20, 0x66, 0x72, 0x6F,
    0x6D, 0x20, 0x41, 0x73, 0x69, 0x6F, 0x20, 0x70, 0x69, 0x6E, 0x67, 0x2E]

  function PlainHeader(kind: byte, id: uint16, number: uint16): (rep: seq<byte>)
    ensures |rep| == 8 && WordAt(rep, 4) == id as nat && WordAt(rep, 6) == number as nat
  {
    [kind, 0, 0, 0, (id / 0x100) as byte, (id % 0x100) as byte,
     (number / 0x100) as byte, (number % 0x100) as byte]
  }

  /** The bytes of an echo request (section "Echo or Echo Reply Message" of RFC 792). */
  function EchoRequest(id: uint16, number: uint16): (message: seq<byte>)
    ensures |message| == 8 + |BODY|
  {
    var rep := PlainHeader(ECHO_REQUEST, id, number);
    WithChecksum(rep, Checksum(rep, BODY)) + BODY
  }

  /** The body of a request, as ping.cc spells it. */
  const TEXT: string := "\"Hello!\" from Asio ping."

  /** An echo request by its bytes: type 8, code 0, the identifier and the number with the
      high byte first, the text, and a checksum that the receiver accepts. */
  predicate IsEchoRequest(m: seq<byte>, id: nat, number: nat) {
    && |m| == 8 + |TEXT|
    && m[0] == 8 && m[1] == 0
    && m[4] as nat * 0x100 + m[5] as nat == id
    && m[6] as nat * 0x100 + m[7] as nat == number
    && (forall i :: 0 <= i < |TEXT| ==> m[8 + i] as int == TEXT[i] as int)
    && OnesSum(m) == 0xFFFF
  }

  lemma EchoRequestIs(id: uint16, number: uint16)
    ensures IsEchoRequest(EchoRequest(id, number), id as nat, number as nat)
  {
    var rep := PlainHeader(ECHO_REQUEST, id, number);
    ShortMessageAccepted(rep, BODY);
    assert EchoRequest(id, number) == WithChecksum(rep, Checksum(rep, BODY)) + BODY;
    hide *;
    BodyIsText();
    HeaderBytes(ECHO_REQUEST, id, number, Checksum(rep, BODY));
    MessageIs(WithChecksum(rep, Checksum(rep, BODY)), BODY, id as nat, number as nat);
  }

  lemma MessageIs(front: seq<byte>, body: seq<byte>, id: nat, number: nat)
    requires |front| == 8 && front[0] == 8 && front[1] == 0
    requires front[4] as nat * 0x100 + front[5] as nat == id
    requires front[6] as nat * 0x100 + front[7] as nat == number
    requires |body| == |TEXT| && forall i :: 0 <= i < |TEXT| ==> body[i] as int == TEXT[i] as int
    requires OnesSum(front + body) == 0xFFFF
    ensures IsEchoRequest(front + body, id, number)
  {
    hide OnesSum;
    var m := front + body;
    assert forall i :: 0 <= i < |body| ==> m[8 + i] == body[i];
  }

  lemma HeaderBytes(kind: byte, id: uint16, number: uint16, c: nat)
    requires c <= 0xFFFF
    ensures var h := WithChecksum(PlainHeader(kind, id, number), c);
            && h[0] == kind && h[1] == 0
            && h[4] as nat * 0x100 + h[5] as nat == id as nat
            && h[6] as nat * 0x100 + h[7] as nat == number as nat
  {
  }

  lemma BodyIsText()
    ensures |BODY| == |TEXT| && forall i :: 0 <= i < |TEXT| ==> BODY[i] as int == TEXT[i] as int
  {
  }

  // ---- the timer and the handlers ----------------------------------------------

  /** Cancelling or rearming the timer queues the handlers waiting on it. */
  function Release(p: PingState): PingState {
    p.(ready := p.ready + p.waiting, waiting := [])
  }

  function AsyncWait(p: PingState, k: Continuation): PingState {
    p.(waiting := p.waiting + [k])
  }

  function Note(p: PingState, e: Entry): PingState {
    p.(log := p.log + [e])
  }

  function NextNumber(n: uint16): uint16 {
    if n == 0xFFFF then 0 else n + 1
  }

  function Send(p: PingState): PingState {
    var number := NextNumber(p.sequenceNumber);
    var p1 := Note(p.(sequenceNumber := number), Sent(EchoRequest(p.identifier, number)));
    AsyncWait(Release(p1.(numReplies := 0)), HandleTimeout)
  }

  function Judge(p: PingState): PingState {
    var p1 := Note(p, Judged);
    if p.numReplies != 0 then AsyncWait(Release(p1.(timeOut := 0)), StartSend)
    else if p.timeOut + 1 == p.timeOutCounter then
      Note(Release(p1.(timeOut := p.timeOut + 1)).(stopped := true), Halted)
    else AsyncWait(Release(p1.(timeOut := p.timeOut + 1)), StartSend)
  }

  /** The datagram is an echo reply to the request sent last. */
  predicate Matches(p: PingState, d: seq<byte>) {
    match IcmpOf(d)
    case None => false
    case Some(h) =>
      h[0] == ECHO_REPLY && WordAt(h, 4) == p.identifier as nat && WordAt(h, 6) == p.sequenceNumber as nat
  }

  function Receive(p: PingState, d: seq<byte>): PingState {
    if Matches(p, d) then Note(Release(p.(numReplies := p.numReplies + 1)), Matched) else p
  }

  // ---- the event loop -------------------------------------------------------------

  /** Steps of io_service_.run(), in any order the network and the clock choose. */
  datatype Event = Elapse | RunReady | Datagram(bytes: seq<byte>)

  predicate Enabled(p: PingState, e: Event) {
    && !p.stopped
    && match e
       case Elapse => p.waiting != []
       case RunReady => p.ready != []
       case Datagram(_) => p.receives > 0
  }

  function Next(p: PingState, e: Event): PingState
    requires Enabled(p, e)
  {
    match e
    case Elapse => Release(p)
    case RunReady => (
      var p1 := p.(ready := p.ready[1..]);
      match p.ready[0]
      case HandleTimeout => Judge(p1)
      case StartSend => Send(p1))
    case Datagram(d) => Receive(p, d)
  }

  /** ping_until_disconnect up to io_service_.run(), on an object that has not pinged yet. */
  function Launch(id: uint16, counter: int): PingState {
    Send(PingState(id, 0, 0, 0, counter, [], [], 0, false, [])).(receives := 1)
  }

  /** ping_until_disconnect up to io_service_.run(), called in any state. */
  function Relaunch(p: PingState, counter: int): PingState {
    var p1 := Send(p.(timeOut := 0, timeOutCounter := counter));
    p1.(receives := p1.receives + 1)
  }

  predicate Possible(p: PingState, run: seq<Event>)
    decreases |run|
  {
    run == [] || (Enabled(p, run[0]) && Possible(Next(p, run[0]), run[1..]))
  }

  function Run(p: PingState, run: seq<Event>): PingState
    requires Possible(p, run)
    decreases |run|
  {
    if run == [] then p else Run(Next(p, run[0]), run[1..])
  }

  // ---- what a log says, read on its own ---------------------------------------------

  function Front(log: seq<Entry>): seq<Entry>
    requires log != []
  {
    log[..|log| - 1]
  }

  function Sents(log: seq<Entry>): nat {
    if log == [] then 0 else Sents(Front(log)) + if log[|log| - 1].Sent? then 1 else 0
  }

  function Verdicts(log: seq<Entry>): seq<bool> {
    if log == [] then []
    else Verdicts(Front(log)) + if log[|log| - 1].Judged? then [Answered(Front(log))] else []
  }

  /** A matching reply was handled since the last request was sent. */
  predicate Answered(log: seq<Entry>) {
    log != [] && var e := log[|log| - 1]; e.Matched? || (!e.Sent? && Answered(Front(log)))
  }

  /** Length of the trailing block of unanswered requests. */
  function Misses(verdicts: seq<bool>): (n: nat)
    ensures n <= |verdicts|
  {
    if verdicts == [] || verdicts[|verdicts| - 1] then 0 else 1 + Misses(verdicts[..|verdicts| - 1])
  }

  lemma LogGrows(log: seq<Entry>, e: Entry)
    ensures Sents(log + [e]) == Sents(log) + if e.Sent? then 1 else 0
    ensures Verdicts(log + [e]) == if e.Judged? then Verdicts(log) + [Answered(log)] else Verdicts(log)
    ensures Answered(log + [e]) <==> e.Matched? || (!e.Sent? && Answered(log))
  {
    assert Front(log + [e]) == log;
  }

  lemma MissesGrow(v: seq<bool>, answered: bool)
    ensures Misses(v + [answered]) == if answered then 0 else 1 + Misses(v)
  {
    assert (v + [answered])[..|v|] == v;
  }

  // ---- the invariant ------------------------------------------------------------------

  /** One timer continuation and one receive are outstanding between handlers. */
  ghost predicate LoopInv(p: PingState) {
    && p.receives == 1
    && |p.waiting| + |p.ready| == (if p.stopped then 0 else 1)
  }

  function Pending(p: PingState): seq<Continuation> {
    p.ready + p.waiting
  }

  /** A request waits for its verdict exactly while handle_timeout is pending. */
  ghost predicate TurnInv(p: PingState) {
    var s, v := Sents(p.log), |Verdicts(p.log)|;
    && s == v + (if HandleTimeout in Pending(p) then 1 else 0)
    && p.sequenceNumber == Number(s)
  }

  ghost predicate CountInv(p: PingState) {
    && (p.numReplies > 0 <==> Answered(p.log))
    && p.timeOut == Misses(Verdicts(p.log))
    && (p.stopped <==> p.timeOut == p.timeOutCounter && p.timeOut > 0)
  }

  /** Before the last verdict the block of unanswered requests was shorter than the limit. */
  ghost predicate EarlierInv(limit: int, v: seq<bool>) {
    forall k :: 0 <= k < |v| && limit >= 1 ==> Misses(v[..k]) < limit
  }

  ghost predicate InStep(log: seq<Entry>) {
    |Verdicts(log)| <= Sents(log) <= |Verdicts(log)| + 1
  }

  ghost predicate AlwaysInStep(log: seq<Entry>) {
    forall i :: 0 <= i <= |log| ==> InStep(log[..i])
  }

  ghost predicate NumberedAt(id: uint16, log: seq<Entry>, i: nat)
    requires i < |log|
  {
    log[i].Sent? ==> log[i].request == EchoRequest(id, Number(Sents(log[..i]) + 1))
  }

  ghost predicate RequestsNumbered(id: uint16, log: seq<Entry>) {
    forall i :: 0 <= i < |log| ==> NumberedAt(id, log, i)
  }

  ghost predicate HistoryInv(id: uint16, log: seq<Entry>) {
    AlwaysInStep(log) && RequestsNumbered(id, log)
  }

  function Number(k: nat): uint16 {
    (k % 0x1_0000) as uint16
  }

  ghost predicate Inv(p: PingState) {
    && LoopInv(p) && TurnInv(p) && CountInv(p)
    && EarlierInv(p.timeOutCounter, Verdicts(p.log)) && HistoryInv(p.identifier, p.log)
  }

  lemma InStepGrows(log: seq<Entry>, e: Entry)
    requires AlwaysInStep(log) && InStep(log + [e])
    ensures AlwaysInStep(log + [e])
  {
    hide InStep;
    forall i | 0 <= i <= |log + [e]|
      ensures InStep((log + [e])[..i])
    {
      PrefixOfLonger(log, e, i);
    }
  }

  lemma NumberedAtGrows(id: uint16, log: seq<Entry>, e: Entry, i: nat)
    requires i <= |log| && (i < |log| ==> NumberedAt(id, log, i))
    requires e.Sent? ==> e.request == EchoRequest(id, Number(Sents(log) + 1))
    ensures NumberedAt(id, log + [e], i)
  {
    hide Sents, EchoRequest, Number;
    PrefixOfLonger(log, e, i);
  }

  lemma NumbersGrow(id: uint16, log: seq<Entry>, e: Entry)
    requires RequestsNumbered(id, log)
    requires e.Sent? ==> e.request == EchoRequest(id, Number(Sents(log) + 1))
    ensures RequestsNumbered(id, log + [e])
  {
    hide NumberedAt;
    forall i | 0 <= i < |log + [e]|
      ensures NumberedAt(id, log + [e], i)
    {
      NumberedAtGrows(id, log, e, i);
    }
  }

  /** One more entry keeps the history in step. */
  lemma HistoryGrows(id: uint16, log: seq<Entry>, e: Entry)
    requires HistoryInv(id, log) && InStep(log + [e])
    requires e.Sent? ==> e.request == EchoRequest(id, Number(Sents(log) + 1))
    ensures HistoryInv(id, log + [e])
  {
    hide Sents, EchoRequest, InStep, Number, AlwaysInStep, RequestsNumbered;
    InStepGrows(log, e);
    NumbersGrow(id, log, e);
  }

  lemma PrefixOfLonger(log: seq<Entry>, e: Entry, i: nat)
    requires i <= |log| + 1
    ensures (log + [e])[..i] == if i < |log| then log[..i] else if i == |log| then log else log + [e]
    ensures i == |log| ==> log[..i] == log
  {
  }

  /** So does one more verdict, unless the limit had been reached before it. */
  lemma EarlierGrows(limit: int, v: seq<bool>, answered: bool)
    requires EarlierInv(limit, v) && (limit >= 1 ==> Misses(v) < limit)
    ensures EarlierInv(limit, v + [answered])
  {
    var v' := v + [answered];
    forall k | 0 <= k < |v'| && limit >= 1
      ensures Misses(v'[..k]) < limit
    {
      assert v'[..k] == v[..k] && v[..|v|] == v;
    }
  }

  /** Below the limit a block of unanswered requests has not reached it yet. */
  lemma BelowLimit(p: PingState)
    requires CountInv(p) && EarlierInv(p.timeOutCounter, Verdicts(p.log)) && !p.stopped
    ensures p.timeOutCounter >= 1 ==> Misses(Verdicts(p.log)) < p.timeOutCounter
  {
    var v := Verdicts(p.log);
    hide Verdicts;
    if v != [] {
      var before := v[..|v| - 1];
      assert v == before + [v[|v| - 1]];
      MissesGrow(before, v[|v| - 1]);
    }
  }

  lemma SendKeepsInv(p: PingState)
    requires TurnInv(p) && CountInv(p)
    requires EarlierInv(p.timeOutCounter, Verdicts(p.log)) && HistoryInv(p.identifier, p.log)
    requires p.receives == 1 && Pending(p) == [] && !p.stopped
    ensures Inv(Send(p))
  {
    hide Sents, Verdicts, Answered, Misses, EchoRequest, HistoryInv, EarlierInv, Number, NextNumber;
    NextIsNumber(p.sequenceNumber, Sents(p.log));
    var e := Sent(EchoRequest(p.identifier, NextNumber(p.sequenceNumber)));
    LogGrows(p.log, e);
    HistoryGrows(p.identifier, p.log, e);
    assert Pending(Send(p)) == [HandleTimeout];
  }

  lemma NextIsNumber(n: uint16, sent: nat)
    requires n == Number(sent)
    ensures NextNumber(n) == Number(sent + 1)
  {
    ModNext(sent, 0x1_0000);
  }

  /** handle_timeout is about to run: its request has no verdict yet. */
  ghost predicate Judging(p: PingState) {
    && CountInv(p) && !p.stopped && p.receives == 1 && Pending(p) == []
    && EarlierInv(p.timeOutCounter, Verdicts(p.log)) && HistoryInv(p.identifier, p.log)
    && Sents(p.log) == |Verdicts(p.log)| + 1 && p.sequenceNumber == Number(Sents(p.log))
  }

  predicate LimitReached(p: PingState) {
    p.numReplies == 0 && p.timeOut + 1 == p.timeOutCounter
  }

  /** The log with its new verdict, before and after the entry that reports a stop. */
  lemma VerdictNoted(p: PingState)
    requires Judging(p)
    ensures var log := p.log + [Judged]; var v := Verdicts(log);
            && Sents(log) == Sents(p.log) == |v|
            && Misses(v) == (if p.numReplies > 0 then 0 else 1 + p.timeOut)
            && (Answered(log) <==> p.numReplies > 0)
            && EarlierInv(p.timeOutCounter, v) && HistoryInv(p.identifier, log)
            && Sents(log + [Halted]) == Sents(log) && Verdicts(log + [Halted]) == v
            && (Answered(log + [Halted]) <==> Answered(log))
            && HistoryInv(p.identifier, log + [Halted])
  {
    BelowLimit(p);
    hide Sents, Verdicts, Answered, Misses, EchoRequest, HistoryInv, EarlierInv;
    var v, log := Verdicts(p.log), p.log + [Judged];
    LogGrows(p.log, Judged);
    MissesGrow(v, Answered(p.log));
    HistoryGrows(p.identifier, p.log, Judged);
    EarlierGrows(p.timeOutCounter, v, Answered(p.log));
    LogGrows(log, Halted);
    HistoryGrows(p.identifier, log, Halted);
  }

  lemma JudgeHalts(p: PingState)
    requires Judging(p) && LimitReached(p)
    ensures Inv(Judge(p))
  {
    VerdictNoted(p);
    hide Sents, Verdicts, Answered, Misses, EchoRequest, HistoryInv, EarlierInv, Number;
    assert Pending(Judge(p)) == [];
  }

  lemma JudgeGoesOn(p: PingState)
    requires Judging(p) && !LimitReached(p)
    ensures Inv(Judge(p))
  {
    VerdictNoted(p);
    hide Sents, Verdicts, Answered, Misses, EchoRequest, HistoryInv, EarlierInv, Number;
    assert Pending(Judge(p)) == [StartSend];
  }

  lemma ReceiveKeepsInv(p: PingState, d: seq<byte>)
    requires Inv(p)
    ensures Inv(Receive(p, d))
  {
    hide Sents, Verdicts, Answered, Misses, EchoRequest, HistoryInv, EarlierInv, Matches;
    if Matches(p, d) {
      LogGrows(p.log, Matched);
      HistoryGrows(p.identifier, p.log, Matched);
      assert Pending(Receive(p, d)) == Pending(p);
    }
  }

  lemma StepKeepsInv(p: PingState, e: Event)
    requires Inv(p) && Enabled(p, e)
    ensures Inv(Next(p, e))
  {
    hide Sents, Verdicts, Answered, Misses, HistoryInv, EarlierInv, Send, Judge, Receive;
    match e
    case Elapse =>
      assert Pending(Release(p)) == Pending(p);
    case RunReady =>
      assert p.waiting == [] && p.ready == [p.ready[0]];
      var p1 := p.(ready := p.ready[1..]);
      assert Pending(p1) == [] && Pending(p) == [p.ready[0]];
      match p.ready[0] {
        case HandleTimeout =>
          if LimitReached(p1) {
            JudgeHalts(p1);
          } else {
            JudgeGoesOn(p1);
          }
        case StartSend => SendKeepsInv(p1);
      }
    case Datagram(d) => ReceiveKeepsInv(p, d);
  }

  lemma LaunchInv(id: uint16, counter: int)
    ensures Inv(Launch(id, counter))
  {
    SendKeepsInv(PingState(id, 0, 0, 0, counter, [], [], 1, false, []));
  }

  lemma {:induction false} RunKeepsInv(p: PingState, run: seq<Event>)
    requires Inv(p) && Possible(p, run)
    ensures Inv(Run(p, run))
    ensures Run(p, run).timeOutCounter == p.timeOutCounter && Run(p, run).identifier == p.identifier
    decreases |run|
  {
    hide Inv, Enabled;
    if run != [] {
      StepKeepsInv(p, run[0]);
      RunKeepsInv(Next(p, run[0]), run[1..]);
    }
  }

  // ---- main results over every run -----------------------------------------------------

  lemma RunInv(id: uint16, counter: int, run: seq<Event>)
    requires Possible(Launch(id, counter), run)
    ensures var p := Run(Launch(id, counter), run);
            Inv(p) && p.timeOutCounter == counter && p.identifier == id
  {
    hide EchoRequest, Inv;
    LaunchInv(id, counter);
    RunKeepsInv(Launch(id, counter), run);
  }

  /** Until stop exactly one timer continuation and one receive are outstanding between
      handlers; after stop the timer has none and nothing runs any more. */
  lemma OneContinuation(id: uint16, counter: int, run: seq<Event>)
    requires Possible(Launch(id, counter), run)
    ensures var p := Run(Launch(id, counter), run);
            && p.receives == 1
            && (!p.stopped ==> |Pending(p)| == 1 && (Enabled(p, Elapse) || Enabled(p, RunReady)))
            && (!p.stopped ==> forall d :: Enabled(p, Datagram(d)))
            && (p.stopped ==> Pending(p) == [] && forall e :: !Enabled(p, e))
  {
    hide Launch, Run, Possible, Enabled, Pending, Inv;
    RunInv(id, counter, run);
    LoopInvMeans(Run(Launch(id, counter), run));
  }

  lemma LoopInvMeans(p: PingState)
    requires Inv(p)
    ensures p.receives == 1
    ensures !p.stopped ==> |Pending(p)| == 1 && (Enabled(p, Elapse) || Enabled(p, RunReady))
    ensures !p.stopped ==> forall d :: Enabled(p, Datagram(d))
    ensures p.stopped ==> Pending(p) == [] && forall e :: !Enabled(p, e)
  {
    hide TurnInv, CountInv, EarlierInv, HistoryInv;
  }

  /** time_out_ is the length of the trailing block of unanswered requests, and the
      service stops at the first moment that block reaches the limit, never earlier. */
  lemma StopRule(id: uint16, counter: int, run: seq<Event>)
    requires counter >= 1 && Possible(Launch(id, counter), run)
    ensures var p := Run(Launch(id, counter), run); var v := Verdicts(p.log);
            && p.timeOut == Misses(v) <= counter
            && (p.stopped <==> Misses(v) == counter)
            && (forall k :: 0 <= k < |v| ==> Misses(v[..k]) < counter)
  {
    RunInv(id, counter, run);
    hide Launch, Run, Verdicts, LoopInv, TurnInv, HistoryInv;
    var p := Run(Launch(id, counter), run);
    if !p.stopped {
      BelowLimit(p);
    }
  }

  /** A limit below one is never reached; time_out_ grows by one a request at most. */
  lemma NoLimitNeverStops(id: uint16, counter: int, run: seq<Event>)
    requires counter < 1 && Possible(Launch(id, counter), run)
    ensures var p := Run(Launch(id, counter), run);
            !p.stopped && p.timeOut == Misses(Verdicts(p.log)) <= |Verdicts(p.log)|
  {
    RunInv(id, counter, run);
    hide Launch, Run, Verdicts, LoopInv, TurnInv, HistoryInv;
  }

  lemma RelaunchStopped(p: PingState, counter: int)
    requires TurnInv(p) && LoopInv(p) && p.stopped
    ensures Relaunch(p, counter).log == p.log + [Sent(EchoRequest(p.identifier, Number(Sents(p.log) + 1)))]
    ensures Relaunch(p, counter).stopped
  {
    hide Verdicts, EchoRequest, Number, NextNumber, Sents;
    NextIsNumber(p.sequenceNumber, Sents(p.log));
  }

  /** A service that has stopped stays stopped: pinging again sends one request, and then
      the event loop ends at once. */
  lemma PingingAgainSendsOnce(id: uint16, counter: int, run: seq<Event>, again: int)
    requires Possible(Launch(id, counter), run) && Run(Launch(id, counter), run).stopped
    ensures var p := Run(Launch(id, counter), run); var p1 := Relaunch(p, again);
            && p1.log == p.log + [Sent(EchoRequest(id, Number(Sents(p.log) + 1)))]
            && forall e :: !Enabled(p1, e)
  {
    hide Launch, Run, Possible, Relaunch, LoopInv, TurnInv, CountInv, HistoryInv, EarlierInv;
    hide EchoRequest, Number, Sents, Verdicts;
    RunInv(id, counter, run);
    RelaunchStopped(Run(Launch(id, counter), run), again);
  }

  /** At every moment each request has been judged once, except possibly the last one. */
  lemma EachRequestJudgedOnce(id: uint16, counter: int, run: seq<Event>, i: nat)
    requires Possible(Launch(id, counter), run) && i <= |Run(Launch(id, counter), run).log|
    ensures var before := Run(Launch(id, counter), run).log[..i];
            |Verdicts(before)| <= Sents(before) <= |Verdicts(before)| + 1
  {
    RunInv(id, counter, run);
    hide Launch, Run, Verdicts, Sents, LoopInv, TurnInv, CountInv, EarlierInv;
    assert InStep(Run(Launch(id, counter), run).log[..i]);
  }

  /** The k-th request on the wire is an echo request with number k modulo 65536. */
  lemma RequestsAreValid(id: uint16, counter: int, run: seq<Event>, i: nat)
    requires Possible(Launch(id, counter), run) && i < |Run(Launch(id, counter), run).log|
    requires Run(Launch(id, counter), run).log[i].Sent?
    ensures var log := Run(Launch(id, counter), run).log; var k := Sents(log[..i]) + 1;
            && log[i].request == EchoRequest(id, Number(k))
            && IsEchoRequest(log[i].request, id as nat, k % 0x1_0000)
  {
    hide Launch, Run, Possible, Inv, EchoRequest, IsEchoRequest, Sents;
    RunInv(id, counter, run);
    RequestAt(Run(Launch(id, counter), run), i);
  }

  lemma RequestAt(p: PingState, i: nat)
    requires Inv(p) && i < |p.log| && p.log[i].Sent?
    ensures var k := Sents(p.log[..i]) + 1;
            && p.log[i].request == EchoRequest(p.identifier, Number(k))
            && IsEchoRequest(p.log[i].request, p.identifier as nat, k % 0x1_0000)
  {
    hide EchoRequest, IsEchoRequest, Sents, LoopInv, TurnInv, CountInv, EarlierInv;
    assert NumberedAt(p.identifier, p.log, i);
    EchoRequestIs(p.identifier, Number(Sents(p.log[..i]) + 1));
  }

  /** A datagram that carries the fields of a request back: any valid IPv4 header, then
      the request with the given type and a new checksum, then data. With type 0 it is
      the reply to the request, with type 8 the request itself. */
  ghost predicate Echoes(d: seq<byte>, kind: byte, request: seq<byte>) {
    && |request| >= 8
    && exists ip: seq<byte>, icmp: seq<byte>, payload: seq<byte> :: EchoParts(d, kind, request, ip, icmp, payload)
  }

  ghost predicate EchoParts(d: seq<byte>, kind: byte, request: seq<byte>,
                            ip: seq<byte>, icmp: seq<byte>, payload: seq<byte>)
    requires |request| >= 8
  {
    && d == ip + icmp + payload
    && 20 <= |ip| <= 60 && |ip| % 4 == 0 && ip[0] as nat == 0x40 + |ip| / 4
    && |icmp| == 8 && icmp[0] == kind && icmp[4..] == request[4..8]
  }

  lemma RequestFields(id: uint16, number: uint16)
    ensures EchoRequest(id, number)[4..8] == PlainHeader(ECHO_REQUEST, id, number)[4..]
  {
    hide Checksum;
  }

  lemma EchoFields(d: seq<byte>, kind: byte, id: uint16, number: uint16)
    requires Echoes(d, kind, EchoRequest(id, number))
    ensures IcmpOf(d).Some?
    ensures var h := IcmpOf(d).value;
            h[0] == kind && WordAt(h, 4) == id as nat && WordAt(h, 6) == number as nat
  {
    hide EchoRequest, PlainHeader, IcmpOf, WordAt;
    RequestFields(id, number);
    var rep := PlainHeader(ECHO_REQUEST, id, number);
    var ip, icmp, payload :| EchoParts(d, kind, EchoRequest(id, number), ip, icmp, payload);
    WrittenHeaderComesBack(|ip| / 4, ip, icmp, payload);
    SameBack(icmp, rep);
  }

  lemma SameBack(a: seq<byte>, b: seq<byte>)
    requires |a| == |b| == 8 && a[4..] == b[4..]
    ensures WordAt(a, 4) == WordAt(b, 4) && WordAt(a, 6) == WordAt(b, 6)
  {
    assert forall i :: 4 <= i < 8 ==> a[i] == a[4..][i - 4] == b[4..][i - 4] == b[i];
  }

  lemma MatchesIffSameNumber(p: PingState, kind: byte, other: uint16, k: nat, d: seq<byte>)
    requires Inv(p) && k <= Sents(p.log) && Echoes(d, kind, EchoRequest(other, Number(k)))
    ensures Matches(p, d) <==>
              kind == 0 && other == p.identifier && (Sents(p.log) - k) % 0x1_0000 == 0
  {
    hide EchoRequest, Echoes, IcmpOf, Sents, Verdicts, HistoryInv, EarlierInv, CountInv;
    EchoFields(d, kind, other, Number(k));
    SameSlot(k, Sents(p.log), 0x1_0000);
  }

  /** Of all echoes of requests, from this process or another, exactly the replies to
      this process are accepted whose request number is the number of requests sent by
      then, up to multiples of 65536. */
  lemma OnlyCurrentReplyMatches(
      id: uint16, counter: int, run: seq<Event>, kind: byte, other: uint16, k: nat, d: seq<byte>)
    requires Possible(Launch(id, counter), run)
    requires k <= Sents(Run(Launch(id, counter), run).log)
    requires Echoes(d, kind, EchoRequest(other, Number(k)))
    ensures var p := Run(Launch(id, counter), run);
            Matches(p, d) <==> kind == 0 && other == id && (Sents(p.log) - k) % 0x1_0000 == 0
  {
    hide *;
    RunInv(id, counter, run);
    MatchesIffSameNumber(Run(Launch(id, counter), run), kind, other, k, d);
  }

  /** What the host that is pinged makes of a request: type 0 and a new checksum. */
  function ReplyTo(request: seq<byte>): (reply: seq<byte>)
    requires |request| >= 8
    ensures |reply| == |request|
  {
    var rep := request[..8][0 := 0 as byte];
    WithChecksum(rep, Checksum(rep, request[8..])) + request[8..]
  }

  lemma ReplyIs(request: seq<byte>)
    requires 8 <= |request| <= 131076
    ensures var reply := ReplyTo(request);
            && reply[0] == 0 && reply[1] == request[1] && reply[4..] == request[4..]
            && OnesSum(reply) == 0xFFFF
  {
    var rep := request[..8][0 := 0 as byte];
    ShortMessageAccepted(rep, request[8..]);
    hide Checksum, OnesSum;
    var front := WithChecksum(rep, Checksum(rep, request[8..]));
    assert ReplyTo(request)[..8] == front;
    assert front[4..] == request[..8][4..];
    assert request[4..] == request[4..8] + request[8..];
  }

  lemma ReplyEchoes(request: seq<byte>, ip: seq<byte>)
    requires 8 <= |request| <= 131076
    requires 20 <= |ip| <= 60 && |ip| % 4 == 0 && ip[0] as nat == 0x40 + |ip| / 4
    ensures Echoes(ip + ReplyTo(request), 0, request)
  {
    var reply := ReplyTo(request);
    ReplyIs(request);
    hide ReplyTo;
    assert ip + reply == ip + reply[..8] + reply[8..];
    assert reply[..8][4..] == reply[4..][..4] == request[4..][..4] == request[4..8];
    assert EchoParts(ip + reply, 0, request, ip, reply[..8], reply[8..]);
  }

  /** The round trip: the reply to the request sent last, behind any valid IPv4 header,
      with options or without, counts. */
  lemma ReplyToLastRequestMatches(id: uint16, counter: int, run: seq<Event>, i: nat, ip: seq<byte>)
    requires Possible(Launch(id, counter), run) && i < |Run(Launch(id, counter), run).log|
    requires var log := Run(Launch(id, counter), run).log;
             log[i].Sent? && forall j :: i < j < |log| ==> !log[j].Sent?
    requires 20 <= |ip| <= 60 && |ip| % 4 == 0 && ip[0] as nat == 0x40 + |ip| / 4
    ensures var p := Run(Launch(id, counter), run);
            && |p.log[i].request| >= 8
            && var d := ip + ReplyTo(p.log[i].request);
               Matches(p, d) && Receive(p, d).numReplies == p.numReplies + 1
  {
    hide *;
    RunInv(id, counter, run);
    LastReplyMatches(Run(Launch(id, counter), run), i, ip);
  }

  lemma LastReplyMatches(p: PingState, i: nat, ip: seq<byte>)
    requires Inv(p) && i < |p.log| && p.log[i].Sent? && forall j :: i < j < |p.log| ==> !p.log[j].Sent?
    requires 20 <= |ip| <= 60 && |ip| % 4 == 0 && ip[0] as nat == 0x40 + |ip| / 4
    ensures |p.log[i].request| >= 8
    ensures var d := ip + ReplyTo(p.log[i].request);
            Matches(p, d) && Receive(p, d).numReplies == p.numReplies + 1
  {
    hide EchoRequest, Echoes, Sents, LoopInv, TurnInv, CountInv, EarlierInv, HistoryInv, ReplyTo, Matches, Number;
    var request, k := p.log[i].request, Sents(p.log[..i]) + 1;
    RequestAt(p, i);
    NoMoreSents(p.log, i, |p.log|);
    assert p.log[..|p.log|] == p.log;
    ReplyEchoes(request, ip);
    MatchesIffSameNumber(p, 0, p.identifier, k, ip + ReplyTo(request));
  }

  lemma {:induction false} NoMoreSents(log: seq<Entry>, i: nat, j: nat)
    requires i < j <= |log| && log[i].Sent? && forall m :: i < m < j ==> !log[m].Sent?
    ensures Sents(log[..j]) == Sents(log[..i]) + 1
  {
    assert Front(log[..j]) == log[..j - 1];
    if i < j - 1 {
      NoMoreSents(log, i, j - 1);
    }
  }

  /** A matching reply that arrives before the verdict ends the wait: handle_timeout can
      run at once, finds the request answered and goes on to the next request. */
  lemma MatchLeadsToVerdict(id: uint16, counter: int, run: seq<Event>, d: seq<byte>)
    requires Possible(Launch(id, counter), run)
    requires var p := Run(Launch(id, counter), run);
             Enabled(p, Datagram(d)) && Matches(p, d) && Pending(p) == [HandleTimeout]
    ensures var p := Run(Launch(id, counter), run);
            var p1 := Next(p, Datagram(d));
            && Enabled(p1, RunReady) && !Enabled(p1, Elapse)
            && var p2 := Next(p1, RunReady);
               && Verdicts(p2.log) == Verdicts(p.log) + [true]
               && p2.timeOut == 0 && !p2.stopped && Pending(p2) == [StartSend]
  {
    var p := Run(Launch(id, counter), run);
    RunInv(id, counter, run);
    hide Launch, Run, Possible;
    MatchEndsTheWait(p, d);
  }

  lemma MatchEndsTheWait(p: PingState, d: seq<byte>)
    requires Inv(p) && Enabled(p, Datagram(d)) && Matches(p, d) && Pending(p) == [HandleTimeout]
    ensures var p1 := Next(p, Datagram(d));
            && Enabled(p1, RunReady) && !Enabled(p1, Elapse)
            && var p2 := Next(p1, RunReady);
               && Verdicts(p2.log) == Verdicts(p.log) + [true]
               && p2.timeOut == 0 && !p2.stopped && Pending(p2) == [StartSend]
  {
    hide Verdicts, Sents, Answered, Misses, HistoryInv, EarlierInv, Matches;
    var p1 := Next(p, Datagram(d));
    assert p1.ready == Pending(p);
    LogGrows(p.log, Matched);
    LogGrows(p1.log, Judged);
    assert Pending(Next(p1, RunReady)) == [StartSend];
  }

  // ---- a host that never answers -------------------------------------------------------

  /** The timer runs out, and then its handler runs. */
  function Tick(p: PingState): PingState
    requires Enabled(p, Elapse) && p.ready == []
  {
    Next(Next(p, Elapse), RunReady)
  }

  /** A request has just been sent, and the timer runs. */
  ghost predicate Waiting(p: PingState, k: Continuation) {
    Inv(p) && !p.stopped && p.waiting == [k] && p.ready == [] && p.numReplies == 0
  }

  lemma TickJudges(p: PingState)
    requires Waiting(p, HandleTimeout)
    ensures var p1 := Tick(p);
            && Inv(p1) && Sents(p1.log) == Sents(p.log) && p1.timeOut == p.timeOut + 1
            && p1.timeOutCounter == p.timeOutCounter
            && if p.timeOut + 1 == p.timeOutCounter then p1.stopped else Waiting(p1, StartSend)
  {
    hide Sents, Verdicts, Answered, Misses, HistoryInv, EarlierInv, Number;
    var p0 := Next(p, Elapse);
    assert p0.ready == [HandleTimeout];
    StepKeepsInv(p, Elapse);
    StepKeepsInv(p0, RunReady);
    LogGrows(p.log, Judged);
    LogGrows(p.log + [Judged], Halted);
  }

  lemma TickSends(p: PingState)
    requires Waiting(p, StartSend)
    ensures var p1 := Tick(p);
            && Waiting(p1, HandleTimeout) && Sents(p1.log) == Sents(p.log) + 1
            && p1.timeOut == p.timeOut && p1.timeOutCounter == p.timeOutCounter
  {
    hide Sents, Verdicts, Answered, Misses, HistoryInv, EarlierInv, Number, EchoRequest;
    var p0 := Next(p, Elapse);
    assert p0.ready == [StartSend];
    StepKeepsInv(p, Elapse);
    StepKeepsInv(p0, RunReady);
    LogGrows(p.log, Sent(EchoRequest(p.identifier, NextNumber(p.sequenceNumber))));
  }

  lemma RunFirst(p: PingState, e: Event, run: seq<Event>)
    requires Enabled(p, e) && Possible(Next(p, e), run)
    ensures Possible(p, [e] + run) && Run(p, [e] + run) == Run(Next(p, e), run)
  {
    hide Enabled, Next;
    assert ([e] + run)[1..] == run;
  }

  lemma RunTick(p: PingState, run: seq<Event>)
    requires Enabled(p, Elapse) && p.ready == [] && Possible(Tick(p), run)
    ensures Possible(p, [Elapse, RunReady] + run) && Run(p, [Elapse, RunReady] + run) == Run(Tick(p), run)
  {
    hide Send, Judge, Receive, Possible, Run;
    var p0 := Next(p, Elapse);
    RunFirst(p0, RunReady, run);
    RunFirst(p, Elapse, [RunReady] + run);
    assert [Elapse] + ([RunReady] + run) == [Elapse, RunReady] + run;
  }

  /** The state that a run of the clock alone leads to. */
  ghost predicate ClockLeads(p: PingState, run: seq<Event>, p': PingState) {
    Possible(p, run) && Run(p, run) == p' && forall e :: e in run ==> e == Elapse || e == RunReady
  }

  lemma TickLeads(p: PingState, run: seq<Event>, p': PingState)
    requires Enabled(p, Elapse) && p.ready == [] && ClockLeads(Tick(p), run, p')
    ensures ClockLeads(p, [Elapse, RunReady] + run, p')
  {
    hide Possible, Run, Tick, Enabled;
    RunTick(p, run);
  }

  lemma {:induction false} SilenceStops(p: PingState) returns (run: seq<Event>, p': PingState)
    requires Waiting(p, HandleTimeout) && p.timeOut < p.timeOutCounter
    ensures ClockLeads(p, run, p') && p'.stopped
    ensures |run| == 4 * (p.timeOutCounter - p.timeOut) - 2
    ensures Sents(p'.log) == Sents(p.log) + (p.timeOutCounter - p.timeOut) - 1
    decreases p.timeOutCounter - p.timeOut
  {
    TickJudges(p);
    var p1 := Tick(p);
    if p1.stopped {
      run, p' := [], p1;
      assert ClockLeads(p1, run, p');
    } else {
      TickSends(p1);
      hide Inv, Tick, Next, Sents, ClockLeads;
      run, p' := SilenceStops(Tick(p1));
      TickLeads(p1, run, p');
      run := [Elapse, RunReady] + run;
    }
    hide Inv, Tick, Next, Sents, ClockLeads;
    TickLeads(p, run, p');
    run := [Elapse, RunReady] + run;
  }

  /** A host that never answers: the clock alone drives the program, which stops after
      exactly as many requests as the limit allows. */
  lemma SilentHostStops(id: uint16, counter: int) returns (run: seq<Event>)
    requires counter >= 1
    ensures Possible(Launch(id, counter), run) && forall e :: e in run ==> e == Elapse || e == RunReady
    ensures var p := Run(Launch(id, counter), run); p.stopped && Sents(p.log) == counter
  {
    hide Run, Possible, Inv, Sents, Launch;
    LaunchWaits(id, counter);
    var p;
    run, p := SilenceStops(Launch(id, counter));
  }

  lemma LaunchWaits(id: uint16, counter: int)
    ensures var p := Launch(id, counter);
            && Waiting(p, HandleTimeout) && Sents(p.log) == 1
            && p.timeOut == 0 && p.timeOutCounter == counter
  {
    LaunchInv(id, counter);
    hide EchoRequest, Inv;
    assert Launch(id, counter).log == [] + [Sent(EchoRequest(id, 1))];
    LogGrows([], Sent(EchoRequest(id, 1)));
  }
}
