/** A pass of the extractor while other threads write to the ring: each locked read of
    the pass and each locked write is one step, in any order. */
module ExtractorRuns {
  import opened MachineTypes
  import opened RingModel
  import opened PacketLayouts
  import opened Parsing
  import opened Frames

  /** Where the pass stands: the sections still to read, its variables, and the bytes it
      already has of a section that is read byte by byte. */
  datatype Reader = Reading(sections: seq<Section>, p: Pass, got: seq<byte>) | Done(outcome: Outcome)

  predicate ByteWise(s: Section) {
    !s.Data?
  }

  ghost predicate ReaderOk(st: Structure, r: Reader) {
    r.Reading? ==>
      && Covers(st, r.sections)
      && (r.got != [] ==> r.sections != [] && ByteWise(r.sections[0]) && Covers(st, [r.sections[0]])
                          && |r.got| <= SizeOf(st, r.sections[0], r.p))
  }

  /** What the pass does next: a step without the ring, or a locked read of n bytes. */
  datatype Need = Over | Inner | Take(n: nat)

  function NeedOf(st: Structure, r: Reader): Need
    requires ReaderOk(st, r)
  {
    if r.Done? then Over
    else if r.sections == [] then Inner
    else
      CoversRest(st, r.sections);
      var n := SizeOf(st, r.sections[0], r.p);
      if !ByteWise(r.sections[0]) then Take(n)
      else if |r.got| < n then Take(1)
      else Inner
  }

  /** The section at the front is complete. */
  function Complete(st: Structure, r: Reader, bytes: seq<byte>): Reader
    requires ReaderOk(st, r) && r.Reading? && r.sections != []
  {
    CoversRest(st, r.sections);
    var p1 := Absorb(st, r.sections[0], r.p, bytes);
    if Refused(r.sections[0], p1) then Done(Refuse(st, p1)) else Reading(r.sections[1..], p1, [])
  }

  function Move(st: Structure, r: Reader, bytes: seq<byte>): Reader
    requires ReaderOk(st, r) && !NeedOf(st, r).Over?
  {
    if r.sections == [] then Done(Finished(r.p))
    else if NeedOf(st, r).Inner? then Complete(st, r, r.got)
    else if ByteWise(r.sections[0]) then r.(got := r.got + bytes)
    else Complete(st, r, bytes)
  }

  // ---- the whole system ---------------------------------------------------------------

  datatype System = System(ring: Ring, reader: Reader)
  datatype Step = Write(data: seq<byte>) | Advance

  /** A write that fits, or a step of the pass; a read waits until its bytes are there. */
  ghost predicate Enabled(st: Structure, s: System, e: Step) {
    && Ok(s.ring) && ReaderOk(st, s.reader)
    && match e
       case Write(data) => !Overflows(s.ring, |data|)
       case Advance =>
         match NeedOf(st, s.reader)
         case Over => false
         case Inner => true
         case Take(n) => !s.ring.destroyed && n <= Count(s.ring)
  }

  ghost function Next(st: Structure, s: System, e: Step): System
    requires Enabled(st, s, e)
  {
    match e
    case Write(data) => s.(ring := WriteRing(s.ring, data))
    case Advance =>
      match NeedOf(st, s.reader)
      case Inner => s.(reader := Move(st, s.reader, []))
      case Take(n) => System(ReadRing(s.ring, n), Move(st, s.reader, Contents(s.ring)[..n]))
  }

  ghost predicate Possible(st: Structure, s: System, run: seq<Step>)
    decreases |run|
  {
    run == [] || (Enabled(st, s, run[0]) && Possible(st, Next(st, s, run[0]), run[1..]))
  }

  ghost function Run(st: Structure, s: System, run: seq<Step>): System
    requires Possible(st, s, run)
    decreases |run|
  {
    if run == [] then s else Run(st, Next(st, s, run[0]), run[1..])
  }

  /** All bytes written in a run, in order. */
  function Arrived(run: seq<Step>): seq<byte> {
    if run == [] then []
    else (if run[0].Write? then run[0].data else []) + Arrived(run[1..])
  }

  // ---- the result does not depend on the run ---------------------------------------------

  /** What the pass would make of a stream from where it stands. */
  function Meaning(st: Structure, r: Reader, stream: seq<byte>): Parse
    requires r.Reading? ==> Covers(st, r.sections)
  {
    match r
    case Done(outcome) => Parsed(outcome, stream)
    case Reading(sections, p, got) => ParseSections(st, sections, p, got + stream)
  }

  lemma CompleteKeepsMeaning(st: Structure, r: Reader, bytes: seq<byte>, stream: seq<byte>)
    requires ReaderOk(st, r) && r.Reading? && r.sections != []
    requires Covers(st, [r.sections[0]]) && |bytes| == SizeOf(st, r.sections[0], r.p)
    ensures ReaderOk(st, Complete(st, r, bytes))
    ensures Meaning(st, Complete(st, r, bytes), stream)
         == ParseSections(st, r.sections, r.p, bytes + stream)
  {
    CoversRest(st, r.sections);
    assert (bytes + stream)[..|bytes|] == bytes && (bytes + stream)[|bytes|..] == stream;
    assert [] + stream == stream;
    hide Absorb, SizeOf, Refused;
  }

  /** A step of the pass takes its bytes off the stream and changes nothing else. */
  lemma MoveKeepsMeaning(st: Structure, r: Reader, bytes: seq<byte>, stream: seq<byte>)
    requires ReaderOk(st, r) && !NeedOf(st, r).Over?
    requires |bytes| == match NeedOf(st, r) case Take(n) => n case _ => 0
    ensures ReaderOk(st, Move(st, r, bytes))
    ensures Meaning(st, r, bytes + stream) == Meaning(st, Move(st, r, bytes), stream)
  {
    if r.sections == [] {
      assert r.got == [] && [] + (bytes + stream) == stream;
    } else {
      CoversRest(st, r.sections);
      assert r.got + (bytes + stream) == (r.got + bytes) + stream;
      if NeedOf(st, r).Inner? {
        assert r.got + bytes == r.got;
        CompleteKeepsMeaning(st, r, r.got, stream);
      } else if !ByteWise(r.sections[0]) {
        assert r.got + bytes == bytes;
        CompleteKeepsMeaning(st, r, bytes, stream);
      }
    }
  }

  lemma WriteKeepsMeaning(st: Structure, s: System, data: seq<byte>, future: seq<byte>)
    requires Enabled(st, s, Write(data))
    ensures Ok(Next(st, s, Write(data)).ring)
    ensures Meaning(st, s.reader, Contents(s.ring) + data + future)
         == Meaning(st, s.reader, Contents(Next(st, s, Write(data)).ring) + future)
  {
    WriteContents(s.ring, data);
    assert Contents(WriteRing(s.ring, data)) == Contents(s.ring) + data;
  }

  lemma AdvanceKeepsMeaning(st: Structure, s: System, future: seq<byte>)
    requires Enabled(st, s, Advance)
    ensures Ok(Next(st, s, Advance).ring) && ReaderOk(st, Next(st, s, Advance).reader)
    ensures Meaning(st, s.reader, Contents(s.ring) + future)
         == Meaning(st, Next(st, s, Advance).reader, Contents(Next(st, s, Advance).ring) + future)
  {
    var q := Contents(s.ring);
    hide Contents, ReaderOk, Meaning, Move;
    match NeedOf(st, s.reader)
    case Inner =>
      MoveKeepsMeaning(st, s.reader, [], q + future);
      assert [] + (q + future) == q + future;
    case Take(n) =>
      ReadContents(s.ring, n);
      MoveKeepsMeaning(st, s.reader, q[..n], q[n..] + future);
      assert q[..n] + (q[n..] + future) == q + future;
  }

  lemma StepKeepsMeaning(st: Structure, s: System, e: Step, future: seq<byte>)
    requires Enabled(st, s, e)
    ensures Ok(Next(st, s, e).ring) && ReaderOk(st, Next(st, s, e).reader)
    ensures Meaning(st, s.reader, Contents(s.ring) + (if e.Write? then e.data else []) + future)
         == Meaning(st, Next(st, s, e).reader, Contents(Next(st, s, e).ring) + future)
  {
    match e
    case Write(data) =>
      WriteKeepsMeaning(st, s, data, future);
      assert Next(st, s, e).reader == s.reader;
    case Advance =>
      AdvanceKeepsMeaning(st, s, future);
      assert Contents(s.ring) + [] == Contents(s.ring);
  }

  lemma {:induction false} RunKeepsMeaning(st: Structure, s: System, run: seq<Step>)
    requires Ok(s.ring) && ReaderOk(st, s.reader) && Possible(st, s, run)
    ensures var s' := Run(st, s, run);
            && Ok(s'.ring) && ReaderOk(st, s'.reader)
            && Meaning(st, s.reader, Contents(s.ring) + Arrived(run)) == Meaning(st, s'.reader, Contents(s'.ring))
    decreases |run|
  {
    hide ReaderOk, Meaning, Contents, Next, Ok;
    if run == [] {
      assert Contents(s.ring) + Arrived(run) == Contents(s.ring);
    } else {
      var s1, now := Next(st, s, run[0]), if run[0].Write? then run[0].data else [];
      StepKeepsMeaning(st, s, run[0], Arrived(run[1..]));
      RunKeepsMeaning(st, s1, run[1..]);
      assert Contents(s.ring) + Arrived(run) == Contents(s.ring) + now + Arrived(run[1..]);
    }
  }

  /** Whatever chunks the stream arrives in, and however the writes fall between the
      reads: once the pass is over, its outcome is the parse of the stream, and the ring
      holds the rest of the stream. */
  lemma OutcomeIsParseOfStream(
      st: Structure, sections: seq<Section>, msg: Option<Message>, ring: Ring, run: seq<Step>)
    requires Ok(ring) && Resolves(st, sections)
    requires var s := System(ring, Reading(sections, Fresh(msg), []));
             Possible(st, s, run) && Run(st, s, run).reader.Done?
    ensures var s' := Run(st, System(ring, Reading(sections, Fresh(msg), [])), run);
            && Ok(s'.ring)
            && PassOf(st, sections, msg, Contents(ring) + Arrived(run)) == Parsed(s'.reader.outcome, Contents(s'.ring))
  {
    ResolvedCovers(st, sections);
    var s := System(ring, Reading(sections, Fresh(msg), []));
    RunKeepsMeaning(st, s, run);
    assert [] + (Contents(ring) + Arrived(run)) == Contents(ring) + Arrived(run);
  }

  /** So two runs that bring the same stream end in the same outcome and the same rest. */
  lemma ChunkingDoesNotMatter(st: Structure, sections: seq<Section>, msg: Option<Message>,
                              ring1: Ring, run1: seq<Step>, ring2: Ring, run2: seq<Step>)
    requires Ok(ring1) && Ok(ring2) && Resolves(st, sections)
    requires Contents(ring1) + Arrived(run1) == Contents(ring2) + Arrived(run2)
    requires var s1 := System(ring1, Reading(sections, Fresh(msg), []));
             Possible(st, s1, run1) && Run(st, s1, run1).reader.Done?
    requires var s2 := System(ring2, Reading(sections, Fresh(msg), []));
             Possible(st, s2, run2) && Run(st, s2, run2).reader.Done?
    ensures var e1 := Run(st, System(ring1, Reading(sections, Fresh(msg), [])), run1);
            var e2 := Run(st, System(ring2, Reading(sections, Fresh(msg), [])), run2);
            && Ok(e1.ring) && Ok(e2.ring)
            && e1.reader.outcome == e2.reader.outcome && Contents(e1.ring) == Contents(e2.ring)
  {
    hide *;
    OutcomeIsParseOfStream(st, sections, msg, ring1, run1);
    OutcomeIsParseOfStream(st, sections, msg, ring2, run2);
  }

  /** From the wire to the fields: a frame and what follows it may arrive in any chunks,
      written at any moments of the pass. A pass that is over has read all fields of the
      frame, and what follows the frame is in the ring. */
  lemma FrameComesThrough(st: Structure, sections: seq<Section>, f: Fields, msg: Option<Message>,
                          rest: seq<byte>, ring: Ring, run: seq<Step>)
    requires Ok(ring) && FrameOk(st, sections, f, msg) && NoHeaderBytes(sections)
    requires Contents(ring) + Arrived(run) == Encode(sections, f) + rest
    requires var s := System(ring, Reading(sections, Fresh(msg), []));
             Possible(st, s, run) && Run(st, s, run).reader.Done?
    ensures var e := Run(st, System(ring, Reading(sections, Fresh(msg), [])), run);
            && Ok(e.ring) && Contents(e.ring) == rest
            && e.reader.outcome.Finished? && FieldsBack(sections, f, e.reader.outcome.p)
  {
    hide FieldsBack, NoHeaderBytes, Run, Possible, ParseSections, Encode, Contents, Arrived;
    OutcomeIsParseOfStream(st, sections, msg, ring, run);
    var p := FrameComesBack(st, sections, f, msg, rest);
  }

  // ---- pass after pass -------------------------------------------------------------------

  /** One run for each pass, from where the run before left the ring and msg, in which the
      pass comes to its end. Writes may fall anywhere in each. */
  ghost predicate Passes(st: Structure, sections: seq<Section>, msg: Option<Message>, ring: Ring,
                         runs: seq<seq<Step>>)
    requires Ok(ring) && Resolves(st, sections)
    decreases |runs|
  {
    runs == [] ||
    (var s := System(ring, Reading(sections, Fresh(msg), []));
     && Possible(st, s, runs[0])
     && var e := Run(st, s, runs[0]);
        && Ok(e.ring) && e.reader.Done?
        && Passes(st, sections, e.reader.outcome.p.msg, e.ring, runs[1..]))
  }

  function AllArrived(runs: seq<seq<Step>>): seq<byte> {
    if runs == [] then [] else Arrived(runs[0]) + AllArrived(runs[1..])
  }

  /** The passes have read these frames, and rest is in the ring at the end. */
  ghost predicate AllThrough(st: Structure, sections: seq<Section>, fs: seq<Fields>, msg: Option<Message>,
                             ring: Ring, runs: seq<seq<Step>>, rest: seq<byte>)
    requires Ok(ring) && Resolves(st, sections) && Passes(st, sections, msg, ring, runs) && |fs| == |runs|
    decreases |runs|
  {
    if runs == [] then Contents(ring) == rest
    else
      var e := Run(st, System(ring, Reading(sections, Fresh(msg), [])), runs[0]);
      && e.reader.outcome.Finished? && FieldsBack(sections, fs[0], e.reader.outcome.p)
      && AllThrough(st, sections, fs[1..], e.reader.outcome.p.msg, e.ring, runs[1..], rest)
  }

  /** A pass over a frame ends with the frame, however much of what follows it has arrived
      by then. */
  lemma FrameThroughEarly(st: Structure, sections: seq<Section>, f: Fields, msg: Option<Message>,
                          rest: seq<byte>, ring: Ring, run: seq<Step>, later: seq<byte>)
    requires Ok(ring) && FrameOk(st, sections, f, msg) && NoHeaderBytes(sections)
    requires Contents(ring) + Arrived(run) + later == Encode(sections, f) + rest
    requires var s := System(ring, Reading(sections, Fresh(msg), []));
             Possible(st, s, run) && Run(st, s, run).reader.Done?
    ensures var e := Run(st, System(ring, Reading(sections, Fresh(msg), [])), run);
            && Ok(e.ring) && Contents(e.ring) + later == rest
            && e.reader.outcome.Finished? && FieldsBack(sections, f, e.reader.outcome.p)
            && e.reader.outcome.p.msg == MessageAfter(st, sections, f, msg)
  {
    hide FieldsBack, NoHeaderBytes, Run, Possible, ParseSections, Encode, Contents, Arrived, MessageAfter;
    OutcomeIsParseOfStream(st, sections, msg, ring, run);
    ResolvedCovers(st, sections);
    MoreBytesBehind(st, sections, Fresh(msg), Contents(ring) + Arrived(run), later);
    var p := FrameComesBack(st, sections, f, msg, rest);
  }

  /** Frames one after the other, in any chunks, written at any moments of the passes: each
      pass reads all fields of the next frame, and what follows the frames is in the ring. */
  lemma {:induction false} FramesComeThrough(
      st: Structure, sections: seq<Section>, fs: seq<Fields>, msg: Option<Message>, rest: seq<byte>,
      ring: Ring, runs: seq<seq<Step>>)
    requires Ok(ring) && Resolves(st, sections) && NoHeaderBytes(sections)
    requires FramesOk(st, sections, fs, msg) && |fs| == |runs|
    requires Passes(st, sections, msg, ring, runs)
    requires Contents(ring) + AllArrived(runs) == EncodeAll(sections, fs) + rest
    ensures AllThrough(st, sections, fs, msg, ring, runs, rest)
    decreases |runs|
  {
    hide FieldsBack, NoHeaderBytes, Run, Possible, Encode, Contents, Arrived, MessageAfter, FrameOk, Resolves, Ok;
    if runs == [] {
      assert Contents(ring) + [] == Contents(ring) && [] + rest == rest;
    } else {
      var later, behind := AllArrived(runs[1..]), EncodeAll(sections, fs[1..]) + rest;
      assert Contents(ring) + Arrived(runs[0]) + later == Contents(ring) + AllArrived(runs);
      assert Encode(sections, fs[0]) + behind == EncodeAll(sections, fs) + rest;
      FrameThroughEarly(st, sections, fs[0], msg, behind, ring, runs[0], later);
      var e := Run(st, System(ring, Reading(sections, Fresh(msg), [])), runs[0]);
      FramesComeThrough(st, sections, fs[1..], e.reader.outcome.p.msg, rest, e.ring, runs[1..]);
    }
  }

  lemma NeedIsThere(st: Structure, r: Reader, stream: seq<byte>)
    requires ReaderOk(st, r) && Meaning(st, r, stream).Parsed?
    ensures NeedOf(st, r).Take? ==> NeedOf(st, r).n <= |stream|
  {
    if r.Reading? && r.sections != [] {
      CoversRest(st, r.sections);
    }
  }

  /** Once enough bytes have arrived for a parse, the pass is over or can go on: it
      waits only for bytes the parse still lacks. */
  lemma EnoughBytesMeansNoWaiting(
      st: Structure, sections: seq<Section>, msg: Option<Message>, ring: Ring, run: seq<Step>)
    requires Ok(ring) && Resolves(st, sections)
    requires Possible(st, System(ring, Reading(sections, Fresh(msg), [])), run)
    requires PassOf(st, sections, msg, Contents(ring) + Arrived(run)).Parsed?
    ensures var s' := Run(st, System(ring, Reading(sections, Fresh(msg), [])), run);
            s'.reader.Done? || s'.ring.destroyed || Enabled(st, s', Advance)
  {
    ResolvedCovers(st, sections);
    var s := System(ring, Reading(sections, Fresh(msg), []));
    RunKeepsMeaning(st, s, run);
    assert [] + (Contents(ring) + Arrived(run)) == Contents(ring) + Arrived(run);
    var s' := Run(st, s, run);
    NeedIsThere(st, s'.reader, Contents(s'.ring));
  }

  /** A pass takes bytes as they come: on a live ring it waits at a data section until all
      of its bytes are there, and at any other section only while there are none at all. */
  lemma WaitsOnlyFor(st: Structure, s: System)
    requires Ok(s.ring) && ReaderOk(st, s.reader) && s.reader.Reading? && !s.ring.destroyed
    requires !Enabled(st, s, Advance)
    ensures s.reader.sections != [] && Covers(st, [s.reader.sections[0]])
    ensures if s.reader.sections[0].Data?
            then |Contents(s.ring)| < SizeOf(st, s.reader.sections[0], s.reader.p)
            else Contents(s.ring) == []
  {
    if s.reader.sections != [] {
      CoversRest(st, s.reader.sections);
    }
  }

  // ---- a pass can finish --------------------------------------------------------------------

  function Stage(r: Reader): nat {
    if r.Done? then 0 else |r.sections| + 1
  }

  function BytesToGo(st: Structure, r: Reader): nat
    requires ReaderOk(st, r)
  {
    if r.Done? || r.sections == [] || !ByteWise(r.sections[0]) then 0
    else
      CoversRest(st, r.sections);
      var n := SizeOf(st, r.sections[0], r.p);
      if |r.got| <= n then n - |r.got| else 0
  }

  lemma MoveGoesOn(st: Structure, r: Reader, bytes: seq<byte>)
    requires ReaderOk(st, r) && !NeedOf(st, r).Over?
    requires |bytes| == match NeedOf(st, r) case Take(n) => n case _ => 0
    ensures var r1 := Move(st, r, bytes);
            Stage(r1) < Stage(r) ||
            (Stage(r1) == Stage(r) && ReaderOk(st, r1) && BytesToGo(st, r1) < BytesToGo(st, r))
  {
    if r.sections != [] {
      CoversRest(st, r.sections);
    }
    hide Absorb;
  }

  lemma AdvanceGoesOn(st: Structure, s: System)
    requires Enabled(st, s, Advance)
    ensures var s1 := Next(st, s, Advance);
            && s1.ring.destroyed == s.ring.destroyed
            && (Stage(s1.reader) < Stage(s.reader) ||
                (Stage(s1.reader) == Stage(s.reader) && ReaderOk(st, s1.reader)
                 && BytesToGo(st, s1.reader) < BytesToGo(st, s.reader)))
  {
    hide Move, ReaderOk, BytesToGo, Stage, Contents;
    match NeedOf(st, s.reader)
    case Inner => MoveGoesOn(st, s.reader, []);
    case Take(n) => MoveGoesOn(st, s.reader, Contents(s.ring)[..n]);
  }

  lemma {:induction false} FinishesAlone(st: Structure, s: System) returns (run: seq<Step>)
    requires Ok(s.ring) && ReaderOk(st, s.reader) && !s.ring.destroyed
    requires Meaning(st, s.reader, Contents(s.ring)).Parsed?
    ensures Possible(st, s, run) && Run(st, s, run).reader.Done? && Arrived(run) == []
    decreases Stage(s.reader), BytesToGo(st, s.reader)
  {
    if s.reader.Done? {
      run := [];
    } else {
      NeedIsThere(st, s.reader, Contents(s.ring));
      AdvanceGoesOn(st, s);
      var s1 := Next(st, s, Advance);
      hide Meaning, Contents, ReaderOk, Next, Stage, BytesToGo;
      StepKeepsMeaning(st, s, Advance, []);
      assert Contents(s.ring) + [] + [] == Contents(s.ring) && Contents(s1.ring) + [] == Contents(s1.ring);
      run := FinishesAlone(st, s1);
      var all := [Advance] + run;
      assert all[1..] == run;
      run := all;
    }
  }

  /** A stream that has room in an empty live ring and holds a whole parse does come
      through: there is a run that brings it and in which the pass comes to its end. */
  lemma PassCanFinish(st: Structure, sections: seq<Section>, msg: Option<Message>, ring: Ring, stream: seq<byte>)
    returns (run: seq<Step>)
    requires Ok(ring) && !ring.destroyed && Contents(ring) == [] && |stream| <= |ring.buf| - 1
    requires Resolves(st, sections) && PassOf(st, sections, msg, stream).Parsed?
    ensures var s := System(ring, Reading(sections, Fresh(msg), []));
            Possible(st, s, run) && Run(st, s, run).reader.Done? && Arrived(run) == stream
  {
    ResolvedCovers(st, sections);
    var s := System(ring, Reading(sections, Fresh(msg), []));
    WriteContents(ring, stream);
    assert Enabled(st, s, Write(stream));
    var s1 := Next(st, s, Write(stream));
    assert Contents(s1.ring) == stream && [] + stream == stream;
    hide Contents, Next, ParseSections, Covers;
    run := FinishesAlone(st, s1);
    var all := [Write(stream)] + run;
    assert all[1..] == run && stream + [] == stream;
    run := all;
  }
}
