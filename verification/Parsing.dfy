/** One pass of find_message as a pure parse of a byte stream. */
module Parsing {
  import opened MachineTypes
  import opened PacketLayouts
  import opened LengthFields

  /** The variables of a pass; sections lists the string read for each section so far. */
  datatype Pass = Pass(
    msg: Option<Message>,
    cmd: seq<byte>, len: seq<byte>, data: seq<byte>, crc: seq<byte>, footer: seq<byte>,
    dataLen: uint32,
    sections: seq<seq<byte>>)

  /** The variables at the start of a pass. Only msg lives outside the while loop of
      find_message, so it still holds what the pass before left in it. */
  function Fresh(msg: Option<Message>): Pass {
    Pass(msg, [], [], [], [], [], 0, [])
  }

  /** Fault: the header content is needed for the error report, but there is no header. */
  datatype Outcome = Finished(p: Pass) | WrongCmd(p: Pass) | Fault(p: Pass)

  datatype Parse = Parsed(outcome: Outcome, rest: seq<byte>) | Starved

  /** A const char* argument ends at the first zero byte. */
  function CString(b: seq<byte>): (s: seq<byte>)
    ensures s <= b && 0 !in s && (s == b || b[|s|] == 0)
  {
    if b == [] || b[0] == 0 then [] else [b[0]] + CString(b[1..])
  }

  /** The scanned layout has every section that the pass reads through. */
  predicate Covers(st: Structure, sections: seq<Section>) {
    && (st.cmd.Some? ==> st.cmd.value.CMD?)
    && (st.length.Some? ==> st.length.value.Length?)
    && (st.data.Some? ==> st.data.value.Data?)
    && (st.crc.Some? ==> st.crc.value.CRC?)
    && (st.footer.Some? ==> st.footer.value.Footer?)
    && (forall i :: 0 <= i < |sections| ==> Pointer(st, KindOf(sections[i])).Some?)
  }

  lemma ResolvedCovers(st: Structure, sections: seq<Section>)
    requires Resolves(st, sections)
    ensures Covers(st, sections)
  {
    assert st.cmd == Pointer(st, KCMD) && st.length == Pointer(st, KLength) && st.data == Pointer(st, KData);
    assert st.crc == Pointer(st, KCRC) && st.footer == Pointer(st, KFooter);
    forall i | 0 <= i < |sections|
      ensures Pointer(st, KindOf(sections[i])).Some?
    {
      LastOfExists(sections, KindOf(sections[i]));
    }
  }

  function DataSize(st: Structure, p: Pass): uint32
    requires st.data.Some? && st.data.value.Data?
  {
    if st.length.Some? then p.dataLen
    else if p.msg.Some? then (p.msg.value.serializeSize % 0x1_0000_0000) as uint32
    else st.data.value.fixSize
  }

  /** How many bytes a section takes off the stream. */
  function SizeOf(st: Structure, s: Section, p: Pass): nat
    requires Covers(st, [s])
  {
    assert [s][0] == s;
    match s
    case Header(_) => 0
    case CMD(_, _) => st.cmd.value.size as nat
    case Length(_, _) => st.length.value.size as nat
    case Data(_) => DataSize(st, p) as nat
    case CRC(_) => st.crc.value.size as nat
    case Footer(_) => |st.footer.value.content|
  }

  function LenValue(st: Structure, bytes: seq<byte>): uint32
    requires st.length.Some? && st.length.value.Length?
  {
    (CalcLen(bytes, st.length.value.isFirstByteMsb) % 0x1_0000_0000) as uint32
  }

  function Absorb(st: Structure, s: Section, p: Pass, bytes: seq<byte>): Pass
    requires Covers(st, [s])
  {
    assert [s][0] == s;
    var p1 := p.(sections := p.sections + [bytes]);
    match s
    case Header(_) => p1
    case CMD(_, _) => p1.(cmd := bytes, msg := st.cmd.value.build(CString(bytes)))
    case Length(_, _) => p1.(len := bytes, dataLen := LenValue(st, bytes))
    case Data(_) => p1.(data := bytes)
    case CRC(_) => p1.(crc := bytes)
    case Footer(_) => p1.(footer := bytes)
  }

  /** How a command that the factory refuses ends the pass. */
  function Refuse(st: Structure, p: Pass): Outcome {
    if st.header.Some? then WrongCmd(p) else Fault(p)
  }

  predicate Refused(s: Section, p: Pass) {
    s.CMD? && p.msg.None?
  }

  lemma CoversRest(st: Structure, sections: seq<Section>)
    requires Covers(st, sections) && sections != []
    ensures Covers(st, [sections[0]]) && Covers(st, sections[1..])
  {
    assert forall i :: 0 <= i < |sections[1..]| ==> sections[1..][i] == sections[i + 1];
  }

  function ParseSections(st: Structure, sections: seq<Section>, p: Pass, stream: seq<byte>): Parse
    requires Covers(st, sections)
    decreases |sections|
  {
    if sections == [] then Parsed(Finished(p), stream) else
    CoversRest(st, sections);
    var s, n := sections[0], SizeOf(st, sections[0], p);
    if |stream| < n then Starved else
    var p1 := Absorb(st, s, p, stream[..n]);
    if Refused(s, p1) then Parsed(Refuse(st, p1), stream[n..])
    else ParseSections(st, sections[1..], p1, stream[n..])
  }

  /** A whole pass over a scanned layout. */
  function PassOf(st: Structure, sections: seq<Section>, msg: Option<Message>, stream: seq<byte>): Parse
    requires Resolves(st, sections)
  {
    ResolvedCovers(st, sections);
    ParseSections(st, sections, Fresh(msg), stream)
  }

  /** One round of the loop of find_message. */
  lemma ParseRound(st: Structure, sections: seq<Section>, p: Pass, stream: seq<byte>)
    requires Covers(st, sections) && sections != [] && ParseSections(st, sections, p, stream).Parsed?
    ensures Covers(st, [sections[0]]) && Covers(st, sections[1..])
    ensures SizeOf(st, sections[0], p) <= |stream|
    ensures var n := SizeOf(st, sections[0], p);
            var p1 := Absorb(st, sections[0], p, stream[..n]);
            ParseSections(st, sections, p, stream) ==
              if Refused(sections[0], p1) then Parsed(Refuse(st, p1), stream[n..])
              else ParseSections(st, sections[1..], p1, stream[n..])
  {
    CoversRest(st, sections);
  }

  lemma {:induction false} CutAtZero(a: seq<byte>, b: seq<byte>)
    requires 0 !in a
    ensures CString(a) == a && CString(a + [0] + b) == a
  {
    var all := a + [0] + b;
    if a == [] {
      assert all[0] == 0;
    } else {
      assert all[0] == a[0] && all[1..] == a[1..] + [0] + b;
      assert a[0] in a;
      CutAtZero(a[1..], b);
    }
  }

  /** A command with a zero byte in it: the factory is asked for what comes before. */
  lemma CommandIsCutAtZero(st: Structure, sections: seq<Section>, p: Pass, a: seq<byte>, b: seq<byte>, rest: seq<byte>)
    requires Covers(st, sections) && sections != [] && sections[0].CMD? && 0 !in a
    requires st.cmd.Some? && st.cmd.value.CMD? && |a| + 1 + |b| == st.cmd.value.size as nat
    ensures Covers(st, sections[1..])
    ensures var c := a + [0] + b;
            var p1 := p.(sections := p.sections + [c], cmd := c, msg := st.cmd.value.build(a));
            ParseSections(st, sections, p, c + rest) ==
              if p1.msg.None? then Parsed(Refuse(st, p1), rest) else ParseSections(st, sections[1..], p1, rest)
  {
    CoversRest(st, sections);
    CutAtZero(a, b);
    var c := a + [0] + b;
    assert (c + rest)[..|c|] == c && (c + rest)[|c|..] == rest;
    hide CString;
  }

  // ---- what a pass consumes -----------------------------------------------------

  /** The stream is the strings read since p, in order, and what is left; they are one
      for each section, or those up to and including a refused command. */
  ghost predicate Consumed(sections: seq<Section>, p: Pass, stream: seq<byte>, outcome: Outcome, rest: seq<byte>) {
    var all, i := outcome.p.sections, |outcome.p.sections| - |p.sections|;
    && p.sections <= all
    && stream == Flatten(all[|p.sections|..]) + rest
    && (outcome.Finished? ==> i == |sections|)
    && (!outcome.Finished? ==>
          && 0 < i <= |sections| && sections[i - 1].CMD?
          && outcome.p.msg.None? && all[|all| - 1] == outcome.p.cmd)
  }

  lemma ConsumedOneMore(sections: seq<Section>, p: Pass, p1: Pass, stream: seq<byte>, n: nat,
                        outcome: Outcome, rest: seq<byte>)
    requires sections != [] && n <= |stream| && p1.sections == p.sections + [stream[..n]]
    requires Consumed(sections[1..], p1, stream[n..], outcome, rest)
    ensures Consumed(sections, p, stream, outcome, rest)
  {
    var all := outcome.p.sections;
    TailSplit(all, p.sections, stream[..n]);
    hide Flatten;
    assert stream == stream[..n] + stream[n..];
    assert stream[..n] + Flatten(all[|p1.sections|..]) + rest == stream[..n] + (Flatten(all[|p1.sections|..]) + rest);
  }

  lemma ConsumedUpToCommand(sections: seq<Section>, p: Pass, p1: Pass, stream: seq<byte>, n: nat, outcome: Outcome)
    requires sections != [] && sections[0].CMD? && n <= |stream|
    requires p1.sections == p.sections + [stream[..n]] && p1.cmd == stream[..n] && p1.msg.None?
    requires !outcome.Finished? && outcome.p == p1
    ensures Consumed(sections, p, stream, outcome, stream[n..])
  {
    assert p1.sections[|p.sections|..] == [stream[..n]];
    FlattenOne(stream[..n]);
  }

  /** A pass takes off the stream exactly the section strings it read, in layout order;
      a refused command stops it right after the command. */
  lemma {:induction false} ConsumesWhatItReads(st: Structure, sections: seq<Section>, p: Pass, stream: seq<byte>)
    requires Covers(st, sections) && ParseSections(st, sections, p, stream).Parsed?
    ensures var r := ParseSections(st, sections, p, stream);
            Consumed(sections, p, stream, r.outcome, r.rest)
    decreases |sections|
  {
    if sections == [] {
      assert p.sections[|p.sections|..] == [] && Flatten<byte>([]) == [];
      assert [] + stream == stream;
    } else {
      CoversRest(st, sections);
      var s, n := sections[0], SizeOf(st, sections[0], p);
      var p1 := Absorb(st, s, p, stream[..n]);
      var r := ParseSections(st, sections, p, stream);
      if Refused(s, p1) {
        assert r == Parsed(Refuse(st, p1), stream[n..]);
        ConsumedUpToCommand(sections, p, p1, stream, n, Refuse(st, p1));
      } else {
        assert r == ParseSections(st, sections[1..], p1, stream[n..]);
        assert p1.sections == p.sections + [stream[..n]];
        hide Consumed, Absorb, SizeOf;
        ConsumesWhatItReads(st, sections[1..], p1, stream[n..]);
        ConsumedOneMore(sections, p, p1, stream, n, r.outcome, r.rest);
      }
    }
  }

  lemma FlattenOne(b: seq<byte>)
    ensures Flatten([b]) == b
  {
    assert [b][1..] == [] && Flatten<byte>([]) == [] && b + [] == b;
  }

  lemma TailSplit(all: seq<seq<byte>>, front: seq<seq<byte>>, b: seq<byte>)
    requires front + [b] <= all
    ensures Flatten(all[|front|..]) == b + Flatten(all[|front| + 1..])
  {
    assert all[|front|..][0] == b && all[|front|..][1..] == all[|front| + 1..];
  }

  // ---- refused commands --------------------------------------------------------------

  /** A command of the length in the layout that its factory does not know. */
  predicate Refusable(st: Structure, c: seq<byte>) {
    && st.cmd.Some? && st.cmd.value.CMD?
    && |c| == st.cmd.value.size as nat && st.cmd.value.build(CString(c)).None?
  }

  lemma {:induction false} EndsEarly(st: Structure, sections: seq<Section>, p: Pass, stream: seq<byte>)
    requires Covers(st, sections) && ParseSections(st, sections, p, stream).Parsed?
    ensures var o := ParseSections(st, sections, p, stream).outcome;
            && (o.Fault? <==> !o.Finished? && st.header.None?)
            && (!o.Finished? ==> Has(sections, KCMD) && Refusable(st, o.p.cmd))
    decreases |sections|
  {
    if sections != [] {
      CoversRest(st, sections);
      var n := SizeOf(st, sections[0], p);
      var p1 := Absorb(st, sections[0], p, stream[..n]);
      if Refused(sections[0], p1) {
        assert KindOf(sections[0]) == KCMD;
      } else {
        EndsEarly(st, sections[1..], p1, stream[n..]);
        HasInRest(sections, KCMD);
      }
    }
  }

  lemma HasInRest(sections: seq<Section>, k: Kind)
    requires sections != []
    ensures Has(sections, k) <==> KindOf(sections[0]) == k || Has(sections[1..], k)
  {
    var rest := sections[1..];
    if Has(sections, k) && KindOf(sections[0]) != k {
      var i :| 0 <= i < |sections| && KindOf(sections[i]) == k;
      assert KindOf(rest[i - 1]) == k;
    }
    if Has(rest, k) {
      var i :| 0 <= i < |rest| && KindOf(rest[i]) == k;
      assert KindOf(sections[i + 1]) == k;
    }
  }

  /** A stream long enough for a pass, with command c. */
  function StreamWith(st: Structure, sections: seq<Section>, p: Pass, c: seq<byte>): (stream: seq<byte>)
    requires Covers(st, sections) && (st.cmd.Some? ==> |c| == st.cmd.value.size as nat)
    decreases |sections|
  {
    if sections == [] then []
    else
      CoversRest(st, sections);
      var s := sections[0];
      var bytes := if s.CMD? then c else seq(SizeOf(st, s, p), _ => 0 as byte);
      bytes + StreamWith(st, sections[1..], Absorb(st, s, p, bytes), c)
  }

  lemma {:induction false} RunsIntoRefusal(st: Structure, sections: seq<Section>, p: Pass, c: seq<byte>)
    requires Covers(st, sections) && (st.cmd.Some? ==> |c| == st.cmd.value.size as nat)
    ensures var r := ParseSections(st, sections, p, StreamWith(st, sections, p, c));
            r.Parsed? && (Has(sections, KCMD) && Refusable(st, c) ==> !r.outcome.Finished?)
    decreases |sections|
  {
    if sections != [] {
      CoversRest(st, sections);
      var s := sections[0];
      var bytes := if s.CMD? then c else seq(SizeOf(st, s, p), _ => 0 as byte);
      var p1 := Absorb(st, s, p, bytes);
      var stream, rest := StreamWith(st, sections, p, c), StreamWith(st, sections[1..], p1, c);
      assert stream == bytes + rest && |bytes| == SizeOf(st, s, p);
      assert stream[..|bytes|] == bytes && stream[|bytes|..] == rest;
      HasInRest(sections, KCMD);
      RunsIntoRefusal(st, sections[1..], p1, c);
    }
  }

  /** A pass that ends early reaches through the null header pointer iff the layout has no
      header section. */
  lemma FaultIffNoHeader(st: Structure, sections: seq<Section>, msg: Option<Message>, stream: seq<byte>)
    requires Resolves(st, sections) && PassOf(st, sections, msg, stream).Parsed?
    ensures var o := PassOf(st, sections, msg, stream).outcome;
            o.Fault? <==> !o.Finished? && !Has(sections, KHeader)
  {
    ResolvedCovers(st, sections);
    EndsEarly(st, sections, Fresh(msg), stream);
    NoHeaderPointer(st, sections);
  }

  lemma NoHeaderPointer(st: Structure, sections: seq<Section>)
    requires Resolves(st, sections)
    ensures st.header.None? <==> !Has(sections, KHeader)
  {
    assert st.header == Pointer(st, KHeader);
    LastOfExists(sections, KHeader);
  }

  /** Some stream makes the pass fault. */
  ghost predicate CanFault(st: Structure, sections: seq<Section>)
    requires Resolves(st, sections)
  {
    exists msg: Option<Message>, stream: seq<byte> ::
      PassOf(st, sections, msg, stream).Parsed? && PassOf(st, sections, msg, stream).outcome.Fault?
  }

  /** Exactly the layouts without a header section, but with a command section, can fault,
      if there is any command that the factory refuses. */
  lemma FaultPossibleIff(st: Structure, sections: seq<Section>)
    requires Resolves(st, sections)
    ensures CanFault(st, sections) <==>
              !Has(sections, KHeader) && Has(sections, KCMD) && exists c :: Refusable(st, c)
  {
    ResolvedCovers(st, sections);
    NoHeaderPointer(st, sections);
    if msg: Option<Message>, stream: seq<byte> :|
         PassOf(st, sections, msg, stream).Parsed? && PassOf(st, sections, msg, stream).outcome.Fault? {
      EndsEarly(st, sections, Fresh(msg), stream);
    }
    if c :| Refusable(st, c) && Has(sections, KCMD) && !Has(sections, KHeader) {
      var msg: Option<Message> := None;
      RunsIntoRefusal(st, sections, Fresh(msg), c);
      var stream := StreamWith(st, sections, Fresh(msg), c);
      EndsEarly(st, sections, Fresh(msg), stream);
      assert PassOf(st, sections, msg, stream).outcome.Fault?;
    }
  }

  /** One byte of command and a factory that knows none: byte 7 is enough. */
  lemma RefusedWithoutHeader(msg: Option<Message>)
    ensures var build: Factory := _ => None;
            var sections := [CMD(1, build)];
            var st := Structure(None, Some(sections[0]), None, None, None, None);
            && Resolves(st, sections)
            && PassOf(st, sections, msg, [7]) == Parsed(Fault(Fresh(None).(cmd := [7], sections := [[7]])), [])
  {
    var build: Factory := _ => None;
    OnlyCommand(build);
    OnlyCommandRefused(build, msg, [7]);
  }

  lemma OnlyCommand(build: Factory)
    ensures Resolves(Structure(None, Some(CMD(1, build)), None, None, None, None), [CMD(1, build)])
  {
    var sections := [CMD(1, build)];
    assert sections[..0] == [];
    forall k: Kind
      ensures LastOf(sections, k) == if k == KCMD then Some(sections[0]) else None
    {
      assert LastOf(sections[..0], k) == None;
    }
  }

  lemma OnlyCommandRefused(build: Factory, msg: Option<Message>, c: seq<byte>)
    requires Resolves(Structure(None, Some(CMD(1, build)), None, None, None, None), [CMD(1, build)])
    requires |c| == 1 && build(CString(c)).None?
    ensures PassOf(Structure(None, Some(CMD(1, build)), None, None, None, None), [CMD(1, build)], msg, c)
         == Parsed(Fault(Fresh(None).(cmd := c, sections := [c])), [])
  {
    var sections := [CMD(1, build)];
    var st := Structure(None, Some(sections[0]), None, None, None, None);
    ResolvedCovers(st, sections);
    assert c[..1] == c && c[1..] == [];
    hide *;
    CommandTaken(st, sections[0], msg, c);
    RefusedAtOnce(st, sections, Fresh(msg), c, 1, Fresh(None).(cmd := c, sections := [c]));
  }

  lemma CommandTaken(st: Structure, s: Section, msg: Option<Message>, c: seq<byte>)
    requires s.CMD? && s.size == 1 && st.cmd == Some(s) && Covers(st, [s])
    requires |c| == 1 && s.build(CString(c)).None?
    ensures SizeOf(st, s, Fresh(msg)) == 1
    ensures var p1 := Fresh(None).(cmd := c, sections := [c]);
            Absorb(st, s, Fresh(msg), c) == p1 && Refused(s, p1)
  {
    hide CString, Covers;
  }

  lemma RefusedAtOnce(st: Structure, sections: seq<Section>, p: Pass, stream: seq<byte>, n: nat, p1: Pass)
    requires Covers(st, sections) && sections != [] && Covers(st, [sections[0]])
    requires n == SizeOf(st, sections[0], p) <= |stream|
    requires p1 == Absorb(st, sections[0], p, stream[..n]) && Refused(sections[0], p1)
    ensures ParseSections(st, sections, p, stream) == Parsed(Refuse(st, p1), stream[n..])
  {
    hide Absorb, SizeOf, Covers;
  }

  // ---- more stream, and other messages ------------------------------------------------

  /** Bytes that arrive behind what a pass has taken do not change it. */
  lemma {:induction false} MoreBytesBehind(
      st: Structure, sections: seq<Section>, p: Pass, stream: seq<byte>, more: seq<byte>)
    requires Covers(st, sections) && ParseSections(st, sections, p, stream).Parsed?
    ensures var r := ParseSections(st, sections, p, stream);
            ParseSections(st, sections, p, stream + more) == Parsed(r.outcome, r.rest + more)
    decreases |sections|
  {
    if sections != [] {
      CoversRest(st, sections);
      var n := SizeOf(st, sections[0], p);
      assert (stream + more)[..n] == stream[..n] && (stream + more)[n..] == stream[n..] + more;
      var p1 := Absorb(st, sections[0], p, stream[..n]);
      hide Absorb, SizeOf, Covers;
      if !Refused(sections[0], p1) {
        MoreBytesBehind(st, sections[1..], p1, stream[n..], more);
      }
    }
  }

  /** A data section that no command section comes before. */
  predicate DataFirst(sections: seq<Section>) {
    sections != [] && !sections[0].CMD? && (sections[0].Data? || DataFirst(sections[1..]))
  }

  /** What a pass does apart from the message it leaves. */
  function Forget(r: Parse): Parse {
    if r.Starved? then r
    else match r.outcome
         case Finished(p) => r.(outcome := Finished(p.(msg := None)))
         case WrongCmd(p) => r.(outcome := WrongCmd(p.(msg := None)))
         case Fault(p) => r.(outcome := Fault(p.(msg := None)))
  }

  lemma MessageIsInert(st: Structure, s: Section, p: Pass, q: Pass, bytes: seq<byte>)
    requires Covers(st, [s]) && p.(msg := None) == q.(msg := None)
    requires s.Data? ==> st.length.Some? || p.msg == q.msg
    ensures SizeOf(st, s, p) == SizeOf(st, s, q)
    ensures Absorb(st, s, p, bytes).(msg := None) == Absorb(st, s, q, bytes).(msg := None)
    ensures s.CMD? || p.msg == q.msg ==> Absorb(st, s, p, bytes) == Absorb(st, s, q, bytes)
  {
    hide CString, LenValue;
  }

  lemma {:induction false} OtherMessageSamePass(
      st: Structure, sections: seq<Section>, p: Pass, q: Pass, stream: seq<byte>)
    requires Covers(st, sections) && p.(msg := None) == q.(msg := None)
    requires st.length.Some? || !DataFirst(sections) || p.msg == q.msg
    ensures Forget(ParseSections(st, sections, p, stream)) == Forget(ParseSections(st, sections, q, stream))
    decreases |sections|
  {
    if sections != [] {
      CoversRest(st, sections);
      var s, n := sections[0], SizeOf(st, sections[0], p);
      var b := if |stream| >= n then stream[..n] else [];
      MessageIsInert(st, s, p, q, b);
      hide Absorb, SizeOf, Covers;
      if |stream| >= n {
        OtherMessageSamePass(st, sections[1..], Absorb(st, s, p, b), Absorb(st, s, q, b), stream[n..]);
      }
    }
  }

  // ---- headers -----------------------------------------------------------------------

  function WithoutHeaders(sections: seq<Section>): (r: seq<Section>)
    ensures |r| <= |sections|
  {
    if sections == [] then []
    else (if sections[0].Header? then [] else [sections[0]]) + WithoutHeaders(sections[1..])
  }

  function Bare(r: Parse): Parse {
    if r.Starved? then r
    else match r.outcome
         case Finished(p) => r.(outcome := Finished(p.(sections := [])))
         case WrongCmd(p) => r.(outcome := WrongCmd(p.(sections := [])))
         case Fault(p) => r.(outcome := Fault(p.(sections := [])))
  }

  /** The record of the strings read plays no part in reading. */
  lemma RecordIsInert(st: Structure, s: Section, p: Pass, q: Pass, bytes: seq<byte>)
    requires Covers(st, [s]) && p.(sections := []) == q.(sections := [])
    ensures SizeOf(st, s, p) == SizeOf(st, s, q)
    ensures Absorb(st, s, p, bytes).(sections := []) == Absorb(st, s, q, bytes).(sections := [])
    ensures s.Header? ==> SizeOf(st, s, p) == 0 && Absorb(st, s, p, bytes).(sections := []) == p.(sections := [])
  {
  }

  lemma CoversOneMore(st: Structure, s: Section, rest: seq<Section>)
    requires Covers(st, [s]) && Covers(st, rest)
    ensures Covers(st, [s] + rest)
  {
    assert [s][0] == s;
  }

  lemma {:induction false} CoversWithoutHeaders(st: Structure, sections: seq<Section>)
    requires Covers(st, sections)
    ensures Covers(st, WithoutHeaders(sections))
  {
    if sections != [] {
      CoversRest(st, sections);
      CoversWithoutHeaders(st, sections[1..]);
      if !sections[0].Header? {
        CoversOneMore(st, sections[0], WithoutHeaders(sections[1..]));
      }
    }
  }

  /** find_header reads nothing: a pass does with the stream exactly what it would do if
      the layout had no header sections, so header bytes of a frame are taken for the
      section that follows. */
  lemma {:induction false} HeadersAreNotRead(
      st: Structure, sections: seq<Section>, p: Pass, q: Pass, stream: seq<byte>)
    requires Covers(st, sections) && Covers(st, WithoutHeaders(sections))
    requires p.(sections := []) == q.(sections := [])
    ensures Bare(ParseSections(st, sections, p, stream))
         == Bare(ParseSections(st, WithoutHeaders(sections), q, stream))
    decreases |sections|
  {
    if sections != [] {
      CoversRest(st, sections);
      var s, rest := sections[0], sections[1..];
      CoversWithoutHeaders(st, rest);
      var n := SizeOf(st, s, p);
      var b := if |stream| >= n then stream[..n] else [];
      RecordIsInert(st, s, p, q, b);
      hide SizeOf, Absorb, Covers;
      if s.Header? {
        assert WithoutHeaders(sections) == WithoutHeaders(rest);
        assert stream[0..] == stream;
        HeadersAreNotRead(st, rest, Absorb(st, s, p, b), q, stream);
      } else {
        var all := WithoutHeaders(sections);
        assert all == [s] + WithoutHeaders(rest) && all[0] == s && all[1..] == WithoutHeaders(rest);
        if |stream| >= n {
          HeadersAreNotRead(st, rest, Absorb(st, s, p, b), Absorb(st, s, q, b), stream[n..]);
        }
      }
    }
  }
}
