/** Frames written in a layout, and reading them back. */
module Frames {
  import opened MachineTypes
  import opened PacketLayouts
  import opened LengthFields
  import opened Parsing

  /** What a frame carries; its length field is the length of data. */
  datatype Fields = Fields(cmd: seq<byte>, data: seq<byte>, crc: seq<byte>, footer: seq<byte>)

  function EncodeOne(s: Section, f: Fields): seq<byte> {
    match s
    case Header(content) => content
    case CMD(_, _) => f.cmd
    case Length(size, msbFirst) => EncodeLen(size as nat, msbFirst, |f.data|)
    case Data(_) => f.data
    case CRC(_) => f.crc
    case Footer(_) => f.footer
  }

  function Encode(sections: seq<Section>, f: Fields): seq<byte> {
    if sections == [] then [] else EncodeOne(sections[0], f) + Encode(sections[1..], f)
  }

  function Built(build: Factory, f: Fields): Option<Message> {
    build(CString(f.cmd))
  }

  /** The fields fit the section at i, whose data length must be known by then; msg is
      the message the pass before left. */
  predicate FitsAt(st: Structure, sections: seq<Section>, i: nat, f: Fields, msg: Option<Message>)
    requires i < |sections|
  {
    match sections[i]
    case Header(_) => true
    case CMD(size, build) => |f.cmd| == size as nat && Built(build, f).Some?
    case Length(size, _) => (size == 2 && |f.data| < 0x1_0000) || (size == 4 && |f.data| < 0x1_0000_0000)
    case Data(fixSize) =>
      if Has(sections, KLength) then Has(sections[..i], KLength)
      else if Has(sections[..i], KCMD) then
        && st.cmd.Some? && st.cmd.value.CMD? && Built(st.cmd.value.build, f).Some?
        && |f.data| == Built(st.cmd.value.build, f).value.serializeSize % 0x1_0000_0000
      else |f.data| == (if msg.Some? then msg.value.serializeSize % 0x1_0000_0000 else fixSize as nat)
    case CRC(size) => |f.crc| == size as nat
    case Footer(content) => |f.footer| == |content|
  }

  /** A layout with at most one section of each kind, and fields for it. */
  ghost predicate FrameOk(st: Structure, sections: seq<Section>, f: Fields, msg: Option<Message>) {
    && Resolves(st, sections) && AtMostOneEach(sections)
    && (forall i :: 0 <= i < |sections| ==> FitsAt(st, sections, i, f, msg))
  }

  /** Layouts without a header, or with an empty one. */
  predicate NoHeaderBytes(sections: seq<Section>) {
    forall i :: 0 <= i < |sections| && sections[i].Header? ==> sections[i].content == []
  }

  function KindsOf(sections: seq<Section>): set<Kind> {
    set k: Kind | Has(sections, k)
  }

  /** The pass has read the fields of sections of the given kinds, and nothing else. */
  ghost predicate HasReadKinds(st: Structure, past: set<Kind>, f: Fields, msg: Option<Message>, p: Pass) {
    && (KCMD in past ==> st.cmd.Some? && st.cmd.value.CMD?)
    && p.cmd == (if KCMD in past then f.cmd else [])
    && p.msg == (if KCMD in past then Built(st.cmd.value.build, f) else msg)
    && (KLength in past ==> st.length.Some?)
    && p.len == (if KLength in past then EncodeOne(st.length.value, f) else [])
    && p.dataLen as nat == (if KLength in past then |f.data| else 0)
    && p.data == (if KData in past then f.data else [])
    && p.crc == (if KCRC in past then f.crc else [])
    && p.footer == (if KFooter in past then f.footer else [])
  }

  /** The pass has read the fields of the first i sections. */
  ghost predicate HasRead(st: Structure, sections: seq<Section>, i: nat, f: Fields, msg: Option<Message>, p: Pass)
    requires i <= |sections|
  {
    HasReadKinds(st, KindsOf(sections[..i]), f, msg, p)
  }

  lemma HasOneMore(sections: seq<Section>, i: nat, k: Kind)
    requires i < |sections|
    ensures Has(sections[..i + 1], k) <==> Has(sections[..i], k) || KindOf(sections[i]) == k
  {
    var a, b := sections[..i], sections[..i + 1];
    if Has(a, k) {
      var j :| 0 <= j < |a| && KindOf(a[j]) == k;
      assert KindOf(b[j]) == k;
    }
    if KindOf(sections[i]) == k {
      assert KindOf(b[i]) == k;
    }
    if Has(b, k) {
      var j :| 0 <= j < |b| && KindOf(b[j]) == k;
      if j < i {
        assert KindOf(a[j]) == k;
      }
    }
  }

  lemma KindsOneMore(sections: seq<Section>, i: nat)
    requires i < |sections|
    ensures KindsOf(sections[..i + 1]) == KindsOf(sections[..i]) + {KindOf(sections[i])}
  {
    forall k: Kind
      ensures Has(sections[..i + 1], k) <==> Has(sections[..i], k) || KindOf(sections[i]) == k
    {
      HasOneMore(sections, i, k);
    }
  }

  /** The section at i is the one the pass reads through. */
  lemma PointsHere(st: Structure, sections: seq<Section>, i: nat)
    requires Resolves(st, sections) && AtMostOneEach(sections) && i < |sections|
    ensures Pointer(st, KindOf(sections[i])) == Some(sections[i])
    ensures st.length.Some? <==> Has(sections, KLength)
    ensures Covers(st, [sections[i]])
  {
    OnlyOneIsLast(sections, i);
    LastOfExists(sections, KLength);
    assert st.length == Pointer(st, KLength);
    ResolvedCovers(st, sections);
  }

  lemma LenValueInverts(st: Structure, size: uint32, msbFirst: bool, n: nat)
    requires st.length == Some(Length(size, msbFirst))
    requires (size == 2 && n < 0x1_0000) || (size == 4 && n < 0x1_0000_0000)
    ensures LenValue(st, EncodeLen(size as nat, msbFirst, n)) as nat == n
  {
    hide CalcLen;
    CalcLenInverts(size as nat, msbFirst, n);
  }

  lemma ReadsSize(st: Structure, sections: seq<Section>, i: nat, f: Fields, msg: Option<Message>, p: Pass)
    requires FrameOk(st, sections, f, msg) && NoHeaderBytes(sections)
    requires i < |sections| && HasRead(st, sections, i, f, msg, p)
    ensures Covers(st, [sections[i]])
    ensures SizeOf(st, sections[i], p) == |EncodeOne(sections[i], f)|
  {
    PointsHere(st, sections, i);
    assert FitsAt(st, sections, i, f, msg);
    hide Has, Resolves, Covers, LastOf, CString, EncodeLen;
  }

  lemma AbsorbsField(st: Structure, s: Section, past: set<Kind>, f: Fields, msg: Option<Message>, p: Pass)
    requires Covers(st, [s]) && Pointer(st, KindOf(s)) == Some(s) && HasReadKinds(st, past, f, msg, p)
    requires s.CMD? ==> Built(s.build, f).Some?
    requires s.Length? ==> LenValue(st, EncodeOne(s, f)) as nat == |f.data|
    ensures var p1 := Absorb(st, s, p, EncodeOne(s, f));
            !Refused(s, p1) && HasReadKinds(st, past + {KindOf(s)}, f, msg, p1)
  {
    hide CString, LenValue, EncodeLen;
  }

  lemma ReadsField(st: Structure, sections: seq<Section>, i: nat, f: Fields, msg: Option<Message>, p: Pass)
    requires FrameOk(st, sections, f, msg)
    requires i < |sections| && HasRead(st, sections, i, f, msg, p)
    ensures Covers(st, [sections[i]])
    ensures var p1 := Absorb(st, sections[i], p, EncodeOne(sections[i], f));
            !Refused(sections[i], p1) && HasRead(st, sections, i + 1, f, msg, p1)
  {
    PointsHere(st, sections, i);
    KindsOneMore(sections, i);
    assert FitsAt(st, sections, i, f, msg);
    var s := sections[i];
    hide Has, KindsOf, Resolves, Covers, LastOf, CString, EncodeLen, LenValue, Absorb, HasReadKinds, Built;
    if s.Length? {
      LenValueInverts(st, s.size, s.isFirstByteMsb, |f.data|);
    }
    AbsorbsField(st, s, KindsOf(sections[..i]), f, msg, p);
  }

  /** Reading one section of a frame takes exactly its bytes and its field. */
  lemma ReadsOne(st: Structure, sections: seq<Section>, i: nat, f: Fields, msg: Option<Message>, p: Pass)
    requires FrameOk(st, sections, f, msg) && NoHeaderBytes(sections)
    requires i < |sections| && HasRead(st, sections, i, f, msg, p)
    ensures Covers(st, [sections[i]])
    ensures var s := sections[i]; var b := EncodeOne(s, f);
            && SizeOf(st, s, p) == |b|
            && !Refused(s, Absorb(st, s, p, b))
            && HasRead(st, sections, i + 1, f, msg, Absorb(st, s, p, b))
  {
    hide *;
    ReadsSize(st, sections, i, f, msg, p);
    ReadsField(st, sections, i, f, msg, p);
  }

  lemma CoversSuffix(st: Structure, sections: seq<Section>, i: nat)
    requires Resolves(st, sections) && i <= |sections|
    ensures Covers(st, sections[i..])
  {
    ResolvedCovers(st, sections);
    assert forall j :: 0 <= j < |sections[i..]| ==> sections[i..][j] == sections[i + j];
  }

  lemma {:induction false} ReadsFrameFrom(
      st: Structure, sections: seq<Section>, i: nat, f: Fields, msg: Option<Message>, p: Pass, rest: seq<byte>)
      returns (p': Pass)
    requires FrameOk(st, sections, f, msg) && NoHeaderBytes(sections)
    requires i <= |sections| && HasRead(st, sections, i, f, msg, p)
    ensures Covers(st, sections[i..])
    ensures ParseSections(st, sections[i..], p, Encode(sections[i..], f) + rest) == Parsed(Finished(p'), rest)
    ensures HasRead(st, sections, |sections|, f, msg, p')
    decreases |sections| - i
  {
    CoversSuffix(st, sections, i);
    if i == |sections| {
      assert Encode(sections[i..], f) + rest == rest;
      p' := p;
    } else {
      var todo, b := sections[i..], EncodeOne(sections[i], f);
      ReadsOne(st, sections, i, f, msg, p);
      CoversSuffix(st, sections, i + 1);
      assert todo[0] == sections[i] && todo[1..] == sections[i + 1..];
      hide FrameOk, HasRead, Covers, SizeOf, Absorb, EncodeOne;
      var p1 := Absorb(st, sections[i], p, b);
      p' := ReadsFrameFrom(st, sections, i + 1, f, msg, p1, rest);
      SplitFront(b, Encode(todo[1..], f), rest);
    }
  }

  lemma SplitFront(a: seq<byte>, b: seq<byte>, rest: seq<byte>)
    ensures (a + b + rest)[..|a|] == a && (a + b + rest)[|a|..] == b + rest
  {
  }

  /** Each section that the layout has came back with its field. */
  ghost predicate FieldsBack(sections: seq<Section>, f: Fields, p: Pass) {
    && (Has(sections, KCMD) ==> p.cmd == f.cmd && p.msg.Some?)
    && (Has(sections, KData) ==> p.data == f.data)
    && (Has(sections, KLength) ==> p.dataLen as nat == |f.data|)
    && (Has(sections, KCRC) ==> p.crc == f.crc)
    && (Has(sections, KFooter) ==> p.footer == f.footer)
  }

  /** What a pass over a frame leaves in msg. */
  function MessageAfter(st: Structure, sections: seq<Section>, f: Fields, msg: Option<Message>): Option<Message> {
    if Has(sections, KCMD) && st.cmd.Some? && st.cmd.value.CMD? then Built(st.cmd.value.build, f) else msg
  }

  lemma FrameComesBack(st: Structure, sections: seq<Section>, f: Fields, msg: Option<Message>, rest: seq<byte>)
    returns (p: Pass)
    requires FrameOk(st, sections, f, msg) && NoHeaderBytes(sections)
    ensures Covers(st, sections)
    ensures ParseSections(st, sections, Fresh(msg), Encode(sections, f) + rest) == Parsed(Finished(p), rest)
    ensures FieldsBack(sections, f, p) && p.msg == MessageAfter(st, sections, f, msg)
  {
    assert sections[0..] == sections && sections[..|sections|] == sections;
    p := ReadsFrameFrom(st, sections, 0, f, msg, Fresh(msg), rest);
    if Has(sections, KCMD) {
      var i :| 0 <= i < |sections| && KindOf(sections[i]) == KCMD;
      PointsHere(st, sections, i);
      assert FitsAt(st, sections, i, f, msg);
    }
  }

  // ---- how many bytes a frame and a pass take ----------------------------------------

  function PlainSize(s: Section, dataSize: nat): nat {
    match s
    case Header(_) => 0
    case CMD(size, _) => size as nat
    case Length(size, _) => size as nat
    case Data(_) => dataSize
    case CRC(size) => size as nat
    case Footer(content) => |content|
  }

  function PlainSizes(sections: seq<Section>, dataSize: nat): nat {
    if sections == [] then 0 else PlainSize(sections[0], dataSize) + PlainSizes(sections[1..], dataSize)
  }

  function HeaderBytes(sections: seq<Section>): nat {
    if sections == [] then 0
    else (if sections[0].Header? then |sections[0].content| else 0) + HeaderBytes(sections[1..])
  }

  lemma {:induction false} HeaderBytesCount(sections: seq<Section>)
    ensures HeaderBytes(sections) == 0 <==> NoHeaderBytes(sections)
  {
    if sections != [] {
      HeaderBytesCount(sections[1..]);
      assert forall i :: 0 < i < |sections| ==> sections[i] == sections[1..][i - 1];
      if NoHeaderBytes(sections[1..]) {
        assert NoHeaderBytes(sections) <==> (sections[0].Header? ==> sections[0].content == []);
      } else {
        var i :| 0 <= i < |sections[1..]| && sections[1..][i].Header? && sections[1..][i].content != [];
        assert sections[i + 1] == sections[1..][i];
      }
    }
  }

  lemma {:induction false} FrameLength(
      st: Structure, sections: seq<Section>, i: nat, f: Fields, msg: Option<Message>)
    requires FrameOk(st, sections, f, msg) && i <= |sections|
    ensures |Encode(sections[i..], f)| == PlainSizes(sections[i..], |f.data|) + HeaderBytes(sections[i..])
    decreases |sections| - i
  {
    if i < |sections| {
      assert sections[i..][0] == sections[i] && sections[i..][1..] == sections[i + 1..];
      assert FitsAt(st, sections, i, f, msg);
      FrameLength(st, sections, i + 1, f, msg);
    }
  }

  /** Once the data section is past, a pass does not touch data again. */
  lemma {:induction false} DataStays(st: Structure, sections: seq<Section>, p: Pass, stream: seq<byte>)
    requires Covers(st, sections) && !Has(sections, KData)
    requires ParseSections(st, sections, p, stream).Parsed?
    ensures ParseSections(st, sections, p, stream).outcome.p.data == p.data
    decreases |sections|
  {
    if sections != [] {
      CoversRest(st, sections);
      var n := SizeOf(st, sections[0], p);
      var p1 := Absorb(st, sections[0], p, stream[..n]);
      assert KindOf(sections[0]) != KData;
      assert !Has(sections[1..], KData) by {
        forall i | 0 <= i < |sections[1..]|
          ensures KindOf(sections[1..][i]) != KData
        {
          assert KindOf(sections[i + 1]) != KData;
        }
      }
      if !Refused(sections[0], p1) {
        DataStays(st, sections[1..], p1, stream[n..]);
      }
    }
  }

  lemma NoOtherData(sections: seq<Section>, i: nat)
    requires AtMostOneEach(sections) && i < |sections| && sections[i].Data?
    ensures !Has(sections[i + 1..], KData)
  {
    var after := sections[i + 1..];
    forall j | 0 <= j < |after|
      ensures KindOf(after[j]) != KData
    {
      assert after[j] == sections[i + 1 + j];
      assert KindOf(sections[i]) != KindOf(sections[i + 1 + j]);
    }
  }

  /** A finished pass has taken the plain size of the layout, never any header bytes. */
  lemma {:induction false} PassLength(st: Structure, sections: seq<Section>, i: nat, p: Pass, stream: seq<byte>)
    requires Resolves(st, sections) && AtMostOneEach(sections) && i <= |sections|
    requires Covers(st, sections[i..])
    requires var r := ParseSections(st, sections[i..], p, stream); r.Parsed? && r.outcome.Finished?
    ensures var r := ParseSections(st, sections[i..], p, stream);
            |stream| == PlainSizes(sections[i..], |r.outcome.p.data|) + |r.rest|
    decreases |sections| - i
  {
    if i < |sections| {
      var todo := sections[i..];
      assert todo[0] == sections[i] && todo[1..] == sections[i + 1..];
      PointsHere(st, sections, i);
      CoversRest(st, todo);
      var n := SizeOf(st, sections[i], p);
      var p1 := Absorb(st, sections[i], p, stream[..n]);
      if sections[i].Data? {
        NoOtherData(sections, i);
        DataStays(st, sections[i + 1..], p1, stream[n..]);
      }
      PassLength(st, sections, i + 1, p1, stream[n..]);
    }
  }

  /** The pass over a frame and what follows it reads all fields and takes only the frame. */
  ghost predicate ReadBack(st: Structure, sections: seq<Section>, f: Fields, msg: Option<Message>, rest: seq<byte>)
    requires Covers(st, sections)
  {
    exists p :: FieldsBack(sections, f, p)
      && ParseSections(st, sections, Fresh(msg), Encode(sections, f) + rest) == Parsed(Finished(p), rest)
  }

  /** A frame of a layout, whatever follows it, is read back with all its fields and
      nothing else taken exactly when the layout has no header bytes. */
  lemma FrameComesBackIffNoHeader(
      st: Structure, sections: seq<Section>, f: Fields, msg: Option<Message>, rest: seq<byte>)
    requires FrameOk(st, sections, f, msg)
    ensures Covers(st, sections)
    ensures ReadBack(st, sections, f, msg, rest) <==> NoHeaderBytes(sections)
  {
    ResolvedCovers(st, sections);
    assert sections[0..] == sections;
    if NoHeaderBytes(sections) {
      var p := FrameComesBack(st, sections, f, msg, rest);
    }
    var stream := Encode(sections, f) + rest;
    if p :| FieldsBack(sections, f, p) && ParseSections(st, sections, Fresh(msg), stream) == Parsed(Finished(p), rest) {
      PassLength(st, sections, 0, Fresh(msg), stream);
      FrameLength(st, sections, 0, f, msg);
      HeaderBytesCount(sections);
      DataSizeMatters(sections, |p.data|, |f.data|);
    }
  }

  /** A layout whose factory refuses some command reads its frames back and survives
      every refused command exactly when it has a header section, and that is empty. */
  lemma SafeIffEmptyHeader(
      st: Structure, sections: seq<Section>, f: Fields, msg: Option<Message>, rest: seq<byte>, c: seq<byte>)
    requires FrameOk(st, sections, f, msg) && Has(sections, KCMD) && Refusable(st, c)
    ensures Covers(st, sections)
    ensures ReadBack(st, sections, f, msg, rest) && !CanFault(st, sections)
       <==> Has(sections, KHeader) && NoHeaderBytes(sections)
  {
    FrameComesBackIffNoHeader(st, sections, f, msg, rest);
    FaultPossibleIff(st, sections);
  }

  lemma {:induction false} DataSizeMatters(sections: seq<Section>, m: nat, n: nat)
    requires Has(sections, KData) ==> m == n
    ensures PlainSizes(sections, m) == PlainSizes(sections, n)
  {
    if sections != [] {
      if Has(sections[1..], KData) {
        var i :| 0 <= i < |sections[1..]| && KindOf(sections[1..][i]) == KData;
        assert KindOf(sections[i + 1]) == KData;
      }
      assert KindOf(sections[0]) == KindOf(sections[0]);
      DataSizeMatters(sections[1..], m, n);
    }
  }

  /** With a header in the layout it fails: the header bytes end up in the command. */
  lemma HeaderFrameIsMisread(accept: Message, msg: Option<Message>)
    ensures var build: Factory := _ => Some(accept);
            var sections := [Header([0xAA, 0xFF]), CMD(2, build)];
            var st := Structure(Some(sections[0]), Some(sections[1]), None, None, None, None);
            && Resolves(st, sections) && Covers(st, sections)
            && var r := ParseSections(st, sections, Fresh(msg), Encode(sections, Fields([0xD1, 0xD2], [], [], [])));
               r.Parsed? && r.outcome.p.cmd == [0xAA, 0xFF] && r.rest == [0xD1, 0xD2]
  {
    var build: Factory := _ => Some(accept);
    var sections := [Header([0xAA, 0xFF]), CMD(2, build)];
    var st := Structure(Some(sections[0]), Some(sections[1]), None, None, None, None);
    assert AtMostOneEach(sections);
    forall k: Kind
      ensures Pointer(st, k) == LastOf(sections, k)
    {
      LastOfExists(sections, k);
      OnlyOneIsLast(sections, 0);
      OnlyOneIsLast(sections, 1);
      assert Has(sections, KHeader) ==> KindOf(sections[0]) == KHeader;
    }
    ResolvedCovers(st, sections);
    var f := Fields([0xD1, 0xD2], [], [], []);
    assert sections[1..] == [sections[1]] && sections[1..][1..] == [];
    var stream := Encode(sections, f);
    assert Encode(sections[1..], f) == [0xD1, 0xD2] + Encode([], f);
    assert stream == [0xAA, 0xFF, 0xD1, 0xD2];
    CoversRest(st, sections);
    var p1 := Absorb(st, sections[0], Fresh(msg), stream[..0]);
    assert stream[0..] == stream;
    assert ParseSections(st, sections, Fresh(msg), stream) == ParseSections(st, sections[1..], p1, stream);
    CoversRest(st, sections[1..]);
    var p2 := Absorb(st, sections[1], p1, stream[..2]);
    assert ParseSections(st, sections[1..], p1, stream) == ParseSections(st, sections[1..][1..], p2, stream[2..]);
  }

  // ---- the message of the pass before ----------------------------------------------------

  lemma {:induction false} MessageSizesData(
      st: Structure, sections: seq<Section>, p: Pass, stream: seq<byte>, size: nat)
    requires Covers(st, sections) && AtMostOneEach(sections) && DataFirst(sections) && st.length.None?
    requires p.msg.Some? && p.msg.value.serializeSize == size < 0x1_0000_0000
    requires ParseSections(st, sections, p, stream).Parsed?
    ensures |ParseSections(st, sections, p, stream).outcome.p.data| == size
    decreases |sections|
  {
    CoversRest(st, sections);
    var s, rest, n := sections[0], sections[1..], SizeOf(st, sections[0], p);
    var p1 := Absorb(st, s, p, stream[..n]);
    assert [s][0] == s;
    if s.Data? {
      assert sections[0..][1..] == rest && sections[0 + 1..] == rest;
      NoOtherData(sections, 0);
      DataStays(st, rest, p1, stream[n..]);
    } else {
      forall i, j | 0 <= i < j < |rest|
        ensures KindOf(rest[i]) != KindOf(rest[j])
      {
        assert KindOf(sections[i + 1]) != KindOf(sections[j + 1]);
      }
      MessageSizesData(st, rest, p1, stream[n..], size);
    }
  }

  /** The message that the pass before left makes no difference to a pass, exactly when the
      layout has a length section or has no data section before its command section. */
  lemma MessageMattersIff(st: Structure, sections: seq<Section>)
    requires Resolves(st, sections) && AtMostOneEach(sections)
    ensures (forall m1, m2, stream ::
               Forget(PassOf(st, sections, m1, stream)) == Forget(PassOf(st, sections, m2, stream)))
       <==> Has(sections, KLength) || !DataFirst(sections)
  {
    ResolvedCovers(st, sections);
    LastOfExists(sections, KLength);
    assert st.length == Pointer(st, KLength);
    if Has(sections, KLength) || !DataFirst(sections) {
      forall m1, m2, stream
        ensures Forget(PassOf(st, sections, m1, stream)) == Forget(PassOf(st, sections, m2, stream))
      {
        OtherMessageSamePass(st, sections, Fresh(m1), Fresh(m2), stream);
      }
    } else {
      MessageCanMatter(st, sections);
    }
  }

  lemma MessageCanMatter(st: Structure, sections: seq<Section>)
    requires Resolves(st, sections) && AtMostOneEach(sections)
    requires st.length.None? && DataFirst(sections)
    ensures exists m1, m2, stream ::
              Forget(PassOf(st, sections, m1, stream)) != Forget(PassOf(st, sections, m2, stream))
  {
    ResolvedCovers(st, sections);
    var m1, m2 := Some(Message(0, 0)), Some(Message(0, 1));
    var c := if st.cmd.Some? then seq(st.cmd.value.size as nat, _ => 0 as byte) else [];
    var stream := StreamWith(st, sections, Fresh(m1), c);
    RunsIntoRefusal(st, sections, Fresh(m1), c);
    MessageSizesData(st, sections, Fresh(m1), stream, 0);
    if PassOf(st, sections, m2, stream).Parsed? {
      MessageSizesData(st, sections, Fresh(m2), stream, 1);
    }
    assert Forget(PassOf(st, sections, m1, stream)) != Forget(PassOf(st, sections, m2, stream));
  }

  // ---- pass after pass ---------------------------------------------------------------------

  /** Each frame is one for the layout, given the message of the frame before. */
  ghost predicate FramesOk(st: Structure, sections: seq<Section>, fs: seq<Fields>, msg: Option<Message>) {
    fs == [] ||
    (FrameOk(st, sections, fs[0], msg) &&
     FramesOk(st, sections, fs[1..], MessageAfter(st, sections, fs[0], msg)))
  }

  function EncodeAll(sections: seq<Section>, fs: seq<Fields>): seq<byte> {
    if fs == [] then [] else Encode(sections, fs[0]) + EncodeAll(sections, fs[1..])
  }

  /** Passes in a row, each with the message of the one before, have read these frames
      and left the rest of the stream. */
  ghost predicate AllBack(st: Structure, sections: seq<Section>, fs: seq<Fields>, msg: Option<Message>,
                          stream: seq<byte>, rest: seq<byte>)
    requires Covers(st, sections)
    decreases |fs|
  {
    if fs == [] then stream == rest
    else
      var r := ParseSections(st, sections, Fresh(msg), stream);
      && r.Parsed? && r.outcome.Finished?
      && FieldsBack(sections, fs[0], r.outcome.p)
      && AllBack(st, sections, fs[1..], r.outcome.p.msg, r.rest, rest)
  }

  /** Frames one after the other come back one after the other. */
  lemma {:induction false} FramesComeBack(
      st: Structure, sections: seq<Section>, fs: seq<Fields>, msg: Option<Message>, rest: seq<byte>)
    requires Resolves(st, sections) && FramesOk(st, sections, fs, msg) && NoHeaderBytes(sections)
    ensures Covers(st, sections)
    ensures AllBack(st, sections, fs, msg, EncodeAll(sections, fs) + rest, rest)
    decreases |fs|
  {
    ResolvedCovers(st, sections);
    if fs == [] {
      assert EncodeAll(sections, fs) + rest == rest;
    } else {
      var behind := EncodeAll(sections, fs[1..]) + rest;
      assert EncodeAll(sections, fs) + rest == Encode(sections, fs[0]) + behind;
      hide Resolves, NoHeaderBytes, FrameOk, FieldsBack, Encode, ParseSections, Covers;
      var p := FrameComesBack(st, sections, fs[0], msg, behind);
      FramesComeBack(st, sections, fs[1..], p.msg, rest);
    }
  }
}
