/** MessageExtractor of message_extractor.cc reading from the byte ring. */
module Extractor {
  import opened MachineTypes
  import opened RingModel
  import opened CircularBuffers
  import opened PacketLayouts
  import opened LengthFields
  import opened Parsing

  /** get_next_bytes, a loop of single-byte reads, leaves the ring and the bytes of one
      bulk read. On a destroyed ring it ends all the same, with bytes of any value. */
  method GetNextBytes(buffer: CircularBuffer, size: uint32) returns (data: seq<byte>)
    requires buffer.Valid() && (buffer.destructorCall || size as int <= |Contents(buffer.Value())|)
    modifies buffer`tail
    ensures buffer.Valid() && |data| == size as int
    ensures buffer.destructorCall ==> buffer.Value() == old(buffer.Value())
    ensures !buffer.destructorCall ==>
              && buffer.Value() == ReadRing(old(buffer.Value()), size as nat)
              && data == old(Contents(buffer.Value()))[..size]
              && Contents(buffer.Value()) == old(Contents(buffer.Value()))[size..]
  {
    ghost var r := buffer.Value();
    ReadNone(r);
    hide Contents, Wrap, ReadRing;
    data := [];
    for i := 0 to size as int
      invariant buffer.Valid() && |data| == i
      invariant r.destroyed ==> buffer.Value() == r
      invariant !r.destroyed ==>
                  i <= |Contents(r)| && buffer.Value() == ReadRing(r, i) && data == Contents(r)[..i]
    {
      if !r.destroyed {
        ReadTwice(r, i, 1);
      }
      var b := buffer.ReadNextByte();
      if !r.destroyed {
        ReadOneMore(r, i, b);
      }
      data := data + [b];
    }
    if !r.destroyed {
      ReadContents(r, size as nat);
    }
  }

  lemma ReadNone(r: Ring)
    requires Ok(r)
    ensures ReadRing(r, 0) == r && Contents(r)[..0] == []
  {
  }

  lemma ReadOneMore(r: Ring, i: nat, b: byte)
    requires Ok(r) && i < Count(r)
    requires [b] + Contents(ReadRing(ReadRing(r, i), 1)) == Contents(ReadRing(r, i))
    ensures Contents(r)[..i + 1] == Contents(r)[..i] + [b]
  {
    ReadContents(r, i);
    assert Contents(ReadRing(r, i))[0] == b;
  }

  /** Reading one block of known size, as the data section is read. */
  method ReadBlock(buffer: CircularBuffer, size: uint32) returns (data: seq<byte>)
    requires buffer.Valid() && (buffer.destructorCall || size as int <= |Contents(buffer.Value())|)
    modifies buffer`tail
    ensures buffer.Valid() && |data| == size as int
    ensures buffer.destructorCall ==> buffer.Value() == old(buffer.Value())
    ensures !buffer.destructorCall ==>
              && data == old(Contents(buffer.Value()))[..size]
              && Contents(buffer.Value()) == old(Contents(buffer.Value()))[size..]
  {
    var bytes := new byte[size as int](_ => 0);
    var _ := buffer.Read(bytes, size, 0);
    data := bytes[..];
    assert bytes[..] == bytes[..size];
  }

  /** total is what a pass makes of the ring was. With these sections still to read, the
      ring still holds the bytes for them; a destroyed ring has not changed at all. */
  ghost predicate StillTo(total: Parse, st: Structure, todo: seq<Section>, p: Pass, was: Ring, now: Ring) {
    && Covers(st, todo) && Ok(now) && now.destroyed == was.destroyed
    && if was.destroyed then now == was else total == ParseSections(st, todo, p, Contents(now))
  }

  lemma RoundBegins(total: Parse, st: Structure, todo: seq<Section>, p: Pass, was: Ring, now: Ring)
    requires StillTo(total, st, todo, p, was, now) && todo != [] && (was.destroyed || total.Parsed?)
    ensures Covers(st, [todo[0]])
    ensures now.destroyed == was.destroyed && (now.destroyed || SizeOf(st, todo[0], p) <= |Contents(now)|)
  {
    CoversRest(st, todo);
    hide Contents, SizeOf, Absorb, Covers;
  }

  lemma RoundEnds(total: Parse, st: Structure, todo: seq<Section>, p: Pass, was: Ring, now: Ring, p1: Pass, after: Ring)
    requires StillTo(total, st, todo, p, was, now) && todo != [] && (was.destroyed || total.Parsed?)
    requires Covers(st, [todo[0]]) && Ok(after) && after.destroyed == now.destroyed
    requires now.destroyed || SizeOf(st, todo[0], p) <= |Contents(now)|
    requires if now.destroyed then after == now
             else p1 == Absorb(st, todo[0], p, Contents(now)[..SizeOf(st, todo[0], p)])
                  && Contents(after) == Contents(now)[SizeOf(st, todo[0], p)..]
    ensures if Refused(todo[0], p1)
            then if was.destroyed then after == was else total == Parsed(Refuse(st, p1), Contents(after))
            else StillTo(total, st, todo[1..], p1, was, after)
  {
    CoversRest(st, todo);
    hide Contents, SizeOf, Absorb, Covers;
  }

  lemma NothingToParse(total: Parse, st: Structure, todo: seq<Section>, p: Pass, was: Ring, now: Ring)
    requires StillTo(total, st, todo, p, was, now) && todo == []
    ensures if was.destroyed then now == was else total == Parsed(Finished(p), Contents(now))
  {
    hide Contents;
  }

  class MessageExtractor {
    const structure: PacketStructure
    const buffer: CircularBuffer
    var packetSections: seq<Section>

    ghost predicate Valid()
      reads this, structure
    {
      && Resolves(structure.Value(), packetSections)
      && (structure.isLengthExist <==> Has(packetSections, KLength))
    }

    /** sections is what init_packet puts into the layout. */
    constructor (structure: PacketStructure, sections: seq<Section>, buffer: CircularBuffer)
      requires Resolves(structure.Value(), []) && !structure.isLengthExist
      modifies structure
      ensures Valid() && packetSections == sections
      ensures this.structure == structure && this.buffer == buffer
    {
      this.structure := structure;
      this.buffer := buffer;
      packetSections := sections;
      new;
      ghost var before := structure.Value();
      var _ := structure.IsPacketSectionsCorrect(sections);
      ScansAgain(before, [], sections, structure.Value());
      assert [] + sections == sections;
    }

    /** The for loop of find_message, when every read of a live ring finds its bytes. It
        does what the pure parse of the ring's contents does. On a destroyed ring it goes
        through all the same and takes nothing. */
    method FindMessagePass(msg: Option<Message>) returns (outcome: Outcome)
      requires Valid() && buffer.Valid()
      requires buffer.destructorCall || PassOf(structure.Value(), packetSections, msg, Contents(buffer.Value())).Parsed?
      modifies buffer`tail
      ensures buffer.Valid()
      ensures !buffer.destructorCall ==>
                Parsed(outcome, Contents(buffer.Value()))
                == PassOf(structure.Value(), packetSections, msg, old(Contents(buffer.Value())))
      ensures buffer.destructorCall ==> buffer.Value() == old(buffer.Value())
    {
      ghost var total := PassOf(structure.Value(), packetSections, msg, Contents(buffer.Value()));
      var st := structure.Value();
      ResolvedCovers(st, packetSections);
      PointersOf(st, packetSections);
      assert packetSections[0..] == packetSections;
      var p := Fresh(msg);
      var i := 0;
      ghost var was := buffer.Value();
      assert StillTo(total, st, packetSections[i..], p, was, was);
      hide Contents, Absorb, SizeOf, CString, Count, Covers, ParseSections, PassOf, Has, StillTo;
      while i < |packetSections|
        invariant 0 <= i <= |packetSections| && buffer.Valid()
        invariant StillTo(total, st, packetSections[i..], p, was, buffer.Value())
      {
        ghost var todo, before, q := packetSections[i..], buffer.Value(), p;
        assert todo[0] == packetSections[i] && todo[1..] == packetSections[i + 1..];
        RoundBegins(total, st, todo, q, was, before);
        p := ReadSection(st, packetSections[i], p);
        RoundEnds(total, st, todo, q, was, before, p, buffer.Value());
        if packetSections[i].CMD? && p.msg.None? {
          return Refuse(st, p);
        }
        i := i + 1;
      }
      NothingToParse(total, st, packetSections[i..], p, was, buffer.Value());
      outcome := Finished(p);
    }

    /** One arm of the switch in find_message. */
    method ReadSection(st: Structure, section: Section, p: Pass) returns (p': Pass)
      requires buffer.Valid() && st == structure.Value()
      requires Covers(st, [section]) && (structure.isLengthExist <==> st.length.Some?)
      requires buffer.destructorCall || SizeOf(st, section, p) <= |Contents(buffer.Value())|
      modifies buffer`tail
      ensures buffer.Valid()
      ensures buffer.destructorCall ==> buffer.Value() == old(buffer.Value())
      ensures !buffer.destructorCall ==>
                && p' == Absorb(st, section, p, old(Contents(buffer.Value()))[..SizeOf(st, section, p)])
                && Contents(buffer.Value()) == old(Contents(buffer.Value()))[SizeOf(st, section, p)..]
    {
      assert [section][0] == section;
      hide Contents, ReadRing;
      match section
      case Header(_) =>
        p' := p.(sections := p.sections + [[]]);
      case CMD(_, _) =>
        var cmd := GetNextBytes(buffer, structure.cmd.value.size);
        var msg := structure.cmd.value.build(CString(cmd));
        p' := p.(cmd := cmd, msg := msg, sections := p.sections + [cmd]);
      case Length(_, _) =>
        var len := GetNextBytes(buffer, structure.length.value.size);
        var lenVal := (CalcLen(len, structure.length.value.isFirstByteMsb) % 0x1_0000_0000) as uint32;
        p' := p.(len := len, dataLen := lenVal, sections := p.sections + [len]);
      case Data(_) =>
        var dataSize: uint32;
        if structure.isLengthExist {
          dataSize := p.dataLen;
        } else if p.msg.Some? {
          dataSize := (p.msg.value.serializeSize % 0x1_0000_0000) as uint32;
        } else {
          dataSize := structure.data.value.fixSize;
        }
        var data := ReadBlock(buffer, dataSize);
        p' := p.(data := data, sections := p.sections + [data]);
      case CRC(_) =>
        var crc := GetNextBytes(buffer, structure.crc.value.size);
        p' := p.(crc := crc, sections := p.sections + [crc]);
      case Footer(_) =>
        var footer := GetNextBytes(buffer, (|structure.footer.value.content| % 0x1_0000_0000) as uint32);
        p' := p.(footer := footer, sections := p.sections + [footer]);
    }
  }

  lemma PointersOf(st: Structure, sections: seq<Section>)
    requires Resolves(st, sections)
    ensures st.length.Some? <==> Has(sections, KLength)
  {
    LastOfExists(sections, KLength);
    assert st.length == Pointer(st, KLength);
  }
}
