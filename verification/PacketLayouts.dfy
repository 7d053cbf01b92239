/** The section kinds of abstract_message.h and the scan that resolves a layout. */
module PacketLayouts {
  import opened MachineTypes

  /** What a factory builds from a command: its get_type and get_serialize_size. */
  datatype Message = Message(kind: int, serializeSize: nat)
  type Factory = seq<byte> -> Option<Message>

  datatype Section =
    | Header(content: seq<byte>)
    | CMD(size: uint32, build: Factory)
    | Length(size: uint32, isFirstByteMsb: bool)
    | Data(fixSize: uint32)
    | CRC(size: uint32)
    | Footer(content: seq<byte>)

  datatype Kind = KHeader | KCMD | KLength | KData | KCRC | KFooter

  function KindOf(s: Section): Kind {
    match s
    case Header(_) => KHeader
    case CMD(_, _) => KCMD
    case Length(_, _) => KLength
    case Data(_) => KData
    case CRC(_) => KCRC
    case Footer(_) => KFooter
  }

  /** The pointers a scanned layout is read through, null when there is no such section. */
  datatype Structure = Structure(
    header: Option<Section>, cmd: Option<Section>, length: Option<Section>,
    data: Option<Section>, crc: Option<Section>, footer: Option<Section>)

  function Pointer(st: Structure, k: Kind): Option<Section> {
    match k
    case KHeader => st.header
    case KCMD => st.cmd
    case KLength => st.length
    case KData => st.data
    case KCRC => st.crc
    case KFooter => st.footer
  }

  function LastOf(sections: seq<Section>, k: Kind): (s: Option<Section>)
    ensures s.Some? ==> KindOf(s.value) == k
  {
    if sections == [] then None
    else if KindOf(sections[|sections| - 1]) == k then Some(sections[|sections| - 1])
    else LastOf(sections[..|sections| - 1], k)
  }

  /** Every pointer of the structure is the last section of its kind. */
  ghost predicate Resolves(st: Structure, sections: seq<Section>) {
    forall k: Kind :: Pointer(st, k) == LastOf(sections, k)
  }

  predicate Has(sections: seq<Section>, k: Kind) {
    exists i :: 0 <= i < |sections| && KindOf(sections[i]) == k
  }

  lemma {:induction false} LastOfExists(sections: seq<Section>, k: Kind)
    ensures LastOf(sections, k).Some? <==> Has(sections, k)
  {
    if sections != [] && KindOf(sections[|sections| - 1]) != k {
      var front := sections[..|sections| - 1];
      LastOfExists(front, k);
      if Has(sections, k) {
        var i :| 0 <= i < |sections| && KindOf(sections[i]) == k;
        assert front[i] == sections[i];
      }
    }
  }

  /** A scan of sections has turned before into after. */
  ghost predicate Scans(before: Structure, sections: seq<Section>, after: Structure) {
    forall k: Kind ::
      Pointer(after, k) == if LastOf(sections, k).Some? then LastOf(sections, k) else Pointer(before, k)
  }

  /** Scanning some sections and then more is scanning all of them. */
  lemma ScansAgain(before: Structure, earlier: seq<Section>, sections: seq<Section>, after: Structure)
    requires Resolves(before, earlier) && Scans(before, sections, after)
    ensures Resolves(after, earlier + sections)
  {
    forall k: Kind
      ensures Pointer(after, k) == LastOf(earlier + sections, k)
    {
      LastOfBoth(earlier, sections, k);
      assert Pointer(before, k) == LastOf(earlier, k);
    }
  }

  lemma {:induction false} LastOfBoth(a: seq<Section>, b: seq<Section>, k: Kind)
    ensures LastOf(a + b, k) == if LastOf(b, k).Some? then LastOf(b, k) else LastOf(a, k)
  {
    if b == [] {
      assert a + b == a;
    } else {
      var front := b[..|b| - 1];
      assert (a + b)[..|a + b| - 1] == a + front;
      LastOfBoth(a, front, k);
    }
  }

  predicate AtMostOneEach(sections: seq<Section>) {
    forall i, j :: 0 <= i < j < |sections| ==> KindOf(sections[i]) != KindOf(sections[j])
  }

  lemma {:induction false} OnlyOneIsLast(sections: seq<Section>, i: nat)
    requires AtMostOneEach(sections) && i < |sections|
    ensures LastOf(sections, KindOf(sections[i])) == Some(sections[i])
  {
    if i < |sections| - 1 {
      assert KindOf(sections[i]) != KindOf(sections[|sections| - 1]);
      OnlyOneIsLast(sections[..|sections| - 1], i);
    }
  }

  class PacketStructure {
    var header: Option<Section>
    var cmd: Option<Section>
    var length: Option<Section>
    var data: Option<Section>
    var crc: Option<Section>
    var footer: Option<Section>
    var isLengthExist: bool

    function Value(): Structure
      reads this
    {
      Structure(header, cmd, length, data, crc, footer)
    }

    constructor ()
      ensures Resolves(Value(), []) && !isLengthExist
    {
      header, cmd, length, data, crc, footer := None, None, None, None, None, None;
      isLengthExist := false;
    }

    /** The last section of each kind wins; kinds that do not occur stay as they were. */
    method IsPacketSectionsCorrect(sections: seq<Section>) returns (ok: bool)
      modifies this
      ensures ok && Scans(old(Value()), sections, Value())
      ensures isLengthExist <==> old(isLengthExist) || Has(sections, KLength)
    {
      assert sections[..0] == [];
      for i := 0 to |sections|
        invariant Scans(old(Value()), sections[..i], Value())
        invariant isLengthExist <==> old(isLengthExist) || LastOf(sections[..i], KLength).Some?
      {
        var section := sections[i];
        assert sections[..i + 1][..i] == sections[..i];
        match section
        case Header(_) => header := Some(section);
        case CMD(_, _) => cmd := Some(section);
        case Length(_, _) => length := Some(section); isLengthExist := true;
        case Data(_) => data := Some(section);
        case CRC(_) => crc := Some(section);
        case Footer(_) => footer := Some(section);
      }
      assert sections[..|sections|] == sections;
      LastOfExists(sections, KLength);
      ok := true;
    }
  }
}
