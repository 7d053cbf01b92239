/** The icmp_header class and compute_checksum of icmp_header.hpp. */
module IcmpHeaders {
  import opened MachineTypes
  import opened Checksums

  const ECHO_REPLY: byte := 0
  const ECHO_REQUEST: byte := 8

  function WordAt(rep: seq<byte>, a: nat): nat
    requires a + 1 < |rep|
  {
    Word(rep[a], rep[a + 1])
  }

  class IcmpHeader {
    const rep: array<byte>

    ghost predicate Valid() {
      rep.Length == 8
    }

    constructor ()
      ensures Valid() && fresh(rep) && rep[..] == seq(8, _ => 0 as byte)
    {
      rep := new byte[8](_ => 0);
    }

    function Decode(a: int, b: int): (n: uint16)
      reads rep
      requires 0 <= a < rep.Length && 0 <= b < rep.Length
      ensures n as nat == Word(rep[a], rep[b]) == rep[a] as nat * 0x100 + rep[b] as nat
    {
      rep[a] as uint16 * 0x100 + rep[b] as uint16
    }

    method Encode(a: int, b: int, n: uint16)
      requires 0 <= a < rep.Length && 0 <= b < rep.Length && a != b
      modifies rep
      ensures Decode(a, b) == n
      ensures rep[..] == old(rep[..])[a := (n / 0x100) as byte][b := (n % 0x100) as byte]
    {
      rep[a] := (n / 0x100) as byte;
      rep[b] := (n % 0x100) as byte;
    }

    function Type(): byte
      reads rep
      requires Valid()
    {
      rep[0]
    }

    function Code(): byte
      reads rep
      requires Valid()
    {
      rep[1]
    }

    function Identifier(): (n: uint16)
      reads rep
      requires Valid()
      ensures n as nat == WordAt(rep[..], 4)
    {
      Decode(4, 5)
    }

    function SequenceNumber(): (n: uint16)
      reads rep
      requires Valid()
      ensures n as nat == WordAt(rep[..], 6)
    {
      Decode(6, 7)
    }

    method SetType(n: byte)
      requires Valid()
      modifies rep
      ensures Type() == n && rep[..] == old(rep[..])[0 := n]
    {
      rep[0] := n;
    }

    method SetCode(n: byte)
      requires Valid()
      modifies rep
      ensures Code() == n && rep[..] == old(rep[..])[1 := n]
    {
      rep[1] := n;
    }

    method SetChecksum(n: uint16)
      requires Valid()
      modifies rep
      ensures rep[..] == WithChecksum(old(rep[..]), n as nat)
    {
      Encode(2, 3, n);
    }

    method SetIdentifier(n: uint16)
      requires Valid()
      modifies rep
      ensures Identifier() == n
      ensures rep[..] == old(rep[..])[4 := (n / 0x100) as byte][5 := (n % 0x100) as byte]
    {
      Encode(4, 5, n);
    }

    method SetSequenceNumber(n: uint16)
      requires Valid()
      modifies rep
      ensures SequenceNumber() == n
      ensures rep[..] == old(rep[..])[6 := (n / 0x100) as byte][7 := (n % 0x100) as byte]
    {
      Encode(6, 7, n);
    }
  }

  /** The value an unsigned 32-bit variable holds after being assigned x. */
  function Wrap32(x: nat): (w: nat)
    ensures w < TWO32
  {
    x % TWO32
  }

  function AddWrap(sum: uint32, n: nat): (r: uint32)
    ensures r as nat == Wrap32(sum as nat + n)
  {
    ((sum as nat + n) % TWO32) as uint32
  }

  lemma AddTwiceWraps(sum: nat, a: nat, b: nat)
    ensures Wrap32(Wrap32(sum + a) + b) == Wrap32(sum + (a + b))
  {
  }

  /** The accumulator of compute_checksum while the body from index i on is to come. */
  ghost predicate Remaining(body: seq<byte>, i: nat, sum: nat, total: nat) {
    i <= |body| && Wrap32(sum + Sum(Words(body[i..]))) == Wrap32(total)
  }

  /** The loop of compute_checksum: adds the words of the body to the accumulator. */
  method AddBody(start: uint32, body: seq<byte>) returns (sum: uint32)
    ensures sum as nat == Wrap32(start as nat + Sum(Words(body)))
  {
    sum := start;
    var i := 0;
    ghost var total := start as nat + Sum(Words(body));
    assert body[0..] == body;
    assert Remaining(body, i, sum as nat, total);
    hide *;
    while i < |body|
      invariant 0 <= i <= |body| && Remaining(body, i, sum as nat, total)
    {
      ghost var from, before := i, sum as nat;
      var high := body[i] as nat * 0x100;
      sum := AddWrap(sum, high);
      i := i + 1;
      if i < |body| {
        sum := AddWrap(sum, body[i] as nat);
        i := i + 1;
        WordTaken(body, from, before, high, body[i - 1] as nat, total);
      } else {
        OddByteTaken(body, from, before, high, total);
      }
    }
    NothingLeft(body, i, sum as nat, total);
  }

  lemma WordTaken(body: seq<byte>, i: nat, sum: nat, high: nat, low: nat, total: nat)
    requires i + 1 < |body| && high == body[i] as nat * 0x100 && low == body[i + 1] as nat
    requires Remaining(body, i, sum, total)
    ensures Remaining(body, i + 2, Wrap32(Wrap32(sum + high) + low), total)
  {
    hide Sum, Words, Wrap32;
    FirstWord(body, i, high + low);
    AddTwiceWraps(sum, high, low);
    AddTwiceWraps(sum, high + low, Sum(Words(body[i + 2..])));
  }

  lemma FirstWord(body: seq<byte>, i: nat, w: nat)
    requires i + 1 < |body| && w == body[i] as nat * 0x100 + body[i + 1] as nat
    ensures Sum(Words(body[i..])) == w + Sum(Words(body[i + 2..]))
  {
    var rest, after := body[i..], body[i + 2..];
    assert rest[2..] == after;
    assert Words(rest) == [w] + Words(after);
    hide *;
    SumAppend([w], Words(after));
    SumOne(w);
  }

  lemma OddByteTaken(body: seq<byte>, i: nat, sum: nat, high: nat, total: nat)
    requires i + 1 == |body| && high == body[i] as nat * 0x100
    requires Remaining(body, i, sum, total)
    ensures Remaining(body, i + 1, Wrap32(sum + high), total)
  {
    assert body[i..] == [body[i]] && body[i + 1..] == [];
    SumOne(high);
    assert Words([body[i]]) == [high] && Words([]) == [] && Sum([]) == 0;
    hide Sum, Words, Wrap32;
    AddTwiceWraps(sum, high, 0);
  }

  lemma NothingLeft(body: seq<byte>, i: nat, sum: nat, total: nat)
    requires i == |body| && sum < TWO32 && Remaining(body, i, sum, total)
    ensures sum == Wrap32(total)
  {
    assert body[i..] == [];
    NoLap(sum);
  }

  /** Any body; from 131069 bytes on the accumulator may wrap around. */
  method ComputeChecksum(header: IcmpHeader, body: seq<byte>)
    requires header.Valid()
    modifies header.rep
    ensures header.rep[..] == WithChecksum(old(header.rep[..]), Checksum(old(header.rep[..]), body))
    ensures |body| <= 131068 ==> OnesSum(header.rep[..] + body) == 0xFFFF
  {
    ghost var rep := header.rep[..];
    var start := header.Type() as uint32 * 0x100 + header.Code() as uint32
               + header.Identifier() as uint32 + header.SequenceNumber() as uint32;
    assert start as nat == HeaderSum(rep);
    var sum := AddBody(start, body);
    assert sum as nat == TrueSum(rep, body) % TWO32;
    if |body| <= 131068 {
      ShortMessageAccepted(rep, body);
    }
    hide Words, Sum, Fold;
    var once := sum / 0x1_0000 + sum % 0x1_0000;
    var twice := AddWrap(once, (once / 0x1_0000) as nat);
    FoldedSum(sum as nat, once as nat, twice as nat);
    ComplementLow(twice as nat);
    header.SetChecksum(((0xFFFF_FFFF - twice) % 0x1_0000) as uint16);
  }

  lemma FoldedSum(s: nat, once: nat, twice: nat)
    requires s < TWO32 && once == s / 0x1_0000 + s % 0x1_0000
    requires twice == Wrap32(once + once / 0x1_0000)
    ensures twice % 0x1_0000 == TwoFold(s)
  {
    assert once + once / 0x1_0000 < TWO32;
  }

  lemma ComplementLow(s: nat)
    requires s < TWO32
    ensures (0xFFFF_FFFF - s) % 0x1_0000 == 0xFFFF - s % 0x1_0000
  {
  }
}
