/** The stream readers of ipv4_header.hpp and icmp_header.hpp over an input stream. */
module Ipv4Headers {
  import opened MachineTypes
  import opened RingModel
  import opened IcmpHeaders

  /** The part of std::istream that the readers use. */
  class InputStream {
    var rest: seq<byte>
    var failed: bool

    constructor (data: seq<byte>)
      ensures rest == data && !failed
    {
      rest, failed := data, false;
    }

    /** A failed stream delivers nothing; a short one delivers what it has and fails. */
    method Read(dst: array<byte>, at: nat, n: nat)
      requires at + n <= dst.Length
      modifies this, dst
      ensures !failed <==> !old(failed) && n <= |old(rest)|
      ensures !failed ==> rest == old(rest)[n..] && dst[..] == Splice(old(dst[..]), at, old(rest)[..n])
      ensures old(failed) ==> rest == old(rest) && dst[..] == old(dst[..])
      ensures !old(failed) && failed ==>
                rest == [] && dst[..] == Splice(old(dst[..]), at, old(rest))
    {
      if !failed {
        var c := if n <= |rest| then n else |rest|;
        forall i | 0 <= i < c {
          dst[at + i] := rest[i];
        }
        rest := rest[c..];
        failed := c < n;
      }
    }

    method SetFail()
      modifies this`failed
      ensures failed
    {
      failed := true;
    }
  }

  class Ipv4Header {
    const rep: array<byte>

    ghost predicate Valid() {
      rep.Length == 60
    }

    constructor ()
      ensures Valid() && fresh(rep)
    {
      rep := new byte[60](_ => 0);
    }

    function Version(): byte
      reads rep
      requires Valid()
    {
      rep[0] / 16
    }

    function HeaderLength(): uint16
      reads rep
      requires Valid()
    {
      (rep[0] % 16) as uint16 * 4
    }
  }

  /** Length of the IPv4 header at the front of d, options included. */
  function HeaderLengthOf(d: seq<byte>): nat
    requires d != []
  {
    (d[0] % 16) as nat * 4
  }

  /** A whole IPv4 header (section 3.1 of RFC 791) is at the front of d. */
  predicate Ipv4Present(d: seq<byte>) {
    |d| >= 20 && d[0] / 16 == 4 && d[0] % 16 >= 5 && |d| >= HeaderLengthOf(d)
  }

  /** Version 4 and a length field of at least 5 are the first bytes 0x45 to 0x4F. */
  lemma FirstByte(d: seq<byte>)
    requires d != []
    ensures d[0] / 16 == 4 && d[0] % 16 >= 5 <==> 0x45 <= d[0] <= 0x4F
    ensures 0x45 <= d[0] <= 0x4F ==> HeaderLengthOf(d) == 4 * (d[0] as nat - 0x40) <= 60
  {
    var b := d[0] as nat;
    assert b / 16 == d[0] as nat / 16 && b % 16 == (d[0] % 16) as nat;
    assert b == b / 16 * 16 + b % 16;
  }

  method ExtractIpv4(input: InputStream, header: Ipv4Header)
    requires header.Valid()
    modifies input, header.rep
    ensures !input.failed <==>
              && !old(input.failed) && old(input.rest) != [] && 0x45 <= old(input.rest)[0] <= 0x4F
              && |old(input.rest)| >= 4 * (old(input.rest)[0] as nat - 0x40)
    ensures !input.failed ==>
              var n := 4 * (old(input.rest)[0] as nat - 0x40);
              && header.HeaderLength() as nat == n
              && input.rest == old(input.rest)[n..]
              && header.rep[..n] == old(input.rest)[..n]
  {
    ghost var d := input.rest;
    if d != [] {
      FirstByte(d);
    }
    input.Read(header.rep, 0, 20);
    assert !input.failed ==> header.rep[..20] == d[..20];
    if header.Version() != 4 {
      input.SetFail();
    }
    var optionsLength := header.HeaderLength() as int - 20;
    if optionsLength < 0 || optionsLength > 40 {
      input.SetFail();
    } else {
      ghost var first := header.rep[..];
      input.Read(header.rep, 20, optionsLength);
      if !input.failed {
        SpliceFront(first, d, 20, optionsLength, header.rep[..]);
      }
    }
  }

  /** The options land right behind the 20 fixed bytes. */
  lemma SpliceFront(first: seq<byte>, d: seq<byte>, n: nat, m: nat, rep: seq<byte>)
    requires n + m <= |first| && n + m <= |d| && first[..n] == d[..n]
    requires rep == Splice(first, n, d[n..][..m])
    ensures rep[..n + m] == d[..n + m] && d[n..][m..] == d[n + m..]
    ensures n > 0 ==> rep[0] == first[0] == d[0]
  {
    assert rep[..n + m] == first[..n] + d[n..][..m];
    assert d[..n] + d[n..][..m] == d[..n + m];
    if n > 0 {
      assert first[..n][0] == d[..n][0];
    }
  }

  method ExtractIcmp(input: InputStream, header: IcmpHeader)
    requires header.Valid()
    modifies input, header.rep
    ensures !input.failed <==> !old(input.failed) && |old(input.rest)| >= 8
    ensures !input.failed ==> input.rest == old(input.rest)[8..] && header.rep[..] == old(input.rest)[..8]
  {
    input.Read(header.rep, 0, 8);
  }

  /** The ICMP header a datagram carries, if the datagram is long enough and well formed. */
  function IcmpOf(d: seq<byte>): (h: Option<seq<byte>>)
    ensures h.Some? ==> |h.value| == 8
  {
    if Ipv4Present(d) && |d| >= HeaderLengthOf(d) + 8
    then Some(d[HeaderLengthOf(d)..HeaderLengthOf(d) + 8]) else None
  }

  /** A datagram carries an ICMP header iff its first byte is that of version 4 with a
      length of 5 to 15 words, and 8 bytes are there behind so many words. */
  lemma IcmpPresentIff(d: seq<byte>)
    ensures IcmpOf(d).Some? <==> d != [] && 0x45 <= d[0] <= 0x4F && |d| >= 4 * (d[0] as nat - 0x40) + 8
    ensures IcmpOf(d).Some? ==>
              var n := 4 * (d[0] as nat - 0x40);
              IcmpOf(d).value == d[n..n + 8]
  {
    if d != [] {
      FirstByte(d);
    }
  }

  /** Both readers in a row, as handle_receive applies them. */
  method ExtractBoth(input: InputStream, ip: Ipv4Header, icmp: IcmpHeader)
    requires ip.Valid() && icmp.Valid() && ip.rep != icmp.rep && !input.failed
    modifies input, ip.rep, icmp.rep
    ensures !input.failed <==>
              && old(input.rest) != [] && 0x45 <= old(input.rest)[0] <= 0x4F
              && |old(input.rest)| >= 4 * (old(input.rest)[0] as nat - 0x40) + 8
    ensures !input.failed <==> IcmpOf(old(input.rest)).Some?
    ensures !input.failed ==>
              && input.rest == old(input.rest)[4 * (old(input.rest)[0] as nat - 0x40) + 8..]
              && icmp.rep[..] == IcmpOf(old(input.rest)).value
  {
    ghost var d := input.rest;
    IcmpPresentIff(d);
    ExtractIpv4(input, ip);
    ExtractIcmp(input, icmp);
    if !input.failed {
      var n := 4 * (d[0] as nat - 0x40);
      assert d[n..][..8] == d[n..n + 8] && d[n..][8..] == d[n + 8..];
    }
  }

  /** What a sender puts behind an IPv4 header of k words, with options or without, is what
      the readers find; the payload is left in the stream. */
  lemma WrittenHeaderComesBack(k: nat, ip: seq<byte>, icmp: seq<byte>, payload: seq<byte>)
    requires 5 <= k <= 15 && |ip| == 4 * k && ip[0] as nat == 0x40 + k && |icmp| == 8
    ensures IcmpOf(ip + icmp + payload) == Some(icmp)
    ensures (ip + icmp + payload)[4 * k + 8..] == payload
  {
    var d := ip + icmp + payload;
    assert d[0] == ip[0];
    IcmpPresentIff(d);
    assert d[|ip|..|ip| + 8] == icmp;
  }
}
