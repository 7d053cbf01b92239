/** The Internet checksum (sections 1 and 4.1 of RFC 1071) and the 32-bit
    accumulator with a two-step fold that icmp_header.hpp computes it with. */
module Checksums {
  import opened MachineTypes

  const TWO32: nat := 0x1_0000_0000

  function Word(hi: byte, lo: byte): nat {
    hi as nat * 256 + lo as nat
  }

  /** The 16-bit words of a message, an odd last byte padded with zero. */
  function Words(b: seq<byte>): (w: seq<nat>)
    ensures |w| == (|b| + 1) / 2
    ensures forall i :: 0 <= i < |w| ==> w[i] <= 0xFFFF
  {
    if |b| == 0 then []
    else if |b| == 1 then [Word(b[0], 0)]
    else [Word(b[0], b[1])] + Words(b[2..])
  }

  /** The words by the bytes they are made of, high byte first. */
  lemma {:induction false} WordsAre(b: seq<byte>, i: nat)
    requires i < |Words(b)|
    ensures Words(b)[i] ==
              b[2 * i] as nat * 0x100 + if 2 * i + 1 < |b| then b[2 * i + 1] as nat else 0
  {
    if i > 0 {
      WordsAre(b[2..], i - 1);
    }
  }

  function Sum(w: seq<nat>): nat {
    if w == [] then 0 else w[0] + Sum(w[1..])
  }

  /** Add the carries back in until none is left: the loop of section 4.1 of RFC 1071. */
  function Fold(s: nat): nat
    decreases s
  {
    if s < 0x1_0000 then s else Fold(s % 0x1_0000 + s / 0x1_0000)
  }

  /** The one's-complement sum a receiver forms; 0xFFFF accepts the message. */
  function OnesSum(message: seq<byte>): nat {
    Fold(Sum(Words(message)))
  }

  /** The two folding statements of compute_checksum and the cast to 16 bits. */
  function TwoFold(s: nat): (f: nat)
    requires s < TWO32
    ensures f <= 0xFFFF
  {
    var once := s / 0x1_0000 + s % 0x1_0000;
    (once + once / 0x1_0000) % 0x1_0000
  }

  /** The words of the header that are added up: all but the checksum itself. */
  function HeaderSum(rep: seq<byte>): nat
    requires |rep| == 8
  {
    Word(rep[0], rep[1]) + Word(rep[4], rep[5]) + Word(rep[6], rep[7])
  }

  function TrueSum(rep: seq<byte>, body: seq<byte>): nat
    requires |rep| == 8
  {
    HeaderSum(rep) + Sum(Words(body))
  }

  /** How often the 32-bit accumulator wraps around, and what is left in it. */
  function Wraps(rep: seq<byte>, body: seq<byte>): nat
    requires |rep| == 8
  {
    TrueSum(rep, body) / TWO32
  }

  function Left(rep: seq<byte>, body: seq<byte>): nat
    requires |rep| == 8
  {
    TrueSum(rep, body) % TWO32
  }

  /** What compute_checksum stores: its accumulator wraps around at 32 bits. */
  function Checksum(rep: seq<byte>, body: seq<byte>): (c: nat)
    requires |rep| == 8
    ensures c <= 0xFFFF
  {
    0xFFFF - TwoFold(Left(rep, body))
  }

  function WithChecksum(rep: seq<byte>, c: nat): (r: seq<byte>)
    requires |rep| == 8 && c <= 0xFFFF
    ensures |r| == 8
  {
    rep[2 := (c / 256) as byte][3 := (c % 256) as byte]
  }

  // ---- folding ------------------------------------------------------------------

  lemma {:induction false} FoldKeepsResidue(s: nat)
    ensures Fold(s) <= 0xFFFF && Fold(s) % 0xFFFF == s % 0xFFFF && (Fold(s) == 0 <==> s == 0)
    decreases s
  {
    if s >= 0x1_0000 {
      var q, r := s / 0x1_0000, s % 0x1_0000;
      assert Fold(s) == Fold(r + q);
      hide Fold;
      FoldKeepsResidue(r + q);
      CarriesKeepResidue(s, q, r);
    }
  }

  lemma CarriesKeepResidue(s: nat, q: nat, r: nat)
    requires s == q * 0x1_0000 + r
    ensures (r + q) % 0xFFFF == s % 0xFFFF
  {
    assert s == (r + q) + q * 0xFFFF;
  }

  /** One folding step written with the quotient q and the remainder r. */
  lemma FoldStep(s: nat, q: nat, r: nat)
    requires s == q * 0x1_0000 + r && r < 0x1_0000
    ensures s / 0x1_0000 == q && s % 0x1_0000 == r
    ensures q > 0 ==> Fold(s) == Fold(r + q)
    ensures q == 0 ==> Fold(s) == s
  {
  }

  /** Two steps are as good as the loop, for every value a 32-bit accumulator can hold. */
  lemma TwoFoldIsFold(s: nat)
    requires s < TWO32
    ensures TwoFold(s) == Fold(s)
  {
    var q, r := s / 0x1_0000, s % 0x1_0000;
    var once := q + r;
    assert TwoFold(s) == (once + once / 0x1_0000) % 0x1_0000;
    hide *;
    FoldStep(s, q, r);
    if once < 0x1_0000 {
      FoldStep(once, 0, once);
    } else {
      FoldStep(once, 1, once - 0x1_0000);
      FoldStep(once - 0xFFFF, 0, once - 0xFFFF);
    }
  }

  // ---- sums ------------------------------------------------------------------------

  lemma {:induction false} SumAppend(a: seq<nat>, b: seq<nat>)
    ensures Sum(a + b) == Sum(a) + Sum(b)
  {
    if a == [] {
      assert a + b == b;
    } else {
      assert (a + b)[0] == a[0] && (a + b)[1..] == a[1..] + b;
      SumAppend(a[1..], b);
    }
  }

  lemma {:induction false} WordsAppend(a: seq<byte>, b: seq<byte>)
    requires |a| % 2 == 0
    ensures Words(a + b) == Words(a) + Words(b)
  {
    if a == [] {
      assert a + b == b;
    } else {
      assert (a + b)[0] == a[0] && (a + b)[1] == a[1] && (a + b)[2..] == a[2..] + b;
      WordsAppend(a[2..], b);
    }
  }

  lemma {:induction false} SumBound(w: seq<nat>)
    requires forall i :: 0 <= i < |w| ==> w[i] <= 0xFFFF
    ensures Sum(w) <= 0xFFFF * |w|
  {
    if w != [] {
      SumBound(w[1..]);
    }
  }

  lemma MessageSum(rep: seq<byte>, c: nat, body: seq<byte>)
    requires |rep| == 8 && c <= 0xFFFF
    ensures Sum(Words(WithChecksum(rep, c) + body)) == TrueSum(rep, body) + c
  {
    var r := WithChecksum(rep, c);
    WordsAppend(r, body);
    SumAppend(Words(r), Words(body));
    HeaderWords(r);
  }

  lemma HeaderWords(r: seq<byte>)
    requires |r| == 8
    ensures Sum(Words(r)) == HeaderSum(r) + Word(r[2], r[3])
  {
    var r2, r4, r6 := r[2..], r[4..], r[6..];
    assert r2[2..] == r4 && r4[2..] == r6 && r6[2..] == [];
    SumAppend([Word(r[0], r[1])], Words(r2));
    SumAppend([Word(r[2], r[3])], Words(r4));
    SumAppend([Word(r[4], r[5])], Words(r6));
    SumAppend([Word(r[6], r[7])], Words([]));
    SumOne(Word(r[0], r[1]));
    SumOne(Word(r[2], r[3]));
    SumOne(Word(r[4], r[5]));
    SumOne(Word(r[6], r[7]));
  }

  /** The receiver's sum is 0xFFFF iff the words add up to a multiple of 65535 other than 0. */
  lemma AcceptsIffMultiple(message: seq<byte>)
    ensures OnesSum(message) == 0xFFFF <==> Sum(Words(message)) > 0 && Sum(Words(message)) % 0xFFFF == 0
  {
    FoldKeepsResidue(Sum(Words(message)));
  }

  lemma SumOne(w: nat)
    ensures Sum([w]) == w
  {
    assert [w][1..] == [];
  }

  // ---- main results -------------------------------------------------------------------

  /** For every header and body: the receiver accepts the message iff the number of
      times the accumulator wrapped around is a multiple of 65535. */
  lemma AcceptedIffWraps(rep: seq<byte>, body: seq<byte>)
    requires |rep| == 8
    ensures OnesSum(WithChecksum(rep, Checksum(rep, body)) + body) == 0xFFFF
       <==> Wraps(rep, body) % 0xFFFF == 0
  {
    var total := TrueSum(rep, body);
    var c := Checksum(rep, body);
    MessageSum(rep, c, body);
    FoldKeepsResidue(total + c);
    TwoFoldIsFold(total % TWO32);
    FoldKeepsResidue(total % TWO32);
    assert c == 0xFFFF - Fold(total % TWO32);
    hide *;
    WrapResidue(total, total / TWO32, total % TWO32, Fold(total % TWO32), c);
    FullResidue(Fold(total + c), total + c);
  }

  lemma WrapResidue(total: nat, k: nat, s: nat, f: nat, c: nat)
    requires total == k * 0x1_0000_0000 + s
    requires f <= 0xFFFF && f % 0xFFFF == s % 0xFFFF && c == 0xFFFF - f && (f == 0 <==> s == 0)
    ensures total + c > 0
    ensures (total + c) % 0xFFFF == k % 0xFFFF
  {
    var d := (s - f) / 0xFFFF;
    assert s - f == 0xFFFF * d;
    assert total + c == 0xFFFF * (k * 0x1_0001 + 1 + d) + k;
  }

  lemma FullResidue(f: nat, t: nat)
    requires f <= 0xFFFF && f % 0xFFFF == t % 0xFFFF && (f == 0 <==> t == 0) && t > 0
    ensures f == 0xFFFF <==> t % 0xFFFF == 0
  {
  }

  /** The bound on the body below which the accumulator cannot wrap. */
  lemma ShortBodyDoesNotWrap(rep: seq<byte>, body: seq<byte>)
    requires |rep| == 8 && |body| <= 131068
    ensures TrueSum(rep, body) < TWO32
  {
    SumBound(Words(body));
  }

  /** Odd lengths included, a message with a body of at most 131068 bytes is accepted. */
  lemma ShortMessageAccepted(rep: seq<byte>, body: seq<byte>)
    requires |rep| == 8 && |body| <= 131068
    ensures OnesSum(WithChecksum(rep, Checksum(rep, body)) + body) == 0xFFFF
  {
    AcceptedIffWraps(rep, body);
    ShortDoesNotWrap(rep, body);
  }

  lemma NoLap(s: nat)
    requires s < TWO32
    ensures s / TWO32 == 0 && s % TWO32 == s
  {
  }

  function Ones(n: nat): (b: seq<byte>)
    ensures |b| == n
  {
    seq(n, _ => 0xFF as byte)
  }

  lemma {:induction false} SumOfOnes(n: nat)
    ensures Sum(Words(Ones(n))) == (n / 2) * 0xFFFF + (n % 2) * 0xFF00
  {
    if n >= 2 {
      assert Ones(n)[2..] == Ones(n - 2);
      SumOfOnes(n - 2);
    }
  }

  lemma TopMessageRejected(n: nat)
    requires n == 131069
    ensures OnesSum(WithChecksum(Ones(8), Checksum(Ones(8), Ones(n))) + Ones(n)) != 0xFFFF
  {
    var top, big := Ones(8), Ones(n);
    assert HeaderSum(top) == 3 * 0xFFFF;
    hide Ones, Words, Sum, OnesSum, Checksum;
    SumOfOnes(n);
    assert TrueSum(top, big) == TWO32 + 0xFEFF;
    AcceptedIffWraps(top, big);
  }

  /** One byte more, and there is a message whose checksum is wrong. */
  lemma BoundIsTight() returns (rep: seq<byte>, body: seq<byte>)
    ensures |rep| == 8 && |body| == 131069
    ensures OnesSum(WithChecksum(rep, Checksum(rep, body)) + body) != 0xFFFF
  {
    var n := 131069;
    rep, body := Ones(8), Ones(n);
    TopMessageRejected(n);
  }

  lemma {:induction false} SumRemove(w: seq<nat>, i: nat)
    requires i < |w|
    ensures Sum(w) == w[i] + Sum(w[..i] + w[i + 1..])
  {
    if i == 0 {
      assert w[..0] + w[1..] == w[1..];
    } else {
      SumRemove(w[1..], i - 1);
      var rest := w[..i] + w[i + 1..];
      assert rest[1..] == w[1..][..i - 1] + w[1..][i..];
    }
  }

  lemma RemoveFromBoth(a: seq<nat>, b: seq<nat>, i: nat)
    requires a != [] && i < |b| && b[i] == a[0] && multiset(a) == multiset(b)
    ensures multiset(a[1..]) == multiset(b[..i] + b[i + 1..])
  {
    var before, after := b[..i], b[i + 1..];
    assert a == [a[0]] + a[1..];
    assert b == before + [b[i]] + after;
    assert multiset(a) == multiset{a[0]} + multiset(a[1..]);
    assert multiset(b) == multiset{b[i]} + multiset(before + after);
    assert multiset(a[1..]) == multiset(a) - multiset{a[0]};
    assert multiset(before + after) == multiset(b) - multiset{b[i]};
  }

  lemma {:induction false} SumOfPermutation(a: seq<nat>, b: seq<nat>)
    requires multiset(a) == multiset(b)
    ensures Sum(a) == Sum(b)
  {
    if a == [] {
      assert |multiset(b)| == 0;
    } else {
      assert a[0] in multiset(b);
      var i :| 0 <= i < |b| && b[i] == a[0];
      RemoveFromBoth(a, b, i);
      SumOfPermutation(a[1..], b[..i] + b[i + 1..]);
      SumRemove(b, i);
    }
  }

  /** The checksum does not see the order of the aligned words of the body. */
  lemma PermutedBodySameChecksum(rep: seq<byte>, body1: seq<byte>, body2: seq<byte>)
    requires |rep| == 8 && multiset(Words(body1)) == multiset(Words(body2))
    ensures Checksum(rep, body1) == Checksum(rep, body2)
  {
    SumOfPermutation(Words(body1), Words(body2));
    assert TrueSum(rep, body1) == TrueSum(rep, body2);
    hide TrueSum, Words, Sum, TwoFold;
  }

  /** The bodies differ in the word at i at most. */
  predicate DifferAt(body1: seq<byte>, body2: seq<byte>, i: nat) {
    var w1, w2 := Words(body1), Words(body2);
    |w1| == |w2| && i < |w1| && w2 == w1[i := w2[i]]
  }

  lemma SumsDiffer(rep: seq<byte>, body1: seq<byte>, body2: seq<byte>, i: nat)
    requires |rep| == 8 && DifferAt(body1, body2, i)
    ensures TrueSum(rep, body1) - Words(body1)[i] == TrueSum(rep, body2) - Words(body2)[i]
  {
    var w1, w2 := Words(body1), Words(body2);
    hide Words, Sum;
    SumRemove(w1, i);
    SumRemove(w2, i);
    assert w1[..i] + w1[i + 1..] == w2[..i] + w2[i + 1..];
  }

  /** Changing one word goes unnoticed exactly when the change is made up for, modulo
      65535, by how much oftener the accumulator wraps around, and what is left in the
      accumulator stays zero or stays non-zero. */
  lemma ChangedWordNoticed(rep: seq<byte>, body1: seq<byte>, body2: seq<byte>, i: nat)
    requires |rep| == 8 && DifferAt(body1, body2, i)
    ensures Checksum(rep, body1) == Checksum(rep, body2) <==>
              && (Words(body1)[i] + Wraps(rep, body2)) % 0xFFFF == (Words(body2)[i] + Wraps(rep, body1)) % 0xFFFF
              && (Left(rep, body1) == 0 <==> Left(rep, body2) == 0)
  {
    hide Words, Sum, TrueSum, Checksum, Wraps, Left;
    SumsDiffer(rep, body1, body2, i);
    WrapsAndLeft(rep, body1);
    WrapsAndLeft(rep, body2);
    hide *;
    FoldsAgreeIff(TrueSum(rep, body1), Wraps(rep, body1), Left(rep, body1),
                  TrueSum(rep, body2), Wraps(rep, body2), Left(rep, body2), Words(body1)[i], Words(body2)[i]);
  }

  /** For a body of at most 131068 bytes, exactly when the new word is congruent to the
      old one modulo 65535 and the whole sum stays zero or stays non-zero. */
  lemma ChangedShortWordNoticed(rep: seq<byte>, body1: seq<byte>, body2: seq<byte>, i: nat)
    requires |rep| == 8 && |body1| <= 131068 && |body2| <= 131068 && DifferAt(body1, body2, i)
    ensures Checksum(rep, body1) == Checksum(rep, body2) <==>
              && Words(body1)[i] % 0xFFFF == Words(body2)[i] % 0xFFFF
              && (TrueSum(rep, body1) == 0 <==> TrueSum(rep, body2) == 0)
  {
    hide Words, Sum, TrueSum, Checksum, Wraps, Left;
    ShortDoesNotWrap(rep, body1);
    ShortDoesNotWrap(rep, body2);
    ChangedWordNoticed(rep, body1, body2, i);
  }

  lemma ShortDoesNotWrap(rep: seq<byte>, body: seq<byte>)
    requires |rep| == 8 && |body| <= 131068
    ensures Wraps(rep, body) == 0 && Left(rep, body) == TrueSum(rep, body)
  {
    ShortBodyDoesNotWrap(rep, body);
    hide TrueSum;
    NoLap(TrueSum(rep, body));
  }

  lemma WrapsAndLeft(rep: seq<byte>, body: seq<byte>)
    requires |rep| == 8
    ensures TrueSum(rep, body) == Wraps(rep, body) * 0x1_0000_0000 + Left(rep, body)
    ensures Checksum(rep, body) == 0xFFFF - Fold(Left(rep, body))
  {
    hide TrueSum, TwoFold, Fold;
    TwoFoldIsFold(TrueSum(rep, body) % TWO32);
  }

  lemma SameFold(f: nat, g: nat)
    requires f <= 0xFFFF && g <= 0xFFFF
    ensures f == g <==> f % 0xFFFF == g % 0xFFFF && (f == 0 <==> g == 0)
  {
  }

  /** Two sums that differ as the words u and v do, split into laps and rests of 2^32. */
  lemma FoldsAgreeIff(s1: nat, k1: nat, r1: nat, s2: nat, k2: nat, r2: nat, u: nat, v: nat)
    requires s1 == k1 * 0x1_0000_0000 + r1 && s2 == k2 * 0x1_0000_0000 + r2
    requires s1 - u == s2 - v
    ensures Fold(r1) == Fold(r2) <==> (u + k2) % 0xFFFF == (v + k1) % 0xFFFF && (r1 == 0 <==> r2 == 0)
  {
    hide Fold;
    FoldKeepsResidue(r1);
    FoldKeepsResidue(r2);
    SameFold(Fold(r1), Fold(r2));
    assert r1 - r2 == (u + k2) - (v + k1) + 0xFFFF * ((k2 - k1) * 0x1_0001);
    SameResidue(r1, r2, u + k2, v + k1, (k2 - k1) * 0x1_0001);
  }

  lemma SameResidue(a: nat, b: nat, c: nat, d: nat, k: int)
    requires a - b == c - d + 0xFFFF * k
    ensures a % 0xFFFF == b % 0xFFFF <==> c % 0xFFFF == d % 0xFFFF
  {
    if a % 0xFFFF == b % 0xFFFF {
      Congruent(c, d, a / 0xFFFF - b / 0xFFFF - k);
    }
    if c % 0xFFFF == d % 0xFFFF {
      Congruent(a, b, c / 0xFFFF - d / 0xFFFF + k);
    }
  }

  lemma Congruent(x: nat, y: nat, k: int)
    requires x - y == 0xFFFF * k
    ensures x % 0xFFFF == y % 0xFFFF
  {
    assert x == 0xFFFF * (y / 0xFFFF + k) + y % 0xFFFF;
  }
}
