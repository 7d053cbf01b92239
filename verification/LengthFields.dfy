/** calc_len of message_extractor.cc and the length encodings it inverts. */
module LengthFields {
  import opened MachineTypes

  /** Bitwise or of two non-negative numbers. */
  function BitOr(x: nat, y: nat): nat
    decreases x + y
  {
    if x == 0 then y
    else if y == 0 then x
    else 2 * BitOr(x / 2, y / 2) + if x % 2 == 1 || y % 2 == 1 then 1 else 0
  }

  function Pow2(k: nat): (p: nat)
    ensures p > 0
  {
    if k == 0 then 1 else 2 * Pow2(k - 1)
  }

  /** Numbers without a common bit position: or is plus. */
  lemma {:induction false} OrOfShifted(x: nat, y: nat, k: nat)
    requires y < Pow2(k)
    ensures BitOr(x * Pow2(k), y) == x * Pow2(k) + y
  {
    hide *;
    if k == 0 {
      OrOfNothing(x, y);
    } else {
      DoubledPow2(x, k);
      OrOfEven(x * Pow2(k - 1), y);
      OrOfShifted(x, y / 2, k - 1);
    }
  }

  lemma OrOfNothing(x: nat, y: nat)
    requires y < Pow2(0)
    ensures y == 0 && x * Pow2(0) == x && BitOr(x, y) == x
  {
  }

  lemma DoubledPow2(x: nat, k: nat)
    requires k > 0
    ensures Pow2(k) == 2 * Pow2(k - 1)
    ensures x * Pow2(k) == 2 * (x * Pow2(k - 1))
  {
    var p := Pow2(k - 1);
    assert Pow2(k) == 2 * p;
    hide *;
    assert x * (2 * p) == 2 * (x * p);
  }

  /** Or, last bit and the other bits apart, when the first number ends in a zero bit. */
  lemma OrOfEven(h: nat, y: nat)
    ensures BitOr(2 * h, y) == 2 * BitOr(h, y / 2) + y % 2
  {
    assert h == 0 ==> BitOr(h, y / 2) == y / 2;
    assert y == 0 ==> BitOr(h, y / 2) == h;
    assert (2 * h) / 2 == h && (2 * h) % 2 == 0;
  }

  lemma Pow2Values()
    ensures Pow2(8) == 0x100 && Pow2(16) == 0x1_0000 && Pow2(24) == 0x100_0000
  {
    Pow2Byte(0);
    Pow2Byte(8);
    Pow2Byte(16);
  }

  lemma Pow2Byte(k: nat)
    ensures Pow2(k + 8) == 0x100 * Pow2(k)
  {
    assert Pow2(k + 4) == 4 * Pow2(k + 2) == 16 * Pow2(k);
    assert Pow2(k + 8) == 4 * Pow2(k + 6) == 16 * Pow2(k + 4);
  }

  /** A byte of a std::string or the terminator right behind its last byte. */
  function At(data: seq<byte>, i: nat): nat
    requires i <= |data|
  {
    if i < |data| then data[i] as nat else 0
  }

  /** The two or four bytes or-ed together, most significant one first. */
  function Or2(a: nat, b: nat): nat {
    BitOr(a * 0x100, b)
  }

  function Or4(a: nat, b: nat, c: nat, d: nat): nat {
    BitOr(BitOr(BitOr(a * 0x100_0000, b * 0x1_0000), c * 0x100), d)
  }

  /** calc_len after the conversion to uint32_t: size 1 is a signed char, sizes 3 and 4
      share a case and sizes above 4 give zero. */
  function CalcLen(data: seq<byte>, msbFirst: bool): nat
  {
    var n := |data|;
    if n == 1 then (if data[0] < 0x80 then data[0] as nat else 0xFFFF_FF00 + data[0] as nat)
    else if n == 2 then
      (if msbFirst then Or2(At(data, 0), At(data, 1)) else Or2(At(data, 1), At(data, 0)))
    else if n == 3 || n == 4 then
      (if msbFirst then Or4(At(data, 0), At(data, 1), At(data, 2), At(data, 3))
       else Or4(At(data, 3), At(data, 2), At(data, 1), At(data, 0)))
    else 0
  }

  lemma Or2IsSum(a: nat, b: nat)
    requires b < 0x100
    ensures Or2(a, b) == a * 0x100 + b
  {
    Pow2Values();
    OrOfShifted(a, b, 8);
  }

  lemma Or4IsSum(a: nat, b: nat, c: nat, d: nat)
    requires b < 0x100 && c < 0x100 && d < 0x100
    ensures Or4(a, b, c, d) == a * 0x100_0000 + b * 0x1_0000 + c * 0x100 + d
  {
    Pow2Values();
    hide Pow2, BitOr;
    OrOfShifted(a, b * 0x1_0000, 24);
    OrOfShifted(a * 0x100 + b, c * 0x100, 16);
    OrOfShifted((a * 0x100 + b) * 0x100 + c, d, 8);
  }

  /** At sizes 1, 2 and 4, from the bytes: a single byte is sign-extended to 32 bits, two
      and four bytes are the positional sum. Without bytes, or with more than four, it is 0. */
  lemma CalcLenIs(data: seq<byte>, msbFirst: bool)
    ensures |data| == 1 ==>
              CalcLen(data, msbFirst) == data[0] as nat + if data[0] < 0x80 then 0 else 0xFFFF_FF00
    ensures |data| == 2 ==>
              var hi, lo := if msbFirst then data[0] else data[1], if msbFirst then data[1] else data[0];
              CalcLen(data, msbFirst) == hi as nat * 0x100 + lo as nat
    ensures |data| == 4 ==>
              var d := if msbFirst then data else [data[3], data[2], data[1], data[0]];
              CalcLen(data, msbFirst)
              == d[0] as nat * 0x100_0000 + d[1] as nat * 0x1_0000 + d[2] as nat * 0x100 + d[3] as nat
    ensures |data| == 0 || |data| > 4 ==> CalcLen(data, msbFirst) == 0
  {
    if |data| == 2 {
      var hi, lo := if msbFirst then data[0] else data[1], if msbFirst then data[1] else data[0];
      Or2IsSum(hi as nat, lo as nat);
    } else if |data| == 4 {
      var d := if msbFirst then data else [data[3], data[2], data[1], data[0]];
      Or4IsSum(d[0] as nat, d[1] as nat, d[2] as nat, d[3] as nat);
    }
  }

  /** n in the given number of bytes, most significant byte first or last. */
  function EncodeLen(size: nat, msbFirst: bool, n: nat): (b: seq<byte>)
    ensures |b| == size
  {
    if size == 0 then []
    else if msbFirst then EncodeLen(size - 1, true, n / 0x100) + [(n % 0x100) as byte]
    else [(n % 0x100) as byte] + EncodeLen(size - 1, false, n / 0x100)
  }

  /** calc_len inverts both encodings of every length that fits 2 or 4 bytes. */
  lemma CalcLenInverts(size: nat, msbFirst: bool, n: nat)
    requires (size == 2 && n < 0x1_0000) || (size == 4 && n < 0x1_0000_0000)
    ensures CalcLen(EncodeLen(size, msbFirst, n), msbFirst) == n
  {
    var a, b, c := n / 0x100, n / 0x1_0000, n / 0x100_0000;
    assert a / 0x100 == b && b / 0x100 == c;
    if size == 2 {
      TwoBytes(msbFirst, n);
      hide BitOr, EncodeLen;
      Or2IsSum(a, n % 0x100);
    } else {
      FourBytes(msbFirst, n);
      hide BitOr, EncodeLen;
      Or4IsSum(c, b % 0x100, a % 0x100, n % 0x100);
      assert n == c * 0x100_0000 + (b % 0x100) * 0x1_0000 + (a % 0x100) * 0x100 + n % 0x100;
    }
  }

  lemma TwoBytes(msbFirst: bool, n: nat)
    requires n < 0x1_0000
    ensures EncodeLen(2, msbFirst, n) ==
              var hi, lo := (n / 0x100) as byte, (n % 0x100) as byte;
              if msbFirst then [hi, lo] else [lo, hi]
  {
    assert EncodeLen(1, msbFirst, n / 0x100) == [(n / 0x100) as byte];
  }

  lemma FourBytes(msbFirst: bool, n: nat)
    requires n < 0x1_0000_0000
    ensures EncodeLen(4, msbFirst, n) ==
              var b3, b2 := (n / 0x100_0000) as byte, ((n / 0x1_0000) % 0x100) as byte;
              var b1, b0 := ((n / 0x100) % 0x100) as byte, (n % 0x100) as byte;
              if msbFirst then [b3, b2, b1, b0] else [b0, b1, b2, b3]
  {
    assert n / 0x100 / 0x100 == n / 0x1_0000 && n / 0x1_0000 / 0x100 == n / 0x100_0000;
    TwoBytes(msbFirst, n / 0x1_0000);
    assert EncodeLen(3, msbFirst, n / 0x100) ==
             if msbFirst then EncodeLen(2, msbFirst, n / 0x1_0000) + [((n / 0x100) % 0x100) as byte]
             else [((n / 0x100) % 0x100) as byte] + EncodeLen(2, msbFirst, n / 0x1_0000);
  }

  function Reverse(b: seq<byte>): (r: seq<byte>)
    ensures |r| == |b|
    ensures forall i :: 0 <= i < |b| ==> r[i] == b[|b| - 1 - i]
  {
    seq(|b|, i requires 0 <= i < |b| => b[|b| - 1 - i])
  }

  /** Reversing the bytes and the byte order together changes nothing, at sizes 2 and 4. */
  lemma ReversedBytes(data: seq<byte>, msbFirst: bool)
    requires |data| == 2 || |data| == 4
    ensures CalcLen(Reverse(data), !msbFirst) == CalcLen(data, msbFirst)
  {
  }

  /** At size 3 the terminator counts as a fourth byte, so the result is not the value
      of the three bytes whenever the most significant byte comes first. */
  lemma SizeThreeIsShifted(data: seq<byte>)
    requires |data| == 3
    ensures CalcLen(data, true) == 0x100 * ((data[0] as nat * 0x100 + data[1] as nat) * 0x100 + data[2] as nat)
    ensures CalcLen(data, false) == (data[2] as nat * 0x100 + data[1] as nat) * 0x100 + data[0] as nat
  {
    Or4IsSum(data[0] as nat, data[1] as nat, data[2] as nat, 0);
    Or4IsSum(0, data[2] as nat, data[1] as nat, data[0] as nat);
  }
}
