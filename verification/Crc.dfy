/** CRC-8, polynomial 0x07, initial value 0, most significant bit first. */
module Crc8 {
  import opened Bytes
  import opened Folds

  const POLY: byte := 0x07
  const BITS: nat := 8

  /** One bit of the shift register: the bit shifted out folds the polynomial back in. */
  function ShiftBit(c: byte): byte {
    (c << 1) ^ (c >> 7) ^ ((c >> 7) << 1) ^ ((c >> 7) << 2)
  }

  lemma ShiftBitBranches(c: byte)
    ensures c & 0x80 != 0 ==> ShiftBit(c) == (c << 1) ^ POLY
    ensures c & 0x80 == 0 ==> ShiftBit(c) == c << 1
  {
  }

  /** One message byte: folded into the register, then eight bits shifted out. */
  function CrcByte(c: byte, b: byte): byte {
    Iter(ShiftBit, c ^ b, BITS)
  }

  function Crc(s: seq<byte>): byte {
    Fold(CrcByte, 0, s)
  }

  /** The gateway's and the firmware's loop, over a stretch of a buffer. */
  method CalcCrc8(data: seq<byte>, from: nat, len: nat) returns (crc: byte)
    requires from + len <= |data|
    ensures crc == Crc(data[from..from + len])
  {
    crc := 0;
    for i := 0 to len
      invariant crc == Crc(data[from..from + i])
    {
      CrcExtends(data, from, i);
      crc := AddByte(crc, data[from + i]);
    }
  }

  /** The loop body: one byte folded in, then eight shifts of the register. */
  method AddByte(register: byte, b: byte) returns (crc: byte)
    ensures crc == CrcByte(register, b)
  {
    crc := register ^ b;
    for bit := 0 to BITS
      invariant crc == Iter(ShiftBit, register ^ b, bit)
    {
      ShiftBitBranches(crc);
      if crc & 0x80 != 0 {
        crc := (crc << 1) ^ POLY;
      } else {
        crc := crc << 1;
      }
    }
  }

  lemma CrcExtends(data: seq<byte>, from: nat, len: nat)
    requires from + len < |data|
    ensures Crc(data[from..from + len + 1]) == CrcByte(Crc(data[from..from + len]), data[from + len])
  {
    assert data[from..from + len + 1] == data[from..from + len] + [data[from + len]];
    FoldSnoc(CrcByte, 0, data[from..from + len], data[from + len]);
  }

  // ----- Linearity -----

  function XorByte(a: byte, b: byte): byte {
    a ^ b
  }

  function Xor(a: seq<byte>, b: seq<byte>): (r: seq<byte>)
    requires |a| == |b|
    ensures |r| == |a|
    ensures forall i :: 0 <= i < |a| ==> r[i] == XorByte(a[i], b[i])
  {
    Zip(XorByte, a, b)
  }

  lemma ShiftBitDistributes()
    ensures Distributes(ShiftBit, XorByte)
  {
  }

  lemma XorSwap(a: byte, b: byte, c: byte, d: byte)
    ensures (a ^ b) ^ (c ^ d) == (a ^ c) ^ (b ^ d)
  {
  }

  lemma XorInterchanges()
    ensures Interchanges(XorByte, XorByte)
  {
    forall a, b, c, d ensures XorByte(XorByte(a, b), XorByte(c, d)) == XorByte(XorByte(a, c), XorByte(b, d)) {
      XorSwap(a, b, c, d);
    }
  }

  lemma XorSwapByte(a: byte, b: byte, c: byte, d: byte)
    ensures XorByte(XorByte(a, b), XorByte(c, d)) == XorByte(XorByte(a, c), XorByte(b, d))
  {
    hide XorByte;
    XorInterchanges();
  }

  lemma CrcByteInterchanges()
    ensures Interchanges(CrcByte, XorByte)
  {
    ShiftBitDistributes();
    XorInterchanges();
    IterInterchanges(CrcByte, ShiftBit, XorByte, BITS);
  }

  /** The checksum of a difference is the difference of the checksums. */
  lemma CrcLinear(a: seq<byte>, b: seq<byte>)
    requires |a| == |b|
    ensures Crc(Xor(a, b)) == Crc(a) ^ Crc(b)
  {
    CrcByteInterchanges();
    FoldInterchanges(CrcByte, XorByte, 0, a, b);
  }

  // ----- The register step is a bijection that keeps zero -----

  function UnshiftBit(c: byte): byte {
    ((c ^ (c & 1) ^ ((c & 1) << 1) ^ ((c & 1) << 2)) >> 1) ^ (c << 7)
  }

  lemma ShiftBitBijective(c: byte)
    ensures UnshiftBit(ShiftBit(c)) == c && ShiftBit(UnshiftBit(c)) == c
  {
  }

  lemma ShiftInjective(c: byte, d: byte, bits: nat)
    requires Iter(ShiftBit, c, bits) == Iter(ShiftBit, d, bits)
    ensures c == d
  {
    forall x: byte ensures UnshiftBit(ShiftBit(x)) == x {
      ShiftBitBijective(x);
    }
    IterUndone(ShiftBit, UnshiftBit, c, d, bits);
  }

  lemma {:induction false} ShiftZero(bits: nat)
    ensures Iter(ShiftBit, 0, bits) == 0
  {
    if bits > 0 {
      ShiftZero(bits - 1);
    }
  }

  lemma XorZero(c: byte, b: byte)
    ensures c ^ b == 0 <==> c == b
  {
  }

  lemma CrcByteZero(c: byte, b: byte)
    ensures CrcByte(c, b) == 0 <==> c == b
  {
    ShiftZero(BITS);
    XorZero(c, b);
    if CrcByte(c, b) == 0 {
      ShiftInjective(c ^ b, 0, BITS);
    }
  }

  /** A body followed by a check byte sums to zero exactly when the byte is the body's checksum. */
  lemma CodewordIff(body: seq<byte>, check: byte)
    ensures Crc(body + [check]) == 0 <==> check == Crc(body)
  {
    FoldSnoc(CrcByte, 0, body, check);
    CrcByteZero(Crc(body), check);
  }

  // ----- Parity -----

  /** 1 if an odd number of the low n bits is set, else 0. */
  function Parity(b: byte, n: nat): byte
    decreases n
  {
    if n == 0 then 0 else XorByte(b & 1, Parity(b >> 1, n - 1))
  }

  /** The number of set bits among the low n. */
  function OnesInByte(b: byte, n: nat): nat
    decreases n
  {
    if n == 0 then 0 else (b & 1) as nat + OnesInByte(b >> 1, n - 1)
  }

  /** The number of set bits in a message. */
  function Ones(s: seq<byte>): nat {
    if s == [] then 0 else Ones(s[..|s| - 1]) + OnesInByte(s[|s| - 1], BITS)
  }

  lemma LowXor(a: byte, b: byte)
    ensures XorByte(a, b) & 1 == XorByte(a & 1, b & 1)
    ensures XorByte(a, b) >> 1 == XorByte(a >> 1, b >> 1)
  {
  }

  predicate IsBit(b: byte) {
    b == 0 || b == 1
  }

  lemma ParityStep(b: byte, n: nat)
    requires n > 0
    ensures Parity(b, n) == XorByte(b & 1, Parity(b >> 1, n - 1))
  {
  }

  lemma {:induction false} ParityXor(a: byte, b: byte, n: nat)
    ensures Parity(XorByte(a, b), n) == XorByte(Parity(a, n), Parity(b, n))
    decreases n
  {
    if n == 0 {
    } else {
      hide XorByte, Parity;
      ParityStep(XorByte(a, b), n);
      LowXor(a, b);
      ParityXor(a >> 1, b >> 1, n - 1);
      ParityStep(a, n);
      ParityStep(b, n);
      XorSwapByte(a & 1, b & 1, Parity(a >> 1, n - 1), Parity(b >> 1, n - 1));
    }
  }

  /** The parity bit p stands for n set bits. */
  predicate Counts(p: byte, n: nat) {
    IsBit(p) && (p == 1 <==> n % 2 == 1)
  }

  lemma LowCounts(b: byte)
    ensures Counts(b & 1, (b & 1) as nat)
  {
  }

  lemma CountsAdd(p: byte, q: byte, m: nat, n: nat)
    requires Counts(p, m) && Counts(q, n)
    ensures Counts(XorByte(p, q), m + n)
  {
  }

  lemma {:induction false} ParityOfByte(b: byte, n: nat)
    ensures Counts(Parity(b, n), OnesInByte(b, n))
    decreases n
  {
    if n > 0 {
      hide XorByte, Counts;
      ParityOfByte(b >> 1, n - 1);
      LowCounts(b);
      CountsAdd(b & 1, Parity(b >> 1, n - 1), (b & 1) as nat, OnesInByte(b >> 1, n - 1));
    }
  }

  lemma ParityOfEight(b: byte)
    ensures Parity(b, BITS) == (b ^ (b >> 1) ^ (b >> 2) ^ (b >> 3) ^ (b >> 4) ^ (b >> 5) ^ (b >> 6) ^ (b >> 7)) & 1
  {
    assert Parity(b >> 4, 4) == ((b >> 4) ^ (b >> 5) ^ (b >> 6) ^ (b >> 7)) & 1;
  }

  lemma ShiftKeepsParity(c: byte)
    ensures Parity(ShiftBit(c), BITS) == Parity(c, BITS)
  {
    hide Parity;
    ParityOfEight(c);
    ParityOfEight(ShiftBit(c));
  }

  function ParityByte(b: byte): byte {
    Parity(b, BITS)
  }

  lemma CrcByteDefinition(c: byte, b: byte)
    ensures CrcByte(c, b) == Iter(ShiftBit, XorByte(c, b), BITS)
  {
  }

  lemma CrcByteParity(c: byte, b: byte)
    ensures ParityByte(CrcByte(c, b)) == XorByte(ParityByte(c), ParityByte(b))
  {
    hide Parity, ShiftBit, CrcByte, XorByte;
    CrcByteDefinition(c, b);
    forall x: byte ensures ParityByte(ShiftBit(x)) == ParityByte(x) {
      ShiftKeepsParity(x);
    }
    IterKeeps(ShiftBit, ParityByte, XorByte(c, b), BITS);
    ParityXor(c, b, BITS);
  }

  lemma ParityIsOnes(b: byte)
    ensures Counts(ParityByte(b), OnesInByte(b, BITS))
  {
    hide OnesInByte, Parity;
    ParityOfByte(b, BITS);
  }

  lemma {:induction false} ParityOfOnes(s: seq<byte>)
    ensures Counts(Fold(XorByte, 0, Map(ParityByte, s)), Ones(s))
  {
    if s == [] {
    } else {
      hide ParityByte, OnesInByte, XorByte, Counts, Map, Fold;
      var n := |s| - 1;
      var before, p := Map(ParityByte, s[..n]), ParityByte(s[n]);
      ParityOfOnes(s[..n]);
      MapSnoc(ParityByte, s);
      FoldSnoc(XorByte, 0, before, p);
      ParityIsOnes(s[n]);
      CountsAdd(Fold(XorByte, 0, before), p, Ones(s[..n]), OnesInByte(s[n], BITS));
    }
  }

  lemma ParityOfCrc(s: seq<byte>)
    ensures ParityByte(Crc(s)) == Fold(XorByte, 0, Map(ParityByte, s))
  {
    hide ParityByte, CrcByte, XorByte;
    assert Homomorphic(ParityByte, CrcByte, XorByte) by {
      forall c: byte, b: byte ensures ParityByte(CrcByte(c, b)) == XorByte(ParityByte(c), ParityByte(b)) {
        CrcByteParity(c, b);
      }
    }
    FoldHomomorphic(ParityByte, CrcByte, XorByte, 0, s);
    assert ParityByte(0) == 0 by {
      ParityOfZero();
    }
  }

  lemma ParityOfZero()
    ensures ParityByte(0) == 0
  {
  }

  /** The polynomial keeps parity: the checksum has an odd number of set bits exactly when the message has. */
  lemma {:induction false} CrcParity(s: seq<byte>)
    ensures OnesInByte(Crc(s), BITS) % 2 == Ones(s) % 2
  {
    hide Parity, OnesInByte, Ones, Crc, XorByte;
    ParityOfCrc(s);
    ParityOfOnes(s);
    ParityOfByte(Crc(s), BITS);
  }
}
