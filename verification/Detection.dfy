/** Which transmission errors the checksum detects, for messages of any length. */
module Detection {
  import opened Bytes
  import opened Folds
  import opened Crc8

  // ----- Bursts of at most eight bits -----

  /** The part of an 8-bit pattern, laid r bits into a byte, that stays in the byte, and the part that spills over. */
  function Head(p: byte, r: nat): byte
    requires r < 8
  {
    p >> r
  }

  function Spill(p: byte, r: nat): byte
    requires r < 8
  {
    p << (8 - r)
  }

  /** An error pattern of n bytes: the 8 bits of p from bit position `at` on, zero elsewhere. */
  function Burst(n: nat, at: nat, p: byte): (e: seq<byte>)
    requires at + 8 <= 8 * n
    ensures |e| == n
  {
    seq(n, i requires 0 <= i < n =>
      if i == at / 8 then Head(p, at % 8) else if i == at / 8 + 1 then Spill(p, at % 8) else 0)
  }

  function ShiftedOut(c: byte): byte {
    ShiftBit(ShiftBit(ShiftBit(ShiftBit(ShiftBit(ShiftBit(ShiftBit(ShiftBit(c))))))))
  }

  lemma ShiftByEight(c: byte)
    ensures Iter(ShiftBit, c, BITS) == ShiftedOut(c)
  {
  }

  lemma TwoBytes(hi: byte, lo: byte, m: byte)
    requires m == 0x7F || m == 0x3F || m == 0x1F || m == 0x0F || m == 0x07 || m == 0x03 || m == 0x01
    requires hi & m == hi && lo & m == 0
    requires ShiftedOut(hi) == lo
    ensures hi == 0 && lo == 0
  {
  }

  lemma Masks(p: byte, r: nat) returns (m: byte)
    requires 0 < r < 8
    ensures m == 0x7F || m == 0x3F || m == 0x1F || m == 0x0F || m == 0x07 || m == 0x03 || m == 0x01
    ensures Head(p, r) & m == Head(p, r) && Spill(p, r) & m == 0
    ensures Head(p, r) == 0 && Spill(p, r) == 0 ==> p == 0
  {
    m := if r == 1 then 0x7F else if r == 2 then 0x3F else if r == 3 then 0x1F else if r == 4 then 0x0F
    else if r == 5 then 0x07 else if r == 6 then 0x03 else 0x01;
  }

  lemma SpillDiffers(p: byte, r: nat)
    requires r < 8 && p != 0
    ensures CrcByte(CrcByte(0, Head(p, r)), Spill(p, r)) != 0
  {
    hide Head, Spill, ShiftedOut, ShiftBit, CrcByte;
    var hi, lo := Head(p, r), Spill(p, r);
    CrcByteZero(CrcByte(0, hi), lo);
    CrcByteOfZero(hi);
    if r == 0 {
      WholeByte(p);
      CrcByteZero(0, p);
    } else {
      var m := Masks(p, r);
      if ShiftedOut(hi) == lo {
        TwoBytes(hi, lo, m);
      }
    }
  }

  lemma WholeByte(p: byte)
    ensures Head(p, 0) == p && Spill(p, 0) == 0
  {
  }

  lemma CrcByteOfZero(b: byte)
    ensures CrcByte(0, b) == ShiftedOut(b)
  {
  }

  lemma CrcIdle(s: seq<byte>, t: seq<byte>)
    requires forall i :: 0 <= i < |t| ==> t[i] == 0
    ensures Crc(s + t) == 0 <==> Crc(s) == 0
  {
    hide CrcByte;
    forall c: byte ensures CrcByte(c, 0) == 0 <==> c == 0 {
      CrcByteZero(c, 0);
    }
    FoldIdle(CrcByte, 0, 0, s, t);
  }

  ghost predicate Quiet(s: seq<byte>) {
    forall i :: 0 <= i < |s| ==> s[i] == 0
  }

  lemma OneByteError(before: seq<byte>, b: byte, after: seq<byte>)
    requires Quiet(before) && Quiet(after)
    ensures Crc(before + [b] + after) == 0 <==> b == 0
  {
    hide CrcByte;
    CrcIdle([], before);
    assert [] + before == before;
    FoldSnoc(CrcByte, 0, before, b);
    CrcByteZero(0, b);
    CrcIdle(before + [b], after);
  }

  lemma TwoByteError(before: seq<byte>, b: byte, c: byte, after: seq<byte>)
    requires Quiet(before) && Quiet(after)
    ensures Crc(before + [b] + [c] + after) == 0 <==> CrcByte(CrcByte(0, b), c) == 0
  {
    hide CrcByte;
    CrcIdle([], before);
    assert [] + before == before;
    FoldSnoc(CrcByte, 0, before, b);
    FoldSnoc(CrcByte, 0, before + [b], c);
    CrcIdle(before + [b] + [c], after);
  }

  /** Every burst of at most eight bits, wherever it falls, leaves a non-zero checksum. */
  lemma BurstDetected(n: nat, at: nat, p: byte)
    requires at + 8 <= 8 * n && p != 0
    ensures Crc(Burst(n, at, p)) != 0
  {
    hide Crc, CrcByte, Head, Spill;
    var q, r, e := at / 8, at % 8, Burst(n, at, p);
    if r == 0 {
      WholeByte(p);
      assert e == e[..q] + [p] + e[q + 1..];
      OneByteError(e[..q], p, e[q + 1..]);
    } else {
      assert e == e[..q] + [Head(p, r)] + [Spill(p, r)] + e[q + 2..];
      TwoByteError(e[..q], Head(p, r), Spill(p, r), e[q + 2..]);
      SpillDiffers(p, r);
    }
  }

  /** Any odd number of flipped bits leaves a non-zero checksum. */
  lemma OddFlipsDetected(e: seq<byte>)
    requires Ones(e) % 2 == 1
    ensures Crc(e) != 0
  {
    hide Crc, OnesInByte;
    CrcParity(e);
    NoOnes(BITS);
  }

  lemma {:induction false} NoOnes(n: nat)
    ensures OnesInByte(0, n) == 0
    decreases n
  {
    if n > 0 {
      NoOnes(n - 1);
      assert (0 as byte) >> 1 == 0 && (0 as byte) & 1 == 0;
    }
  }

  /** What an error does to a codeword: it survives exactly when the error pattern alone sums to zero. */
  lemma ErrorSurvivesIff(codeword: seq<byte>, e: seq<byte>)
    requires |e| == |codeword| && Crc(codeword) == 0
    ensures Crc(Xor(codeword, e)) == 0 <==> Crc(e) == 0
  {
    hide Crc, Xor;
    CrcLinear(codeword, e);
    XorZero(0, Crc(e));
  }

  // ----- The check value -----

  lemma OneMoreByte(s: seq<byte>, n: nat, before: byte, crc: byte)
    requires n < |s| && Crc(s[..n]) == before && ShiftedOut(before ^ s[n]) == crc
    ensures Crc(s[..n + 1]) == crc
  {
    hide ShiftBit, ShiftedOut;
    assert s[..n + 1] == s[..n] + [s[n]];
    FoldSnoc(CrcByte, 0, s[..n], s[n]);
    ShiftByEight(before ^ s[n]);
  }

  /** The check value by which this CRC is catalogued: of the characters 1 to 9. */
  lemma CheckValue()
    ensures Crc([0x31, 0x32, 0x33, 0x34, 0x35, 0x36, 0x37, 0x38, 0x39]) == 0xF4
  {
    EmptySum();
    hide Crc;
    var s: seq<byte> := [0x31, 0x32, 0x33, 0x34, 0x35, 0x36, 0x37, 0x38, 0x39];
    assert s[..0] == [];
    OneMoreByte(s, 0, 0x00, 0x97);
    OneMoreByte(s, 1, 0x97, 0x72);
    OneMoreByte(s, 2, 0x72, 0xC0);
    OneMoreByte(s, 3, 0xC0, 0xC2);
    OneMoreByte(s, 4, 0xC2, 0xCB);
    OneMoreByte(s, 5, 0xCB, 0xFD);
    OneMoreByte(s, 6, 0xFD, 0x78);
    OneMoreByte(s, 7, 0x78, 0xC7);
    OneMoreByte(s, 8, 0xC7, 0xF4);
    assert s[..9] == s;
  }

  lemma EmptySum()
    ensures Crc([]) == 0
  {
  }
}
