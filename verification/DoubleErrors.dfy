/** Two flipped bits: exactly which pairs the checksum misses. */
module DoubleErrors {
  import opened Bytes
  import opened Folds
  import opened Crc8
  import opened Detection
  import opened Wire
  import opened Scanner
  import opened RoundTrip
  import opened Corruption

  const PERIOD: nat := 127

  // ----- The register's cycle -----

  lemma {:induction false} IterAdd<T>(f: T -> T, x: T, m: nat, n: nat)
    ensures Iter(f, x, m + n) == Iter(f, Iter(f, x, m), n)
    decreases n
  {
    if n > 0 {
      IterAdd(f, x, m, n - 1);
    }
  }

  lemma NoShift()
    ensures Iter(ShiftBit, 1, 0) == 1
  {
  }

  lemma FirstShift()
    ensures Iter(ShiftBit, 1, 1) == 2
  {
  }

  lemma OneMoreShift(n: nat)
    ensures Iter(ShiftBit, 1, n + 1) == ShiftBit(Iter(ShiftBit, 1, n))
  {
  }

  lemma EightMore(n: nat, c: byte, d: byte)
    requires Iter(ShiftBit, 1, n) == c && ShiftedOut(c) == d
    ensures Iter(ShiftBit, 1, n + 8) == d
  {
    hide ShiftBit, ShiftedOut;
    IterAdd(ShiftBit, 1, n, 8);
    ShiftByEight(c);
  }

  lemma SixtyFourShifts()
    ensures Iter(ShiftBit, 1, 64) == 0x13
  {
    hide Iter;
    NoShift();
    EightMore(0, 0x01, 0x07);
    EightMore(8, 0x07, 0x15);
    EightMore(16, 0x15, 0x6B);
    EightMore(24, 0x6B, 0x16);
    EightMore(32, 0x16, 0x62);
    EightMore(40, 0x62, 0x29);
    EightMore(48, 0x29, 0xDF);
    EightMore(56, 0xDF, 0x13);
  }

  /** After 127 shifts the register is back where it was. */
  lemma Cycle()
    ensures Iter(ShiftBit, 1, PERIOD) == 1
  {
    SixtyFourShifts();
    hide Iter;
    EightMore(64, 0x13, 0x79);
    EightMore(72, 0x79, 0x68);
    EightMore(80, 0x68, 0x1F);
    EightMore(88, 0x1F, 0x5D);
    EightMore(96, 0x5D, 0x94);
    EightMore(104, 0x94, 0xE5);
    EightMore(112, 0xE5, 0xB5);
    EightMore(120, 0xB5, 0x02);
    OneMoreShift(PERIOD);
    ShiftBitBijective(Iter(ShiftBit, 1, PERIOD));
    ShiftBitBijective(1);
  }

  lemma {:induction false} Turns(q: nat, r: nat, m: nat)
    requires Iter(ShiftBit, 1, r) == 1
    ensures 0 <= q * r && Iter(ShiftBit, 1, q * r + m) == Iter(ShiftBit, 1, m)
    decreases q
  {
    hide ShiftBit, Iter;
    if q > 0 {
      Turns(q - 1, r, m);
      assert q * r + m == r + ((q - 1) * r + m);
      IterAdd(ShiftBit, 1, r, (q - 1) * r + m);
    }
  }

  /** Shifts that lead back to the start may be left out. */
  lemma Remainder(n: nat, r: nat)
    requires r > 0 && Iter(ShiftBit, 1, r) == 1
    ensures Iter(ShiftBit, 1, n) == Iter(ShiftBit, 1, n % r)
  {
    hide ShiftBit, Iter;
    Turns(n / r, r, n % r);
  }

  /** 127 is prime. */
  lemma NoDivisor(r: nat)
    requires 1 < r < PERIOD
    ensures PERIOD % r != 0
  {
  }

  /** The cycle is no shorter: a shorter one would divide 127. */
  lemma {:induction false} NoShorterCycle(r: nat)
    requires 0 < r < PERIOD
    ensures Iter(ShiftBit, 1, r) != 1
  {
    hide ShiftBit, Iter;
    if r == 1 {
      FirstShift();
    } else if Iter(ShiftBit, 1, r) == 1 {
      NoDivisor(r);
      Cycle();
      Remainder(PERIOD, r);
      NoShorterCycle(PERIOD % r);
    }
  }

  lemma CycleIff(d: nat)
    ensures Iter(ShiftBit, 1, d) == 1 <==> d % PERIOD == 0
  {
    hide ShiftBit, Iter;
    Cycle();
    Remainder(d, PERIOD);
    if d % PERIOD == 0 {
      NoShift();
    } else {
      NoShorterCycle(d % PERIOD);
    }
  }

  // ----- Two flipped bits -----

  /** One flipped bit among n bytes, the most significant bit of the first byte being bit 0. */
  function Flip(n: nat, i: nat): (e: seq<byte>)
    requires i < 8 * n
    ensures |e| == n
  {
    seq(n, k requires 0 <= k < n => if k == i / 8 then BitAt(i % 8) else 0)
  }

  function BitAt(r: nat): byte
    requires r < 8
  {
    0x80 >> r
  }

  lemma {:induction false} BitIsShifted(r: nat)
    requires r < 8
    ensures BitAt(r) == Iter(ShiftBit, 1, 7 - r)
    decreases 7 - r
  {
    hide Iter, ShiftBit;
    NoShift();
    if r < 7 {
      BitIsShifted(r + 1);
      OneMoreShift(6 - r);
      ShiftedBit(r);
    }
  }

  lemma ShiftedBit(r: nat)
    requires r < 7
    ensures ShiftBit(BitAt(r + 1)) == BitAt(r)
  {
  }

  /** The bytes after an error only go on shifting. */
  lemma {:induction false} CrcThenZeros(s: seq<byte>, zeros: seq<byte>)
    requires Quiet(zeros)
    ensures Crc(s + zeros) == Iter(ShiftBit, Crc(s), 8 * |zeros|)
    decreases |zeros|
  {
    hide ShiftBit, CrcByte, Crc;
    if zeros == [] {
      assert s + zeros == s;
    } else {
      var n := |zeros| - 1;
      CrcThenZeros(s, zeros[..n]);
      assert s + zeros == (s + zeros[..n]) + [zeros[n]];
      CrcSnoc(s + zeros[..n], 0);
      XorWithZero(Crc(s + zeros[..n]));
      IterAdd(ShiftBit, Crc(s), 8 * n, 8);
    }
  }

  lemma CrcSnoc(s: seq<byte>, b: byte)
    ensures Crc(s + [b]) == Iter(ShiftBit, XorByte(Crc(s), b), BITS)
  {
  }

  lemma CrcOfFlip(n: nat, i: nat)
    requires i < 8 * n
    ensures Crc(Flip(n, i)) == Iter(ShiftBit, 1, 8 * n + 7 - i)
  {
    hide ShiftBit, CrcByte, Crc, Iter, BitAt;
    var q, r, e := i / 8, i % 8, Flip(n, i);
    assert e == e[..q] + [BitAt(r)] + e[q + 1..];
    CrcIdle([], e[..q]);
    assert [] + e[..q] == e[..q];
    EmptySum();
    CrcSnoc(e[..q], BitAt(r));
    XorWithZero(BitAt(r));
    XorCommutes(0, BitAt(r));
    BitIsShifted(r);
    IterAdd(ShiftBit, 1, 7 - r, 8);
    CrcThenZeros(e[..q] + [BitAt(r)], e[q + 1..]);
    IterAdd(ShiftBit, 1, 15 - r, 8 * (n - q - 1));
  }

  lemma XorCommutes(a: byte, b: byte)
    ensures XorByte(a, b) == XorByte(b, a)
  {
  }

  /** Two flipped bits leave a zero checksum exactly when their distance is a multiple of 127 bits. */
  lemma TwoFlipsMissedIff(n: nat, i: nat, j: nat)
    requires i < j < 8 * n
    ensures Crc(Xor(Flip(n, i), Flip(n, j))) == 0 <==> (j - i) % PERIOD == 0
  {
    hide ShiftBit, CrcByte, Crc, Iter, Flip, Xor;
    CrcOfFlip(n, i);
    CrcOfFlip(n, j);
    CrcLinear(Flip(n, i), Flip(n, j));
    XorZero(Crc(Flip(n, i)), Crc(Flip(n, j)));
    var a, d := 8 * n + 7 - j, j - i;
    IterAdd(ShiftBit, 1, d, a);
    CycleIff(d);
    if Iter(ShiftBit, 1, a) == Iter(ShiftBit, Iter(ShiftBit, 1, d), a) {
      ShiftInjective(1, Iter(ShiftBit, 1, d), a);
    }
  }

  /** A frame with two flipped bits, neither of them in its DLC, gets through exactly in that case. */
  lemma TwoFlipsInFrame(r: Receiver, f: Frame, i: nat, j: nat, tail: seq<byte>)
    requires r.checked && Sendable(r, f) && i < j < 8 * (|Encode(f)| - 1)
    requires !(16 <= i < 32) && !(16 <= j < 32)
    ensures var e := Xor(Flip(|Encode(f)| - 1, i), Flip(|Encode(f)| - 1, j));
      Step(r, Damaged(f, e) + tail) == if (j - i) % PERIOD == 0 then Emit(|Encode(f)|) else Drop
  {
    hide Crc, Step, Damaged, Encode, XorByte;
    var n := |Encode(f)| - 1;
    var e := Xor(Flip(n, i), Flip(n, j));
    XorWithZero(0);
    DamagedFrame(r, f, e, tail);
    hide Xor, Flip;
    TwoFlipsMissedIff(n, i, j);
  }
}
