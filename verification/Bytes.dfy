/** Bytes, 16-bit little-endian fields and byte streams cut into chunks. */
module Bytes {

  type byte = bv8

  type u16 = x: int | 0 <= x < 0x1_0000

  datatype Option<+T> = None | Some(value: T)

  /** The low and the high byte of a 16-bit field, as little-endian hosts store it. */
  function Lo(n: u16): byte {
    (n % 256) as bv8
  }

  function Hi(n: u16): byte {
    (n / 256) as bv8
  }

  function Le16(lo: byte, hi: byte): u16 {
    lo as int + 256 * (hi as int)
  }

  lemma IntOfByte(b: byte)
    ensures (b as int) as byte == b
  {
  }

  lemma NextByte(b: byte)
    requires b != 255
    ensures (b + 1) as int == b as int + 1
  {
  }

  /** Counts up to the byte with the given value. */
  lemma {:induction false} ByteWithValue(x: int) returns (b: byte)
    requires 0 <= x < 256
    ensures b as int == x
  {
    b := 0;
    if x > 0 {
      b := ByteWithValue(x - 1);
      NextByte(b);
      b := b + 1;
    }
  }

  lemma ByteOfInt(x: int)
    requires 0 <= x < 256
    ensures (x as byte) as int == x
  {
    var b := ByteWithValue(x);
    IntOfByte(b);
  }

  lemma Le16OfBytes(n: u16)
    ensures Le16(Lo(n), Hi(n)) == n
  {
    ByteOfInt(n % 256);
    ByteOfInt(n / 256);
  }

  lemma Divided(lo: int, hi: int)
    requires 0 <= lo < 256 && 0 <= hi
    ensures (lo + 256 * hi) % 256 == lo && (lo + 256 * hi) / 256 == hi
  {
  }

  lemma LowByte(n: u16, lo: byte)
    requires n % 256 == lo as int
    ensures Lo(n) == lo
  {
    IntOfByte(lo);
  }

  lemma HighByte(n: u16, hi: byte)
    requires n / 256 == hi as int
    ensures Hi(n) == hi
  {
    IntOfByte(hi);
  }

  lemma Le16Parts(lo: byte, hi: byte)
    ensures Le16(lo, hi) % 256 == lo as int && Le16(lo, hi) / 256 == hi as int
  {
    Divided(lo as int, hi as int);
  }

  lemma BytesOfLe16(lo: byte, hi: byte)
    ensures Lo(Le16(lo, hi)) == lo && Hi(Le16(lo, hi)) == hi
  {
    hide Lo, Hi, Le16;
    Le16Parts(lo, hi);
    LowByte(Le16(lo, hi), lo);
    HighByte(Le16(lo, hi), hi);
  }

  lemma Associated<T>(a: seq<T>, b: seq<T>, c: seq<T>)
    ensures a + b + c == a + (b + c)
  {
  }

  lemma TwoParts<T>(s: seq<T>, a: seq<T>, b: seq<T>)
    requires s == a + b
    ensures s[..|a|] == a && s[|a|..] == b
  {
  }

  lemma SliceOfPrefix<T>(s: seq<T>, n: nat, i: nat, j: nat)
    requires i <= j <= n <= |s|
    ensures s[..n][i..j] == s[i..j]
  {
  }

  lemma SliceOfSlice<T>(s: seq<T>, from: nat, to: nat, i: nat, j: nat)
    requires from <= to <= |s| && i <= j <= to - from
    ensures s[from..to][i..j] == s[from + i..from + j]
  {
    var a, b := s[from..to][i..j], s[from + i..from + j];
    assert forall k :: 0 <= k < |a| ==> a[k] == s[from..to][i + k] == s[from + i + k] == b[k];
    assert a == b;
  }

  /** The stream whose chunks are given. */
  function Flatten<T>(chunks: seq<seq<T>>): seq<T> {
    if chunks == [] then [] else chunks[0] + Flatten(chunks[1..])
  }

  lemma {:induction false} FlattenAppend<T>(a: seq<seq<T>>, b: seq<seq<T>>)
    ensures Flatten(a + b) == Flatten(a) + Flatten(b)
  {
    if a == [] {
      assert a + b == b;
    } else {
      assert (a + b)[1..] == a[1..] + b;
      FlattenAppend(a[1..], b);
    }
  }

  lemma FlattenSnoc<T>(a: seq<seq<T>>, x: seq<T>)
    ensures Flatten(a + [x]) == Flatten(a) + x
  {
    FlattenAppend(a, [x]);
    assert Flatten([x]) == x;
  }

  /** A prefix of two parts ends in the first or holds it whole. */
  lemma PrefixParts<T>(t: seq<T>, a: seq<T>, b: seq<T>)
    requires t <= a + b
    ensures |t| < |a| ==> t == a[..|t|]
    ensures |t| >= |a| ==> t == a + t[|a|..] && t[|a|..] <= b
  {
  }

  lemma PrefixOfPrefix<T>(a: seq<T>, b: seq<T>, c: seq<T>)
    requires a + b <= c
    ensures a <= c
  {
  }
}
