/**
 * The packed bit set of `src/collections/bit_set.rs`: `BYTES` bytes, bit `i`
 * in bit `i % 8` of byte `i / 8` (little endian).
 */
module BitSets {
  import opened Wrappers

  // ---------------------------------------------------------------------
  // Bits of one byte

  /** `1 << k` for a bit position of a byte. */
  function Mask(k: nat): (m: bv8)
    requires k < 8
  {
    if k == 0 then 1 else if k == 1 then 2 else if k == 2 then 4 else if k == 3 then 8
    else if k == 4 then 16 else if k == 5 then 32 else if k == 6 then 64 else 128
  }

  lemma MaskIsShift(k: nat)
    requires k < 8
    ensures Mask(k) == 1 << k
  {}

  /** Bit `k` of `b`: `b & (1 << k) != 0`. */
  predicate Bit(b: bv8, k: nat)
    requires k < 8
  {
    b & Mask(k) != 0
  }

  lemma XorSame(b: bv8, k: nat)
    requires k < 8
    ensures Bit(b ^ Mask(k), k) == !Bit(b, k)
  {}

  lemma XorOther(b: bv8, k: nat, j: nat)
    requires k < 8 && j < 8 && j != k
    ensures Bit(b ^ Mask(k), j) == Bit(b, j)
  {
    assert Mask(k) & Mask(j) == 0;
  }

  lemma OrBit(a: bv8, b: bv8, j: nat)
    requires j < 8
    ensures Bit(a | b, j) == (Bit(a, j) || Bit(b, j))
  {}

  lemma AndBit(a: bv8, b: bv8, j: nat)
    requires j < 8
    ensures Bit(a & b, j) == (Bit(a, j) && Bit(b, j))
  {}

  lemma XorBit(a: bv8, b: bv8, j: nat)
    requires j < 8
    ensures Bit(a ^ b, j) == (Bit(a, j) != Bit(b, j))
  {
    var m := Mask(j);
    assert (a ^ b) & m == (a & m) ^ (b & m);
    assert m == 1 || m == 2 || m == 4 || m == 8 || m == 16 || m == 32 || m == 64 || m == 128;
  }

  lemma NotBit(a: bv8, j: nat)
    requires j < 8
    ensures Bit(!a, j) == !Bit(a, j)
  {}

  /** A byte is zero exactly when none of its bits is set. */
  lemma ZeroByte(a: bv8)
    ensures a == 0 <==> forall j :: 0 <= j < 8 ==> !Bit(a, j)
  {
    if a != 0 {
      assert Bit(a, 0) || Bit(a, 1) || Bit(a, 2) || Bit(a, 3) || Bit(a, 4) || Bit(a, 5) || Bit(a, 6) || Bit(a, 7);
    }
  }

  /** A byte is 0xFF exactly when all of its bits are set. */
  lemma FullByte(a: bv8)
    ensures a == 0xFF <==> forall j :: 0 <= j < 8 ==> Bit(a, j)
  {
    if a != 0xFF {
      assert !Bit(a, 0) || !Bit(a, 1) || !Bit(a, 2) || !Bit(a, 3) || !Bit(a, 4) || !Bit(a, 5) || !Bit(a, 6) || !Bit(a, 7);
    }
  }

  /** The eight bits of a byte, lowest first. */
  function ByteBits(b: bv8): (r: seq<bool>)
    ensures |r| == 8
  {
    [Bit(b, 0), Bit(b, 1), Bit(b, 2), Bit(b, 3), Bit(b, 4), Bit(b, 5), Bit(b, 6), Bit(b, 7)]
  }

  // ---------------------------------------------------------------------
  // Bits of a byte array

  /** The bits of little-endian bytes: bit `i` is bit `i % 8` of byte `i / 8`. */
  function Bits(s: seq<bv8>): (r: seq<bool>)
    ensures |r| == 8 * |s|
  {
    if s == [] then [] else ByteBits(s[0]) + Bits(s[1..])
  }

  /** Bit `bit` of byte `byte` is bit `8 * byte + bit` of the set. */
  lemma {:induction false} BitsAtSplit(s: seq<bv8>, index: nat, byte: nat, bit: nat)
    requires byte < |s| && bit < 8 && index == 8 * byte + bit
    ensures Bits(s)[index] == Bit(s[byte], bit)
  {
    if byte == 0 {
      assert Bits(s)[index] == ByteBits(s[0])[bit];
      ByteBitsAt(s[0], bit);
    } else {
      BitsAtSplit(s[1..], index - 8, byte - 1, bit);
      assert Bits(s)[index] == Bits(s[1..])[index - 8];
    }
  }

  /** Byte and bit of a bit index, known only through their relation to it. */
  lemma DivMod8(i: nat) returns (q: nat, r: nat)
    ensures i == 8 * q + r && r < 8
  {
    q, r := i / 8, i % 8;
  }

  /** Bit `i` of the set is bit `i % 8` of byte `i / 8`. */
  lemma BitsAt(s: seq<bv8>, i: nat)
    requires i < 8 * |s|
    ensures Bits(s)[i] == Bit(s[i / 8], i % 8)
  {
    var q, r := DivMod8(i);
    assert q == i / 8 && r == i % 8;
    BitsAtSplit(s, i, q, r);
  }

  lemma ByteBitsAt(b: bv8, k: nat)
    requires k < 8
    ensures ByteBits(b)[k] == Bit(b, k)
  {}

  lemma {:induction false} BitsAppend(a: seq<bv8>, b: seq<bv8>)
    ensures Bits(a + b) == Bits(a) + Bits(b)
  {
    if a != [] {
      BitsAppend(a[1..], b);
      assert (a + b)[1..] == a[1..] + b;
    } else {
      assert a + b == b;
    }
  }

  /** The number of true entries. */
  function CountTrue(bs: seq<bool>): (n: nat)
    ensures n <= |bs|
  {
    if bs == [] then 0 else (if bs[0] then 1 else 0) + CountTrue(bs[1..])
  }

  lemma {:induction false} CountTrueAppend(a: seq<bool>, b: seq<bool>)
    ensures CountTrue(a + b) == CountTrue(a) + CountTrue(b)
  {
    if a != [] {
      CountTrueAppend(a[1..], b);
      assert (a + b)[1..] == a[1..] + b;
    } else {
      assert a + b == b;
    }
  }

  /** Nothing is counted exactly when nothing is true. */
  lemma {:induction false} CountTrueZero(bs: seq<bool>)
    ensures CountTrue(bs) == 0 <==> forall i :: 0 <= i < |bs| ==> !bs[i]
  {
    if bs != [] {
      CountTrueZero(bs[1..]);
      assert forall i :: 1 <= i < |bs| ==> bs[i] == bs[1..][i - 1];
    }
  }

  /** Every flag is set exactly when all of them count. */
  lemma {:induction false} CountTrueFull(bs: seq<bool>)
    ensures CountTrue(bs) == |bs| <==> forall i :: 0 <= i < |bs| ==> bs[i]
  {
    if bs != [] {
      CountTrueFull(bs[1..]);
      assert forall i :: 1 <= i < |bs| ==> bs[i] == bs[1..][i - 1];
    }
  }

  /** `u8::count_ones`: no ones only in 0, eight only in 0xFF. */
  function PopCount(b: bv8): (n: nat)
    ensures n <= 8
    ensures n == 0 <==> b == 0
    ensures n == 8 <==> b == 0xFF
  {
    CountTrueZero(ByteBits(b));
    CountTrueFull(ByteBits(b));
    ZeroByte(b);
    FullByte(b);
    CountTrue(ByteBits(b))
  }

  /** Bitwise operations on bit sequences of equal length. */
  function Or(a: seq<bool>, b: seq<bool>): (r: seq<bool>)
    requires |a| == |b|
  {
    seq(|a|, i requires 0 <= i < |a| => a[i] || b[i])
  }

  function And(a: seq<bool>, b: seq<bool>): (r: seq<bool>)
    requires |a| == |b|
  {
    seq(|a|, i requires 0 <= i < |a| => a[i] && b[i])
  }

  function Xor(a: seq<bool>, b: seq<bool>): (r: seq<bool>)
    requires |a| == |b|
  {
    seq(|a|, i requires 0 <= i < |a| => a[i] != b[i])
  }

  function Negate(a: seq<bool>): (r: seq<bool>) {
    seq(|a|, i requires 0 <= i < |a| => !a[i])
  }

  /** `a << k` on bits: bit `i` takes bit `i - k`, the low `k` bits are cleared. */
  function ShlBits(a: seq<bool>, k: nat): (r: seq<bool>) {
    seq(|a|, i requires 0 <= i < |a| => k <= i && a[i - k])
  }

  // ---------------------------------------------------------------------
  // Indexes

  /**
   * `is_in_bounds`, as written: the end position itself passes. An index
   * that passes falls in one of the bytes, or is the end position, whose
   * byte index is one past the last byte.
   */
  predicate IsInBounds(bytes: nat, index: nat): (r: bool)
    ensures r <==> index / 8 < bytes || index == 8 * bytes
  {
    index <= bytes * 8
  }

  /** `split_index`, as written: `None` where the assertion fails, else (bit, byte). */
  function SplitIndexAsWritten(bytes: nat, index: nat): (r: Option<(nat, nat)>)
    ensures r.Some? <==> IsInBounds(bytes, index)
  {
    if IsInBounds(bytes, index) then Some((index % 8, index / 8)) else None
  }

  /** The assertion lets `index == 8 * BYTES` through, whose byte index is out of range. */
  lemma SplitIndexAdmitsEnd(bytes: nat)
    ensures SplitIndexAsWritten(bytes, 8 * bytes) == Some((0, bytes))
    ensures !(SplitIndexAsWritten(bytes, 8 * bytes).value.1 < bytes)
  {}

  /** `split_index` with the intended bound `index < 8 * BYTES`. */
  function SplitIndex(bytes: nat, index: nat): (r: (nat, nat))
    requires index < 8 * bytes
    ensures r.0 < 8 && r.1 < bytes && index == 8 * r.1 + r.0
  {
    (index % 8, index / 8)
  }

  /** The corrected bound admits exactly the indexes whose byte exists. */
  lemma SplitIndexInRange(bytes: nat, index: nat)
    ensures index < 8 * bytes <==> IsInBounds(bytes, index) && SplitIndexAsWritten(bytes, index).value.1 < bytes
  {}

  // ---------------------------------------------------------------------
  // Integer conversions

  function Pow2(n: nat): (r: nat)
    ensures r >= 1
  {
    if n == 0 then 1 else 2 * Pow2(n - 1)
  }

  /** `uN::to_le_bytes` for an `n`-byte integer. */
  function LeBytes(v: nat, n: nat): (r: seq<bv8>)
    ensures |r| == n
  {
    if n == 0 then [] else [(v % 256) as bv8] + LeBytes(v / 256, n - 1)
  }

  /** `uN::from_le_bytes`. */
  function FromLeBytes(s: seq<bv8>): nat {
    if s == [] then 0 else s[0] as nat + 256 * FromLeBytes(s[1..])
  }

  /** An `n`-byte reading fits in `8 * n` bits. */
  lemma {:induction false} FromLeBytesBound(s: seq<bv8>)
    ensures FromLeBytes(s) < Pow2(8 * |s|)
  {
    if s != [] {
      FromLeBytesBound(s[1..]);
      Pow2Step(8 * |s[1..]|);
    }
  }

  lemma Pow2Step(n: nat)
    ensures Pow2(n + 8) == 256 * Pow2(n)
  {
    assert Pow2(n + 8) == 2 * Pow2(n + 7) == 4 * Pow2(n + 6) == 8 * Pow2(n + 5) == 16 * Pow2(n + 4);
    assert Pow2(n + 4) == 2 * Pow2(n + 3) == 4 * Pow2(n + 2) == 8 * Pow2(n + 1) == 16 * Pow2(n);
  }

  lemma ByteOfNat(x: nat)
    requires x < 256
    ensures (x as bv8) as nat == x
  {
    var b := ByteWithValue(x);
    NatOfByte(b);
  }

  /** Every number below 256 is the value of some byte. */
  lemma {:induction false} ByteWithValue(x: nat) returns (b: bv8)
    requires x < 256
    ensures b as nat == x
  {
    if x == 0 {
      b := 0;
    } else {
      var c := ByteWithValue(x - 1);
      b := c + 1;
      IncByte(c);
    }
  }

  lemma IncByte(c: bv8)
    requires c as nat < 255
    ensures (c + 1) as nat == c as nat + 1
  {}

  lemma NatOfByte(b: bv8)
    ensures (b as nat) as bv8 == b
  {}

  /** `BitSet` from `uN` and back gives the integer back. */
  lemma {:induction false} FromLeBytesLeBytes(v: nat, n: nat)
    requires v < Pow2(8 * n)
    ensures FromLeBytes(LeBytes(v, n)) == v
  {
    if n > 0 {
      Pow2Step(8 * (n - 1));
      FromLeBytesLeBytes(v / 256, n - 1);
      var s := LeBytes(v, n);
      assert s[1..] == LeBytes(v / 256, n - 1);
      ByteOfNat(v % 256);
      assert FromLeBytes(s) == s[0] as nat + 256 * FromLeBytes(s[1..]);
    }
  }

  lemma DivModByte(x: nat, r: nat)
    requires x < 256
    ensures (x + 256 * r) % 256 == x && (x + 256 * r) / 256 == r
  {}

  /** Writing a byte below `256 * rest` puts that byte first. */
  lemma LeBytesCons(x: bv8, rest: nat, n: nat)
    ensures LeBytes(x as nat + 256 * rest, n + 1) == [x] + LeBytes(rest, n)
  {
    var v := x as nat + 256 * rest;
    assert v % 256 == x as nat && v / 256 == rest by { DivModByte(x as nat, rest); }
    assert (x as nat) as bv8 == x by { NatOfByte(x); }
  }

  /** `uN` from `BitSet` and back gives the bytes back. */
  lemma {:induction false} LeBytesFromLeBytes(s: seq<bv8>)
    ensures LeBytes(FromLeBytes(s), |s|) == s
  {
    if s != [] {
      LeBytesFromLeBytes(s[1..]);
      LeBytesCons(s[0], FromLeBytes(s[1..]), |s| - 1);
      assert s == [s[0]] + s[1..];
    }
  }

  /** Bit `i` of an integer, `(v >> i) & 1 == 1`. */
  predicate IntBit(v: nat, i: nat) {
    if i == 0 then v % 2 == 1 else IntBit(v / 2, i - 1)
  }

  function BitValue(x: bool): nat {
    if x then 1 else 0
  }

  /** The integer whose binary digits, lowest first, are `bs`. */
  function FromBits(bs: seq<bool>): nat {
    if bs == [] then 0 else BitValue(bs[0]) + 2 * FromBits(bs[1..])
  }

  /** The binary digits of `FromBits(bs)` are `bs`. */
  lemma {:induction false} IntBitFromBits(bs: seq<bool>, i: nat)
    requires i < |bs|
    ensures IntBit(FromBits(bs), i) == bs[i]
  {
    if i > 0 {
      IntBitFromBits(bs[1..], i - 1);
    }
  }

  lemma {:induction false} FromBitsAppend(a: seq<bool>, c: seq<bool>)
    ensures FromBits(a + c) == FromBits(a) + Pow2(|a|) * FromBits(c)
  {
    if a != [] {
      FromBitsAppend(a[1..], c);
      assert (a + c)[1..] == a[1..] + c;
      var p := Pow2(|a| - 1);
      var f := FromBits(c);
      assert FromBits(a + c) == BitValue(a[0]) + 2 * FromBits(a[1..] + c);
      assert FromBits(a[1..] + c) == FromBits(a[1..]) + p * f;
      assert Pow2(|a|) == 2 * p;
      DoubleProduct(p, f);
    } else {
      assert a + c == c;
    }
  }

  lemma DoubleProduct(p: nat, f: nat)
    ensures 2 * (p * f) == (2 * p) * f
  {}

  /** The value of a byte is the sum of its weighted bits. */
  lemma ByteValue(b: bv8)
    ensures FromBits(ByteBits(b)) == b as nat
  {
    var x0, x1, x2, x3, x4, x5, x6, x7 := Bit(b, 0), Bit(b, 1), Bit(b, 2), Bit(b, 3), Bit(b, 4), Bit(b, 5), Bit(b, 6), Bit(b, 7);
    assert ByteBits(b) == [x0, x1, x2, x3, x4, x5, x6, x7];
    FromEightBits(x0, x1, x2, x3, x4, x5, x6, x7);
    ByteWeights(b, x0, x1, x2, x3, x4, x5, x6, x7);
  }

  lemma ByteWeights(b: bv8, x0: bool, x1: bool, x2: bool, x3: bool, x4: bool, x5: bool, x6: bool, x7: bool)
    requires x0 == Bit(b, 0) && x1 == Bit(b, 1) && x2 == Bit(b, 2) && x3 == Bit(b, 3)
    requires x4 == Bit(b, 4) && x5 == Bit(b, 5) && x6 == Bit(b, 6) && x7 == Bit(b, 7)
    ensures b as nat == BitValue(x0) + 2 * (BitValue(x1) + 2 * (BitValue(x2) + 2 * (BitValue(x3) + 2 * (BitValue(x4) + 2 * (BitValue(x5) + 2 * (BitValue(x6) + 2 * (BitValue(x7))))))))
  {}

  lemma FromEightBits(x0: bool, x1: bool, x2: bool, x3: bool, x4: bool, x5: bool, x6: bool, x7: bool)
    ensures FromBits([x0, x1, x2, x3, x4, x5, x6, x7]) == BitValue(x0) + 2 * (BitValue(x1) + 2 * (BitValue(x2) + 2 * (BitValue(x3) + 2 * (BitValue(x4) + 2 * (BitValue(x5) + 2 * (BitValue(x6) + 2 * (BitValue(x7))))))))
  {
    assert [x0, x1, x2, x3, x4, x5, x6, x7] == [x0, x1, x2, x3] + [x4, x5, x6, x7];
    FromFourBits(x0, x1, x2, x3, [x4, x5, x6, x7]);
    assert [x4, x5, x6, x7] == [x4, x5, x6, x7] + [];
    FromFourBits(x4, x5, x6, x7, []);
  }

  lemma FromFourBits(x0: bool, x1: bool, x2: bool, x3: bool, rest: seq<bool>)
    ensures FromBits([x0, x1, x2, x3] + rest) == BitValue(x0) + 2 * (BitValue(x1) + 2 * (BitValue(x2) + 2 * (BitValue(x3) + 2 * FromBits(rest))))
  {
    assert [x0, x1, x2, x3] + rest == [x0] + ([x1] + ([x2] + ([x3] + rest)));
    FromBitsCons(x3, rest);
    FromBitsCons(x2, [x3] + rest);
    FromBitsCons(x1, [x2] + ([x3] + rest));
    FromBitsCons(x0, [x1] + ([x2] + ([x3] + rest)));
  }

  lemma FromBitsCons(x: bool, rest: seq<bool>)
    ensures FromBits([x] + rest) == BitValue(x) + 2 * FromBits(rest)
  {
    assert ([x] + rest)[1..] == rest;
  }

  /** Reading bytes little endian is reading their bits lowest first. */
  lemma {:induction false} FromLeBytesIsFromBits(s: seq<bv8>)
    ensures FromLeBytes(s) == FromBits(Bits(s))
  {
    if s != [] {
      FromLeBytesIsFromBits(s[1..]);
      assert Bits(s) == ByteBits(s[0]) + Bits(s[1..]);
      FromBitsAppend(ByteBits(s[0]), Bits(s[1..]));
      ByteValue(s[0]);
      assert Pow2(8) == 256 by { Pow2Step(0); }
    }
  }

  /** `From<uN>` indexes little endian: bit `i` of the set is bit `i` of the integer. */
  lemma LeBytesBits(v: nat, n: nat, i: nat)
    requires v < Pow2(8 * n) && i < 8 * n
    ensures Bits(LeBytes(v, n))[i] == IntBit(v, i)
  {
    var s := LeBytes(v, n);
    FromLeBytesLeBytes(v, n);
    FromLeBytesIsFromBits(s);
    IntBitFromBits(Bits(s), i);
  }

  // ---------------------------------------------------------------------
  // Byte-wise operations and their meaning on bits

  function OrBytes(s: seq<bv8>, t: seq<bv8>): (r: seq<bv8>)
    requires |s| == |t|
  {
    seq(|s|, i requires 0 <= i < |s| => s[i] | t[i])
  }

  function AndBytes(s: seq<bv8>, t: seq<bv8>): (r: seq<bv8>)
    requires |s| == |t|
  {
    seq(|s|, i requires 0 <= i < |s| => s[i] & t[i])
  }

  function XorBytes(s: seq<bv8>, t: seq<bv8>): (r: seq<bv8>)
    requires |s| == |t|
  {
    seq(|s|, i requires 0 <= i < |s| => s[i] ^ t[i])
  }

  function NotBytes(s: seq<bv8>): (r: seq<bv8>) {
    seq(|s|, i requires 0 <= i < |s| => !s[i])
  }

  /** `|` on bytes is `||` on every bit. */
  lemma BitsOr(s: seq<bv8>, t: seq<bv8>)
    requires |s| == |t|
    ensures Bits(OrBytes(s, t)) == Or(Bits(s), Bits(t))
  {
    forall i | 0 <= i < 8 * |s|
      ensures Bits(OrBytes(s, t))[i] == (Bits(s)[i] || Bits(t)[i])
    {
      var q, r := DivMod8(i);
      BitsOrAt(s, t, i, q, r);
    }
  }

  lemma BitsOrAt(s: seq<bv8>, t: seq<bv8>, i: nat, q: nat, r: nat)
    requires |s| == |t| && q < |s| && r < 8 && i == 8 * q + r
    ensures Bits(OrBytes(s, t))[i] == (Bits(s)[i] || Bits(t)[i])
  {
    BitsAtSplit(OrBytes(s, t), i, q, r);
    BitsAtSplit(s, i, q, r);
    BitsAtSplit(t, i, q, r);
    OrBit(s[q], t[q], r);
  }

  /** `&` on bytes is `&&` on every bit. */
  lemma BitsAnd(s: seq<bv8>, t: seq<bv8>)
    requires |s| == |t|
    ensures Bits(AndBytes(s, t)) == And(Bits(s), Bits(t))
  {
    forall i | 0 <= i < 8 * |s|
      ensures Bits(AndBytes(s, t))[i] == (Bits(s)[i] && Bits(t)[i])
    {
      var q, r := DivMod8(i);
      BitsAndAt(s, t, i, q, r);
    }
  }

  lemma BitsAndAt(s: seq<bv8>, t: seq<bv8>, i: nat, q: nat, r: nat)
    requires |s| == |t| && q < |s| && r < 8 && i == 8 * q + r
    ensures Bits(AndBytes(s, t))[i] == (Bits(s)[i] && Bits(t)[i])
  {
    BitsAtSplit(AndBytes(s, t), i, q, r);
    BitsAtSplit(s, i, q, r);
    BitsAtSplit(t, i, q, r);
    AndBit(s[q], t[q], r);
  }

  /** `^` on bytes is `!=` on every bit. */
  lemma BitsXor(s: seq<bv8>, t: seq<bv8>)
    requires |s| == |t|
    ensures Bits(XorBytes(s, t)) == Xor(Bits(s), Bits(t))
  {
    forall i | 0 <= i < 8 * |s|
      ensures Bits(XorBytes(s, t))[i] == (Bits(s)[i] != Bits(t)[i])
    {
      var q, r := DivMod8(i);
      BitsXorAt(s, t, i, q, r);
    }
  }

  lemma BitsXorAt(s: seq<bv8>, t: seq<bv8>, i: nat, q: nat, r: nat)
    requires |s| == |t| && q < |s| && r < 8 && i == 8 * q + r
    ensures Bits(XorBytes(s, t))[i] == (Bits(s)[i] != Bits(t)[i])
  {
    BitsAtSplit(XorBytes(s, t), i, q, r);
    BitsAtSplit(s, i, q, r);
    BitsAtSplit(t, i, q, r);
    XorBit(s[q], t[q], r);
  }

  /** `!` on bytes negates every bit. */
  lemma BitsNot(s: seq<bv8>)
    ensures Bits(NotBytes(s)) == Negate(Bits(s))
  {
    forall i | 0 <= i < 8 * |s|
      ensures Bits(NotBytes(s))[i] == !Bits(s)[i]
    {
      var q, r := DivMod8(i);
      BitsNotAt(s, i, q, r);
    }
  }

  lemma BitsNotAt(s: seq<bv8>, i: nat, q: nat, r: nat)
    requires q < |s| && r < 8 && i == 8 * q + r
    ensures Bits(NotBytes(s))[i] == !Bits(s)[i]
  {
    BitsAtSplit(NotBytes(s), i, q, r);
    BitsAtSplit(s, i, q, r);
    NotBit(s[q], r);
  }

  /** Replacing the byte that holds bit `8 * byte + bit` by one that differs only there changes only that bit. */
  lemma BitsUpdate(s: seq<bv8>, byte: nat, bit: nat, nb: bv8, v: bool)
    requires byte < |s| && bit < 8
    requires forall k :: 0 <= k < 8 ==> Bit(nb, k) == (if k == bit then v else Bit(s[byte], k))
    ensures Bits(s[byte := nb]) == Bits(s)[8 * byte + bit := v]
  {
    var t := s[byte := nb];
    forall i | 0 <= i < 8 * |s|
      ensures Bits(t)[i] == Bits(s)[8 * byte + bit := v][i]
    {
      var q, r := DivMod8(i);
      BitsAtSplit(t, i, q, r);
      BitsAtSplit(s, i, q, r);
    }
  }

  lemma BitsSnoc(s: seq<bv8>, b: bv8)
    ensures Bits(s + [b]) == Bits(s) + ByteBits(b)
  {
    BitsAppend(s, [b]);
    assert Bits([b]) == ByteBits(b) + Bits([]);
  }

  /** The bytes after `rotate_right(n)` and clearing the first `n`. */
  function ShiftBytes(s: seq<bv8>, n: nat): (r: seq<bv8>)
    requires n <= |s|
  {
    seq(|s|, i requires 0 <= i < |s| => if i < n then 0 else s[i - n])
  }

  /** `n` cleared bits. */
  function NoBits(n: nat): (r: seq<bool>)
    ensures |r| == n
  {
    seq(n, _ => false)
  }

  /** `n` zero bytes. */
  function ZeroBytes(n: nat): (r: seq<bv8>)
    ensures |r| == n
  {
    seq(n, _ => 0)
  }

  /** `slice::rotate_right(n)`: byte `i` moves to `(i + n) % |s|`. */
  function RotatedRight(s: seq<bv8>, n: nat): (r: seq<bv8>)
    requires n <= |s|
    ensures |r| == |s|
  {
    s[|s| - n..] + s[..|s| - n]
  }

  lemma RotatedRightAt(s: seq<bv8>, n: nat, i: nat)
    requires n <= |s| && i < |s|
    ensures RotatedRight(s, n)[i] == if i >= n then s[i - n] else s[i + |s| - n]
  {}

  /** Clearing the bytes that wrapped around leaves the whole-byte shift. */
  lemma RotatedRightCleared(s: seq<bv8>, n: nat)
    requires n <= |s|
    ensures ZeroBytes(n) + RotatedRight(s, n)[n..] == ShiftBytes(s, n)
  {
    assert RotatedRight(s, n)[n..] == s[..|s| - n];
    ShiftBytesSplit(s, n);
  }

  /** Shifting by whole bytes is shifting the bits by eight times as much. */
  lemma ShiftBytesBits(s: seq<bv8>, n: nat)
    requires n <= |s|
    ensures Bits(ShiftBytes(s, n)) == ShlBits(Bits(s), 8 * n)
  {
    ShiftBytesBitsLow(s, n, |s| - n);
    ShiftBitsHigh(s, n, |s| - n);
  }

  lemma ShiftBytesBitsLow(s: seq<bv8>, n: nat, m: nat)
    requires n + m == |s|
    ensures Bits(ShiftBytes(s, n)) == NoBits(8 * n) + Bits(s[..m])
  {
    ShiftBytesSplit(s, n);
    BitsAppend(ZeroBytes(n), s[..m]);
    ZeroBytesBits(n);
  }

  lemma ShiftBitsHigh(s: seq<bv8>, n: nat, m: nat)
    requires n + m == |s|
    ensures NoBits(8 * n) + Bits(s[..m]) == ShlBits(Bits(s), 8 * n)
  {
    BitsPrefix(s, m);
    ShlBitsSplit(Bits(s), 8 * n, 8 * m);
  }

  lemma ShiftBytesSplit(s: seq<bv8>, n: nat)
    requires n <= |s|
    ensures ShiftBytes(s, n) == ZeroBytes(n) + s[..|s| - n]
  {}

  /** The bits of a prefix of the bytes are the matching prefix of the bits. */
  lemma BitsPrefix(s: seq<bv8>, m: nat)
    requires m <= |s|
    ensures Bits(s[..m]) == Bits(s)[..8 * m]
  {
    assert s == s[..m] + s[m..];
    BitsAppend(s[..m], s[m..]);
  }

  /** A shift is the cleared low bits followed by all but the top bits. */
  lemma ShlBitsSplit(a: seq<bool>, k: nat, m: nat)
    requires k + m == |a|
    ensures ShlBits(a, k) == NoBits(k) + a[..m]
  {}

  /** The bits of a one-byte set after the native `u8` shift. */
  lemma OneByteShl(b: bv8, k: nat)
    requires k < 8
    ensures Bits([b << k]) == ShlBits(Bits([b]), k)
  {
    var c := b << k;
    BitsSingle(c);
    BitsSingle(b);
    ByteShl(b, c, k);
  }

  lemma BitsSingle(b: bv8)
    ensures Bits([b]) == ByteBits(b)
  {
    assert [b][1..] == [];
  }

  lemma ByteShl(b: bv8, c: bv8, k: nat)
    requires k < 8 && c == b << k
    ensures ByteBits(c) == ShlBits(ByteBits(b), k)
  {
    forall i | 0 <= i < 8 ensures ByteBits(c)[i] == ShlBits(ByteBits(b), k)[i] {
      ShlBit(b, c, k, i);
      OneByteShlAt(b, c, k, i);
    }
  }

  lemma OneByteShlAt(b: bv8, c: bv8, k: nat, i: nat)
    requires k < 8 && i < 8 && Bit(c, i) == (k <= i && Bit(b, i - k))
    ensures ByteBits(c)[i] == (k <= i && ByteBits(b)[i - k])
  {
    ByteBitsAt(c, i);
    if k <= i { ByteBitsAt(b, i - k); }
  }

  /** Bit `j` of `b << k` is bit `j - k` of `b`, and false below `k`. */
  lemma ShlBit(b: bv8, c: bv8, k: nat, j: nat)
    requires k < 8 && j < 8 && c == b << k
    ensures Bit(c, j) == (k <= j && Bit(b, j - k))
  {
    if k == 0 {} else if k == 1 {} else if k == 2 {} else if k == 3 {}
    else if k == 4 {} else if k == 5 {} else if k == 6 {} else {}
  }

  lemma ShlZero(bits: seq<bool>)
    ensures ShlBits(bits, 0) == bits
  {}

  /** The first `j` bits of `bits` moved up by `k`, the rest cleared. */
  function ShiftedPrefix(bits: seq<bool>, k: nat, j: nat): (r: seq<bool>) {
    seq(|bits|, t requires 0 <= t < |bits| => k <= t < k + j && bits[t - k])
  }

  /** Once the prefix reaches the end, it is the full shift. */
  lemma ShiftedPrefixStart(bits: seq<bool>, k: nat)
    ensures ShiftedPrefix(bits, k, 0) == NoBits(|bits|)
  {}

  lemma ShiftedPrefixStep(bits: seq<bool>, k: nat, j: nat)
    requires k + j < |bits|
    ensures ShiftedPrefix(bits, k, j + 1)
         == if bits[j] then ShiftedPrefix(bits, k, j)[k + j := true] else ShiftedPrefix(bits, k, j)
  {}

  /** A set of zero bytes has no bit set. */
  lemma {:induction false} ZeroBytesBits(n: nat)
    ensures Bits(ZeroBytes(n)) == NoBits(8 * n)
  {
    if n != 0 {
      ZeroBytesBits(n - 1);
      assert ZeroBytes(n)[1..] == ZeroBytes(n - 1);
      assert ByteBits(0) == NoBits(8);
      assert NoBits(8) + NoBits(8 * (n - 1)) == NoBits(8 * n);
    }
  }

  lemma ShiftedPrefixDone(bits: seq<bool>, k: nat, j: nat)
    requires |bits| <= k + j
    ensures ShiftedPrefix(bits, k, j) == ShlBits(bits, k)
  {}

  // ---------------------------------------------------------------------
  // Whole-set predicates

  predicate AllBits(bs: seq<bool>) {
    forall i :: 0 <= i < |bs| ==> bs[i]
  }

  predicate SomeBit(bs: seq<bool>) {
    exists i :: 0 <= i < |bs| && bs[i]
  }

  /** What `all` computes: no byte is 0xFF. */
  predicate NoFullByte(s: seq<bv8>) {
    forall j :: 0 <= j < |s| ==> s[j] != 0xFF
  }

  /** Every bit is set exactly when every byte is 0xFF. */
  lemma {:induction false} AllBitsFullBytes(s: seq<bv8>)
    ensures AllBits(Bits(s)) <==> forall j :: 0 <= j < |s| ==> s[j] == 0xFF
  {
    if AllBits(Bits(s)) {
      forall j | 0 <= j < |s| ensures s[j] == 0xFF {
        forall k | 0 <= k < 8 ensures Bit(s[j], k) {
          BitsAt(s, 8 * j + k);
        }
        FullByte(s[j]);
      }
    }
    if forall j :: 0 <= j < |s| ==> s[j] == 0xFF {
      forall i | 0 <= i < 8 * |s| ensures Bits(s)[i] {
        BitsAt(s, i);
        FullByte(s[i / 8]);
      }
    }
  }

  /** Some bit is set exactly when some byte is nonzero. */
  lemma {:induction false} SomeBitNonzeroByte(s: seq<bv8>)
    ensures SomeBit(Bits(s)) <==> exists j :: 0 <= j < |s| && s[j] != 0
  {
    if SomeBit(Bits(s)) {
      var i :| 0 <= i < 8 * |s| && Bits(s)[i];
      BitsAt(s, i);
      ZeroByte(s[i / 8]);
    }
    if exists j :: 0 <= j < |s| && s[j] != 0 {
      var j :| 0 <= j < |s| && s[j] != 0;
      ZeroByte(s[j]);
      var k :| 0 <= k < 8 && Bit(s[j], k);
      BitsAt(s, 8 * j + k);
    }
  }

  /** `all` as written answers the opposite of its documentation: a full set is "not all". */
  lemma AllAsWrittenInverted()
    ensures AllBits(Bits([0xFF])) && !NoFullByte([0xFF])
    ensures !AllBits(Bits([0x00])) && NoFullByte([0x00])
  {
    AllBitsFullBytes([0xFF]);
    assert Bits([0x00])[0] == Bit(0x00, 0) by { BitsAt([0x00], 0); }
  }

  /** Counting finds nothing exactly when no bit is set. */
  lemma CountZeroIffNone(bs: seq<bool>)
    ensures CountTrue(bs) == 0 <==> !SomeBit(bs)
  {
    CountTrueZero(bs);
  }

  /** `get` on the bytes: bit `index % 8` of byte `index / 8`. */
  function GetBit(s: seq<bv8>, index: nat): (r: bool)
    requires index < 8 * |s|
    ensures r == Bits(s)[index]
  {
    var (bit, byte) := SplitIndex(|s|, index);
    BitsAtSplit(s, index, byte, bit);
    s[byte] & Mask(bit) != 0
  }

  // ---------------------------------------------------------------------
  // The set

  /** `BitSet<BYTES>`: the array holds `BYTES` little-endian bytes. */
  class BitSet {
    const bytes: array<bv8>

    /** The bits, lowest first. */
    function Value(): seq<bool>
      reads bytes
    {
      Bits(bytes[..])
    }

    /** `new`: a set over the given bytes. */
    constructor New(init: seq<bv8>)
      ensures fresh(bytes) && bytes[..] == init
    {
      bytes := new bv8[|init|](i requires 0 <= i < |init| => init[i]);
    }

    /** `From<uN>`: the little-endian bytes of `v`, so bit `i` of the set is bit `i` of `v`. */
    constructor FromUint(v: nat, n: nat)
      requires v < Pow2(8 * n)
      ensures fresh(bytes) && bytes[..] == LeBytes(v, n)
      ensures forall i :: 0 <= i < 8 * n ==> Value()[i] == IntBit(v, i)
    {
      var le := LeBytes(v, n);
      bytes := new bv8[n](i requires 0 <= i < n => le[i]);
      new;
      assert bytes[..] == le;
      forall i | 0 <= i < 8 * n ensures Value()[i] == IntBit(v, i) {
        LeBytesBits(v, n, i);
      }
    }

    /** `From<BitSet> for uN`: the integer whose little-endian bytes these are. */
    function ToUint(): (v: nat)
      reads bytes
      ensures v < Pow2(8 * bytes.Length)
      ensures LeBytes(v, bytes.Length) == bytes[..]
    {
      FromLeBytesBound(bytes[..]);
      LeBytesFromLeBytes(bytes[..]);
      FromLeBytes(bytes[..])
    }

    /** `Self::new(data)` over an array built by the caller. */
    constructor Wrap(data: array<bv8>)
      ensures bytes == data
    {
      bytes := data;
    }

    /** `Default`: every bit false. */
    constructor Default(n: nat)
      ensures fresh(bytes) && bytes.Length == n
      ensures Value() == NoBits(8 * n)
    {
      bytes := new bv8[n](i => 0);
      new;
      assert bytes[..] == ZeroBytes(n);
      ZeroBytesBits(n);
    }

    /** `get`: bit `index`. */
    function Get(index: nat): (r: bool)
      requires index < 8 * bytes.Length
      reads bytes
      ensures r == Value()[index]
    {
      GetBit(bytes[..], index)
    }

    /** `flip`: toggles bit `index` and nothing else. */
    method Flip(index: nat)
      requires index < 8 * bytes.Length
      modifies bytes
      ensures Value() == old(Value())[index := !old(Value())[index]]
    {
      var (bit, byte) := SplitIndex(bytes.Length, index);
      ghost var before := bytes[..];
      bytes[byte] := bytes[byte] ^ Mask(bit);
      assert bytes[..] == before[byte := before[byte] ^ Mask(bit)];
      FlipByte(before, byte, bit);
      BitsAtSplit(before, index, byte, bit);
    }

    /** `set`: bit `index` becomes `value`, every other bit is kept. */
    method Set(index: nat, value: bool)
      requires index < 8 * bytes.Length
      modifies bytes
      ensures Value() == old(Value())[index := value]
    {
      var (bit, byte) := SplitIndex(bytes.Length, index);
      ghost var before := bytes[..];
      var differs: bv8 := if value != Get(index) then 1 else 0;
      bytes[byte] := bytes[byte] ^ (differs << bit);
      assert bytes[..] == before[byte := before[byte] ^ (differs << bit)];
      SetByte(before, index, byte, bit, value, differs);
    }

    /** `count`: the number of set bits. */
    method Count() returns (count: nat)
      ensures count == CountTrue(Value())
    {
      count := 0;
      var i := 0;
      while i < bytes.Length
        invariant 0 <= i <= bytes.Length
        invariant count == CountTrue(Bits(bytes[..i]))
      {
        assert bytes[..i + 1] == bytes[..i] + [bytes[i]];
        BitsSnoc(bytes[..i], bytes[i]);
        CountTrueAppend(Bits(bytes[..i]), ByteBits(bytes[i]));
        count := count + PopCount(bytes[i]);
        i := i + 1;
      }
      assert bytes[..i] == bytes[..];
    }

    /** `all`, as written: false as soon as a byte is 0xFF, true otherwise. */
    method All() returns (r: bool)
      ensures r <==> NoFullByte(bytes[..])
    {
      var i := 0;
      while i < bytes.Length
        invariant 0 <= i <= bytes.Length
        invariant forall j :: 0 <= j < i ==> bytes[j] != 0xFF
      {
        if bytes[i] == 0xFF {
          return false;
        }
        i := i + 1;
      }
      return true;
    }

    /** `all` as documented: false as soon as a byte is not 0xFF, so true iff every bit is set. */
    method AllSet() returns (r: bool)
      ensures r <==> AllBits(Value())
    {
      AllBitsFullBytes(bytes[..]);
      var i := 0;
      while i < bytes.Length
        invariant 0 <= i <= bytes.Length
        invariant forall j :: 0 <= j < i ==> bytes[j] == 0xFF
      {
        if bytes[i] != 0xFF {
          return false;
        }
        i := i + 1;
      }
      return true;
    }

    /** `any`: true as soon as a byte is nonzero, so true iff some bit is set. */
    method Any() returns (r: bool)
      ensures r <==> SomeBit(Value())
    {
      SomeBitNonzeroByte(bytes[..]);
      var i := 0;
      while i < bytes.Length
        invariant 0 <= i <= bytes.Length
        invariant forall j :: 0 <= j < i ==> bytes[j] == 0
      {
        if bytes[i] > 0x00 {
          return true;
        }
        i := i + 1;
      }
      return false;
    }

    /** `none`: `!any`. */
    method None() returns (r: bool)
      ensures r <==> !SomeBit(Value())
    {
      var any := Any();
      r := !any;
    }

    /** `clear`: every bit false. */
    method Clear()
      modifies bytes
      ensures bytes[..] == ZeroBytes(bytes.Length)
      ensures Value() == NoBits(8 * bytes.Length)
    {
      forall i | 0 <= i < bytes.Length {
        bytes[i] := 0;
      }
      assert bytes[..] == ZeroBytes(bytes.Length);
      ZeroBytesBits(bytes.Length);
    }

    /** `union`: a new set with the bits of either. */
    method Union(other: BitSet) returns (r: BitSet)
      requires other.bytes.Length == bytes.Length
      ensures fresh(r) && fresh(r.bytes)
      ensures r.bytes[..] == OrBytes(bytes[..], other.bytes[..])
      ensures r.Value() == Or(Value(), other.Value())
    {
      var data := new bv8[bytes.Length](i requires 0 <= i < bytes.Length reads bytes => bytes[i]);
      ghost var mine, theirs := bytes[..], other.bytes[..];
      var i := 0;
      while i < data.Length
        invariant 0 <= i <= data.Length
        invariant forall j :: 0 <= j < i ==> data[j] == mine[j] | theirs[j]
        invariant forall j :: i <= j < data.Length ==> data[j] == mine[j]
      {
        data[i] := data[i] | other.bytes[i];
        i := i + 1;
      }
      assert data[..] == OrBytes(mine, theirs);
      r := new BitSet.Wrap(data);
      BitsOr(bytes[..], other.bytes[..]);
    }

    /** `intersection`: a new set with the bits of both. */
    method Intersection(other: BitSet) returns (r: BitSet)
      requires other.bytes.Length == bytes.Length
      ensures fresh(r) && fresh(r.bytes)
      ensures r.bytes[..] == AndBytes(bytes[..], other.bytes[..])
      ensures r.Value() == And(Value(), other.Value())
    {
      var data := new bv8[bytes.Length](i requires 0 <= i < bytes.Length reads bytes => bytes[i]);
      ghost var mine, theirs := bytes[..], other.bytes[..];
      var i := 0;
      while i < data.Length
        invariant 0 <= i <= data.Length
        invariant forall j :: 0 <= j < i ==> data[j] == mine[j] & theirs[j]
        invariant forall j :: i <= j < data.Length ==> data[j] == mine[j]
      {
        data[i] := data[i] & other.bytes[i];
        i := i + 1;
      }
      assert data[..] == AndBytes(mine, theirs);
      r := new BitSet.Wrap(data);
      BitsAnd(bytes[..], other.bytes[..]);
    }

    /** `&=`: byte by byte. */
    method AndAssign(rhs: BitSet)
      requires rhs.bytes.Length == bytes.Length && rhs.bytes != bytes
      modifies bytes
      ensures bytes[..] == AndBytes(old(bytes[..]), rhs.bytes[..])
      ensures Value() == And(old(Value()), rhs.Value())
    {
      ghost var before, theirs := bytes[..], rhs.bytes[..];
      var i := 0;
      while i < bytes.Length
        invariant 0 <= i <= bytes.Length
        invariant forall j :: 0 <= j < i ==> bytes[j] == before[j] & theirs[j]
        invariant forall j :: i <= j < bytes.Length ==> bytes[j] == before[j]
      {
        bytes[i] := bytes[i] & rhs.bytes[i];
        i := i + 1;
      }
      assert bytes[..] == AndBytes(before, theirs);
      BitsAnd(before, rhs.bytes[..]);
    }

    /** `|=`: byte by byte. */
    method OrAssign(rhs: BitSet)
      requires rhs.bytes.Length == bytes.Length && rhs.bytes != bytes
      modifies bytes
      ensures bytes[..] == OrBytes(old(bytes[..]), rhs.bytes[..])
      ensures Value() == Or(old(Value()), rhs.Value())
    {
      ghost var before, theirs := bytes[..], rhs.bytes[..];
      var i := 0;
      while i < bytes.Length
        invariant 0 <= i <= bytes.Length
        invariant forall j :: 0 <= j < i ==> bytes[j] == before[j] | theirs[j]
        invariant forall j :: i <= j < bytes.Length ==> bytes[j] == before[j]
      {
        bytes[i] := bytes[i] | rhs.bytes[i];
        i := i + 1;
      }
      assert bytes[..] == OrBytes(before, theirs);
      BitsOr(before, rhs.bytes[..]);
    }

    /** `^=`: byte by byte. */
    method XorAssign(rhs: BitSet)
      requires rhs.bytes.Length == bytes.Length && rhs.bytes != bytes
      modifies bytes
      ensures bytes[..] == XorBytes(old(bytes[..]), rhs.bytes[..])
      ensures Value() == Xor(old(Value()), rhs.Value())
    {
      ghost var before, theirs := bytes[..], rhs.bytes[..];
      var i := 0;
      while i < bytes.Length
        invariant 0 <= i <= bytes.Length
        invariant forall j :: 0 <= j < i ==> bytes[j] == before[j] ^ theirs[j]
        invariant forall j :: i <= j < bytes.Length ==> bytes[j] == before[j]
      {
        bytes[i] := bytes[i] ^ rhs.bytes[i];
        i := i + 1;
      }
      assert bytes[..] == XorBytes(before, theirs);
      BitsXor(before, rhs.bytes[..]);
    }

    /** A copy of the set, as `mut self` receives it. */
    method Copy() returns (r: BitSet)
      ensures fresh(r) && fresh(r.bytes) && r.bytes[..] == bytes[..]
    {
      r := new BitSet.New(bytes[..]);
    }

    /** `&`: `&=` on a copy. */
    method BitAnd(rhs: BitSet) returns (r: BitSet)
      requires rhs.bytes.Length == bytes.Length
      ensures fresh(r) && fresh(r.bytes) && r.Value() == And(Value(), rhs.Value())
    {
      r := Copy();
      r.AndAssign(rhs);
    }

    /** `|`: `|=` on a copy. */
    method BitOr(rhs: BitSet) returns (r: BitSet)
      requires rhs.bytes.Length == bytes.Length
      ensures fresh(r) && fresh(r.bytes) && r.Value() == Or(Value(), rhs.Value())
    {
      r := Copy();
      r.OrAssign(rhs);
    }

    /** `^`: `^=` on a copy. */
    method BitXor(rhs: BitSet) returns (r: BitSet)
      requires rhs.bytes.Length == bytes.Length
      ensures fresh(r) && fresh(r.bytes) && r.Value() == Xor(Value(), rhs.Value())
    {
      r := Copy();
      r.XorAssign(rhs);
    }

    /** `!`: a new set with every bit negated. */
    method Not() returns (r: BitSet)
      ensures fresh(r) && fresh(r.bytes)
      ensures r.bytes[..] == NotBytes(bytes[..])
      ensures r.Value() == Negate(Value())
    {
      var data := new bv8[bytes.Length](i requires 0 <= i < bytes.Length reads bytes => !bytes[i]);
      r := new BitSet.Wrap(data);
      assert r.bytes[..] == NotBytes(bytes[..]);
      BitsNot(bytes[..]);
    }

    /** `<<`: bit `i` takes bit `i - k`; the low `k` bits are cleared. */
    method Shl(k: nat)
      requires bytes.Length == 1 ==> k < 8
      requires bytes.Length != 1 ==> k <= 8 * bytes.Length
      modifies bytes
      ensures Value() == ShlBits(old(Value()), k)
    {
      if bytes.Length == 1 {
        ShlSingleByte(k);
      } else if k == 0 {
        ShlZero(Value());
      } else {
        var (sBits, sBytes) := SplitIndexAsWrittenChecked(bytes.Length, k);
        if sBits == 0 {
          assert k == 8 * sBytes;
          ShlWholeBytes(sBytes);
        } else {
          ShlBitByBit(k);
        }
      }
    }

    /** `<<` on a one-byte set: the native `u8` shift. */
    method ShlSingleByte(k: nat)
      requires bytes.Length == 1 && k < 8
      modifies bytes
      ensures Value() == ShlBits(old(Value()), k)
    {
      ghost var b0 := bytes[0];
      bytes[0] := bytes[0] << k;
      assert bytes[..] == [b0 << k];
      assert old(bytes[..]) == [b0];
      OneByteShl(b0, k);
    }

    /** `<<` by whole bytes: `rotate_right`, then the vacated low bytes are cleared. */
    method ShlWholeBytes(sBytes: nat)
      requires sBytes <= bytes.Length
      modifies bytes
      ensures Value() == ShlBits(old(Value()), 8 * sBytes)
    {
      var n := bytes.Length;
      var before := bytes[..];
      var i := 0;
      while i < n
        invariant 0 <= i <= n
        invariant forall j :: 0 <= j < i ==> bytes[j] == RotatedRight(before, sBytes)[j]
        invariant forall j :: i <= j < n ==> bytes[j] == before[j]
      {
        bytes[i] := if i >= sBytes then before[i - sBytes] else before[i + n - sBytes];
        RotatedRightAt(before, sBytes, i);
        i := i + 1;
      }
      ghost var rotated := bytes[..];
      assert rotated == RotatedRight(before, sBytes);
      forall j | 0 <= j < sBytes {
        bytes[j] := 0;
      }
      assert bytes[..] == ZeroBytes(sBytes) + rotated[sBytes..];
      RotatedRightCleared(before, sBytes);
      ShiftBytesBits(before, sBytes);
    }

    /** `<<` within bytes: start from an empty set and set bit `k + j` for every set bit `j` that still fits. */
    method ShlBitByBit(k: nat)
      modifies bytes
      ensures Value() == ShlBits(old(Value()), k)
    {
      var n := bytes.Length;
      var oldBits := Value();
      forall j | 0 <= j < n {
        bytes[j] := 0;
      }
      assert bytes[..] == ZeroBytes(n);
      ZeroBytesBits(n);
      ShiftedPrefixStart(oldBits, k);
      var j := 0;
      while j < 8 * n && k + j < 8 * n
        invariant 0 <= j <= 8 * n
        invariant Value() == ShiftedPrefix(oldBits, k, j)
      {
        ShiftedPrefixStep(oldBits, k, j);
        if oldBits[j] {
          Set(k + j, true);
        }
        j := j + 1;
      }
      ShiftedPrefixDone(oldBits, k, j);
    }

    /** `From<BitSet> for [[bool; 8]; BYTES]`: the bits in groups of eight, one group per byte. */
    function BoolArrays(): (r: seq<seq<bool>>)
      reads bytes
      ensures |r| == bytes.Length
      ensures forall i :: 0 <= i < |r| ==> r[i] == ByteBits(bytes[i])
    {
      GroupsOfEightBits(bytes[..]);
      GroupsOfEight(Value())
    }

    /** `into_iter`: an iterator over all `8 * BYTES` bits, lowest first. */
    method IntoIter() returns (it: IterWrapper)
      ensures fresh(it) && it.Valid()
      ensures it.Remaining() == Value()
    {
      it := new IterWrapper(bytes[..], 0, 8 * bytes.Length);
    }
  }

  /** `IterWrapper`: yields the bits of its set (held as `bytes`) from `pos` up to, not including, `end`. */
  class IterWrapper {
    const bytes: seq<bv8>
    var pos: nat
    var end: nat

    ghost predicate Valid()
      reads this
    {
      pos <= end <= 8 * |bytes|
    }

    /** The bits still to come, front first. */
    ghost function Remaining(): (r: seq<bool>)
      reads this
      requires Valid()
      ensures |r| == end - pos
    {
      Bits(bytes)[pos..end]
    }

    constructor (bytes: seq<bv8>, pos: nat, end: nat)
      requires pos <= end <= 8 * |bytes|
      ensures this.bytes == bytes && this.pos == pos && this.end == end
      ensures Valid()
    {
      this.bytes, this.pos, this.end := bytes, pos, end;
    }

    /** `next`: the front bit, or `None` once `pos` reaches `end`. */
    method Next() returns (r: Option<bool>)
      requires Valid()
      modifies this
      ensures Valid()
      ensures old(pos) >= old(end) ==> r == None && pos == old(pos) && end == old(end)
      ensures old(pos) < old(end) ==> r == Some(old(Remaining())[0]) && Remaining() == old(Remaining())[1..]
    {
      if pos >= end {
        return None;
      }
      pos := pos + 1;
      r := Some(GetBit(bytes, pos - 1));
    }

    /** `next_back`: the back bit, or `None` once `pos` reaches `end`. */
    method NextBack() returns (r: Option<bool>)
      requires Valid()
      modifies this
      ensures Valid()
      ensures old(pos) >= old(end) ==> r == None && pos == old(pos) && end == old(end)
      ensures old(pos) < old(end) ==> r == Some(old(Remaining())[old(end) - old(pos) - 1])
      ensures old(pos) < old(end) ==> Remaining() == old(Remaining())[..old(end) - old(pos) - 1]
    {
      if pos >= end {
        return None;
      }
      end := end - 1;
      r := Some(GetBit(bytes, end));
      assert Bits(bytes)[pos..end] == Bits(bytes)[pos..end + 1][..end - pos];
    }

    /** `size_hint`: exactly the number of bits still to come, as both bounds. */
    function SizeHint(): (r: (nat, Option<nat>))
      reads this
      requires Valid()
      ensures r.0 == |Remaining()| && r.1 == Some(r.0)
    {
      var len := end - pos;
      (len, Some(len))
    }
  }

  /** Flipping with the bit's mask changes exactly that bit. */
  lemma FlipByte(s: seq<bv8>, byte: nat, bit: nat)
    requires byte < |s| && bit < 8
    ensures Bits(s[byte := s[byte] ^ Mask(bit)]) == Bits(s)[8 * byte + bit := !Bit(s[byte], bit)]
  {
    var b0 := s[byte];
    forall k | 0 <= k < 8
      ensures Bit(b0 ^ Mask(bit), k) == (if k == bit then !Bit(b0, bit) else Bit(b0, k))
    {
      if k == bit { XorSame(b0, bit); } else { XorOther(b0, bit, k); }
    }
    BitsUpdate(s, byte, bit, b0 ^ Mask(bit), !Bit(b0, bit));
  }

  /** `set`'s update: xor-ing in the flag "value differs from the bit" sets the bit to `value`. */
  lemma SetByte(s: seq<bv8>, index: nat, byte: nat, bit: nat, value: bool, differs: bv8)
    requires byte < |s| && bit < 8 && index == 8 * byte + bit
    requires differs == if value != Bits(s)[index] then 1 else 0
    ensures Bits(s[byte := s[byte] ^ (differs << bit)]) == Bits(s)[index := value]
  {
    BitsAtSplit(s, index, byte, bit);
    if differs == 1 {
      SetByteFlip(s, byte, bit, value, differs);
    } else {
      SetByteKeep(s, byte, bit, value, differs);
    }
  }

  /** `set`'s update when the bit changes: the flag shifted into place is the bit's mask. */
  lemma SetByteFlip(s: seq<bv8>, byte: nat, bit: nat, value: bool, differs: bv8)
    requires byte < |s| && bit < 8 && value != Bit(s[byte], bit) && differs == 1
    ensures Bits(s[byte := s[byte] ^ (differs << bit)]) == Bits(s)[8 * byte + bit := value]
  {
    assert differs << bit == Mask(bit) by { MaskIsShift(bit); }
    FlipByte(s, byte, bit);
  }

  /** `set`'s update when the bit already has the value: the shifted flag is zero. */
  lemma SetByteKeep(s: seq<bv8>, byte: nat, bit: nat, value: bool, differs: bv8)
    requires byte < |s| && bit < 8 && value == Bit(s[byte], bit) && differs == 0
    ensures Bits(s[byte := s[byte] ^ (differs << bit)]) == Bits(s)[8 * byte + bit := value]
  {
    assert differs << bit == 0 by { ZeroShift(bit); }
    assert s[byte := s[byte] ^ 0] == s;
    BitsAtSplit(s, 8 * byte + bit, byte, bit);
    assert Bits(s)[8 * byte + bit := value] == Bits(s);
  }

  /** `split_index` where the shift amount has already passed `is_in_bounds`. */
  function SplitIndexAsWrittenChecked(bytes: nat, index: nat): (r: (nat, nat))
    requires index <= 8 * bytes
    ensures r.0 < 8 && r.1 <= bytes && index == 8 * r.1 + r.0
    ensures SplitIndexAsWritten(bytes, index) == Some(r)
  {
    (index % 8, index / 8)
  }

  lemma ZeroShift(k: nat)
    requires k < 8
    ensures (0 as bv8) << k == 0
  {}

  /** Consecutive groups of eight. */
  function GroupsOfEight(bs: seq<bool>): (r: seq<seq<bool>>)
    requires |bs| % 8 == 0
    ensures |r| == |bs| / 8
    decreases |bs|
  {
    if bs == [] then [] else [bs[..8]] + GroupsOfEight(bs[8..])
  }

  /** Concatenating the groups gives the bits back. */
  function Flatten(groups: seq<seq<bool>>): seq<bool> {
    if groups == [] then [] else groups[0] + Flatten(groups[1..])
  }

  lemma {:induction false} FlattenGroupsOfEight(bs: seq<bool>)
    requires |bs| % 8 == 0
    ensures Flatten(GroupsOfEight(bs)) == bs
    decreases |bs|
  {
    if bs != [] {
      FlattenGroupsOfEight(bs[8..]);
      assert GroupsOfEight(bs)[1..] == GroupsOfEight(bs[8..]);
      assert bs == bs[..8] + bs[8..];
    }
  }

  /** The groups of a byte array's bits are the bytes' bits. */
  lemma {:induction false} GroupsOfEightBits(s: seq<bv8>)
    ensures forall i :: 0 <= i < |s| ==> GroupsOfEight(Bits(s))[i] == ByteBits(s[i])
  {
    if s != [] {
      GroupsOfEightBits(s[1..]);
      var b := Bits(s);
      assert b[..8] == ByteBits(s[0]) && b[8..] == Bits(s[1..]);
      forall i | 1 <= i < |s| ensures GroupsOfEight(b)[i] == ByteBits(s[i]) {
        assert GroupsOfEight(b)[i] == GroupsOfEight(Bits(s[1..]))[i - 1];
        assert s[1..][i - 1] == s[i];
      }
    }
  }

  // ---------------------------------------------------------------------
  // The unit tests of `bit_set.rs`, stated on the model

  lemma BitsPair(a: bv8, b: bv8)
    ensures Bits([a, b]) == ByteBits(a) + ByteBits(b)
  {
    assert [a, b][1..] == [b];
    BitsSingle(b);
  }

  /** `get`: `from(0xF00F)` has bits 0-3 and 12-15, `from(0x00FF)` bits 0-7. */
  lemma GetExample()
    ensures forall i :: 0 <= i < 16 ==> Bits(LeBytes(0xF00F, 2))[i] == (i < 4 || 12 <= i)
    ensures forall i :: 0 <= i < 16 ==> Bits(LeBytes(0x00FF, 2))[i] == (i < 8)
  {
    LeBytesOf([0x0F, 0xF0], 0xF00F);
    LeBytesOf([0xFF, 0x00], 0x00FF);
    BitsPair(0x0F, 0xF0);
    BitsPair(0xFF, 0x00);
  }

  /** `set`: 0xAA00 with bit 10 set is 0xAE00, then with bit 11 cleared is 0xA600. */
  lemma SetExample()
    ensures Bits(LeBytes(0xAA00, 2))[10 := true] == Bits(LeBytes(0xAE00, 2))
    ensures Bits(LeBytes(0xAE00, 2))[11 := false] == Bits(LeBytes(0xA600, 2))
  {
    LeBytesOf([0x00, 0xAA], 0xAA00);
    LeBytesOf([0x00, 0xAE], 0xAE00);
    LeBytesOf([0x00, 0xA6], 0xA600);
    BitsPair(0x00, 0xAA);
    BitsPair(0x00, 0xAE);
    BitsPair(0x00, 0xA6);
  }

  /** `union`: 0b1010_1010 | 0b0000_1111 is 0b1010_1111. */
  lemma UnionExample()
    ensures Or(Bits([0xAA]), Bits([0x0F])) == Bits([0xAF])
  {
    BitsSingle(0xAA);
    BitsSingle(0x0F);
    BitsSingle(0xAF);
  }

  /** The bytes of a constant, read off by `from_le_bytes` instead of divided out. */
  lemma LeBytesOf(s: seq<bv8>, v: nat)
    requires FromLeBytes(s) == v
    ensures LeBytes(v, |s|) == s
  {
    LeBytesFromLeBytes(s);
  }

  /** `shift`, first case: 0x04030201 << 8 is 0x03020100. */
  lemma ShiftBytesExample()
    ensures ShlBits(Bits(LeBytes(0x04030201, 4)), 8) == Bits(LeBytes(0x03020100, 4))
  {
    LeBytesOf([1, 2, 3, 4], 0x04030201);
    LeBytesOf([0, 1, 2, 3], 0x03020100);
    assert ShiftBytes([1, 2, 3, 4], 1) == [0, 1, 2, 3];
    ShiftBytesBits([1, 2, 3, 4], 1);
  }

  /** `shift`, second case: 0xFFC1 << 9 is 0x8200. */
  lemma ShiftBitsExample()
    ensures ShlBits(Bits(LeBytes(0xFFC1, 2)), 9) == Bits(LeBytes(0x8200, 2))
  {
    LeBytesOf([0xC1, 0xFF], 0xFFC1);
    LeBytesOf([0x00, 0x82], 0x8200);
    BitsPair(0xC1, 0xFF);
    BitsPair(0x00, 0x82);
  }
}
