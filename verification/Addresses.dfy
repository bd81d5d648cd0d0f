/** IPv6 addresses as 16 bytes, and the number they spell in network order. */
module Addresses {
  import opened Words

  type Bytes = seq<Byte>
  type Addr = a: Bytes | |a| == 16 witness [0, 0, 0, 0, 0, 0, 0, 0, 0, 0, 0, 0, 0, 0, 0, 0]

  /** Big-endian value of a byte string. */
  function BE(s: Bytes): nat {
    if |s| == 0 then 0 else BE(s[..|s| - 1]) * 256 + s[|s| - 1]
  }

  /** The n-byte big-endian encoding of the low 8n bits of v. */
  function ToBE(v: nat, n: nat): (s: Bytes)
    ensures |s| == n
    decreases v, n
  {
    if n == 0 then [] else ToBE(v / 256, n - 1) + [v % 256]
  }

  lemma {:induction false} DecodeEncode(v: nat, n: nat)
    requires v < Pow2(8 * n)
    ensures BE(ToBE(v, n)) == v
    decreases n
  {
    hide Pow2;
    PowZero();
    if n > 0 {
      Pow2Byte(8 * (n - 1));
      DecodeEncode(v / 256, n - 1);
    }
  }

  lemma {:induction false} EncodeDecode(s: Bytes)
    ensures ToBE(BE(s), |s|) == s
  {
    if |s| > 0 {
      var c, last := s[..|s| - 1], s[|s| - 1];
      EncodeDecode(c);
      assert BE(s) / 256 == BE(c) && BE(s) % 256 == last;
      assert s == c + [last];
    }
  }

  lemma {:induction false} BEBound(s: Bytes)
    ensures BE(s) < Pow2(8 * |s|)
  {
    if |s| > 0 {
      var c := s[..|s| - 1];
      BEBound(c);
      Pow2Byte(8 * |c|);
    }
  }

  lemma {:induction false} BEConcat(a: Bytes, b: Bytes)
    ensures BE(a + b) == Shl(BE(a), 8 * |b|) + BE(b)
    decreases |b|
  {
    if |b| == 0 {
      assert a + b == a;
    } else {
      var c := b[..|b| - 1];
      assert (a + b)[..|a + b| - 1] == a + c;
      BEConcat(a, c);
      ShlShl(BE(a), 8 * |c|, 8);
      ShlByte(Shl(BE(a), 8 * |c|));
    }
  }

  lemma ShlByte(x: nat)
    ensures Shl(x, 8) == 256 * x
  {
    assert Shl(x, 1) == 2 * x;
    assert Shl(x, 2) == 4 * x;
    assert Shl(x, 4) == 4 * Shl(x, 2);
    assert Shl(x, 6) == 4 * Shl(x, 4);
    assert Shl(x, 8) == 4 * Shl(x, 6);
  }

  /** The whole address as a 128-bit number. */
  function Num(a: Addr): (n: nat)
    ensures n < W128
  {
    Pow2Values();
    BEBound(a);
    BE(a)
  }

  function FromNum(n: nat): Addr { ToBE(n, 16) }

  lemma NumFromNum(n: nat)
    requires n < W128
    ensures Num(FromNum(n)) == n
  {
    Pow2Values();
    DecodeEncode(n, 16);
  }

  lemma FromNumNum(a: Addr)
    ensures FromNum(Num(a)) == a
  {
    EncodeDecode(a);
  }

  /** The 64-bit words the source reads and writes with encoding/binary. */
  lemma WordBounds(s: Bytes)
    requires |s| == 8
    ensures BE(s) < W64
  {
    Pow2Values();
    BEBound(s);
  }

  function HiWord(a: Addr): Word { WordBounds(a[..8]); BE(a[..8]) }
  function LoWord(a: Addr): Word { WordBounds(a[8..]); BE(a[8..]) }

  lemma NumWords(a: Addr)
    ensures Num(a) == Shl(HiWord(a), 64) + LoWord(a)
    ensures Shr(Num(a), 64) == HiWord(a) && Low(Num(a), 64) == LoWord(a)
  {
    hide Pow2, Low, Shl;
    assert a == a[..8] + a[8..];
    BEConcat(a[..8], a[8..]);
    Pow2Values();
    SplitUnique(HiWord(a), LoWord(a), 64);
  }

  /** Address bit j, counted from the most significant bit of the first byte. */
  predicate AddrBit(s: Bytes, j: nat)
    requires j < 8 * |s|
  {
    Bit(s[j / 8], 7 - j % 8)
  }

  lemma {:induction false} BEBit(s: Bytes, j: nat)
    requires j < 8 * |s|
    ensures AddrBit(s, j) == Bit(BE(s), 8 * |s| - 1 - j)
  {
    hide Pow2, Bit;
    var c := s[..|s| - 1];
    var last := s[|s| - 1];
    Pow2Values();
    ShlByte(BE(c));
    BitSplit(BE(c), last, 8, 8 * |s| - 1 - j);
    if j < 8 * |c| {
      BEBit(c, j);
      assert c[j / 8] == s[j / 8];
    }
  }

  /** The first n bits of an address, as a number: the /n group it lies in. */
  function Group(a: Addr, n: nat): nat
    requires n <= 128
  {
    Shr(Num(a), 128 - n)
  }

  /** `a` lies inside the first `bits` bits of `prefix`. */
  predicate InPrefix(a: Addr, prefix: Addr, bits: nat)
    requires bits <= 128
  {
    Group(a, bits) == Group(prefix, bits)
  }

  lemma GroupBit(a: Addr, bits: nat, j: nat)
    requires j < bits <= 128
    ensures AddrBit(a, j) == Bit(Group(a, bits), bits - 1 - j)
  {
    BEBit(a, j);
    BitShr(Num(a), 128 - bits, bits - 1 - j);
  }

  /** Lying in a prefix means agreeing with it on each of its leading bits. */
  lemma InPrefixBits(a: Addr, prefix: Addr, bits: nat)
    requires bits <= 128
    ensures InPrefix(a, prefix, bits)
       <==> forall j | 0 <= j < bits :: AddrBit(a, j) == AddrBit(prefix, j)
  {
    forall j | 0 <= j < bits
      ensures InPrefix(a, prefix, bits) ==> AddrBit(a, j) == AddrBit(prefix, j)
    {
      GroupBit(a, bits, j);
      GroupBit(prefix, bits, j);
    }
    if forall j | 0 <= j < bits :: AddrBit(a, j) == AddrBit(prefix, j) {
      SamePrefix(a, prefix, bits);
    }
  }

  lemma SamePrefix(a: Addr, prefix: Addr, bits: nat)
    requires bits <= 128
    requires forall j | 0 <= j < bits :: AddrBit(a, j) == AddrBit(prefix, j)
    ensures InPrefix(a, prefix, bits)
  {
    hide Pow2, Bit;
    GroupBound(a, bits);
    GroupBound(prefix, bits);
    forall k | 0 <= k < bits
      ensures Bit(Group(a, bits), k) == Bit(Group(prefix, bits), k)
    {
      GroupBit(a, bits, bits - 1 - k);
      GroupBit(prefix, bits, bits - 1 - k);
    }
    BitExt(Group(a, bits), Group(prefix, bits), bits);
  }

  lemma GroupBound(a: Addr, n: nat)
    requires n <= 128
    ensures Group(a, n) < Pow2(n)
  {
    Pow2Values();
    LowOfSmall(Num(a), 128);
    ShrLow(Num(a), 128 - n, 128);
    Split(Shr(Num(a), 128 - n), n);
  }

  /** Addresses with the same 128 bits are equal. */
  lemma AddrExt(a: Addr, b: Addr)
    requires forall j | 0 <= j < 128 :: AddrBit(a, j) == AddrBit(b, j)
    ensures a == b
  {
    InPrefixBits(a, b, 128);
    FromNumNum(a);
    FromNumNum(b);
  }
}
