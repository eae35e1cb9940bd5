/** Integers and block descriptors as option values (section 3.2 of RFC 7252 and section 2.2 of RFC 7959). */
module CoapInt {
  import opened Octets
  import opened Arith

  /** The shortest big-endian form of a 32-bit number; zero has no bytes. */
  function IntBytes(v: nat): (b: seq<byte>)
    ensures |b| <= 4
  {
    (if v >= 0x100_0000 then [v / 0x100_0000 % 256] else [])
    + (if v >= 0x1_0000 then [v / 0x1_0000 % 256] else [])
    + (if v >= 0x100 then [v / 0x100 % 256] else [])
    + (if v >= 1 then [v % 256] else [])
  }

  /** coap_parse_int_option, as a function of the bytes. */
  function IntValue(b: seq<byte>): (v: nat)
    ensures v < WIDE
  {
    if b == [] then 0 else (IntValue(b[..|b| - 1]) * 256 + b[|b| - 1]) % WIDE
  }

  lemma IntValue1(a: byte)
    ensures IntValue([a]) == a
  {
    assert [a][..0] == [];
  }

  lemma IntValueNext(b: seq<byte>, a: byte)
    ensures IntValue(b + [a]) == (IntValue(b) * 256 + a) % WIDE
  {
    assert (b + [a])[..|b|] == b;
  }

  lemma IntValue2(a: byte, b: byte)
    ensures IntValue([a] + [b]) == 256 * a + b
  {
    hide IntValue;
    IntValue1(a);
    IntValueNext([a], b);
  }

  lemma IntValue3(a: byte, b: byte, c: byte)
    ensures IntValue([a] + [b] + [c]) == 256 * (256 * a + b) + c
  {
    hide IntValue;
    IntValue2(a, b);
    IntValueNext([a] + [b], c);
  }

  lemma IntValue4(a: byte, b: byte, c: byte, d: byte)
    ensures IntValue([a] + [b] + [c] + [d]) == 256 * (256 * (256 * a + b) + c) + d
  {
    hide IntValue;
    IntValue3(a, b, c);
    IntValueNext([a] + [b] + [c], d);
  }

  /** Every 32-bit number is read back from its option value. */
  lemma IntBack(v: nat)
    requires v < WIDE
    ensures IntValue(IntBytes(v)) == v
  {
    hide IntValue;
    var b3: byte, b2: byte, b1: byte, b0: byte := v / 0x100_0000 % 256, v / 0x1_0000 % 256, v / 0x100 % 256, v % 256;
    BytesOf(v);
    Four(v);
    if v >= 0x100_0000 {
      IntValue4(b3, b2, b1, b0);
    } else if v >= 0x1_0000 {
      IntValue3(b2, b1, b0);
    } else if v >= 0x100 {
      IntValue2(b1, b0);
    } else if v >= 1 {
      IntValue1(b0);
    } else {
      IntValue0();
    }
  }

  lemma IntValue0()
    ensures IntValue([]) == 0
  {
  }

  lemma BytesOf(v: nat)
    requires v < WIDE
    ensures var b3: byte, b2: byte := v / 0x100_0000 % 256, v / 0x1_0000 % 256;
      var b1: byte, b0: byte := v / 0x100 % 256, v % 256;
      IntBytes(v) ==
        if v >= 0x100_0000 then [b3] + [b2] + [b1] + [b0]
        else if v >= 0x1_0000 then [b2] + [b1] + [b0]
        else if v >= 0x100 then [b1] + [b0]
        else if v >= 1 then [b0]
        else []
  {
  }

  lemma Four(v: nat)
    requires v < WIDE
    ensures v / 0x100 % 256 + 256 * (v / 0x1_0000 % 256 + 256 * (v / 0x100_0000 % 256)) == v / 0x100
    ensures 256 * (v / 0x100) + v % 256 == v
  {
    var q := v / 0x100;
    assert v / 0x1_0000 == q / 0x100 && v / 0x100_0000 == q / 0x1_0000;
    assert q == 256 * (q / 256) + q % 256;
    assert q / 256 == 256 * (q / 0x1_0000) + q / 256 % 256;
  }

  /** k is the binary logarithm of v, rounded down; 0 has logarithm 0. */
  predicate IsLog(v: nat, k: nat) {
    if v == 0 then k == 0 else Pow2(k) <= v < Pow2(k + 1)
  }

  /** coap_log_2. */
  method Log2(value: nat) returns (r: nat)
    requires value < 0x1_0000
    ensures IsLog(value, r)
  {
    var v, result := value, 0;
    v := v / 2;
    result := result + 1;
    while v != 0
      invariant result >= 1 && (value == 0 ==> v == 0 && result == 1)
      invariant value > 0 ==> v == value / Pow2(result) && value >= Pow2(result - 1)
      decreases v
    {
      HalfAgain(value, Pow2(result));
      v := v / 2;
      result := result + 1;
    }
    if value > 0 {
      Below(value, Pow2(result));
    }
    return result - 1;
  }

  lemma HalfAgain(v: nat, p: nat)
    requires p > 0
    ensures v / p / 2 == v / (2 * p) && (v / p >= 1 ==> v >= p)
  {
    DivParts(v, p);
    MulMono(0, v / p, p);
    HalfOf(v, v / p, v % p, p);
    if v / p >= 1 {
      MulMono(1, v / p, p);
    }
  }

  lemma HalfOf(v: nat, q: nat, r: nat, p: nat)
    requires v == q * p + r && r < p
    ensures v / (2 * p) == q / 2
  {
    if q % 2 == 0 {
      Twice(q / 2, p, 0);
      DivUnique(v, q / 2, r, 2 * p);
    } else {
      Twice(q / 2, p, 1);
      DivUnique(v, q / 2, p + r, 2 * p);
    }
  }

  lemma Twice(h: nat, p: nat, e: nat)
    ensures (2 * h + e) * p == h * (2 * p) + e * p
  {
  }

  lemma Below(v: nat, p: nat)
    requires p > 0 && v / p == 0
    ensures v < p
  {
  }

  datatype Block = Block(num: nat, more: bool, size: nat, offset: nat)

  /** The logarithm of the size in units of 16 bytes. */
  function SizeExponent(size: nat): (k: nat)
    requires size < 0x1_0000
    ensures IsLog(size / 16, k) && k <= 11
  {
    var s := size / 16;
    if s < 2 then 0 else if s < 4 then 1 else if s < 8 then 2 else if s < 16 then 3 else if s < 32 then 4
    else if s < 64 then 5 else if s < 128 then 6 else if s < 256 then 7 else if s < 512 then 8
    else if s < 1024 then 9 else if s < 2048 then 10
    else assert Pow2(11) == 2048; 11
  }

  lemma ByteFits(v: nat)
    ensures v * 256 % WIDE <= WIDE - 256
  {
  }

  lemma Sixteens(n: nat)
    ensures n * 16 % WIDE <= WIDE - 16
  {
  }

  /** The option value: number, more flag and size exponent; the flag's bit is also bit 3 of the exponent. */
  function BlockValue(b: Block): (v: nat)
    requires b.size < 0x1_0000
    ensures v < WIDE
  {
    var k := SizeExponent(b.size);
    Sixteens(b.num);
    b.num * 16 % WIDE + (if b.more || k >= 8 then 8 else 0) + k % 8
  }

  /** The block an option value describes. */
  function ParseBlock(v: nat): Block {
    var k := v % 8;
    Block(v / 16, v / 8 % 2 == 1, 16 * Pow2(k), v / 16 * 16 * Pow2(k) % WIDE)
  }

  predicate IsBlockSize(size: nat) {
    size == 16 || size == 32 || size == 64 || size == 128 || size == 256 || size == 512 || size == 1024 || size == 2048
  }

  lemma Powers()
    ensures Pow2(1) == 2 && Pow2(2) == 4 && Pow2(3) == 8 && Pow2(4) == 16 && Pow2(5) == 32 && Pow2(6) == 64
    ensures Pow2(7) == 128
  {
    assert Pow2(3) == 2 * Pow2(2);
    assert Pow2(5) == 2 * Pow2(4);
    assert Pow2(7) == 2 * Pow2(6);
  }

  lemma LogUnique(v: nat, j: nat, k: nat)
    requires IsLog(v, j) && IsLog(v, k)
    ensures j == k
  {
    if j < k {
      Grows(j + 1, k);
    } else if k < j {
      Grows(k + 1, j);
    }
  }

  lemma {:induction false} Grows(a: nat, b: nat)
    requires a <= b
    ensures Pow2(a) <= Pow2(b)
  {
    if a < b {
      Grows(a, b - 1);
    }
  }

  /**
   * A block descriptor is read back exactly when its number has 28 bits, its size is a power of two from 16 to 2048,
   * and its offset is where its number puts it.
   */
  lemma BlockBack(b: Block)
    requires b.size < 0x1_0000
    ensures ParseBlock(BlockValue(b)) == b <==>
      b.num < 0x1000_0000 && IsBlockSize(b.size) && b.offset == b.num * b.size % WIDE
  {
    hide SizeExponent, Pow2;
    var k := SizeExponent(b.size);
    var n := b.num % 0x1000_0000;
    BlockParts(b);
    if IsBlockSize(b.size) {
      SizeBack(b.size);
      OffsetOf(n, Pow2(k));
    } else {
      NotASize(b.size, k);
    }
  }

  /** The parts of an option value. */
  lemma BlockParts(b: Block)
    requires b.size < 0x1_0000
    ensures var k, n := SizeExponent(b.size), b.num % 0x1000_0000;
      ParseBlock(BlockValue(b)) == Block(n, b.more || k >= 8, 16 * Pow2(k % 8), n * 16 * Pow2(k % 8) % WIDE)
  {
    hide SizeExponent, Pow2;
    var k := SizeExponent(b.size);
    var bit := if b.more || k >= 8 then 1 else 0;
    Shifted(b.num, bit * 8 + k % 8);
    Flag(b.num * 16 % WIDE, bit, k % 8);
  }

  lemma SizeBack(size: nat)
    requires IsBlockSize(size)
    ensures SizeExponent(size) < 8 && 16 * Pow2(SizeExponent(size)) == size
  {
    Powers();
  }

  lemma Shifted(n: nat, low: nat)
    requires low < 16
    ensures (n * 16 % WIDE + low) / 16 == n % 0x1000_0000 && (n * 16 % WIDE) % 16 == 0
  {
    assert n * 16 % WIDE == n % 0x1000_0000 * 16;
  }

  lemma Flag(high: nat, bit: nat, low: nat)
    requires high % 16 == 0 && bit < 2 && low < 8
    ensures (high + bit * 8 + low) / 8 % 2 == bit && (high + bit * 8 + low) % 8 == low
  {
  }

  lemma OffsetOf(n: nat, p: nat)
    ensures n * 16 * p == n * (16 * p)
  {
  }

  lemma NotASize(size: nat, k: nat)
    requires size < 0x1_0000 && k == SizeExponent(size) && !IsBlockSize(size)
    ensures 16 * Pow2(k % 8) != size
  {
    Powers();
  }

  /** Up to 20 bits of block number, the offset does not wrap. */
  lemma OffsetExact(b: Block)
    requires b.num <= 0xF_FFFF && IsBlockSize(b.size) && b.offset == b.num * b.size
    ensures ParseBlock(BlockValue(b)) == b
  {
    assert b.num * b.size <= 0xF_FFFF * 2048;
    BlockBack(b);
  }
}
