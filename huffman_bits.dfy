/** The bit stream of the compressed strings: bits are packed into bytes
    low bit first, eight to a byte, the last byte padded with clear high
    bits; the reader finds bit i at `data[i / 8] & (1 << (i % 8))`. */
module HuffmanBits {
  import opened Primitives

  function Pow2(k: nat): (p: nat)
    ensures p >= 1
  {
    if k == 0 then 1 else 2 * Pow2(k - 1)
  }

  /** The number whose bit k is bits[k]. */
  function ByteOf(bits: seq<bool>): (x: nat)
    ensures x < Pow2(|bits|)
  {
    if bits == [] then 0 else (if bits[0] then 1 else 0) + 2 * ByteOf(bits[1..])
  }

  /** Whether `x & (1 << k)` is non-zero. */
  function TestBit(x: nat, k: nat): bool
  {
    if k == 0 then x % 2 == 1 else TestBit(x / 2, k - 1)
  }

  /** The bytes of a bit stream: full groups of eight, then the rest. */
  function Pack(bits: seq<bool>): (data: seq<byte>)
  {
    if bits == [] then []
    else if |bits| <= 8 then
      assert Pow2(|bits|) <= Pow2(8) by { PowMono(|bits|, 8); }
      [ByteOf(bits)]
    else
      assert Pow2(8) == 256;
      [ByteOf(bits[..8])] + Pack(bits[8..])
  }

  /** Eight bits to a byte, the last one possibly partial. */
  lemma {:induction false} PackLength(bits: seq<bool>)
    ensures |Pack(bits)| == (|bits| + 7) / 8
    decreases |bits|
  {
    if |bits| > 8 {
      PackLength(bits[8..]);
    }
  }

  /** Bit i of the stream, as the decompressor reads it. */
  function BitAt(data: seq<byte>, i: nat): bool
    requires i / 8 < |data|
  {
    TestBit(data[i / 8], i % 8)
  }

  lemma {:induction false} PowMono(j: nat, k: nat)
    requires j <= k
    ensures Pow2(j) <= Pow2(k)
  {
    if j < k {
      PowMono(j, k - 1);
    }
  }

  /** One more bit on top. */
  lemma {:induction false} ByteOfSnoc(bits: seq<bool>, b: bool)
    ensures ByteOf(bits + [b]) == ByteOf(bits) + if b then Pow2(|bits|) else 0
  {
    if bits != [] {
      assert (bits + [b])[1..] == bits[1..] + [b];
      ByteOfSnoc(bits[1..], b);
    }
  }

  /** Each bit of the group can be read back. */
  lemma {:induction false} ByteOfBits(bits: seq<bool>, k: nat)
    requires k < |bits|
    ensures TestBit(ByteOf(bits), k) == bits[k]
  {
    var x := ByteOf(bits);
    var h: nat := if bits[0] then 1 else 0;
    var rest := ByteOf(bits[1..]);
    assert x == h + 2 * rest;
    if k > 0 {
      Halve(h, rest);
      ByteOfBits(bits[1..], k - 1);
    } else {
      Halve(h, rest);
    }
  }

  lemma Halve(h: nat, rest: nat)
    requires h < 2
    ensures (h + 2 * rest) / 2 == rest && (h + 2 * rest) % 2 == h
  {
  }

  /** Packing a stream whose length is a multiple of eight, then a group
      of one to eight bits, adds one byte. */
  lemma {:induction false} PackSnoc(x: seq<bool>, group: seq<bool>, n: nat)
    requires |x| == 8 * n && 1 <= |group| <= 8
    ensures Pack(x + group) == Pack(x) + [ByteOf(group)]
    decreases |x|
  {
    if x == [] {
      assert x + group == group;
    } else {
      assert |x| >= 8;
      var y := x + group;
      assert y[..8] == x[..8];
      assert y[8..] == x[8..] + group;
      PackSnoc(x[8..], group, n - 1);
    }
  }

  /** Every bit of the stream can be read back from the packed bytes. */
  lemma {:induction false} PackBits(bits: seq<bool>, i: nat)
    requires i < |bits|
    ensures i / 8 < |Pack(bits)|
    ensures BitAt(Pack(bits), i) == bits[i]
    decreases |bits|
  {
    PackLength(bits);
    if i < 8 {
      Eighth(i);
      if |bits| <= 8 {
        ByteOfBits(bits, i);
      } else {
        ByteOfBits(bits[..8], i);
      }
    } else {
      ShiftEighth(i);
      PackBits(bits[8..], i - 8);
    }
  }

  lemma Eighth(i: nat)
    requires i < 8
    ensures i / 8 == 0 && i % 8 == i
  {
  }

  lemma ShiftEighth(i: nat)
    requires i >= 8
    ensures (i - 8) / 8 == i / 8 - 1 && (i - 8) % 8 == i % 8
  {
  }
}
