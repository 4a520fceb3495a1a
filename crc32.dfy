/** The table-driven, MSB-first CRC-32 the ME3 string table stores beside
    every string (polynomial 0x04C11DB7, initial value and final XOR
    0xFFFFFFFF: the CRC-32/BZIP2 parameters), taken over the low byte of
    each char. */
module Crc32 {
  import opened Primitives

  /** 79764919 == 0x04C11DB7, the IEEE 802.3 generator polynomial. */
  const Polynomial: bv32 := 79764919

  /** One round of the table generator: shift left, XOR-ing the polynomial
      when the bit shifted out was set. */
  function Round(x: bv32): bv32
  {
    if x & 0x8000_0000 != 0 then (x << 1) ^ Polynomial else x << 1
  }

  function Rounds(x: bv32, n: nat): bv32
  {
    if n == 0 then x else Round(Rounds(x, n - 1))
  }

  /** The full MSB-first table entry for byte i: i << 24 after eight rounds. */
  function TableEntry(i: nat): bv32
    requires i < 256
  {
    Rounds((i as bv32) << 24, 8)
  }

  /** The entries GenerateTable writes by hand agree with the loop rule, so
      the whole array is the table of the polynomial. */
  lemma HardCodedEntries()
    ensures TableEntry(0) == 0
    ensures TableEntry(1) == Polynomial
  {
    assert Rounds(0, 8) == 0 by {
      var k := 0;
      while k < 8
        invariant 0 <= k <= 8
        invariant Rounds(0, k) == 0
      {
        k := k + 1;
      }
    }
    // 1 << 24 moves up one place per round and reaches the top bit after
    // seven rounds; the eighth shifts it out and XORs the polynomial in.
    assert Rounds(1 << 24, 7) == 0x8000_0000 by {
      var k := 0;
      while k < 7
        invariant 0 <= k <= 7
        invariant Rounds(1 << 24, k) == (1 << 24) << k
      {
        assert Rounds(1 << 24, k + 1) == Round((1 << 24) << k);
        k := k + 1;
      }
    }
  }

  /** `hash ^ (uint)((ch & 0xFF) << 24)`: the byte enters at the top. */
  function Mix(h: bv32, b: byte): bv32
  {
    h ^ ((b as bv32) << 24)
  }

  /** The table slot `x >> 24`; it never leaves the 256-entry table. */
  function Index(x: bv32): (k: nat)
    ensures k < 256
  {
    (x >> 24) as int
  }

  /** `x << 8 ^ Table[x >> 24]`, given the entry read from the table. */
  function Next(x: bv32, entry: bv32): bv32
  {
    (x << 8) ^ entry
  }

  /** One character of Hash, read against the table the generator defines. */
  function Step(h: bv32, c: Char16): bv32
  {
    var x := Mix(h, LowByte(c));
    Next(x, TableEntry(Index(x)))
  }

  /** The running hash after the characters of s, from the seed 0xFFFFFFFF. */
  function Fold(s: Str): bv32
  {
    if s == [] then 0xFFFF_FFFF else Step(Fold(s[..|s| - 1]), s[|s| - 1])
  }

  /** Crc32.Hash: the complement of the fold. */
  function HashOf(s: Str): bv32
  {
    !Fold(s)
  }

  /** Crc32.Hash("") == 0. */
  lemma HashOfEmpty()
    ensures HashOf([]) == 0
  {
  }

  /** Only the low byte of each char reaches the hash. */
  lemma {:induction false} LowBytesDecide(s: Str, t: Str)
    requires |s| == |t|
    requires forall i :: 0 <= i < |s| ==> LowByte(s[i]) == LowByte(t[i])
    ensures HashOf(s) == HashOf(t)
  {
    var a, b := Fold(s), Fold(t);
    FoldLowBytes(s, t);
    assert a == b;
  }

  lemma {:induction false} FoldLowBytes(s: Str, t: Str)
    requires |s| == |t|
    requires forall i :: 0 <= i < |s| ==> LowByte(s[i]) == LowByte(t[i])
    ensures Fold(s) == Fold(t)
  {
    if s != [] {
      FoldLowBytes(s[..|s| - 1], t[..|t| - 1]);
    }
  }

  /** Crc32.GenerateTable: entries 0 and 1 are written directly, the rest
      by eight rounds each. */
  method GenerateTable() returns (entries: array<bv32>)
    ensures fresh(entries)
    ensures entries.Length == 256
    ensures forall i :: 0 <= i < 256 ==> entries[i] == TableEntry(i)
  {
    entries := new bv32[256];
    HardCodedEntries();
    entries[0] := 0;
    entries[1] := Polynomial;
    var i := 2;
    while i < 256
      invariant 2 <= i <= 256
      invariant forall k :: 0 <= k < i ==> entries[k] == TableEntry(k)
    {
      var x0: bv32 := (i as bv32) << 24;
      var x := x0;
      var j := 8;
      while j > 0
        invariant 0 <= j <= 8
        invariant x == Rounds(x0, 8 - j)
      {
        if x & 0x8000_0000 != 0 {
          x := (x << 1) ^ Polynomial;
        } else {
          x := x << 1;
        }
        j := j - 1;
      }
      assert x == TableEntry(i);
      entries[i] := x;
      i := i + 1;
    }
  }

  /** Crc32.Hash, against a table holding the generator's entries. */
  method Hash(table: array<bv32>, s: Str) returns (hash: bv32)
    requires table.Length == 256
    requires forall i :: 0 <= i < 256 ==> table[i] == TableEntry(i)
    ensures hash == HashOf(s)
  {
    hash := 0xFFFF_FFFF;
    var i := 0;
    while i < |s|
      invariant 0 <= i <= |s|
      invariant hash == Fold(s[..i])
    {
      var x := Mix(hash, LowByte(s[i]));
      hash := Next(x, table[Index(x)]);
      assert s[..i + 1][..i] == s[..i];
      i := i + 1;
    }
    assert s[..i] == s;
    hash := !hash;
  }
}
