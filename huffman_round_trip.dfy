/** What the decompressor makes of the compressor's output: each string
    comes back from its recorded position, provided it has no NUL (which
    would end it early) and no code is longer than the 32 bits of a
    chain code. */
module HuffmanRoundTrip {
  import opened Wrappers
  import opened Primitives
  import opened Sorting
  import opened HuffmanTree
  import opened HuffmanBits
  import opened HuffmanCompression
  import opened HuffmanDecompression

  /** The bits of data in the order the decompressor reads them: each
      byte's bits from the lowest. */
  function BitStream(data: seq<byte>): (bits: seq<bool>)
    ensures |bits| == |data| * 8
  {
    if data == [] then [] else ByteBits(data[0]) + BitStream(data[1..])
  }

  function ByteBits(b: byte): (bits: seq<bool>)
    ensures |bits| == 8
  {
    [TestBit(b, 0), TestBit(b, 1), TestBit(b, 2), TestBit(b, 3),
     TestBit(b, 4), TestBit(b, 5), TestBit(b, 6), TestBit(b, 7)]
  }

  /** Bit i of the stream is the bit the decompressor reads at i. */
  lemma {:induction false} BitStreamAt(data: seq<byte>, i: nat)
    requires i < |data| * 8
    ensures BitStream(data)[i] == BitAt(data, i)
    decreases |data|
  {
    if i < 8 {
      Eighth(i);
    } else {
      ShiftEighth(i);
      BitStreamAt(data[1..], i - 8);
    }
  }

  /** The bits of data from position pos on are bits. */
  predicate BitsAt(data: seq<byte>, pos: nat, bits: seq<bool>)
  {
    pos + |bits| <= |data| * 8 && BitStream(data)[pos..pos + |bits|] == bits
  }

  lemma BitsAtSplit(data: seq<byte>, pos: nat, a: seq<bool>, b: seq<bool>)
    requires BitsAt(data, pos, a + b)
    ensures BitsAt(data, pos, a) && BitsAt(data, pos + |a|, b)
  {
    var all := BitStream(data);
    assert all[pos..pos + |a|] == (a + b)[..|a|];
    assert all[pos + |a|..pos + |a| + |b|] == (a + b)[|a|..];
  }

  /** Slot value nid of the flat array of root names its subtree t: a leaf
      by -1 - char, an inner node by its post-order index. */
  predicate Names(root: Node, nid: int, t: Node)
  {
    (t.Leaf? ==> nid == -1 - t.ch) &&
    (t.Inner? ==> 0 <= nid < Inners(root) && PostOrder(root)[nid] == t)
  }

  /** Pair k of nodes names the children of the k-th inner node of root in
      post order. */
  predicate PairNames(root: Node, nodes: seq<int>, k: nat)
  {
    k < Inners(root) && 2 * k + 1 < |nodes| &&
    Names(root, nodes[2 * k], PostOrder(root)[k].left) && Names(root, nodes[2 * k + 1], PostOrder(root)[k].right)
  }

  /** nodes holds a pair of slots for each inner node of root. */
  predicate Tabled(root: Node, nodes: seq<int>)
  {
    |nodes| == 2 * Inners(root) && forall k: nat :: k < Inners(root) ==> PairNames(root, nodes, k)
  }

  /** The flat array of BuildNodes is such a table. */
  lemma FlattenTabled(root: Node)
    ensures Tabled(root, Flatten(root, 0))
  {
    forall k: nat | k < Inners(root)
      ensures PairNames(root, Flatten(root, 0), k)
    {
      FlattenAt(root, 0, k);
    }
  }

  /** Slot value nid names subtree t of the table, c is a leaf of t, and
      the bits from pos on begin with the path from t to c. */
  predicate OnPath(root: Node, nodes: seq<int>, data: seq<byte>, t: Node, nid: int, pos: nat, c: Char16)
  {
    Tabled(root, nodes) && Names(root, nid, t) && c in Leaves(t) && BitsAt(data, pos, PathTo(t, c))
  }

  /** Walking the table from the slot of a subtree along the path to one
      of its leaves lands on that leaf's slot, one bit per step. */
  lemma {:induction false} WalkPath(root: Node, nodes: seq<int>, data: seq<byte>, t: Node, nid: int, pos: nat, c: Char16)
    requires OnPath(root, nodes, data, t, nid, pos, c)
    ensures Walk(nodes, data, FirstInner, nid, pos) == Ok((-1 - c, pos + |PathTo(t, c)|))
    decreases t
  {
    if t.Inner? {
      var child, next := Descend(root, nodes, data, t, nid, pos, c);
      WalkPath(root, nodes, data, child, next, pos + 1, c);
    } else {
      assert Leaves(t) == [t.ch];
    }
  }

  /** One step down the path to c: the child on c's side, named by the
      slot the bit at pos selects, and the rest of the path after it. */
  lemma Descend(root: Node, nodes: seq<int>, data: seq<byte>, t: Node, nid: int, pos: nat, c: Char16)
    returns (child: Node, next: int)
    requires OnPath(root, nodes, data, t, nid, pos, c) && t.Inner?
    ensures child < t && OnPath(root, nodes, data, child, next, pos + 1, c)
    ensures |PathTo(t, c)| == 1 + |PathTo(child, c)|
    ensures Walk(nodes, data, FirstInner, nid, pos) == Walk(nodes, data, FirstInner, next, pos + 1)
  {
    var right := c !in Leaves(t.left);
    child := if right then t.right else t.left;
    DescendBits(data, pos, t, c, right, child);
    assert PairNames(root, nodes, nid);
    var slot := 2 * nid + if right then 1 else 0;
    next := nodes[slot];
    WalkStep(nodes, data, nid, pos, slot);
  }

  /** The first bit of the path to c picks the child on c's side, and the
      rest of the path is the child's. */
  lemma DescendBits(data: seq<byte>, pos: nat, t: Node, c: Char16, right: bool, child: Node)
    requires t.Inner? && c in Leaves(t) && BitsAt(data, pos, PathTo(t, c))
    requires right == (c !in Leaves(t.left)) && child == (if right then t.right else t.left)
    ensures child < t && c in Leaves(child)
    ensures pos < |data| * 8 && BitAt(data, pos) == right
    ensures BitsAt(data, pos + 1, PathTo(child, c)) && |PathTo(t, c)| == 1 + |PathTo(child, c)|
  {
    PathHead(t, c, right, child);
    BitsCons(data, pos, right, PathTo(child, c));
  }

  /** The path from an inner node starts with the side of c. */
  lemma PathHead(t: Node, c: Char16, right: bool, child: Node)
    requires t.Inner? && c in Leaves(t)
    requires right == (c !in Leaves(t.left)) && child == (if right then t.right else t.left)
    ensures child < t && c in Leaves(child) && PathTo(t, c) == [right] + PathTo(child, c)
  {
  }

  /** Bits that start with b hold b at pos and the rest after it. */
  lemma BitsCons(data: seq<byte>, pos: nat, b: bool, rest: seq<bool>)
    requires BitsAt(data, pos, [b] + rest)
    ensures pos < |data| * 8 && BitAt(data, pos) == b && BitsAt(data, pos + 1, rest)
  {
    BitsAtSplit(data, pos, [b], rest);
    FirstBit(data, pos, [b]);
  }

  lemma FirstBit(data: seq<byte>, pos: nat, bits: seq<bool>)
    requires BitsAt(data, pos, bits) && bits != []
    ensures pos < |data| * 8 && BitAt(data, pos) == bits[0]
  {
    assert BitStream(data)[pos..pos + |bits|][0] == BitStream(data)[pos];
    BitStreamAt(data, pos);
  }

  /** One step of a walk from an inner node whose pair is in the array. */
  lemma WalkStep(nodes: seq<int>, data: seq<byte>, nid: int, pos: nat, slot: nat)
    requires pos < |data| * 8 && 0 <= nid && slot == 2 * nid + (if BitAt(data, pos) then 1 else 0)
    requires slot < |nodes|
    ensures Walk(nodes, data, FirstInner, nid, pos) == Walk(nodes, data, FirstInner, nodes[slot], pos + 1)
  {
  }

  /** The paths to the chars of s, one after the other. */
  function PathsOf(root: Node, s: Str): seq<bool>
    requires forall c :: c in s ==> c in Leaves(root)
  {
    if s == [] then [] else PathTo(root, s[0]) + PathsOf(root, s[1..])
  }

  /** The root pair of a table names the root: a tree that is one leaf has
      no pairs and a NUL leaf, read from slot -1. */
  lemma RootNamed(root: Node, nodes: seq<int>)
    requires Tabled(root, nodes) && (root.Leaf? ==> root.ch == NUL)
    ensures Names(root, Root(nodes), root)
  {
  }

  /** The bits from pos on begin with the paths of the chars of s and then
      NUL's path, in a table of a tree that holds NUL and each of them. */
  predicate Encoded(root: Node, nodes: seq<int>, data: seq<byte>, pos: nat, s: Str)
  {
    Tabled(root, nodes) && (root.Leaf? ==> root.ch == NUL) && NUL in Leaves(root) &&
    (forall c :: c in s ==> c in Leaves(root) && c != NUL) &&
    BitsAt(data, pos, PathsOf(root, s) + PathTo(root, NUL))
  }

  /** From the start of the paths of s and then NUL's path, the corrected
      decoder reads s. */
  lemma {:induction false} DecodePaths(root: Node, nodes: seq<int>, data: seq<byte>, pos: nat, s: Str)
    requires Encoded(root, nodes, data, pos, s)
    ensures Decode(nodes, data, pos) == Ok(s)
    decreases |s|
  {
    if s == [] {
      DecodeNone(root, nodes, data, pos);
    } else {
      var next := EncodedSplit(root, nodes, data, pos, s);
      DecodePaths(root, nodes, data, next, s[1..]);
      DecodeHead(root, nodes, data, pos, s, next);
    }
  }

  /** With no chars left, the decoder reads the empty string. */
  lemma DecodeNone(root: Node, nodes: seq<int>, data: seq<byte>, pos: nat)
    requires Encoded(root, nodes, data, pos, [])
    ensures Decode(nodes, data, pos) == Ok([])
  {
    if root.Leaf? {
      DecodeLeafRoot(root, nodes, data, pos);
    } else {
      DecodeEnd(root, nodes, data, pos);
    }
  }

  /** The first char's path, then the rest read back, reads back s. */
  lemma DecodeHead(root: Node, nodes: seq<int>, data: seq<byte>, pos: nat, s: Str, next: nat)
    requires Encoded(root, nodes, data, pos, s) && s != []
    requires next == pos + |PathTo(root, s[0])| && BitsAt(data, pos, PathTo(root, s[0]))
    requires Decode(nodes, data, next) == Ok(s[1..])
    ensures Decode(nodes, data, pos) == Ok(s)
  {
    assert s[0] in s;
    HeadWalk(root, nodes, data, pos, s[0]);
    DecodeStep(nodes, data, pos, s[0], next, s[1..]);
    assert s == [s[0]] + s[1..];
  }

  /** A tree that is one NUL leaf has no pairs: the root slot -1 reads as
      NUL at once. */
  lemma DecodeLeafRoot(root: Node, nodes: seq<int>, data: seq<byte>, pos: nat)
    requires Encoded(root, nodes, data, pos, []) && root.Leaf?
    ensures Decode(nodes, data, pos) == Ok([])
  {
    RootNamed(root, nodes);
    if pos < |data| * 8 {
      DecodeStop(nodes, data, pos, pos);
    }
  }

  /** Only NUL's path is left: the walk lands on NUL and the string ends. */
  lemma DecodeEnd(root: Node, nodes: seq<int>, data: seq<byte>, pos: nat)
    requires Encoded(root, nodes, data, pos, []) && root.Inner?
    ensures Decode(nodes, data, pos) == Ok([])
  {
    RootNamed(root, nodes);
    assert PathsOf(root, []) + PathTo(root, NUL) == PathTo(root, NUL);
    WalkPath(root, nodes, data, root, Root(nodes), pos, NUL);
    FirstBit(data, pos, PathTo(root, NUL));
    DecodeStop(nodes, data, pos, pos + |PathTo(root, NUL)|);
  }

  /** The walk from the root along a char's path lands on that char's
      slot. */
  lemma HeadWalk(root: Node, nodes: seq<int>, data: seq<byte>, pos: nat, c: Char16)
    requires Tabled(root, nodes) && (root.Leaf? ==> root.ch == NUL)
    requires c in Leaves(root) && c != NUL && BitsAt(data, pos, PathTo(root, c))
    ensures pos < |data| * 8
    ensures Walk(nodes, data, FirstInner, Root(nodes), pos) == Ok((-1 - c as int, pos + |PathTo(root, c)|))
  {
    RootNamed(root, nodes);
    WalkPath(root, nodes, data, root, Root(nodes), pos, c);
    FirstBit(data, pos, PathTo(root, c));
  }

  /** The paths of s and NUL's split after the first char's path. */
  lemma EncodedSplit(root: Node, nodes: seq<int>, data: seq<byte>, pos: nat, s: Str) returns (next: nat)
    requires Encoded(root, nodes, data, pos, s) && s != []
    ensures next == pos + |PathTo(root, s[0])| && s[0] in Leaves(root)
    ensures BitsAt(data, pos, PathTo(root, s[0])) && Encoded(root, nodes, data, next, s[1..])
  {
    assert s[0] in s;
    assert PathsOf(root, s) == PathTo(root, s[0]) + PathsOf(root, s[1..]);
    BitsAtRegroup(data, pos, PathTo(root, s[0]), PathsOf(root, s[1..]), PathTo(root, NUL));
    next := pos + |PathTo(root, s[0])|;
  }

  lemma BitsAtRegroup(data: seq<byte>, pos: nat, a: seq<bool>, b: seq<bool>, c: seq<bool>)
    requires BitsAt(data, pos, (a + b) + c)
    ensures BitsAt(data, pos, a) && BitsAt(data, pos + |a|, b + c)
  {
    assert (a + b) + c == a + (b + c);
    BitsAtSplit(data, pos, a, b + c);
  }

  /** A walk that lands on NUL's slot ends the string. */
  lemma DecodeStop(nodes: seq<int>, data: seq<byte>, pos: nat, next: nat)
    requires pos < |data| * 8 && Walk(nodes, data, FirstInner, Root(nodes), pos) == Ok((-1, next))
    ensures Decode(nodes, data, pos) == Ok([])
  {
  }

  /** A walk that lands on the slot of a char other than NUL puts that
      char ahead of what follows. */
  lemma DecodeStep(nodes: seq<int>, data: seq<byte>, pos: nat, c: Char16, next: nat, rest: Str)
    requires pos < |data| * 8 && c != NUL
    requires Walk(nodes, data, FirstInner, Root(nodes), pos) == Ok((-1 - c, next))
    requires Decode(nodes, data, next) == Ok(rest)
    ensures Decode(nodes, data, pos) == Ok([c] + rest)
  {
    assert CharOf(-1 - c) == c;
  }

  lemma {:induction false} PathsOfSnoc(root: Node, s: Str)
    requires s != [] && forall c :: c in s ==> c in Leaves(root)
    ensures PathsOf(root, s) == PathsOf(root, s[..|s| - 1]) + PathTo(root, s[|s| - 1])
  {
    if |s| > 1 {
      assert s[1..][..|s[1..]| - 1] == s[..|s| - 1][1..];
      PathsOfSnoc(root, s[1..]);
    }
  }

  /** In a tree with distinct leaves and height at most 32, the bits
      emitted for a char are its path. */
  lemma EmitIsPath(root: Node, c: Char16)
    requires Distinct(Leaves(root)) && Height(root) <= 32 && c in Leaves(root)
    ensures c in Codes(root, EmptyCode)
    ensures Emit(Codes(root, EmptyCode)[c]) == PathTo(root, c)
  {
    CodesPath(root, [], c);
    assert [] + PathTo(root, c) == PathTo(root, c);
    PathHeight(root, c);
    CodeBits(PathTo(root, c));
  }

  /** The compressor's bits for the chars of s are their paths. */
  lemma {:induction false} CharsBitsArePaths(root: Node, s: Str)
    requires Distinct(Leaves(root)) && Height(root) <= 32
    requires forall c :: c in s ==> c in Leaves(root)
    ensures Coded(Codes(root, EmptyCode), s)
    ensures CharsBits(Codes(root, EmptyCode), s) == PathsOf(root, s)
    decreases |s|
  {
    CodesDomain(root, EmptyCode);
    if s != [] {
      var init := s[..|s| - 1];
      CharsBitsArePaths(root, init);
      EmitIsPath(root, s[|s| - 1]);
      PathsOfSnoc(root, s);
    }
  }

  /** The stream of the first k strings is a prefix of the whole stream. */
  lemma {:induction false} AllBitsPrefix(codes: map<Char16, ChainCode>, keys: seq<Str>, k: nat)
    requires Covers(codes, keys) && k <= |keys|
    ensures AllBits(codes, keys[..k]) <= AllBits(codes, keys)
    decreases |keys|
  {
    if k < |keys| {
      var init := keys[..|keys| - 1];
      assert init[..k] == keys[..k];
      AllBitsPrefix(codes, init, k);
    } else {
      assert keys[..k] == keys;
    }
  }

  /** String k's bits follow the bits of the strings before it. */
  lemma StringSlice(codes: map<Char16, ChainCode>, keys: seq<Str>, k: nat)
    requires Covers(codes, keys) && k < |keys|
    ensures Start(codes, keys, k) + |StringBits(codes, keys[k])| <= |AllBits(codes, keys)|
    ensures AllBits(codes, keys)[Start(codes, keys, k)..Start(codes, keys, k) + |StringBits(codes, keys[k])|]
      == StringBits(codes, keys[k])
  {
    var before, mine := AllBits(codes, keys[..k]), StringBits(codes, keys[k]);
    assert keys[..k + 1][..k] == keys[..k];
    assert AllBits(codes, keys[..k + 1]) == before + mine;
    AllBitsPrefix(codes, keys, k + 1);
    assert (before + mine)[|before|..] == mine;
  }

  /** The decompressor reads bits from the start of data. */
  predicate Holds(data: seq<byte>, bits: seq<bool>)
  {
    |bits| <= |data| * 8 && forall j :: 0 <= j < |bits| ==> BitAt(data, j) == bits[j]
  }

  /** The packing of a bit stream holds it. */
  lemma PackHolds(bits: seq<bool>)
    ensures Holds(Pack(bits), bits)
  {
    PackLength(bits);
    forall j | 0 <= j < |bits|
      ensures j / 8 < |Pack(bits)| && BitAt(Pack(bits), j) == bits[j]
    {
      PackBits(bits, j);
    }
  }

  /** A run of the bits is found at the same place in bytes that hold
      them. */
  lemma PackedSlice(data: seq<byte>, bits: seq<bool>, pos: nat, part: seq<bool>)
    requires Holds(data, bits)
    requires pos + |part| <= |bits| && bits[pos..pos + |part|] == part
    ensures BitsAt(data, pos, part)
  {
    var stream := BitStream(data);
    forall i | 0 <= i < |part|
      ensures stream[pos + i] == part[i]
    {
      assert bits[pos + i] == part[i];
      BitStreamAt(data, pos + i);
    }
    assert stream[pos..pos + |part|] == part;
  }

  /** Decompressing at a string's recorded position gives the string back,
      for a string without NUL and a tree no deeper than 32. */
  lemma RoundTrip(keys: seq<Str>, positions: map<Str, int>, nodes: seq<int>, codes: map<Char16, ChainCode>,
                  data: seq<byte>, queue: seq<Node>, root: Node, k: nat)
    requires Compressed(keys, positions, nodes, codes, data, queue, root)
    requires k < |keys| && NUL !in keys[k] && Height(root) <= 32
    ensures positions[keys[k]] >= 0
    ensures Decode(nodes, data, positions[keys[k]]) == Ok(keys[k])
  {
    StringEncoded(keys, positions, nodes, codes, data, queue, root, k);
    DecodePaths(root, nodes, data, positions[keys[k]], keys[k]);
  }

  /** The packed bits hold, at string k's recorded position, the paths of
      its chars and then NUL's path. */
  lemma StringEncoded(keys: seq<Str>, positions: map<Str, int>, nodes: seq<int>, codes: map<Char16, ChainCode>,
                      data: seq<byte>, queue: seq<Node>, root: Node, k: nat)
    requires Compressed(keys, positions, nodes, codes, data, queue, root)
    requires k < |keys| && NUL !in keys[k] && Height(root) <= 32
    ensures positions[keys[k]] >= 0
    ensures Encoded(root, nodes, data, positions[keys[k]], keys[k])
  {
    var s := keys[k];
    CodesDomain(root, EmptyCode);
    assert Coded(codes, s);
    if root.Leaf? {
      assert Leaves(root) == [root.ch];
    }
    assert positions[s] == Start(codes, keys, k);
    StringAt(codes, keys, data, k);
    StringPaths(root, s);
    FlattenTabled(root);
  }

  /** The packed bits hold string k's bits where its predecessors end. */
  lemma StringAt(codes: map<Char16, ChainCode>, keys: seq<Str>, data: seq<byte>, k: nat)
    requires Covers(codes, keys) && k < |keys| && data == Pack(AllBits(codes, keys))
    ensures Coded(codes, keys[k]) && NUL in codes
    ensures BitsAt(data, Start(codes, keys, k), StringBits(codes, keys[k]))
  {
    StringSlice(codes, keys, k);
    PackHolds(AllBits(codes, keys));
    PackedSlice(data, AllBits(codes, keys), Start(codes, keys, k), StringBits(codes, keys[k]));
  }

  /** A string's bits, for a tree with distinct leaves no deeper than 32,
      are its chars' paths and then NUL's path. */
  lemma StringPaths(root: Node, s: Str)
    requires Distinct(Leaves(root)) && Height(root) <= 32 && NUL in Leaves(root)
    requires forall c :: c in s ==> c in Leaves(root)
    ensures NUL in Codes(root, EmptyCode) && Coded(Codes(root, EmptyCode), s)
    ensures StringBits(Codes(root, EmptyCode), s) == PathsOf(root, s) + PathTo(root, NUL)
  {
    CharsBitsArePaths(root, s);
    EmitIsPath(root, NUL);
  }

  /** The decoder as written agrees only with a tree that is one leaf: any
      inner node puts slot 0 on a walk, as the root itself when there is
      one inner node and as a child's slot when there are more. */
  lemma AsWrittenHypothesis(root: Node)
    ensures NoZeroSlot(Flatten(root, 0)) && Root(Flatten(root, 0)) != 0 <==> root.Leaf?
  {
    if Inners(root) >= 2 {
      FirstSlotStored(root, 0);
    }
  }

  /** The first inner node in post order is stored as its parent's slot. */
  lemma {:induction false} FirstSlotStored(n: Node, base: nat)
    requires Inners(n) >= 2
    ensures base in Flatten(n, base)
  {
    var l, r := n.left, n.right;
    var tail := [Slot(l, base), Slot(r, base + Inners(l))];
    assert Flatten(n, base) == Flatten(l, base) + Flatten(r, base + Inners(l)) + tail;
    if Inners(l) == 1 || (Inners(l) == 0 && Inners(r) == 1) {
      assert base in tail;
    } else if Inners(l) >= 2 {
      FirstSlotStored(l, base);
    } else {
      FirstSlotStored(r, base);
    }
  }
}
