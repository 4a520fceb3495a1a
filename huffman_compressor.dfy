/** HuffmanCompressor: collects the distinct strings of an ME3 file,
    weighs their chars, builds the Huffman tree and packs every string
    (its chars' chain codes, then NUL's) into one bit stream, recording the
    bit offset at which each string starts. */
module HuffmanCompression {
  import opened Wrappers
  import opened Primitives
  import opened Sorting
  import opened HuffmanTree
  import opened HuffmanBits

  // ---------------------------------------------------------------------
  // The bits of the strings.

  /** Every char of s has a code. */
  predicate Coded(codes: map<Char16, ChainCode>, s: Str)
  {
    forall c :: c in s ==> c in codes
  }

  /** NUL and every char of the strings have a code. */
  predicate Covers(codes: map<Char16, ChainCode>, ss: seq<Str>)
  {
    NUL in codes && forall k :: 0 <= k < |ss| ==> Coded(codes, ss[k])
  }

  /** The codes of the chars of s, one after the other. */
  function CharsBits(codes: map<Char16, ChainCode>, s: Str): seq<bool>
    requires forall c :: c in s ==> c in codes
  {
    if s == [] then [] else CharsBits(codes, s[..|s| - 1]) + Emit(codes[s[|s| - 1]])
  }

  /** The bits of one string: its chars' codes, then NUL's. */
  function StringBits(codes: map<Char16, ChainCode>, s: Str): seq<bool>
    requires NUL in codes && forall c :: c in s ==> c in codes
  {
    CharsBits(codes, s) + Emit(codes[NUL])
  }

  /** The whole stream: the strings in order. */
  function AllBits(codes: map<Char16, ChainCode>, ss: seq<Str>): seq<bool>
    requires Covers(codes, ss)
  {
    if ss == [] then []
    else
      AllBits(codes, ss[..|ss| - 1]) + StringBits(codes, ss[|ss| - 1])
  }

  /** The bit position at which string k starts: the length of the bits of
      the strings before it. */
  function Start(codes: map<Char16, ChainCode>, ss: seq<Str>, k: nat): nat
    requires k <= |ss| && Covers(codes, ss)
  {
    |AllBits(codes, ss[..k])|
  }

  // ---------------------------------------------------------------------
  // Packing bits: the addBit closure and the locals it updates.

  class BitPacker {
    /** The full bytes so far (cmpData). */
    var data: seq<byte>
    /** The byte being filled (cmpByte). */
    var cur: byte
    /** The number of bits in cur (cmpBit). */
    var bit: nat
    /** The number of bits added (cmpPos). */
    var count: nat
    /** The bits in data, and the bits in cur. */
    ghost var full: seq<bool>
    ghost var part: seq<bool>

    /** Every bit added, in order. */
    ghost function Bits(): seq<bool>
      reads this
    {
      full + part
    }

    ghost predicate Valid()
      reads this
    {
      |full| == 8 * |data| && data == Pack(full) &&
      |part| == bit < 8 && cur == ByteOf(part) && count == |full| + |part|
    }

    constructor()
      ensures Valid() && Bits() == []
    {
      data, cur, bit, count := [], 0, 0, 0;
      full, part := [], [];
    }

    /** addBit: set bit cmpBit of the current byte when v holds; a full
        byte goes to the output. */
    method AddBit(v: bool)
      requires Valid()
      modifies this
      ensures Valid() && Bits() == old(Bits()) + [v]
    {
      ghost var grown := part + [v];
      SnocAssoc(full, part, v);
      ByteOfSnoc(part, v);
      PowMono(bit + 1, 8);
      assert ByteOf(grown) < Pow2(8) == 256;
      // the bit is clear, so `|=` adds it
      var b: byte := if v then cur + Pow2(bit) else cur;
      assert b == ByteOf(grown);
      if bit + 1 == 8 {
        PackSnoc(full, grown, |data|);
        assert full + grown + [] == full + grown;
        data, cur, bit, count, full, part := data + [b], 0, 0, count + 1, full + grown, [];
      } else {
        cur, bit, count, part := b, bit + 1, count + 1, grown;
      }
    }

    /** The bytes of everything added, the last one partly filled. */
    method Finish() returns (out: seq<byte>)
      requires Valid()
      ensures out == Pack(Bits())
    {
      if bit != 0 {
        PackSnoc(full, part, |data|);
        out := data + [cur];
      } else {
        assert full + part == full;
        out := data;
      }
    }

    /** The bits of one chain code: `code & (1 << j)` for each j below
        its length. */
    method AddCode(cc: ChainCode)
      requires Valid()
      modifies this
      ensures Valid() && Bits() == old(Bits()) + Emit(cc)
    {
      var j := 0;
      while j < cc.length
        invariant j <= cc.length && Valid()
        invariant Bits() == old(Bits()) + Emit(cc)[..j]
      {
        AddBit(Bit(cc.code, j));
        assert Emit(cc)[..j + 1] == Emit(cc)[..j] + [Bit(cc.code, j)];
        j := j + 1;
      }
      assert Emit(cc)[..j] == Emit(cc);
    }
  }

  lemma SnocAssoc(f: seq<bool>, p: seq<bool>, v: bool)
    ensures f + (p + [v]) == f + p + [v]
  {
  }

  lemma AppendAssoc(a: seq<bool>, b: seq<bool>, c: seq<bool>)
    ensures a + (b + c) == a + b + c
  {
  }

  lemma CharsBitsSnoc(codes: map<Char16, ChainCode>, s: Str, j: nat)
    requires j < |s| && forall c :: c in s ==> c in codes
    ensures CharsBits(codes, s[..j + 1]) == CharsBits(codes, s[..j]) + Emit(codes[s[j]])
  {
    assert s[..j + 1][..j] == s[..j];
  }

  /** One string: each char's code, then NUL's. */
  method AddString(p: BitPacker, codes: map<Char16, ChainCode>, s: Str)
    requires p.Valid() && NUL in codes && forall c :: c in s ==> c in codes
    modifies p
    ensures p.Valid() && p.Bits() == old(p.Bits()) + StringBits(codes, s)
  {
    ghost var start := p.Bits();
    var j := 0;
    while j < |s|
      invariant j <= |s| && p.Valid()
      invariant p.Bits() == start + CharsBits(codes, s[..j])
    {
      CharsBitsSnoc(codes, s, j);
      p.AddCode(codes[s[j]]);
      AppendAssoc(start, CharsBits(codes, s[..j]), Emit(codes[s[j]]));
      j := j + 1;
    }
    assert s[..j] == s;
    p.AddCode(codes[NUL]);
    AppendAssoc(start, CharsBits(codes, s), Emit(codes[NUL]));
  }

  // ---------------------------------------------------------------------
  // Weights.

  /** The weighing loop of Compress: each char of each string, then one
      NUL per string. */
  method CountWeights(ss: seq<Str>) returns (w: Weights)
    ensures w == Tally(Stream(ss)) && Distinct(Keys(w))
  {
    w := [];
    var i := 0;
    while i < |ss|
      invariant i <= |ss| && w == Tally(Stream(ss[..i]))
    {
      var s := ss[i];
      ghost var before := Stream(ss[..i]);
      var j := 0;
      assert before + s[..0] == before;
      while j < |s|
        invariant j <= |s| && w == Tally(before + s[..j])
      {
        TallyChar(before, s, j);
        w := Bump(w, s[j]);
        j := j + 1;
      }
      assert s[..j] == s;
      TallyString(ss, i);
      w := Bump(w, NUL);
      i := i + 1;
    }
    assert ss[..i] == ss;
    TallyKeys(Stream(ss));
  }

  /** Weighing one more char of a string. */
  lemma TallyChar(before: Str, s: Str, j: nat)
    requires j < |s|
    ensures Tally(before + s[..j + 1]) == Bump(Tally(before + s[..j]), s[j])
  {
    var x := before + s[..j];
    assert before + s[..j + 1] == x + [s[j]];
    assert (x + [s[j]])[..|x|] == x;
  }

  /** Weighing the NUL that ends a string. */
  lemma TallyString(ss: seq<Str>, i: nat)
    requires i < |ss|
    ensures Tally(Stream(ss[..i + 1])) == Bump(Tally(Stream(ss[..i]) + ss[i]), NUL)
  {
    var y := Stream(ss[..i]) + ss[i];
    assert ss[..i + 1][..i] == ss[..i];
    assert Stream(ss[..i + 1]) == y + [NUL];
    assert (y + [NUL])[..|y|] == y;
  }

  // ---------------------------------------------------------------------
  // The stream of a prefix of the strings.

  lemma AllBitsSnoc(codes: map<Char16, ChainCode>, ss: seq<Str>, i: nat)
    requires i < |ss| && Covers(codes, ss)
    ensures Covers(codes, ss[..i]) && Covers(codes, ss[..i + 1])
    ensures NUL in codes && forall c :: c in ss[i] ==> c in codes
    ensures AllBits(codes, ss[..i + 1]) == AllBits(codes, ss[..i]) + StringBits(codes, ss[i])
  {
    assert ss[..i + 1][..i] == ss[..i];
  }

  // ---------------------------------------------------------------------
  // The node array.

  /** The intArray loop of BuildNodes: for each inner node of flat, its left
      and its right child's slot (a leaf as -1 - char, an inner node by its
      index in flat). */
  method NodeArray(flat: seq<Node>) returns (nodes: seq<int>)
    requires forall k :: 0 <= k < |flat| ==> flat[k].Inner?
    ensures |nodes| == 2 * |flat|
    ensures forall k :: 0 <= k < |flat| ==>
      nodes[2 * k] == ChildSlot(flat, flat[k].left) && nodes[2 * k + 1] == ChildSlot(flat, flat[k].right)
  {
    var a := new int[2 * |flat|];
    var i := 0;
    while i < |flat|
      invariant i <= |flat|
      invariant forall k :: 0 <= k < i ==>
        a[2 * k] == ChildSlot(flat, flat[k].left) && a[2 * k + 1] == ChildSlot(flat, flat[k].right)
    {
      a[2 * i] := ChildSlot(flat, flat[i].left);
      a[2 * i + 1] := ChildSlot(flat, flat[i].right);
      i := i + 1;
    }
    nodes := a[..];
  }

  // ---------------------------------------------------------------------
  // The compressor.

  class HuffmanCompressor {
    /** The keys of _strings, in the order they were first added. */
    var keys: seq<Str>
    /** _strings: each string's bit position (0 until Compress). */
    var positions: map<Str, int>
    /** _nodes: two slots per inner node (empty before Compress). */
    var nodes: seq<int>
    /** _chainCodes (empty before Compress). */
    var codes: map<Char16, ChainCode>
    /** _compressedData (empty before Compress). */
    var compressedData: seq<byte>
    /** The tree BuildNodes made, and the sorted leaf queue it made it from. */

    ghost predicate Valid()
      reads this
    {
      Distinct(keys) && positions.Keys == set s | s in keys
    }

    constructor ()
      ensures Valid() && keys == [] && positions == map[]
      ensures nodes == [] && codes == map[] && compressedData == []
    {
      keys := [];
      positions := map[];
      nodes := [];
      codes := map[];
      compressedData := [];
    }

    /** `_strings[str] = 0`: a new string is appended to the keys; an old
        one keeps its place. */
    method Add(str: Str)
      requires Valid()
      modifies this
      ensures Valid()
      ensures positions == old(positions)[str := 0]
      ensures keys == if str in old(keys) then old(keys) else old(keys) + [str]
      ensures nodes == old(nodes) && codes == old(codes) && compressedData == old(compressedData)
    {
      if str !in keys {
        keys := keys + [str];
      }
      positions := positions[str := 0];
    }

    /** `_strings[str]`: a missing string is a KeyNotFound. */
    function GetStringPosition(str: Str): (r: Result<int>)
      requires Valid()
      reads this
      ensures r.Ok? <==> str in keys
      ensures r.Ok? ==> r.value == positions[str]
    {
      if str in positions then Ok(positions[str]) else Err(KeyNotFound)
    }

    /** Weighs the strings, builds the tree, then packs every string and
        records where its bits start; the tree is returned as a ghost, with
        the sorted leaf queue it was built from. */
    method Compress() returns (ghost queue: seq<Node>, ghost root: Node)
      requires Valid()
      modifies this
      ensures Valid() && keys == old(keys)
      ensures Compressed(keys, positions, nodes, codes, compressedData, queue, root)
    {
      var slots, chainCodes, data, pos;
      slots, chainCodes, data, pos, queue, root := CompressStrings(keys, positions);
      nodes, codes, compressedData, positions := slots, chainCodes, data, pos;
    }
  }

  /** What Compress leaves behind for the strings keys: the tree of their
      weights (built from the sorted leaf queue), its node array and chain
      codes, which cover every char of every string; the packed bits of all
      the strings in order; and the start of each string's bits. */
  ghost predicate Compressed(keys: seq<Str>, positions: map<Str, int>, nodes: seq<int>,
                             codes: map<Char16, ChainCode>, data: seq<byte>, queue: seq<Node>, root: Node)
  {
    TreeOf(Tally(Stream(keys)), queue, root) &&
    nodes == Flatten(root, 0) && codes == Codes(root, EmptyCode) &&
    Covers(codes, keys) &&
    data == Pack(AllBits(codes, keys)) &&
    forall k :: 0 <= k < |keys| ==> keys[k] in positions && positions[keys[k]] == Start(codes, keys, k)
  }

  /** The work of Compress on the strings and their position table: the
      weights, the tree, then the packed strings and their starts. */
  method CompressStrings(strings: seq<Str>, start: map<Str, int>)
    returns (nodes: seq<int>, codes: map<Char16, ChainCode>, data: seq<byte>, positions: map<Str, int>,
             ghost queue: seq<Node>, ghost root: Node)
    requires Distinct(strings) && forall k :: 0 <= k < |strings| ==> strings[k] in start
    ensures positions.Keys == start.Keys
    ensures Compressed(strings, positions, nodes, codes, data, queue, root)
  {
    var weights := CountWeights(strings);
    nodes, codes, queue, root := BuildNodes(weights);
    StreamCovered(strings, weights, root);
    data, positions := PackStrings(codes, strings, start);
  }

  /** BuildNodes: the leaves sorted by weight and combined two at a time
      into the tree (returned as the ghost queue and root), then the node
      array and the chain codes of its leaves, which Compress stores. */
  method BuildNodes(weights: Weights)
    returns (nodes: seq<int>, codes: map<Char16, ChainCode>, ghost queue: seq<Node>, ghost root: Node)
    requires Distinct(Keys(weights))
    ensures TreeOf(weights, queue, root)
    ensures nodes == Flatten(root, 0) && codes == Codes(root, EmptyCode)
  {
    var leaves := LeafNodes(weights);
    var sorted := SortBy(leaves, Weight);
    var top := Combine(sorted);
    TreeLeaves(weights, sorted, top);
    var flat := PostOrder(top);
    nodes := NodeArray(flat);
    NodesFlatten(top, nodes);
    codes := Codes(top, EmptyCode);
    queue, root := sorted, top;
  }

  /** The packing loop of Compress: each string's bits appended in turn, its
      start recorded in the positions, and the last byte flushed. */
  method PackStrings(codes: map<Char16, ChainCode>, ss: seq<Str>, start: map<Str, int>)
    returns (data: seq<byte>, positions: map<Str, int>)
    requires Distinct(ss) && Covers(codes, ss)
    requires forall k :: 0 <= k < |ss| ==> ss[k] in start
    ensures data == Pack(AllBits(codes, ss))
    ensures positions.Keys == start.Keys
    ensures forall k :: 0 <= k < |ss| ==> positions[ss[k]] == Start(codes, ss, k)
  {
    var packer := new BitPacker();
    positions := start;
    var i := 0;
    while i < |ss|
      invariant i <= |ss| && packer.Valid() && packer.Bits() == AllBits(codes, ss[..i])
      invariant positions.Keys == start.Keys
      invariant forall k :: 0 <= k < i ==> positions[ss[k]] == Start(codes, ss, k)
    {
      positions := PackNext(packer, codes, ss, i, positions);
      i := i + 1;
    }
    assert ss[..i] == ss;
    data := packer.Finish();
  }

  /** One turn of the packing loop: the string's start is recorded, then
      its bits are appended. */
  method PackNext(packer: BitPacker, codes: map<Char16, ChainCode>, ss: seq<Str>, i: nat,
                  positions: map<Str, int>) returns (next: map<Str, int>)
    requires i < |ss| && Distinct(ss) && Covers(codes, ss)
    requires packer.Valid() && packer.Bits() == AllBits(codes, ss[..i])
    requires forall k :: 0 <= k < |ss| ==> ss[k] in positions
    requires forall k :: 0 <= k < i ==> positions[ss[k]] == Start(codes, ss, k)
    modifies packer
    ensures packer.Valid() && packer.Bits() == AllBits(codes, ss[..i + 1])
    ensures next.Keys == positions.Keys
    ensures forall k :: 0 <= k < i + 1 ==> next[ss[k]] == Start(codes, ss, k)
  {
    AllBitsSnoc(codes, ss, i);
    RecordNext(codes, ss, i, positions, packer.count);
    next := positions[ss[i] := packer.count];
    AddString(packer, codes, ss[i]);
  }

  /** The first loop of BuildNodes: a leaf per weighed char, in the order
      of the weights, or a lone NUL leaf when nothing was weighed. */
  method LeafNodes(weights: Weights) returns (leaves: seq<Node>)
    ensures leaves == LeafQueue(weights)
  {
    leaves := [];
    var i := 0;
    while i < |weights|
      invariant i <= |weights| && |leaves| == i
      invariant forall k :: 0 <= k < i ==> leaves[k] == Leaf(weights[k].0, weights[k].1)
    {
      leaves := leaves + [Leaf(weights[i].0, weights[i].1)];
      i := i + 1;
    }
    if |leaves| == 0 {
      leaves := [Leaf(NUL, 0)];
    }
  }

  /** The node array built by looking children up in the post-order list
      is the structural flattening of the tree. */
  lemma NodesFlatten(top: Node, slots: seq<int>)
    requires Distinct(Leaves(top))
    requires |slots| == 2 * |PostOrder(top)|
    requires forall k :: 0 <= k < |PostOrder(top)| ==>
      slots[2 * k] == ChildSlot(PostOrder(top), PostOrder(top)[k].left) &&
      slots[2 * k + 1] == ChildSlot(PostOrder(top), PostOrder(top)[k].right)
    ensures slots == Flatten(top, 0)
  {
    var flat := PostOrder(top);
    forall k | 0 <= k < |flat|
      ensures slots[2 * k] == Flatten(top, 0)[2 * k] && slots[2 * k + 1] == Flatten(top, 0)[2 * k + 1]
    {
      ChildSlotsFlatten(top, k);
    }
    SlotsEqual(slots, Flatten(top, 0), |flat|);
  }

  /** root is the tree BuildNodes makes of the weights: queue is their
      leaf queue stably sorted by weight (as OrderBy sorts, equal weights
      keep the order of the weights), root what combining it gives, and
      its leaves are the weighed chars, each once. */
  ghost predicate TreeOf(weights: Weights, queue: seq<Node>, root: Node)
  {
    queue == InsertAll(LeafQueue(weights), Weight) &&
    SortedBy(queue, Weight) && multiset(queue) == multiset(LeafQueue(weights)) &&
    |queue| >= 1 && root == Built(queue) &&
    Distinct(Leaves(root)) && multiset(Leaves(root)) == Bag(LeafQueue(weights))
  }

  /** The leaf queue gives the tree one leaf per key of the weights, or a
      NUL leaf when there are none. */
  lemma TreeLeaves(weights: Weights, sorted: seq<Node>, top: Node)
    requires Distinct(Keys(weights))
    requires sorted == InsertAll(LeafQueue(weights), Weight)
    requires SortedBy(sorted, Weight) && multiset(sorted) == multiset(LeafQueue(weights))
    requires |sorted| >= 1 && top == Built(sorted)
    ensures TreeOf(weights, sorted, top)
  {
    var q := LeafQueue(weights);
    forall i | 0 <= i < |sorted|
      ensures sorted[i].Leaf?
    {
      assert sorted[i] in multiset(q);
    }
    BagPerm(sorted, q);
    BuiltFromLeaves(sorted);
    LeafQueueChars(weights);
    if weights == [] {
      var one: seq<Char16> := [NUL];
      assert multiset(one) == multiset{NUL};
      PermutationDistinct(one, Leaves(top));
    } else {
      PermutationDistinct(Keys(weights), Leaves(top));
    }
  }

  lemma SlotsEqual(a: seq<int>, b: seq<int>, n: nat)
    requires |a| == |b| == 2 * n
    requires forall k :: 0 <= k < n ==> a[2 * k] == b[2 * k] && a[2 * k + 1] == b[2 * k + 1]
    ensures a == b
  {
    forall i | 0 <= i < |a|
      ensures a[i] == b[i]
    {
      var k := i / 2;
      assert i == 2 * k || i == 2 * k + 1;
    }
  }

  /** Every char of the strings, and NUL, has a chain code in the tree of
      their weights. */
  lemma StreamCovered(ss: seq<Str>, weights: Weights, top: Node)
    requires weights == Tally(Stream(ss))
    requires multiset(Leaves(top)) == Bag(LeafQueue(weights))
    ensures Covers(Codes(top, EmptyCode), ss)
  {
    TallyKeys(Stream(ss));
    LeafQueueChars(weights);
    StreamChars(ss);
    CodesDomain(top, EmptyCode);
    if ss == [] {
      assert NUL in multiset(Leaves(top));
    } else {
      assert NUL in Keys(weights);
      assert NUL in multiset(Leaves(top));
    }
    forall k, c | 0 <= k < |ss| && c in ss[k]
      ensures c in Codes(top, EmptyCode)
    {
      assert c in Keys(weights);
      assert c in multiset(Leaves(top));
    }
  }

  /** Recording the start of the next string keeps the starts of the
      strings before it, the strings being distinct. */
  lemma RecordNext(codes: map<Char16, ChainCode>, ss: seq<Str>, i: nat, positions: map<Str, int>, c: int)
    requires Distinct(ss) && Covers(codes, ss) && i < |ss|
    requires forall k :: 0 <= k < |ss| ==> ss[k] in positions
    requires c == Start(codes, ss, i)
    requires forall k :: 0 <= k < i ==> positions[ss[k]] == Start(codes, ss, k)
    ensures forall k :: 0 <= k < i + 1 ==> positions[ss[i] := c][ss[k]] == Start(codes, ss, k)
  {
    DistinctAt(ss, i);
  }

  lemma DistinctAt(ss: seq<Str>, i: nat)
    requires Distinct(ss) && i < |ss|
    ensures forall k :: 0 <= k < i ==> ss[k] != ss[i]
  {
  }
}
