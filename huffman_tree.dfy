/** The Huffman tree of the ME3 string compressor: char weights, the
    queue that merges the two lightest nodes until one root is left, the
    flat node array the game reads and the chain codes (the path from the
    root to each leaf, one bit per step). */
module HuffmanTree {
  import opened Primitives
  import opened Sorting

  // ---------------------------------------------------------------------
  // Weights: a dictionary from char to uint, in insertion order.

  type Weights = seq<(Char16, uint32)>

  /** The chars that have a weight, in insertion order. */
  function Keys(w: Weights): (r: seq<Char16>)
    ensures |r| == |w|
    ensures forall i :: 0 <= i < |w| ==> r[i] == w[i].0
  {
    if w == [] then [] else [w[0].0] + Keys(w[1..])
  }

  /** The weight of a char: the first entry for it (0 when it has none,
      which the compressor never asks for). */
  function Lookup(w: Weights, c: Char16): uint32
  {
    if w == [] then 0 else if w[0].0 == c then w[0].1 else Lookup(w[1..], c)
  }

  /** `++` on a uint: one more, wrapping to 0 past the largest value. */
  function Inc32(x: uint32): uint32
  {
    if x == 0xFFFF_FFFF then 0 else x + 1
  }

  /** One occurrence of c: a known char's weight goes up by one (wrapping
      like a uint), a new char starts at 0. */
  function Bump(w: Weights, c: Char16): Weights
  {
    if w == [] then [(c, 0)]
    else if w[0].0 == c then [(c, Inc32(w[0].1))] + w[1..]
    else [w[0]] + Bump(w[1..], c)
  }

  /** The weights after every char of s in turn. */
  function Tally(s: Str): Weights
  {
    if s == [] then [] else Bump(Tally(s[..|s| - 1]), s[|s| - 1])
  }

  /** What the compressor counts: each string, then one NUL terminator. */
  function Stream(ss: seq<Str>): Str
  {
    if ss == [] then [] else Stream(ss[..|ss| - 1]) + ss[|ss| - 1] + [NUL]
  }

  lemma {:induction false} BumpKeys(w: Weights, c: Char16)
    ensures Keys(Bump(w, c)) == if c in Keys(w) then Keys(w) else Keys(w) + [c]
  {
    if w != [] {
      var tl := w[1..];
      assert Keys(w) == [w[0].0] + Keys(tl);
      if w[0].0 != c {
        BumpKeys(tl, c);
        assert Keys(Bump(w, c)) == [w[0].0] + Keys(Bump(tl, c));
      } else {
        assert Keys(Bump(w, c)) == [c] + Keys(tl);
      }
    }
  }

  /** Bumping c leaves the weight of every other char as it was. */
  lemma {:induction false} BumpOther(w: Weights, c: Char16, d: Char16)
    requires d != c && d in Keys(w)
    ensures d in Keys(Bump(w, c))
    ensures Lookup(Bump(w, c), d) == Lookup(w, d)
  {
    var tl := w[1..];
    assert Keys(w) == [w[0].0] + Keys(tl);
    if w[0].0 == d {
      assert Bump(w, c) == [w[0]] + Bump(tl, c);
    } else if w[0].0 == c {
      assert Keys(Bump(w, c)) == [c] + Keys(tl);
    } else {
      BumpOther(tl, c, d);
      assert Keys(Bump(w, c)) == [w[0].0] + Keys(Bump(tl, c));
    }
  }

  /** Bumping a weighed char weighs it one more (wrapping). */
  lemma {:induction false} BumpKnown(w: Weights, c: Char16)
    requires c in Keys(w)
    ensures c in Keys(Bump(w, c))
    ensures Lookup(Bump(w, c), c) == Inc32(Lookup(w, c))
  {
    if w[0].0 == c {
      BumpHead(w, c);
    } else {
      KeysPast(w, c);
      BumpKnown(w[1..], c);
      BumpPast(w, c);
      assert c in Keys(Bump(w, c));
    }
  }

  /** Bumping a new char weighs it at 0. */
  lemma {:induction false} BumpNew(w: Weights, c: Char16)
    requires c !in Keys(w)
    ensures c in Keys(Bump(w, c))
    ensures Lookup(Bump(w, c), c) == 0
  {
    if w == [] {
      assert Keys(Bump(w, c)) == [c];
    } else {
      assert c !in Keys(w[1..]) by { assert Keys(w) == [w[0].0] + Keys(w[1..]); }
      BumpNew(w[1..], c);
      BumpPast(w, c);
    }
  }

  /** Bumping the first char of the dictionary. */
  lemma BumpHead(w: Weights, c: Char16)
    requires w != [] && w[0].0 == c
    ensures c in Keys(Bump(w, c))
    ensures Lookup(Bump(w, c), c) == Inc32(w[0].1) && Lookup(w, c) == w[0].1
  {
    var b := Bump(w, c);
    assert b[0] == (c, Inc32(w[0].1));
    assert Keys(b)[0] == c;
  }

  /** A weighed char other than the first is weighed in the rest. */
  lemma KeysPast(w: Weights, c: Char16)
    requires c in Keys(w) && w[0].0 != c
    ensures c in Keys(w[1..])
  {
    assert Keys(w) == [w[0].0] + Keys(w[1..]);
  }

  /** Bumping past a first entry for another char: c's weight and presence
      are those in the rest. */
  lemma BumpPast(w: Weights, c: Char16)
    requires w != [] && w[0].0 != c && c in Keys(Bump(w[1..], c))
    ensures c in Keys(Bump(w, c))
    ensures Lookup(Bump(w, c), c) == Lookup(Bump(w[1..], c), c) && Lookup(w, c) == Lookup(w[1..], c)
  {
    var b := Bump(w, c);
    assert b == [w[0]] + Bump(w[1..], c);
    assert Keys(b) == [w[0].0] + Keys(Bump(w[1..], c));
  }

  /** Keys stay distinct under Bump. */
  lemma BumpDistinct(w: Weights, c: Char16)
    requires Distinct(Keys(w))
    ensures Distinct(Keys(Bump(w, c)))
  {
    BumpKeys(w, c);
  }

  /** The dictionary the compressor builds holds each char of the text
      once, in order of first appearance. */
  lemma {:induction false} TallyKeys(s: Str)
    ensures Distinct(Keys(Tally(s)))
    ensures forall c :: c in Keys(Tally(s)) <==> c in s
  {
    if s != [] {
      var init, c := s[..|s| - 1], s[|s| - 1];
      assert s == init + [c];
      TallyKeys(init);
      BumpKeys(Tally(init), c);
      BumpDistinct(Tally(init), c);
    }
  }

  /** Each char is weighed at its number of occurrences less one (as a
      uint). */
  lemma TallyWeights(s: Str, d: Char16)
    requires d in s
    ensures d in Keys(Tally(s))
    ensures Lookup(Tally(s), d) == Bits32(multiset(s)[d] as int - 1)
  {
    TallyCount(s, d);
    Count32Bits(multiset(s)[d] - 1);
  }

  /** n increments of a uint from 0. */
  function Count32(n: nat): uint32
  {
    if n == 0 then 0 else Inc32(Count32(n - 1))
  }

  /** n increments from 0 leave n modulo 2^32. */
  lemma {:induction false} Count32Bits(n: nat)
    ensures Count32(n) == Bits32(n)
  {
    if n > 0 {
      Count32Bits(n - 1);
    }
  }

  /** TallyWeights, counted in increments. */
  lemma {:induction false} TallyCount(s: Str, d: Char16)
    requires d in s
    ensures d in Keys(Tally(s))
    ensures Lookup(Tally(s), d) == Count32(multiset(s)[d] - 1)
  {
    var init: Str := s[..|s| - 1];
    if d in init {
      TallyCount(init, d);
      TallyAgain(s, d);
    } else {
      FirstAtEnd(s, d);
      TallyAbsent(init, d);
      TallyFirst(s, d);
    }
  }

  lemma TallyAbsent(s: Str, d: Char16)
    requires d !in s
    ensures d !in Keys(Tally(s))
  {
    TallyKeys(s);
  }

  /** A char of s that is not in s less its last char is that last char. */
  lemma FirstAtEnd(s: Str, d: Char16)
    requires d in s && d !in s[..|s| - 1]
    ensures s[|s| - 1] == d
  {
    assert s == s[..|s| - 1] + [s[|s| - 1]];
  }

  /** A char already weighed: its weight goes up by one (wrapping) when it
      comes again, and stays when another char comes. */
  lemma TallyAgain(s: Str, d: Char16)
    requires s != [] && d in s[..|s| - 1]
    requires d in Keys(Tally(s[..|s| - 1]))
    requires Lookup(Tally(s[..|s| - 1]), d) == Count32(multiset(s[..|s| - 1])[d] - 1)
    ensures d in Keys(Tally(s))
    ensures Lookup(Tally(s), d) == Count32(multiset(s)[d] - 1)
  {
    var init: Str, c: Char16 := s[..|s| - 1], s[|s| - 1];
    var t := Tally(init);
    assert Tally(s) == Bump(t, c);
    CountLast(s, d);
    BumpStep(t, c, d, multiset(init)[d], multiset(s)[d]);
  }

  /** One more char: a weighed char's weight follows its count. */
  lemma BumpStep(t: Weights, c: Char16, d: Char16, m: nat, k: nat)
    requires d in Keys(t) && m >= 1
    requires Lookup(t, d) == Count32(m - 1)
    requires k == m + if c == d then 1 else 0
    ensures d in Keys(Bump(t, c))
    ensures Lookup(Bump(t, c), d) == Count32(k - 1)
  {
    if d == c {
      BumpKnown(t, d);
      assert Count32(k - 1) == Inc32(Count32(m - 1));
    } else {
      BumpOther(t, c, d);
    }
  }

  /** A char met for the first time is weighed at 0. */
  lemma TallyFirst(s: Str, d: Char16)
    requires s != [] && s[|s| - 1] == d && d !in s[..|s| - 1]
    requires d !in Keys(Tally(s[..|s| - 1]))
    ensures d in Keys(Tally(s))
    ensures Lookup(Tally(s), d) == Count32(multiset(s)[d] - 1)
  {
    var init: Str := s[..|s| - 1];
    BumpNew(Tally(init), d);
    CountLast(s, d);
  }

  /** The count of d in s: its count before the last char, plus one if the
      last char is d. */
  lemma CountLast(s: Str, d: Char16)
    requires s != []
    ensures multiset(s)[d] == multiset(s[..|s| - 1])[d] + if s[|s| - 1] == d then 1 else 0
  {
    assert s == s[..|s| - 1] + [s[|s| - 1]];
  }

  /** The chars of the stream: those of the strings, and NUL when there is
      a string. */
  lemma {:induction false} StreamChars(ss: seq<Str>)
    ensures forall c :: c in Stream(ss) <==> (c == NUL && ss != []) || exists k :: 0 <= k < |ss| && c in ss[k]
  {
    if ss != [] {
      var init, last := ss[..|ss| - 1], ss[|ss| - 1];
      StreamChars(init);
      forall c | c in Stream(ss)
        ensures c == NUL || exists k :: 0 <= k < |ss| && c in ss[k]
      {
        if c in Stream(init) && c != NUL {
          var k :| 0 <= k < |init| && c in init[k];
          assert ss[k] == init[k];
        } else if c in last {
          assert c in ss[|ss| - 1];
        }
      }
      forall c | exists k :: 0 <= k < |ss| && c in ss[k]
        ensures c in Stream(ss)
      {
        var k :| 0 <= k < |ss| && c in ss[k];
        if k < |init| {
          assert c in init[k];
        }
      }
    }
  }

  /** Each string brings exactly one NUL of its own, so a list of strings
      without NULs has NUL weighed at the number of strings less one. */
  lemma {:induction false} StreamNuls(ss: seq<Str>)
    requires forall k :: 0 <= k < |ss| ==> NUL !in ss[k]
    ensures multiset(Stream(ss))[NUL] == |ss|
  {
    if ss != [] {
      var init, last := ss[..|ss| - 1], ss[|ss| - 1];
      StreamNuls(init);
      assert multiset(last)[NUL] == 0;
    }
  }

  // ---------------------------------------------------------------------
  // The tree and the queue that builds it.

  /** A node: a leaf holds a char, an inner node its two children; both
      carry a uint weight. */
  datatype Node = Leaf(ch: Char16, weight: uint32) | Inner(weight: uint32, left: Node, right: Node)

  /** The sort key of the queue. */
  function Weight(n: Node): nat { n.weight }

  /** The chars at the leaves, left to right. */
  function Leaves(n: Node): (cs: seq<Char16>)
    ensures |cs| >= 1
  {
    match n
    case Leaf(c, _) => [c]
    case Inner(_, l, r) => Leaves(l) + Leaves(r)
  }

  /** The number of inner nodes. */
  function Inners(n: Node): nat
  {
    match n
    case Leaf(_, _) => 0
    case Inner(_, l, r) => Inners(l) + Inners(r) + 1
  }

  /** A binary tree has one leaf more than it has inner nodes. */
  lemma {:induction false} LeavesInners(n: Node)
    ensures |Leaves(n)| == Inners(n) + 1
  {
    match n
    case Leaf(_, _) =>
    case Inner(_, l, r) => LeavesInners(l); LeavesInners(r);
  }

  /** The leaves of every node of a queue. */
  function Bag(q: seq<Node>): multiset<Char16>
  {
    if q == [] then multiset{} else multiset(Leaves(q[0])) + Bag(q[1..])
  }

  /** The starting queue: one leaf per weighed char, in dictionary order,
      or a lone NUL leaf of weight 0 when nothing was weighed. */
  function LeafQueue(w: Weights): (q: seq<Node>)
    ensures |q| == if w == [] then 1 else |w|
    ensures forall i :: 0 <= i < |q| ==> q[i].Leaf?
  {
    if w == [] then [Leaf(NUL, 0)] else seq(|w|, i requires 0 <= i < |w| => Leaf(w[i].0, w[i].1))
  }

  lemma {:induction false} LeafQueueBag(q: seq<Node>)
    requires forall i :: 0 <= i < |q| ==> q[i].Leaf?
    ensures Bag(q) == multiset(seq(|q|, i requires 0 <= i < |q| => q[i].ch))
  {
    if q != [] {
      LeafQueueBag(q[1..]);
      var cs := seq(|q|, i requires 0 <= i < |q| => q[i].ch);
      assert cs == [q[0].ch] + seq(|q[1..]|, i requires 0 <= i < |q[1..]| => q[1..][i].ch);
    }
  }

  /** The leaves of the starting queue are the weighed chars. */
  lemma LeafQueueChars(w: Weights)
    ensures Bag(LeafQueue(w)) == if w == [] then multiset{NUL} else multiset(Keys(w))
  {
    var q := LeafQueue(w);
    LeafQueueBag(q);
    if w == [] {
      assert seq(|q|, i requires 0 <= i < |q| => q[i].ch) == [NUL];
    } else {
      assert seq(|q|, i requires 0 <= i < |q| => q[i].ch) == Keys(w);
    }
  }

  /** A new inner node over two nodes, weighing their sum as a uint. */
  function Merge(l: Node, r: Node): (n: Node)
    ensures multiset(Leaves(n)) == multiset(Leaves(l)) + multiset(Leaves(r))
    ensures Inners(n) == Inners(l) + Inners(r) + 1
  {
    Inner(Bits32(l.weight + r.weight), l, r)
  }

  /** `List.FindIndex` for the first node strictly heavier than w: -1 when
      there is none. */
  function FindHeavier(q: seq<Node>, w: nat): (i: int)
    ensures -1 <= i < |q|
    ensures i >= 0 ==> Weight(q[i]) > w && forall j :: 0 <= j < i ==> Weight(q[j]) <= w
    ensures i < 0 ==> forall j :: 0 <= j < |q| ==> Weight(q[j]) <= w
  {
    var k := FirstAbove(q, w, Weight);
    if k == |q| then -1 else k
  }

  /** One round: the first two nodes leave the queue and their parent goes
      in before the first node heavier than it. */
  function Round(q: seq<Node>): (r: seq<Node>)
    requires |q| >= 2
    ensures |r| == |q| - 1
  {
    InsertBy(q[2..], Merge(q[0], q[1]), Weight)
  }

  /** The root the rounds leave. */
  function Built(q: seq<Node>): Node
    requires |q| >= 1
    decreases |q|
  {
    if |q| == 1 then q[0] else Built(Round(q))
  }

  lemma {:induction false} BagInsert(q: seq<Node>, n: Node)
    ensures Bag(InsertBy(q, n, Weight)) == Bag(q) + multiset(Leaves(n))
  {
    if q != [] && Weight(n) >= Weight(q[0]) {
      BagInsert(q[1..], n);
      assert InsertBy(q, n, Weight)[1..] == InsertBy(q[1..], n, Weight);
    } else {
      assert ([n] + q)[1..] == q;
    }
  }

  /** The leaves of a queue do not depend on its order. */
  lemma {:induction false} BagPerm(a: seq<Node>, b: seq<Node>)
    requires multiset(a) == multiset(b)
    ensures Bag(a) == Bag(b)
    decreases |a|
  {
    if a != [] {
      assert a[0] in multiset(b);
      var j :| 0 <= j < |b| && b[j] == a[0];
      var b' := Without(b, j);
      WithoutCount(a, b, j);
      BagPerm(a[1..], b');
      BagWithout(b, j);
      assert Bag(a) == multiset(Leaves(a[0])) + Bag(a[1..]);
    }
  }

  /** The queue with its j-th node taken out. */
  function Without(b: seq<Node>, j: nat): (r: seq<Node>)
    requires j < |b|
    ensures |r| == |b| - 1
  {
    b[..j] + b[j + 1..]
  }

  /** Taking the same node out of two equal bags leaves equal bags. */
  lemma WithoutCount(a: seq<Node>, b: seq<Node>, j: nat)
    requires a != [] && j < |b| && b[j] == a[0] && multiset(a) == multiset(b)
    ensures multiset(a[1..]) == multiset(Without(b, j))
  {
    var x := a[0];
    assert b == b[..j] + [x] + b[j + 1..];
    assert a == [x] + a[1..];
    assert multiset(a[1..]) == multiset(a) - multiset{x};
    assert multiset(Without(b, j)) == multiset(b) - multiset{x};
  }

  /** The leaves of a queue are those of any one node plus the rest's. */
  lemma {:induction false} BagWithout(b: seq<Node>, j: nat)
    requires j < |b|
    ensures Bag(b) == multiset(Leaves(b[j])) + Bag(Without(b, j))
  {
    if j == 0 {
      assert Without(b, 0) == b[1..];
    } else {
      var w := Without(b, j);
      assert w[0] == b[0];
      assert w[1..] == Without(b[1..], j - 1);
      BagWithout(b[1..], j - 1);
    }
  }

  /** A round keeps every leaf of the queue. */
  lemma RoundBag(q: seq<Node>)
    requires |q| >= 2
    ensures Bag(Round(q)) == Bag(q)
  {
    BagInsert(q[2..], Merge(q[0], q[1]));
    assert q[1..][1..] == q[2..];
  }

  /** The queue after Combine's loop body is the next round's. */
  lemma RoundStep(q: seq<Node>, index: int, next: seq<Node>)
    requires |q| >= 2 && SortedBy(q, Weight)
    requires index == FindHeavier(q[2..], Merge(q[0], q[1]).weight)
    requires next == if index < 0 then q[2..] + [Merge(q[0], q[1])]
      else q[2..][..index] + [Merge(q[0], q[1])] + q[2..][index..]
    ensures next == Round(q) && SortedBy(next, Weight)
    ensures Built(next) == Built(q)
  {
    var rest, node := q[2..], Merge(q[0], q[1]);
    InsertAtFirstAbove(rest, node, Weight);
    if index < 0 {
      assert rest[..|rest|] == rest;
      assert rest[|rest|..] == [];
    }
    RoundSorted(q);
  }

  /** A round keeps the queue in weight order. */
  lemma RoundSorted(q: seq<Node>)
    requires |q| >= 2 && SortedBy(q, Weight)
    ensures SortedBy(Round(q), Weight)
  {
    InsertSorted(q[2..], Merge(q[0], q[1]), Weight);
  }

  /** The root holds every leaf of the starting queue. */
  lemma {:induction false} BuiltBag(q: seq<Node>)
    requires |q| >= 1
    ensures multiset(Leaves(Built(q))) == Bag(q)
    decreases |q|
  {
    if |q| == 1 {
      assert q[1..] == [];
    } else {
      RoundBag(q);
      BuiltBag(Round(q));
    }
  }

  /** The tree-building loop of BuildNodes: while two or more nodes are
      queued, the two lightest (the queue is kept in weight order) are
      joined and their parent is queued again. */
  method Combine(queue0: seq<Node>) returns (root: Node)
    requires |queue0| >= 1 && SortedBy(queue0, Weight)
    ensures root == Built(queue0)
  {
    var queue := queue0;
    while |queue| > 1
      invariant |queue| >= 1 && SortedBy(queue, Weight)
      invariant Built(queue) == Built(queue0)
      decreases |queue|
    {
      var left, right := queue[0], queue[1];
      var node := Merge(left, right);
      ghost var before := queue;
      queue := queue[2..];
      var index := FindHeavier(queue, node.weight);
      if index < 0 {
        queue := queue + [node];
      } else {
        queue := queue[..index] + [node] + queue[index..];
      }
      RoundStep(before, index, queue);
    }
    root := queue[0];
  }

  /** Built from a queue of single leaves, the root has each char once more
      at a leaf, and one inner node fewer than there were leaves. */
  lemma BuiltFromLeaves(q: seq<Node>)
    requires |q| >= 1 && forall i :: 0 <= i < |q| ==> q[i].Leaf?
    ensures multiset(Leaves(Built(q))) == Bag(q)
    ensures Inners(Built(q)) == |q| - 1
  {
    BuiltBag(q);
    LeafQueueBag(q);
    LeavesInners(Built(q));
    assert |Leaves(Built(q))| == |multiset(Leaves(Built(q)))|;
  }

  // ---------------------------------------------------------------------
  // The flat node array.

  /** FlattenNodes: the inner nodes in post order (children first), so the
      root comes last. */
  function PostOrder(n: Node): (po: seq<Node>)
    ensures |po| == Inners(n)
    ensures forall k :: 0 <= k < |po| ==> po[k].Inner?
    ensures n.Inner? ==> po[|po| - 1] == n
  {
    match n
    case Leaf(_, _) => []
    case Inner(_, l, r) => PostOrder(l) + PostOrder(r) + [n]
  }

  /** `List.IndexOf`: the first position holding x, or -1. */
  function IndexOf(po: seq<Node>, x: Node): (i: int)
    ensures -1 <= i < |po|
    ensures i >= 0 ==> po[i] == x
  {
    if po == [] then -1
    else if po[0] == x then 0
    else var j := IndexOf(po[1..], x); if j < 0 then -1 else j + 1
  }

  /** What a parent stores for its child: a leaf as -1 - char, an inner
      node as its position in the list. */
  function ChildSlot(po: seq<Node>, child: Node): int
  {
    if child.Leaf? then -1 - child.ch else IndexOf(po, child)
  }

  /** The array BuildNodes stores for a subtree whose inner nodes are
      numbered from base: each inner node, in post order, as the slots of
      its left and right child. */
  function Flatten(n: Node, base: nat): (a: seq<int>)
    ensures |a| == 2 * Inners(n)
  {
    match n
    case Leaf(_, _) => []
    case Inner(_, l, r) =>
      Flatten(l, base) + Flatten(r, base + Inners(l)) + [Slot(l, base), Slot(r, base + Inners(l))]
  }

  /** The slot of a child numbered from base: its char's -1 - char for a
      leaf, the index of its own root (last in its post order) otherwise. */
  function Slot(n: Node, base: nat): int
  {
    match n
    case Leaf(c, _) => -1 - c
    case Inner(_, _, _) => base + Inners(n) - 1
  }

  /** slot is how entry k of the list po (numbered from base) refers to
      child: -1 - char for a leaf; for an inner node, an earlier index
      whose entry is that child. */
  predicate Points(po: seq<Node>, base: int, k: nat, slot: int, child: Node)
  {
    (child.Leaf? ==> slot == -1 - child.ch) &&
    (child.Inner? ==> base <= slot < base + k && slot - base < |po| && po[slot - base] == child)
  }

  lemma PointsExtend(po: seq<Node>, more: seq<Node>, base: int, k: nat, slot: int, child: Node)
    requires Points(po, base, k, slot, child)
    ensures Points(po + more, base, k, slot, child)
  {
    if child.Inner? {
      assert (po + more)[slot - base] == po[slot - base];
    }
  }

  lemma PointsShift(pl: seq<Node>, pr: seq<Node>, more: seq<Node>, base: int, k: nat, slot: int, child: Node)
    requires Points(pr, base + |pl|, k, slot, child)
    ensures Points(pl + pr + more, base, k + |pl|, slot, child)
  {
    if child.Inner? {
      assert (pl + pr + more)[slot - base] == pr[slot - base - |pl|];
    }
  }

  /** Pair k of the flat array points at the two children of the k-th inner
      node in post order; an inner child always sits at a smaller index
      than its parent. */
  lemma {:induction false} FlattenAt(n: Node, base: nat, k: nat)
    requires k < Inners(n)
    ensures Points(PostOrder(n), base, k, Flatten(n, base)[2 * k], PostOrder(n)[k].left)
    ensures Points(PostOrder(n), base, k, Flatten(n, base)[2 * k + 1], PostOrder(n)[k].right)
    decreases n, 1
  {
    if k < Inners(n.left) {
      FlattenInLeft(n, base, k);
    } else if k < Inners(n.left) + Inners(n.right) {
      FlattenInRight(n, base, k);
    } else {
      FlattenRootAt(n, base);
    }
  }

  lemma {:induction false} FlattenInLeft(n: Node, base: nat, k: nat)
    requires n.Inner? && k < Inners(n.left)
    ensures Points(PostOrder(n), base, k, Flatten(n, base)[2 * k], PostOrder(n)[k].left)
    ensures Points(PostOrder(n), base, k, Flatten(n, base)[2 * k + 1], PostOrder(n)[k].right)
    decreases n, 0
  {
    var l, r := n.left, n.right;
    var il := Inners(l);
    var pl, pr := PostOrder(l), PostOrder(r);
    var fl, fr := Flatten(l, base), Flatten(r, base + il);
    var tail := [Slot(l, base), Slot(r, base + il)];
    assert PostOrder(n) == pl + (pr + [n]);
    assert Flatten(n, base) == fl + (fr + tail);
    FlattenAt(l, base, k);
    PointsExtend(pl, pr + [n], base, k, fl[2 * k], pl[k].left);
    PointsExtend(pl, pr + [n], base, k, fl[2 * k + 1], pl[k].right);
  }

  lemma {:induction false} FlattenInRight(n: Node, base: nat, k: nat)
    requires n.Inner? && Inners(n.left) <= k < Inners(n.left) + Inners(n.right)
    ensures Points(PostOrder(n), base, k, Flatten(n, base)[2 * k], PostOrder(n)[k].left)
    ensures Points(PostOrder(n), base, k, Flatten(n, base)[2 * k + 1], PostOrder(n)[k].right)
    decreases n, 0
  {
    var l, r := n.left, n.right;
    var il := Inners(l);
    var pl, pr := PostOrder(l), PostOrder(r);
    var fl, fr := Flatten(l, base), Flatten(r, base + il);
    var tail := [Slot(l, base), Slot(r, base + il)];
    assert PostOrder(n) == pl + pr + [n];
    assert Flatten(n, base) == fl + fr + tail;
    var k' := k - il;
    FlattenAt(r, base + il, k');
    assert PostOrder(n)[k] == pr[k'];
    assert Flatten(n, base)[2 * k] == fr[2 * k'];
    assert Flatten(n, base)[2 * k + 1] == fr[2 * k' + 1];
    PointsShift(pl, pr, [n], base, k', fr[2 * k'], pr[k'].left);
    PointsShift(pl, pr, [n], base, k', fr[2 * k' + 1], pr[k'].right);
  }

  lemma FlattenRootAt(n: Node, base: nat)
    requires n.Inner?
    ensures var k := Inners(n) - 1;
      Points(PostOrder(n), base, k, Flatten(n, base)[2 * k], PostOrder(n)[k].left) &&
      Points(PostOrder(n), base, k, Flatten(n, base)[2 * k + 1], PostOrder(n)[k].right)
  {
    var l, r := n.left, n.right;
    var il, ir := Inners(l), Inners(r);
    var pl, pr := PostOrder(l), PostOrder(r);
    var po := PostOrder(n);
    var k := il + ir;
    assert po == pl + pr + [n];
    assert Flatten(n, base)[2 * k] == Slot(l, base);
    assert Flatten(n, base)[2 * k + 1] == Slot(r, base + il);
    if l.Inner? {
      assert po[il - 1] == pl[il - 1];
    }
    if r.Inner? {
      assert po[il + ir - 1] == pr[ir - 1];
    }
  }

  /** Every leaf of a subtree in the post order is a leaf of the tree, and
      the subtree has no more inner nodes than the tree. */
  lemma {:induction false} SubtreeOf(n: Node, k: nat)
    requires k < |PostOrder(n)|
    ensures Inners(PostOrder(n)[k]) <= Inners(n)
    ensures forall c :: c in Leaves(PostOrder(n)[k]) ==> c in Leaves(n)
  {
    var l, r := n.left, n.right;
    var pl, pr := PostOrder(l), PostOrder(r);
    assert PostOrder(n) == pl + pr + [n];
    if k < |pl| {
      SubtreeOf(l, k);
      assert PostOrder(n)[k] == pl[k];
    } else if k < |pl| + |pr| {
      SubtreeOf(r, k - |pl|);
      assert PostOrder(n)[k] == pr[k - |pl|];
    }
  }

  /** Subtrees from the two sides of a node with distinct leaves differ. */
  lemma SidesDiffer(n: Node, i: nat, j: nat)
    requires n.Inner? && Distinct(Leaves(n))
    requires i < Inners(n.left) && j < Inners(n.right)
    ensures PostOrder(n.left)[i] != PostOrder(n.right)[j]
  {
    SubtreeOf(n.left, i);
    SubtreeOf(n.right, j);
    var c := Leaves(PostOrder(n.left)[i])[0];
    SidesDisjoint(n, c);
  }

  /** No char is a leaf on both sides of a node with distinct leaves. */
  lemma SidesDisjoint(n: Node, c: Char16)
    requires n.Inner? && Distinct(Leaves(n)) && c in Leaves(n.left)
    ensures c !in Leaves(n.right)
  {
    var ll, lr := Leaves(n.left), Leaves(n.right);
    assert Leaves(n) == ll + lr;
    var a :| 0 <= a < |ll| && ll[a] == c;
    forall b | 0 <= b < |lr| ensures lr[b] != c {
      assert Leaves(n)[a] == c && Leaves(n)[|ll| + b] == lr[b];
    }
  }

  /** Both sides of a node with distinct leaves have distinct leaves. */
  lemma SidesDistinct(n: Node)
    requires n.Inner? && Distinct(Leaves(n))
    ensures Distinct(Leaves(n.left)) && Distinct(Leaves(n.right))
  {
    var ll, lr := Leaves(n.left), Leaves(n.right);
    assert Leaves(n) == ll + lr;
    forall i, j | 0 <= i < j < |ll| ensures ll[i] != ll[j] { assert Leaves(n)[i] == ll[i] && Leaves(n)[j] == ll[j]; }
    forall i, j | 0 <= i < j < |lr| ensures lr[i] != lr[j] { assert Leaves(n)[|ll| + i] == lr[i] && Leaves(n)[|ll| + j] == lr[j]; }
  }

  /** With distinct leaves, no subtree occurs twice in the post order, so
      IndexOf finds each inner node at its own position. */
  lemma {:induction false} PostOrderDistinct(n: Node)
    requires Distinct(Leaves(n))
    ensures Distinct(PostOrder(n))
  {
    if n.Inner? {
      var l, r := n.left, n.right;
      SidesDistinct(n);
      PostOrderDistinct(l);
      PostOrderDistinct(r);
      var pl, pr := PostOrder(l), PostOrder(r);
      var po := PostOrder(n);
      assert po == pl + pr + [n];
      forall i, j | 0 <= i < j < |po|
        ensures po[i] != po[j]
      {
        if j < |pl| {
          assert po[i] == pl[i] && po[j] == pl[j];
        } else if i >= |pl| && j < |pl| + |pr| {
          assert po[i] == pr[i - |pl|] && po[j] == pr[j - |pl|];
        } else if j < |pl| + |pr| {
          assert po[i] == pl[i] && po[j] == pr[j - |pl|];
          SidesDiffer(n, i, j - |pl|);
        } else if i < |pl| {
          SubtreeOf(l, i);
          assert po[i] == pl[i];
        } else {
          SubtreeOf(r, i - |pl|);
          assert po[i] == pr[i - |pl|];
        }
      }
    }
  }

  lemma {:induction false} IndexOfDistinct(po: seq<Node>, p: nat)
    requires Distinct(po) && p < |po|
    ensures IndexOf(po, po[p]) == p
  {
    if p > 0 {
      assert po[0] != po[p];
      assert Distinct(po[1..]);
      IndexOfDistinct(po[1..], p - 1);
    }
  }

  /** With distinct leaves, the IndexOf-based array of BuildNodes is the
      post-order numbering Flatten. */
  lemma ChildSlotsFlatten(n: Node, k: nat)
    requires Distinct(Leaves(n)) && k < Inners(n)
    ensures ChildSlot(PostOrder(n), PostOrder(n)[k].left) == Flatten(n, 0)[2 * k]
    ensures ChildSlot(PostOrder(n), PostOrder(n)[k].right) == Flatten(n, 0)[2 * k + 1]
  {
    var po := PostOrder(n);
    FlattenAt(n, 0, k);
    PostOrderDistinct(n);
    var a := Flatten(n, 0);
    if po[k].left.Inner? {
      IndexOfDistinct(po, a[2 * k]);
    }
    if po[k].right.Inner? {
      IndexOfDistinct(po, a[2 * k + 1]);
    }
  }

  // ---------------------------------------------------------------------
  // Chain codes.

  /** A 32-bit int as its bits, bit i at index i. */
  type Word = w: seq<bool> | |w| == 32 witness NoBits

  /** n clear bits. */
  function Zeros(n: nat): (z: seq<bool>)
    ensures |z| == n && forall i :: 0 <= i < n ==> !z[i]
  {
    if n == 0 then [] else [false] + Zeros(n - 1)
  }

  /** The int 0. */
  const NoBits: seq<bool> := Zeros(32)

  /** The path to a node: bit i of code is set when step i goes right;
      length is the number of steps. */
  datatype ChainCode = ChainCode(code: Word, length: nat)
  {
    function Left(): ChainCode
    {
      ChainCode(code, length + 1)
    }

    /** `code | (1 << length)` on a 32-bit int, whose shift count is taken
        mod 32. */
    function Right(): ChainCode
    {
      ChainCode(code[length % 32 := true], length + 1)
    }
  }

  const EmptyCode := ChainCode(NoBits, 0)

  /** Whether `code & (1 << j)` is non-zero (shift count mod 32). */
  function Bit(code: Word, j: nat): bool
  {
    code[j % 32]
  }

  /** The bits the compressor emits for a code: bit j for each j below
      the length. */
  function Emit(cc: ChainCode): (bits: seq<bool>)
    ensures |bits| == cc.length
  {
    seq(cc.length, j requires 0 <= j < cc.length => Bit(cc.code, j))
  }

  /** AssignChainCodes: each leaf's char gets the code of the path that
      reaches it from a node whose own code is cc. */
  function Codes(n: Node, cc: ChainCode): map<Char16, ChainCode>
  {
    match n
    case Leaf(c, _) => map[c := cc]
    case Inner(_, l, r) => Codes(l, cc.Left()) + Codes(r, cc.Right())
  }

  /** The steps from n to the leaf holding c: false for left, true for
      right. */
  function PathTo(n: Node, c: Char16): seq<bool>
    requires c in Leaves(n)
  {
    match n
    case Leaf(_, _) => []
    case Inner(_, l, r) => if c in Leaves(l) then [false] + PathTo(l, c) else [true] + PathTo(r, c)
  }

  /** The chain code of a path walked from the root. */
  function CodeOf(path: seq<bool>): (cc: ChainCode)
    ensures cc.length == |path|
  {
    if path == [] then EmptyCode
    else
      var prefix := CodeOf(path[..|path| - 1]);
      if path[|path| - 1] then prefix.Right() else prefix.Left()
  }

  /** The longest path from n to a leaf. */
  function Height(n: Node): nat
  {
    match n
    case Leaf(_, _) => 0
    case Inner(_, l, r) => 1 + if Height(l) < Height(r) then Height(r) else Height(l)
  }

  lemma {:induction false} PathHeight(n: Node, c: Char16)
    requires c in Leaves(n)
    ensures |PathTo(n, c)| <= Height(n)
  {
    if n.Inner? {
      if c in Leaves(n.left) {
        PathHeight(n.left, c);
      } else {
        PathHeight(n.right, c);
      }
    }
  }

  /** Every leaf gets a code and nothing else does. */
  lemma {:induction false} CodesDomain(n: Node, cc: ChainCode)
    ensures forall c :: c in Codes(n, cc) <==> c in Leaves(n)
  {
    if n.Inner? {
      CodesDomain(n.left, cc.Left());
      CodesDomain(n.right, cc.Right());
    }
  }

  /** With distinct leaves, a char on the left is not on the right. */
  lemma LeftNotRight(n: Node, c: Char16)
    requires n.Inner? && Distinct(Leaves(n)) && c in Leaves(n.left)
    ensures c !in Leaves(n.right)
  {
    var ll, lr := Leaves(n.left), Leaves(n.right);
    assert Leaves(n) == ll + lr;
    var a :| 0 <= a < |ll| && ll[a] == c;
    forall b | 0 <= b < |lr|
      ensures lr[b] != c
    {
      assert Leaves(n)[a] == c && Leaves(n)[|ll| + b] == lr[b];
    }
  }

  lemma StepAppend(p: seq<bool>, b: bool, rest: seq<bool>)
    ensures p + [b] + rest == p + ([b] + rest)
  {
  }

  /** With distinct leaves, each char's code is the code of its path. */
  lemma {:induction false} CodesPath(n: Node, p: seq<bool>, c: Char16)
    requires Distinct(Leaves(n)) && c in Leaves(n)
    ensures c in Codes(n, CodeOf(p))
    ensures Codes(n, CodeOf(p))[c] == CodeOf(p + PathTo(n, c))
  {
    CodesDomain(n, CodeOf(p));
    if n.Leaf? {
      assert p + [] == p;
    } else {
      var l, r := n.left, n.right;
      SidesDistinct(n);
      var left := c in Leaves(l);
      var q := p + [!left];
      assert q[..|q| - 1] == p;
      var side := if left then l else r;
      var cs := Codes(side, CodeOf(q));
      assert Codes(n, CodeOf(p)) == if left then cs + Codes(r, CodeOf(p).Right()) else Codes(l, CodeOf(p).Left()) + cs;
      CodesPath(side, q, c);
      if left {
        LeftNotRight(n, c);
        CodesDomain(r, CodeOf(p).Right());
      }
      var rest := PathTo(side, c);
      assert PathTo(n, c) == [!left] + rest;
      StepAppend(p, !left, rest);
    }
  }

  /** A path of at most 32 steps is kept exactly: bit j of its code is
      step j, and the bits past the end are clear. */
  lemma {:induction false} CodeWord(path: seq<bool>)
    requires |path| <= 32
    ensures forall j :: 0 <= j < 32 ==> CodeOf(path).code[j] == (j < |path| && path[j])
  {
    if path != [] {
      var init, b := path[..|path| - 1], path[|path| - 1];
      CodeWord(init);
      var c := CodeOf(init).code;
      assert CodeOf(path).code == if b then c[|init| := true] else c;
    }
  }

  lemma WithinWord(j: nat)
    requires j < 32
    ensures j % 32 == j
  {
  }

  /** A path of at most 32 steps is emitted exactly. */
  lemma CodeBits(path: seq<bool>)
    requires |path| <= 32
    ensures Emit(CodeOf(path)) == path
  {
    CodeWord(path);
    var e := Emit(CodeOf(path));
    forall j | 0 <= j < |path|
      ensures e[j] == path[j]
    {
      WithinWord(j);
    }
  }


}
