/** Greedy construction of the Huffman tree, `buildHuffmanTree`
    (huffmanCompress.cpp:17-44). The priority queue is modelled as a
    sequence: extracting the minimum takes the FIRST element of least
    weight, and a merged node is appended at the end. */
module HuffmanTree {
  import opened Basics
  import opened Frequency

  /** A `HuffmanNode`, with the `'\0'`-data convention replaced by a tag:
      a leaf holds a symbol and its count, an internal node its weight and
      two children. */
  datatype Tree = Leaf(sym: Byte, w: nat) | Node(w: nat, left: Tree, right: Tree)

  /** The leaf symbols, left to right. */
  function Syms(t: Tree): seq<Byte> {
    match t
    case Leaf(s, _) => [s]
    case Node(_, l, r) => Syms(l) + Syms(r)
  }

  function Internals(t: Tree): nat {
    match t
    case Leaf(_, _) => 0
    case Node(_, l, r) => 1 + Internals(l) + Internals(r)
  }

  function Height(t: Tree): nat {
    match t
    case Leaf(_, _) => 0
    case Node(_, l, r) => 1 + if Height(l) < Height(r) then Height(r) else Height(l)
  }

  /** Every internal node weighs the sum of its children. */
  ghost predicate WellWeighted(t: Tree) {
    match t
    case Leaf(_, _) => true
    case Node(w, l, r) => w == l.w + r.w && WellWeighted(l) && WellWeighted(r)
  }

  /** A tree with n leaves has n - 1 internal nodes and height below n. */
  lemma {:induction false} TreeShape(t: Tree)
    ensures Internals(t) + 1 == |Syms(t)|
    ensures Height(t) < |Syms(t)|
  {
    match t
    case Leaf(_, _) =>
    case Node(_, l, r) =>
      TreeShape(l);
      TreeShape(r);
  }

  // Aggregates over the queue contents.

  function SumW(q: seq<Tree>): nat {
    if |q| == 0 then 0 else q[0].w + SumW(q[1..])
  }

  function Bag(q: seq<Tree>): multiset<Byte> {
    if |q| == 0 then multiset{} else multiset(Syms(q[0])) + Bag(q[1..])
  }

  function ForestInternals(q: seq<Tree>): nat {
    if |q| == 0 then 0 else Internals(q[0]) + ForestInternals(q[1..])
  }

  lemma {:induction false} Aggregates(a: seq<Tree>, b: seq<Tree>)
    ensures SumW(a + b) == SumW(a) + SumW(b)
    ensures Bag(a + b) == Bag(a) + Bag(b)
    ensures ForestInternals(a + b) == ForestInternals(a) + ForestInternals(b)
  {
    if |a| > 0 {
      assert (a + b)[1..] == a[1..] + b;
      Aggregates(a[1..], b);
    } else {
      assert a + b == b;
    }
  }

  lemma Singleton(t: Tree)
    ensures SumW([t]) == t.w && Bag([t]) == multiset(Syms(t)) && ForestInternals([t]) == Internals(t)
  {
    assert [t][1..] == [];
  }

  /** The leaves of a tree, each with the symbol and count it carries. */
  function LeafBag(t: Tree): multiset<Tree> {
    match t
    case Leaf(_, _) => multiset{t}
    case Node(_, l, r) => LeafBag(l) + LeafBag(r)
  }

  function ForestLeaves(q: seq<Tree>): multiset<Tree> {
    if |q| == 0 then multiset{} else LeafBag(q[0]) + ForestLeaves(q[1..])
  }

  lemma {:induction false} ForestLeavesAppend(a: seq<Tree>, b: seq<Tree>)
    ensures ForestLeaves(a + b) == ForestLeaves(a) + ForestLeaves(b)
  {
    if |a| > 0 {
      assert (a + b)[1..] == a[1..] + b;
      ForestLeavesAppend(a[1..], b);
    } else {
      assert a + b == b;
    }
  }

  lemma ForestLeavesOne(t: Tree)
    ensures ForestLeaves([t]) == LeafBag(t)
  {
    assert [t][1..] == [];
  }

  /** The queue with its `i`-th element taken out. */
  function Remove(q: seq<Tree>, i: nat): (r: seq<Tree>)
    requires i < |q|
    ensures |r| == |q| - 1
    ensures forall j :: 0 <= j < |r| ==> r[j] == if j < i then q[j] else q[j + 1]
    ensures multiset(r) + multiset{q[i]} == multiset(q)
    ensures SumW(r) + q[i].w == SumW(q)
    ensures Bag(r) + multiset(Syms(q[i])) == Bag(q)
    ensures ForestInternals(r) + Internals(q[i]) == ForestInternals(q)
  {
    RemoveAggregates(q[..i], q[i], q[i + 1..]);
    assert q == q[..i] + [q[i]] + q[i + 1..];
    q[..i] + q[i + 1..]
  }

  /** Taking `t` out from between `a` and `b` takes its share out of every
      aggregate. */
  lemma RemoveAggregates(a: seq<Tree>, t: Tree, b: seq<Tree>)
    ensures SumW(a + b) + t.w == SumW(a + [t] + b)
    ensures Bag(a + b) + multiset(Syms(t)) == Bag(a + [t] + b)
    ensures ForestInternals(a + b) + Internals(t) == ForestInternals(a + [t] + b)
  {
    var tb := [t] + b;
    assert a + [t] + b == a + tb;
    assert SumW(tb) == t.w + SumW(b) && Bag(tb) == multiset(Syms(t)) + Bag(b)
      && ForestInternals(tb) == Internals(t) + ForestInternals(b) by {
      Aggregates([t], b);
      Singleton(t);
    }
    Aggregates(a, tb);
    Aggregates(a, b);
  }

  /** `minHeap.top()`: the position of the first element of least weight. */
  function MinIndex(q: seq<Tree>): (i: nat)
    requires |q| > 0
    ensures i < |q|
    ensures forall j :: 0 <= j < |q| ==> q[i].w <= q[j].w
    ensures forall j :: 0 <= j < i ==> q[i].w < q[j].w
  {
    if |q| == 1 then 0
    else
      var k := MinIndex(q[..|q| - 1]);
      if q[|q| - 1].w < q[k].w then |q| - 1 else k
  }

  /** What `top()` then `pop()` hands back: the node taken and the queue left. */
  datatype Popped = Popped(node: Tree, rest: seq<Tree>)

  /** `top()` then `pop()`: the lightest node (the first one on a tie) and
      the queue without it. */
  function PopMin(q: seq<Tree>): (p: Popped)
    requires |q| > 0
    ensures |p.rest| == |q| - 1
    ensures multiset(p.rest) + multiset{p.node} == multiset(q)
    ensures forall j :: 0 <= j < |p.rest| ==> p.node.w <= p.rest[j].w
    ensures SumW(p.rest) + p.node.w == SumW(q)
    ensures Bag(p.rest) + multiset(Syms(p.node)) == Bag(q)
    ensures ForestInternals(p.rest) + Internals(p.node) == ForestInternals(q)
  {
    var i := MinIndex(q);
    Popped(q[i], Remove(q, i))
  }

  /** Taking `t` out from between `a` and `b` takes exactly its leaves out
      of the leaves of the queue. */
  lemma RemoveLeaves(a: seq<Tree>, t: Tree, b: seq<Tree>)
    ensures ForestLeaves(a + b) + LeafBag(t) == ForestLeaves(a + [t] + b)
  {
    var tb := [t] + b;
    assert a + [t] + b == a + tb;
    assert ForestLeaves(tb) == LeafBag(t) + ForestLeaves(b) by {
      ForestLeavesAppend([t], b);
      ForestLeavesOne(t);
    }
    ForestLeavesAppend(a, tb);
    ForestLeavesAppend(a, b);
  }

  lemma PopMinLeaves(q: seq<Tree>)
    requires |q| > 0
    ensures ForestLeaves(PopMin(q).rest) + LeafBag(PopMin(q).node) == ForestLeaves(q)
  {
    var i := MinIndex(q);
    RemoveLeaves(q[..i], q[i], q[i + 1..]);
    SplitAt(q, i);
  }

  /** The internal node `buildHuffmanTree` makes of two popped nodes. */
  function Join(a: Tree, b: Tree): Tree {
    Node(a.w + b.w, a, b)
  }

  /** One iteration of the merge loop: pop the two lightest nodes, push
      their join. */
  function Merge(q: seq<Tree>): (q': seq<Tree>)
    requires |q| >= 2
    ensures |q'| == |q| - 1
  {
    var p1 := PopMin(q);
    var p2 := PopMin(p1.rest);
    p2.rest + [Join(p1.node, p2.node)]
  }

  lemma PairBag(a: Tree, b: Tree)
    ensures multiset{a, b} == multiset{b} + multiset{a}
  {
  }

  /** A merge pops two nodes and pushes their join, whose weight is the sum
      of theirs: the rest of the queue plus the two children is exactly the
      old queue. */
  lemma MergeShape(q: seq<Tree>)
    requires |q| >= 2
    ensures var q' := Merge(q); var n := q'[|q'| - 1];
      && n.Node?
      && n.w == n.left.w + n.right.w
      && multiset(q'[..|q'| - 1]) + multiset{n.left, n.right} == multiset(q)
  {
    var p1 := PopMin(q);
    var p2 := PopMin(p1.rest);
    var q' := Merge(q);
    assert q' == p2.rest + [Join(p1.node, p2.node)];
    assert q'[..|q'| - 1] == p2.rest;
    PairBag(p1.node, p2.node);
  }

  /** A merge neither loses nor invents weight or symbols, and adds one
      internal node. */
  lemma MergeConserves(q: seq<Tree>)
    requires |q| >= 2
    ensures SumW(Merge(q)) == SumW(q)
    ensures Bag(Merge(q)) == Bag(q)
    ensures ForestInternals(Merge(q)) == ForestInternals(q) + 1
  {
    var p1 := PopMin(q);
    var p2 := PopMin(p1.rest);
    var a, b, rest := p1.node, p2.node, p2.rest;
    assert Merge(q) == rest + [Join(a, b)];
    PushConserves(rest, a, b);
    assert SumW(rest) + a.w + b.w == SumW(q);
    assert Bag(rest) + multiset(Syms(a)) + multiset(Syms(b)) == Bag(q);
  }

  lemma PushConserves(rest: seq<Tree>, a: Tree, b: Tree)
    ensures var q' := rest + [Join(a, b)];
      && SumW(q') == SumW(rest) + a.w + b.w
      && Bag(q') == Bag(rest) + multiset(Syms(a)) + multiset(Syms(b))
      && ForestInternals(q') == ForestInternals(rest) + Internals(a) + Internals(b) + 1
  {
    var n := Join(a, b);
    Aggregates(rest, [n]);
    Singleton(n);
    assert multiset(Syms(n)) == multiset(Syms(a)) + multiset(Syms(b));
  }

  /** A merge keeps every leaf of the queue, with its symbol and count. */
  lemma MergeLeaves(q: seq<Tree>)
    requires |q| >= 2
    ensures ForestLeaves(Merge(q)) == ForestLeaves(q)
  {
    var p1 := PopMin(q);
    var p2 := PopMin(p1.rest);
    var n := Join(p1.node, p2.node);
    assert Merge(q) == p2.rest + [n];
    PopMinLeaves(q);
    PopMinLeaves(p1.rest);
    ForestLeavesAppend(p2.rest, [n]);
    ForestLeavesOne(n);
  }

  /** Each merge is greedy: the first child is no heavier than the second,
      and no node still in the queue is lighter than either child. */
  lemma MergeIsGreedy(q: seq<Tree>)
    requires |q| >= 2
    ensures var q' := Merge(q); var n := q'[|q'| - 1];
      && n.left.w <= n.right.w
      && forall j :: 0 <= j < |q'| - 1 ==> n.left.w <= q'[j].w && n.right.w <= q'[j].w
  {
    var p1 := PopMin(q);
    var p2 := PopMin(p1.rest);
    var q' := Merge(q);
    assert q'[..|q'| - 1] == p2.rest && q'[|q'| - 1] == Join(p1.node, p2.node) by {
      assert q' == p2.rest + [Join(p1.node, p2.node)];
    }
    PopMinFrom(p1.rest);
    forall j | 0 <= j < |p2.rest|
      ensures p1.node.w <= p2.rest[j].w
    {
      assert p2.rest[j] in p1.rest;
    }
  }

  /** Popping takes its node from the queue and leaves only queued nodes. */
  lemma PopMinFrom(q: seq<Tree>)
    requires |q| > 0
    ensures PopMin(q).node in q
    ensures forall j :: 0 <= j < |PopMin(q).rest| ==> PopMin(q).rest[j] in q
  {
    var i := MinIndex(q);
    forall j | 0 <= j < |PopMin(q).rest|
      ensures PopMin(q).rest[j] in q
    {
      assert PopMin(q).rest[j] == if j < i then q[j] else q[j + 1];
    }
  }

  /** `buildHuffmanTree`'s loop: merge until one node remains. The root
      weighs the total of the queue, holds every queued leaf symbol exactly
      as often as the queue did, keeps every queued leaf with its count, and
      adds one internal node per merge. */
  function Build(q: seq<Tree>): (t: Tree)
    requires |q| > 0
    ensures t.w == SumW(q)
    ensures multiset(Syms(t)) == Bag(q)
    ensures LeafBag(t) == ForestLeaves(q)
    ensures Internals(t) + 1 == ForestInternals(q) + |q|
    decreases |q|
  {
    if |q| == 1 then
      assert Bag(q) == multiset(Syms(q[0])) + Bag([]);
      assert ForestLeaves(q) == LeafBag(q[0]) + ForestLeaves([]);
      q[0]
    else
      MergeConserves(q);
      MergeLeaves(q);
      Build(Merge(q))
  }

  /** Merging preserves well-weightedness of every queued tree. */
  lemma {:induction false} BuildWellWeighted(q: seq<Tree>)
    requires |q| > 0
    requires forall i :: 0 <= i < |q| ==> WellWeighted(q[i])
    ensures WellWeighted(Build(q))
    decreases |q|
  {
    if |q| > 1 {
      var q' := Merge(q);
      MergeShape(q);
      var n := q'[|q'| - 1];
      assert n.left in multiset(q) && n.right in multiset(q);
      forall j | 0 <= j < |q'|
        ensures WellWeighted(q'[j])
      {
        if j < |q'| - 1 {
          assert q'[j] in multiset(q'[..|q'| - 1]);
          assert q'[j] in multiset(q);
        }
      }
      BuildWellWeighted(q');
    }
  }

  /** The initial queue: one leaf per key of the table, in iteration order. */
  function Leaves(freqs: FreqTable, ks: seq<Byte>): (q: seq<Tree>)
    requires forall k :: k in ks ==> k in freqs
    ensures |q| == |ks|
    ensures forall i :: 0 <= i < |q| ==> q[i] == Leaf(ks[i], freqs[ks[i]])
    ensures SumW(q) == Tally(freqs, ks)
    ensures Bag(q) == multiset(ks)
    ensures ForestLeaves(q) == multiset(q)
    ensures ForestInternals(q) == 0
  {
    if |ks| == 0 then []
    else
      assert ks == [ks[0]] + ks[1..];
      var rest := Leaves(freqs, ks[1..]);
      var q := [Leaf(ks[0], freqs[ks[0]])] + rest;
      assert q[1..] == rest;
      q
  }

  /** The tree `compressFile` builds for a non-empty input. */
  function HuffmanTreeOf(s: seq<Byte>): Tree
    requires |s| > 0
  {
    var freqs := Count(s);
    assert s[0] in freqs;
    Build(Leaves(freqs, SortedKeys(freqs)))
  }

  /** The root of the tree built from an input weighs the input length. */
  lemma HuffmanTreeWeight(s: seq<Byte>)
    requires |s| > 0
    ensures HuffmanTreeOf(s).w == |s|
  {
    var freqs := Count(s);
    var q := Leaves(freqs, SortedKeys(freqs));
    CountSum(s);
  }

  /** Every internal node of the tree built from an input weighs the sum of
      its children. */
  lemma HuffmanTreeWellWeighted(s: seq<Byte>)
    requires |s| > 0
    ensures WellWeighted(HuffmanTreeOf(s))
  {
    var freqs := Count(s);
    var q := Leaves(freqs, SortedKeys(freqs));
    BuildWellWeighted(q);
  }

  /** The tree built from an input has exactly one leaf per distinct input
      symbol. */
  lemma HuffmanTreeLeaves(s: seq<Byte>)
    requires |s| > 0
    ensures NoDup(Syms(HuffmanTreeOf(s)))
    ensures forall x :: x in Syms(HuffmanTreeOf(s)) <==> x in s
    ensures |Syms(HuffmanTreeOf(s))| == |Count(s)|
  {
    var freqs := Count(s);
    var ks := SortedKeys(freqs);
    var t := HuffmanTreeOf(s);
    assert multiset(Syms(t)) == multiset(ks);
    forall x
      ensures x in Syms(t) <==> x in s
    {
      assert x in Syms(t) <==> x in multiset(Syms(t));
      assert x in ks <==> x in multiset(ks);
    }
    assert |Syms(t)| == |multiset(Syms(t))| == |multiset(ks)| == |ks|;
  }

  /** The initial queue holds one leaf per key, with that key's count. */
  lemma QueueLeaves(freqs: FreqTable, ks: seq<Byte>)
    requires forall k :: k in ks ==> k in freqs
    ensures forall l: Tree :: l in multiset(Leaves(freqs, ks)) ==>
      l.Leaf? && l.sym in ks && l.w == freqs[l.sym]
    ensures forall x :: x in ks ==> Leaf(x, freqs[x]) in multiset(Leaves(freqs, ks))
  {
    var q := Leaves(freqs, ks);
    forall l: Tree | l in multiset(q)
      ensures l.Leaf? && l.sym in ks && l.w == freqs[l.sym]
    {
      assert l in q;
      var i :| 0 <= i < |q| && q[i] == l;
    }
    forall x | x in ks
      ensures Leaf(x, freqs[x]) in multiset(q)
    {
      var i :| 0 <= i < |ks| && ks[i] == x;
      assert q[i] == Leaf(x, freqs[x]);
    }
  }

  /** Every leaf of the tree built from an input carries an input symbol
      together with the number of times it occurs, and every input symbol
      has such a leaf. */
  lemma HuffmanTreeLeafCounts(s: seq<Byte>)
    requires |s| > 0
    ensures forall l: Tree :: l in LeafBag(HuffmanTreeOf(s)) ==>
      l.Leaf? && l.sym in s && l.w == multiset(s)[l.sym]
    ensures forall x :: x in s ==> Leaf(x, multiset(s)[x]) in LeafBag(HuffmanTreeOf(s))
  {
    var freqs := Count(s);
    var ks := SortedKeys(freqs);
    var q := Leaves(freqs, ks);
    assert LeafBag(HuffmanTreeOf(s)) == multiset(q);
    QueueLeaves(freqs, ks);
  }

  /** The tree built from an input has one internal node fewer than it has
      distinct symbols, and height below 256. */
  lemma HuffmanTreeShape(s: seq<Byte>)
    requires |s| > 0
    ensures Internals(HuffmanTreeOf(s)) + 1 == |Count(s)|
    ensures Height(HuffmanTreeOf(s)) < |Count(s)| <= 256
  {
    HuffmanTreeLeaves(s);
    TreeShape(HuffmanTreeOf(s));
  }
}
