/** The decoder's tree, `rebuildHuffmanTree` (huffmanCompress.cpp:119-140):
    starting from a bare root, each table entry is inserted by following its
    code ('0' left, '1' right), creating missing nodes with data `'\0'`,
    and storing the symbol in the node where the code ends. */
module Trie {
  import opened Basics

  /** A node of the rebuilt tree, or a missing child (`nullptr`). */
  datatype DecodeTree = Empty | Branch(data: Byte, left: DecodeTree, right: DecodeTree)

  /** A node with data `'\0'` and no children: `new HuffmanNode('\0', 0)`. */
  const Fresh: DecodeTree := Branch(0, Empty, Empty)

  function Child(t: DecodeTree, bit: bool): DecodeTree
    requires t.Branch?
  {
    if bit then t.right else t.left
  }

  /** A node with no children: where the decoder emits a symbol. */
  predicate Childless(t: DecodeTree) {
    t.Branch? && t.left.Empty? && t.right.Empty?
  }

  /** The node reached from `t` by following `p`, or `Empty` once a step
      leads to a missing child. */
  function At(t: DecodeTree, p: Code): DecodeTree {
    if |p| == 0 || t.Empty? then (if |p| == 0 then t else Empty)
    else At(Child(t, p[0]), p[1..])
  }

  /** Following one more bit is one more child step. */
  lemma {:induction false} AtSnoc(t: DecodeTree, p: Code, b: bool)
    ensures At(t, p + [b]) == if At(t, p).Branch? then Child(At(t, p), b) else Empty
  {
    if |p| > 0 && t.Branch? {
      assert (p + [b])[1..] == p[1..] + [b];
      AtSnoc(Child(t, p[0]), p[1..], b);
    }
  }

  /** Inserting one entry: walk down `c`, creating each missing node, and
      set the data of the node where `c` ends to `s`. */
  function Insert(t: DecodeTree, c: Code, s: Byte): (r: DecodeTree)
    ensures r.Branch?
  {
    var node := if t.Empty? then Fresh else t;
    if |c| == 0 then node.(data := s)
    else if c[0] then node.(right := Insert(node.right, c[1..], s))
    else node.(left := Insert(node.left, c[1..], s))
  }

  /** After inserting `c`, a node exists at `p` exactly when one existed
      before or `p` is a prefix of `c`. */
  lemma {:induction false} InsertBranch(t: DecodeTree, c: Code, s: Byte, p: Code)
    ensures At(Insert(t, c, s), p).Branch? <==> At(t, p).Branch? || p <= c
  {
    if |p| > 0 && |c| > 0 {
      var node := if t.Empty? then Fresh else t;
      InsertBranch(Child(node, c[0]), c[1..], s, p[1..]);
      if t.Empty? {
        AtFresh(p);
        AtEmpty(p[1..]);
      }
      if p[0] != c[0] {
        AtEmpty(p[1..]);
      }
    }
  }

  /** Below a missing child there is nothing. */
  lemma AtEmpty(p: Code)
    ensures At(Empty, p) == Empty
  {
  }

  /** Below a fresh node there is nothing. */
  lemma AtFresh(p: Code)
    ensures At(Fresh, p).Branch? <==> |p| == 0
  {
    if |p| > 0 {
      AtEmpty(p[1..]);
    }
  }

  /** Inserting `c` leaves alone every node off the path of `c`, together
      with everything below it. */
  lemma {:induction false} InsertOffPath(t: DecodeTree, c: Code, s: Byte, p: Code)
    requires !(p <= c)
    ensures At(Insert(t, c, s), p) == At(t, p)
  {
    var node := if t.Empty? then Fresh else t;
    if |c| == 0 {
    } else if p[0] == c[0] {
      InsertOffPath(Child(node, c[0]), c[1..], s, p[1..]);
      if t.Empty? {
        AtEmpty(p[1..]);
        assert At(Fresh, p) == At(Empty, p[1..]);
        assert At(t, p) == Empty;
        AtEmptyInsert(c[1..], s, p[1..]);
      }
    } else if t.Empty? {
      AtEmpty(p[1..]);
    }
  }

  lemma AtEmptyInsert(c: Code, s: Byte, p: Code)
    requires !(p <= c)
    ensures At(Insert(Empty, c, s), p) == Empty
  {
    InsertBranch(Empty, c, s, p);
  }

  /** Inserting `c` stores `s` in the node where `c` ends. */
  lemma {:induction false} InsertData(t: DecodeTree, c: Code, s: Byte)
    ensures At(Insert(t, c, s), c).Branch? && At(Insert(t, c, s), c).data == s
  {
    if |c| > 0 {
      var node := if t.Empty? then Fresh else t;
      InsertData(Child(node, c[0]), c[1..], s);
    }
  }

  /** Inserting `c` keeps the data of any node strictly above the end of `c`. */
  lemma {:induction false} InsertKeepsAbove(t: DecodeTree, c: Code, s: Byte, p: Code)
    requires p <= c && p != c
    requires At(t, p).Branch?
    ensures At(Insert(t, c, s), p).Branch? && At(Insert(t, c, s), p).data == At(t, p).data
  {
    if |p| > 0 {
      InsertKeepsAbove(Child(t, c[0]), c[1..], s, p[1..]);
    }
  }

  /** A node whose data `Insert` never overwrites keeps its data. */
  lemma InsertKeeps(t: DecodeTree, c: Code, s: Byte, p: Code)
    requires p != c
    requires At(t, p).Branch?
    ensures At(Insert(t, c, s), p).Branch? && At(Insert(t, c, s), p).data == At(t, p).data
  {
    if p <= c {
      InsertKeepsAbove(t, c, s, p);
    } else {
      InsertOffPath(t, c, s, p);
    }
  }

  /** The entries inserted in order. */
  function InsertAll(t: DecodeTree, es: seq<(Byte, Code)>): (r: DecodeTree)
    requires t.Branch?
    ensures r.Branch?
    decreases |es|
  {
    if |es| == 0 then t else InsertAll(Insert(t, es[0].1, es[0].0), es[1..])
  }

  /** After inserting all entries, a node exists at `p` exactly when one
      existed before or `p` is a prefix of some inserted code. */
  lemma {:induction false} InsertAllBranch(t: DecodeTree, es: seq<(Byte, Code)>, p: Code)
    requires t.Branch?
    ensures At(InsertAll(t, es), p).Branch?
      <==> At(t, p).Branch? || exists i :: 0 <= i < |es| && p <= es[i].1
    decreases |es|
  {
    if |es| > 0 {
      var t' := Insert(t, es[0].1, es[0].0);
      InsertBranch(t, es[0].1, es[0].0, p);
      InsertAllBranch(t', es[1..], p);
      if exists i :: 0 <= i < |es| && p <= es[i].1 {
        var i :| 0 <= i < |es| && p <= es[i].1;
        if i > 0 {
          assert p <= es[1..][i - 1].1;
        }
      }
      if exists i :: 0 <= i < |es[1..]| && p <= es[1..][i].1 {
        var i :| 0 <= i < |es[1..]| && p <= es[1..][i].1;
        assert p <= es[i + 1].1;
      }
    }
  }

  /** Inserting entries none of which ends at `p` keeps the node at `p`
      and its data. */
  lemma {:induction false} InsertAllKeeps(t: DecodeTree, es: seq<(Byte, Code)>, p: Code)
    requires t.Branch?
    requires At(t, p).Branch?
    requires forall j :: 0 <= j < |es| ==> es[j].1 != p
    ensures At(InsertAll(t, es), p).Branch? && At(InsertAll(t, es), p).data == At(t, p).data
    decreases |es|
  {
    if |es| > 0 {
      InsertKeeps(t, es[0].1, es[0].0, p);
      InsertAllKeeps(Insert(t, es[0].1, es[0].0), es[1..], p);
    }
  }

  /** An entry whose code no later entry repeats keeps its symbol. */
  lemma {:induction false} InsertAllData(t: DecodeTree, es: seq<(Byte, Code)>, i: nat)
    requires t.Branch?
    requires i < |es|
    requires forall j :: i < j < |es| ==> es[j].1 != es[i].1
    ensures At(InsertAll(t, es), es[i].1).Branch?
    ensures At(InsertAll(t, es), es[i].1).data == es[i].0
    decreases |es|
  {
    var t' := Insert(t, es[0].1, es[0].0);
    if i == 0 {
      InsertData(t, es[0].1, es[0].0);
      InsertAllKeeps(t', es[1..], es[0].1);
    } else {
      InsertAllData(t', es[1..], i - 1);
    }
  }

  /** `rebuildHuffmanTree`: a fresh root, then every entry of the table in
      iteration order. */
  function Rebuild(m: CodeMap): (r: DecodeTree)
    ensures r.Branch?
  {
    InsertAll(Fresh, Entries(m))
  }

  /** A node of the rebuilt tree lies at `p` exactly when `p` is the root
      path or a prefix of some stored code. */
  lemma RebuildBranch(m: CodeMap, p: Code)
    ensures At(Rebuild(m), p).Branch? <==> |p| == 0 || exists k :: k in m && p <= m[k]
  {
    var es := Entries(m);
    var ks := SortedKeys(m);
    InsertAllBranch(Fresh, es, p);
    AtFresh(p);
    if exists k :: k in m && p <= m[k] {
      var k :| k in m && p <= m[k];
      var i :| 0 <= i < |ks| && ks[i] == k;
      assert p <= es[i].1;
    }
    if exists i :: 0 <= i < |es| && p <= es[i].1 {
      var i :| 0 <= i < |es| && p <= es[i].1;
      assert ks[i] in m && p <= m[ks[i]];
    }
  }

  /** When no two symbols share a code, the node where a symbol's code ends
      holds that symbol. */
  lemma RebuildData(m: CodeMap, k: Byte)
    requires k in m
    requires forall a, b :: a in m && b in m && a != b ==> m[a] != m[b]
    ensures At(Rebuild(m), m[k]).Branch? && At(Rebuild(m), m[k]).data == k
  {
    var es := Entries(m);
    var ks := SortedKeys(m);
    var i :| 0 <= i < |ks| && ks[i] == k;
    forall j | i < j < |es|
      ensures es[j].1 != es[i].1
    {
      assert ks[j] != ks[i];
    }
    InsertAllData(Fresh, es, i);
  }

  /** A node is childless exactly when it exists and neither one-bit
      extension of its path does. */
  lemma ChildlessAt(t: DecodeTree, p: Code)
    ensures Childless(At(t, p))
      <==> At(t, p).Branch? && !At(t, p + [false]).Branch? && !At(t, p + [true]).Branch?
  {
    AtSnoc(t, p, false);
    AtSnoc(t, p, true);
  }

  /** No code runs on past a childless node of the rebuilt tree. */
  lemma ChildlessStops(m: CodeMap, p: Code, k: Byte)
    requires Childless(At(Rebuild(m), p))
    requires k in m && p <= m[k]
    ensures m[k] == p
  {
    if m[k] != p {
      PrefixStep(p, m[k]);
      var b := m[k][|p|];
      ChildlessAt(Rebuild(m), p);
      RebuildBranch(m, p + [b]);
      assert false;
    }
  }

  /** A childless node of the rebuilt tree is where some code ends, or the
      bare root of an empty table. */
  lemma ChildlessIsCodeEnd(m: CodeMap, p: Code)
    requires Childless(At(Rebuild(m), p))
    ensures (exists k :: k in m && m[k] == p) || (|p| == 0 && |m| == 0)
  {
    RebuildBranch(m, p);
    if |p| > 0 {
      var k :| k in m && p <= m[k];
      ChildlessStops(m, p, k);
    } else if |m| > 0 {
      var k :| k in m;
      ChildlessStops(m, p, k);
    }
  }

  /** In the tree rebuilt from a prefix-free table, the node where a code
      ends is childless. */
  lemma CodeEndChildless(m: CodeMap, k: Byte)
    requires PrefixFree(m)
    requires k in m
    ensures Childless(At(Rebuild(m), m[k]))
  {
    var r := Rebuild(m);
    var p := m[k];
    ChildlessAt(r, p);
    RebuildBranch(m, p);
    forall b: bool
      ensures !At(r, p + [b]).Branch?
    {
      RebuildBranch(m, p + [b]);
      forall j | j in m
        ensures !(p + [b] <= m[j])
      {
        if j != k {
          assert !(m[k] <= m[j]);
        }
      }
    }
  }

  /** For a prefix-free table, the childless nodes of the rebuilt tree are
      exactly the nodes where codes end (and the bare root of an empty
      table). */
  lemma RebuildChildless(m: CodeMap, p: Code)
    requires PrefixFree(m)
    ensures Childless(At(Rebuild(m), p))
      <==> (exists k :: k in m && m[k] == p) || (|p| == 0 && |m| == 0)
  {
    if Childless(At(Rebuild(m), p)) {
      ChildlessIsCodeEnd(m, p);
    } else if exists k :: k in m && m[k] == p {
      var k :| k in m && m[k] == p;
      CodeEndChildless(m, k);
      assert false;
    }
  }

  /** Following `c` from `root` passes only through nodes that have
      children and ends at a childless node holding `s`: the decoder, started
      at the root, emits `s` after exactly the bits of `c`. */
  ghost predicate Reaches(root: DecodeTree, c: Code, s: Byte) {
    |c| > 0 && At(root, c) == Branch(s, Empty, Empty)
    && forall i :: 0 <= i < |c| ==> At(root, c[..i]).Branch? && !Childless(At(root, c[..i]))
  }

  /** In the tree rebuilt from a prefix-free table of non-empty codes,
      every stored code leads from the root to its own symbol. */
  lemma RebuildReaches(m: CodeMap, k: Byte)
    requires PrefixFree(m)
    requires k in m && |m[k]| > 0
    ensures Reaches(Rebuild(m), m[k], k)
  {
    var r := Rebuild(m);
    var c := m[k];
    forall a, b | a in m && b in m && a != b
      ensures m[a] != m[b]
    {
      assert !(m[a] <= m[b]);
    }
    RebuildData(m, k);
    CodeEndChildless(m, k);
    forall i | 0 <= i < |c|
      ensures At(r, c[..i]).Branch? && !Childless(At(r, c[..i]))
    {
      assert c[..i] <= c;
      RebuildBranch(m, c[..i]);
      forall j | j in m
        ensures m[j] != c[..i]
      {
        if j != k {
          assert !(m[j] <= m[k]);
        }
      }
      if Childless(At(r, c[..i])) {
        ChildlessIsCodeEnd(m, c[..i]);
        assert false;
      }
    }
  }

  /** Every childless node of `t` holds a symbol of `K`. */
  predicate LeavesIn(t: DecodeTree, K: set<Byte>) {
    match t
    case Empty => true
    case Branch(d, l, r) => (l.Empty? && r.Empty? ==> d in K) && LeavesIn(l, K) && LeavesIn(r, K)
  }

  /** Inserting a symbol of `K` into a tree whose childless nodes hold
      symbols of `K` (or into a bare node) gives such a tree. */
  lemma {:induction false} InsertLeaves(t: DecodeTree, c: Code, s: Byte, K: set<Byte>)
    requires s in K
    requires LeavesIn(t, K) || Childless(t)
    ensures LeavesIn(Insert(t, c, s), K)
  {
    if |c| > 0 {
      var node := if t.Empty? then Fresh else t;
      InsertLeaves(Child(node, c[0]), c[1..], s, K);
    }
  }

  lemma {:induction false} InsertAllLeaves(t: DecodeTree, es: seq<(Byte, Code)>, K: set<Byte>)
    requires t.Branch?
    requires LeavesIn(t, K) || (Childless(t) && |es| > 0)
    requires forall i :: 0 <= i < |es| ==> es[i].0 in K
    ensures LeavesIn(InsertAll(t, es), K)
    decreases |es|
  {
    if |es| > 0 {
      InsertLeaves(t, es[0].1, es[0].0, K);
      InsertAllLeaves(Insert(t, es[0].1, es[0].0), es[1..], K);
    }
  }

  /** Every childless node of the tree rebuilt from a non-empty table holds
      one of its symbols: a node created on the way down and never given a
      symbol always has a child. */
  lemma RebuildLeaves(m: CodeMap)
    requires |m| > 0
    ensures LeavesIn(Rebuild(m), m.Keys)
  {
    InsertAllLeaves(Fresh, Entries(m), m.Keys);
  }
}
