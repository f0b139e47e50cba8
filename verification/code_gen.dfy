/** Code-table generation, `buildHuffmanCodes` (huffmanCompress.cpp:46-54):
    every leaf records its root-to-leaf path, '0' for left and '1' for right. */
module CodeGen {
  import opened Basics
  import opened HuffmanTree

  /** `buildHuffmanCodes(t, path, table)` on the tagged tree: each leaf
      records `path` extended by its position below `t`. The right subtree
      is visited last, so its entry wins should a symbol occur twice. */
  function Codes(t: Tree, path: Code): (m: CodeMap)
    ensures forall k :: k in m <==> k in Syms(t)
    ensures forall k :: k in m ==> path <= m[k] && |m[k]| <= |path| + Height(t)
    ensures t.Node? ==> forall k :: k in m ==> |path| < |m[k]|
  {
    match t
    case Leaf(s, _) => map[s := path]
    case Node(_, l, r) =>
      var ml := Codes(l, path + [false]);
      var mr := Codes(r, path + [true]);
      ExtensionPrefix(path, false, ml);
      ExtensionPrefix(path, true, mr);
      ml + mr
  }

  lemma ExtensionPrefix(path: Code, b: bool, m: CodeMap)
    requires forall k :: k in m ==> path + [b] <= m[k]
    ensures forall k :: k in m ==> path <= m[k]
  {
    forall k | k in m
      ensures path <= m[k]
    {
      assert m[k][..|path|] == (path + [b])[..|path|] == path;
    }
  }

  /** The subtree reached by following `c` from `t`, if any. */
  function Descend(t: Tree, c: Code): Option<Tree> {
    if |c| == 0 then Some(t)
    else match t
      case Leaf(_, _) => None
      case Node(_, l, r) => Descend(if c[0] then r else l, c[1..])
  }

  /** Each recorded code is the path from the root to a leaf holding that
      symbol. */
  lemma {:induction false} CodesArePaths(t: Tree, path: Code, k: Byte)
    requires k in Codes(t, path)
    ensures var c := Codes(t, path)[k];
      Descend(t, c[|path|..]).Some? && Descend(t, c[|path|..]).value.Leaf?
      && Descend(t, c[|path|..]).value.sym == k
  {
    match t
    case Leaf(s, _) =>
    case Node(_, l, r) =>
      var c := Codes(t, path)[k];
      if k in Codes(r, path + [true]) {
        CodesArePaths(r, path + [true], k);
        assert c[|path|..][1..] == c[|path + [true]|..];
        assert c[|path|] == true;
      } else {
        CodesArePaths(l, path + [false], k);
        assert c[|path|..][1..] == c[|path + [false]|..];
        assert c[|path|] == false;
      }
  }

  /** The generated table is prefix-free: two leaves' paths first differ
      where they part in the tree. */
  lemma {:induction false} CodesPrefixFree(t: Tree, path: Code)
    ensures PrefixFree(Codes(t, path))
  {
    match t
    case Leaf(_, _) =>
    case Node(_, l, r) =>
      var ml := Codes(l, path + [false]);
      var mr := Codes(r, path + [true]);
      var m := Codes(t, path);
      CodesPrefixFree(l, path + [false]);
      CodesPrefixFree(r, path + [true]);
      forall a, b | a in m && b in m && a != b
        ensures !(m[a] <= m[b])
      {
        if a in mr && b in mr {
        } else if a !in mr && b !in mr {
        } else {
          var ca, cb := m[a], m[b];
          // the two codes part at position |path|
          assert ca[|path|] != cb[|path|] by {
            if a in mr {
              assert (path + [true])[|path|] == true;
              assert (path + [false])[|path|] == false;
            } else {
              assert (path + [false])[|path|] == false;
              assert (path + [true])[|path|] == true;
            }
          }
        }
      }
  }

  /** The symbol of the leftmost leaf, reached by following only '0's. */
  function LeftmostSym(t: Tree): (s: Byte)
    ensures s in Syms(t)
  {
    match t
    case Leaf(s, _) => s
    case Node(_, l, _) => LeftmostSym(l)
  }

  function LeftDepth(t: Tree): nat {
    match t
    case Leaf(_, _) => 0
    case Node(_, l, _) => 1 + LeftDepth(l)
  }

  lemma NoDupSplit(a: seq<Byte>, b: seq<Byte>)
    requires NoDup(a + b)
    ensures NoDup(a) && NoDup(b)
    ensures forall x :: x in a ==> x !in b
  {
    assert multiset(a + b) == multiset(a) + multiset(b);
    forall x
      ensures multiset(a)[x] <= 1 && multiset(b)[x] <= 1
    {
      assert multiset(a + b)[x] == multiset(a)[x] + multiset(b)[x];
    }
    forall x | x in a
      ensures x !in b
    {
      assert multiset(a + b)[x] == multiset(a)[x] + multiset(b)[x];
    }
  }

  /** With distinct leaf symbols, the leftmost symbol's code is all zeros. */
  lemma {:induction false} CodesLeftmost(t: Tree, path: Code)
    requires NoDup(Syms(t))
    ensures LeftmostSym(t) in Codes(t, path)
    ensures Codes(t, path)[LeftmostSym(t)] == path + Zeros(LeftDepth(t))
  {
    match t
    case Leaf(_, _) =>
      assert Zeros(0) == [];
    case Node(_, l, r) =>
      NoDupSplit(Syms(l), Syms(r));
      CodesLeftmost(l, path + [false]);
      assert LeftmostSym(t) !in Codes(r, path + [true]);
      assert path + [false] + Zeros(LeftDepth(l)) == path + Zeros(LeftDepth(t));
  }

  /** The table `compressFile` writes, as intended: every leaf records its
      path, and a lone leaf at the root is given the one-bit code "0"
      rather than the empty code. */
  function CodeTable(t: Tree): (m: CodeMap)
    ensures forall k :: k in m <==> k in Syms(t)
    ensures forall k :: k in m ==> 0 < |m[k]| <= Height(t) + 1
  {
    if t.Leaf? then map[t.sym := [false]] else Codes(t, [])
  }

  /** The intended table is prefix-free. */
  lemma CodeTablePrefixFree(t: Tree)
    ensures PrefixFree(CodeTable(t))
  {
    if t.Node? {
      CodesPrefixFree(t, []);
    }
  }

  /** How many '0' bits lead from the root to the leftmost leaf under the
      intended table. */
  function PadDepth(t: Tree): nat {
    if t.Leaf? then 1 else LeftDepth(t)
  }

  /** With distinct leaf symbols, the leftmost symbol's intended code is a
      non-empty run of zeros. */
  lemma CodeTableLeftmost(t: Tree)
    requires NoDup(Syms(t))
    ensures PadDepth(t) >= 1
    ensures LeftmostSym(t) in CodeTable(t)
    ensures CodeTable(t)[LeftmostSym(t)] == Zeros(PadDepth(t))
  {
    if t.Node? {
      CodesLeftmost(t, []);
      assert [] + Zeros(LeftDepth(t)) == Zeros(LeftDepth(t));
    } else {
      assert Zeros(1) == [false];
    }
  }

  /** `buildHuffmanCodes` as written: a node whose data is `'\0'` records
      nothing, so a leaf for byte 0 gets no code; and a lone root leaf
      records the empty code. The table it builds is the path table without
      byte 0. */
  function SourceCodes(t: Tree, path: Code): (m: CodeMap)
    ensures m == Codes(t, path) - {0}
  {
    match t
    case Leaf(s, _) => if s != 0 then map[s := path] else map[]
    case Node(_, l, r) =>
      var ml := SourceCodes(l, path + [false]);
      var mr := SourceCodes(r, path + [true]);
      MinusUnion(Codes(l, path + [false]), Codes(r, path + [true]), 0);
      ml + mr
  }

  lemma MinusUnion(a: CodeMap, b: CodeMap, x: Byte)
    ensures (a + b) - {x} == (a - {x}) + (b - {x})
  {
  }

  function SourceCodeTable(t: Tree): CodeMap {
    SourceCodes(t, [])
  }
}
