/** The decoding loop of `decompressFile` (huffmanCompress.cpp:169-189):
    each payload bit moves the current node to its left ('0') or right
    ('1') child; on reaching a childless node its symbol is written and
    the walk restarts at the root. */
module BitWalk {
  import opened Basics
  import opened Trie
  import opened Packing

  /** What the decoder has written, and the node it stands at. */
  datatype Walked = Walked(out: seq<Byte>, at: DecodeTree)

  /** `x` written before whatever a walk writes afterwards. */
  function Prepend(x: Byte, r: Result<Walked>): Result<Walked> {
    match r
    case Success(w) => Success(Walked([x] + w.out, w.at))
    case Failure(e) => Failure(e)
  }

  /** `s` written before whatever a walk writes afterwards. */
  function PrependAll(s: seq<Byte>, r: Result<Walked>): (r': Result<Walked>)
    ensures r.Failure? ==> r' == r
    ensures r.Success? ==> r' == Success(Walked(s + r.value.out, r.value.at))
  {
    if |s| == 0 then
      assert r.Success? ==> s + r.value.out == r.value.out;
      r
    else
      var r' := Prepend(s[0], PrependAll(s[1..], r));
      assert r.Success? ==> [s[0]] + (s[1..] + r.value.out) == s + r.value.out;
      r'
  }

  /** The walk over `bits` from node `cur`. A step to a missing child
      dereferences a null pointer in the program; here it is a failure. */
  function Walk(root: DecodeTree, cur: DecodeTree, bits: Code): (r: Result<Walked>)
    requires root.Branch? && cur.Branch?
    ensures r.Failure? ==> r.error == FellOffTrie
    ensures r.Success? ==> r.value.at.Branch? && |r.value.out| <= |bits|
    decreases |bits|
  {
    if |bits| == 0 then Success(Walked([], cur))
    else
      var next := Child(cur, bits[0]);
      if next.Empty? then Failure(FellOffTrie)
      else if Childless(next) then Prepend(next.data, Walk(root, root, bits[1..]))
      else Walk(root, next, bits[1..])
  }

  /** The walk's result once it has reached `r` and goes on over `b`. */
  function Then(root: DecodeTree, r: Result<Walked>, b: Code): Result<Walked>
    requires root.Branch?
    requires r.Success? ==> r.value.at.Branch?
  {
    if r.Failure? then r else PrependAll(r.value.out, Walk(root, r.value.at, b))
  }

  /** Walking `a + b` is walking `a` and then, from wherever that ends,
      walking `b`; a failure in `a` is a failure of the whole. */
  lemma {:induction false} WalkAppend(root: DecodeTree, cur: DecodeTree, a: Code, b: Code)
    requires root.Branch? && cur.Branch?
    ensures Walk(root, cur, a + b) == Then(root, Walk(root, cur, a), b)
    decreases |a|
  {
    if |a| > 0 {
      assert (a + b)[0] == a[0];
      assert (a + b)[1..] == a[1..] + b;
      var next := Child(cur, a[0]);
      if next.Empty? {
      } else if Childless(next) {
        WalkAppend(root, root, a[1..], b);
      } else {
        WalkAppend(root, next, a[1..], b);
      }
    } else {
      assert a + b == b;
    }
  }

  /** The walk over the bits of a code, from the node its first `i` bits
      reach, writes the code's symbol and returns to the root. */
  lemma {:induction false} WalkCodeFrom(root: DecodeTree, c: Code, s: Byte, i: nat, rest: Code)
    requires root.Branch?
    requires Reaches(root, c, s)
    requires i < |c|
    ensures At(root, c[..i]).Branch?
    ensures Walk(root, At(root, c[..i]), c[i..] + rest) == Prepend(s, Walk(root, root, rest))
    decreases |c| - i
  {
    var cur := At(root, c[..i]);
    var bits := c[i..] + rest;
    assert bits[0] == c[i];
    assert bits[1..] == c[i + 1..] + rest;
    AtSnoc(root, c[..i], c[i]);
    assert c[..i] + [c[i]] == c[..i + 1];
    if i + 1 == |c| {
      assert c[..i + 1] == c;
      assert c[i + 1..] + rest == rest;
    } else {
      WalkCodeFrom(root, c, s, i + 1, rest);
    }
  }

  /** The walk over the bits of a code, from the root, writes the code's
      symbol and returns to the root. */
  lemma WalkCode(root: DecodeTree, c: Code, s: Byte, rest: Code)
    requires root.Branch?
    requires Reaches(root, c, s)
    ensures Walk(root, root, c + rest) == Prepend(s, Walk(root, root, rest))
  {
    WalkCodeFrom(root, c, s, 0, rest);
    assert c[..0] == [];
    assert c[0..] == c;
  }

  /** Every stored code leads from `root` to its own symbol. */
  ghost predicate Decodes(root: DecodeTree, m: CodeMap) {
    forall k :: k in m ==> Reaches(root, m[k], k)
  }

  /** Walking the code words of `s` writes `s` and comes back to the root,
      ready for whatever follows. */
  lemma {:induction false} WalkEncoded(root: DecodeTree, m: CodeMap, s: seq<Byte>, rest: Code)
    requires root.Branch?
    requires Decodes(root, m)
    requires forall i :: 0 <= i < |s| ==> s[i] in m
    ensures Walk(root, root, Encode(m, s) + rest) == PrependAll(s, Walk(root, root, rest))
  {
    if |s| > 0 {
      var c := m[s[0]];
      var tail := Encode(m, s[1..]) + rest;
      assert Encode(m, s) + rest == c + tail by {
        assert CodeOf(m, s[0]) == c;
      }
      assert Walk(root, root, c + tail) == Prepend(s[0], Walk(root, root, tail)) by {
        assert Reaches(root, c, s[0]);
        WalkCode(root, c, s[0], tail);
      }
      assert Walk(root, root, tail) == PrependAll(s[1..], Walk(root, root, rest)) by {
        WalkEncoded(root, m, s[1..], rest);
      }
    } else {
      assert Encode(m, s) + rest == rest;
    }
  }

  /** Part of a code leads from the root, writing nothing, to the node it
      names. */
  lemma {:induction false} WalkPartial(root: DecodeTree, c: Code, s: Byte, i: nat, j: nat)
    requires root.Branch?
    requires Reaches(root, c, s)
    requires i <= j < |c|
    ensures At(root, c[..i]).Branch?
    ensures Walk(root, At(root, c[..i]), c[i..j]) == Success(Walked([], At(root, c[..j])))
    decreases j - i
  {
    if i < j {
      var bits := c[i..j];
      assert bits[0] == c[i];
      assert bits[1..] == c[i + 1..j];
      AtSnoc(root, c[..i], c[i]);
      assert c[..i] + [c[i]] == c[..i + 1];
      WalkPartial(root, c, s, i + 1, j);
    }
  }

  /** How many whole runs of `d` fit in `n`. */
  function Runs(n: nat, d: nat): (e: nat)
    requires d >= 1
    ensures e <= n
    decreases n
  {
    if n < d then 0 else 1 + Runs(n - d, d)
  }

  /** Walking zero bits from the root, when `d` zeros lead to symbol `x`,
      writes `x` once per whole run of `d` zeros. */
  lemma {:induction false} WalkZeros(root: DecodeTree, x: Byte, d: nat, n: nat)
    requires root.Branch?
    requires d >= 1 && Reaches(root, Zeros(d), x)
    ensures Walk(root, root, Zeros(n)).Success?
    ensures Walk(root, root, Zeros(n)).value.out == Repeat(x, Runs(n, d))
    decreases n
  {
    if n < d {
      WalkPartial(root, Zeros(d), x, 0, n);
      assert Zeros(d)[..0] == [];
      assert Zeros(d)[0..n] == Zeros(n);
    } else {
      assert Zeros(n) == Zeros(d) + Zeros(n - d);
      WalkCode(root, Zeros(d), x, Zeros(n - d));
      WalkZeros(root, x, d, n - d);
      assert [x] + Repeat(x, Runs(n - d, d)) == Repeat(x, Runs(n, d));
    }
  }

  /** A walk writes only symbols held by childless nodes. */
  lemma {:induction false} WalkWritesLeaves(root: DecodeTree, cur: DecodeTree, bits: Code, K: set<Byte>)
    requires root.Branch? && cur.Branch?
    requires LeavesIn(root, K) && LeavesIn(cur, K)
    ensures Walk(root, cur, bits).Success? ==> forall x :: x in Walk(root, cur, bits).value.out ==> x in K
    decreases |bits|
  {
    if |bits| > 0 {
      var next := Child(cur, bits[0]);
      if next.Empty? {
      } else if Childless(next) {
        WalkWritesLeaves(root, root, bits[1..], K);
      } else {
        WalkWritesLeaves(root, next, bits[1..], K);
      }
    }
  }

  /** `x >> i` for a non-negative `x`: `i` halvings. */
  function Shr(x: nat, i: nat): nat {
    if i == 0 then x else Shr(x / 2, i - 1)
  }

  /** The decoder's view of bit `i` of a byte: `(byte >> i) & 1`. */
  function BitOf(x: Byte, i: nat): bool {
    Shr(x, i) % 2 == 1
  }

  /** Element `j` of `ToBits(x, n)` is bit `n - 1 - j` of `x`. */
  lemma {:induction false} ToBitsIndex(x: nat, n: nat, j: nat)
    requires j < n
    ensures ToBits(x, n)[j] == (Shr(x, n - 1 - j) % 2 == 1)
  {
    if j < n - 1 {
      ToBitsIndex(x / 2, n - 1, j);
    }
  }

  /** One step of the walk from where a walk over `a` ended. */
  lemma WalkStep(root: DecodeTree, cur: DecodeTree, a: Code, out: seq<Byte>, at: DecodeTree, bit: bool)
    requires root.Branch? && cur.Branch? && at.Branch?
    requires Walk(root, cur, a) == Success(Walked(out, at))
    ensures Child(at, bit).Empty? ==> Walk(root, cur, a + [bit]) == Failure(FellOffTrie)
    ensures Childless(Child(at, bit)) ==>
      Walk(root, cur, a + [bit]) == Success(Walked(out + [Child(at, bit).data], root))
    ensures Child(at, bit).Branch? && !Childless(Child(at, bit)) ==>
      Walk(root, cur, a + [bit]) == Success(Walked(out, Child(at, bit)))
  {
    WalkAppend(root, cur, a, [bit]);
    assert Walk(root, cur, a + [bit]) == PrependAll(out, Walk(root, at, [bit]));
    var next := Child(at, bit);
    assert [bit][1..] == [];
    if next.Empty? {
      assert Walk(root, at, [bit]) == Failure(FellOffTrie);
    } else if Childless(next) {
      assert Walk(root, at, [bit]) == Prepend(next.data, Walk(root, root, []));
      assert [next.data] + [] == [next.data];
    } else {
      assert Walk(root, at, [bit]) == Walk(root, next, []);
      assert out + [] == out;
    }
  }

  /** The bit loop for one payload byte (huffmanCompress.cpp:172-188):
      bits from the high end, each moving the current node. */
  method DecodeByte(root: DecodeTree, cur: DecodeTree, byte: Byte) returns (r: Result<Walked>)
    requires root.Branch? && cur.Branch?
    ensures r == Walk(root, cur, ToBits(byte, 8))
  {
    var at := cur;
    var out: seq<Byte> := [];
    var k := 8;
    assert ToBits(byte, 8)[..0] == [];
    while k > 0
      invariant 0 <= k <= 8
      invariant at.Branch?
      invariant Walk(root, cur, ToBits(byte, 8)[..8 - k]) == Success(Walked(out, at))
    {
      var bit := BitOf(byte, k - 1);
      ToBitsIndex(byte, 8, 8 - k);
      ghost var before := ToBits(byte, 8)[..8 - k];
      assert ToBits(byte, 8)[..8 - k + 1] == before + [bit];
      WalkStep(root, cur, before, out, at, bit);
      var next := Child(at, bit);
      if next.Empty? {
        WalkAppend(root, cur, before + [bit], ToBits(byte, 8)[8 - k + 1..]);
        assert before + [bit] + ToBits(byte, 8)[8 - k + 1..] == ToBits(byte, 8);
        return Failure(FellOffTrie);
      }
      if Childless(next) {
        out := out + [next.data];
        at := root;
      } else {
        at := next;
      }
      k := k - 1;
    }
    assert ToBits(byte, 8)[..8] == ToBits(byte, 8);
    return Success(Walked(out, at));
  }

  /** The decoding loop of `decompressFile`: each payload byte in turn
      moves the walk on; the symbols written are the decoded output. */
  method DecodePayload(root: DecodeTree, payload: seq<Byte>) returns (r: Result<seq<Byte>>)
    requires root.Branch?
    ensures Walk(root, root, Unpack(payload)).Failure? ==> r == Failure(FellOffTrie)
    ensures Walk(root, root, Unpack(payload)).Success? ==> r == Success(Walk(root, root, Unpack(payload)).value.out)
  {
    var cur := root;
    var out: seq<Byte> := [];
    var i := 0;
    while i < |payload|
      invariant 0 <= i <= |payload|
      invariant cur.Branch?
      invariant Walk(root, root, Unpack(payload[..i])) == Success(Walked(out, cur))
    {
      var w := DecodeByte(root, cur, payload[i]);
      UnpackPrefix(payload, i);
      WalkAppend(root, root, Unpack(payload[..i]), ToBits(payload[i], 8));
      if w.Failure? {
        WalkAppend(root, root, Unpack(payload[..i + 1]), Unpack(payload[i + 1..]));
        return Failure(FellOffTrie);
      }
      out, cur := out + w.value.out, w.value.at;
      i := i + 1;
    }
    assert payload[..i] == payload;
    return Success(out);
  }

  /** The bits of the first `i + 1` bytes are those of the first `i` and
      then those of byte `i`; the rest follow. */
  lemma UnpackPrefix(payload: seq<Byte>, i: nat)
    requires i < |payload|
    ensures Unpack(payload[..i + 1]) == Unpack(payload[..i]) + ToBits(payload[i], 8)
    ensures Unpack(payload) == Unpack(payload[..i]) + ToBits(payload[i], 8) + Unpack(payload[i + 1..])
  {
    var a, x, b := payload[..i], payload[i], payload[i + 1..];
    SplitAt(payload, i);
    UnpackSnoc(a, x);
    UnpackAppend(a + [x], b);
  }

  lemma UnpackSnoc(a: seq<Byte>, x: Byte)
    ensures Unpack(a + [x]) == Unpack(a) + ToBits(x, 8)
  {
    UnpackAppend(a, [x]);
    assert Unpack([x]) == ToBits(x, 8) + Unpack([x][1..]);
    assert [x][1..] == [];
  }

  lemma {:induction false} UnpackAppend(a: seq<Byte>, b: seq<Byte>)
    ensures Unpack(a + b) == Unpack(a) + Unpack(b)
  {
    if |a| > 0 {
      assert (a + b)[1..] == a[1..] + b;
      UnpackAppend(a[1..], b);
    } else {
      assert a + b == b;
    }
  }
}
