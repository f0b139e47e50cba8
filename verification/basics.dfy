/** Shared vocabulary of the Huffman coder model: bytes, bit strings, code
    tables, the failure-compatible result type, and the deterministic
    iteration order used wherever the program walks an `unordered_map`. */
module Basics {

  /** One byte of input or output: the program's `char`, read as unsigned. */
  type Byte = x: int | 0 <= x < 256

  /** A code word, root to leaf: `false` is '0' (left), `true` is '1' (right). */
  type Code = seq<bool>

  /** A code table, symbol to code word (the program's `unordered_map<char, string>`). */
  type CodeMap = map<Byte, Code>

  /** No code word is a prefix of (or equal to) another symbol's. */
  ghost predicate PrefixFree(m: CodeMap) {
    forall a, b :: a in m && b in m && a != b ==> !(m[a] <= m[b])
  }

  /** A proper prefix of a code extends, one bit further, to another prefix of it. */
  lemma PrefixStep(p: Code, c: Code)
    requires p <= c && p != c
    ensures |p| < |c| && p + [c[|p|]] <= c
  {
    assert c[..|p| + 1] == c[..|p|] + [c[|p|]];
  }

  /** Why decoding can fail: the header ends early, or a bit leads to a missing child. */
  datatype Error = Truncated | FellOffTrie

  datatype Option<T> = None | Some(value: T)

  datatype Result<T> = Success(value: T) | Failure(error: Error) {
    predicate IsFailure() {
      Failure?
    }

    function PropagateFailure<U>(): Result<U>
      requires Failure?
    {
      Failure(error)
    }

    function Extract(): T
      requires Success?
    {
      value
    }
  }

  function Zeros(n: nat): Code {
    seq(n, _ => false)
  }

  function Repeat(x: Byte, n: nat): seq<Byte> {
    seq(n, _ => x)
  }

  /** Every element occurs at most once. */
  ghost predicate NoDup(s: seq<Byte>) {
    forall x :: multiset(s)[x] <= 1
  }

  /** The distinct elements of a sequence: never more of them than the
      sequence is long. */
  function Elems(s: seq<Byte>): (e: set<Byte>)
    ensures forall x :: x in e <==> x in s
    ensures |e| <= |s|
  {
    if |s| == 0 then {} else {s[0]} + Elems(s[1..])
  }

  lemma {:induction false} NoDupCard(s: seq<Byte>)
    requires NoDup(s)
    ensures |Elems(s)| == |s|
  {
    if |s| > 0 {
      var r := s[1..];
      assert s == [s[0]] + r;
      assert multiset(s) == multiset{s[0]} + multiset(r);
      forall x
        ensures multiset(r)[x] <= 1
      {
        assert multiset(r)[x] <= multiset(s)[x];
      }
      assert s[0] !in r by {
        assert multiset(s)[s[0]] == 1 + multiset(r)[s[0]];
      }
      NoDupCard(r);
      var rs := Elems(r);
      var ss := Elems(s);
      assert s[0] !in rs;
      assert forall x :: x in s <==> x == s[0] || x in r;
      assert ss == {s[0]} + rs;
      assert |{s[0]} + rs| == 1 + |rs|;
      assert |rs| == |r|;
      assert |ss| == |s|;
    }
  }

  /** The keys of `m` that are at least `i`, in ascending order. */
  function KeysFrom<V>(m: map<Byte, V>, i: nat): (ks: seq<Byte>)
    requires i <= 256
    ensures forall k :: k in ks <==> k in m && i <= k
    ensures forall a, b :: 0 <= a < b < |ks| ==> ks[a] < ks[b]
    ensures |ks| <= 256 - i
    decreases 256 - i
  {
    if i == 256 then []
    else
      var rest := KeysFrom(m, i + 1);
      if i as Byte in m then
        var ks := [i as Byte] + rest;
        assert forall a :: 0 < a < |ks| ==> ks[a] == rest[a - 1] && rest[a - 1] in rest;
        ks
      else rest
  }

  /** The order in which this model iterates a table keyed by bytes.
      The program iterates an `unordered_map`, whose order is unspecified;
      ascending byte order is one of the orders it may produce. */
  function SortedKeys<V>(m: map<Byte, V>): (ks: seq<Byte>)
    ensures forall k :: k in ks <==> k in m
    ensures forall a, b :: 0 <= a < b < |ks| ==> ks[a] < ks[b]
    ensures NoDup(ks)
    ensures |ks| == |m| <= 256
  {
    var ks := KeysFrom(m, 0);
    StrictlyIncreasingNoDup(ks);
    KeysCard(m, ks);
    ks
  }

  lemma {:induction false} StrictlyIncreasingNoDup(s: seq<Byte>)
    requires forall a, b :: 0 <= a < b < |s| ==> s[a] < s[b]
    ensures NoDup(s)
  {
    if |s| > 0 {
      var r := s[1..];
      assert s == [s[0]] + r;
      StrictlyIncreasingNoDup(r);
      assert s[0] !in r;
      forall x
        ensures multiset(s)[x] <= 1
      {
        assert multiset(s)[x] == multiset{s[0]}[x] + multiset(r)[x];
      }
    }
  }

  lemma KeysCard<V>(m: map<Byte, V>, ks: seq<Byte>)
    requires forall k :: k in ks <==> k in m
    requires NoDup(ks)
    ensures |ks| == |m|
  {
    NoDupCard(ks);
    assert Elems(ks) == m.Keys;
  }

  /** The entries of a table, key and value, in iteration order. */
  function Entries<V>(m: map<Byte, V>): (es: seq<(Byte, V)>)
    ensures |es| == |SortedKeys(m)|
    ensures forall i :: 0 <= i < |es| ==> es[i] == (SortedKeys(m)[i], m[SortedKeys(m)[i]])
  {
    var ks := SortedKeys(m);
    seq(|ks|, i requires 0 <= i < |ks| => (ks[i], m[ks[i]]))
  }

  // Sequence facts used with many different element types.

  lemma SplitAt<T>(s: seq<T>, i: nat)
    requires i < |s|
    ensures s[..i + 1] == s[..i] + [s[i]]
    ensures s[..i] + [s[i]] + s[i + 1..] == s
  {
  }

  lemma Assoc<T>(a: seq<T>, b: seq<T>, c: seq<T>)
    ensures a + b + c == a + (b + c)
  {
  }

  lemma PrefixHas<T>(s: seq<T>, t: seq<T>, x: T)
    requires s <= t && x in s
    ensures x in t
  {
    var i :| 0 <= i < |s| && s[i] == x;
    assert t[i] == x;
  }
}
