/** Symbol frequency counting: the first pass of `compressFile` over its
    input (huffmanCompress.cpp:59-64). */
module Frequency {
  import opened Basics

  /** Symbol to occurrence count (the program's `unordered_map<char, int>`). */
  type FreqTable = map<Byte, nat>

  /** `freqs[ch]++`: a missing key starts from the default count 0, so
      afterwards `x` counts one more than before and every other key keeps
      its count. */
  function Bump(freqs: FreqTable, x: Byte): (r: FreqTable)
    ensures r.Keys == freqs.Keys + {x}
    ensures x in freqs ==> r[x] == freqs[x] + 1
    ensures x !in freqs ==> r[x] == 1
    ensures forall y :: y in freqs && y != x ==> r[y] == freqs[y]
  {
    freqs[x := (if x in freqs then freqs[x] else 0) + 1]
  }

  /** The table after reading every byte of `s` in order, bumping each once.
      A byte is a key exactly when it occurs, and its count is its number
      of occurrences. */
  function Count(s: seq<Byte>): (freqs: FreqTable)
    ensures forall x :: x in freqs <==> x in s
    ensures forall x :: x in freqs ==> freqs[x] == multiset(s)[x] > 0
  {
    if |s| == 0 then map[]
    else
      var init := s[..|s| - 1];
      var x := s[|s| - 1];
      assert s == init + [x];
      assert multiset(s) == multiset(init) + multiset{x};
      Bump(Count(init), x)
  }

  /** The sum of the counts of the symbols listed in `ks` (0 for a missing key). */
  function Tally(freqs: FreqTable, ks: seq<Byte>): nat {
    if |ks| == 0 then 0
    else (if ks[0] in freqs then freqs[ks[0]] else 0) + Tally(freqs, ks[1..])
  }

  /** Bumping `x` raises the tally over `ks` by the number of times `ks` lists `x`. */
  lemma {:induction false} TallyBump(freqs: FreqTable, x: Byte, ks: seq<Byte>)
    ensures Tally(Bump(freqs, x), ks) == Tally(freqs, ks) + multiset(ks)[x]
  {
    if |ks| > 0 {
      TallyBump(freqs, x, ks[1..]);
      assert ks == [ks[0]] + ks[1..];
      assert multiset(ks)[x] == multiset{ks[0]}[x] + multiset(ks[1..])[x];
    }
  }

  /** Counting adds exactly one per byte read: over any duplicate-free list
      of symbols covering the input, the counts sum to the input length. */
  lemma {:induction false} CountTotal(s: seq<Byte>, ks: seq<Byte>)
    requires NoDup(ks)
    requires forall x :: x in s ==> x in ks
    ensures Tally(Count(s), ks) == |s|
  {
    if |s| > 0 {
      var init := s[..|s| - 1];
      var x := s[|s| - 1];
      assert s == init + [x];
      CountTotal(init, ks);
      TallyBump(Count(init), x, ks);
      assert multiset(ks)[x] == 1 by {
        assert x in ks;
        assert multiset(ks)[x] <= 1;
      }
    } else {
      TallyEmpty(ks);
    }
  }

  lemma TallyEmpty(ks: seq<Byte>)
    ensures Tally(map[], ks) == 0
  {
  }

  /** The counts of all symbols of the table sum to the input length. */
  lemma CountSum(s: seq<Byte>)
    ensures Tally(Count(s), SortedKeys(Count(s))) == |s|
  {
    CountTotal(s, SortedKeys(Count(s)));
  }
}
