/** The whole coder: `compressFile` (huffmanCompress.cpp:57-116) and
    `decompressFile` (huffmanCompress.cpp:142-193) as functions from bytes
    to bytes, with the round-trip theorem. Two versions of the compressor
    are kept: `Compress`, which gives every symbol a non-empty code, and
    `SourceCompress`, which builds the table as `buildHuffmanCodes` is
    written (no code for byte 0, the empty code for a lone symbol). */
module Pipeline {
  import opened Basics
  import opened Frequency
  import opened HuffmanTree
  import opened CodeGen
  import opened HeaderFormat
  import opened Packing
  import opened Trie
  import opened BitWalk

  /** The file `compressFile` writes for a table `m`: header, then payload. */
  function Encoded(m: CodeMap, s: seq<Byte>): seq<Byte> {
    Header(m) + Pack(Encode(m, s))
  }

  /** The code table of `s` under the intended code assignment. */
  function TableOf(s: seq<Byte>): CodeMap
    requires |s| > 0
  {
    CodeTable(HuffmanTreeOf(s))
  }

  /** `compressFile` with every symbol given a non-empty code. An empty
      input is excluded: the program reads the top of an empty heap. */
  function Compress(s: seq<Byte>): (f: seq<Byte>)
    requires |s| > 0
    ensures ParseHeader(f) == Success(Parsed(TableOf(s), Pack(Encode(TableOf(s), s))))
  {
    TableWritable(s);
    ParseHeaderRoundTrip(TableOf(s), Pack(Encode(TableOf(s), s)));
    Encoded(TableOf(s), s)
  }

  /** `compressFile` with the table `buildHuffmanCodes` builds as written. */
  function SourceCompress(s: seq<Byte>): (f: seq<Byte>)
    requires |s| > 0
    ensures var m := SourceCodeTable(HuffmanTreeOf(s));
      ParseHeader(f) == Success(Parsed(m, Pack(Encode(m, s))))
  {
    var m := SourceCodeTable(HuffmanTreeOf(s));
    SourceTable(s);
    ParseHeaderRoundTrip(m, Pack(Encode(m, s)));
    Encoded(m, s)
  }

  /** `decompressFile`: parse the header, rebuild the tree, walk the
      payload bits. */
  function Decompress(file: seq<Byte>): (r: Result<seq<Byte>>)
    ensures |file| < SizeWidth ==> r == Failure(Truncated)
    ensures r.Success? ==> |r.value| <= 8 * (|file| - SizeWidth)
  {
    var parsed :- ParseHeader(file);
    var root := Rebuild(parsed.table);
    var w :- Walk(root, root, Unpack(parsed.rest));
    Success(w.out)
  }

  /** `compressFile` step by step: count, build the tree, build the table,
      write the header, pack the payload. */
  method CompressFile(s: seq<Byte>) returns (file: seq<Byte>)
    requires |s| > 0
    ensures ParseHeader(file) == Success(Parsed(TableOf(s), Pack(Encode(TableOf(s), s))))
    ensures |Encode(TableOf(s), s)| <= 8 * (|file| - |Header(TableOf(s))|) < |Encode(TableOf(s), s)| + 8
  {
    var t := Build(Leaves(Count(s), SortedKeys(Count(s))));
    var m := CodeTable(t);
    var payload := PackPayload(m, s);
    file := Header(m) + payload;
    assert file == Compress(s);
  }

  /** `decompressFile` step by step: parse, rebuild, run the decoding loop. */
  method DecompressFile(file: seq<Byte>) returns (r: Result<seq<Byte>>)
    ensures r == Decompress(file)
  {
    var parsed := ParseHeader(file);
    if parsed.Failure? {
      return Failure(parsed.error);
    }
    var root := Rebuild(parsed.value.table);
    r := DecodePayload(root, parsed.value.rest);
  }

  /** The intended table of `s` has one entry per distinct input byte. */
  lemma TableKeys(s: seq<Byte>)
    requires |s| > 0
    ensures forall x :: x in TableOf(s) <==> x in s
  {
    HuffmanTreeLeaves(s);
  }

  /** The intended codes are non-empty, at most 256 bits, and prefix-free. */
  lemma TableCodes(s: seq<Byte>)
    requires |s| > 0
    ensures forall x :: x in TableOf(s) ==> 0 < |TableOf(s)[x]| <= 256
    ensures PrefixFree(TableOf(s))
  {
    HuffmanTreeShape(s);
    CodeTablePrefixFree(HuffmanTreeOf(s));
  }

  /** The leftmost symbol's intended code is a non-empty run of zeros. */
  lemma TableLeftmost(s: seq<Byte>)
    requires |s| > 0
    ensures PadDepth(HuffmanTreeOf(s)) >= 1
    ensures LeftmostSym(HuffmanTreeOf(s)) in TableOf(s)
    ensures TableOf(s)[LeftmostSym(HuffmanTreeOf(s))] == Zeros(PadDepth(HuffmanTreeOf(s)))
  {
    HuffmanTreeLeaves(s);
    CodeTableLeftmost(HuffmanTreeOf(s));
  }

  /** Code lengths that fit the header's length field. */
  ghost predicate Writable(m: CodeMap) {
    forall k :: k in m ==> |m[k]| < Pow256(SizeWidth)
  }

  /** Decoding a file made with table `m` starts from `m` and the packed
      codes. */
  lemma DecompressEncoded(m: CodeMap, s: seq<Byte>)
    requires Writable(m)
    ensures Decompress(Encoded(m, s))
      == (var root := Rebuild(m);
          var w :- Walk(root, root, Encode(m, s) + Zeros(PadLen(|Encode(m, s)|)));
          Success(w.out))
  {
    ParseHeaderRoundTrip(m, Pack(Encode(m, s)));
    UnpackPack(Encode(m, s));
  }

  /** `m` is a writable, prefix-free table of non-empty codes that covers
      `s`, and gives `x` the all-zeros code `Zeros(d)`. */
  ghost predicate Suits(m: CodeMap, s: seq<Byte>, x: Byte, d: nat) {
    && Writable(m) && PrefixFree(m)
    && (forall k :: k in m ==> |m[k]| > 0)
    && (forall i :: 0 <= i < |s| ==> s[i] in m)
    && d >= 1 && x in m && m[x] == Zeros(d)
  }

  /** A table that suits `s` decodes `s`, followed by the symbols the zero
      padding spells with the code `Zeros(d)` of `x`. */
  lemma DecodeTable(m: CodeMap, s: seq<Byte>, x: Byte, d: nat)
    requires Suits(m, s, x, d)
    ensures Decompress(Encoded(m, s)) == Success(s + Repeat(x, Runs(PadLen(|Encode(m, s)|), d)))
  {
    var pad := PadLen(|Encode(m, s)|);
    var root := Rebuild(m);
    forall k | k in m
      ensures Reaches(root, m[k], k)
    {
      RebuildReaches(m, k);
    }
    DecompressEncoded(m, s);
    WalkEncoded(root, m, s, Zeros(pad));
    WalkZeros(root, x, d, pad);
  }

  /** A table in which every symbol of `s` has the empty code (or none)
      decodes to nothing. */
  lemma DecodeEmptyCodes(m: CodeMap, s: seq<Byte>)
    requires Writable(m)
    requires forall i :: 0 <= i < |s| ==> CodeOf(m, s[i]) == []
    ensures Decompress(Encoded(m, s)) == Success([])
  {
    EncodeNothing(m, s);
    DecompressEncoded(m, s);
    assert Encode(m, s) + Zeros(PadLen(0)) == [];
  }

  /** A table without byte 0 never decodes an input holding byte 0. */
  lemma DecodeWithoutZero(m: CodeMap, s: seq<Byte>)
    requires Writable(m)
    requires 0 !in m && 0 in s
    ensures Decompress(Encoded(m, s)) != Success(s)
  {
    DecompressEncoded(m, s);
    var root := Rebuild(m);
    if |m| == 0 {
      EncodeNothing(m, s);
    } else {
      RebuildLeaves(m);
      WalkWritesLeaves(root, root, Encode(m, s) + Zeros(PadLen(|Encode(m, s)|)), m.Keys);
    }
  }

  /** The header's entry count is the number of distinct input bytes. */
  lemma TableSize(s: seq<Byte>)
    requires |s| > 0
    ensures |TableOf(s)| == |Count(s)|
  {
    TableKeys(s);
    assert TableOf(s).Keys == Count(s).Keys;
  }

  /** How many extra symbols the zero padding of the last byte makes the
      decoder write for input `s`. */
  function Extra(s: seq<Byte>): nat
    requires |s| > 0
  {
    var t := HuffmanTreeOf(s);
    TableLeftmost(s);
    Runs(PadLen(|Encode(TableOf(s), s)|), PadDepth(t))
  }

  /** Decompressing a compressed file gives back the input, followed by one
      copy of the leftmost symbol for each whole run of its code in the
      zero padding. */
  lemma RoundTrip(s: seq<Byte>)
    requires |s| > 0
    ensures Decompress(Compress(s))
      == Success(s + Repeat(LeftmostSym(HuffmanTreeOf(s)), Extra(s)))
  {
    TableSuits(s);
    DecodeTable(TableOf(s), s, LeftmostSym(HuffmanTreeOf(s)), PadDepth(HuffmanTreeOf(s)));
  }

  /** The table `compressFile` builds suits its input, the leftmost symbol
      having the all-zeros code. */
  lemma TableSuits(s: seq<Byte>)
    requires |s| > 0
    ensures Suits(TableOf(s), s, LeftmostSym(HuffmanTreeOf(s)), PadDepth(HuffmanTreeOf(s)))
  {
    TableWritable(s);
    TableCodes(s);
    TableKeys(s);
    TableLeftmost(s);
    SuitsIntro(TableOf(s), s, LeftmostSym(HuffmanTreeOf(s)), PadDepth(HuffmanTreeOf(s)));
  }

  lemma SuitsIntro(m: CodeMap, s: seq<Byte>, x: Byte, d: nat)
    requires Writable(m)
    requires forall k :: k in m ==> 0 < |m[k]| <= 256
    requires PrefixFree(m)
    requires forall k :: k in m <==> k in s
    requires d >= 1 && x in m && m[x] == Zeros(d)
    ensures Suits(m, s, x, d)
  {
  }

  lemma TableWritable(s: seq<Byte>)
    requires |s| > 0
    ensures Writable(TableOf(s))
  {
    var m := TableOf(s);
    TableCodes(s);
    forall k | k in m
      ensures |m[k]| < Pow256(SizeWidth)
    {
      CountFits(|m[k]|);
    }
  }

  /** The input is a prefix of the decoded output, and fewer than eight
      symbols follow it. */
  lemma RoundTripPrefix(s: seq<Byte>)
    requires |s| > 0
    ensures Decompress(Compress(s)).Success?
    ensures s <= Decompress(Compress(s)).value
    ensures |Decompress(Compress(s)).value| < |s| + 8
  {
    RoundTrip(s);
    var out := s + Repeat(LeftmostSym(HuffmanTreeOf(s)), Extra(s));
    assert out[..|s|] == s;
  }

  /** When the codes of `s` fill whole bytes there is no padding, and the
      round trip is exact. */
  lemma RoundTripExact(s: seq<Byte>)
    requires |s| > 0
    requires |Encode(TableOf(s), s)| % 8 == 0
    ensures Decompress(Compress(s)) == Success(s)
  {
    RoundTrip(s);
    assert Extra(s) == 0;
    assert s + Repeat(LeftmostSym(HuffmanTreeOf(s)), 0) == s;
  }

  /** A symbol repeated: the intended code is "0", so the decoder writes
      the input and then one more copy per padding bit. */
  lemma SingleSymbolRoundTrip(s: seq<Byte>)
    requires |s| > 0
    requires forall i :: 0 <= i < |s| ==> s[i] == s[0]
    ensures Decompress(Compress(s)) == Success(s + Repeat(s[0], PadLen(|s|)))
  {
    var t := HuffmanTreeOf(s);
    SingleSymbolTree(s);
    var m := TableOf(s);
    assert m == map[s[0] := [false]];
    EncodeOneBit(m, s);
    RunsOne(PadLen(|s|));
    RoundTrip(s);
  }

  lemma {:induction false} RunsOne(n: nat)
    ensures Runs(n, 1) == n
  {
    if n > 0 {
      RunsOne(n - 1);
    }
  }

  /** With one distinct symbol the tree is a lone leaf. */
  lemma SingleSymbolTree(s: seq<Byte>)
    requires |s| > 0
    requires forall i :: 0 <= i < |s| ==> s[i] == s[0]
    ensures HuffmanTreeOf(s) == Leaf(s[0], |s|)
  {
    var t := HuffmanTreeOf(s);
    assert t.Leaf? by {
      SingleSymbolCount(s);
      HuffmanTreeShape(s);
    }
    assert t.sym == s[0] by {
      HuffmanTreeLeaves(s);
      assert t.sym in Syms(t);
    }
    HuffmanTreeWeight(s);
  }

  /** A string of one repeated symbol has one distinct symbol. */
  lemma SingleSymbolCount(s: seq<Byte>)
    requires |s| > 0
    requires forall i :: 0 <= i < |s| ==> s[i] == s[0]
    ensures |Count(s)| == 1
  {
    assert Count(s).Keys == {s[0]};
  }

  /** When every symbol of `s` has the empty code, the encoding is empty. */
  lemma {:induction false} EncodeNothing(m: CodeMap, s: seq<Byte>)
    requires forall i :: 0 <= i < |s| ==> CodeOf(m, s[i]) == []
    ensures Encode(m, s) == []
  {
    if |s| > 0 {
      EncodeNothing(m, s[1..]);
    }
  }

  /** When every symbol of `s` has a one-bit code, the encoding has one bit
      per symbol. */
  lemma {:induction false} EncodeOneBit(m: CodeMap, s: seq<Byte>)
    requires forall i :: 0 <= i < |s| ==> |CodeOf(m, s[i])| == 1
    ensures |Encode(m, s)| == |s|
  {
    if |s| > 0 {
      EncodeOneBit(m, s[1..]);
    }
  }

  /** The as-written table of `s` has no entry for byte 0, and its codes
      fit the header. */
  lemma SourceTable(s: seq<Byte>)
    requires |s| > 0
    ensures 0 !in SourceCodeTable(HuffmanTreeOf(s))
    ensures Writable(SourceCodeTable(HuffmanTreeOf(s)))
  {
    var m := SourceCodeTable(HuffmanTreeOf(s));
    HuffmanTreeShape(s);
    forall k | k in m
      ensures |m[k]| < Pow256(SizeWidth)
    {
      CountFits(|m[k]|);
    }
  }

  /** As written, a symbol repeated gets the empty code, nothing is packed,
      and decoding writes nothing. */
  lemma SingleSymbolLost(s: seq<Byte>)
    requires |s| > 0
    requires forall i :: 0 <= i < |s| ==> s[i] == s[0]
    ensures Decompress(SourceCompress(s)) == Success([])
  {
    SingleSymbolTree(s);
    SourceTable(s);
    var m := SourceCodeTable(HuffmanTreeOf(s));
    assert forall k :: k in m ==> m[k] == [];
    DecodeEmptyCodes(m, s);
  }

  /** As written, an input holding byte 0 never decodes to itself: byte 0
      has no code, so the decoder either fails or writes no 0. */
  lemma ZeroByteLost(s: seq<Byte>)
    requires |s| > 0
    requires 0 in s
    ensures Decompress(SourceCompress(s)) != Success(s)
  {
    SourceTable(s);
    DecodeWithoutZero(SourceCodeTable(HuffmanTreeOf(s)), s);
  }

  /** Away from the two defects, the program as written is the corrected
      coder: for an input without byte 0 and with two or more distinct
      bytes, both write the same file, so `RoundTrip` holds of it. */
  lemma SourceAgrees(s: seq<Byte>, i: nat, j: nat)
    requires i < |s| && j < |s| && s[i] != s[j]
    requires 0 !in s
    ensures SourceCompress(s) == Compress(s)
  {
    var t := HuffmanTreeOf(s);
    assert t.Node? by {
      TwoSymbolsCount(s, i, j);
      HuffmanTreeShape(s);
    }
    assert 0 !in Syms(t) by {
      HuffmanTreeLeaves(s);
    }
    SourceTableAgrees(t);
  }

  /** On a tree of two or more leaves none of which holds byte 0, the
      table as written is the corrected table. */
  lemma SourceTableAgrees(t: Tree)
    requires t.Node? && 0 !in Syms(t)
    ensures SourceCodeTable(t) == CodeTable(t)
  {
  }

  /** Two different bytes make two distinct symbols. */
  lemma TwoSymbolsCount(s: seq<Byte>, i: nat, j: nat)
    requires i < |s| && j < |s| && s[i] != s[j]
    ensures |Count(s)| >= 2
  {
    var a, b := s[i], s[j];
    var keys := Count(s).Keys;
    assert a in keys && b in keys;
    assert |{a, b}| == 2;
    SubsetCard({a, b}, keys);
  }

  lemma SubsetCard(a: set<Byte>, b: set<Byte>)
    requires a <= b
    ensures |a| <= |b|
  {
    assert b == a + (b - a);
  }

  /** The intended coder keeps byte 0. */
  lemma ZeroByteKept(s: seq<Byte>)
    requires |s| > 0
    requires 0 in s
    ensures Decompress(Compress(s)).Success?
    ensures s <= Decompress(Compress(s)).value
    ensures 0 in Decompress(Compress(s)).value
  {
    RoundTripPrefix(s);
    PrefixHas(s, Decompress(Compress(s)).value, 0);
  }
}
