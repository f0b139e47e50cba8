/** The code-table header at the front of a compressed file: written by
    `compressFile` (huffmanCompress.cpp:78-88) and read back by
    `decompressFile` (huffmanCompress.cpp:148-163).

    Layout: the entry count as a `size_t`, then per entry the symbol byte,
    the code length as a `size_t`, and the code as that many ASCII '0'/'1'
    characters. A `size_t` is taken to be 8 bytes, least significant first. */
module HeaderFormat {
  import opened Basics

  /** `sizeof(size_t)`. */
  const SizeWidth: nat := 8

  const CharZero: Byte := 48
  const CharOne: Byte := 49

  function Pow256(k: nat): (p: nat)
    ensures p >= 1
  {
    if k == 0 then 1 else 256 * Pow256(k - 1)
  }

  /** The low `k` bytes of `n`, least significant first: how a `size_t`
      holding `n` (reduced modulo 256^k) lies in memory. */
  function LE(n: nat, k: nat): (bs: seq<Byte>)
    ensures |bs| == k
  {
    if k == 0 then [] else [n % 256] + LE(n / 256, k - 1)
  }

  /** The number a little-endian byte string denotes. */
  function FromLE(bs: seq<Byte>): nat {
    if |bs| == 0 then 0 else bs[0] + 256 * FromLE(bs[1..])
  }

  lemma {:induction false} FromLEBound(bs: seq<Byte>)
    ensures FromLE(bs) < Pow256(|bs|)
  {
    if |bs| > 0 {
      FromLEBound(bs[1..]);
    }
  }

  /** Reading back a written field gives the number written, as long as it
      fits in the field. */
  lemma {:induction false} FromLEOfLE(n: nat, k: nat)
    requires n < Pow256(k)
    ensures FromLE(LE(n, k)) == n
  {
    if k > 0 {
      FromLEOfLE(n / 256, k - 1);
      assert LE(n, k)[1..] == LE(n / 256, k - 1);
    }
  }

  /** Writing back a read field gives the bytes read. */
  lemma {:induction false} LEOfFromLE(bs: seq<Byte>)
    ensures LE(FromLE(bs), |bs|) == bs
  {
    if |bs| > 0 {
      LEOfFromLE(bs[1..]);
      var n := FromLE(bs);
      assert n % 256 == bs[0] && n / 256 == FromLE(bs[1..]);
    }
  }

  /** A code word as the characters the header stores. */
  function BitChars(c: Code): (cs: seq<Byte>)
    ensures |cs| == |c|
    ensures forall i :: 0 <= i < |c| ==> cs[i] == (if c[i] then CharOne else CharZero)
  {
    if |c| == 0 then [] else [if c[0] then CharOne else CharZero] + BitChars(c[1..])
  }

  /** The bits a stored code string stands for. `rebuildHuffmanTree` steps
      left on '0', right on '1' and ignores any other character, so other
      characters are dropped here. */
  function CharsToBits(cs: seq<Byte>): (c: Code)
    ensures |c| <= |cs|
    ensures (forall i :: 0 <= i < |cs| ==> cs[i] == CharZero || cs[i] == CharOne) ==>
      |c| == |cs| && forall i :: 0 <= i < |cs| ==> c[i] == (cs[i] == CharOne)
  {
    if |cs| == 0 then []
    else if cs[0] == CharZero then [false] + CharsToBits(cs[1..])
    else if cs[0] == CharOne then [true] + CharsToBits(cs[1..])
    else CharsToBits(cs[1..])
  }

  lemma {:induction false} CharsToBitsOfBitChars(c: Code)
    ensures CharsToBits(BitChars(c)) == c
  {
    if |c| > 0 {
      CharsToBitsOfBitChars(c[1..]);
      assert BitChars(c)[1..] == BitChars(c[1..]);
    }
  }

  /** One entry as written: symbol, length field, code characters. */
  function EntryBytes(sym: Byte, c: Code): (bs: seq<Byte>)
    ensures |bs| == 1 + SizeWidth + |c|
  {
    [sym] + LE(|c|, SizeWidth) + BitChars(c)
  }

  /** Each entry takes at least its symbol byte and its length field: nine
      bytes. */
  function EntriesBytes(es: seq<(Byte, Code)>): (bs: seq<Byte>)
    ensures |bs| >= 9 * |es|
  {
    if |es| == 0 then [] else EntryBytes(es[0].0, es[0].1) + EntriesBytes(es[1..])
  }

  /** The header for table `m`, entries in iteration order. Its count
      field reads back as the number of entries, and each entry takes at
      least nine bytes. */
  function Header(m: CodeMap): (h: seq<Byte>)
    ensures |h| >= SizeWidth + 9 * |m|
    ensures FromLE(h[..SizeWidth]) == |m|
  {
    CountFits(|SortedKeys(m)|);
    FromLEOfLE(|m|, SizeWidth);
    var h := LE(|m|, SizeWidth) + EntriesBytes(Entries(m));
    assert h[..SizeWidth] == LE(|m|, SizeWidth);
    h
  }

  /** The table read so far and the bytes that follow it. */
  datatype Parsed = Parsed(table: CodeMap, rest: seq<Byte>)

  /** Reads `n` entries from `bs`, storing each with `huffmanCodes[ch] = code`,
      so a later entry for the same symbol replaces an earlier one. Running
      out of bytes inside an entry is a failure. */
  function ReadEntries(n: nat, bs: seq<Byte>, acc: CodeMap): (r: Result<Parsed>)
    ensures r.Success? ==> |r.value.rest| <= |bs| && r.value.rest == bs[|bs| - |r.value.rest|..]
    ensures r.Success? && n > 0 ==> |r.value.rest| < |bs|
    ensures n == 0 ==> r == Success(Parsed(acc, bs))
    decreases n
  {
    if n == 0 then Success(Parsed(acc, bs))
    else if |bs| < 1 + SizeWidth then Failure(Truncated)
    else
      var size := FromLE(bs[1..1 + SizeWidth]);
      if |bs| - (1 + SizeWidth) < size then Failure(Truncated)
      else
        var code := CharsToBits(bs[1 + SizeWidth..1 + SizeWidth + size]);
        var tail := bs[1 + SizeWidth + size..];
        var r := ReadEntries(n - 1, tail, acc[bs[0] := code]);
        assert r.Success? ==> r.value.rest == bs[|bs| - |r.value.rest|..] by {
          if r.Success? {
            assert tail == bs[|bs| - |tail|..];
          }
        }
        r
  }

  /** Reads the entry count and then that many entries. */
  function ParseHeader(bs: seq<Byte>): (r: Result<Parsed>)
    ensures |bs| < SizeWidth ==> r == Failure(Truncated)
    ensures r.Success? ==> |r.value.rest| <= |bs| - SizeWidth && r.value.rest == bs[|bs| - |r.value.rest|..]
  {
    if |bs| < SizeWidth then Failure(Truncated)
    else
      var r := ReadEntries(FromLE(bs[..SizeWidth]), bs[SizeWidth..], map[]);
      assert r.Success? ==> r.value.rest == bs[|bs| - |r.value.rest|..] by {
        if r.Success? {
          assert bs[SizeWidth..][|bs| - SizeWidth - |r.value.rest|..] == bs[|bs| - |r.value.rest|..];
        }
      }
      r
  }

  /** `acc` with the entries `es` stored in order. */
  function Store(acc: CodeMap, es: seq<(Byte, Code)>): CodeMap
    decreases |es|
  {
    if |es| == 0 then acc else Store(acc[es[0].0 := es[0].1], es[1..])
  }

  /** Where the fields of a written entry lie in front of `tail`. */
  lemma EntryFields(sym: Byte, c: Code, tail: seq<Byte>)
    ensures var bs := EntryBytes(sym, c) + tail;
      && bs[0] == sym
      && bs[1..1 + SizeWidth] == LE(|c|, SizeWidth)
      && bs[1 + SizeWidth..1 + SizeWidth + |c|] == BitChars(c)
      && bs[1 + SizeWidth + |c|..] == tail
  {
    Slices(sym, LE(|c|, SizeWidth), BitChars(c), tail);
  }

  lemma Slices(x: Byte, a: seq<Byte>, b: seq<Byte>, c: seq<Byte>)
    ensures var bs := [x] + a + b + c;
      && bs[0] == x
      && bs[1..1 + |a|] == a
      && bs[1 + |a|..1 + |a| + |b|] == b
      && bs[1 + |a| + |b|..] == c
  {
  }

  /** Reading one written entry stores it and moves on to the bytes after
      it. */
  lemma ReadOneEntry(sym: Byte, c: Code, tail: seq<Byte>, acc: CodeMap, n: nat)
    requires |c| < Pow256(SizeWidth)
    ensures ReadEntries(n + 1, EntryBytes(sym, c) + tail, acc) == ReadEntries(n, tail, acc[sym := c])
  {
    var bs := EntryBytes(sym, c) + tail;
    assert bs[0] == sym && bs[1 + SizeWidth + |c|..] == tail
      && FromLE(bs[1..1 + SizeWidth]) == |c|
      && CharsToBits(bs[1 + SizeWidth..1 + SizeWidth + |c|]) == c by {
      EntryFields(sym, c, tail);
      FromLEOfLE(|c|, SizeWidth);
      CharsToBitsOfBitChars(c);
    }
  }

  /** Reading back the bytes of written entries stores exactly those
      entries and leaves whatever follows untouched. */
  lemma {:induction false} ReadEntriesBytes(es: seq<(Byte, Code)>, acc: CodeMap, payload: seq<Byte>)
    requires forall i :: 0 <= i < |es| ==> |es[i].1| < Pow256(SizeWidth)
    ensures ReadEntries(|es|, EntriesBytes(es) + payload, acc) == Success(Parsed(Store(acc, es), payload))
  {
    if |es| > 0 {
      var sym, c := es[0].0, es[0].1;
      var tail := EntriesBytes(es[1..]) + payload;
      assert EntriesBytes(es) + payload == EntryBytes(sym, c) + tail by {
        Assoc(EntryBytes(sym, c), EntriesBytes(es[1..]), payload);
      }
      ReadOneEntry(sym, c, tail, acc, |es| - 1);
      assert Store(acc, es) == Store(acc[sym := c], es[1..]);
      ReadEntriesBytes(es[1..], acc[sym := c], payload);
    } else {
      assert EntriesBytes(es) + payload == payload;
    }
  }

  /** Storing entries that agree with `m`, and together with `acc` cover
      it, gives `m`. */
  lemma {:induction false} StoreCovers(acc: CodeMap, es: seq<(Byte, Code)>, m: CodeMap)
    requires forall i :: 0 <= i < |es| ==> es[i].0 in m && es[i].1 == m[es[i].0]
    requires forall k :: k in acc ==> k in m && acc[k] == m[k]
    requires forall k :: k in m ==> k in acc || exists i :: 0 <= i < |es| && es[i].0 == k
    ensures Store(acc, es) == m
    decreases |es|
  {
    if |es| == 0 {
      assert acc.Keys == m.Keys;
    } else {
      var acc' := acc[es[0].0 := es[0].1];
      forall k | k in m
        ensures k in acc' || exists i :: 0 <= i < |es[1..]| && es[1..][i].0 == k
      {
        if k !in acc' {
          var i :| 0 <= i < |es| && es[i].0 == k;
          assert es[1..][i - 1].0 == k;
        }
      }
      StoreCovers(acc', es[1..], m);
    }
  }

  lemma CountFits(n: nat)
    requires n <= 256
    ensures n < Pow256(SizeWidth)
  {
  }

  /** Every key of `m` is listed among its entries. */
  lemma EntriesCover(m: CodeMap)
    ensures forall k :: k in m ==> exists i :: 0 <= i < |Entries(m)| && Entries(m)[i].0 == k
  {
    var es := Entries(m);
    forall k | k in m
      ensures exists i :: 0 <= i < |es| && es[i].0 == k
    {
      var ks := SortedKeys(m);
      var i :| 0 <= i < |ks| && ks[i] == k;
      assert es[i].0 == k;
    }
  }

  lemma HeaderSplit(m: CodeMap, payload: seq<Byte>)
    ensures (Header(m) + payload)[..SizeWidth] == LE(|m|, SizeWidth)
    ensures (Header(m) + payload)[SizeWidth..] == EntriesBytes(Entries(m)) + payload
  {
    var a, b := LE(|m|, SizeWidth), EntriesBytes(Entries(m));
    assert Header(m) == a + b;
    SplitField(a, b, payload);
  }

  lemma SplitField(a: seq<Byte>, b: seq<Byte>, c: seq<Byte>)
    requires |a| == SizeWidth
    ensures (a + b + c)[..SizeWidth] == a && (a + b + c)[SizeWidth..] == b + c
  {
    assert a + b + c == a + (b + c);
  }

  /** Storing the entries of `m` into an empty table gives `m`. */
  lemma StoreEntries(m: CodeMap)
    ensures Store(map[], Entries(m)) == m
  {
    EntriesCover(m);
    StoreCovers(map[], Entries(m), m);
  }

  lemma EntriesFit(m: CodeMap)
    requires forall k :: k in m ==> |m[k]| < Pow256(SizeWidth)
    ensures forall i :: 0 <= i < |Entries(m)| ==> |Entries(m)[i].1| < Pow256(SizeWidth)
  {
  }

  /** Reading back the entries of `m`, from an empty table, gives `m`. */
  lemma EntriesReadBack(m: CodeMap, payload: seq<Byte>)
    requires forall k :: k in m ==> |m[k]| < Pow256(SizeWidth)
    ensures ReadEntries(|m|, EntriesBytes(Entries(m)) + payload, map[]) == Success(Parsed(m, payload))
  {
    EntriesFit(m);
    ReadEntriesBytes(Entries(m), map[], payload);
    StoreEntries(m);
  }

  /** Parsing a written header gives back the table written and the bytes
      after it, for any table whose code lengths fit a `size_t`. */
  lemma ParseHeaderRoundTrip(m: CodeMap, payload: seq<Byte>)
    requires forall k :: k in m ==> |m[k]| < Pow256(SizeWidth)
    ensures ParseHeader(Header(m) + payload) == Success(Parsed(m, payload))
  {
    HeaderSplit(m, payload);
    CountFits(|SortedKeys(m)|);
    FromLEOfLE(|m|, SizeWidth);
    EntriesReadBack(m, payload);
  }
}
