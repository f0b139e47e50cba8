/** The payload of a compressed file: the code words of the input
    concatenated and packed eight to a byte, most significant bit first,
    the last byte padded with zero bits (huffmanCompress.cpp:91-112); and
    the reverse expansion the decoder performs (huffmanCompress.cpp:171-174). */
module Packing {
  import opened Basics

  function Pow2(n: nat): (p: nat)
    ensures p >= 1
  {
    if n == 0 then 1 else 2 * Pow2(n - 1)
  }

  /** The code word `huffmanCodes[ch]` yields: a symbol without an entry
      yields the empty string. */
  function CodeOf(m: CodeMap, x: Byte): Code {
    if x in m then m[x] else []
  }

  /** The code words of `s`, in order. The encoding starts with the first
      symbol's code word, and when every symbol has a non-empty code word it
      has at least one bit per symbol. */
  function Encode(m: CodeMap, s: seq<Byte>): (bits: Code)
    ensures |s| > 0 ==> CodeOf(m, s[0]) <= bits
    ensures (forall k :: k in m ==> |m[k]| > 0) && (forall i :: 0 <= i < |s| ==> s[i] in m)
      ==> |bits| >= |s|
  {
    if |s| == 0 then [] else CodeOf(m, s[0]) + Encode(m, s[1..])
  }

  /** Encoding is a homomorphism: the encoding of `a + b` is the encoding of
      `a` followed by that of `b`. */
  lemma {:induction false} EncodeAppend(m: CodeMap, a: seq<Byte>, b: seq<Byte>)
    ensures Encode(m, a + b) == Encode(m, a) + Encode(m, b)
  {
    if |a| > 0 {
      assert (a + b)[1..] == a[1..] + b;
      EncodeAppend(m, a[1..], b);
    } else {
      assert a + b == b;
    }
  }

  /** The encoding of a prefix of the input is a prefix of its encoding. */
  lemma EncodeOfPrefix(m: CodeMap, s: seq<Byte>, i: nat)
    requires i <= |s|
    ensures Encode(m, s[..i]) <= Encode(m, s)
  {
    assert s == s[..i] + s[i..];
    EncodeAppend(m, s[..i], s[i..]);
  }

  lemma EncodePrefix(m: CodeMap, s: seq<Byte>, i: nat)
    requires i < |s|
    ensures Encode(m, s[..i + 1]) == Encode(m, s[..i]) + CodeOf(m, s[i])
  {
    assert s[..i + 1] == s[..i] + [s[i]];
    EncodeAppend(m, s[..i], [s[i]]);
  }

  /** The low `n` bits of `x`, most significant first: bit `7 - i` of a
      byte is the `i`-th element of `ToBits(byte, 8)`. */
  function ToBits(x: nat, n: nat): (b: Code)
    ensures |b| == n
  {
    if n == 0 then [] else ToBits(x / 2, n - 1) + [x % 2 == 1]
  }

  /** The number whose binary digits, most significant first, are `b`. */
  function FromBits(b: Code): nat {
    if |b| == 0 then 0 else 2 * FromBits(b[..|b| - 1]) + (if b[|b| - 1] then 1 else 0)
  }

  lemma {:induction false} FromBitsBound(b: Code)
    ensures FromBits(b) < Pow2(|b|)
  {
    if |b| > 0 {
      FromBitsBound(b[..|b| - 1]);
    }
  }

  /** The value of a full buffer fits in one byte. */
  function ByteOf(b: Code): (x: Byte)
    requires |b| == 8
    ensures x == FromBits(b)
  {
    FromBitsBound(b);
    assert Pow2(8) == 256;
    FromBits(b)
  }

  lemma {:induction false} ToBitsOfFromBits(b: Code)
    ensures ToBits(FromBits(b), |b|) == b
  {
    if |b| > 0 {
      var init := b[..|b| - 1];
      ToBitsOfFromBits(init);
      var x := FromBits(b);
      assert x / 2 == FromBits(init);
      assert (x % 2 == 1) == b[|b| - 1];
      assert b == init + [b[|b| - 1]];
    }
  }

  lemma {:induction false} FromBitsOfToBits(x: nat, n: nat)
    requires x < Pow2(n)
    ensures FromBits(ToBits(x, n)) == x
  {
    if n > 0 {
      FromBitsOfToBits(x / 2, n - 1);
      var b := ToBits(x, n);
      assert b[..|b| - 1] == ToBits(x / 2, n - 1);
    }
  }

  /** How many zero bits fill out the last byte of `n` bits. */
  function PadLen(n: nat): (p: nat)
    ensures p < 8 && (n + p) % 8 == 0
  {
    if n % 8 == 0 then 0 else 8 - n % 8
  }

  lemma PadLenShort(n: nat)
    requires 0 < n < 8
    ensures PadLen(n) == 8 - n
  {
  }

  lemma PadLenStep(n: nat)
    requires n >= 8
    ensures PadLen(n) == PadLen(n - 8)
  {
  }

  /** The bytes written for the bit string `bits`: a byte per eight bits,
      and a last byte, low bits zero, for any remainder. */
  function Pack(bits: Code): (bytes: seq<Byte>)
    ensures |bits| <= 8 * |bytes| < |bits| + 8
  {
    if |bits| == 0 then []
    else if |bits| < 8 then [ByteOf(bits + Zeros(8 - |bits|))]
    else [ByteOf(bits[..8])] + Pack(bits[8..])
  }

  /** The bits the decoder reads from `bytes`, eight per byte, high bit first. */
  function Unpack(bytes: seq<Byte>): (bits: Code)
    ensures |bits| == 8 * |bytes|
  {
    if |bytes| == 0 then [] else ToBits(bytes[0], 8) + Unpack(bytes[1..])
  }

  /** Unpacking the payload gives the packed bits followed by the zero
      padding of the last byte: fewer than eight zero bits. */
  lemma {:induction false} UnpackPack(bits: Code)
    ensures Unpack(Pack(bits)) == bits + Zeros(PadLen(|bits|))
    decreases |bits|
  {
    if |bits| == 0 {
    } else if |bits| < 8 {
      UnpackPackShort(bits);
    } else {
      var rest := bits[8..];
      UnpackPack(rest);
      UnpackPackFull(bits);
    }
  }

  lemma UnpackPackShort(bits: Code)
    requires 0 < |bits| < 8
    ensures Unpack(Pack(bits)) == bits + Zeros(PadLen(|bits|))
  {
    var full := bits + Zeros(8 - |bits|);
    assert Unpack(Pack(bits)) == ToBits(ByteOf(full), 8) by {
      PackShort(bits);
      UnpackOne(ByteOf(full));
    }
    assert ToBits(ByteOf(full), 8) == full by {
      ToBitsOfFromBits(full);
    }
    PadLenShort(|bits|);
  }

  lemma PackShort(bits: Code)
    requires 0 < |bits| < 8
    ensures Pack(bits) == [ByteOf(bits + Zeros(8 - |bits|))]
  {
  }

  lemma UnpackOne(x: Byte)
    ensures Unpack([x]) == ToBits(x, 8)
  {
    assert Unpack([x]) == ToBits(x, 8) + Unpack([]);
  }

  lemma UnpackPackFull(bits: Code)
    requires |bits| >= 8
    requires Unpack(Pack(bits[8..])) == bits[8..] + Zeros(PadLen(|bits[8..]|))
    ensures Unpack(Pack(bits)) == bits + Zeros(PadLen(|bits|))
  {
    var rest := bits[8..];
    ToBitsOfFromBits(bits[..8]);
    PadLenStep(|bits|);
    assert Pack(bits) == [ByteOf(bits[..8])] + Pack(rest);
    assert Pack(bits)[1..] == Pack(rest);
    assert bits == bits[..8] + rest;
  }

  /** Packing the bits of whole bytes gives those bytes back. */
  lemma {:induction false} PackUnpack(bytes: seq<Byte>)
    ensures Pack(Unpack(bytes)) == bytes
  {
    if |bytes| > 0 {
      var bits := Unpack(bytes);
      PackUnpack(bytes[1..]);
      assert bits[..8] == ToBits(bytes[0], 8);
      assert bits[8..] == Unpack(bytes[1..]);
      assert Pow2(8) == 256;
      FromBitsOfToBits(bytes[0], 8);
    }
  }

  /** Packing splits at any whole number of bytes. */
  lemma {:induction false} PackAppend(a: Code, b: Code)
    requires |a| % 8 == 0
    ensures Pack(a + b) == Pack(a) + Pack(b)
    decreases |a|
  {
    if |a| > 0 {
      assert (a + b)[..8] == a[..8];
      assert (a + b)[8..] == a[8..] + b;
      PackAppend(a[8..], b);
    } else {
      assert a + b == b;
    }
  }

  /** The state of the packing loop after the bits `done`: `out` holds
      every completed byte and the first `index` positions of `buffer`
      (position `i` standing for bit `7 - i`) hold the bits since; the
      rest of the buffer is clear. */
  ghost predicate Packing(out: seq<Byte>, buffer: Code, index: nat, done: Code) {
    index < 8 && |done| == 8 * |out| + index
    && out == Pack(done[..8 * |out|])
    && buffer == done[8 * |out|..] + Zeros(8 - index)
  }

  /** The loop state once the last bit is in, with the partial byte flushed,
      is the packing of all the bits. */
  lemma PackingDone(out: seq<Byte>, buffer: Code, index: nat, done: Code)
    requires Packing(out, buffer, index, done)
    ensures index > 0 ==> out + [ByteOf(buffer)] == Pack(done)
    ensures index == 0 ==> out == Pack(done)
  {
    var cut := 8 * |out|;
    assert done == done[..cut] + done[cut..];
    PackAppend(done[..cut], done[cut..]);
  }

  /** Setting one more bit, and emitting the buffer when it fills, keeps
      the loop state. */
  lemma PackingStep(out: seq<Byte>, buffer: Code, index: nat, done: Code, bit: bool)
    requires Packing(out, buffer, index, done)
    ensures index + 1 < 8 ==> Packing(out, buffer[index := bit], index + 1, done + [bit])
    ensures index + 1 == 8 ==> Packing(out + [ByteOf(buffer[index := bit])], Zeros(8), 0, done + [bit])
  {
    var cut := 8 * |out|;
    var done' := done + [bit];
    var buffer' := buffer[index := bit];
    assert done'[..cut] == done[..cut];
    assert buffer' == done'[cut..] + Zeros(8 - (index + 1));
    if index + 1 == 8 {
      assert buffer' == done'[cut..] by {
        assert Zeros(0) == [];
      }
      PackingEmit(out, buffer', done');
    }
  }

  /** Emitting a full buffer holding the bits after the completed bytes
      starts an empty buffer. */
  lemma PackingEmit(out: seq<Byte>, full: Code, done: Code)
    requires |done| == 8 * |out| + 8
    requires out == Pack(done[..8 * |out|])
    requires full == done[8 * |out|..]
    ensures Packing(out + [ByteOf(full)], Zeros(8), 0, done)
  {
    var cut := 8 * |out|;
    var out' := out + [ByteOf(full)];
    assert done[..8 * |out'|] == done[..cut] + full;
    PackAppend(done[..cut], full);
    assert Pack(full) == [ByteOf(full[..8])] + Pack(full[8..]);
    assert full[..8] == full && full[8..] == [];
    assert done[8 * |out'|..] + Zeros(8) == Zeros(8);
  }

  /** The inner loop of `compressFile`'s payload pass: each bit of one
      code word is set in the buffer from the high end, and a full buffer is
      written out and cleared. */
  method PushCode(out: seq<Byte>, buffer: Code, index: nat, ghost done: Code, code: Code)
    returns (out': seq<Byte>, buffer': Code, index': nat)
    requires Packing(out, buffer, index, done)
    ensures Packing(out', buffer', index', done + code)
  {
    out', buffer', index' := out, buffer, index;
    ghost var done' := done;
    var j := 0;
    while j < |code|
      invariant 0 <= j <= |code|
      invariant done' == done + code[..j]
      invariant Packing(out', buffer', index', done')
    {
      PackingStep(out', buffer', index', done', code[j]);
      buffer' := buffer'[index' := code[j]];
      index' := index' + 1;
      done' := done' + [code[j]];
      assert code[..j + 1] == code[..j] + [code[j]];
      if index' == 8 {
        out' := out' + [ByteOf(buffer')];
        buffer' := Zeros(8);
        index' := 0;
      }
      j := j + 1;
    }
    assert code[..j] == code;
  }

  /** The payload pass of `compressFile`: the code word of each input symbol
      is pushed into the buffer, and a partly filled buffer is written at
      the end. */
  method PackPayload(m: CodeMap, input: seq<Byte>) returns (out: seq<Byte>)
    ensures out == Pack(Encode(m, input))
    ensures |Encode(m, input)| <= 8 * |out| < |Encode(m, input)| + 8
  {
    var buffer := Zeros(8);
    var index: nat := 0;
    out := [];
    ghost var done: Code := [];
    var i := 0;
    while i < |input|
      invariant 0 <= i <= |input|
      invariant done == Encode(m, input[..i])
      invariant Packing(out, buffer, index, done)
    {
      var code := CodeOf(m, input[i]);
      out, buffer, index := PushCode(out, buffer, index, done, code);
      done := done + code;
      EncodePrefix(m, input, i);
      i := i + 1;
    }
    assert input[..i] == input;
    PackingDone(out, buffer, index, done);
    if index > 0 {
      out := out + [ByteOf(buffer)];
    }
  }
}
