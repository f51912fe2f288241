/**
 * Properties of the base32 codec, stated on the functions Encoded and Decoded
 * that the methods Encode and Decode are proved to compute.
 */
module CodecLaws {
  import opened Bits
  import opened Seqs
  import opened Codec

  // ---------------------------------------------------------------------------
  // The alphabet

  /** Padding is not in the alphabet, so Decode skips it. */
  lemma PaddingNotInAlphabet()
    ensures '=' !in Alphabet
  {
    SymbolChar('=');
  }

  // ---------------------------------------------------------------------------
  // Encode

  /** Position k of the string holds the symbol emitted k-th from last. */
  lemma {:induction false} RenderAt(syms: seq<Sym>)
    ensures forall k :: 0 <= k < |syms| ==> Render(syms)[k] == Letter(syms[|syms| - 1 - k])
  {
    forall k | 0 <= k < |syms|
      ensures Render(syms)[k] == Letter(syms[|syms| - 1 - k])
    {
      RenderIndex(syms, k);
    }
  }

  lemma {:induction false} RenderIndex(syms: seq<Sym>, k: nat)
    requires k < |syms|
    ensures Render(syms)[k] == Letter(syms[|syms| - 1 - k])
  {
    var init := syms[..|syms| - 1];
    var head, tail := Letter(syms[|syms| - 1]), Render(init);
    assert Render(syms) == [head] + tail;
    if k > 0 {
      RenderIndex(init, k - 1);
      ConsAt(head, tail, k);
      assert init[|init| - 1 - (k - 1)] == syms[|syms| - 1 - k];
    }
  }

  lemma ConsAt<T>(x: T, r: seq<T>, k: nat)
    requires 1 <= k <= |r|
    ensures ([x] + r)[k] == r[k - 1]
  {
  }

  /**
   * Encode's output has one character per started group of five kept bits:
   * (8n + 4) / 5, that is ceil(8n / 5), for n bytes under the default limit.
   */
  lemma EncodedLength(data: seq<byte>, bitsAmount: nat)
    ensures |Encoded(data, bitsAmount)| == ((if bitsAmount < 8 * |data| then bitsAmount else 8 * |data|) + 4) / 5
  {
    var kept := Kept(BitsOf(data), bitsAmount);
    assert |Groups(kept)| == (|kept| + 4) / 5;
  }

  /** Every character Encode outputs is from the alphabet. */
  lemma EncodedAlphabet(data: seq<byte>, bitsAmount: nat)
    ensures forall k :: 0 <= k < |Encoded(data, bitsAmount)| ==> Encoded(data, bitsAmount)[k] in Alphabet
  {
    var syms := Groups(Kept(BitsOf(data), bitsAmount));
    RenderAt(syms);
    forall k | 0 <= k < |syms|
      ensures Render(syms)[k] in Alphabet
    {
      var j := syms[|syms| - 1 - k];
      LetterAt(j);
      assert Render(syms)[k] == Alphabet[j];
    }
  }

  /**
   * Two bytes under a 10-bit limit, as makeTimestamp encodes its counter: the
   * first character is bits 5..9 of the little-endian value, the second bits 0..4.
   */
  lemma TwoBytesTenBits(data: seq<byte>)
    requires |data| == 2
    ensures Encoded(data, 10) == [Alphabet[(LeValue(data) / 32) % 32], Alphabet[LeValue(data) % 32]]
  {
    TenBitGroups(data);
    RenderTwo(LeValue(data) % 32, (LeValue(data) / 32) % 32);
  }

  /** The two groups of ten kept bits are the low and the high five bits of the value. */
  lemma TenBitGroups(data: seq<byte>)
    requires |data| == 2
    ensures Groups(Kept(BitsOf(data), 10)) == [LeValue(data) % 32, (LeValue(data) / 32) % 32]
  {
    var a, b := data[0], data[1];
    var kept := Kept(BitsOf(data), 10);
    assert data == [a, b];
    TenBits(a, b, data, kept);
    LeValueTwo(data);
    TenBitsValue(a, b, kept, LeValue(data));
  }

  lemma TenBitsValue(a: byte, b: byte, kept: seq<bool>, v: int)
    requires |kept| == 10 && v == a + 256 * b
    requires kept[..5] == ToBits(a, 5)
    requires kept[5..] == ToBits(Shr(a, 5), 3) + ToBits(b, 2)
    ensures Groups(kept) == [v % 32, (v / 32) % 32]
  {
    LowSymbols(a, b, kept);
    TwoGroups(kept);
    SymbolsOfValue(a, b, v);
  }

  lemma LeValueTwo(data: seq<byte>)
    requires |data| == 2
    ensures LeValue(data) == data[0] as int + 256 * data[1] as int
  {
    assert LeValue(data[1..]) == data[1] + 256 * LeValue(data[1..][1..]);
  }

  lemma RenderTwo(g0: Sym, g1: Sym)
    ensures Render([g0, g1]) == [Alphabet[g1], Alphabet[g0]]
  {
    assert [g0, g1][..1] == [g0];
    assert [g0][..0] == [];
    LetterAt(g0);
    LetterAt(g1);
  }

  /** The 10 kept bits of two bytes: the first byte, then the low two bits of the second. */
  lemma TenBits(a: byte, b: byte, data: seq<byte>, kept: seq<bool>)
    requires data == [a, b] && kept == Kept(BitsOf(data), 10)
    ensures kept[..5] == ToBits(a, 5)
    ensures kept[5..] == ToBits(Shr(a, 5), 3) + ToBits(b, 2)
  {
    assert data[..1] == [a];
    assert [a][..0] == [];
    var bits := ToBits(a, 8) + ToBits(b, 8);
    assert BitsOf(data) == bits;
    assert kept == bits[..10];
    assert kept[..5] == ToBits(a, 8)[..5];
    assert kept[5..] == ToBits(a, 8)[5..] + ToBits(b, 8)[..2];
    ToBitsTake(a, 8, 5);
    ToBitsDrop(a, 8, 5);
    ToBitsTake(b, 8, 2);
  }

  /** The values of the two 5-bit groups of TenBits. */
  lemma LowSymbols(a: byte, b: byte, kept: seq<bool>)
    requires |kept| == 10
    requires kept[..5] == ToBits(a, 5)
    requires kept[5..] == ToBits(Shr(a, 5), 3) + ToBits(b, 2)
    ensures Value(kept[..5]) == a % 32
    ensures Value(kept[5..]) == a / 32 + 8 * (b % 4)
  {
    ValueToBits(a, 5);
    ShiftConstants(a);
    ValueAppend(ToBits(Shr(a, 5), 3), ToBits(b, 2));
    ValueToBits(Shr(a, 5), 3);
    ValueToBits(b, 2);
    Pow2Constants();
    LowOfSmall(a / 32, 3);
    LowShr(b, 2);
    ShlConstants(Shr(b, 2));
    ShlConstants(Low(b, 2));
    DivModUnique(b, 4, Shr(b, 2), Low(b, 2));
  }

  /** Ten bits form two full groups. */
  lemma TwoGroups(kept: seq<bool>)
    requires |kept| == 10
    ensures Groups(kept) == [Value(kept[..5]), Value(kept[5..])]
  {
    GroupOfFive(kept[5..]);
  }

  /** The group values of TwoBytesTenBits, read off the little-endian value. */
  lemma SymbolsOfValue(a: byte, b: byte, v: int)
    requires v == a + 256 * b
    ensures v % 32 == a % 32
    ensures (v / 32) % 32 == a / 32 + 8 * (b % 4)
  {
    DivModUnique(v, 32, a / 32 + 8 * b, a % 32);
    DivModUnique(a / 32 + 8 * b, 32, b / 4, a / 32 + 8 * (b % 4));
  }

  // ---------------------------------------------------------------------------
  // Decode

  /** Decode's array always has the capacity ceil(5n / 8) for a string of n characters. */
  lemma DecodedLength(s: string)
    ensures |Decoded(s)| == Capacity(|s|)
  {
    BytesFit(s);
  }

  /** The array holds the decoded bytes, and zeros after them. */
  lemma DecodedZeros(s: string)
    ensures var bytes := BytesOf(SymBits(SymbolsFromEnd(s)));
            && |bytes| <= |Decoded(s)|
            && Decoded(s)[..|bytes|] == bytes
            && forall k :: |bytes| <= k < |Decoded(s)| ==> Decoded(s)[k] == 0
  {
    var bytes := BytesOf(SymBits(SymbolsFromEnd(s)));
    DecodedParts(s);
    Padded(bytes, Capacity(|s|) - |bytes|);
  }

  /** Bytes followed by m zeros. */
  lemma Padded(bytes: seq<byte>, m: nat)
    ensures (bytes + Zeros(m))[..|bytes|] == bytes
    ensures forall k :: |bytes| <= k < |bytes| + m ==> (bytes + Zeros(m))[k] == 0
  {
    ZerosAreZero(m);
    TakeOfAppend(bytes, Zeros(m));
  }

  lemma TakeOfAppend<T>(a: seq<T>, b: seq<T>)
    ensures (a + b)[..|a|] == a
  {
  }

  /** A character outside the alphabet, such as '=', contributes no symbol. */
  lemma {:induction false} SymbolsSkip(a: string, c: char, b: string)
    requires c !in Alphabet
    ensures SymbolsFromEnd(a + [c] + b) == SymbolsFromEnd(a + b)
  {
    SymbolChar(c);
    if a == [] {
      assert a + [c] + b == [c] + b;
      assert ([c] + b)[1..] == b;
      assert a + b == b;
    } else {
      assert (a + [c] + b)[1..] == a[1..] + [c] + b;
      assert (a + b)[1..] == a[1..] + b;
      SymbolsSkip(a[1..], c, b);
    }
  }

  lemma {:induction false} ZerosAppend(m: nat, n: nat)
    ensures Zeros(m + n) == Zeros(m) + Zeros(n)
  {
    if m > 0 {
      ZerosAppend(m - 1, n);
      ConcatAssoc([0], Zeros(m - 1), Zeros(n));
    }
  }

  /**
   * Decode skips a character outside the alphabet: it decodes the same bytes,
   * and the character only counts towards the capacity of the array.
   */
  lemma DecodeSkips(a: string, c: char, b: string)
    requires c !in Alphabet
    ensures Decoded(a + [c] + b) == Decoded(a + b) + Zeros(Capacity(|a| + |b| + 1) - Capacity(|a| + |b|))
  {
    SymbolsSkip(a, c, b);
    SameSymbols(a + [c] + b, a + b, |a| + |b|);
  }

  /** Two strings with the same symbols, the first one character longer. */
  lemma SameSymbols(s: string, t: string, n: nat)
    requires SymbolsFromEnd(s) == SymbolsFromEnd(t) && |t| == n && |s| == n + 1
    ensures Capacity(n) <= Capacity(n + 1)
    ensures Decoded(s) == Decoded(t) + Zeros(Capacity(n + 1) - Capacity(n))
  {
    var bytes := BytesOf(SymBits(SymbolsFromEnd(t)));
    var c0, c1 := Capacity(n), Capacity(n + 1);
    CapacityMonotone(n, n + 1);
    DecodedAs(s, bytes, c1);
    DecodedAs(t, bytes, c0);
    PadSplit(bytes, c1 - |bytes|, c0 - |bytes|, c1 - c0);
  }

  lemma PadSplit(bytes: seq<byte>, total: nat, first: nat, rest: nat)
    requires total == first + rest
    ensures bytes + Zeros(total) == (bytes + Zeros(first)) + Zeros(rest)
  {
    ZerosAppend(first, rest);
    ConcatAssoc(bytes, Zeros(first), Zeros(rest));
  }

  // ---------------------------------------------------------------------------
  // Round trips

  lemma {:induction false} SymbolsFromEndRender(syms: seq<Sym>)
    ensures SymbolsFromEnd(Render(syms)) == syms
  {
    if syms != [] {
      var init, last := syms[..|syms| - 1], syms[|syms| - 1];
      var s := Render(syms);
      HeadTail(Letter(last), Render(init));
      SymbolsFromEndRender(init);
      Snoc(syms);
    }
  }

  lemma HeadTail<T>(x: T, s: seq<T>)
    ensures ([x] + s)[0] == x && ([x] + s)[1..] == s
  {
  }

  lemma {:induction false} RenderSymbolsFromEnd(s: string)
    requires forall k :: 0 <= k < |s| ==> IsSymbol(s[k])
    ensures Render(SymbolsFromEnd(s)) == s
  {
    if s != [] {
      var rest := SymbolsFromEnd(s[1..]);
      RenderSymbolsFromEnd(s[1..]);
      assert IsSymbol(s[0]);
      LetterPosition(s[0]);
      var k := Position(s[0]);
      assert (rest + [k])[..|rest|] == rest;
      assert s == [s[0]] + s[1..];
    }
  }

  lemma InitOfAppend<T>(a: seq<T>, b: seq<T>)
    requires b != []
    ensures (a + b)[..|a + b| - 1] == a + b[..|b| - 1] && (a + b)[|a + b| - 1] == b[|b| - 1]
  {
  }

  lemma {:induction false} SymBitsAppend(a: seq<Sym>, b: seq<Sym>)
    ensures SymBits(a + b) == SymBits(a) + SymBits(b)
  {
    if b == [] {
      AppendNil(a);
      AppendNil(SymBits(a));
    } else {
      var init, last := b[..|b| - 1], b[|b| - 1];
      InitOfAppend(a, b);
      SymBitsAppend(a, init);
      ConcatAssoc(SymBits(a), SymBits(init), ToBits(last, 5));
    }
  }

  lemma SymBitsOne(v: Sym)
    ensures SymBits([v]) == ToBits(v, 5)
  {
    assert [v][..0] == [];
  }

  lemma {:induction false} SymBitsGroups(bits: seq<bool>)
    requires |bits| % 5 == 0
    ensures SymBits(Groups(bits)) == bits
  {
    if bits != [] {
      var v := Value(bits[..5]);
      assert Groups(bits) == [v] + Groups(bits[5..]);
      SymBitsAppend([v], Groups(bits[5..]));
      SymBitsOne(v);
      ToBitsValue(bits[..5]);
      LessFive(|bits|);
      SymBitsGroups(bits[5..]);
      TakeDrop(bits, 5);
    }
  }

  lemma {:induction false} GroupsSymBits(syms: seq<Sym>)
    ensures Groups(SymBits(syms)) == syms
  {
    if syms != [] {
      var init, last := syms[..|syms| - 1], syms[|syms| - 1];
      assert SymBits(syms) == SymBits(init) + ToBits(last, 5);
      MultipleOfFive(|SymBits(init)|, |init|);
      GroupsAppend(SymBits(init), ToBits(last, 5));
      GroupOfFive(ToBits(last, 5));
      SymbolBits(last);
      GroupsSymBits(init);
      Snoc(syms);
    }
  }

  lemma LessFive(n: nat)
    requires n % 5 == 0 && n > 0
    ensures n >= 5 && (n - 5) % 5 == 0
  {
  }

  lemma LessEight(n: nat)
    requires n % 8 == 0 && n > 0
    ensures n >= 8 && (n - 8) % 8 == 0
  {
  }

  lemma MultipleOfFive(d: nat, n: nat)
    requires d == 5 * n
    ensures d % 5 == 0
  {
  }

  lemma SymbolBits(k: Sym)
    ensures Value(ToBits(k, 5)) == k
  {
    ValueToBits(k, 5);
    Pow2Constants();
    LowOfSmall(k, 5);
  }

  lemma {:induction false} BytesOfBitsOf(data: seq<byte>)
    ensures BytesOf(BitsOf(data)) == data
  {
    if data != [] {
      var init, last := data[..|data| - 1], data[|data| - 1];
      assert BitsOf(data) == BitsOf(init) + ByteBits(last);
      MultipleOfEight(|BitsOf(init)|, |init|);
      BytesAppend(BitsOf(init), ByteBits(last));
      ByteOfEight(ByteBits(last));
      ByteBitsValue(last);
      BytesOfBitsOf(init);
      Snoc(data);
    }
  }

  lemma {:induction false} BitsOfAppend(a: seq<byte>, b: seq<byte>)
    ensures BitsOf(a + b) == BitsOf(a) + BitsOf(b)
  {
    if b == [] {
      AppendNil(a);
      AppendNil(BitsOf(a));
    } else {
      var init, last := b[..|b| - 1], b[|b| - 1];
      InitOfAppend(a, b);
      BitsOfAppend(a, init);
      ConcatAssoc(BitsOf(a), BitsOf(init), ByteBits(last));
    }
  }

  lemma BitsOfOne(v: byte)
    ensures BitsOf([v]) == ByteBits(v)
  {
    assert [v][..0] == [];
  }

  lemma {:induction false} BitsOfBytesOf(bits: seq<bool>)
    requires |bits| % 8 == 0
    ensures BitsOf(BytesOf(bits)) == bits
  {
    if bits != [] {
      Pow2Constants();
      var v: byte := Value(bits[..8]);
      assert BytesOf(bits) == [v] + BytesOf(bits[8..]);
      BitsOfAppend([v], BytesOf(bits[8..]));
      BitsOfOne(v);
      ToBitsValue(bits[..8]);
      LessEight(|bits|);
      BitsOfBytesOf(bits[8..]);
      TakeDrop(bits, 8);
    }
  }

  lemma FiveBytesPerGroup(n: nat, m: nat)
    requires n == 5 * m
    ensures (8 * n) % 5 == 0 && (8 * n + 4) / 5 == 8 * m && Capacity(8 * m) == n
  {
  }

  /**
   * Decoding what Encode produced under the default limit gives the bytes back,
   * when their number is a multiple of five (40 bits, whole groups and bytes).
   */
  lemma EncodeDecode(data: seq<byte>)
    requires |data| % 5 == 0 && 8 * |data| <= IntMaxValue
    ensures Decoded(Encoded(data, IntMaxValue)) == data
  {
    var bits := BitsOf(data);
    var syms := Groups(bits);
    FiveBytesPerGroup(|data|, |data| / 5);
    SymbolsFromEndRender(syms);
    SymBitsGroups(bits);
    BytesOfBitsOf(data);
    assert data + Zeros(0) == data;
  }

  lemma EightSymbolsPerGroup(n: nat, m: nat)
    requires n == 8 * m
    ensures (5 * n) % 8 == 0 && (5 * n + 7) / 8 == 5 * m && (8 * (5 * m) + 4) / 5 == n
  {
  }

  /**
   * Encoding what Decode produced gives the string back, when it has only
   * alphabet characters and their number is a multiple of eight.
   */
  lemma DecodeEncode(s: string)
    requires forall k :: 0 <= k < |s| ==> s[k] in Alphabet
    requires |s| % 8 == 0 && 5 * |s| <= IntMaxValue
    ensures |Decoded(s)| == 5 * |s| / 8
    ensures Encoded(Decoded(s), IntMaxValue) == s
  {
    var syms := SymbolsFromEnd(s);
    forall k | 0 <= k < |s|
      ensures IsSymbol(s[k])
    {
      SymbolChar(s[k]);
    }
    RenderSymbolsFromEnd(s);
    var bits := SymBits(syms);
    EightSymbolsPerGroup(|s|, |s| / 8);
    var bytes := BytesOf(bits);
    assert Decoded(s) == bytes + Zeros(0);
    assert bytes + Zeros(0) == bytes;
    BitsOfBytesOf(bits);
    GroupsSymBits(syms);
  }

  /**
   * Two bytes under the 10-bit limit decode back to themselves when the second
   * one fits in the two bits kept of it.
   */
  lemma TenBitRoundTrip(data: seq<byte>)
    requires |data| == 2 && data[1] < 4
    ensures Decoded(Encoded(data, 10)) == data
  {
    var a, b := data[0], data[1];
    var kept := Kept(BitsOf(data), 10);
    KeptTen(a, b, data, kept);
    var syms := Groups(kept);
    SymbolsFromEndRender(syms);
    SymBitsGroups(kept);
    BytesTen(a, b, kept);
    EncodedLength(data, 10);
    DecodedAs(Encoded(data, 10), data, 2);
    AppendNil(data);
  }

  lemma KeptTen(a: byte, b: byte, data: seq<byte>, kept: seq<bool>)
    requires data == [a, b] && kept == Kept(BitsOf(data), 10)
    ensures kept == ToBits(a, 8) + ToBits(b, 2)
  {
    PairBits(a, b, data);
    var low, high := ToBits(a, 8), ToBits(b, 8);
    assert kept == (low + high)[..10];
    assert (low + high)[..10] == low + high[..2];
    ToBitsTake(b, 8, 2);
  }

  lemma PairBits(a: byte, b: byte, data: seq<byte>)
    requires data == [a, b]
    ensures BitsOf(data) == ToBits(a, 8) + ToBits(b, 8)
  {
    assert data[..1] == [a];
    assert [a][..0] == [];
  }

  lemma BytesTen(a: byte, b: byte, kept: seq<bool>)
    requires b < 4 && kept == ToBits(a, 8) + ToBits(b, 2)
    ensures BytesOf(kept) == [a, b]
  {
    BytesAppend(ToBits(a, 8), ToBits(b, 2));
    ByteOfEight(ToBits(a, 8));
    ByteBitsValue(a);
    Pow2Constants();
    ValueToBits(b, 2);
    LowOfSmall(b, 2);
    assert BytesOf(ToBits(b, 2)) == [Value(ToBits(b, 2))];
  }

  /** Capacity of the string Encode makes of n bytes: one byte too many unless 5 divides n. */
  lemma CapacityOfEncoded(n: nat)
    ensures Capacity((8 * n + 4) / 5) == if n % 5 == 0 then n else n + 1
  {
    var m, r := n / 5, n % 5;
    assert n == 5 * m + r;
    if r == 0 {
      assert (8 * n + 4) / 5 == 8 * m;
    } else if r == 1 {
      assert (8 * n + 4) / 5 == 8 * m + 2;
    } else if r == 2 {
      assert (8 * n + 4) / 5 == 8 * m + 4;
    } else if r == 3 {
      assert (8 * n + 4) / 5 == 8 * m + 5;
    } else {
      assert (8 * n + 4) / 5 == 8 * m + 7;
    }
  }

  /** Decoding what Encode produced gives one byte too many unless the length is a multiple of five. */
  lemma RoundTripLength(data: seq<byte>)
    requires 8 * |data| <= IntMaxValue
    ensures |Decoded(Encoded(data, IntMaxValue))| == if |data| % 5 == 0 then |data| else |data| + 1
  {
    EncodedLength(data, IntMaxValue);
    CapacityOfLength(Encoded(data, IntMaxValue), |data|);
  }

  lemma CapacityOfLength(s: string, n: nat)
    requires |s| == (8 * n + 4) / 5
    ensures |Decoded(s)| == if n % 5 == 0 then n else n + 1
  {
    DecodedLength(s);
    CapacityOfEncoded(n);
  }

  /**
   * Decode inverts Encode exactly on the byte strings whose length is a
   * multiple of five; otherwise the bits padding the last symbol come back as
   * one extra byte.
   */
  lemma EncodeDecodeIff(data: seq<byte>)
    requires 8 * |data| <= IntMaxValue
    ensures Decoded(Encoded(data, IntMaxValue)) == data <==> |data| % 5 == 0
  {
    RoundTripLength(data);
    if |data| % 5 == 0 {
      EncodeDecode(data);
    }
  }
}
