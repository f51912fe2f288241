/**
 * The static helpers of the SRS class: GetBytes, and the custom base32 bit
 * packer Encode and unpacker Decode. They use the 32-symbol alphabet of
 * section 6 of RFC 4648, but neither that section's bit order nor its padding:
 * Encode packs bits least significant first and puts each symbol it emits in
 * FRONT of the symbols emitted before; Decode reads the string from its end.
 *
 * The methods follow the C# loops statement by statement. Each is proved
 * against a function on bit strings (Encoded, Decoded, LittleEndian), and the
 * properties of the codec are lemmas about those functions.
 */
module Codec {
  import opened Bits
  import opened Seqs

  type byte = x: int | 0 <= x < 256

  /** A 5-bit symbol value, an index into Alphabet. */
  type Sym = x: int | 0 <= x < 32

  const Alphabet: string := "ABCDEFGHIJKLMNOPQRSTUVWXYZ234567"

  /** C#'s int.MaxValue, the default bit limit of Encode. */
  const IntMaxValue: int := 0x7FFF_FFFF

  predicate IsInt32(x: int) {
    -0x8000_0000 <= x <= IntMaxValue
  }

  // ---------------------------------------------------------------------------
  // GetBytes

  /**
   * Byte i of GetBytes(value, size): `(byte)(value >> (i * 8))`. C# takes a
   * 32-bit shift count modulo 32 and shifts arithmetically.
   */
  function ByteAt(value: int, i: nat): byte {
    Shr(value, (8 * i) % 32) % 256
  }

  function LittleEndian(value: int, size: nat): (r: seq<byte>)
    ensures |r| == size
  {
    seq(size, i requires 0 <= i < size => ByteAt(value, i))
  }

  /** The number whose little-endian bytes are `bytes`. */
  function LeValue(bytes: seq<byte>): nat {
    if bytes == [] then 0 else bytes[0] + 256 * LeValue(bytes[1..])
  }

  method GetBytes(value: int, size: nat) returns (buffer: array<byte>)
    requires IsInt32(value)
    ensures fresh(buffer)
    ensures buffer[..] == LittleEndian(value, size)
  {
    buffer := new byte[size](_ => 0);
    for i := 0 to size
      invariant forall j :: 0 <= j < i ==> buffer[j] == ByteAt(value, j)
    {
      buffer[i] := Shr(value, (i * 8) % 32) % 256;
    }
  }

  lemma ByteAtZero(value: int)
    ensures ByteAt(value, 0) == value % 256
  {
    assert (8 * 0) % 32 == 0;
  }

  lemma ByteAtNext(value: nat, j: nat)
    requires j < 3
    ensures ByteAt(value, j + 1) == ByteAt(value / 256, j)
  {
    assert (8 * (j + 1)) % 32 == 8 + 8 * j;
    assert (8 * j) % 32 == 8 * j;
    ShrAdd(value, 8, 8 * j);
    ShiftConstants(value);
  }

  /** For a size of at most 4 bytes, GetBytes is the little-endian representation. */
  lemma {:induction false} LittleEndianValue(value: nat, size: nat)
    requires size <= 4 && value < Pow2(8 * size)
    ensures LeValue(LittleEndian(value, size)) == value
  {
    if size > 0 {
      var r := LittleEndian(value, size);
      var q := value / 256;
      Pow2Eight(8 * (size - 1));
      LittleEndianValue(q, size - 1);
      forall j | 0 <= j < size - 1
        ensures r[1..][j] == LittleEndian(q, size - 1)[j]
      {
        ByteAtNext(value, j);
      }
      assert r[1..] == LittleEndian(q, size - 1);
      ByteAtZero(value);
    }
  }

  // ---------------------------------------------------------------------------
  // Bit strings of bytes and 5-bit groups

  function ByteBits(b: byte): (r: seq<bool>)
    ensures |r| == 8
  {
    ToBits(b, 8)
  }

  /** All bits of `data`, byte by byte in input order, each byte least significant bit first. */
  function BitsOf(data: seq<byte>): (r: seq<bool>)
    ensures |r| == 8 * |data|
  {
    if data == [] then [] else BitsOf(data[..|data| - 1]) + ByteBits(data[|data| - 1])
  }

  /** The bits Encode keeps under a bit limit. */
  function Kept(bits: seq<bool>, limit: nat): (r: seq<bool>)
    ensures |r| == if limit < |bits| then limit else |bits|
  {
    if limit < |bits| then bits[..limit] else bits
  }

  /** A final group of fewer than 5 bits, shifted up to fill a symbol (`buffer <<= 5 - bitsInBuffer`). */
  function PadGroup(bits: seq<bool>): Sym
    requires 0 < |bits| < 5
  {
    Pow2Constants();
    Value(ToBits(0, 5 - |bits|) + bits)
  }

  /** The symbols Encode emits, in emission order: consecutive 5-bit groups, low bits first. */
  function Groups(bits: seq<bool>): (r: seq<Sym>)
    ensures |r| == (|bits| + 4) / 5
  {
    if |bits| == 0 then []
    else if |bits| < 5 then [PadGroup(bits)]
    else [Value(bits[..5])] + Groups(bits[5..])
  }

  /**
   * The string of a sequence of emitted symbols: each newly emitted symbol is
   * inserted at index 0, so the last symbol emitted comes first.
   */
  function Render(syms: seq<Sym>): (s: string)
    ensures |s| == |syms|
  {
    if syms == [] then "" else [Letter(syms[|syms| - 1])] + Render(syms[..|syms| - 1])
  }

  /** What Encode(data, bitsAmount) returns, on the inputs its callers give it. */
  function Encoded(data: seq<byte>, bitsAmount: nat): string {
    Render(Groups(Kept(BitsOf(data), bitsAmount)))
  }

  lemma MultipleOfEight(d: nat, n: nat)
    requires d == 8 * n
    ensures d % 8 == 0
  {
  }

  lemma FiveAndThree(d: nat, p: nat)
    requires d % 5 == 0 && p < 5 && d + p == 8
    ensures d == 5 && p == 3
  {
  }

  lemma BitsOfSnoc(data: seq<byte>, i: nat)
    requires i < |data|
    ensures BitsOf(data[..i + 1]) == BitsOf(data[..i]) + ByteBits(data[i])
  {
    assert data[..i + 1][..i] == data[..i];
  }

  lemma ByteBitsValue(b: byte)
    ensures Value(ByteBits(b)) == b
  {
    ValueToBits(b, 8);
    Pow2Constants();
    LowOfSmall(b, 8);
  }

  lemma {:induction false} GroupsAppend(a: seq<bool>, b: seq<bool>)
    requires |a| % 5 == 0
    ensures Groups(a + b) == Groups(a) + Groups(b)
  {
    if a == [] {
      assert a + b == b;
    } else {
      assert (a + b)[..5] == a[..5];
      assert (a + b)[5..] == a[5..] + b;
      GroupsAppend(a[5..], b);
    }
  }

  /** One full group of five bits is one symbol. */
  lemma GroupOfFive(g: seq<bool>)
    requires |g| == 5
    ensures Groups(g) == [Value(g)]
  {
    assert g[..5] == g;
    assert g[5..] == [];
  }

  /** A short final group is its bits shifted up by the missing width. */
  lemma PadGroupValue(bits: seq<bool>)
    requires 0 < |bits| < 5
    ensures PadGroup(bits) == Shl(Value(bits), 5 - |bits|)
  {
    ValueAppend(ToBits(0, 5 - |bits|), bits);
    ValueToBits(0, 5 - |bits|);
    LowOfSmall(0, 5 - |bits|);
  }

  /** Or-ing a byte in above the buffered bits appends its bits to them. */
  lemma AbsorbStep(buffer: nat, pending: seq<bool>, b: byte)
    requires buffer == Value(pending) && |pending| < 5
    ensures Shl(b, |pending|) >= 0
    ensures BitOr(buffer, Shl(b, |pending|)) == Value(pending + ByteBits(b)) < 4096
  {
    BitOrDisjoint(buffer, b, |pending|);
    ValueAppend(pending, ByteBits(b));
    ByteBitsValue(b);
    Pow2Monotone(|pending| + 8, 12);
    Pow2Constants();
  }

  /** The low k buffered bits and the bits above them. */
  lemma SplitLow(pending: seq<bool>, k: nat)
    requires |pending| >= k && (k == 5 || k == 8)
    ensures Value(pending) % Pow2(k) == Value(pending[..k])
    ensures Value(pending) / Pow2(k) == Value(pending[k..])
  {
    assert pending == pending[..k] + pending[k..];
    ValueAppend(pending[..k], pending[k..]);
    ShlConstants(Value(pending[k..]));
    Pow2Constants();
    DivModUnique(Value(pending), Pow2(k), Value(pending[k..]), Value(pending[..k]));
  }

  /** Putting a symbol in front of the string is emitting the group of five bits it stands for. */
  lemma RenderEmit(done: seq<bool>, group: seq<bool>, s: string)
    requires |done| % 5 == 0 && s == Render(Groups(done)) && |group| == 5
    ensures [Alphabet[Value(group)]] + s == Render(Groups(done + group))
  {
    GroupsAppend(done, group);
    GroupOfFive(group);
    LetterAt(Value(group));
    var g := Groups(done);
    assert (g + [Value(group)])[..|g|] == g;
  }

  /** One pass of Encode's inner loop: emit the low five buffered bits, keep the rest. */
  lemma EmitStep(done: seq<bool>, pending: seq<bool>, buffer: int, s: string,
                 done': seq<bool>, pending': seq<bool>, buffer': int, s': string)
    requires |done| % 5 == 0 && s == Render(Groups(done))
    requires 0 <= buffer < 4096 && buffer == Value(pending) && |pending| >= 5
    requires s' == [Alphabet[buffer % 32]] + s && buffer' == buffer / 32
    requires done' == done + pending[..5] && pending' == pending[5..]
    ensures |done'| % 5 == 0 && s' == Render(Groups(done'))
    ensures 0 <= buffer' < 4096 && buffer' == Value(pending') && |pending'| == |pending| - 5
    ensures done' + pending' == done + pending
  {
    SplitFive(pending, buffer);
    RenderEmit(done, pending[..5], s);
    ConcatSplit(done, pending, 5);
    AddFive(|done|, |done'|);
  }

  lemma SplitFive(pending: seq<bool>, buffer: int)
    requires |pending| >= 5 && buffer == Value(pending)
    ensures buffer % 32 == Value(pending[..5]) && buffer / 32 == Value(pending[5..])
  {
    SplitLow(pending, 5);
    Pow2Constants();
  }

  lemma SmallMod(x: int, d: int)
    requires 0 <= x < d
    ensures x % d == x
  {
  }

  lemma AddFive(n: nat, m: nat)
    requires n % 5 == 0 && m == n + 5
    ensures m % 5 == 0
  {
  }

  /** Under the 10-bit limit, the second byte leaves exactly five bits to emit. */
  lemma TruncateStep(data: seq<byte>, done: seq<bool>, pending: seq<bool>, buffer: nat)
    requires |data| == 2 && |done| == 5 && |pending| == 3
    requires done + pending == Kept(BitsOf(data[..1]), 10)
    requires buffer == Value(pending + ByteBits(data[1]))
    ensures buffer % 32 == Value((pending + ByteBits(data[1]))[..5])
    ensures done + (pending + ByteBits(data[1]))[..5] == Kept(BitsOf(data[..2]), 10)
  {
    var prev, next := BitsOf(data[..1]), ByteBits(data[1]);
    SplitFive(pending + next, buffer);
    assert |data[..1]| == 1;
    assert Kept(prev, 10) == prev;
    BitsOfSnoc(data, 1);
    TakeTen(done, pending, next, prev + next);
  }

  lemma TakeTen(done: seq<bool>, pending: seq<bool>, next: seq<bool>, bits: seq<bool>)
    requires |done| == 5 && |pending| == 3 && |next| == 8 && bits == (done + pending) + next
    ensures Kept(bits, 10) == done + (pending + next)[..5]
  {
    assert bits[..10] == done + (pending + next)[..5];
  }

  /** The symbol the final flush emits is the group of the buffered bits. */
  lemma FlushSymbol(pending: seq<bool>, buffer: nat)
    requires 0 < |pending| <= 5
    requires |pending| < 5 ==> buffer == Value(pending)
    requires |pending| == 5 ==> buffer % 32 == Value(pending)
    ensures Groups(pending) == [Shl(buffer, 5 - |pending|) % 32]
  {
    if |pending| < 5 {
      PadGroupValue(pending);
      assert Groups(pending) == [PadGroup(pending)];
    } else {
      GroupOfFive(pending);
    }
  }

  /** Encode's final flush emits the symbol of the buffered bits. */
  lemma RenderFlush(done: seq<bool>, pending: seq<bool>, buffer: nat, s: string)
    requires |done| % 5 == 0 && s == Render(Groups(done))
    requires 0 < |pending| <= 5
    requires |pending| < 5 ==> buffer == Value(pending)
    requires |pending| == 5 ==> buffer % 32 == Value(pending)
    ensures Shl(buffer, 5 - |pending|) >= 0
    ensures [Alphabet[Shl(buffer, 5 - |pending|) % 32]] + s == Render(Groups(done + pending))
  {
    ShlBound(buffer, buffer, 5 - |pending|) by {
      PowAbove(buffer);
    }
    FlushSymbol(pending, buffer);
    GroupsAppend(done, pending);
    LetterAt(Shl(buffer, 5 - |pending|) % 32);
    var g := Groups(done);
    assert (g + [Shl(buffer, 5 - |pending|) % 32])[..|g|] == g;
  }

  /** Absorbing byte i keeps all bits read so far, below the bit limit. */
  lemma KeptSnoc(data: seq<byte>, i: nat, bitsAmount: nat, done: seq<bool>, pending: seq<bool>)
    requires i < |data| && 8 * (i + 1) <= bitsAmount
    requires done + pending == Kept(BitsOf(data[..i]), bitsAmount)
    ensures done + (pending + ByteBits(data[i])) == Kept(BitsOf(data[..i + 1]), bitsAmount)
  {
    var bits, next := BitsOf(data[..i]), ByteBits(data[i]);
    assert |data[..i]| == i;
    assert Kept(bits, bitsAmount) == bits;
    BitsOfSnoc(data, i);
    assert Kept(bits + next, bitsAmount) == bits + next;
    ConcatAssoc(done, pending, next);
  }

  /**
   * The inner loop of Encode: while five bits are buffered and the bit limit
   * has not been passed, the low five become the next symbol.
   */
  method EmitGroups(s0: string, buffer0: int, bitsInBuffer0: int, totalBits: int, bitsAmount: int,
                    ghost done0: seq<bool>, ghost pending0: seq<bool>)
    returns (s: string, buffer: int, bitsInBuffer: int, ghost done: seq<bool>, ghost pending: seq<bool>)
    requires |done0| % 5 == 0 && s0 == Render(Groups(done0))
    requires bitsInBuffer0 == |pending0| && 0 <= buffer0 < 4096
    requires totalBits <= bitsAmount ==> buffer0 == Value(pending0)
    ensures done + pending == done0 + pending0
    ensures |done| % 5 == 0 && s == Render(Groups(done))
    ensures bitsInBuffer == |pending| && 0 <= buffer < 4096
    ensures totalBits <= bitsAmount ==> bitsInBuffer < 5 && buffer == Value(pending)
    ensures totalBits > bitsAmount ==> s == s0 && buffer == buffer0 && done == done0 && pending == pending0
  {
    s, buffer, bitsInBuffer, done, pending := s0, buffer0, bitsInBuffer0, done0, pending0;
    while bitsInBuffer >= 5 && totalBits <= bitsAmount
      invariant done + pending == done0 + pending0
      invariant |done| % 5 == 0 && s == Render(Groups(done))
      invariant bitsInBuffer == |pending| && 0 <= buffer < 4096
      invariant totalBits <= bitsAmount ==> buffer == Value(pending)
      invariant totalBits > bitsAmount ==> s == s0 && buffer == buffer0 && done == done0 && pending == pending0
      decreases bitsInBuffer
    {
      ghost var s1, buffer1, done1, pending1 := s, buffer, done, pending;
      var index := buffer % 32;
      s := [Alphabet[index]] + s;
      buffer := buffer / 32;
      bitsInBuffer := bitsInBuffer - 5;
      done, pending := done + pending[..5], pending[5..];
      EmitStep(done1, pending1, buffer1, s1, done, pending, buffer, s);
    }
  }

  /** The bits Encode's buffer holds once byte i is or-ed in and, past the bit limit, cut back. */
  function Absorbed(pending: seq<bool>, b: byte, truncated: bool): seq<bool>
    requires truncated ==> |pending| == 3
  {
    if truncated then (pending + ByteBits(b))[..5] else pending + ByteBits(b)
  }

  /** The statements of Encode's outer loop before its inner loop, applied to byte i. */
  lemma AbsorbByte(data: seq<byte>, bitsAmount: int, i: nat, done: seq<bool>, pending: seq<bool>, buffer: nat)
    requires 8 * |data| <= bitsAmount <= IntMaxValue || (|data| == 2 && bitsAmount == 10)
    requires i < |data|
    requires done + pending == Kept(BitsOf(data[..i]), bitsAmount)
    requires |done| % 5 == 0 && |pending| < 5 && buffer == Value(pending)
    ensures 8 * (i + 1) > bitsAmount ==> i == 1 && |pending| == 3
    ensures Shl(data[i], |pending|) >= 0
    ensures var buffer' := BitOr(buffer, Shl(data[i], |pending|));
            var pending' := Absorbed(pending, data[i], 8 * (i + 1) > bitsAmount);
            && done + pending' == Kept(BitsOf(data[..i + 1]), bitsAmount)
            && 0 <= buffer' < 4096
            && (8 * (i + 1) <= bitsAmount ==> buffer' == Value(pending') && |pending'| == |pending| + 8)
            && (8 * (i + 1) > bitsAmount ==> i + 1 == 2 && buffer' % 32 == Value(pending') && |pending'| == 5)
  {
    AbsorbStep(buffer, pending, data[i]);
    if 8 * (i + 1) > bitsAmount {
      assert i == 1 && |done + pending| == 8;
      FiveAndThree(|done|, |pending|);
      TruncateStep(data, done, pending, BitOr(buffer, Shl(data[i], |pending|)));
    } else {
      KeptSnoc(data, i, bitsAmount, done, pending);
    }
  }

  /** Encode's final flush, with the loop's state once every byte is read. */
  lemma FinishEncode(data: seq<byte>, bitsAmount: int, s: string, done: seq<bool>, pending: seq<bool>,
                     buffer: int, bitsInBuffer: int)
    requires 8 * |data| <= bitsAmount <= IntMaxValue || (|data| == 2 && bitsAmount == 10)
    requires done + pending == Kept(BitsOf(data[..|data|]), bitsAmount)
    requires |done| % 5 == 0 && s == Render(Groups(done))
    requires bitsInBuffer == |pending| && 0 <= buffer < 4096
    requires 8 * |data| <= bitsAmount ==> bitsInBuffer < 5 && buffer == Value(pending)
    requires 8 * |data| > bitsAmount ==> bitsInBuffer == 5 && buffer % 32 == Value(pending)
    ensures bitsInBuffer > 0 ==> Shl(buffer, 5 - bitsInBuffer) >= 0
    ensures bitsInBuffer > 0 ==> [Alphabet[Shl(buffer, 5 - bitsInBuffer) % 32]] + s == Encoded(data, bitsAmount)
    ensures bitsInBuffer <= 0 ==> s == Encoded(data, bitsAmount)
  {
    assert data[..|data|] == data;
    if bitsInBuffer > 0 {
      RenderFlush(done, pending, buffer, s);
    } else {
      assert done + pending == done;
    }
  }

  /** What Encode's loop keeps once it has read the first i bytes. */
  ghost predicate Encoding(data: seq<byte>, bitsAmount: int, i: nat, s: string, buffer: int, bitsInBuffer: int,
                           totalBits: int, done: seq<bool>, pending: seq<bool>)
    requires 8 * |data| <= bitsAmount <= IntMaxValue || (|data| == 2 && bitsAmount == 10)
  {
    && i <= |data| && totalBits == 8 * i
    && done + pending == Kept(BitsOf(data[..i]), bitsAmount)
    && |done| % 5 == 0 && s == Render(Groups(done))
    && bitsInBuffer == |pending| && 0 <= buffer < 4096
    && (totalBits <= bitsAmount ==> bitsInBuffer < 5 && buffer == Value(pending))
    && (totalBits > bitsAmount ==> i == 2 && bitsInBuffer == 5 && buffer % 32 == Value(pending))
  }

  /** The body of Encode's loop: or byte i into the buffer, then emit every full group. */
  method EncodeByte(data: seq<byte>, bitsAmount: int, i: nat, s0: string, buffer0: int, bitsInBuffer0: int,
                    totalBits0: int, ghost done0: seq<bool>, ghost pending0: seq<bool>)
    returns (s: string, buffer: int, bitsInBuffer: int, totalBits: int, ghost done: seq<bool>, ghost pending: seq<bool>)
    requires 8 * |data| <= bitsAmount <= IntMaxValue || (|data| == 2 && bitsAmount == 10)
    requires i < |data|
    requires Encoding(data, bitsAmount, i, s0, buffer0, bitsInBuffer0, totalBits0, done0, pending0)
    ensures Encoding(data, bitsAmount, i + 1, s, buffer, bitsInBuffer, totalBits, done, pending)
  {
    var b := data[i];
    AbsorbByte(data, bitsAmount, i, done0, pending0, buffer0);
    buffer := BitOr(buffer0, Shl(b, bitsInBuffer0));
    totalBits := totalBits0 + 8;
    bitsInBuffer := bitsInBuffer0 + 8;
    if totalBits > bitsAmount {
      // only the second of two bytes under the 10-bit limit gets here
      bitsInBuffer := bitsInBuffer - (totalBits - bitsAmount);
    }
    pending := Absorbed(pending0, b, totalBits > bitsAmount);
    s, buffer, bitsInBuffer, done, pending := EmitGroups(s0, buffer, bitsInBuffer, totalBits, bitsAmount, done0, pending);
  }

  method Encode(data: seq<byte>, bitsAmount: int) returns (s: string)
    requires 8 * |data| <= bitsAmount <= IntMaxValue || (|data| == 2 && bitsAmount == 10)
    ensures s == Encoded(data, bitsAmount)
  {
    s := "";
    var buffer, bitsInBuffer, totalBits := 0, 0, 0;
    // the bits already emitted as symbols, and the bits the buffer holds
    ghost var done: seq<bool> := [];
    ghost var pending: seq<bool> := [];
    for i := 0 to |data|
      invariant Encoding(data, bitsAmount, i, s, buffer, bitsInBuffer, totalBits, done, pending)
    {
      s, buffer, bitsInBuffer, totalBits, done, pending :=
        EncodeByte(data, bitsAmount, i, s, buffer, bitsInBuffer, totalBits, done, pending);
    }
    FinishEncode(data, bitsAmount, s, done, pending, buffer, bitsInBuffer);
    if bitsInBuffer > 0 {
      buffer := Shl(buffer, 5 - bitsInBuffer);
      s := [Alphabet[buffer % 32]] + s;
    }
  }

  // ---------------------------------------------------------------------------
  // Decode

  /** `s.IndexOf(c)`: the first position of `c` in `s`. */
  function FirstIndex(s: string, c: char): (k: nat)
    requires c in s
    ensures k < |s| && s[k] == c && c !in s[..k]
  {
    if s[0] == c then 0 else FirstIndex(s[1..], c) + 1
  }

  function IndexOf(c: char): Sym
    requires c in Alphabet
  {
    FirstIndex(Alphabet, c)
  }

  /** The alphabet by character ranges: 'A' to 'Z', then '2' to '7'. */
  predicate IsSymbol(c: char) {
    'A' <= c <= 'Z' || '2' <= c <= '7'
  }

  /** The symbol value of an alphabet character, from its character code. */
  function Position(c: char): Sym
    requires IsSymbol(c)
  {
    if 'A' <= c <= 'Z' then c as int - 'A' as int else c as int - '2' as int + 26
  }

  /** The alphabet character of a symbol value, from its character code. */
  function Letter(k: Sym): (c: char)
    ensures IsSymbol(c) && Position(c) == k
  {
    if k < 26 then ('A' as int + k) as char else ('2' as int + k - 26) as char
  }

  /** Letter is Alphabet indexed by k. */
  lemma LetterAt(k: Sym)
    ensures Alphabet[k] == Letter(k)
  {
    AlphabetPositions();
    var c := Alphabet[k];
    assert IsSymbol(c) && Position(c) == k;
  }

  lemma LetterPosition(c: char)
    requires IsSymbol(c)
    ensures Letter(Position(c)) == c
  {
  }

  lemma AlphabetPositions()
    ensures forall k :: 0 <= k < |Alphabet| ==> IsSymbol(Alphabet[k]) && Position(Alphabet[k]) == k
  {
  }

  /** Membership in Alphabet and IndexOf, by character ranges. */
  lemma SymbolChar(c: char)
    ensures c in Alphabet <==> IsSymbol(c)
    ensures c in Alphabet ==> IndexOf(c) == Position(c)
    ensures IsSymbol(c) ==> Alphabet[Position(c)] == c
  {
    AlphabetPositions();
    if c in Alphabet {
      var k := IndexOf(c);
      assert Alphabet[k] == c;
    }
    if IsSymbol(c) {
      var d := Alphabet[Position(c)];
      assert IsSymbol(d) && Position(d) == Position(c);
    }
  }

  /**
   * The symbols Decode takes in, in the order it takes them: from the last
   * character to the first, skipping every character outside the alphabet.
   */
  function SymbolsFromEnd(s: string): (r: seq<Sym>)
    ensures |r| <= |s|
  {
    if s == [] then []
    else SymbolsFromEnd(s[1..]) + (if IsSymbol(s[0]) then [Position(s[0])] else [])
  }

  /** The bits of a symbol sequence, five per symbol, least significant first. */
  function SymBits(syms: seq<Sym>): (r: seq<bool>)
    ensures |r| == 5 * |syms|
  {
    if syms == [] then [] else SymBits(syms[..|syms| - 1]) + ToBits(syms[|syms| - 1], 5)
  }

  /** Bytes of 8 consecutive bits each, and one final byte for a shorter rest. */
  function BytesOf(bits: seq<bool>): (r: seq<byte>)
    ensures |r| == (|bits| + 7) / 8
  {
    if |bits| == 0 then []
    else if |bits| < 8 then Pow2Monotone(|bits|, 8); [Value(bits)]
    else Pow2Constants(); [Value(bits[..8])] + BytesOf(bits[8..])
  }

  /** `(int)Math.Ceiling(n * 5.0 / 8)`, the size of the array Decode allocates. */
  function Capacity(n: nat): nat {
    (5 * n + 7) / 8
  }

  function Zeros(n: nat): (r: seq<byte>)
    ensures |r| == n
  {
    if n == 0 then [] else [0] + Zeros(n - 1)
  }

  /** What Decode(s) returns: the decoded bytes, then zeros up to the capacity. */
  function Decoded(s: string): seq<byte> {
    var bytes := BytesOf(SymBits(SymbolsFromEnd(s)));
    bytes + Zeros(Capacity(|s|) - |bytes|)
  }

  lemma CapacityMonotone(m: nat, n: nat)
    requires m <= n
    ensures Capacity(m) <= Capacity(n)
  {
  }

  /** The decoded bytes fit the array: at most one byte per eight bits of the symbols read. */
  lemma BytesFit(s: string)
    ensures |BytesOf(SymBits(SymbolsFromEnd(s)))| <= Capacity(|s|)
  {
    CapacityMonotone(|SymbolsFromEnd(s)|, |s|);
  }

  lemma DecodedAs(s: string, bytes: seq<byte>, cap: nat)
    requires bytes == BytesOf(SymBits(SymbolsFromEnd(s))) && cap == Capacity(|s|)
    ensures |bytes| <= cap && Decoded(s) == bytes + Zeros(cap - |bytes|)
  {
    DecodedParts(s);
  }

  /** Decoded, taken apart. */
  lemma DecodedParts(s: string)
    ensures |BytesOf(SymBits(SymbolsFromEnd(s)))| <= Capacity(|s|)
    ensures Decoded(s) == BytesOf(SymBits(SymbolsFromEnd(s))) + Zeros(Capacity(|s|) - |BytesOf(SymBits(SymbolsFromEnd(s)))|)
  {
    BytesFit(s);
  }

  lemma {:induction false} BytesAppend(a: seq<bool>, b: seq<bool>)
    requires |a| % 8 == 0
    ensures BytesOf(a + b) == BytesOf(a) + BytesOf(b)
  {
    if a == [] {
      assert a + b == b;
    } else {
      assert (a + b)[..8] == a[..8];
      assert (a + b)[8..] == a[8..] + b;
      BytesAppend(a[8..], b);
    }
  }

  lemma ByteOfEight(g: seq<bool>)
    requires |g| == 8
    ensures BytesOf(g) == [Value(g)]
  {
    assert g[..8] == g;
    assert g[8..] == [];
  }

  /** Or-ing a symbol in above the buffered bits appends its five bits to them. */
  lemma TakeSymbol(buffer: nat, pending: seq<bool>, k: Sym)
    requires buffer == Value(pending) && |pending| < 8
    ensures Shl(k, |pending|) >= 0
    ensures BitOr(buffer, Shl(k, |pending|)) == Value(pending + ToBits(k, 5)) < 8192
  {
    BitOrDisjoint(buffer, k, |pending|);
    ValueAppend(pending, ToBits(k, 5));
    ValueToBits(k, 5);
    Pow2Constants();
    LowOfSmall(k, 5);
    Pow2Monotone(|pending| + 5, 13);
    assert Pow2(13) == 8192;
  }

  /** Writing the low eight buffered bits out as the next byte. */
  lemma ByteStep(done: seq<bool>, pending: seq<bool>, buffer: nat)
    requires |done| % 8 == 0 && buffer == Value(pending) && |pending| >= 8
    ensures buffer / 256 == Value(pending[8..])
    ensures BytesOf(done + pending[..8]) == BytesOf(done) + [buffer % 256]
    ensures (done + pending[..8]) + pending[8..] == done + pending
  {
    SplitLow(pending, 8);
    Pow2Constants();
    BytesAppend(done, pending[..8]);
    ByteOfEight(pending[..8]);
    ConcatSplit(done, pending, 8);
  }

  /** Storing a byte over the first of the zeros that follow the bytes written so far. */
  lemma StoreByte(written: seq<byte>, zeros: nat, v: byte)
    requires zeros > 0
    ensures (written + Zeros(zeros))[|written| := v] == (written + [v]) + Zeros(zeros - 1)
  {
    assert Zeros(zeros) == [0] + Zeros(zeros - 1);
  }

  lemma {:induction false} ZerosAreZero(n: nat)
    ensures forall k :: 0 <= k < n ==> Zeros(n)[k] == 0
  {
    if n > 0 {
      ZerosAreZero(n - 1);
    }
  }

  /** One symbol read from the end of the string. */
  lemma SymbolStep(s: string, i: nat)
    requires i < |s|
    ensures SymbolsFromEnd(s[i..]) == SymbolsFromEnd(s[i + 1..]) + (if IsSymbol(s[i]) then [Position(s[i])] else [])
  {
    assert s[i..][1..] == s[i + 1..];
  }

  lemma SymBitsSnoc(syms: seq<Sym>, k: Sym)
    ensures SymBits(syms + [k]) == SymBits(syms) + ToBits(k, 5)
  {
    assert (syms + [k])[..|syms|] == syms;
  }

  /** There is room for one more byte while at least eight bits came from the string. */
  lemma ByteRoom(n: nat, index: nat, bits: nat)
    requires bits <= 5 * n && 8 * index < bits
    ensures index < Capacity(n)
  {
  }

  lemma BytesCount(n: nat)
    ensures (8 * n + 7) / 8 == n
  {
  }

  /**
   * The state of Decode's loop once the characters from position i on have been
   * read: the bits of their symbols are the bytes written out followed by the
   * bits still buffered (`absorbing` allows a buffer of up to 12 bits, between
   * or-ing a symbol in and writing a byte out), and the array holds the bytes
   * written and zeros after them.
   */
  ghost predicate Decoding(base32: string, i: nat, done: seq<bool>, pending: seq<bool>, buffer: int,
                           bitsInBuffer: int, index: int, r: seq<byte>, absorbing: bool)
  {
    && i <= |base32|
    && Buffered(SymBits(SymbolsFromEnd(base32[i..])), Capacity(|base32|), done, pending, buffer, bitsInBuffer, index, r, absorbing)
  }

  /** The bits `all` read so far, split into the bytes written to r and the bits still buffered. */
  ghost predicate Buffered(all: seq<bool>, cap: nat, done: seq<bool>, pending: seq<bool>, buffer: int,
                           bitsInBuffer: int, index: int, r: seq<byte>, absorbing: bool)
  {
    && done + pending == all
    && |done| == 8 * index && bitsInBuffer == |pending| && (if absorbing then |pending| < 13 else |pending| < 8)
    && buffer == Value(pending)
    && 0 <= index <= cap
    && r == BytesOf(done) + Zeros(cap - index)
  }

  /** Padding, and any other character outside the alphabet, is skipped. */
  lemma SkipChar(base32: string, i: nat, done: seq<bool>, pending: seq<bool>, buffer: int,
                 bitsInBuffer: int, index: int, r: seq<byte>)
    requires i < |base32| && (base32[i] == '=' || base32[i] !in Alphabet)
    requires Decoding(base32, i + 1, done, pending, buffer, bitsInBuffer, index, r, false)
    ensures Decoding(base32, i, done, pending, buffer, bitsInBuffer, index, r, false)
  {
    SymbolChar(base32[i]);
    SymbolStep(base32, i);
    var rest := SymbolsFromEnd(base32[i + 1..]);
    assert rest + [] == rest;
  }

  /** Or-ing in the symbol of character i appends its five bits to the buffered bits. */
  lemma TakeChar(base32: string, i: nat, done: seq<bool>, pending: seq<bool>, buffer: int,
                 bitsInBuffer: int, index: int, r: seq<byte>)
    requires i < |base32| && base32[i] in Alphabet
    requires Decoding(base32, i + 1, done, pending, buffer, bitsInBuffer, index, r, false)
    ensures buffer >= 0 && bitsInBuffer >= 0 && Shl(IndexOf(base32[i]), bitsInBuffer) >= 0
    ensures Decoding(base32, i, done, pending + ToBits(IndexOf(base32[i]), 5),
                     BitOr(buffer, Shl(IndexOf(base32[i]), bitsInBuffer)), bitsInBuffer + 5, index, r, true)
  {
    ReadSymbol(base32, i, done, pending);
    TakeSymbol(buffer, pending, IndexOf(base32[i]));
  }

  lemma ReadSymbol(base32: string, i: nat, done: seq<bool>, pending: seq<bool>)
    requires i < |base32| && base32[i] in Alphabet
    requires done + pending == SymBits(SymbolsFromEnd(base32[i + 1..]))
    ensures done + (pending + ToBits(IndexOf(base32[i]), 5)) == SymBits(SymbolsFromEnd(base32[i..]))
  {
    var k := IndexOf(base32[i]);
    var before := SymbolsFromEnd(base32[i + 1..]);
    SymbolChar(base32[i]);
    SymbolStep(base32, i);
    assert SymbolsFromEnd(base32[i..]) == before + [k];
    SymBitsSnoc(before, k);
    ConcatAssoc(done, pending, ToBits(k, 5));
  }

  /** Fewer than eight buffered bits: nothing is written. */
  lemma KeepBits(base32: string, i: nat, done: seq<bool>, pending: seq<bool>, buffer: int,
                 bitsInBuffer: int, index: int, r: seq<byte>)
    requires bitsInBuffer < 8
    requires Decoding(base32, i, done, pending, buffer, bitsInBuffer, index, r, true)
    ensures Decoding(base32, i, done, pending, buffer, bitsInBuffer, index, r, false)
  {
  }

  /** Eight buffered bits or more: there is room for the byte they make. */
  lemma RoomForByte(base32: string, i: nat, done: seq<bool>, pending: seq<bool>, buffer: int,
                    bitsInBuffer: int, index: int, r: seq<byte>)
    requires bitsInBuffer >= 8
    requires Decoding(base32, i, done, pending, buffer, bitsInBuffer, index, r, true)
    ensures 0 <= index < Capacity(|base32|) && buffer >= 0
  {
    assert |SymbolsFromEnd(base32[i..])| <= |base32[i..]|;
    ByteRoom(|base32|, index, |done + pending|);
  }

  /** Writing the low eight buffered bits out as the next byte. */
  lemma WriteByte(all: seq<bool>, cap: nat, done: seq<bool>, pending: seq<bool>, buffer: int,
                  bitsInBuffer: int, index: int, r: seq<byte>,
                  done': seq<bool>, pending': seq<bool>, buffer': int, bitsInBuffer': int, index': int, r': seq<byte>)
    requires bitsInBuffer >= 8
    requires Buffered(all, cap, done, pending, buffer, bitsInBuffer, index, r, true)
    requires 0 <= index < |r| && r' == r[index := buffer % 256]
    requires done' == done + pending[..8] && pending' == pending[8..]
    requires buffer' == buffer / 256 && bitsInBuffer' == bitsInBuffer - 8 && index' == index + 1
    ensures Buffered(all, cap, done', pending', buffer', bitsInBuffer', index', r', false)
  {
    MultipleOfEight(|done|, index);
    ByteStep(done, pending, buffer);
    BytesCount(index);
    StoreAt(BytesOf(done), BytesOf(done'), buffer % 256, cap, index, r, r');
    assert |done'| == 8 * index' && |pending'| == |pending| - 8;
  }

  /** The array after storing byte v at index, the first of its zeros. */
  lemma StoreAt(written: seq<byte>, next: seq<byte>, v: byte, cap: nat, index: nat, r: seq<byte>, r': seq<byte>)
    requires |written| == index < cap && r == written + Zeros(cap - index)
    requires r' == r[index := v] && next == written + [v]
    ensures r' == next + Zeros(cap - (index + 1))
  {
    StoreByte(written, cap - index, v);
  }

  /** The bytes of the bits read: whole bytes, then the partial byte if there is one. */
  lemma LastBytes(done: seq<bool>, pending: seq<bool>, index: nat)
    requires |done| == 8 * index && |pending| < 8
    ensures |BytesOf(done)| == index
    ensures |pending| > 0 ==> Value(pending) < 256 && BytesOf(done + pending) == BytesOf(done) + [Value(pending)]
    ensures |pending| == 0 ==> BytesOf(done + pending) == BytesOf(done)
  {
    MultipleOfEight(|done|, index);
    BytesAppend(done, pending);
    BytesCount(index);
    if |pending| > 0 {
      Pow2Monotone(|pending|, 8);
      Pow2Constants();
      assert BytesOf(pending) == [Value(pending)];
    } else {
      assert done + pending == done;
    }
  }

  /** After the last character: the partial byte, if any, and the zeros not written. */
  lemma FinishDecode(base32: string, done: seq<bool>, pending: seq<bool>, buffer: int,
                     bitsInBuffer: int, index: int, r: seq<byte>)
    requires Decoding(base32, 0, done, pending, buffer, bitsInBuffer, index, r, false)
    ensures bitsInBuffer > 0 ==> 0 <= index < |r| && buffer >= 0 && r[index := buffer % 256] == Decoded(base32)
    ensures bitsInBuffer <= 0 ==> r == Decoded(base32)
  {
    var cap, bits := Capacity(|base32|), SymBits(SymbolsFromEnd(base32));
    assert base32[0..] == base32;
    assert |bits| <= 5 * |base32|;
    LastBytes(done, pending, index);
    var bytes := BytesOf(done + pending);
    DecodedAs(base32, bytes, cap);
    if bitsInBuffer > 0 {
      ByteRoom(|base32|, index, |bits|);
      var v: byte := Value(pending);
      SmallMod(buffer, 256);
      assert bytes == BytesOf(done) + [v] && |bytes| == index + 1;
      StoreAt(BytesOf(done), bytes, v, cap, index, r, r[index := buffer % 256]);
    } else {
      assert bytes == BytesOf(done) && |bytes| == index;
    }
  }

  /** The `if (bitsInBuffer >= 8)` block of Decode: once eight bits are buffered, the low eight are written out as the next byte. */
  method WriteFullByte(base32: string, i: nat, result: array<byte>, index0: int, buffer0: int, bitsInBuffer0: int,
                   ghost done0: seq<bool>, ghost pending0: seq<bool>)
    returns (index: int, buffer: int, bitsInBuffer: int, ghost done: seq<bool>, ghost pending: seq<bool>)
    modifies result
    requires Decoding(base32, i, done0, pending0, buffer0, bitsInBuffer0, index0, result[..], true)
    ensures Decoding(base32, i, done, pending, buffer, bitsInBuffer, index, result[..], false)
  {
    index, buffer, bitsInBuffer, done, pending := index0, buffer0, bitsInBuffer0, done0, pending0;
    if bitsInBuffer >= 8 {
      RoomForByte(base32, i, done, pending, buffer, bitsInBuffer, index, result[..]);
      ghost var before := result[..];
      result[index] := buffer % 256;
      index := index + 1;
      buffer := buffer / 256;
      bitsInBuffer := bitsInBuffer - 8;
      done, pending := done + pending[..8], pending[8..];
      WriteByte(SymBits(SymbolsFromEnd(base32[i..])), Capacity(|base32|), done0, pending0, buffer0, bitsInBuffer0, index0, before,
                done, pending, buffer, bitsInBuffer, index, result[..]);
    } else {
      KeepBits(base32, i, done, pending, buffer, bitsInBuffer, index, result[..]);
    }
  }

  method Decode(base32: string) returns (result: array<byte>)
    ensures fresh(result)
    ensures result[..] == Decoded(base32)
  {
    var bitsInBuffer, buffer := 0, 0;
    var byteCnt := Capacity(|base32|);
    result := new byte[byteCnt](_ => 0);
    ZerosAreZero(byteCnt);
    assert result[..] == Zeros(byteCnt);
    var index := 0;
    // the bits already written out as bytes, and the bits the buffer holds
    ghost var done: seq<bool> := [];
    ghost var pending: seq<bool> := [];
    for i := |base32| downto 0
      invariant Decoding(base32, i, done, pending, buffer, bitsInBuffer, index, result[..], false)
    {
      var c := base32[i];
      if c == '=' || c !in Alphabet {
        SkipChar(base32, i, done, pending, buffer, bitsInBuffer, index, result[..]);
        continue;
      }
      TakeChar(base32, i, done, pending, buffer, bitsInBuffer, index, result[..]);
      buffer := BitOr(buffer, Shl(IndexOf(c), bitsInBuffer));
      pending := pending + ToBits(IndexOf(c), 5);
      bitsInBuffer := bitsInBuffer + 5;
      index, buffer, bitsInBuffer, done, pending := WriteFullByte(base32, i, result, index, buffer, bitsInBuffer, done, pending);
    }
    FinishDecode(base32, done, pending, buffer, bitsInBuffer, index, result[..]);
    if bitsInBuffer > 0 {
      result[index] := buffer % 256;
      index := index + 1;
    }
  }
}
