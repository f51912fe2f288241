/**
 * The Sender Rewriting Scheme address of the SRS class: a 3-character hash
 * tag, a 2-character timestamp tag, and the template they are put into with
 * the original sender's and the forwarding mailbox's parts.
 *
 * HMAC-SHA1 is a parameter (the key and message arrive as strings; their
 * UTF-16 encoding is inside it), and the clock is the day counter `now` that
 * makeTimestamp computes from it.
 */
module Srs {
  import opened Bits
  import opened Codec
  import opened CodecLaws
  import opened Strings
  import opened Configuration
  import opened Seqs

  /** An HMAC-SHA1 digest. */
  type Digest = d: seq<byte> | |d| == 20 witness seq(20, _ => 0)

  /** HMAC-SHA1 of a key and a message. */
  type Hmac = (string, string) -> Digest

  // ---------------------------------------------------------------------------
  // Tags

  /**
   * makeTimestamp once the clock is read: `now` is the rounded day number
   * modulo 1024, which the rounding can carry up to 1024 itself.
   */
  function Timestamp(now: int): string
    requires 0 <= now <= 1024
  {
    Encoded(LittleEndian(now, 2), 10)
  }

  /** makeHash: the first three characters of the encoded HMAC-SHA1 of clearText. */
  function HashTag(config: Config, hmac: Hmac, clearText: string): string {
    var encoded := Encoded(hmac(config.srsHashKey.GetOr(DefaultHashKey), clearText), IntMaxValue);
    EncodedLength(hmac(config.srsHashKey.GetOr(DefaultHashKey), clearText), IntMaxValue);
    encoded[..3]
  }

  /** The timestamp tag is two symbols: bits 5..9 of the counter, then bits 0..4. */
  lemma TimestampShape(now: int)
    requires 0 <= now <= 1024
    ensures Timestamp(now) == [Letter((now / 32) % 32), Letter(now % 32)]
  {
    var data := LittleEndian(now, 2);
    Pow2Constants();
    assert Pow2(16) == 65536 by {
      Pow2Eight(8);
      Pow2Eight(0);
    }
    LittleEndianValue(now, 2);
    TwoBytesTenBits(data);
    LetterAt((now / 32) % 32);
    LetterAt(now % 32);
  }

  /** Both characters of the timestamp tag are in the alphabet. */
  lemma TimestampAlphabet(now: int)
    requires 0 <= now <= 1024
    ensures |Timestamp(now)| == 2 && Timestamp(now)[0] in Alphabet && Timestamp(now)[1] in Alphabet
  {
    TimestampShape(now);
    SymbolChar(Timestamp(now)[0]);
    SymbolChar(Timestamp(now)[1]);
  }

  /** Only the counter modulo 1024 counts: a rounding up to 1024 gives the tag of day 0. */
  lemma TimestampModulo(now: int)
    requires 0 <= now <= 1024
    ensures Timestamp(now) == Timestamp(now % 1024)
  {
    var m := now % 1024;
    ModuloDigits(now);
    TimestampShape(now);
    TimestampShape(m);
  }

  lemma ModuloDigits(now: int)
    requires 0 <= now <= 1024
    ensures (now / 32) % 32 == ((now % 1024) / 32) % 32 && now % 32 == (now % 1024) % 32
  {
    if now == 1024 {
      DivModUnique(now, 1024, 1, 0);
      DivModUnique(now, 32, 32, 0);
      DivModUnique(32, 32, 1, 0);
    } else {
      SmallMod(now, 1024);
    }
  }

  lemma Digits(hi: int, lo: int)
    requires 0 <= hi < 32 && 0 <= lo < 32
    ensures ((32 * hi + lo) / 32) % 32 == hi && (32 * hi + lo) % 32 == lo
  {
    DivModUnique(32 * hi + lo, 32, hi, lo);
    SmallMod(hi, 32);
  }

  /** Decode gives the two bytes of the counter back. */
  lemma TimestampRoundTrip(now: int)
    requires 0 <= now < 1024
    ensures Decoded(Timestamp(now)) == LittleEndian(now, 2)
  {
    var data := LittleEndian(now, 2);
    ByteAtNext(now, 0);
    ByteAtZero(now / 256);
    assert data[1] == ByteAt(now, 1);
    TenBitRoundTrip(data);
  }

  /** Distinct counters have distinct tags. */
  lemma TimestampInjective(a: int, b: int)
    requires 0 <= a < 1024 && 0 <= b < 1024
    requires Timestamp(a) == Timestamp(b)
    ensures a == b
  {
    TimestampRoundTrip(a);
    TimestampRoundTrip(b);
    Pow2Constants();
    assert Pow2(16) == 65536 by {
      Pow2Eight(8);
      Pow2Eight(0);
    }
    LittleEndianValue(a, 2);
    LittleEndianValue(b, 2);
  }

  /** Every pair of alphabet characters is the tag of some counter below 1024. */
  lemma TimestampOnto(t: string)
    requires |t| == 2 && t[0] in Alphabet && t[1] in Alphabet
    ensures exists now :: 0 <= now < 1024 && Timestamp(now) == t
  {
    SymbolChar(t[0]);
    SymbolChar(t[1]);
    var now := TimestampOfSymbols(t);
  }

  /** The counter whose tag is a given pair of symbol characters. */
  lemma TimestampOfSymbols(t: string) returns (now: int)
    requires |t| == 2 && IsSymbol(t[0]) && IsSymbol(t[1])
    ensures 0 <= now < 1024 && Timestamp(now) == t
  {
    var hi: int, lo: int := Position(t[0]), Position(t[1]);
    LetterPosition(t[0]);
    LetterPosition(t[1]);
    TimestampOf(hi, lo);
    assert [Letter(hi), Letter(lo)] == t;
    now := 32 * hi + lo;
  }

  /** The counter 32 * hi + lo has the tag of its two base-32 digits. */
  lemma TimestampOf(hi: Sym, lo: Sym)
    ensures 0 <= 32 * hi + lo < 1024 && Timestamp(32 * hi + lo) == [Letter(hi), Letter(lo)]
  {
    Digits(hi, lo);
    TimestampShape(32 * hi + lo);
  }

  /**
   * The hash tag is three alphabet characters: the start of the 32-character
   * encoding of the 20-byte digest of key and clear text.
   */
  lemma HashTagShape(config: Config, hmac: Hmac, clearText: string)
    ensures var digest := hmac(config.srsHashKey.GetOr(DefaultHashKey), clearText);
            && |Encoded(digest, IntMaxValue)| == 32
            && HashTag(config, hmac, clearText) == Encoded(digest, IntMaxValue)[..3]
    ensures |HashTag(config, hmac, clearText)| == 3
    ensures forall k :: 0 <= k < 3 ==> HashTag(config, hmac, clearText)[k] in Alphabet
  {
    var digest := hmac(config.srsHashKey.GetOr(DefaultHashKey), clearText);
    EncodedLength(digest, IntMaxValue);
    EncodedAlphabet(digest, IntMaxValue);
  }

  // ---------------------------------------------------------------------------
  // Placeholders

  /** A name of letters in braces. */
  predicate IsPlaceholder(p: string) {
    |p| >= 2 && p[0] == '{' && p[|p| - 1] == '}'
    && forall k :: 0 < k < |p| - 1 ==> IsLetter(p[k])
  }

  predicate IsLetter(c: char) {
    'a' <= c <= 'z' || 'A' <= c <= 'Z'
  }

  /** The six placeholders of BuildSRSAddress are placeholders in this sense. */
  lemma Placeholders()
    ensures IsPlaceholder(HashSlot) && IsPlaceholder(TimestampSlot)
    ensures IsPlaceholder(OrigDomainSlot) && IsPlaceholder(OrigLocalPartSlot)
    ensures IsPlaceholder(NewDomainSlot) && IsPlaceholder(NewLocalPartSlot)
  {
  }

  /** A string that lacks the first character of p does not contain p. */
  lemma FirstAbsent(s: string, p: string)
    requires p != [] && p[0] !in s
    ensures !Contains(s, p)
  {
    forall i | 0 <= i <= |s| - |p|
      ensures !OccursAt(s, p, i)
    {
      assert i + |p| <= |s| ==> s[i..i + |p|][0] == s[i];
    }
  }

  /** A placeholder occurs inside another one only as the whole of it. */
  lemma DistinctPlaceholders(p: string, q: string)
    requires IsPlaceholder(p) && IsPlaceholder(q)
    ensures Contains(q, p) ==> p == q
  {
    forall i | 0 <= i <= |q| - |p| && OccursAt(q, p, i)
      ensures p == q
    {
      WholeOccurrence(p, q, i);
    }
  }

  lemma WholeOccurrence(p: string, q: string, i: int)
    requires IsPlaceholder(p) && IsPlaceholder(q) && OccursAt(q, p, i)
    ensures p == q
  {
    var n := |p|;
    assert q[i..i + n][0] == q[i] == '{';
    assert i == 0;
    assert q[i..i + n][n - 1] == q[n - 1] == '}';
    assert n == |q|;
    assert q[..|q|] == q;
  }

  /** A brace-free string is left alone by every placeholder replacement. */
  lemma NoBrace(s: string, p: string, v: string)
    requires IsPlaceholder(p) && '{' !in s
    ensures Replace(s, p, v) == s
  {
    FirstAbsent(s, p);
    ReplaceAbsent(s, p, v);
  }

  // ---------------------------------------------------------------------------
  // The address

  /** SRSTemplate, or the default `SRS0={hash}={timestamp}={origSenderDomain}={origSenderLocalPart}@{newSenderDomain}`. */
  function Template(config: Config): string {
    config.srsTemplate.GetOr(DefaultTemplate)
  }

  /**
   * BuildSRSAddress: the template with the six placeholders replaced one
   * after the other, each replacement scanning the result of the one before.
   */
  function Address(config: Config, hmac: Hmac, now: int, origSenderDomain: string, origSenderLocalPart: string,
                   newSenderDomain: string, newSenderLocalPart: string): string
    requires 0 <= now <= 1024
  {
    var timestamp := Timestamp(now);
    var hash := HashTag(config, hmac, origSenderDomain + ";" + origSenderLocalPart);
    var s1 := Replace(Template(config), HashSlot, hash);
    var s2 := Replace(s1, TimestampSlot, timestamp);
    var s3 := Replace(s2, OrigDomainSlot, origSenderDomain);
    var s4 := Replace(s3, OrigLocalPartSlot, origSenderLocalPart);
    var s5 := Replace(s4, NewDomainSlot, newSenderDomain);
    Replace(s5, NewLocalPartSlot, newSenderLocalPart)
  }

  /** The shape of the default template, with its five fields filled in. */
  function Fields(hash: string, timestamp: string, domain: string, localPart: string, newDomain: string): string {
    "SRS0=" + (hash + ("=" + (timestamp + ("=" + (domain + ("=" + (localPart + ("@" + newDomain))))))))
  }

  /** Fields is the plain concatenation of its parts. */
  lemma FieldsFlat(h: string, t: string, d: string, l: string, n: string)
    ensures Fields(h, t, d, l, n) == "SRS0=" + h + "=" + t + "=" + d + "=" + l + "@" + n
  {
    ConcatAssoc(l, "@", n);
    ConcatAssoc("=", l + "@", n);
    ConcatAssoc(d, "=" + l + "@", n);
    ConcatAssoc("=", d + "=" + l + "@", n);
    ConcatAssoc(t, "=" + d + "=" + l + "@", n);
    ConcatAssoc("=", t + "=" + d + "=" + l + "@", n);
    ConcatAssoc(h, "=" + t + "=" + d + "=" + l + "@", n);
    ConcatAssoc("SRS0=", h + "=" + t + "=" + d + "=" + l + "@", n);
  }

  lemma DefaultFields()
    ensures DefaultTemplate == Fields(HashSlot, TimestampSlot, OrigDomainSlot, OrigLocalPartSlot, NewDomainSlot)
  {
    FieldsFlat(HashSlot, TimestampSlot, OrigDomainSlot, OrigLocalPartSlot, NewDomainSlot);
  }

  /** A separator without the placeholder's brace passes through unchanged. */
  lemma SeparatorConcat(sep: string, x: string, p: string, v: string)
    requires IsPlaceholder(p) && '{' !in sep
    ensures Replace(sep + x, p, v) == sep + Replace(x, p, v)
  {
    ReplaceConcat(sep, x, p, v);
    NoBrace(sep, p, v);
  }

  /** A field ends where a separator character the placeholder cannot hold begins. */
  lemma FieldConcat(x: string, sep: string, rest: string, p: string, v: string)
    requires IsPlaceholder(p) && (sep == "=" || sep == "@")
    ensures Replace(x + (sep + rest), p, v) == Replace(x, p, v) + (sep + Replace(rest, p, v))
  {
    assert (sep + rest)[0] !in p;
    ReplaceConcat(x, sep + rest, p, v);
    SeparatorConcat(sep, rest, p, v);
  }

  /** Replacing a placeholder in the filled-in default shape replaces it field by field. */
  lemma ReplaceFields(h: string, t: string, d: string, l: string, n: string, p: string, v: string,
                      h': string, t': string, d': string, l': string, n': string)
    requires IsPlaceholder(p)
    requires h' == Replace(h, p, v) && t' == Replace(t, p, v) && d' == Replace(d, p, v)
    requires l' == Replace(l, p, v) && n' == Replace(n, p, v)
    ensures Replace(Fields(h, t, d, l, n), p, v) == Fields(h', t', d', l', n')
  {
    FieldConcat(l, "@", n, p, v);
    var r1 := l + ("@" + n);
    FieldConcat(d, "=", r1, p, v);
    var r2 := d + ("=" + r1);
    FieldConcat(t, "=", r2, p, v);
    var r3 := t + ("=" + r2);
    FieldConcat(h, "=", r3, p, v);
    SeparatorConcat("SRS0=", h + ("=" + r3), p, v);
  }

  /** A placeholder is left alone by the replacement of another one. */
  lemma Keep(q: string, p: string, v: string)
    requires IsPlaceholder(p) && IsPlaceholder(q) && p != q
    ensures Replace(q, p, v) == q
  {
    DistinctPlaceholders(p, q);
    ReplaceAbsent(q, p, v);
  }

  /** Neither tag holds a brace, so no placeholder replacement touches them. */
  lemma TagsNoBrace(config: Config, hmac: Hmac, clearText: string, now: int)
    requires 0 <= now <= 1024
    ensures '{' !in HashTag(config, hmac, clearText)
    ensures '{' !in Timestamp(now)
  {
    HashTagShape(config, hmac, clearText);
    SymbolChar('{');
    TimestampShape(now);
  }

  /** The default template after the two tags are put in; returns that string. */
  lemma TagSteps(config: Config, hmac: Hmac, now: int, clearText: string) returns (s2: string)
    requires 0 <= now <= 1024 && config.srsTemplate.None?
    ensures var hash, ts := HashTag(config, hmac, clearText), Timestamp(now);
            && s2 == Replace(Replace(Template(config), HashSlot, hash), TimestampSlot, ts)
            && s2 == Fields(hash, ts, OrigDomainSlot, OrigLocalPartSlot, NewDomainSlot)
            && '{' !in hash && '{' !in ts
  {
    var hash, ts := HashTag(config, hmac, clearText), Timestamp(now);
    TagsNoBrace(config, hmac, clearText, now);
    Placeholders();
    DefaultFields();
    var s1 := Replace(Template(config), HashSlot, hash);
    ReplaceWhole(HashSlot, hash);
    Keep(TimestampSlot, HashSlot, hash);
    Keep(OrigDomainSlot, HashSlot, hash);
    Keep(OrigLocalPartSlot, HashSlot, hash);
    Keep(NewDomainSlot, HashSlot, hash);
    ReplaceFields(HashSlot, TimestampSlot, OrigDomainSlot, OrigLocalPartSlot, NewDomainSlot, HashSlot, hash,
                  hash, TimestampSlot, OrigDomainSlot, OrigLocalPartSlot, NewDomainSlot);
    s2 := Replace(s1, TimestampSlot, ts);
    NoBrace(hash, TimestampSlot, ts);
    ReplaceWhole(TimestampSlot, ts);
    Keep(OrigDomainSlot, TimestampSlot, ts);
    Keep(OrigLocalPartSlot, TimestampSlot, ts);
    Keep(NewDomainSlot, TimestampSlot, ts);
    ReplaceFields(hash, TimestampSlot, OrigDomainSlot, OrigLocalPartSlot, NewDomainSlot, TimestampSlot, ts,
                  hash, ts, OrigDomainSlot, OrigLocalPartSlot, NewDomainSlot);
  }

  /**
   * With the default template, the address is `SRS0=hash=timestamp=domain=localPart@newDomain`,
   * provided no substituted value brings in a placeholder that a later replacement would
   * expand. The new local part has no placeholder there and is dropped.
   */
  lemma AddressDefault(config: Config, hmac: Hmac, now: int, origSenderDomain: string, origSenderLocalPart: string,
                       newSenderDomain: string, newSenderLocalPart: string)
    requires 0 <= now <= 1024 && config.srsTemplate.None?
    requires !Contains(origSenderDomain, OrigLocalPartSlot) && !Contains(origSenderDomain, NewDomainSlot)
    requires !Contains(origSenderDomain, NewLocalPartSlot)
    requires !Contains(origSenderLocalPart, NewDomainSlot) && !Contains(origSenderLocalPart, NewLocalPartSlot)
    requires !Contains(newSenderDomain, NewLocalPartSlot)
    ensures Address(config, hmac, now, origSenderDomain, origSenderLocalPart, newSenderDomain, newSenderLocalPart)
         == "SRS0=" + HashTag(config, hmac, origSenderDomain + ";" + origSenderLocalPart) + "=" + Timestamp(now)
            + "=" + origSenderDomain + "=" + origSenderLocalPart + "@" + newSenderDomain
  {
    var hash := HashTag(config, hmac, origSenderDomain + ";" + origSenderLocalPart);
    var ts := Timestamp(now);
    var od, ol, nd, nl := origSenderDomain, origSenderLocalPart, newSenderDomain, newSenderLocalPart;
    var s2 := TagSteps(config, hmac, now, od + ";" + ol);
    Placeholders();
    var s3 := Replace(s2, OrigDomainSlot, od);
    NoBrace(hash, OrigDomainSlot, od);
    NoBrace(ts, OrigDomainSlot, od);
    ReplaceWhole(OrigDomainSlot, od);
    Keep(OrigLocalPartSlot, OrigDomainSlot, od);
    Keep(NewDomainSlot, OrigDomainSlot, od);
    ReplaceFields(hash, ts, OrigDomainSlot, OrigLocalPartSlot, NewDomainSlot, OrigDomainSlot, od,
                  hash, ts, od, OrigLocalPartSlot, NewDomainSlot);
    var s4 := Replace(s3, OrigLocalPartSlot, ol);
    NoBrace(hash, OrigLocalPartSlot, ol);
    NoBrace(ts, OrigLocalPartSlot, ol);
    ReplaceAbsent(od, OrigLocalPartSlot, ol);
    ReplaceWhole(OrigLocalPartSlot, ol);
    Keep(NewDomainSlot, OrigLocalPartSlot, ol);
    ReplaceFields(hash, ts, od, OrigLocalPartSlot, NewDomainSlot, OrigLocalPartSlot, ol,
                  hash, ts, od, ol, NewDomainSlot);
    var s5 := Replace(s4, NewDomainSlot, nd);
    NoBrace(hash, NewDomainSlot, nd);
    NoBrace(ts, NewDomainSlot, nd);
    ReplaceAbsent(od, NewDomainSlot, nd);
    ReplaceAbsent(ol, NewDomainSlot, nd);
    ReplaceWhole(NewDomainSlot, nd);
    ReplaceFields(hash, ts, od, ol, NewDomainSlot, NewDomainSlot, nd,
                  hash, ts, od, ol, nd);
    NoBrace(hash, NewLocalPartSlot, nl);
    NoBrace(ts, NewLocalPartSlot, nl);
    ReplaceAbsent(od, NewLocalPartSlot, nl);
    ReplaceAbsent(ol, NewLocalPartSlot, nl);
    ReplaceAbsent(nd, NewLocalPartSlot, nl);
    ReplaceFields(hash, ts, od, ol, nd, NewLocalPartSlot, nl,
                  hash, ts, od, ol, nd);
    FieldsFlat(hash, ts, od, ol, nd);
  }

  /** A template holding none of the placeholders is the address as it stands. */
  lemma AddressPlain(config: Config, hmac: Hmac, now: int, origSenderDomain: string, origSenderLocalPart: string,
                     newSenderDomain: string, newSenderLocalPart: string)
    requires 0 <= now <= 1024
    requires !Contains(Template(config), HashSlot) && !Contains(Template(config), TimestampSlot)
    requires !Contains(Template(config), OrigDomainSlot) && !Contains(Template(config), OrigLocalPartSlot)
    requires !Contains(Template(config), NewDomainSlot) && !Contains(Template(config), NewLocalPartSlot)
    ensures Address(config, hmac, now, origSenderDomain, origSenderLocalPart, newSenderDomain, newSenderLocalPart)
         == Template(config)
  {
    var t := Template(config);
    ReplaceAbsent(t, HashSlot, HashTag(config, hmac, origSenderDomain + ";" + origSenderLocalPart));
    ReplaceAbsent(t, TimestampSlot, Timestamp(now));
    ReplaceAbsent(t, OrigDomainSlot, origSenderDomain);
    ReplaceAbsent(t, OrigLocalPartSlot, origSenderLocalPart);
    ReplaceAbsent(t, NewDomainSlot, newSenderDomain);
    ReplaceAbsent(t, NewLocalPartSlot, newSenderLocalPart);
  }

  /**
   * Each replacement also scans the values put in before it: an original domain
   * that spells `{newSenderDomain}` comes out as the new domain.
   */
  lemma AddressRescans(config: Config, hmac: Hmac, now: int, origSenderLocalPart: string,
                       newSenderDomain: string, newSenderLocalPart: string)
    requires 0 <= now <= 1024 && config.srsTemplate.None?
    requires !Contains(origSenderLocalPart, NewDomainSlot) && !Contains(origSenderLocalPart, NewLocalPartSlot)
    requires !Contains(newSenderDomain, NewLocalPartSlot)
    ensures Address(config, hmac, now, NewDomainSlot, origSenderLocalPart, newSenderDomain, newSenderLocalPart)
         == "SRS0=" + HashTag(config, hmac, NewDomainSlot + ";" + origSenderLocalPart) + "=" + Timestamp(now)
            + "=" + newSenderDomain + "=" + origSenderLocalPart + "@" + newSenderDomain
  {
    var od, ol, nd, nl := NewDomainSlot, origSenderLocalPart, newSenderDomain, newSenderLocalPart;
    var hash := HashTag(config, hmac, od + ";" + ol);
    var ts := Timestamp(now);
    var s2 := TagSteps(config, hmac, now, od + ";" + ol);
    Placeholders();
    var s3 := Replace(s2, OrigDomainSlot, od);
    NoBrace(hash, OrigDomainSlot, od);
    NoBrace(ts, OrigDomainSlot, od);
    ReplaceWhole(OrigDomainSlot, od);
    Keep(OrigLocalPartSlot, OrigDomainSlot, od);
    Keep(NewDomainSlot, OrigDomainSlot, od);
    ReplaceFields(hash, ts, OrigDomainSlot, OrigLocalPartSlot, NewDomainSlot, OrigDomainSlot, od,
                  hash, ts, od, OrigLocalPartSlot, NewDomainSlot);
    var s4 := Replace(s3, OrigLocalPartSlot, ol);
    NoBrace(hash, OrigLocalPartSlot, ol);
    NoBrace(ts, OrigLocalPartSlot, ol);
    Keep(od, OrigLocalPartSlot, ol);
    ReplaceWhole(OrigLocalPartSlot, ol);
    Keep(NewDomainSlot, OrigLocalPartSlot, ol);
    ReplaceFields(hash, ts, od, OrigLocalPartSlot, NewDomainSlot, OrigLocalPartSlot, ol,
                  hash, ts, od, ol, NewDomainSlot);
    var s5 := Replace(s4, NewDomainSlot, nd);
    NoBrace(hash, NewDomainSlot, nd);
    NoBrace(ts, NewDomainSlot, nd);
    ReplaceAbsent(ol, NewDomainSlot, nd);
    ReplaceWhole(NewDomainSlot, nd);
    ReplaceFields(hash, ts, od, ol, NewDomainSlot, NewDomainSlot, nd,
                  hash, ts, nd, ol, nd);
    NoBrace(hash, NewLocalPartSlot, nl);
    NoBrace(ts, NewLocalPartSlot, nl);
    ReplaceAbsent(ol, NewLocalPartSlot, nl);
    ReplaceAbsent(nd, NewLocalPartSlot, nl);
    ReplaceFields(hash, ts, nd, ol, nd, NewLocalPartSlot, nl,
                  hash, ts, nd, ol, nd);
    FieldsFlat(hash, ts, nd, ol, nd);
  }
}
