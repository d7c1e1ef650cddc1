/** TokenGenerator: random bytes encoded with the URL-safe Base64 alphabet of
    section 5 of RFC 4648, without the '=' padding of section 3.2. SecureRandom
    is not modelled: the bytes it would produce are passed in. */
module TokenGenerator {
  import opened JavaLang

  /** An unsigned byte, as the encoder reads a Java byte. */
  type Byte = x: int | 0 <= x < 256

  const SHARE_TOKEN_BYTES: nat := 9
  const DELETE_TOKEN_BYTES: nat := 12
  const STORAGE_NAME_BYTES: nat := 16
  const DELETE_PREFIX: string := "del_"

  /** The characters of the URL- and filename-safe alphabet. */
  predicate IsUrlSafe(c: char)
  {
    ('A' <= c <= 'Z') || ('a' <= c <= 'z') || ('0' <= c <= '9') || c == '-' || c == '_'
  }

  predicate AllUrlSafe(s: string)
  {
    forall i :: 0 <= i < |s| ==> IsUrlSafe(s[i])
  }

  /** The value a character of the alphabet stands for, or -1 off the alphabet. */
  function SymbolValue(c: char): int
  {
    if 'A' <= c <= 'Z' then c as int - 'A' as int
    else if 'a' <= c <= 'z' then c as int - 'a' as int + 26
    else if '0' <= c <= '9' then c as int - '0' as int + 52
    else if c == '-' then 62
    else if c == '_' then 63
    else -1
  }

  /** Table 2 of RFC 4648: the character encoding a 6-bit value. */
  function Symbol(v: int): (c: char)
    requires 0 <= v < 64
    ensures IsUrlSafe(c) && c != '='
    ensures SymbolValue(c) == v
  {
    if v < 26 then ('A' as int + v) as char
    else if v < 52 then ('a' as int + (v - 26)) as char
    else if v < 62 then ('0' as int + (v - 52)) as char
    else if v == 62 then '-'
    else '_'
  }

  /** The number of characters the unpadded encoding of n bytes has. */
  function EncodedLength(n: nat): nat
  {
    (4 * n + 2) / 3
  }

  /** The four 6-bit values of a group of three bytes, most significant
      bits first; a short final group pads the missing bytes with zero bits. */
  function Sextet0(b0: Byte): (v: int) ensures 0 <= v < 64 { b0 / 4 }
  function Sextet1(b0: Byte, b1: Byte): (v: int) ensures 0 <= v < 64 { (b0 % 4) * 16 + b1 / 16 }
  function Sextet2(b1: Byte, b2: Byte): (v: int) ensures 0 <= v < 64 { (b1 % 16) * 4 + b2 / 64 }
  function Sextet3(b2: Byte): (v: int) ensures 0 <= v < 64 { b2 % 64 }

  /** Base64url without padding: each group of three bytes becomes four
      characters; a final group of one or two bytes becomes two or three. */
  function Encode(b: seq<Byte>): (s: string)
    ensures |s| == EncodedLength(|b|)
    ensures AllUrlSafe(s)
    decreases |b|
  {
    if |b| == 0 then []
    else if |b| == 1 then
      [Symbol(Sextet0(b[0])), Symbol(Sextet1(b[0], 0))]
    else if |b| == 2 then
      [Symbol(Sextet0(b[0])), Symbol(Sextet1(b[0], b[1])), Symbol(Sextet2(b[1], 0))]
    else
      [Symbol(Sextet0(b[0])), Symbol(Sextet1(b[0], b[1])),
       Symbol(Sextet2(b[1], b[2])), Symbol(Sextet3(b[2]))]
      + Encode(b[3..])
  }

  /** The bytes that four (or a final two or three) 6-bit values stand for. */
  function Octet0(v0: int, v1: int): int { v0 * 4 + v1 / 16 }
  function Octet1(v1: int, v2: int): int { (v1 % 16) * 16 + v2 / 4 }
  function Octet2(v2: int, v3: int): int { (v2 % 4) * 64 + v3 }

  /** The inverse of Encode on the strings Encode produces: four characters
      give back three bytes, a final two or three give back one or two. */
  function DecodeSymbols(s: string): seq<int>
    decreases |s|
  {
    if |s| < 2 then []
    else
      var v0, v1 := SymbolValue(s[0]), SymbolValue(s[1]);
      if |s| == 2 then [Octet0(v0, v1)]
      else
        var v2 := SymbolValue(s[2]);
        if |s| == 3 then [Octet0(v0, v1), Octet1(v1, v2)]
        else
          var v3 := SymbolValue(s[3]);
          [Octet0(v0, v1), Octet1(v1, v2), Octet2(v2, v3)] + DecodeSymbols(s[4..])
  }

  /** Decoding an unpadded string: off-alphabet characters and a length of
      one more than a multiple of four are rejected. */
  function Decode(s: string): Option<seq<int>>
  {
    if !AllUrlSafe(s) || |s| % 4 == 1 then None else Some(DecodeSymbols(s))
  }

  lemma GroupRoundTrip(b0: Byte, b1: Byte, b2: Byte)
    ensures Octet0(Sextet0(b0), Sextet1(b0, b1)) == b0
    ensures Octet1(Sextet1(b0, b1), Sextet2(b1, b2)) == b1
    ensures Octet2(Sextet2(b1, b2), Sextet3(b2)) == b2
  {
    var hi0, lo0 := b0 / 4, b0 % 4;
    var hi1, lo1 := b1 / 16, b1 % 16;
    var hi2, lo2 := b2 / 64, b2 % 64;
    assert (lo0 * 16 + hi1) / 16 == lo0 && (lo0 * 16 + hi1) % 16 == hi1;
    assert (lo1 * 4 + hi2) / 4 == lo1 && (lo1 * 4 + hi2) % 4 == hi2;
  }

  lemma DecodeLastOne(b0: Byte)
    ensures DecodeSymbols(Encode([b0])) == [b0]
  {
    var s := Encode([b0]);
    assert s == [Symbol(Sextet0(b0)), Symbol(Sextet1(b0, 0))];
    var v0, v1 := Sextet0(b0), Sextet1(b0, 0);
    assert SymbolValue(s[0]) == v0;
    assert SymbolValue(s[1]) == v1;
    assert DecodeSymbols(s) == [Octet0(v0, v1)];
    GroupRoundTrip(b0, 0, 0);
    assert Octet0(v0, v1) == b0;
  }

  lemma DecodeLastTwo(b: seq<Byte>)
    requires |b| == 2
    ensures DecodeSymbols(Encode(b)) == b
  {
    GroupRoundTrip(b[0], b[1], 0);
  }

  /** Four leading characters decode to three bytes ahead of the rest. */
  lemma DecodeFour(c0: char, c1: char, c2: char, c3: char, rest: string)
    ensures DecodeSymbols([c0, c1, c2, c3] + rest)
         == [Octet0(SymbolValue(c0), SymbolValue(c1)), Octet1(SymbolValue(c1), SymbolValue(c2)),
             Octet2(SymbolValue(c2), SymbolValue(c3))] + DecodeSymbols(rest)
  {
    var s := [c0, c1, c2, c3] + rest;
    assert s[0] == c0 && s[1] == c1 && s[2] == c2 && s[3] == c3;
    assert s[4..] == rest;
  }

  lemma DecodeGroup(b: seq<Byte>)
    requires |b| >= 3
    ensures DecodeSymbols(Encode(b)) == b[..3] + DecodeSymbols(Encode(b[3..]))
  {
    var v0, v1, v2, v3 := Sextet0(b[0]), Sextet1(b[0], b[1]), Sextet2(b[1], b[2]), Sextet3(b[2]);
    DecodeFour(Symbol(v0), Symbol(v1), Symbol(v2), Symbol(v3), Encode(b[3..]));
    GroupRoundTrip(b[0], b[1], b[2]);
    assert [b[0], b[1], b[2]] == b[..3];
  }

  /** Decoding the symbols undoes encoding, for every byte sequence. */
  lemma {:induction false} DecodeSymbolsEncode(b: seq<Byte>)
    ensures DecodeSymbols(Encode(b)) == b
    decreases |b|
  {
    if |b| == 1 {
      DecodeLastOne(b[0]);
      assert b == [b[0]];
    } else if |b| == 2 {
      DecodeLastTwo(b);
    } else if |b| >= 3 {
      DecodeGroup(b);
      DecodeSymbolsEncode(b[3..]);
      assert b == b[..3] + b[3..];
    }
  }

  /** No unpadded encoding is one character longer than a multiple of four. */
  lemma {:induction false} EncodedLengthMod(n: nat)
    ensures EncodedLength(n) % 4 != 1
    decreases n
  {
    if n >= 3 {
      assert EncodedLength(n) == EncodedLength(n - 3) + 4;
      EncodedLengthMod(n - 3);
    }
  }

  /** Decoding undoes encoding, for every byte sequence. */
  lemma DecodeEncode(b: seq<Byte>)
    ensures Decode(Encode(b)) == Some(b)
  {
    DecodeSymbolsEncode(b);
    EncodedLengthMod(|b|);
  }

  /** Distinct byte inputs never give the same token. */
  lemma EncodeInjective(a: seq<Byte>, b: seq<Byte>)
    requires a != b
    ensures Encode(a) != Encode(b)
  {
    DecodeEncode(a);
    DecodeEncode(b);
  }

  /** The encoded length is 4n/3 rounded up, and never contains padding. */
  lemma EncodedLengthIsCeiling(b: seq<Byte>)
    ensures 3 * |Encode(b)| >= 4 * |b|
    ensures 3 * (|Encode(b)| - 1) < 4 * |b| || |b| == 0
    ensures '=' !in Encode(b)
  {
  }

  /** The share token for the 9 random bytes generateShareToken draws. */
  function ShareTokenOf(random: seq<Byte>): string
  {
    Encode(random)
  }

  /** The delete token for the 12 random bytes generateDeleteToken draws. */
  function DeleteTokenOf(random: seq<Byte>): string
  {
    DELETE_PREFIX + Encode(random)
  }

  /** The storage object name for the 16 random bytes generateStorageFileName
      draws and the original extension. */
  function StorageFileNameOf(random: seq<Byte>, extension: string): string
  {
    Encode(random) + "." + extension
  }

  /** generateToken(length): a fresh byte array of `length`, filled in place
      by the random source, then encoded. */
  method GenerateToken(length: nat, random: seq<Byte>) returns (token: string)
    requires |random| == length
    ensures token == Encode(random)
    ensures |token| == EncodedLength(length)
  {
    var bytes := new Byte[length];
    var i := 0;
    while i < length
      invariant 0 <= i <= length
      invariant bytes[..i] == random[..i]
    {
      bytes[i] := random[i];
      i := i + 1;
    }
    assert bytes[..] == random;
    token := Encode(bytes[..]);
  }

  method GenerateShareToken(random: seq<Byte>) returns (token: string)
    requires |random| == SHARE_TOKEN_BYTES
    ensures token == ShareTokenOf(random)
    ensures |token| == 12 && AllUrlSafe(token)
  {
    token := GenerateToken(SHARE_TOKEN_BYTES, random);
  }

  method GenerateDeleteToken(random: seq<Byte>) returns (token: string)
    requires |random| == DELETE_TOKEN_BYTES
    ensures token == DeleteTokenOf(random)
    ensures |token| == 20 && token[..4] == "del_" && AllUrlSafe(token[4..])
    ensures AllUrlSafe(token)
  {
    var t := GenerateToken(DELETE_TOKEN_BYTES, random);
    token := DELETE_PREFIX + t;
    assert token[4..] == t;
    forall i | 0 <= i < |token| ensures IsUrlSafe(token[i]) {
      if i >= 4 {
        assert token[i] == t[i - 4];
      }
    }
  }

  method GenerateStorageFileName(random: seq<Byte>, originalExtension: string) returns (name: string)
    requires |random| == STORAGE_NAME_BYTES
    ensures name == StorageFileNameOf(random, originalExtension)
    ensures |name| == 23 + |originalExtension|
    ensures AllUrlSafe(name[..22]) && name[22] == '.' && name[23..] == originalExtension
  {
    var t := GenerateToken(STORAGE_NAME_BYTES, random);
    name := t + "." + originalExtension;
    assert name[..22] == t;
    assert name[23..] == originalExtension;
  }

  /** A delete token is never a share token: 20 characters against 12. */
  lemma DeleteTokenIsNotShareToken(shareRandom: seq<Byte>, deleteRandom: seq<Byte>)
    requires |shareRandom| == SHARE_TOKEN_BYTES && |deleteRandom| == DELETE_TOKEN_BYTES
    ensures |ShareTokenOf(shareRandom)| == 12
    ensures |DeleteTokenOf(deleteRandom)| == 20
    ensures ShareTokenOf(shareRandom) != DeleteTokenOf(deleteRandom)
  {
  }

  /** Two share tokens coincide only when their random bytes do. */
  lemma ShareTokenInjective(a: seq<Byte>, b: seq<Byte>)
    requires a != b
    ensures ShareTokenOf(a) != ShareTokenOf(b)
  {
    EncodeInjective(a, b);
  }

  /** Two delete tokens coincide only when their random bytes do. */
  lemma DeleteTokenInjective(a: seq<Byte>, b: seq<Byte>)
    requires a != b
    ensures DeleteTokenOf(a) != DeleteTokenOf(b)
  {
    EncodeInjective(a, b);
    assert DeleteTokenOf(a)[4..] == Encode(a);
    assert DeleteTokenOf(b)[4..] == Encode(b);
  }
}
