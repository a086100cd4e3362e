/**
 Base64 with padding (src/utils/base64.rs, section 4 of RFC 4648). The encoder
 works on chunks of three bytes, the decoder on chunks of four characters with
 every `=` dropped and unknown characters read as zero.
 */
module Base64 {
  import opened Bits

  /** The table, range by range: A-Z, a-z, 0-9, plus, slash. */
  function CharOf(v: nat): char
    requires v < 64
  {
    if v < 26 then 'A' + v as char
    else if v < 52 then 'a' + (v - 26) as char
    else if v < 62 then '0' + (v - 52) as char
    else if v == 62 then '+'
    else '/'
  }

  /** `val`: the six bits of a character, zero for anything else. */
  function ValueOf(c: char): (v: nat)
    ensures v < 64
  {
    if 'A' <= c <= 'Z' then c as nat - 'A' as nat
    else if 'a' <= c <= 'z' then c as nat - 'a' as nat + 26
    else if '0' <= c <= '9' then c as nat - '0' as nat + 52
    else if c == '+' then 62
    else if c == '/' then 63
    else 0
  }

  const TABLE := "ABCDEFGHIJKLMNOPQRSTUVWXYZ" + "abcdefghijklmnopqrstuvwxyz" + "0123456789+/"

  /** The ranges are the table of the encoder. */
  lemma {:induction false} CharIsTableEntry(v: nat)
    requires v < 64
    ensures |TABLE| == 64 && CharOf(v) == TABLE[v]
  {
  }

  lemma {:induction false} CharReadBack(v: nat)
    requires v < 64
    ensures ValueOf(CharOf(v)) == v && CharOf(v) != '='
  {
  }

  // ---- Chunks -------------------------------------------------------------------------------

  /** The four characters for one to three bytes. */
  function EncodeChunk(chunk: seq<Byte>): (text: string)
    requires 1 <= |chunk| <= 3
    ensures |text| == 4
  {
    var b0, b1, b2 := chunk[0] as nat, if |chunk| > 1 then chunk[1] as nat else 0, if |chunk| > 2 then chunk[2] as nat else 0;
    [CharOf(b0 / 4), CharOf(b0 % 4 * 16 + b1 / 16),
     if |chunk| > 1 then CharOf(b1 % 16 * 4 + b2 / 64) else '=',
     if |chunk| > 2 then CharOf(b2 % 64) else '=']
  }

  /** The bytes for one to four characters. */
  function DecodeChunk(chunk: string): seq<Byte>
    requires 1 <= |chunk| <= 4
  {
    var v0, v1 := ValueOf(chunk[0]), if |chunk| > 1 then ValueOf(chunk[1]) else 0;
    var v2, v3 := if |chunk| > 2 then ValueOf(chunk[2]) else 0, if |chunk| > 3 then ValueOf(chunk[3]) else 0;
    [v0 * 4 + v1 / 16]
    + (if |chunk| > 2 then [v1 % 16 * 16 + v2 / 4] else [])
    + (if |chunk| > 3 then [v2 % 4 * 64 + v3] else [])
  }

  /**
   The 24 bits of a chunk, missing bytes read as zero, are its four digits of six
   bits, most significant first; a pad stands exactly where no byte reaches.
   */
  lemma {:induction false} ChunkDigits(chunk: seq<Byte>)
    requires 1 <= |chunk| <= 3
    ensures var text := EncodeChunk(chunk);
            && 262144 * ValueOf(text[0]) + 4096 * ValueOf(text[1]) + 64 * ValueOf(text[2]) + ValueOf(text[3])
               == 65536 * chunk[0] as nat + (if |chunk| > 1 then 256 * chunk[1] as nat else 0)
                  + (if |chunk| > 2 then chunk[2] as nat else 0)
            && text[0] != '=' && text[1] != '=' && (text[2] == '=' <==> |chunk| < 2) && (text[3] == '=' <==> |chunk| < 3)
  {
    hide CharOf, ValueOf;
    var b0, b1, b2 := chunk[0] as nat, if |chunk| > 1 then chunk[1] as nat else 0, if |chunk| > 2 then chunk[2] as nat else 0;
    CharReadBack(b0 / 4);
    CharReadBack(b0 % 4 * 16 + b1 / 16);
    CharReadBack(b1 % 16 * 4 + b2 / 64);
    CharReadBack(b2 % 64);
    PadIsZero();
  }

  lemma {:induction false} PadIsZero()
    ensures ValueOf('=') == 0
  {
  }

  /** Any four characters decode to the three bytes of their 24 bits; fewer decode to the bytes they fill, at least one. */
  lemma {:induction false} DecodedBits(chunk: string)
    requires 1 <= |chunk| <= 4
    ensures |DecodeChunk(chunk)| == if |chunk| == 1 then 1 else |chunk| - 1
    ensures |chunk| == 4 ==> var bytes := DecodeChunk(chunk);
              65536 * bytes[0] as nat + 256 * bytes[1] as nat + bytes[2] as nat
              == 262144 * ValueOf(chunk[0]) + 4096 * ValueOf(chunk[1]) + 64 * ValueOf(chunk[2]) + ValueOf(chunk[3])
    ensures |chunk| < 4 ==> DecodeChunk(chunk) <= DecodeChunk(chunk + "A")
  {
    hide ValueOf;
    assert ValueOf('A') == 0 by { LetterAIsZero(); }
  }

  lemma {:induction false} LetterAIsZero()
    ensures ValueOf('A') == 0
  {
  }

  /** The shifts and masks of both directions, as arithmetic. */
  lemma {:induction false} ShiftsAndMasks(b0: nat, b1: nat, b2: nat)
    requires b0 < 256 && b1 < 256 && b2 < 256
    ensures Or(And(b0, 3) * 16, b1 / 16) == b0 % 4 * 16 + b1 / 16
    ensures Or(And(b1, 0xF) * 4, b2 / 64) == b1 % 16 * 4 + b2 / 64
    ensures And(b2, 0x3F) == b2 % 64
  {
    assert Pow2(2) == 4;
    assert Pow2(4) == 16;
    assert Pow2(6) == 64;
    AndMask(b0, 2);
    AndMask(b1, 4);
    AndMask(b2, 6);
    OrDisjoint(b0 % 4, b1 / 16, 4);
    OrDisjoint(b1 % 16, b2 / 64, 2);
  }

  lemma {:induction false} ShiftsAndMasksBack(v0: nat, v1: nat, v2: nat, v3: nat)
    requires v0 < 64 && v1 < 64 && v2 < 64 && v3 < 64
    ensures Or(v0 * 4 % 256, v1 / 16) == v0 * 4 + v1 / 16
    ensures Or(And(v1, 0xF) * 16 % 256, v2 / 4) == v1 % 16 * 16 + v2 / 4
    ensures Or(And(v2, 3) * 64 % 256, v3) == v2 % 4 * 64 + v3
  {
    hide Or, And;
    assert Pow2(2) == 4;
    assert Pow2(4) == 16;
    assert Pow2(6) == 64;
    AndMask(v1, 4);
    AndMask(v2, 2);
    OrDisjoint(v0, v1 / 16, 2);
    OrDisjoint(v1 % 16, v2 / 4, 4);
    OrDisjoint(v2 % 4, v3, 6);
  }

  /** One chunk, with the shifts and masks of `base64_encode`. */
  method EncodeBlock(chunk: seq<Byte>) returns (text: string)
    requires 1 <= |chunk| <= 3
    ensures text == EncodeChunk(chunk)
  {
    hide Or, And, CharOf;
    var b0: nat := chunk[0];
    var b1: nat := if |chunk| > 1 then chunk[1] else 0;
    var b2: nat := if |chunk| > 2 then chunk[2] else 0;
    ShiftsAndMasks(b0, b1, b2);
    text := [CharOf(b0 / 4)];
    text := text + [CharOf(Or(And(b0, 3) * 16, b1 / 16))];
    text := text + [if |chunk| > 1 then CharOf(Or(And(b1, 0xF) * 4, b2 / 64)) else '='];
    text := text + [if |chunk| > 2 then CharOf(And(b2, 0x3F)) else '='];
  }

  /** One chunk, with the shifts and masks of `base64_decode` on bytes. */
  method DecodeBlock(chunk: string) returns (bytes: seq<Byte>)
    requires 1 <= |chunk| <= 4
    ensures bytes == DecodeChunk(chunk)
  {
    hide Or, And, ValueOf;
    var v0 := ValueOf(chunk[0]);
    var v1 := if |chunk| > 1 then ValueOf(chunk[1]) else 0;
    var v2 := if |chunk| > 2 then ValueOf(chunk[2]) else 0;
    var v3 := if |chunk| > 3 then ValueOf(chunk[3]) else 0;
    ShiftsAndMasksBack(v0, v1, v2, v3);
    bytes := [Or(v0 * 4 % 256, v1 / 16)];
    if |chunk| > 2 {
      bytes := bytes + [Or(And(v1, 0xF) * 16 % 256, v2 / 4)];
    }
    if |chunk| > 3 {
      bytes := bytes + [Or(And(v2, 3) * 64 % 256, v3)];
    }
  }

  // ---- Whole strings ---------------------------------------------------------------------------

  function Encoded(bytes: seq<Byte>): string
  {
    if bytes == [] then ""
    else
      var n := if |bytes| < 3 then |bytes| else 3;
      EncodeChunk(bytes[..n]) + Encoded(bytes[n..])
  }

  function WithoutPadding(s: string): (r: string)
    ensures |r| <= |s|
  {
    if s == "" then "" else (if s[0] == '=' then "" else [s[0]]) + WithoutPadding(s[1..])
  }

  function DecodedChunks(s: string): seq<Byte>
  {
    if s == "" then []
    else
      var n := if |s| < 4 then |s| else 4;
      DecodeChunk(s[..n]) + DecodedChunks(s[n..])
  }

  function Decoded(s: string): seq<Byte>
  {
    DecodedChunks(WithoutPadding(s))
  }

  lemma {:induction false} SliceOfRest<T>(s: seq<T>, i: nat, n: nat)
    requires i + n <= |s|
    ensures s[i..][..n] == s[i..i + n] && s[i..][n..] == s[i + n..]
  {
  }

  method Base64Encode(bytes: seq<Byte>) returns (out: string)
    ensures out == Encoded(bytes)
  {
    hide EncodeChunk;
    out := "";
    var i := 0;
    while i < |bytes|
      invariant 0 <= i <= |bytes|
      invariant Encoded(bytes) == out + Encoded(bytes[i..])
    {
      var n := if |bytes| - i < 3 then |bytes| - i else 3;
      SliceOfRest(bytes, i, n);
      var text := EncodeBlock(bytes[i..i + n]);
      out := out + text;
      i := i + n;
    }
  }

  method Base64Decode(s: string) returns (out: seq<Byte>)
    ensures out == Decoded(s)
  {
    hide DecodeChunk;
    var cleaned := WithoutPadding(s);
    out := [];
    var i := 0;
    while i < |cleaned|
      invariant 0 <= i <= |cleaned|
      invariant DecodedChunks(cleaned) == out + DecodedChunks(cleaned[i..])
    {
      var n := if |cleaned| - i < 4 then |cleaned| - i else 4;
      SliceOfRest(cleaned, i, n);
      var bytes := DecodeBlock(cleaned[i..i + n]);
      out := out + bytes;
      i := i + n;
    }
  }

  // ---- Round trip ---------------------------------------------------------------------------------

  lemma {:induction false} ChunkText(chunk: seq<Byte>)
    requires 1 <= |chunk| <= 3
    ensures WithoutPadding(EncodeChunk(chunk)) == EncodeChunk(chunk)[..|chunk| + 1]
  {
    hide CharOf, WithoutPadding;
    var text := EncodeChunk(chunk);
    var b0, b1, b2 := chunk[0] as nat, if |chunk| > 1 then chunk[1] as nat else 0, if |chunk| > 2 then chunk[2] as nat else 0;
    CharReadBack(b0 / 4);
    CharReadBack(b0 % 4 * 16 + b1 / 16);
    CharReadBack(b1 % 16 * 4 + b2 / 64);
    CharReadBack(b2 % 64);
    FourChars(text[0], text[1], text[2], text[3], |chunk|);
    assert text == [text[0], text[1], text[2], text[3]];
  }

  lemma {:induction false} ChunkBits(chunk: seq<Byte>)
    requires 1 <= |chunk| <= 3
    ensures DecodeChunk(EncodeChunk(chunk)[..|chunk| + 1]) == chunk
  {
    hide CharOf, ValueOf;
    var b0, b1, b2 := chunk[0] as nat, if |chunk| > 1 then chunk[1] as nat else 0, if |chunk| > 2 then chunk[2] as nat else 0;
    CharReadBack(b0 / 4);
    CharReadBack(b0 % 4 * 16 + b1 / 16);
    CharReadBack(b1 % 16 * 4 + b2 / 64);
    CharReadBack(b2 % 64);
    DivModUnique(b0 % 4 * 16 + b1 / 16, 16, b0 % 4, b1 / 16);
    DivModUnique(b1 % 16 * 4 + b2 / 64, 4, b1 % 16, b2 / 64);
  }

  lemma {:induction false} ChunkReadBack(chunk: seq<Byte>)
    requires 1 <= |chunk| <= 3
    ensures |WithoutPadding(EncodeChunk(chunk))| == |chunk| + 1
    ensures DecodeChunk(WithoutPadding(EncodeChunk(chunk))) == chunk
  {
    hide EncodeChunk, DecodeChunk, WithoutPadding;
    ChunkText(chunk);
    ChunkBits(chunk);
  }

  lemma {:induction false} FourChars(a: char, b: char, c: char, d: char, n: nat)
    requires 1 <= n <= 3 && a != '=' && b != '=' && (n > 1 <==> c != '=') && (n > 2 <==> d != '=')
    ensures WithoutPadding([a, b, c, d]) == [a, b, c, d][..n + 1]
  {
    var s := [a, b, c, d];
    assert s[1..] == [b, c, d] && s[1..][1..] == [c, d] && s[1..][1..][1..] == [d] && s[1..][1..][1..][1..] == "";
    assert WithoutPadding([d]) == if d == '=' then "" else [d];
    assert WithoutPadding([c, d]) == (if c == '=' then "" else [c]) + WithoutPadding([d]);
    assert WithoutPadding([b, c, d]) == [b] + WithoutPadding([c, d]);
    assert WithoutPadding(s) == [a] + WithoutPadding([b, c, d]);
  }

  lemma {:induction false} WithoutPaddingAppend(a: string, b: string)
    ensures WithoutPadding(a + b) == WithoutPadding(a) + WithoutPadding(b)
    decreases |a|
  {
    if a == "" {
      assert a + b == b;
    } else {
      assert (a + b)[1..] == a[1..] + b;
      WithoutPaddingAppend(a[1..], b);
    }
  }

  /** Decoding undoes encoding for every byte string, whatever its padding. */
  lemma {:induction false} Base64RoundTrip(bytes: seq<Byte>)
    ensures Decoded(Encoded(bytes)) == bytes
    decreases |bytes|
  {
    hide EncodeChunk, DecodeChunk, WithoutPadding;
    if bytes == [] {
      NothingEncoded();
    } else {
      var n := if |bytes| < 3 then |bytes| else 3;
      var head, rest := bytes[..n], bytes[n..];
      ChunkReadBack(head);
      Base64RoundTrip(rest);
      WithoutPaddingAppend(EncodeChunk(head), Encoded(rest));
      FirstChunk(WithoutPadding(EncodeChunk(head)), WithoutPadding(Encoded(rest)), rest == []);
    }
  }

  lemma {:induction false} NothingEncoded()
    ensures WithoutPadding("") == "" && Decoded(Encoded([])) == []
  {
  }

  /** A full chunk, or a last one, is decoded on its own. */
  lemma {:induction false} FirstChunk(a: string, b: string, last: bool)
    requires 1 <= |a| <= 4 && (last ==> b == "") && (!last ==> |a| == 4)
    ensures DecodedChunks(a + b) == DecodeChunk(a) + DecodedChunks(b)
  {
    hide DecodeChunk;
    assert (a + b)[..|a|] == a && (a + b)[|a|..] == b;
  }

  /** Four characters for every started group of three bytes. */
  lemma {:induction false} EncodedLength(bytes: seq<Byte>)
    ensures |Encoded(bytes)| == 4 * ((|bytes| + 2) / 3)
    decreases |bytes|
  {
    hide EncodeChunk;
    if bytes != [] {
      var n := if |bytes| < 3 then |bytes| else 3;
      EncodedLength(bytes[n..]);
    }
  }
}
