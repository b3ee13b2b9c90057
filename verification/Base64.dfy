/**
 Base64 as in ext/pg_util.c: an encoder that runs backwards so that it may overwrite its own input, and a
 decoder with a fast path for four adjacent characters and a slow path that skips foreign characters.
 C shifts and masks of non-negative numbers are written as division, remainder and multiplication.
 */
module Base64 {
  import opened Bytes

  type sextet = v: int | 0 <= v < 64

  const PAD: byte := '=' as int
  const FOREIGN: byte := 0xff

  function EncodedSize(len: nat): nat { (len + 2) / 3 * 4 }

  function DecodedSize(len: nat): nat { (len + 3) / 4 * 3 }

  /** `base64_encode_table`: A-Z, a-z, 0-9, +, /. */
  function EncodeTable(v: sextet): (c: byte)
    ensures c != PAD && DecodeTable(c) == v
  {
    if v < 26 then 'A' as int + v
    else if v < 52 then 'a' as int + (v - 26)
    else if v < 62 then '0' as int + (v - 52)
    else if v == 62 then '+' as int
    else '/' as int
  }

  /** `base64_decode_table`: the inverse of the encoding table, 0xff for every other byte. */
  function DecodeTable(c: byte): (v: byte)
    ensures v == FOREIGN || v < 64
  {
    if 'A' as int <= c <= 'Z' as int then c - 'A' as int
    else if 'a' as int <= c <= 'z' as int then c - 'a' as int + 26
    else if '0' as int <= c <= '9' as int then c - '0' as int + 52
    else if c == '+' as int then 62
    else if c == '/' as int then 63
    else FOREIGN
  }

  /** The four six-bit groups of three bytes, from the left (section 4 of RFC 4648). */
  function Sextets(b0: byte, b1: byte, b2: byte): (r: seq<sextet>)
    ensures |r| == 4
  {
    [b0 / 4, b0 % 4 * 16 + b1 / 16, b1 % 16 * 4 + b2 / 64, b2 % 64]
  }

  function Quad(b0: byte, b1: byte, b2: byte): (r: seq<byte>)
    ensures |r| == 4
  {
    var s := Sextets(b0, b1, b2);
    [EncodeTable(s[0]), EncodeTable(s[1]), EncodeTable(s[2]), EncodeTable(s[3])]
  }

  function Padded(b0: byte, b1: byte, b2: byte, pad: nat): (r: seq<byte>)
    requires pad <= 2
    ensures |r| == 4
  {
    Quad(b0, b1, b2)[..4 - pad] + [PAD, PAD][..pad]
  }

  /** A group that is not whole. */
  function LastGroup(s: seq<byte>): (r: seq<byte>)
    requires |s| < 3
    ensures |r| == if |s| == 0 then 0 else 4
  {
    if |s| == 0 then [] else if |s| == 1 then Padded(s[0], 0, 0, 2) else Padded(s[0], s[1], 0, 1)
  }

  /** Section 4 of RFC 4648: groups of three bytes, the last one padded with zero bits and `=`. */
  function Encode(s: seq<byte>): (r: seq<byte>)
    ensures |r| == EncodedSize(|s|)
  {
    if |s| < 3 then LastGroup(s)
    else
      DivIs(|s| + 2, 3, (|s[3..]| + 2) / 3 + 1, (|s| + 2) % 3);
      Padded(s[0], s[1], s[2], 0) + Encode(s[3..])
  }

  /** The values of the alphabet characters of a text; every foreign byte, padding included, is dropped. */
  function Values(s: seq<byte>): (r: seq<sextet>)
  {
    if |s| == 0 then [] else Value(s[0]) + Values(s[1..])
  }

  function Value(c: byte): seq<sextet> {
    var v := DecodeTable(c);
    if v == FOREIGN then [] else [v]
  }

  // The three bytes that four six-bit values make.
  function Byte0(a: sextet, b: sextet): byte { a * 4 + b / 16 }
  function Byte1(b: sextet, c: sextet): byte { b % 16 * 16 + c / 4 }
  function Byte2(c: sextet, d: sextet): byte { c % 4 * 64 + d }

  /** Six-bit values packed into bytes, four at a time; a tail of two or three gives one or two bytes. */
  function Pack(v: seq<sextet>): (r: seq<byte>)
  {
    if |v| < 2 then []
    else if |v| == 2 then [Byte0(v[0], v[1])]
    else if |v| == 3 then [Byte0(v[0], v[1]), Byte1(v[1], v[2])]
    else [Byte0(v[0], v[1]), Byte1(v[1], v[2]), Byte2(v[2], v[3])] + Pack(v[4..])
  }

  function Decode(s: seq<byte>): seq<byte> {
    Pack(Values(s))
  }

  // ---------------------------------------------------------------- lemmas

  lemma {:induction false} ValuesConcat(a: seq<byte>, b: seq<byte>)
    ensures Values(a + b) == Values(a) + Values(b)
  {
    hide Value;
    if |a| == 0 {
      assert a + b == b;
    } else {
      ValuesConcat(a[1..], b);
      assert (a + b)[1..] == a[1..] + b;
      assert (a + b)[0] == a[0];
    }
  }

  /** The values of a text are those of its first character followed by those of the rest. */
  lemma ValuesStep(s: seq<byte>)
    requires |s| > 0
    ensures Values(s) == Value(s[0]) + Values(s[1..])
  {
  }

  lemma ValuesOfThree(a: byte, b: byte, c: byte, rest: seq<byte>)
    ensures Values([a, b, c] + rest) == Value(a) + Value(b) + Value(c) + Values(rest)
  {
    hide DecodeTable, Value;
    ValuesStep([a, b, c] + rest);
    ValuesStep([b, c] + rest);
    ValuesStep([c] + rest);
    assert ([a, b, c] + rest)[1..] == [b, c] + rest;
    assert ([b, c] + rest)[1..] == [c] + rest;
    assert ([c] + rest)[1..] == rest;
  }

  lemma ValuesOfQuad(b0: byte, b1: byte, b2: byte, rest: seq<byte>)
    ensures Values(Padded(b0, b1, b2, 0) + rest) == Sextets(b0, b1, b2) + Values(rest)
    ensures Values(Padded(b0, b1, b2, 2)) == Sextets(b0, b1, b2)[..2]
    ensures Values(Padded(b0, b1, b2, 1)) == Sextets(b0, b1, b2)[..3]
  {
    hide DecodeTable, EncodeTable, Sextets, Values;
    var q, s := Quad(b0, b1, b2), Sextets(b0, b1, b2);
    assert forall k :: 0 <= k < 4 ==> Value(q[k]) == [s[k]];
    assert Value(PAD) == [] by { PadIsForeign(); }
    NoValues();
    ValuesStep(Padded(b0, b1, b2, 0) + rest);
    assert (Padded(b0, b1, b2, 0) + rest)[1..] == [q[1], q[2], q[3]] + rest;
    ValuesOfThree(q[1], q[2], q[3], rest);
    assert s == [s[0], s[1], s[2], s[3]];
    ValuesStep(Padded(b0, b1, b2, 2));
    assert Padded(b0, b1, b2, 2)[1..] == [q[1], PAD, PAD] + [];
    ValuesOfThree(q[1], PAD, PAD, []);
    ValuesStep(Padded(b0, b1, b2, 1));
    assert Padded(b0, b1, b2, 1)[1..] == [q[1], q[2], PAD] + [];
    ValuesOfThree(q[1], q[2], PAD, []);
  }

  lemma PadIsForeign()
    ensures DecodeTable(PAD) == FOREIGN
  {
  }

  lemma NoValues()
    ensures Values([]) == []
  {
  }

  lemma PackGroup(a: sextet, b: sextet, c: sextet, d: sextet, v: seq<sextet>)
    ensures Pack([a, b, c, d] + v) == [Byte0(a, b), Byte1(b, c), Byte2(c, d)] + Pack(v)
  {
    hide Byte0, Byte1, Byte2;
    assert ([a, b, c, d] + v)[4..] == v;
  }

  /** The bits of three bytes, split in six and joined in eight again. */
  lemma SextetBytes(b0: byte, b1: byte, b2: byte)
    ensures var s := Sextets(b0, b1, b2); Byte0(s[0], s[1]) == b0 && Byte1(s[1], s[2]) == b1 && Byte2(s[2], s[3]) == b2
  {
    var s := Sextets(b0, b1, b2);
    DivIs(s[1], 16, b0 % 4, b1 / 16);
    DivIs(s[2], 4, b1 % 16, b2 / 64);
  }

  /** decode(encode(x)) = x for every byte string. */
  lemma {:induction false} DecodeEncode(s: seq<byte>)
    ensures Decode(Encode(s)) == s
  {
    hide Sextets, Byte0, Byte1, Byte2, Values, Padded;
    if |s| == 0 {
      NoValues();
    } else if |s| == 1 {
      ValuesOfQuad(s[0], 0, 0, []);
      SextetBytes(s[0], 0, 0);
    } else if |s| == 2 {
      ValuesOfQuad(s[0], s[1], 0, []);
      SextetBytes(s[0], s[1], 0);
    } else {
      DecodeEncodeGroup(s[0], s[1], s[2], Encode(s[3..]));
      DecodeEncode(s[3..]);
      assert s == [s[0], s[1], s[2]] + s[3..];
    }
  }

  lemma DecodeEncodeGroup(b0: byte, b1: byte, b2: byte, rest: seq<byte>)
    ensures Decode(Padded(b0, b1, b2, 0) + rest) == [b0, b1, b2] + Decode(rest)
  {
    hide Sextets, Byte0, Byte1, Byte2, Values, Padded, Pack;
    ValuesOfQuad(b0, b1, b2, rest);
    var s := Sextets(b0, b1, b2);
    PackGroup(s[0], s[1], s[2], s[3], Values(rest));
    assert s == [s[0], s[1], s[2], s[3]];
    SextetBytes(b0, b1, b2);
  }

  /** The alphabet of table 1 of RFC 4648: A-Z from 65 on, a-z from 97 on, 0-9 from 48 on, + and /. */
  function Letter(v: int): int {
    if v < 26 then 65 + v else if v < 52 then 71 + v else if v < 62 then v - 4 else if v == 62 then 43 else 47
  }

  /** The 24 bits of a group of input bytes; missing ones count as zero. */
  function Bits(s: seq<byte>, g: nat): int {
    At(s, 3 * g) as int * 65536 + At(s, 3 * g + 1) as int * 256 + At(s, 3 * g + 2)
  }

  /** The `j`-th six of 24 bits. */
  function SixBits(t: int, j: nat): int {
    if j == 0 then t / 262144 else if j == 1 then t / 4096 % 64 else if j == 2 then t / 64 % 64 else t % 64
  }

  /** Each character of an encoded text: the letter for its six bits, or `=` where bits are missing. */
  lemma {:induction false} EncodedAt(s: seq<byte>, g: nat, j: nat)
    requires j < 4 && 4 * g + j < |Encode(s)|
    ensures |Encode(s)| == (|s| + 2) / 3 * 4
    ensures Encode(s)[4 * g + j] == if j > |s| - 3 * g then 61 else Letter(SixBits(Bits(s, g), j))
    decreases |s|
  {
    hide Letter, EncodeTable, SixBits, Bits, Padded;
    if g == 0 {
      FirstAt(s, j);
    } else {
      LaterGroup(s, 4 * g + j);
      BitsLater(s, g);
      EncodedAt(s[3..], g - 1, j);
      hide Encode;
    }
  }

  lemma FirstAt(s: seq<byte>, j: nat)
    requires |s| > 0 && j < 4
    ensures |Encode(s)| >= 4 && Encode(s)[j] == if j > |s| then 61 else Letter(SixBits(Bits(s, 0), j))
  {
    hide Letter, SixBits, Padded;
    FirstGroup(s);
    QuadAt(At(s, 0), At(s, 1), At(s, 2), if |s| == 1 then 2 else if |s| == 2 then 1 else 0, j);
    hide Encode;
    assert Encode(s)[j] == Encode(s)[..4][j];
  }

  lemma BitsLater(s: seq<byte>, g: nat)
    requires g > 0 && |s| > 3
    ensures Bits(s, g) == Bits(s[3..], g - 1)
  {
    assert At(s, 3 * g) == At(s[3..], 3 * g - 3);
    assert At(s, 3 * g + 1) == At(s[3..], 3 * g - 2);
    assert At(s, 3 * g + 2) == At(s[3..], 3 * g - 1);
  }

  lemma FirstGroup(s: seq<byte>)
    requires |s| > 0
    ensures |Encode(s)| >= 4
    ensures Encode(s)[..4] == Padded(At(s, 0), At(s, 1), At(s, 2), if |s| == 1 then 2 else if |s| == 2 then 1 else 0)
  {
  }

  lemma LaterGroup(s: seq<byte>, k: nat)
    requires 4 <= k < |Encode(s)|
    ensures |s| > 3 && k - 4 < |Encode(s[3..])| && Encode(s)[k] == Encode(s[3..])[k - 4]
  {
    hide EncodeTable, Padded;
  }

  lemma QuadAt(b0: byte, b1: byte, b2: byte, pad: nat, j: nat)
    requires pad <= 2 && j < 4
    ensures Padded(b0, b1, b2, pad)[j] ==
            if j >= 4 - pad then 61 else Letter(SixBits(b0 as int * 65536 + b1 as int * 256 + b2, j))
  {
    TripleBits(b0, b1, b2);
    ghost var t := b0 as int * 65536 + b1 as int * 256 + b2;
    TopBits(t);
    var v := Sextets(b0, b1, b2);
    hide Sextets;
    assert v[j] == SixBits(t, j);
    LetterOf(v[j]);
    hide EncodeTable, Letter, SixBits;
  }

  lemma TopBits(t: int)
    requires 0 <= t < 0x100_0000
    ensures t / 262144 % 64 == t / 262144
  {
  }

  lemma LetterOf(v: sextet)
    ensures EncodeTable(v) == Letter(v)
  {
  }

  /** Bytes that are no letters of the alphabet, wherever they stand, change nothing in what is decoded. */
  lemma ForeignIsSkipped(a: seq<byte>, c: byte, b: seq<byte>)
    requires !(65 <= c <= 90 || 97 <= c <= 122 || 48 <= c <= 57 || c == 43 || c == 47)
    ensures Decode(a + [c] + b) == Decode(a + b)
  {
    ValuesConcat(a + [c], b);
    ValuesConcat(a, [c]);
    ValuesConcat(a, b);
    assert Values([c]) == [] by { assert [c][1..] == []; }
    assert Values(a) + [] == Values(a);
  }

  /** The decoder's output fits the buffer its callers allocate. */
  lemma DecodeSize(s: seq<byte>)
    ensures |Decode(s)| <= (|s| + 3) / 4 * 3 == DecodedSize(|s|)
  {
    hide Values, Pack;
    PackSize(Values(s));
    ValuesSize(s);
  }

  lemma {:induction false} PackSize(v: seq<sextet>)
    ensures 4 * |Pack(v)| <= 3 * |v|
  {
    hide Byte0, Byte1, Byte2;
    if |v| >= 4 {
      PackSize(v[4..]);
    }
  }

  lemma {:induction false} ValuesSize(s: seq<byte>)
    ensures |Values(s)| <= |s|
  {
    hide DecodeTable;
    if |s| > 0 {
      ValuesSize(s[1..]);
    }
  }

  // ---------------------------------------------------------------- the encoder

  /** Four stores from the right: the characters of a 24-bit group, `pad` of them replaced by `=`. */
  method StoreQuad(out: array<byte>, end: nat, b0: byte, b1: byte, b2: byte, pad: nat) returns (o: nat)
    requires 4 <= end <= out.Length && pad <= 2
    modifies out
    ensures o == end - 4
    ensures out[..] == Splice(old(out[..]), o, Padded(b0, b1, b2, pad))
  {
    hide EncodeTable, Splice, Sextets;
    var triple := b0 as int * 0x1_0000 + b1 as int * 0x100 + b2;
    TripleBits(b0, b1, b2);
    ghost var before := out[..];
    o := end;
    o := o - 1; out[o] := if pad > 0 then PAD else EncodeTable(triple % 0x40);
    o := o - 1; out[o] := if pad > 1 then PAD else EncodeTable(triple / 0x40 % 0x40);
    o := o - 1; out[o] := EncodeTable(triple / 0x1000 % 0x40);
    o := o - 1; out[o] := EncodeTable(triple / 0x4_0000 % 0x40);
    assert out[o..end] == Padded(b0, b1, b2, pad);
    assert out[..] == before[..o] + out[o..end] + before[end..];
    StoreRange(before, out[..], o, Padded(b0, b1, b2, pad));
  }

  lemma TripleBits(b0: byte, b1: byte, b2: byte)
    ensures var t := b0 as int * 0x1_0000 + b1 as int * 0x100 + b2;
            Sextets(b0, b1, b2) == [t / 0x4_0000 % 0x40, t / 0x1000 % 0x40, t / 0x40 % 0x40, t % 0x40]
  {
    var t := b0 as int * 0x1_0000 + b1 as int * 0x100 + b2;
    var h, m, l := b0 / 4, b1 / 16, b2 / 64;
    var s1, s2: int := b0 % 4 * 16 + m, b1 % 16 * 4 + l;
    SextetAt(t, 0x4_0000, 0, h, b0 % 4 * 0x1_0000 + b1 as int * 0x100 + b2);
    SextetAt(t, 0x1000, h, s1, b1 % 16 * 0x100 + b2);
    SextetAt(t, 0x40, h as int * 0x40 + s1, s2, b2 % 64);
    SextetAt(t, 1, h as int * 0x1000 + s1 * 0x40 + s2, b2 % 64, 0);
  }

  lemma SextetAt(t: int, d: int, q: int, v: int, r: int)
    requires d > 0 && t == (q * 0x40 + v) * d + r && 0 <= v < 0x40 && 0 <= r < d
    ensures t / d % 0x40 == v
  {
    DivIs(t, d, q * 0x40 + v, r);
    DivIs(q * 0x40 + v, 0x40, q, v);
  }

  /** Where the encoder stands: `g` groups are unread, and `done` is the text of the bytes after them. */
  ghost predicate Encoding(s: seq<byte>, g: nat, done: seq<byte>)
  {
    3 * g <= |s| && done == Encode(s[3 * g..])
  }

  lemma EncodingStep(s: seq<byte>, g: nat, done: seq<byte>) returns (text: seq<byte>)
    requires Encoding(s, g, done) && g > 0
    ensures 3 * g <= |s| && |text| == 4
    ensures text == Padded(s[3 * g - 3], s[3 * g - 2], s[3 * g - 1], 0)
    ensures Encoding(s, g - 1, text + done)
  {
    hide Padded, EncodedSize;
    text := Padded(s[3 * g - 3], s[3 * g - 2], s[3 * g - 1], 0);
    assert s[3 * (g - 1)..][3..] == s[3 * g..];
  }

  /** The first step: a last group of one or two bytes, if there is one. */
  lemma EncodingStarts(s: seq<byte>) returns (g: nat)
    ensures |s| - |s| % 3 == 3 * g
    ensures Encoding(s, g, LastGroup(s[3 * g..]))
  {
    hide Padded;
    g := |s| / 3;
    DivIs(|s| + 2, 3, if |s| == 3 * g then g else g + 1, if |s| == 3 * g then 2 else |s| - 3 * g - 1);
  }

  lemma EncodingEnds(s: seq<byte>, done: seq<byte>)
    requires Encoding(s, 0, done)
    ensures done == Encode(s)
  {
    assert s[0..] == s;
  }

  /**
   Before `g` unread groups, which end at position `3 * g`, the text that is done begins at position `4 * g` of the
   output: the write pointer is not left of the read pointer, and takes four characters for each group still to come.
   */
  lemma EncodingSize(s: seq<byte>, g: nat, done: seq<byte>)
    requires Encoding(s, g, done)
    ensures 3 * g <= 4 * g == EncodedSize(|s|) - |done|
  {
    hide Encode;
    var rest := |s| - 3 * g;
    DivIs(|s| + 2, 3, g + (rest + 2) / 3, (rest + 2) % 3);
  }

  /** The last group, when it is not whole: one or two bytes, padded. */
  method EncodeLast(out: array<byte>, inp: array<byte>, len: nat, end: nat) returns (i: nat, o: nat)
    requires len <= inp.Length && 4 <= end <= out.Length && len % 3 > 0
    modifies out
    ensures i == len - len % 3 && o == end - 4
    ensures out[..] == Splice(old(out[..]), o, LastGroup(old(inp[i..len])))
  {
    hide Padded, Splice;
    i := len;
    var byte1 := 0;
    if len % 3 > 1 {
      i := i - 1;
      byte1 := inp[i];
    }
    i := i - 1;
    var byte0 := inp[i];
    assert inp[i..len] == if len % 3 > 1 then [byte0, byte1] else [byte0];
    o := StoreQuad(out, end, byte0, byte1, 0, 3 - len % 3);
  }

  /** One turn of the encoder's loop: three bytes read, four characters stored, both leftwards. */
  method EncodeTurn(out: array<byte>, inp: array<byte>, right: nat, end: nat, ghost text: seq<byte>)
    returns (i: nat, o: nat)
    requires 3 <= right <= inp.Length && 4 <= end <= out.Length
    requires text == Padded(inp[right - 3], inp[right - 2], inp[right - 1], 0)
    modifies out
    ensures i == right - 3 && o == end - 4
    ensures out[..] == Splice(old(out[..]), o, text)
  {
    hide Padded, Splice;
    i := right;
    i := i - 1; var byte2 := inp[i];
    i := i - 1; var byte1 := inp[i];
    i := i - 1; var byte0 := inp[i];
    o := StoreQuad(out, end, byte0, byte1, byte2, 0);
  }

  /** `rbpg_base64_encode`. Input and output may be the same buffer. */
  method EncodeBuffer(out: array<byte>, inp: array<byte>, len: nat)
    requires len <= inp.Length && EncodedSize(len) <= out.Length
    modifies out
    ensures out[..] == Splice(old(out[..]), 0, Encode(old(inp[..len])))
  {
    hide Encoding, Encode, EncodedSize, Padded, Splice, LastGroup;
    ghost var s, before := inp[..len], out[..];
    var size := EncodedSize(len);
    var i, o := len, size;
    ghost var g := EncodingStarts(s);
    ghost var done: seq<byte> := LastGroup(s[3 * g..]);
    EncodingSize(s, g, done);

    if len % 3 > 0 {
      assert inp[3 * g..len] == s[3 * g..];
      i, o := EncodeLast(out, inp, len, o);
    } else {
      SpliceNothing(before, size);
    }
    assert out[..] == Splice(before, o, done);

    while o > 0
      invariant i == 3 * g && o == 4 * g && i <= |s| && o + |done| == size <= out.Length == |before|
      invariant out[..] == Splice(before, o, done)
      invariant Encoding(s, g, done)
    {
      Unread(before, o, done, out[..]);
      assert inp[i - 3] == s[i - 3] && inp[i - 2] == s[i - 2] && inp[i - 1] == s[i - 1];
      ghost var text := EncodingStep(s, g, done);
      SpliceLeft(before, o, done, text);
      i, o := EncodeTurn(out, inp, i, o, text);
      g, done := g - 1, text + done;
      EncodingSize(s, g, done);
    }
    EncodingEnds(s, done);
    assert out[..] == Splice(before, 0, Encode(s));
  }

  /** Bytes left of the write pointer are still those of the start. */
  lemma Unread(before: seq<byte>, o: nat, done: seq<byte>, now: seq<byte>)
    requires o + |done| <= |before| && now == Splice(before, o, done)
    ensures |now| == |before| && forall k :: 0 <= k < o ==> now[k] == before[k]
  {
  }

  // ---------------------------------------------------------------- the decoder

  /** One of the decoder's skipping loops: the next alphabet character, or the end of the text. */
  method NextValue(inp: array<byte>, i: nat, len: nat) returns (v: byte, next: nat)
    requires i < len <= inp.Length
    ensures i < next <= len
    ensures IsValue(v)
    ensures v == FOREIGN ==> next == len
    ensures Values(inp[i..len]) == Present(v) + Values(inp[next..len])
  {
    hide DecodeTable, Values;
    v, next := DecodeTable(inp[i]), i + 1;
    assert inp[i..len][1..] == inp[i + 1..len];
    ValuesStep(inp[i..len]);
    while v == FOREIGN && next < len
      invariant i < next <= len && IsValue(v)
      invariant Values(inp[i..len]) == Present(v) + Values(inp[next..len])
    {
      assert inp[next..len][1..] == inp[next + 1..len];
      ValuesStep(inp[next..len]);
      v, next := DecodeTable(inp[next]), next + 1;
    }
  }

  /** Four adjacent alphabet characters are the next four values. */
  lemma ValuesOfFour(s: seq<byte>)
    requires |s| >= 4
    requires DecodeTable(s[0]) != FOREIGN && DecodeTable(s[1]) != FOREIGN
    requires DecodeTable(s[2]) != FOREIGN && DecodeTable(s[3]) != FOREIGN
    ensures Values(s) == [DecodeTable(s[0]), DecodeTable(s[1]), DecodeTable(s[2]), DecodeTable(s[3])] + Values(s[4..])
  {
    hide Values, DecodeTable;
    var a, b, c, d, r := DecodeTable(s[0]), DecodeTable(s[1]), DecodeTable(s[2]), DecodeTable(s[3]), Values(s[4..]);
    assert Values(s) == [a, b] + Values(s[2..]) by { ValuesOfTwo(s); }
    assert Values(s[2..]) == [c, d] + r by { ValuesOfTwo(s[2..]); assert s[2..][2..] == s[4..]; }
    assert [a, b] + ([c, d] + r) == [a, b, c, d] + r;
  }

  lemma ValuesOfTwo(s: seq<byte>)
    requires |s| >= 2 && DecodeTable(s[0]) != FOREIGN && DecodeTable(s[1]) != FOREIGN
    ensures Values(s) == [DecodeTable(s[0]), DecodeTable(s[1])] + Values(s[2..])
  {
    hide DecodeTable;
    assert s[1..][1..] == s[2..];
  }

  predicate IsValue(v: byte) { v == FOREIGN || v < 64 }

  function Present(v: byte): seq<sextet>
    requires IsValue(v)
  {
    if v == FOREIGN then [] else [v]
  }

  /** Values read by the slow path: the foreign marks are at the end. */
  predicate IsGroup(a: byte, b: byte, c: byte, d: byte) {
    && IsValue(a) && IsValue(b) && IsValue(c) && IsValue(d)
    && (a == FOREIGN ==> b == FOREIGN) && (b == FOREIGN ==> c == FOREIGN) && (c == FOREIGN ==> d == FOREIGN)
  }

  function Group(a: byte, b: byte, c: byte, d: byte): seq<sextet>
    requires IsGroup(a, b, c, d)
  {
    Present(a) + Present(b) + Present(c) + Present(d)
  }

  /** The bytes of a group of one to four values. */
  function GroupBytes(a: byte, b: byte, c: byte, d: byte): (r: seq<byte>)
    requires IsGroup(a, b, c, d)
    ensures |r| <= |Group(a, b, c, d)| && 4 * |r| <= 3 * |Group(a, b, c, d)|
  {
    if b == FOREIGN then []
    else if c == FOREIGN then [Byte0(a, b)]
    else if d == FOREIGN then [Byte0(a, b), Byte1(b, c)]
    else [Byte0(a, b), Byte1(b, c), Byte2(c, d)]
  }

  /** `(a << 2) | (b >> 4)`, `(b << 4) | (c >> 2)` and `(c << 6) | d`, cut to a byte, join disjoint bits. */
  lemma ShiftedBits(x: sextet, y: sextet)
    ensures x * 4 % 256 + y / 16 == Byte0(x, y)
    ensures x * 16 % 256 + y / 4 == Byte1(x, y)
    ensures x * 64 % 256 + y == Byte2(x, y)
  {
    DivIs(x * 16, 256, x / 16, x % 16 * 16);
    DivIs(x * 64, 256, x / 4, x % 4 * 64);
  }

  /** The output statements of the decoder. */
  method StoreGroup(out: array<byte>, o: nat, a: byte, b: byte, c: byte, d: byte) returns (end: nat)
    requires IsGroup(a, b, c, d)
    requires o + |GroupBytes(a, b, c, d)| <= out.Length
    modifies out
    ensures end == o + |GroupBytes(a, b, c, d)|
    ensures out[..] == Splice(old(out[..]), o, GroupBytes(a, b, c, d))
  {
    hide Byte0, Byte1, Byte2, Splice;
    ghost var before := out[..];
    ghost var done: seq<byte> := [];
    SpliceNothing(before, o);
    end := o;
    if a != FOREIGN && b != FOREIGN {
      ShiftedBits(a, b);
      StoreNext(before, out[..], o, done, Byte0(a, b));
      out[end] := a as int * 4 % 256 + b / 16;
      end := end + 1;
      done := done + [Byte0(a, b)];
      if c != FOREIGN {
        ShiftedBits(b, c);
        StoreNext(before, out[..], o, done, Byte1(b, c));
        out[end] := b as int * 16 % 256 + c / 4;
        end := end + 1;
        done := done + [Byte1(b, c)];
        if d != FOREIGN {
          ShiftedBits(c, d);
          StoreNext(before, out[..], o, done, Byte2(c, d));
          out[end] := c as int * 64 % 256 + d;
          end := end + 1;
          done := done + [Byte2(c, d)];
        }
      }
    }
    assert done == GroupBytes(a, b, c, d);
  }

  lemma PackRest(a: byte, b: byte, c: byte, d: byte, v: seq<sextet>)
    requires IsGroup(a, b, c, d)
    requires d == FOREIGN ==> v == []
    ensures Pack(Group(a, b, c, d) + v) == GroupBytes(a, b, c, d) + Pack(v)
  {
    hide Byte0, Byte1, Byte2;
    if d != FOREIGN {
      PackGroup(a, b, c, d, v);
      assert Group(a, b, c, d) == [a, b, c, d];
    } else if c != FOREIGN {
      assert Group(a, b, c, d) + v == [a, b, c];
    } else if b != FOREIGN {
      assert Group(a, b, c, d) + v == [a, b];
    }
  }

  /** The next one to four values of a text, foreign characters skipped. */
  method NextGroup(inp: array<byte>, start: nat, len: nat) returns (a: byte, b: byte, c: byte, d: byte, i: nat)
    requires start < len <= inp.Length
    ensures IsGroup(a, b, c, d) && start < i <= len && start + |Group(a, b, c, d)| <= i
    ensures d == FOREIGN ==> i == len
    ensures Values(inp[start..len]) == Group(a, b, c, d) + Values(inp[i..len])
  {
    hide Values;
    i := start;
    b, c, d := FOREIGN, FOREIGN, FOREIGN;
    a, i := NextValue(inp, i, len);
    ghost var v := Values(inp[start..len]);
    assert v == Group(a, b, c, d) + Values(inp[i..len]);
    if i < len {
      b, i := NextValue(inp, i, len);
      assert v == Group(a, b, c, d) + Values(inp[i..len]);
    }
    if i < len {
      c, i := NextValue(inp, i, len);
      assert v == Group(a, b, c, d) + Values(inp[i..len]);
    }
    if i < len {
      d, i := NextValue(inp, i, len);
      assert v == Group(a, b, c, d) + Values(inp[i..len]);
    }
  }

  /** Where the decoder stands after `i` characters: the bytes written, the rest of the text unread. */
  ghost predicate Decoding(s: seq<byte>, i: nat, done: seq<byte>)
  {
    i <= |s| && Decode(s) == done + Decode(s[i..])
  }

  /** The write pointer never passes the read pointer, and stays in front of where the whole text will end. */
  lemma DecodingFits(s: seq<byte>, i: nat, done: seq<byte>)
    requires Decoding(s, i, done)
    ensures |done| <= i && |done| <= |Decode(s)| <= DecodedSize(|s|)
  {
    hide Values, Pack;
    DecodeSize(s);
    ValuesSize(s[..i]);
    ValuesConcat(s[..i], s[i..]);
    assert s[..i] + s[i..] == s;
    PackLength(Values(s));
    PackLength(Values(s[i..]));
    PackedSlope(|Values(s[i..])|, |Values(s)|);
  }

  /** The number of bytes that `n` values make. */
  function PackedSize(n: nat): nat {
    n / 4 * 3 + (if n % 4 == 0 then 0 else n % 4 - 1)
  }

  lemma {:induction false} PackLength(v: seq<sextet>)
    ensures |Pack(v)| == PackedSize(|v|)
  {
    hide Byte0, Byte1, Byte2;
    if |v| >= 4 {
      PackLength(v[4..]);
      DivIs(|v|, 4, (|v| - 4) / 4 + 1, (|v| - 4) % 4);
    } else {
      DivIs(|v|, 4, 0, |v|);
    }
  }

  /** Each value adds one byte at most. */
  lemma {:induction false} PackedSlope(m: nat, n: nat)
    requires m <= n
    ensures PackedSize(n) <= PackedSize(m) + (n - m)
  {
    if m < n {
      PackedSlope(m, n - 1);
      var q, r := (n - 1) / 4, (n - 1) % 4;
      if r == 3 {
        DivIs(n, 4, q + 1, 0);
      } else {
        DivIs(n, 4, q, r + 1);
      }
    }
  }

  lemma DecodingEnds(s: seq<byte>, done: seq<byte>)
    requires Decoding(s, |s|, done)
    ensures done == Decode(s)
  {
    assert s[|s|..] == [];
  }

  lemma DecodingStarts(s: seq<byte>)
    ensures Decoding(s, 0, [])
  {
    assert s[0..] == s;
  }

  /** One turn of the decoder's loop, on the values it read. */
  lemma DecodingStep(s: seq<byte>, i: nat, done: seq<byte>, a: byte, b: byte, c: byte, d: byte, next: nat)
    requires Decoding(s, i, done) && i < |s|
    requires IsGroup(a, b, c, d) && i + |Group(a, b, c, d)| <= next <= |s| && i < next
    requires d == FOREIGN ==> next == |s|
    requires Values(s[i..]) == Group(a, b, c, d) + Values(s[next..])
    ensures Decoding(s, next, done + GroupBytes(a, b, c, d))
  {
    hide Values, Pack, Group, GroupBytes, IsGroup;
    var bytes := GroupBytes(a, b, c, d);
    NoValues();
    assert d == FOREIGN ==> s[next..] == [];
    PackRest(a, b, c, d, Values(s[next..]));
    assert done + (bytes + Decode(s[next..])) == (done + bytes) + Decode(s[next..]);
  }

  lemma FullGroup(a: byte, b: byte, c: byte, d: byte)
    requires a < 64 && b < 64 && c < 64 && d < 64
    ensures IsGroup(a, b, c, d) && Group(a, b, c, d) == [a, b, c, d]
  {
  }

  /** `rbpg_base64_decode`. Input and output may be the same buffer; returns the number of bytes written. */
  method DecodeBuffer(out: array<byte>, inp: array<byte>, len: nat) returns (n: nat)
    requires len <= inp.Length && |Decode(inp[..len])| <= out.Length
    modifies out
    ensures n == |Decode(old(inp[..len]))| <= DecodedSize(len)
    ensures out[..] == Splice(old(out[..]), 0, Decode(old(inp[..len])))
  {
    hide Decoding, Decode, Values, Pack, DecodedSize, DecodeTable, GroupBytes, IsGroup, Group, Splice;
    ghost var s, before := inp[..len], out[..];
    DecodingStarts(s);
    SpliceNothing(before, 0);
    ghost var done: seq<byte> := [];
    var i, o := 0, 0;
    while i < len
      invariant 0 <= i <= len && o == |done| <= i && o <= out.Length == |before|
      invariant out[..] == Splice(before, 0, done)
      invariant Decoding(s, i, done)
    {
      assert inp[i..len] == s[i..] by { Unwritten(before, done, out[..]); }
      ghost var i0 := i;
      var a, b, c, d;
      if i + 3 < len &&
         DecodeTable(inp[i]) != FOREIGN && DecodeTable(inp[i + 1]) != FOREIGN &&
         DecodeTable(inp[i + 2]) != FOREIGN && DecodeTable(inp[i + 3]) != FOREIGN {
        a, b, c, d := DecodeTable(inp[i]), DecodeTable(inp[i + 1]), DecodeTable(inp[i + 2]), DecodeTable(inp[i + 3]);
        ValuesOfFour(inp[i..len]);
        FullGroup(a, b, c, d);
        assert inp[i..len][4..] == inp[i + 4..len];
        i := i + 4;
      } else {
        a, b, c, d, i := NextGroup(inp, i, len);
      }
      assert inp[i..len] == s[i..] by { Unwritten(before, done, out[..]); }
      DecodingStep(s, i0, done, a, b, c, d, i);
      DecodingFits(s, i, done + GroupBytes(a, b, c, d));
      o := StoreGroup(out, o, a, b, c, d);
      SpliceRight(before, 0, done, GroupBytes(a, b, c, d));
      done := done + GroupBytes(a, b, c, d);
    }
    n := o;
    DecodingEnds(s, done);
    DecodingFits(s, i, done);
  }

  /** Bytes right of the write pointer are still those of the start. */
  lemma Unwritten(before: seq<byte>, done: seq<byte>, now: seq<byte>)
    requires |done| <= |before| && now == Splice(before, 0, done)
    ensures |now| == |before| && forall k :: |done| <= k < |before| ==> now[k] == before[k]
  {
  }
}
