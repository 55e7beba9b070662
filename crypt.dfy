/**
 * The crypto helpers of utils/crypt.py. The AES block transformation and
 * the MD5 compression function are foreign library code (pycryptodome,
 * hashlib): they enter as function parameters. The modes of operation
 * (ECB, CBC), PKCS#7 unpadding (section 6.3 of RFC 5652), Base64 (section 4
 * of RFC 4648) and the key/IV checks are modelled in full.
 */
module Crypt {
  import opened Wrappers
  import opened Text

  /** AES's block size, `AES.block_size`. */
  const BlockSize: nat := 16

  type Block = s: seq<byte> | |s| == 16 witness seq(16, _ => 0)

  /** One AES block decryption (or encryption) under a key of any length. */
  type BlockCipher = (seq<byte>, Block) -> Block

  /** A 16-byte MD5 digest of a byte string. */
  type Digest = s: seq<byte> | |s| == 16 witness seq(16, _ => 0)

  /** The `ValueError`s (and `binascii.Error`, a subclass) the helpers raise. */
  datatype CryptoError =
    | KeyLengthError        // key is not 16, 24 or 32 bytes
    | IvLengthError         // IV is missing or not 16 bytes
    | Base64Error           // `base64.b64decode` rejected the text
    | NotAlignedError       // ciphertext length is not a multiple of 16
    | ZeroLengthError       // `unpad` of empty data
    | NotPaddedError        // `unpad` of data whose length is not a multiple of 16
    | PaddingIncorrectError // last byte is 0 or larger than the block
    | Pkcs7IncorrectError   // padding bytes differ from the pad length

  predicate ValidKeyLength(key: seq<byte>) {
    |key| == 16 || |key| == 24 || |key| == 32
  }

  // ---------------------------------------------------------------------
  // PKCS#7
  // ---------------------------------------------------------------------

  /** `n` copies of the byte `n`. */
  function PadBytes(n: nat): (r: seq<byte>)
    requires n < 256
    ensures |r| == n && forall i :: 0 <= i < n ==> r[i] == n
  {
    seq(n, _ => n as byte)
  }

  /** `Crypto.Util.Padding.unpad(data, 16)` in its PKCS#7 style. */
  function Unpad(data: seq<byte>): (r: Result<seq<byte>, CryptoError>)
    ensures r.Ok? ==> 1 <= |data| - |r.value| <= BlockSize
    ensures r.Ok? ==> data == r.value + PadBytes(|data| - |r.value|)
    ensures |data| % BlockSize != 0 ==> r.Err?
  {
    if |data| == 0 then Err(ZeroLengthError)
    else if |data| % BlockSize != 0 then Err(NotPaddedError)
    else
      var n := data[|data| - 1];
      if n < 1 || n > BlockSize then Err(PaddingIncorrectError)
      else if data[|data| - n..] != PadBytes(n) then Err(Pkcs7IncorrectError)
      else
        assert data == data[..|data| - n] + data[|data| - n..];
        Ok(data[..|data| - n])
  }

  /** PKCS#7 padding to a multiple of 16, the inverse partner of `Unpad`. */
  function Pad(data: seq<byte>): (r: seq<byte>)
    ensures |r| % BlockSize == 0 && |data| < |r| <= |data| + BlockSize
  {
    data + PadBytes(BlockSize - |data| % BlockSize)
  }

  /** Unpadding recovers exactly what was padded. */
  lemma PadUnpad(data: seq<byte>)
    ensures Unpad(Pad(data)) == Ok(data)
  {
    var p := Pad(data);
    var n := BlockSize - |data| % BlockSize;
    assert p[|p| - 1] == n;
    assert p[|p| - n..] == PadBytes(n);
    assert p[..|p| - n] == data;
  }

  /** Every successfully unpadded buffer was the padding of the result. */
  lemma UnpadPad(data: seq<byte>)
    requires Unpad(data).Ok?
    ensures Pad(Unpad(data).value) == data
  {
    var r := Unpad(data).value;
    var n := |data| - |r|;
    assert |data| % BlockSize == 0;
    assert (|r| + n) % BlockSize == 0;
    assert BlockSize - |r| % BlockSize == n;
  }

  // ---------------------------------------------------------------------
  // Modes of operation over an abstract block cipher
  // ---------------------------------------------------------------------

  /** ECB: every block deciphered on its own. */
  function EcbDecrypt(dec: BlockCipher, key: seq<byte>, c: seq<byte>): (r: seq<byte>)
    requires |c| % BlockSize == 0
    ensures |r| == |c|
    decreases |c|
  {
    if c == [] then [] else dec(key, c[..16]) + EcbDecrypt(dec, key, c[16..])
  }

  /** ECB deciphers block `k` of the ciphertext into block `k` of the output. */
  lemma {:induction false} EcbBlock(dec: BlockCipher, key: seq<byte>, c: seq<byte>, k: nat)
    requires |c| % BlockSize == 0 && 16 * k + 16 <= |c|
    ensures EcbDecrypt(dec, key, c)[16 * k..16 * k + 16] == dec(key, c[16 * k..16 * k + 16])
    decreases k
  {
    var r := EcbDecrypt(dec, key, c);
    if k > 0 {
      EcbBlock(dec, key, c[16..], k - 1);
      assert r[16..] == EcbDecrypt(dec, key, c[16..]);
      assert r[16 * k..16 * k + 16] == r[16..][16 * (k - 1)..16 * (k - 1) + 16];
      assert c[16 * k..16 * k + 16] == c[16..][16 * (k - 1)..16 * (k - 1) + 16];
    }
  }

  /** ECB encryption, the partner of `EcbDecrypt`. */
  function EcbEncrypt(enc: BlockCipher, key: seq<byte>, p: seq<byte>): (r: seq<byte>)
    requires |p| % BlockSize == 0
    ensures |r| == |p|
    decreases |p|
  {
    if p == [] then [] else enc(key, p[..16]) + EcbEncrypt(enc, key, p[16..])
  }

  /** With a block decryption that inverts the block encryption, ECB decryption
      inverts ECB encryption. */
  lemma {:induction false} EcbRoundTrip(enc: BlockCipher, dec: BlockCipher, key: seq<byte>, p: seq<byte>)
    requires forall b: Block :: dec(key, enc(key, b)) == b
    requires |p| % BlockSize == 0
    ensures EcbDecrypt(dec, key, EcbEncrypt(enc, key, p)) == p
    decreases |p|
  {
    if p != [] {
      var c := EcbEncrypt(enc, key, p);
      assert c[..16] == enc(key, p[..16]) && c[16..] == EcbEncrypt(enc, key, p[16..]);
      EcbRoundTrip(enc, dec, key, p[16..]);
      assert p == p[..16] + p[16..];
    }
  }

  function Pow2(n: nat): (r: nat)
    ensures r >= 1
  {
    if n == 0 then 1 else 2 * Pow2(n - 1)
  }

  /** Powers of two multiply by adding exponents; a byte is below `Pow2(8)`. */
  lemma {:induction false} Pow2Add(a: nat, b: nat)
    ensures Pow2(a + b) == Pow2(a) * Pow2(b)
    ensures Pow2(8) == 256
    decreases a
  {
    if a > 0 {
      Pow2Add(a - 1, b);
      assert Pow2(a + b) == 2 * Pow2(a - 1 + b);
    }
  }

  /** Bit `k` of `x`, counting from the least significant. */
  function Bit(x: nat, k: nat): (r: nat)
    ensures r < 2
    decreases k
  {
    if k == 0 then x % 2 else Bit(x / 2, k - 1)
  }

  /** Exclusive or of the low `n` bits of `x` and `y`, bit by bit. */
  function XorBits(x: nat, y: nat, n: nat): (r: nat)
    ensures r < Pow2(n)
    decreases n
  {
    if n == 0 then 0 else (x % 2 + y % 2) % 2 + 2 * XorBits(x / 2, y / 2, n - 1)
  }

  /** The low bit and the rest of `b + 2 * w` for a bit `b`. */
  lemma SplitLowBit(b: nat, w: nat)
    requires b < 2
    ensures (b + 2 * w) % 2 == b && (b + 2 * w) / 2 == w
  {
  }

  /** Each of the low `n` bits of `XorBits(x, y, n)` is the exclusive or of
      the bits of `x` and `y` at that place, and the bits above are clear. */
  lemma {:induction false} XorBitsBit(x: nat, y: nat, n: nat, k: nat)
    ensures k < n ==> Bit(XorBits(x, y, n), k) == (Bit(x, k) + Bit(y, k)) % 2
    ensures k >= n ==> Bit(XorBits(x, y, n), k) == 0
    decreases n
  {
    var z := XorBits(x, y, n);
    if n == 0 {
      ZeroBit(k);
    } else {
      var b := (x % 2 + y % 2) % 2;
      var w := XorBits(x / 2, y / 2, n - 1);
      SplitLowBit(b, w);
      if k > 0 {
        XorBitsBit(x / 2, y / 2, n - 1, k - 1);
      }
    }
  }

  lemma {:induction false} ZeroBit(k: nat)
    ensures Bit(0, k) == 0
    decreases k
  {
    if k > 0 {
      ZeroBit(k - 1);
    }
  }

  /** Exclusive or with the same value twice is the identity. */
  lemma {:induction false} XorBitsCancel(x: nat, y: nat, n: nat)
    requires x < Pow2(n)
    ensures XorBits(XorBits(x, y, n), y, n) == x
    decreases n
  {
    if n > 0 {
      var b := (x % 2 + y % 2) % 2;
      var w := XorBits(x / 2, y / 2, n - 1);
      var z := XorBits(x, y, n);
      assert z % 2 == b && z / 2 == w by {
        SplitLowBit(b, w);
      }
      assert XorBits(w, y / 2, n - 1) == x / 2 by {
        XorBitsCancel(x / 2, y / 2, n - 1);
      }
      assert (b + y % 2) % 2 == x % 2;
      calc {
        XorBits(z, y, n);
        (z % 2 + y % 2) % 2 + 2 * XorBits(z / 2, y / 2, n - 1);
        x % 2 + 2 * (x / 2);
        x;
      }
    }
  }

  function XorByte(x: byte, y: byte): byte {
    XorBits(x, y, 8)
  }

  /** Byte-wise exclusive or of two blocks. */
  function XorBlock(a: Block, b: Block): (r: Block)
    ensures forall i :: 0 <= i < 16 ==> r[i] == XorByte(a[i], b[i])
  {
    seq(16, i requires 0 <= i < 16 => XorByte(a[i], b[i]))
  }

  lemma XorCancel(a: Block, b: Block)
    ensures XorBlock(XorBlock(a, b), b) == a
  {
    var r := XorBlock(XorBlock(a, b), b);
    forall i | 0 <= i < 16 ensures r[i] == a[i] {
      XorBitsCancel(a[i], b[i], 8);
    }
  }

  /** CBC: P[i] = D(C[i]) xor C[i-1], with C[-1] the IV. */
  function CbcDecrypt(dec: BlockCipher, key: seq<byte>, iv: Block, c: seq<byte>): (r: seq<byte>)
    requires |c| % BlockSize == 0
    ensures |r| == |c|
    decreases |c|
  {
    if c == [] then [] else XorBlock(dec(key, c[..16]), iv) + CbcDecrypt(dec, key, c[..16], c[16..])
  }

  /** CBC encryption, the partner of `CbcDecrypt`: C[i] = E(P[i] xor C[i-1]). */
  function CbcEncrypt(enc: BlockCipher, key: seq<byte>, iv: Block, p: seq<byte>): (r: seq<byte>)
    requires |p| % BlockSize == 0
    ensures |r| == |p|
    decreases |p|
  {
    if p == [] then []
    else
      var c0 := enc(key, XorBlock(p[..16], iv));
      c0 + CbcEncrypt(enc, key, c0, p[16..])
  }

  /** With a block decryption that inverts the block encryption, CBC decryption
      inverts CBC encryption under the same key and IV. */
  lemma {:induction false} CbcRoundTrip(enc: BlockCipher, dec: BlockCipher, key: seq<byte>, iv: Block, p: seq<byte>)
    requires forall b: Block :: dec(key, enc(key, b)) == b
    requires |p| % BlockSize == 0
    ensures CbcDecrypt(dec, key, iv, CbcEncrypt(enc, key, iv, p)) == p
    decreases |p|
  {
    if p != [] {
      var c := CbcEncrypt(enc, key, iv, p);
      var c0 := enc(key, XorBlock(p[..16], iv));
      assert c[..16] == c0 && c[16..] == CbcEncrypt(enc, key, c0, p[16..]);
      XorCancel(p[..16], iv);
      CbcRoundTrip(enc, dec, key, c0, p[16..]);
      assert p == p[..16] + p[16..];
    }
  }

  // ---------------------------------------------------------------------
  // Base64, section 4 of RFC 4648
  // ---------------------------------------------------------------------

  /** The character for a 6-bit value: `A`-`Z`, `a`-`z`, `0`-`9`, `+`, `/`. */
  function B64Char(v: nat): (c: char)
    requires v < 64
    ensures c != '='
  {
    if v < 26 then (('A' as int) + v) as char
    else if v < 52 then (('a' as int) + v - 26) as char
    else if v < 62 then (('0' as int) + v - 52) as char
    else if v == 62 then '+'
    else '/'
  }

  /** The 6-bit value of an alphabet character; `None` for any other character. */
  function B64Value(c: char): (r: Option<nat>)
    ensures r.Some? ==> r.value < 64 && B64Char(r.value) == c && (c as int) < 128
    ensures c == '=' ==> r.None?
  {
    if 'A' <= c <= 'Z' then Some((c as int) - ('A' as int))
    else if 'a' <= c <= 'z' then Some((c as int) - ('a' as int) + 26)
    else if '0' <= c <= '9' then Some((c as int) - ('0' as int) + 52)
    else if c == '+' then Some(62)
    else if c == '/' then Some(63)
    else None
  }

  lemma B64ValueOfChar(v: nat)
    requires v < 64
    ensures B64Value(B64Char(v)) == Some(v)
  {
  }

  /** The four characters that encode three bytes. */
  function Group(b0: byte, b1: byte, b2: byte): (g: string)
    ensures |g| == 4
  {
    [B64Char(b0 / 4), B64Char((b0 % 4) * 16 + b1 / 16), B64Char((b1 % 16) * 4 + b2 / 64), B64Char(b2 % 64)]
  }

  /** Python's `base64.b64encode(data).decode()`: three bytes to four
      characters, the last group padded with `=`. */
  function Base64Encode(data: seq<byte>): (r: string)
    ensures |r| == 4 * ((|data| + 2) / 3)
    decreases |data|
  {
    if |data| == 0 then []
    else if |data| == 1 then
      [B64Char(data[0] / 4), B64Char((data[0] % 4) * 16), '=', '=']
    else if |data| == 2 then
      [B64Char(data[0] / 4), B64Char((data[0] % 4) * 16 + data[1] / 16), B64Char((data[1] % 16) * 4), '=']
    else
      Group(data[0], data[1], data[2])
      + (assert (|data| + 2) / 3 == (|data[3..]| + 2) / 3 + 1; Base64Encode(data[3..]))
  }

  /** The byte a data character of value `v` completes at quad position `q`
      (none at position 0), from the bits `left` of the characters before. */
  function Emit(q: nat, left: nat, v: nat): (r: seq<byte>)
    ensures |r| == if q == 0 then 0 else 1
  {
    if q == 0 then []
    else if q == 1 then [(left * 4 + v / 16) % 256]
    else if q == 2 then [(left * 16 + v / 4) % 256]
    else [(left * 64 + v) % 256]
  }

  /** The bits of `v` that a data character at quad position `q` leaves for
      the next byte. */
  function Keep(q: nat, v: nat): (r: nat)
    requires v < 64
    ensures r < 64
  {
    if q == 0 then v else if q == 1 then v % 16 else if q == 2 then v % 4 else 0
  }

  /** `binascii.a2b_base64` in its default, non-strict mode, continued from a
      decoder state: `q` data characters of the current quad are consumed,
      `left` holds their bits not yet written, `pads` counts the `=` seen
      since the last data character, `out` is the output so far. Characters
      outside the alphabet are skipped; an `=` that completes the quad ends
      decoding and whatever follows is ignored; text that ends inside a quad
      is an error (`None`). */
  function A2b(s: string, q: nat, left: nat, pads: nat, out: seq<byte>): (r: Option<seq<byte>>)
    requires q < 4
    ensures r.Some? ==> out <= r.value
    decreases |s|
  {
    if s == [] then
      if q == 0 then Some(out) else None
    else if s[0] == '=' then
      if q >= 2 && q + pads + 1 >= 4 then Some(out)
      else A2b(s[1..], q, left, if q >= 2 then pads + 1 else pads, out)
    else match B64Value(s[0])
      case None => A2b(s[1..], q, left, pads, out)
      case Some(v) => A2b(s[1..], if q == 3 then 0 else q + 1, Keep(q, v), 0, out + Emit(q, left, v))
  }

  /** `base64.b64decode(text)`; `None` is the `ValueError` (or its subclass
      `binascii.Error`) it raises. */
  function Base64Decode(s: string): (r: Option<seq<byte>>)
    ensures !IsAscii(s) ==> r.None?
  {
    if IsAscii(s) then A2b(s, 0, 0, 0, []) else None
  }

  /** One alphabet character advances the quad. */
  lemma A2bDigit(v: nat, rest: string, q: nat, left: nat, pads: nat, out: seq<byte>)
    requires v < 64 && q < 4
    ensures A2b([B64Char(v)] + rest, q, left, pads, out) ==
      A2b(rest, if q == 3 then 0 else q + 1, Keep(q, v), 0, out + Emit(q, left, v))
  {
    B64ValueOfChar(v);
    assert ([B64Char(v)] + rest)[1..] == rest;
  }

  /** One pad character either completes the quad and ends decoding, or is
      counted (only from the third quad position on). */
  lemma A2bPad(rest: string, q: nat, left: nat, pads: nat, out: seq<byte>)
    requires q < 4
    ensures A2b(['='] + rest, q, left, pads, out) ==
      if q >= 2 && q + pads + 1 >= 4 then Some(out)
      else A2b(rest, q, left, if q >= 2 then pads + 1 else pads, out)
  {
    assert (['='] + rest)[1..] == rest;
  }

  /** The bytes a group's four six-bit values rebuild. */
  lemma GroupBits(b0: byte, b1: byte, b2: byte)
    ensures var v0, v1, v2, v3 := b0 / 4, (b0 % 4) * 16 + b1 / 16, (b1 % 16) * 4 + b2 / 64, b2 % 64;
      Emit(1, v0, v1) == [b0] && Keep(1, v1) == b1 / 16 &&
      Emit(2, b1 / 16, v2) == [b1] && Keep(2, v2) == b2 / 64 &&
      Emit(3, b2 / 64, v3) == [b2]
  {
    var v1, v2 := (b0 % 4) * 16 + b1 / 16, (b1 % 16) * 4 + b2 / 64;
    assert v1 / 16 == b0 % 4 && v1 % 16 == b1 / 16;
    assert v2 / 4 == b1 % 16 && v2 % 4 == b2 / 64;
  }

  /** The decoder reads the four characters of a group as three bytes and
      starts a fresh quad. */
  lemma GroupDecodes(b0: byte, b1: byte, b2: byte, rest: string, left: nat, pads: nat, out: seq<byte>)
    ensures A2b(Group(b0, b1, b2) + rest, 0, left, pads, out) == A2b(rest, 0, 0, 0, out + [b0, b1, b2])
  {
    var v0, v1, v2, v3 := b0 / 4, (b0 % 4) * 16 + b1 / 16, (b1 % 16) * 4 + b2 / 64, b2 % 64;
    var s3 := [B64Char(v3)] + rest;
    var s2 := [B64Char(v2)] + s3;
    var s1 := [B64Char(v1)] + s2;
    assert Group(b0, b1, b2) + rest == [B64Char(v0)] + s1;
    var l1, l2 := Keep(1, v1), Keep(2, v2);
    var o1 := out + Emit(1, v0, v1);
    var o2 := o1 + Emit(2, l1, v2);
    A2bDigit(v0, s1, 0, left, pads, out);
    assert Keep(0, v0) == v0 && out + Emit(0, left, v0) == out;
    A2bDigit(v1, s2, 1, v0, 0, out);
    A2bDigit(v2, s3, 2, l1, 0, o1);
    A2bDigit(v3, rest, 3, l2, 0, o2);
    GroupBits(b0, b1, b2);
    assert o2 + Emit(3, l2, v3) == out + [b0, b1, b2];
  }

  /** A single byte, encoded with two pad characters, is decoded and the
      second pad ends decoding. */
  lemma DecodeOneByte(b0: byte, rest: string, left: nat, pads: nat, out: seq<byte>)
    ensures A2b(Base64Encode([b0]) + rest, 0, left, pads, out) == Some(out + [b0])
  {
    var v0, v1 := b0 / 4, (b0 % 4) * 16;
    var s3 := ['='] + rest;
    var s2 := ['='] + s3;
    var s1 := [B64Char(v1)] + s2;
    assert Base64Encode([b0]) + rest == [B64Char(v0)] + s1;
    var l1, o1 := Keep(1, v1), out + Emit(1, v0, v1);
    A2bDigit(v0, s1, 0, left, pads, out);
    assert Keep(0, v0) == v0 && out + Emit(0, left, v0) == out;
    A2bDigit(v1, s2, 1, v0, 0, out);
    A2bPad(s3, 2, l1, 0, o1);
    A2bPad(rest, 2, l1, 1, o1);
    GroupBits(b0, 0, 0);
    assert o1 == out + [b0];
  }

  /** Two bytes, encoded with one pad character, are decoded and the pad
      ends decoding. */
  lemma DecodeTwoBytes(b0: byte, b1: byte, rest: string, left: nat, pads: nat, out: seq<byte>)
    ensures A2b(Base64Encode([b0, b1]) + rest, 0, left, pads, out) == Some(out + [b0, b1])
  {
    var v0, v1, v2 := b0 / 4, (b0 % 4) * 16 + b1 / 16, (b1 % 16) * 4;
    var s3 := ['='] + rest;
    var s2 := [B64Char(v2)] + s3;
    var s1 := [B64Char(v1)] + s2;
    assert Base64Encode([b0, b1]) + rest == [B64Char(v0)] + s1;
    var l1, o1 := Keep(1, v1), out + Emit(1, v0, v1);
    var o2 := o1 + Emit(2, l1, v2);
    A2bDigit(v0, s1, 0, left, pads, out);
    assert Keep(0, v0) == v0 && out + Emit(0, left, v0) == out;
    A2bDigit(v1, s2, 1, v0, 0, out);
    A2bDigit(v2, s3, 2, l1, 0, o1);
    A2bPad(rest, 3, Keep(2, v2), 0, o2);
    GroupBits(b0, b1, 0);
    assert o2 == out + [b0, b1];
  }

  /** Whole groups decode to their bytes and leave the decoder at a fresh
      quad. */
  lemma {:induction false} DecodeGroups(data: seq<byte>, rest: string, left: nat, pads: nat, out: seq<byte>)
    requires data != [] && |data| % 3 == 0
    ensures A2b(Base64Encode(data) + rest, 0, left, pads, out) == A2b(rest, 0, 0, 0, out + data)
    decreases |data|
  {
    var tail, out' := data[3..], out + data[..3];
    DecodeFirstGroup(data, rest, left, pads, out);
    assert out' + tail == out + data by {
      assert data == data[..3] + tail;
    }
    if tail != [] {
      LessThree(|data|);
      DecodeGroups(tail, rest, 0, 0, out');
    } else {
      assert Base64Encode(tail) + rest == rest && out' + tail == out';
    }
  }

  /** The encoding of whole groups followed by more bytes is the two
      encodings one after the other. */
  lemma {:induction false} EncodeAppend(a: seq<byte>, b: seq<byte>)
    requires |a| % 3 == 0
    ensures Base64Encode(a + b) == Base64Encode(a) + Base64Encode(b)
    decreases |a|
  {
    if a != [] {
      var ab := a + b;
      assert ab[3..] == a[3..] + b && ab[..3] == a[..3];
      LessThree(|a|);
      EncodeAppend(a[3..], b);
    } else {
      assert a + b == b;
    }
  }

  /** An encoding that ends in padding decodes to its bytes, and the decoder
      stops at the last pad whatever follows. */
  lemma DecodePadded(data: seq<byte>, rest: string)
    requires |data| % 3 != 0
    ensures A2b(Base64Encode(data) + rest, 0, 0, 0, []) == Some(data)
  {
    var n := WholeGroups(|data|);
    var full, last := data[..n], data[n..];
    var tail := Base64Encode(last) + rest;
    assert data == full + last;
    EncodeAppend(full, last);
    assert Base64Encode(data) + rest == Base64Encode(full) + tail;
    DecodeLastGroup(last, rest, 0, 0, full);
    if full != [] {
      DecodeGroups(full, tail, 0, 0, []);
      assert [] + full == full;
    }
  }

  /** The length of the whole groups in `n` bytes. */
  function WholeGroups(n: nat): (r: nat)
    ensures r <= n && r % 3 == 0 && (n % 3 != 0 ==> 1 <= n - r <= 2)
  {
    var r := n - n % 3;
    assert n == 3 * (n / 3) + n % 3;
    r
  }

  lemma LessThree(n: nat)
    requires n >= 3
    ensures (n - 3) % 3 == n % 3
  {
    var q, r := (n - 3) / 3, (n - 3) % 3;
    assert n == 3 * (q + 1) + r && 0 <= r < 3;
  }

  /** An encoding of one or two bytes decodes to them. */
  lemma DecodeLastGroup(data: seq<byte>, rest: string, left: nat, pads: nat, out: seq<byte>)
    requires 1 <= |data| <= 2
    ensures A2b(Base64Encode(data) + rest, 0, left, pads, out) == Some(out + data)
  {
    if |data| == 1 {
      assert data == [data[0]];
      DecodeOneByte(data[0], rest, left, pads, out);
    } else {
      assert data == [data[0], data[1]];
      DecodeTwoBytes(data[0], data[1], rest, left, pads, out);
    }
  }

  /** The first group of a longer encoding decodes to the first three bytes
      and leaves the decoder at a fresh quad. */
  lemma DecodeFirstGroup(data: seq<byte>, rest: string, left: nat, pads: nat, out: seq<byte>)
    requires |data| >= 3
    ensures A2b(Base64Encode(data) + rest, 0, left, pads, out) ==
      A2b(Base64Encode(data[3..]) + rest, 0, 0, 0, out + data[..3])
  {
    assert Base64Encode(data) + rest == Group(data[0], data[1], data[2]) + (Base64Encode(data[3..]) + rest);
    GroupDecodes(data[0], data[1], data[2], Base64Encode(data[3..]) + rest, left, pads, out);
    assert data[..3] == [data[0], data[1], data[2]];
  }

  /** Every character of `bytes_to_base64`'s output is in the alphabet or is `=`. */
  lemma {:induction false} Base64Chars(data: seq<byte>)
    ensures forall i :: 0 <= i < |Base64Encode(data)| ==>
      Base64Encode(data)[i] == '=' || B64Value(Base64Encode(data)[i]).Some?
    decreases |data|
  {
    if 1 <= |data| < 3 {
      B64ValueOfChar(data[0] / 4);
    }
    if |data| >= 3 {
      B64ValueOfChar(data[0] / 4);
      B64ValueOfChar((data[0] % 4) * 16 + data[1] / 16);
      B64ValueOfChar((data[1] % 16) * 4 + data[2] / 64);
      B64ValueOfChar(data[2] % 64);
      Base64Chars(data[3..]);
    }
  }

  /** Decoding what `bytes_to_base64` produced gives back the original bytes. */
  lemma Base64RoundTrip(data: seq<byte>)
    ensures Base64Decode(Base64Encode(data)) == Some(data)
  {
    var s := Base64Encode(data);
    Base64Chars(data);
    assert IsAscii(s);
    assert s + [] == s;
    if |data| % 3 != 0 {
      DecodePadded(data, []);
    } else if data != [] {
      DecodeGroups(data, [], 0, 0, []);
      assert [] + data == data;
    }
  }

  /** A character outside the alphabet, other than `=`, is skipped wherever
      it stands. */
  lemma {:induction false} A2bSkips(a: string, c: char, b: string, q: nat, left: nat, pads: nat, out: seq<byte>)
    requires q < 4
    requires c != '=' && B64Value(c).None?
    ensures A2b(a + [c] + b, q, left, pads, out) == A2b(a + b, q, left, pads, out)
    decreases |a|
  {
    if a == [] {
      assert (a + [c] + b)[1..] == a + b;
    } else {
      var s, t := a + [c] + b, a + b;
      assert s[0] == a[0] && t[0] == a[0];
      assert s[1..] == a[1..] + [c] + b && t[1..] == a[1..] + b;
      if a[0] == '=' {
        if !(q >= 2 && q + pads + 1 >= 4) {
          A2bSkips(a[1..], c, b, q, left, if q >= 2 then pads + 1 else pads, out);
        }
      } else {
        match B64Value(a[0])
        case None =>
          A2bSkips(a[1..], c, b, q, left, pads, out);
        case Some(v) =>
          A2bSkips(a[1..], c, b, if q == 3 then 0 else q + 1, Keep(q, v), 0, out + Emit(q, left, v));
      }
    }
  }

  /** `b64decode` ignores an ASCII character outside the alphabet (a line
      break, a space, `-`), wherever it stands. */
  lemma Base64DecodeSkips(a: string, c: char, b: string)
    requires (c as int) < 128 && c != '=' && B64Value(c).None?
    ensures Base64Decode(a + [c] + b) == Base64Decode(a + b)
  {
    var s, t := a + [c] + b, a + b;
    assert IsAscii(s) <==> IsAscii(t) by {
      if IsAscii(t) {
        forall i | 0 <= i < |s| ensures (s[i] as int) < 128 {
          if i > |a| {
            assert s[i] == t[i - 1];
          } else if i < |a| {
            assert s[i] == t[i];
          }
        }
      }
      if IsAscii(s) {
        forall i | 0 <= i < |t| ensures (t[i] as int) < 128 {
          if i >= |a| {
            assert t[i] == s[i + 1];
          } else {
            assert t[i] == s[i];
          }
        }
      }
    }
    A2bSkips(a, c, b, 0, 0, 0, []);
  }

  /** After an encoding that ends in padding, `b64decode` ignores the rest of
      the text. */
  lemma Base64DecodeStopsAtPad(data: seq<byte>, rest: string)
    requires |data| % 3 != 0 && IsAscii(rest)
    ensures Base64Decode(Base64Encode(data) + rest) == Some(data)
  {
    var s := Base64Encode(data) + rest;
    Base64Chars(data);
    assert IsAscii(s) by {
      forall i | 0 <= i < |s| ensures (s[i] as int) < 128 {
        if i < |Base64Encode(data)| {
          assert s[i] == Base64Encode(data)[i];
        } else {
          assert s[i] == rest[i - |Base64Encode(data)|];
        }
      }
    }
    DecodePadded(data, rest);
  }

  /** A trailing line break is skipped: `b64decode("QUJD\n") == b"ABC"`. */
  lemma Base64DecodeSkipsNewline()
    ensures Base64Decode("QUJD\n") == Some([65, 66, 67])
  {
    assert Base64Encode([65, 66, 67]) == "QUJD";
    Base64RoundTrip([65, 66, 67]);
    Base64DecodeSkips("QUJD", '\n', "");
    assert "QUJD" + ['\n'] + "" == "QUJD\n";
    assert "QUJD" + "" == "QUJD";
  }

  /** The text after a complete pad group is ignored:
      `b64decode("QQ==QUJD") == b"A"`. */
  lemma Base64DecodeIgnoresAfterPad()
    ensures Base64Decode("QQ==QUJD") == Some([65])
  {
    assert Base64Encode([65]) == "QQ==";
    assert IsAscii("QUJD");
    Base64DecodeStopsAtPad([65], "QUJD");
    assert Base64Encode([65]) + "QUJD" == "QQ==QUJD";
  }

  /** Text that ends inside a quad is rejected: `b64decode("QUJ")` raises. */
  lemma Base64DecodeRejectsShort()
    ensures Base64Decode("QUJ") == None
  {
  }

  // ---------------------------------------------------------------------
  // The four helpers of utils/crypt.py
  // ---------------------------------------------------------------------

  /** `aes_ecb_decrypt(key, ciphertext_base64)`: key check first, then Base64
      decoding, ECB decryption and PKCS#7 unpadding. */
  function AesEcbDecrypt(dec: BlockCipher, key: seq<byte>, ciphertextBase64: string): (r: Result<seq<byte>, CryptoError>)
    ensures !ValidKeyLength(key) ==> r == Err(KeyLengthError)
    ensures r.Ok? ==> ValidKeyLength(key)
    ensures ValidKeyLength(key) && Base64Decode(ciphertextBase64).None? ==> r == Err(Base64Error)
    ensures r.Ok? ==>
      var c := Base64Decode(ciphertextBase64);
      c.Some? && |c.value| % BlockSize == 0 && 1 <= |c.value| - |r.value| <= BlockSize &&
      r == Unpad(EcbDecrypt(dec, key, c.value))
  {
    if !ValidKeyLength(key) then Err(KeyLengthError)
    else match Base64Decode(ciphertextBase64)
      case None => Err(Base64Error)
      case Some(c) =>
        if |c| % BlockSize != 0 then Err(NotAlignedError)
        else Unpad(EcbDecrypt(dec, key, c))
  }

  /** A blob made by padding, ECB-encrypting and Base64-encoding a plaintext
      under a valid key decrypts back to that plaintext. */
  lemma AesEcbRoundTrip(enc: BlockCipher, dec: BlockCipher, key: seq<byte>, plaintext: seq<byte>)
    requires forall b: Block :: dec(key, enc(key, b)) == b
    requires ValidKeyLength(key)
    ensures AesEcbDecrypt(dec, key, BytesToBase64(EcbEncrypt(enc, key, Pad(plaintext)))) == Ok(plaintext)
  {
    EcbRoundTrip(enc, dec, key, Pad(plaintext));
    PadUnpad(plaintext);
  }

  /** `aes_cbc_decrypt(key, ciphertext, iv)`: key check, IV check (a missing
      IV fails the `isinstance` test), CBC decryption and PKCS#7 unpadding. */
  function AesCbcDecrypt(dec: BlockCipher, key: seq<byte>, ciphertext: seq<byte>, iv: Option<seq<byte>>): (r: Result<seq<byte>, CryptoError>)
    ensures !ValidKeyLength(key) ==> r == Err(KeyLengthError)
    ensures ValidKeyLength(key) && (iv.None? || |iv.value| != BlockSize) ==> r == Err(IvLengthError)
    ensures r.Ok? ==> iv.Some? && |iv.value| == BlockSize
    ensures r.Ok? ==> |ciphertext| % BlockSize == 0 && 1 <= |ciphertext| - |r.value| <= BlockSize
  {
    if !ValidKeyLength(key) then Err(KeyLengthError)
    else if iv.None? || |iv.value| != BlockSize then Err(IvLengthError)
    else if |ciphertext| % BlockSize != 0 then Err(NotAlignedError)
    else Unpad(CbcDecrypt(dec, key, iv.value, ciphertext))
  }

  /** CBC decryption followed by unpadding inverts padding followed by CBC encryption. */
  lemma AesCbcRoundTrip(enc: BlockCipher, dec: BlockCipher, key: seq<byte>, iv: Block, plaintext: seq<byte>)
    requires forall b: Block :: dec(key, enc(key, b)) == b
    requires ValidKeyLength(key)
    ensures AesCbcDecrypt(dec, key, CbcEncrypt(enc, key, iv, Pad(plaintext)), Some(iv)) == Ok(plaintext)
  {
    CbcRoundTrip(enc, dec, key, iv, Pad(plaintext));
    PadUnpad(plaintext);
  }

  /** `md5_encrypt(text)`: the first 16 characters of the lower-case hex MD5
      digest of the UTF-8 encoding of `text`. */
  function Md5Encrypt(md5: seq<byte> -> Digest, text: string): (r: string)
    ensures |r| == 16 && IsLowerHex(r)
  {
    HexLower(md5(Utf8(text)))[..16]
  }

  /** The sign is the hex of the digest's first eight bytes. */
  lemma Md5EncryptIsHalfDigest(md5: seq<byte> -> Digest, text: string)
    ensures Md5Encrypt(md5, text) == HexLower(md5(Utf8(text))[..8])
  {
    var d := md5(Utf8(text));
    HexPrefix(d, 8);
  }

  lemma {:induction false} HexPrefix(b: seq<byte>, k: nat)
    requires k <= |b|
    ensures HexLower(b)[..2 * k] == HexLower(b[..k])
    decreases k
  {
    if k > 0 {
      HexPrefix(b[1..], k - 1);
      assert b[..k] == [b[0]] + b[1..][..k - 1];
    }
  }

  /** The sign's UTF-8 bytes are always a valid AES-128 key: `md5_encrypt`
      output encodes to 16 bytes, so `aes_ecb_decrypt` never rejects it. */
  lemma SignIsAesKey(md5: seq<byte> -> Digest, text: string)
    ensures |Utf8(Md5Encrypt(md5, text))| == 16
    ensures ValidKeyLength(Utf8(Md5Encrypt(md5, text)))
  {
    var s := Md5Encrypt(md5, text);
    LowerHexIsAscii(s);
    Utf8Ascii(s);
  }

  /** `bytes_to_base64(data)`. */
  function BytesToBase64(data: seq<byte>): (r: string)
    ensures |r| == 4 * ((|data| + 2) / 3)
    ensures Base64Decode(r) == Some(data)
  {
    Base64RoundTrip(data);
    Base64Encode(data)
  }
}
