/** What the encoding layer needs of the cipher behind crypto/openssl/symmetric.c. */
module Cipher {
  import opened Bytes

  const WIDTH: nat := 16

  /** `openssl_encode` and `openssl_decode` under one key: initialisation vector and source to result. */
  datatype Cipher = Cipher(
    encode: (seq<byte>, seq<byte>) -> seq<byte>,
    decode: (seq<byte>, seq<byte>) -> seq<byte>)
  {
    /** Decoding undoes encoding under the same vector, and encoding always adds between 1 and 16 bytes. */
    ghost predicate Valid() {
      forall iv: seq<byte>, src: seq<byte> ::
        && |encode(iv, src)| == |src| / WIDTH * WIDTH + WIDTH
        && decode(iv, encode(iv, src)) == src
    }
  }
}

/**
  The length-changing encoding of crypto/openssl/symmetric.c: cipher block chaining (section 6.2 of
  NIST SP 800-38A) over an arbitrary keyed permutation of 16-byte blocks, with PKCS #7 padding
  (section 6.3 of RFC 5652).
*/
module Cbc {
  import opened Bytes
  import opened Cipher

  /** The block permutation a key selects, and its inverse. */
  datatype BlockCipher = BlockCipher(encipher: seq<byte> -> seq<byte>, decipher: seq<byte> -> seq<byte>) {
    ghost predicate Valid() {
      forall x: seq<byte> | |x| == WIDTH :: |encipher(x)| == WIDTH && decipher(encipher(x)) == x
    }
  }

  /** The identity permutation: a valid cipher exists. */
  lemma SomeCipherIsValid()
    ensures BlockCipher(x => x, x => x).Valid()
  {
  }

  function Xor(a: seq<byte>, b: seq<byte>): (r: seq<byte>)
    ensures |r| == |a|
    ensures forall i | 0 <= i < |a| :: r[i] == if i < |b| then a[i] ^ b[i] else a[i]
  {
    seq(|a|, i requires 0 <= i < |a| => if i < |b| then a[i] ^ b[i] else a[i])
  }

  lemma MaskedTwice(a: byte, b: byte)
    ensures (a ^ b) ^ b == a
  {
  }

  lemma XorTwice(a: seq<byte>, b: seq<byte>)
    ensures Xor(Xor(a, b), b) == a
  {
    forall i | 0 <= i < |a| ensures Xor(Xor(a, b), b)[i] == a[i] {
      if i < |b| { MaskedTwice(a[i], b[i]); }
    }
  }

  function Chain(cipher: BlockCipher, iv: seq<byte>, p: seq<byte>): seq<byte>
    decreases |p|
  {
    if |p| < WIDTH then []
    else
      var c := cipher.encipher(Xor(p[..WIDTH], iv));
      c + Chain(cipher, c, p[WIDTH..])
  }

  function Unchain(cipher: BlockCipher, iv: seq<byte>, c: seq<byte>): seq<byte>
    decreases |c|
  {
    if |c| < WIDTH then []
    else Xor(cipher.decipher(c[..WIDTH]), iv) + Unchain(cipher, c[..WIDTH], c[WIDTH..])
  }

  lemma {:induction false} UnchainChain(cipher: BlockCipher, iv: seq<byte>, p: seq<byte>)
    requires cipher.Valid() && |p| % WIDTH == 0
    ensures |Chain(cipher, iv, p)| == |p|
    ensures Unchain(cipher, iv, Chain(cipher, iv, p)) == p
    decreases |p|
  {
    if p != [] {
      var x := Xor(p[..WIDTH], iv);
      var c := cipher.encipher(x);
      UnchainChain(cipher, c, p[WIDTH..]);
      var rest := Chain(cipher, c, p[WIDTH..]);
      assert (c + rest)[..WIDTH] == c && (c + rest)[WIDTH..] == rest;
      XorTwice(p[..WIDTH], iv);
    }
  }

  /** Between 1 and 16 copies of their own number, up to a multiple of 16. */
  function Pad(x: seq<byte>): (p: seq<byte>)
    ensures |p| == |x| / WIDTH * WIDTH + WIDTH
  {
    var n := WIDTH - |x| % WIDTH;
    x + seq(n, _ => n as byte)
  }

  /** The padded text without its padding; text that is not padded, which OpenSSL refuses, gives nothing here. */
  function Unpad(p: seq<byte>): seq<byte> {
    if p == [] then []
    else
      var n := p[|p| - 1] as nat;
      if n <= |p| then p[..|p| - n] else []
  }

  /** The padding, byte by byte. */
  lemma PaddingBytes(x: seq<byte>)
    ensures var n := |Pad(x)| - |x|;
      && 1 <= n <= 16 && |Pad(x)| % 16 == 0 && Pad(x)[..|x|] == x
      && forall i | |x| <= i < |Pad(x)| :: Pad(x)[i] as int == n
  {
  }

  lemma UnpadPad(x: seq<byte>)
    ensures Unpad(Pad(x)) == x
  {
    var n := WIDTH - |x| % WIDTH;
    var p := Pad(x);
    assert p[|p| - 1] == n as byte;
    assert p[..|p| - n] == x;
  }

  /** `openssl_encode` */
  function Encode(cipher: BlockCipher, iv: seq<byte>, src: seq<byte>): seq<byte> {
    Chain(cipher, iv, Pad(src))
  }

  /** `openssl_decode` */
  function Decode(cipher: BlockCipher, iv: seq<byte>, src: seq<byte>): seq<byte> {
    Unpad(Unchain(cipher, iv, src))
  }

  lemma DecodeEncode(cipher: BlockCipher, iv: seq<byte>, src: seq<byte>)
    requires cipher.Valid()
    ensures |Encode(cipher, iv, src)| == |src| / WIDTH * WIDTH + WIDTH
    ensures Decode(cipher, iv, Encode(cipher, iv, src)) == src
  {
    UnchainChain(cipher, iv, Pad(src));
    UnpadPad(src);
  }

  /** Block `i` of a text of whole blocks. */
  function BlockNo(s: seq<byte>, i: nat): seq<byte>
    requires 16 * i + 16 <= |s|
  {
    s[16 * i..16 * i + 16]
  }

  lemma {:induction false} ChainBlocks(cipher: BlockCipher, iv: seq<byte>, p: seq<byte>, i: nat)
    requires cipher.Valid() && |p| % 16 == 0 && 16 * i + 16 <= |p|
    ensures var c := Chain(cipher, iv, p);
      && |c| == |p|
      && BlockNo(c, i) == cipher.encipher(Xor(BlockNo(p, i), if i == 0 then iv else BlockNo(c, i - 1)))
    decreases i
  {
    hide BlockNo; hide Xor; hide BlockCipher.Valid; hide Unchain;
    UnchainChain(cipher, iv, p);
    var first := ChainFirst(cipher, iv, p);
    if i > 0 {
      ChainBlocks(cipher, first, p[16..], i - 1);
      BlockOfRest(p, i);
      BlockOfRest(Chain(cipher, iv, p), i);
      if i > 1 { BlockOfRest(Chain(cipher, iv, p), i - 1); }
    }
  }

  lemma ChainFirst(cipher: BlockCipher, iv: seq<byte>, p: seq<byte>) returns (first: seq<byte>)
    requires cipher.Valid() && 16 <= |p|
    ensures var c := Chain(cipher, iv, p);
      && 16 <= |c| && first == cipher.encipher(Xor(BlockNo(p, 0), iv)) == BlockNo(c, 0)
      && c[16..] == Chain(cipher, first, p[16..])
  {
    first := cipher.encipher(Xor(p[..16], iv));
    assert p[..16] == BlockNo(p, 0) && first + Chain(cipher, first, p[16..]) == Chain(cipher, iv, p);
  }

  lemma BlockOfRest(s: seq<byte>, i: nat)
    requires 0 < i && 16 * i + 16 <= |s|
    ensures BlockNo(s[16..], i - 1) == BlockNo(s, i)
  {
  }

  lemma PadReaches(src: seq<byte>, i: nat)
    requires 16 * i <= |src|
    ensures 16 * i + 16 <= |Pad(src)| && |Pad(src)| % 16 == 0
  {
    assert i <= |src| / 16;
  }

  /** The cipher of a key: chaining and padding over the block permutation the key selects. */
  function CbcCipher(cipher: BlockCipher): Cipher {
    Cipher((iv: seq<byte>, src: seq<byte>) => Encode(cipher, iv, src),
           (iv: seq<byte>, src: seq<byte>) => Decode(cipher, iv, src))
  }

  /** Whatever the key, chaining and padding give a cipher the encoding layer can use. */
  lemma CbcIsValid(cipher: BlockCipher)
    requires forall x: seq<byte> | |x| == 16 ::
      |cipher.encipher(x)| == 16 && cipher.decipher(cipher.encipher(x)) == x
    ensures CbcCipher(cipher).Valid()
  {
    var c := CbcCipher(cipher);
    forall iv: seq<byte>, src: seq<byte>
      ensures |c.encode(iv, src)| == |src| / WIDTH * WIDTH + WIDTH && c.decode(iv, c.encode(iv, src)) == src
    {
      DecodeEncode(cipher, iv, src);
    }
  }

  /**
    What the cipher stores: every block is the permuted XOR of the padded text with the block before it, the first
    with the vector.
  */
  lemma CbcBlocks(cipher: BlockCipher, iv: seq<byte>, src: seq<byte>, i: nat)
    requires cipher.Valid() && 16 * i <= |src|
    ensures var c, p := CbcCipher(cipher).encode(iv, src), Pad(src);
      && |c| == |p| && 16 * i + 16 <= |c|
      && c[16 * i..16 * i + 16] ==
         cipher.encipher(Xor(p[16 * i..16 * i + 16], if i == 0 then iv else c[16 * (i - 1)..16 * i]))
  {
    hide Pad; hide Xor; hide Chain; hide BlockCipher.Valid;
    PadReaches(src, i);
    ChainBlocks(cipher, iv, Pad(src), i);
  }
}
