/** Block numbers and positions. `Start(k, w)` is `k * w`, in the form proofs by induction over blocks use. */
module Blocks {

  /** Where block number `k` starts when blocks are `width` wide. */
  function Start(k: nat, width: nat): nat {
    if k == 0 then 0 else Start(k - 1, width) + width
  }

  lemma {:induction false} StartIsProduct(k: nat, width: nat)
    ensures Start(k, width) == k * width
  {
    if k > 0 {
      StartIsProduct(k - 1, width);
      assert (k - 1) * width + width == k * width;
    }
  }

  lemma {:induction false} StartMono(j: nat, k: nat, width: nat)
    requires j <= k
    ensures Start(j, width) <= Start(k, width)
    ensures j < k ==> Start(j, width) + width <= Start(k, width)
    decreases k
  {
    if j < k { StartMono(j, k - 1, width); }
  }

  /** `n` is a multiple of `bs`: the start of a block. */
  predicate Aligned(n: nat, bs: nat)
    requires 0 < bs
  {
    n == 0 || (bs <= n && Aligned(n - bs, bs))
  }

  lemma {:induction false} StartIsAligned(k: nat, bs: nat)
    requires 0 < bs
    ensures Aligned(Start(k, bs), bs)
  {
    if k > 0 { StartIsAligned(k - 1, bs); }
  }

  lemma {:induction false} AlignedIsStart(n: nat, bs: nat) returns (k: nat)
    requires 0 < bs && Aligned(n, bs)
    ensures n == Start(k, bs)
  {
    if n == 0 {
      k := 0;
    } else {
      k := AlignedIsStart(n - bs, bs);
      k := k + 1;
    }
  }

  /** Two block starts less than a block apart are one. */
  lemma SameStart(m: nat, n: nat, bs: nat)
    requires 0 < bs && Aligned(m, bs) && Aligned(n, bs)
    requires m < n + bs && n < m + bs
    ensures m == n
  {
    var j := AlignedIsStart(m, bs);
    var k := AlignedIsStart(n, bs);
    if j < k { StartMono(j, k, bs); }
    if k < j { StartMono(k, j, bs); }
  }

  /** Quotient and remainder are unique. */
  lemma SplitOf(n: nat, q: nat, r: nat, bs: nat)
    requires r < bs && n == Start(q, bs) + r
    ensures n / bs == q && n % bs == r
  {
    var q', r' := n / bs, n % bs;
    StartIsProduct(q', bs);
    assert n == Start(q', bs) + r';
    if q' < q { StartMono(q', q, bs); }
    if q < q' { StartMono(q, q', bs); }
  }

  /** Every position lies in the block its quotient names. */
  lemma InBlock(n: nat, bs: nat)
    requires 0 < bs
    ensures n == Start(n / bs, bs) + n % bs
  {
    StartIsProduct(n / bs, bs);
  }

  /** Alignment as the remainder tells it, and the block start a position lies behind. */
  lemma AlignDown(n: nat, bs: nat)
    requires 0 < bs
    ensures n % bs <= n && Aligned(n - n % bs, bs)
    ensures Aligned(n, bs) <==> n % bs == 0
    ensures n / bs * bs == n - n % bs
  {
    InBlock(n, bs);
    StartIsProduct(n / bs, bs);
    StartIsAligned(n / bs, bs);
    if Aligned(n, bs) { SameStart(n, n - n % bs, bs); }
  }

  /** The block a position lies in, without division. */
  lemma Locate(n: nat, bs: nat) returns (k: nat)
    requires 0 < bs
    ensures Start(k, bs) <= n < Start(k, bs) + bs
  {
    InBlock(n, bs);
    k := n / bs;
  }
}

/**
  The encoding drivers: what `init_sfuse_driver` installs in `struct encode_driver` for each mode.

  `bs` is the block size every driver is initialised with. The randomness of a driver, the vector of the
  randomised one or the bytes that happen to follow the source buffer of the padded one, is an argument.
*/
module Driver {
  import opened Bytes
  import opened Blocks
  import opened Cipher

  const IV_SIZE: nat := 16
  const RAND_PADSIZE: nat := 16
  const RAND_FINALPADSIZE: nat := IV_SIZE + RAND_PADSIZE
  const DET_PADSIZE: nat := 16
  const NOP_PADSIZE: nat := 16

  datatype EncodeDriver =
    | Nopcrypt
    | NopcryptPad
    | Standard(cipher: Cipher)
    | Deterministic(cipher: Cipher, iv: seq<byte>)
  {
    /** `encode`; `r` is the driver's randomness. */
    function Encode(src: seq<byte>, r: seq<byte>): seq<byte> {
      match this
      case Nopcrypt => src
      case NopcryptPad => src + r
      case Standard(cipher) => cipher.encode(r, src) + r
      case Deterministic(cipher, iv) => cipher.encode(iv, src)
    }

    /** `decode`; a source shorter than the pad, which the C code reads out of bounds, gives nothing here. */
    function Decode(src: seq<byte>): seq<byte> {
      match this
      case Nopcrypt => src
      case NopcryptPad => if |src| < NOP_PADSIZE then [] else src[..|src| - NOP_PADSIZE]
      case Standard(cipher) =>
        if |src| < IV_SIZE then []
        else cipher.decode(src[|src| - IV_SIZE..], src[..|src| - IV_SIZE])
      case Deterministic(cipher, iv) => cipher.decode(iv, src)
    }

    /** `get_cyphered_block_size` */
    function CypheredBlockSize(size: nat): nat {
      match this
      case Nopcrypt => size
      case NopcryptPad => size + NOP_PADSIZE
      case Standard(_) => size / RAND_PADSIZE * RAND_PADSIZE + RAND_FINALPADSIZE
      case Deterministic(_, _) => size / DET_PADSIZE * DET_PADSIZE + DET_PADSIZE
    }

    function PadSize(): nat {
      match this
      case Nopcrypt => 0
      case NopcryptPad => NOP_PADSIZE
      case Standard(_) => RAND_FINALPADSIZE
      case Deterministic(_, _) => DET_PADSIZE
    }

    /** The room the physical file keeps for each logical block. */
    function Slot(bs: nat): nat {
      bs + PadSize()
    }

    /** A full block fills its slot: the ciphers need a block size that is a multiple of 16 for that. */
    predicate FillsSlot(bs: nat) {
      Nopcrypt? || NopcryptPad? || bs % 16 == 0
    }

    /** The front of an encoding, of the length a shorter text has, encodes the front of the text. */
    predicate ReadsParts() {
      Nopcrypt? || NopcryptPad?
    }

    /** `get_cyphered_block_offset` */
    function CypheredBlockOffset(bs: nat, offset: nat): nat
      requires 0 < bs
    {
      match this
      case Nopcrypt => offset
      case _ => Start(offset / bs, Slot(bs))
    }

    /** `get_truncate_size` */
    function TruncateSize(bs: nat, size: nat): nat
      requires 0 < bs
    {
      match this
      case Nopcrypt => size
      case _ => Start(size / bs, Slot(bs)) + if size % bs > 0 then CypheredBlockSize(size % bs) else 0
    }

    /** `y` is one of the encodings of `x`. */
    ghost predicate Encodes(x: seq<byte>, y: seq<byte>) {
      exists r: seq<byte> :: |r| == IV_SIZE && Encode(x, r) == y
    }

    ghost predicate Valid() {
      match this
      case Standard(cipher) => cipher.Valid()
      case Deterministic(cipher, _) => cipher.Valid()
      case _ => true
    }

    /** One encoding per text, whatever the randomness. */
    predicate IsDeterministic() {
      Nopcrypt? || Deterministic?
    }
  }

  /** All pairs of a text and one of its encodings. */
  ghost function Encodings(c: EncodeDriver): iset<(seq<byte>, seq<byte>)> {
    iset x: seq<byte>, y: seq<byte> | c.Encodes(x, y) :: (x, y)
  }

  /** Decoding undoes encoding, vector included, and the encoding is as long as the driver announces. */
  lemma DecodeEncode(c: EncodeDriver, x: seq<byte>, y: seq<byte>)
    requires c.Valid() && c.Encodes(x, y)
    ensures |y| == c.CypheredBlockSize(|x|) && c.Decode(y) == x
  {
    var r: seq<byte> :| |r| == IV_SIZE && c.Encode(x, r) == y;
    match c
    case Nopcrypt =>
    case NopcryptPad =>
      assert y[..|x|] == x;
    case Standard(cipher) =>
      var z := cipher.encode(r, x);
      assert y[|z|..] == r && y[..|z|] == z;
    case Deterministic(cipher, iv) =>
  }

  /**
    A randomised encoding ends with the vector it was encoded under, and is otherwise the deterministic encoding
    under that vector; which is the cipher's under the configured one.
  */
  lemma VectorAppended(cipher: Cipher, x: seq<byte>, r: seq<byte>, iv: seq<byte>, ignored: seq<byte>)
    requires cipher.Valid() && |r| == 16
    ensures var y := Standard(cipher).Encode(x, r);
      && |y| == |x| / 16 * 16 + 32
      && y[|y| - 16..] == r
      && y[..|y| - 16] == cipher.encode(r, x) == Deterministic(cipher, r).Encode(x, ignored)
    ensures Deterministic(cipher, iv).Encode(x, ignored) == cipher.encode(iv, x)
  {
  }

  /** Without a cipher the text is stored as it is, and with padding in front of the pad. */
  lemma TextInFront(x: seq<byte>, r: seq<byte>)
    requires |r| == 16
    ensures Nopcrypt.Encode(x, r) == x
    ensures |NopcryptPad.Encode(x, r)| == |x| + 16 && NopcryptPad.Encode(x, r)[..|x|] == x
  {
  }

  /** A driver has one encoding for each text exactly if it has no randomness to add. */
  lemma OneEncodingExactly(c: EncodeDriver)
    requires c.Valid()
    ensures c.IsDeterministic() <==>
            forall x: seq<byte>, r: seq<byte>, r': seq<byte> | |r| == 16 && |r'| == 16 ::
              c.Encode(x, r) == c.Encode(x, r')
  {
    if !c.IsDeterministic() {
      var x: seq<byte>, r, r' := [], Zeros(16), seq(16, _ => 1 as byte);
      assert r[0] != r'[0];
      match c
      case NopcryptPad => assert c.Encode(x, r)[0] == r[0] && c.Encode(x, r')[0] == r'[0];
      case Standard(cipher) =>
        VectorAppended(cipher, x, r, r, r);
        VectorAppended(cipher, x, r', r', r');
    }
  }

  /** The widths of the slots, and what every driver adds to a full block. */
  lemma SlotWidths(c: EncodeDriver, bs: nat)
    ensures c.Slot(bs) == match c
              case Nopcrypt => bs
              case NopcryptPad => bs + 16
              case Standard(_) => bs + 32
              case Deterministic(_, _) => bs + 16
    ensures c.FillsSlot(bs) <==> (match c case Nopcrypt => true case NopcryptPad => true case _ => bs % 16 == 0)
  {
  }

  lemma DecodeFront(c: EncodeDriver, x: seq<byte>, y: seq<byte>, len: nat)
    requires c.ReadsParts() && c.Encodes(x, y) && len <= |x|
    ensures c.CypheredBlockSize(len) <= |y| && c.Decode(y[..c.CypheredBlockSize(len)]) == x[..len]
  {
    var r: seq<byte> :| |r| == IV_SIZE && c.Encode(x, r) == y;
  }

  /** A longer text never has a shorter encoding, a partial block never fills a slot, and a full one fits in it. */
  lemma SizesFit(c: EncodeDriver, bs: nat, m: nat, n: nat)
    requires 0 < m <= n <= bs
    ensures 0 < c.CypheredBlockSize(m) <= c.CypheredBlockSize(n) <= c.Slot(bs)
    ensures n < bs ==> c.CypheredBlockSize(n) < c.Slot(bs)
  {
    if c.Standard? || c.Deterministic? {
      assert m / 16 <= n / 16;
    }
  }

  lemma FullBlockFillsSlot(c: EncodeDriver, bs: nat)
    ensures c.CypheredBlockSize(bs) == c.Slot(bs) <==> c.FillsSlot(bs)
  {
  }

  /** Block `k` is addressed at slot `k`. */
  lemma OffsetOfBlock(c: EncodeDriver, bs: nat, k: nat)
    requires 0 < bs
    ensures c.CypheredBlockOffset(bs, Start(k, bs)) == Start(k, c.Slot(bs))
  {
    SplitOf(Start(k, bs), k, 0, bs);
    if c.Nopcrypt? { assert c.Slot(bs) == bs; }
  }

  /** Offsets and truncate sizes as the drivers compute them. */
  lemma AddressFormulas(c: EncodeDriver, bs: nat, n: nat)
    requires 0 < bs
    ensures c.CypheredBlockOffset(bs, n) == if c.Nopcrypt? then n else n / bs * (bs + c.PadSize())
    ensures c.TruncateSize(bs, n) ==
            if c.Nopcrypt? then n
            else n / bs * (bs + c.PadSize()) + if n % bs > 0 then c.CypheredBlockSize(n % bs) else 0
  {
    StartIsProduct(n / bs, c.Slot(bs));
  }

  lemma TruncateSizeSplit(c: EncodeDriver, bs: nat, q: nat, r: nat)
    requires r < bs
    ensures c.TruncateSize(bs, Start(q, bs) + r) ==
            Start(q, c.Slot(bs)) + if r > 0 then c.CypheredBlockSize(r) else 0
  {
    SplitOf(Start(q, bs) + r, q, r, bs);
    if c.Nopcrypt? { assert c.Slot(bs) == bs; }
  }
}
