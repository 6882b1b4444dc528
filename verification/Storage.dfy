/** The layout under each encoding driver, in the terms of the requests the encoding layer gets. */
module Storage {
  import opened Bytes
  import opened Blocks
  import opened Driver
  import opened Layout

  /** `phys` is a physical file for the contents `data`. */
  ghost predicate Stored(c: EncodeDriver, bs: nat, data: seq<byte>, phys: seq<byte>)
    requires 0 < bs && c.Valid()
  {
    GeometryIsValid(c, bs);
    Stores(GeometryOf(c, bs), data, phys)
  }

  /** As `Stored`, but the last, partial block of `data` has just been cut and not yet been rewritten. */
  ghost predicate Torn(c: EncodeDriver, bs: nat, data: seq<byte>, phys: seq<byte>)
    requires 0 < bs && c.Valid()
  {
    GeometryIsValid(c, bs);
    Layout.Torn(GeometryOf(c, bs), data, phys)
  }

  /**
    The discipline the encoding layer relies on without checking it: the request starts at a block boundary inside
    the file or at its end, reaches no further than one block, and covers all live bytes of that block.
  */
  predicate Disciplined(bs: nat, size: nat, offset: nat, len: nat)
    requires 0 < bs
  {
    && 0 < len <= bs
    && Aligned(offset, bs)
    && offset <= size
    && (len == bs || size <= offset + len)
  }

  /** A read of a block from its start, of all live bytes unless the layer below reads parts of blocks. */
  predicate Readable(part: bool, bs: nat, size: nat, offset: nat, len: nat)
    requires 0 < bs
  {
    0 < len <= bs && Aligned(offset, bs) && offset <= size && (part || len == bs || size <= offset + len)
  }

  lemma BlockOfRequest(c: EncodeDriver, bs: nat, size: nat, offset: nat, len: nat) returns (k: nat)
    requires 0 < bs && Disciplined(bs, size, offset, len)
    ensures offset == Start(k, bs) && Covers(bs, size, k, len)
    ensures c.CypheredBlockOffset(bs, offset) == Start(k, c.Slot(bs))
  {
    k := AlignedIsStart(offset, bs);
    OffsetOfBlock(c, bs, k);
  }

  lemma NewFileIsStored(c: EncodeDriver, bs: nat)
    requires 0 < bs && c.Valid()
    ensures Stored(c, bs, [], [])
  {
    GeometryIsValid(c, bs);
    assert SizeFits(GeometryOf(c, bs), 0, 0, 0);
  }

  lemma EncodingIsListed(c: EncodeDriver, bs: nat, x: seq<byte>, r: seq<byte>)
    requires |r| == IV_SIZE
    ensures (x, c.Encode(x, r)) in GeometryOf(c, bs).encodings
  {
    assert c.Encodes(x, c.Encode(x, r));
  }

  lemma ListedDecodes(c: EncodeDriver, bs: nat, x: seq<byte>, y: seq<byte>)
    requires c.Valid() && (x, y) in GeometryOf(c, bs).encodings
    ensures |y| == c.CypheredBlockSize(|x|) && c.Decode(y) == x
  {
    DecodeEncode(c, x, y);
  }

  /** A disciplined write keeps the file stored; its encoding is exactly as long as announced. */
  lemma WriteStores(c: EncodeDriver, bs: nat, data: seq<byte>, phys: seq<byte>, offset: nat, x: seq<byte>, r: seq<byte>)
    requires 0 < bs && c.Valid() && Stored(c, bs, data, phys)
    requires Disciplined(bs, |data|, offset, |x|) && |r| == IV_SIZE
    ensures |c.Encode(x, r)| == c.CypheredBlockSize(|x|)
    ensures Stored(c, bs, Pwrite(data, offset, x), Pwrite(phys, c.CypheredBlockOffset(bs, offset), c.Encode(x, r)))
  {
    EncodingIsListed(c, bs, x, r);
    WriteStoresListed(c, bs, data, phys, offset, x, c.Encode(x, r));
  }

  lemma WriteStoresListed(
      c: EncodeDriver, bs: nat, data: seq<byte>, phys: seq<byte>, offset: nat, x: seq<byte>, y: seq<byte>)
    requires 0 < bs && c.Valid() && Stored(c, bs, data, phys)
    requires Disciplined(bs, |data|, offset, |x|) && (x, y) in GeometryOf(c, bs).encodings
    ensures |y| == c.CypheredBlockSize(|x|)
    ensures Stored(c, bs, Pwrite(data, offset, x), Pwrite(phys, c.CypheredBlockOffset(bs, offset), y))
  {
    hide Geometry.Valid; hide EncodeDriver.CypheredBlockSize;
    GeometryIsValid(c, bs);
    ListedDecodes(c, bs, x, y);
    var k := BlockOfRequest(c, bs, |data|, offset, |x|);
    StoreBlock(GeometryOf(c, bs), data, phys, k, x, y);
  }

  /** A disciplined read decodes one whole encoding and gets the rest of the block, or nothing at the end of file. */
  lemma ReadDecodes(c: EncodeDriver, bs: nat, data: seq<byte>, phys: seq<byte>, offset: nat, len: nat)
    requires 0 < bs && c.Valid() && Stored(c, bs, data, phys) && Disciplined(bs, |data|, offset, len)
    ensures var got := Pread(phys, c.CypheredBlockOffset(bs, offset), c.CypheredBlockSize(len));
      if offset == |data| then got == []
      else got != [] && c.Decode(got) == Pread(data, offset, len)
  {
    hide Geometry.Valid; hide EncodeDriver.CypheredBlockSize;
    GeometryIsValid(c, bs);
    var g := GeometryOf(c, bs);
    var k := BlockOfRequest(c, bs, |data|, offset, len);
    ReadBlock(g, data, phys, k, len);
    if offset != |data| {
      ListedDecodes(c, bs, Pread(data, offset, len), Pread(phys, Start(k, g.slot), g.size[len]));
    }
  }

  /** Without a cipher the read need not cover the live bytes. */
  lemma ReadDecodesPart(c: EncodeDriver, bs: nat, data: seq<byte>, phys: seq<byte>, offset: nat, len: nat)
    requires 0 < bs && c.Valid() && Stored(c, bs, data, phys) && Readable(c.ReadsParts(), bs, |data|, offset, len)
    ensures var got := Pread(phys, c.CypheredBlockOffset(bs, offset), c.CypheredBlockSize(len));
      if offset == |data| then got == []
      else got != [] && c.Decode(got) == Pread(data, offset, len)
  {
    hide Stored; hide Geometry.Valid; hide EncodeDriver.CypheredBlockSize; hide EncodeDriver.Decode;
    if Disciplined(bs, |data|, offset, len) {
      ReadDecodes(c, bs, data, phys, offset, len);
    } else {
      var k := AlignedIsStart(offset, bs);
      OffsetOfBlock(c, bs, k);
      FrontOfBlock(c, bs, data, phys, k, len);
    }
  }

  lemma FrontOfBlock(c: EncodeDriver, bs: nat, data: seq<byte>, phys: seq<byte>, k: nat, len: nat)
    requires 0 < len < bs && c.Valid() && c.ReadsParts() && Stored(c, bs, data, phys) && Start(k, bs) + len < |data|
    ensures var got := Pread(phys, Start(k, c.Slot(bs)), c.CypheredBlockSize(len));
      got != [] && c.Decode(got) == Pread(data, Start(k, bs), len)
  {
    hide Stored; hide EncodeDriver.Encodes; hide EncodeDriver.CypheredBlockSize; hide EncodeDriver.Decode;
    var b, p := BlockAt(bs, data, k), Start(k, c.Slot(bs));
    BlockEncoded(c, bs, data, phys, k);
    DecodeFront(c, b, phys[p..p + c.CypheredBlockSize(|b|)], len);
    SizesFit(c, bs, len, len);
    PreadFront(phys, p, c.CypheredBlockSize(len), c.CypheredBlockSize(|b|));
    PreadFront(data, Start(k, bs), len, |b|);
  }

  /**
    What a stored file is, in the products the drivers compute: block `k` is encoded at slot `k`, and the physical file
    ends with the last encoding, or with the slot of a full last block.
  */
  lemma StoredSlots(c: EncodeDriver, bs: nat, data: seq<byte>, phys: seq<byte>, k: nat)
    requires 0 < bs && c.Valid() && Stored(c, bs, data, phys) && k * bs < |data|
    ensures var b, p := data[k * bs..Min(k * bs + bs, |data|)], k * c.Slot(bs);
      var e := p + c.CypheredBlockSize(|b|);
      && e <= |phys| && c.Encodes(b, phys[p..e])
      && (k * bs + bs >= |data| ==> |phys| == e || (|b| == bs && |phys| == p + c.Slot(bs)))
  {
    hide EncodeDriver.CypheredBlockSize; hide EncodeDriver.Encodes;
    StartIsProduct(k, bs);
    StartIsProduct(k, c.Slot(bs));
    BlockEncoded(c, bs, data, phys, k);
    GeometryIsValid(c, bs);
    if k * bs + bs >= |data| { LastSize(GeometryOf(c, bs), |data|, |phys|, k); }
  }

  lemma BlockEncoded(c: EncodeDriver, bs: nat, data: seq<byte>, phys: seq<byte>, k: nat)
    requires 0 < bs && c.Valid() && Stored(c, bs, data, phys) && Start(k, bs) < |data|
    ensures var b, p := BlockAt(bs, data, k), Start(k, c.Slot(bs));
      var e := p + c.CypheredBlockSize(|b|);
      e <= |phys| && c.Encodes(b, phys[p..e])
  {
    hide Geometry.Valid; hide EncodeDriver.CypheredBlockSize; hide EncodeDriver.Encodes;
    GeometryIsValid(c, bs);
    assert SlotHolds(GeometryOf(c, bs), data, phys, k);
    var b, p := BlockAt(bs, data, k), Start(k, c.Slot(bs));
    ListedExactly(c, bs, b, phys[p..p + c.CypheredBlockSize(|b|)]);
  }

  lemma TruncateSizeIs(c: EncodeDriver, bs: nat, size: nat) returns (q: nat, r: nat)
    requires 0 < bs
    ensures r < bs && size == Start(q, bs) + r
    ensures Aligned(size, bs) <==> r == 0
    ensures var g := GeometryOf(c, bs);
      c.TruncateSize(bs, size) == Start(q, g.slot) + if r > 0 then g.size[r] else 0
  {
    q, r := size / bs, size % bs;
    InBlock(size, bs);
    AlignDown(size, bs);
    TruncateSizeSplit(c, bs, q, r);
  }

  /** Shortening to a block boundary keeps the file stored. */
  lemma FtruncateAligned(c: EncodeDriver, bs: nat, data: seq<byte>, phys: seq<byte>, size: nat)
    requires 0 < bs && c.Valid() && Stored(c, bs, data, phys) && size <= |data| && Aligned(size, bs)
    ensures Stored(c, bs, data[..size], Ftruncate(phys, c.TruncateSize(bs, size)))
  {
    hide Geometry.Valid; hide EncodeDriver.CypheredBlockSize;
    hide Stores; hide Aligned; hide EncodeDriver.TruncateSize;
    GeometryIsValid(c, bs);
    var q, r := TruncateSizeIs(c, bs, size);
    ShortenAligned(GeometryOf(c, bs), data, phys, q, size, c.TruncateSize(bs, size));
  }

  /** Truncating to the size the file has, inside a block, changes nothing. */
  lemma FtruncateSame(c: EncodeDriver, bs: nat, data: seq<byte>, phys: seq<byte>)
    requires 0 < bs && c.Valid() && Stored(c, bs, data, phys) && !Aligned(|data|, bs)
    ensures Ftruncate(phys, c.TruncateSize(bs, |data|)) == phys
  {
    hide Geometry.Valid; hide EncodeDriver.CypheredBlockSize;
    hide Stores; hide Aligned; hide EncodeDriver.TruncateSize;
    GeometryIsValid(c, bs);
    var q, r := TruncateSizeIs(c, bs, |data|);
    SameSizeCut(GeometryOf(c, bs), data, phys, q, r);
  }

  /** Shortening into a block tears that block and nothing else. */
  lemma FtruncateTears(c: EncodeDriver, bs: nat, data: seq<byte>, phys: seq<byte>, size: nat)
    requires 0 < bs && c.Valid() && Stored(c, bs, data, phys) && size <= |data| && !Aligned(size, bs)
    ensures Torn(c, bs, data[..size], Ftruncate(phys, c.TruncateSize(bs, size)))
  {
    hide Geometry.Valid; hide EncodeDriver.CypheredBlockSize;
    hide Stores; hide Aligned; hide EncodeDriver.TruncateSize;
    GeometryIsValid(c, bs);
    var q, r := TruncateSizeIs(c, bs, size);
    ShortenInside(GeometryOf(c, bs), data, phys, q, r, size, c.TruncateSize(bs, size));
  }

  /** Every way to shorten a file. */
  lemma FtruncateCuts(c: EncodeDriver, bs: nat, data: seq<byte>, phys: seq<byte>, size: nat)
    requires 0 < bs && c.Valid() && Stored(c, bs, data, phys) && size <= |data|
    ensures if Aligned(size, bs) || size == |data|
            then Stored(c, bs, data[..size], Ftruncate(phys, c.TruncateSize(bs, size)))
            else Torn(c, bs, data[..size], Ftruncate(phys, c.TruncateSize(bs, size)))
  {
    if Aligned(size, bs) {
      FtruncateAligned(c, bs, data, phys, size);
    } else if size == |data| {
      FtruncateSame(c, bs, data, phys);
      assert data[..size] == data;
    } else {
      FtruncateTears(c, bs, data, phys, size);
    }
  }

  /** The one request that is disciplined after a cut: it rewrites the cut block. */
  predicate Repairs(bs: nat, size: nat, offset: nat, len: nat)
    requires 0 < bs
  {
    Aligned(offset, bs) && offset < size < offset + bs && size == offset + len
  }

  lemma RepairIsDisciplined(bs: nat, size: nat, offset: nat, len: nat)
    requires 0 < bs && Repairs(bs, size, offset, len)
    ensures Disciplined(bs, size, offset, len)
  {
  }

  /** Rewriting the torn block stores the file again. */
  lemma WriteRepairs(
      c: EncodeDriver, bs: nat, data: seq<byte>, phys: seq<byte>, offset: nat, x: seq<byte>, r: seq<byte>)
    requires 0 < bs && c.Valid() && Torn(c, bs, data, phys)
    requires Repairs(bs, |data|, offset, |x|) && |r| == IV_SIZE
    ensures |c.Encode(x, r)| == c.CypheredBlockSize(|x|)
    ensures Stored(c, bs, Pwrite(data, offset, x), Pwrite(phys, c.CypheredBlockOffset(bs, offset), c.Encode(x, r)))
  {
    EncodingIsListed(c, bs, x, r);
    WriteRepairsListed(c, bs, data, phys, offset, x, c.Encode(x, r));
  }

  lemma WriteRepairsListed(
      c: EncodeDriver, bs: nat, data: seq<byte>, phys: seq<byte>, offset: nat, x: seq<byte>, y: seq<byte>)
    requires 0 < bs && c.Valid() && Torn(c, bs, data, phys)
    requires Repairs(bs, |data|, offset, |x|) && (x, y) in GeometryOf(c, bs).encodings
    ensures |y| == c.CypheredBlockSize(|x|)
    ensures Stored(c, bs, Pwrite(data, offset, x), Pwrite(phys, c.CypheredBlockOffset(bs, offset), y))
  {
    hide Geometry.Valid; hide EncodeDriver.CypheredBlockSize;
    GeometryIsValid(c, bs);
    ListedDecodes(c, bs, x, y);
    var k := AlignedIsStart(offset, bs);
    OffsetOfBlock(c, bs, k);
    RepairTorn(GeometryOf(c, bs), data, phys, k, x, y);
  }

  /**
    When a whole block may be written at `offset`, behind the end of file: the last block, if it is partial, extended
    with zeros has its encoding extended with zeros as an encoding; and zeros encode a block of zeros, if the hole has
    a whole block.
  */
  ghost predicate HoleFits(c: EncodeDriver, bs: nat, data: seq<byte>, phys: seq<byte>, offset: nat)
    requires 0 < bs
  {
    var r, n := |data| % bs, c.CypheredBlockSize(bs);
    AlignDown(|data|, bs);
    var last := data[|data| - r..];
    var encoded := Pread(phys, c.CypheredBlockOffset(bs, |data| - r), c.CypheredBlockSize(r));
    && (0 < r ==> c.Encodes(Ftruncate(last, bs), Ftruncate(encoded, n)))
    && (|data| + (if 0 < r then bs - r else 0) < offset ==> c.Encodes(Zeros(bs), Zeros(n)))
  }

  /** The request that the discipline leaves out: a whole block behind the end of file. */
  predicate LeavesHole(bs: nat, size: nat, offset: nat, len: nat)
    requires 0 < bs
  {
    len == bs && Aligned(offset, bs) && size < offset
  }

  /** The same with the number `q` of full blocks and the `r` bytes of the last, partial one. */
  lemma HoleFitsBehind(
      c: EncodeDriver, bs: nat, data: seq<byte>, phys: seq<byte>, offset: nat, q: nat, r: nat)
    requires r < bs && |data| == Start(q, bs) + r
    ensures var n, encoded := c.CypheredBlockSize(bs), Pread(phys, Start(q, c.Slot(bs)), c.CypheredBlockSize(r));
      HoleFits(c, bs, data, phys, offset) <==>
      && (0 < r ==> c.Encodes(Ftruncate(data[Start(q, bs)..], bs), Ftruncate(encoded, n)))
      && (Start(q, bs) + (if 0 < r then bs else 0) < offset ==> c.Encodes(Zeros(bs), Zeros(n)))
  {
    hide EncodeDriver.Encodes; hide EncodeDriver.CypheredBlockSize; hide EncodeDriver.CypheredBlockOffset;
    hide Aligned;
    SplitOf(|data|, q, r, bs);
    OffsetOfBlock(c, bs, q);
  }

  /**
    The one write the discipline leaves out and block alignment lets through: a whole block behind the end of file.
    What it leaves is a stored file exactly when the hole fits.
  */
  lemma HoleExactly(
      c: EncodeDriver, bs: nat, data: seq<byte>, phys: seq<byte>, offset: nat, x: seq<byte>, r: seq<byte>)
    requires 0 < bs && c.Valid() && Stored(c, bs, data, phys) && |r| == IV_SIZE
    requires LeavesHole(bs, |data|, offset, |x|)
    ensures |c.Encode(x, r)| == c.CypheredBlockSize(|x|)
    ensures Stored(c, bs, Pwrite(data, offset, x), Pwrite(phys, c.CypheredBlockOffset(bs, offset), c.Encode(x, r))) <==>
            HoleFits(c, bs, data, phys, offset)
  {
    EncodingIsListed(c, bs, x, r);
    ListedDecodes(c, bs, x, c.Encode(x, r));
    HoleExactlyListed(c, bs, data, phys, offset, x, c.Encode(x, r));
  }

  lemma HoleExactlyListed(
      c: EncodeDriver, bs: nat, data: seq<byte>, phys: seq<byte>, offset: nat, x: seq<byte>, y: seq<byte>)
    requires 0 < bs == |x| && c.Valid() && Stored(c, bs, data, phys) && (x, y) in GeometryOf(c, bs).encodings
    requires Aligned(offset, bs) && |data| < offset
    ensures Stored(c, bs, Pwrite(data, offset, x), Pwrite(phys, c.CypheredBlockOffset(bs, offset), y)) <==>
            HoleFits(c, bs, data, phys, offset)
  {
    hide HoleFits; hide Stored;
    var q, r := TruncateSizeIs(c, bs, |data|);
    var k := AlignedIsStart(offset, bs);
    OffsetOfBlock(c, bs, k);
    HoleFitsBehind(c, bs, data, phys, offset, q, r);
    if r == 0 {
      HoleAligned(c, bs, data, phys, q, k, x, y);
    } else {
      HolePartial(c, bs, data, phys, q, r, k, x, y);
    }
  }

  lemma HoleAligned(
      c: EncodeDriver, bs: nat, data: seq<byte>, phys: seq<byte>, q: nat, k: nat, x: seq<byte>, y: seq<byte>)
    requires 0 < bs == |x| && c.Valid() && Stored(c, bs, data, phys) && (x, y) in GeometryOf(c, bs).encodings
    requires |data| == Start(q, bs) < Start(k, bs)
    ensures Stored(c, bs, Pwrite(data, Start(k, bs), x), Pwrite(phys, Start(k, c.Slot(bs)), y)) <==>
            c.Encodes(Zeros(bs), Zeros(c.CypheredBlockSize(bs)))
  {
    hide Geometry.Valid; hide EncodeDriver.CypheredBlockSize;
    GeometryIsValid(c, bs);
    if k <= q { StartMono(k, q, bs); }
    ListedExactly(c, bs, Zeros(bs), Zeros(c.CypheredBlockSize(bs)));
    HoleBehindBlocks(GeometryOf(c, bs), data, phys, q, k, x, y);
  }

  lemma HolePartial(
      c: EncodeDriver, bs: nat, data: seq<byte>, phys: seq<byte>, q: nat, r: nat, k: nat, x: seq<byte>, y: seq<byte>)
    requires 0 < bs == |x| && c.Valid() && Stored(c, bs, data, phys) && (x, y) in GeometryOf(c, bs).encodings
    requires 0 < r < bs && |data| == Start(q, bs) + r < Start(k, bs)
    ensures Stored(c, bs, Pwrite(data, Start(k, bs), x), Pwrite(phys, Start(k, c.Slot(bs)), y)) <==>
            var n, encoded := c.CypheredBlockSize(bs), Pread(phys, Start(q, c.Slot(bs)), c.CypheredBlockSize(r));
            && c.Encodes(Ftruncate(data[Start(q, bs)..], bs), Ftruncate(encoded, n))
            && (Start(q, bs) + bs < Start(k, bs) ==> c.Encodes(Zeros(bs), Zeros(n)))
  {
    hide EncodeDriver.Encodes; hide Stores; hide ExtensionEncodes; hide Geometry.Valid;
    GeometryIsValid(c, bs);
    if k <= q { StartMono(k, q, bs); }
    if q + 1 < k { StartMono(q + 1, k, bs); }
    ListedExactly(c, bs, Zeros(bs), Zeros(c.CypheredBlockSize(bs)));
    LastBlockEncoded(c, bs, data, phys, q, r);
    ExtensionListed(c, bs, data, phys, q, r);
    HoleBehindPartial(GeometryOf(c, bs), data, phys, q, k, x, y);
  }

  lemma ListedExactly(c: EncodeDriver, bs: nat, x: seq<byte>, y: seq<byte>)
    ensures (x, y) in GeometryOf(c, bs).encodings <==> c.Encodes(x, y)
  {
  }

  /** What is stored for a partial last block: all bytes behind the full slots, and one of its encodings. */
  lemma LastBlockEncoded(c: EncodeDriver, bs: nat, data: seq<byte>, phys: seq<byte>, q: nat, r: nat)
    requires c.Valid() && 0 < r < bs && |data| == Start(q, bs) + r && Stored(c, bs, data, phys)
    ensures |phys| == Start(q, c.Slot(bs)) + c.CypheredBlockSize(r)
    ensures c.CypheredBlockSize(r) <= c.CypheredBlockSize(bs)
    ensures Pread(phys, Start(q, c.Slot(bs)), c.CypheredBlockSize(r)) == phys[Start(q, c.Slot(bs))..]
    ensures c.Encodes(data[Start(q, bs)..], phys[Start(q, c.Slot(bs))..])
  {
    hide Geometry.Valid; hide EncodeDriver.CypheredBlockSize;
    SizesFit(c, bs, r, r);
    GeometryIsValid(c, bs);
    PartialBlock(GeometryOf(c, bs), data, phys, q, r);
    ListedExactly(c, bs, data[Start(q, bs)..], phys[Start(q, c.Slot(bs))..]);
  }

  lemma ExtensionListed(c: EncodeDriver, bs: nat, data: seq<byte>, phys: seq<byte>, q: nat, r: nat)
    requires 0 < bs && c.Valid() && 0 < r < bs && |data| == Start(q, bs) + r
    requires |phys| == Start(q, c.Slot(bs)) + c.CypheredBlockSize(r)
    requires c.CypheredBlockSize(r) <= c.CypheredBlockSize(bs)
    ensures GeometryOf(c, bs).Valid()
    ensures var e := phys[Start(q, c.Slot(bs))..];
      ExtensionEncodes(GeometryOf(c, bs), data, phys, q) <==>
      c.Encodes(Ftruncate(data[Start(q, bs)..], bs), Ftruncate(e, c.CypheredBlockSize(bs)))
  {
    hide EncodeDriver.Encodes; hide EncodeDriver.CypheredBlockSize; hide Geometry.Valid;
    GeometryIsValid(c, bs);
    var b, e := data[Start(q, bs)..], phys[Start(q, c.Slot(bs))..];
    FtruncateExtends(b, bs);
    FtruncateExtends(e, c.CypheredBlockSize(bs));
    ListedExactly(c, bs, b + Zeros(bs - |b|), e + Zeros(c.CypheredBlockSize(bs) - |e|));
  }

  /** Without a cipher, zeros encode zeros. */
  lemma PlainZeros(c: EncodeDriver, bs: nat)
    requires c.Nopcrypt? || c.NopcryptPad?
    ensures c.Encodes(Zeros(bs), Zeros(c.CypheredBlockSize(bs)))
  {
    assert c.Encode(Zeros(bs), Zeros(IV_SIZE)) == Zeros(c.CypheredBlockSize(bs));
  }

  /** Without any encoding every hole fits. */
  lemma PlainHoleFits(bs: nat, data: seq<byte>, phys: seq<byte>, offset: nat)
    requires 0 < bs && Stored(Nopcrypt, bs, data, phys)
    ensures HoleFits(Nopcrypt, bs, data, phys, offset)
  {
    hide HoleFits;
    PlainZeros(Nopcrypt, bs);
    var q, r := TruncateSizeIs(Nopcrypt, bs, |data|);
    HoleFitsBehind(Nopcrypt, bs, data, phys, offset, q, r);
    if 0 < r {
      LastBlockEncoded(Nopcrypt, bs, data, phys, q, r);
      PlainExtension(data[Start(q, bs)..], bs);
    }
  }

  lemma PlainExtension(b: seq<byte>, bs: nat)
    ensures Nopcrypt.Encodes(Ftruncate(b, bs), Ftruncate(b, bs))
  {
    assert Nopcrypt.Encode(Ftruncate(b, bs), Zeros(IV_SIZE)) == Ftruncate(b, bs);
  }

  /** With padding a hole fits exactly when the pad of a partial last block is zeros as far as the block reaches. */
  lemma PaddedHoleExactly(bs: nat, data: seq<byte>, phys: seq<byte>, offset: nat)
    requires 0 < bs && Stored(NopcryptPad, bs, data, phys)
    ensures 0 < |data| % bs ==> NOP_PADSIZE <= |phys|
    ensures HoleFits(NopcryptPad, bs, data, phys, offset) <==>
            (0 < |data| % bs ==> PadIsZero(phys, bs - |data| % bs))
  {
    hide *;
    var q, r := TruncateSizeIs(NopcryptPad, bs, |data|);
    SplitOf(|data|, q, r, bs);
    HoleFitsBehind(NopcryptPad, bs, data, phys, offset, q, r);
    PlainZeros(NopcryptPad, bs);
    if 0 < r { PaddedLastBlock(bs, data, phys, q, r); }
  }

  /** The first `n` bytes of the pad at the end of the file are zeros. */
  predicate PadIsZero(phys: seq<byte>, n: nat)
    requires NOP_PADSIZE <= |phys|
  {
    var pad := phys[|phys| - NOP_PADSIZE..];
    pad[..Min(n, NOP_PADSIZE)] == Zeros(Min(n, NOP_PADSIZE))
  }

  lemma PaddedLastBlock(bs: nat, data: seq<byte>, phys: seq<byte>, q: nat, r: nat)
    requires 0 < r < bs && |data| == Start(q, bs) + r && Stored(NopcryptPad, bs, data, phys)
    ensures NOP_PADSIZE <= |phys|
    ensures var c := NopcryptPad;
      var n, encoded := c.CypheredBlockSize(bs), Pread(phys, Start(q, c.Slot(bs)), c.CypheredBlockSize(r));
      c.Encodes(Ftruncate(data[Start(q, bs)..], bs), Ftruncate(encoded, n)) <==> PadIsZero(phys, bs - r)
  {
    hide Stored; hide EncodeDriver.Encodes;
    LastBlockEncoded(NopcryptPad, bs, data, phys, q, r);
    var e := phys[Start(q, bs + NOP_PADSIZE)..];
    PaddedExtension(bs, data[Start(q, bs)..], e);
    assert phys[|phys| - NOP_PADSIZE..] == e[r..];
  }

  lemma PaddedExtension(bs: nat, b: seq<byte>, e: seq<byte>)
    requires |b| < bs && NopcryptPad.Encodes(b, e)
    ensures |e| == |b| + NOP_PADSIZE
    ensures NopcryptPad.Encodes(Ftruncate(b, bs), Ftruncate(e, bs + NOP_PADSIZE)) <==>
            var m := Min(bs - |b|, NOP_PADSIZE); e[|b|..][..m] == Zeros(m)
  {
    var b', e', m := Ftruncate(b, bs), Ftruncate(e, bs + NOP_PADSIZE), Min(bs - |b|, NOP_PADSIZE);
    if e[|b|..][..m] == Zeros(m) {
      forall i | |b| <= i < |b| + m ensures e[i] == 0 {
        assert e[|b|..][..m][i - |b|] == Zeros(m)[i - |b|];
      }
      assert b' + e'[bs..] == e';
      assert NopcryptPad.Encode(b', e'[bs..]) == e';
    }
    if NopcryptPad.Encodes(b', e') {
      forall i | 0 <= i < m ensures e[|b|..][..m][i] == 0 {
        assert e'[|b| + i] == b'[|b| + i];
      }
    }
  }

  /** A file of one byte under a pad of ones: behind it no hole fits, though zeros encode zeros. */
  lemma PaddedHoleBreaks(offset: nat)
    ensures var data, phys := [7], [7] + seq(NOP_PADSIZE, _ => 1);
      && Stored(NopcryptPad, 2, data, phys)
      && NopcryptPad.Encodes(Zeros(2), Zeros(NopcryptPad.CypheredBlockSize(2)))
      && !HoleFits(NopcryptPad, 2, data, phys, offset)
  {
    hide HoleFits; hide Stored; hide EncodeDriver.Encodes;
    var pad := seq(NOP_PADSIZE, _ => 1 as byte);
    OneByteIsStored(pad);
    PlainZeros(NopcryptPad, 2);
    PaddedHoleExactly(2, [7], [7] + pad, offset);
    assert ([7] + pad)[1..][..1][0] == 1 && Zeros(1)[0] == 0;
  }

  lemma OneByteIsStored(pad: seq<byte>)
    requires |pad| == NOP_PADSIZE
    ensures Stored(NopcryptPad, 2, [7], [7] + pad)
  {
    hide Stored; hide EncodeDriver.Encodes;
    NewFileIsStored(NopcryptPad, 2);
    WriteStores(NopcryptPad, 2, [], [], 0, [7], pad);
    assert Pwrite([], 0, [7]) == [7] && Pwrite([], 0, [7] + pad) == [7] + pad;
  }

  /**
    Where full blocks fill their slots, the requests below the encoding layer are disciplined too, for blocks as wide
    as slots; and a read inside the file becomes a read inside the physical file.
  */
  lemma LowerDisciplined(c: EncodeDriver, bs: nat, data: seq<byte>, phys: seq<byte>, offset: nat, len: nat)
    requires 0 < bs && c.Valid() && Stored(c, bs, data, phys) && Disciplined(bs, |data|, offset, len)
    requires c.FillsSlot(bs)
    ensures Disciplined(c.Slot(bs), |phys|, c.CypheredBlockOffset(bs, offset), c.CypheredBlockSize(len))
    ensures offset + len <= |data| ==> c.CypheredBlockOffset(bs, offset) + c.CypheredBlockSize(len) <= |phys|
  {
    GeometryIsValid(c, bs);
    FullExactly(c, bs);
    SizesFit(c, bs, len, len);
    var k := BlockOfRequest(c, bs, |data|, offset, len);
    StartIsAligned(k, c.Slot(bs));
    BlockBounds(GeometryOf(c, bs), data, phys, k, len);
  }

  /** The tail that the ciphers' size recovery reads is the last slot's. */
  lemma TailDisciplined(c: EncodeDriver, bs: nat, phys: seq<byte>)
    requires 0 < bs && 0 < |phys| % c.Slot(bs)
    ensures var tail := |phys| % c.Slot(bs);
      tail <= |phys| && Disciplined(c.Slot(bs), |phys|, |phys| - tail, tail)
  {
    AlignDown(|phys|, c.Slot(bs));
  }

  // ----- sizes

  /** What a driver's `get_file_size` computes from the physical file. */
  function RecoveredSize(c: EncodeDriver, bs: nat, phys: seq<byte>): int
    requires 0 < bs
  {
    var S := c.Slot(bs);
    var slots, tail := |phys| / S, |phys| % S;
    match c
    case Nopcrypt => |phys|
    case NopcryptPad => |phys| - (slots + if tail > 0 then 1 else 0) * NOP_PADSIZE
    case _ => Start(slots, bs) + if tail > 0 then |c.Decode(phys[|phys| - tail..])| else 0
  }

  /** The size formula of the ciphers' drivers, with their multiplication. */
  lemma RecoveredFormula(c: EncodeDriver, bs: nat, phys: seq<byte>)
    requires 0 < bs && (c.Standard? || c.Deterministic?)
    ensures var tail := |phys| % c.Slot(bs);
      RecoveredSize(c, bs, phys) ==
      |phys| / c.Slot(bs) * bs + if tail > 0 then |c.Decode(phys[|phys| - tail..])| else 0
  {
    StartIsProduct(|phys| / c.Slot(bs), bs);
  }

  /** Each driver recovers the logical size of every stored file. */
  lemma SizeRecovered(c: EncodeDriver, bs: nat, data: seq<byte>, phys: seq<byte>)
    requires 0 < bs && c.Valid() && Stored(c, bs, data, phys)
    ensures RecoveredSize(c, bs, phys) == |data|
  {
    hide Geometry.Valid; hide EncodeDriver.CypheredBlockSize;
    GeometryIsValid(c, bs);
    var k, b := TailIsLastBlock(GeometryOf(c, bs), data, phys);
    RecoveredFromTail(c, bs, phys, k, b);
  }

  lemma RecoveredFromTail(c: EncodeDriver, bs: nat, phys: seq<byte>, k: nat, b: seq<byte>)
    requires 0 < bs && c.Valid() && Start(k, c.Slot(bs)) <= |phys| < Start(k, c.Slot(bs)) + c.Slot(bs)
    requires if |phys| == Start(k, c.Slot(bs)) then b == []
             else (b, phys[Start(k, c.Slot(bs))..]) in GeometryOf(c, bs).encodings
    ensures RecoveredSize(c, bs, phys) == Start(k, bs) + |b|
  {
    var o := Start(k, c.Slot(bs));
    SplitOf(|phys|, k, |phys| - o, c.Slot(bs));
    if o < |phys| { ListedDecodes(c, bs, b, phys[o..]); }
    if c.Nopcrypt? { assert c.Slot(bs) == bs; }
    if c.NopcryptPad? { PaddedStart(k, bs); }
  }

  lemma {:induction false} PaddedStart(k: nat, bs: nat)
    ensures Start(k, bs + NOP_PADSIZE) == Start(k, bs) + k * NOP_PADSIZE
  {
    if k > 0 { PaddedStart(k - 1, bs); }
  }

  /** In arithmetic alone: the padded driver's size formula undoes its truncate-size formula. */
  lemma PaddedSizeInverse(bs: nat, n: nat, phys: seq<byte>)
    requires 0 < bs && |phys| == NopcryptPad.TruncateSize(bs, n)
    ensures RecoveredSize(NopcryptPad, bs, phys) == n
  {
    var c, q, r := NopcryptPad, n / bs, n % bs;
    InBlock(n, bs);
    TruncateSizeSplit(c, bs, q, r);
    SplitOf(|phys|, q, if r > 0 then r + NOP_PADSIZE else 0, c.Slot(bs));
    PaddedStart(q, bs);
  }

  /**
    Where full blocks fill their slots, a stored file is its encodings and nothing more: its size is the
    truncate-size formula of the logical size, so nothing stale is left behind the last encoding.
  */
  lemma ExactPhysicalSize(c: EncodeDriver, bs: nat, data: seq<byte>, phys: seq<byte>)
    requires 0 < bs && c.Valid() && Stored(c, bs, data, phys)
    requires c.FillsSlot(bs)
    ensures |phys| == c.TruncateSize(bs, |data|)
  {
    hide Geometry.Valid; hide EncodeDriver.CypheredBlockSize;
    GeometryIsValid(c, bs);
    FullExactly(c, bs);
    var q, r := TruncateSizeIs(c, bs, |data|);
    ExactSize(GeometryOf(c, bs), |data|, |phys|, q, r);
  }

  // ----- canonical storage

  lemma FullExactly(c: EncodeDriver, bs: nat)
    ensures Full(GeometryOf(c, bs)) <==> c.FillsSlot(bs)
  {
    FullBlockFillsSlot(c, bs);
  }

  lemma OneEncoding(c: EncodeDriver, bs: nat)
    requires c.IsDeterministic()
    ensures Functional(GeometryOf(c, bs))
  {
    var g := GeometryOf(c, bs);
    forall x, y, y' | (x, y) in g.encodings && (x, y') in g.encodings ensures y == y' {
      var r: seq<byte> :| |r| == IV_SIZE && c.Encode(x, r) == y;
      var r': seq<byte> :| |r'| == IV_SIZE && c.Encode(x, r') == y';
    }
  }

  /** Equal contents give equal files. */
  ghost predicate StoresCanonically(c: EncodeDriver, bs: nat)
    requires 0 < bs && c.Valid()
  {
    forall data, phys, phys' :: Stored(c, bs, data, phys) && Stored(c, bs, data, phys') ==> phys == phys'
  }

  /**
    A driver without randomness stores equal contents as equal bytes exactly when the cipher, if there is one,
    fills its slots: when the block size is a multiple of 16.
  */
  lemma CanonicalExactly(c: EncodeDriver, bs: nat)
    requires 0 < bs && c.Valid() && c.IsDeterministic()
    ensures StoresCanonically(c, bs) <==> c.Nopcrypt? || bs % 16 == 0
  {
    GeometryIsValid(c, bs);
    var g := GeometryOf(c, bs);
    OneEncoding(c, bs);
    FullExactly(c, bs);
    var x, r := Zeros(bs), Zeros(IV_SIZE);
    EncodingIsListed(c, bs, x, r);
    Layout.CanonicalExactly(g, x, c.Encode(x, r));
    assert Canonical(g) <==> StoresCanonically(c, bs) by {
      if Canonical(g) {
        forall data, phys, phys' | Stored(c, bs, data, phys) && Stored(c, bs, data, phys') ensures phys == phys' {
          assert Stores(g, data, phys) && Stores(g, data, phys');
        }
      }
      if StoresCanonically(c, bs) {
        forall data, phys, phys' | Stores(g, data, phys) && Stores(g, data, phys') ensures phys == phys' {
          assert Stored(c, bs, data, phys) && Stored(c, bs, data, phys');
        }
      }
    }
  }

  /**
    The choice shows in practice: a file of one block, written, and the same file truncated to the size it already
    has, are both stored; their bytes are equal exactly when the block fills its slot.
  */
  lemma TruncateToSameSize(c: EncodeDriver, bs: nat, x: seq<byte>, r: seq<byte>)
    requires 0 < bs == |x| && c.Valid() && |r| == IV_SIZE
    ensures var written := Pwrite([], 0, c.Encode(x, r));
      var truncated := Ftruncate(written, c.TruncateSize(bs, bs));
      && Stored(c, bs, x, written)
      && Stored(c, bs, x, truncated)
      && (written == truncated <==> c.FillsSlot(bs))
  {
    EncodingIsListed(c, bs, x, r);
    StoredTwoWays(c, bs, x, c.Encode(x, r));
  }

  lemma StoredTwoWays(c: EncodeDriver, bs: nat, x: seq<byte>, y: seq<byte>)
    requires 0 < bs == |x| && c.Valid() && (x, y) in GeometryOf(c, bs).encodings
    ensures var written := Pwrite([], 0, y);
      var truncated := Ftruncate(written, c.TruncateSize(bs, bs));
      && Stored(c, bs, x, written)
      && Stored(c, bs, x, truncated)
      && (written == truncated <==> c.FillsSlot(bs))
  {
    hide Geometry.Valid; hide EncodeDriver.CypheredBlockSize;
    GeometryIsValid(c, bs);
    TwoWaysToStore(GeometryOf(c, bs), x, y);
    TruncateOneBlock(c, bs);
    FullExactly(c, bs);
  }

  lemma TruncateOneBlock(c: EncodeDriver, bs: nat)
    requires 0 < bs
    ensures c.TruncateSize(bs, bs) == c.Slot(bs)
  {
    assert Start(1, bs) == bs && Start(1, c.Slot(bs)) == c.Slot(bs);
    TruncateSizeSplit(c, bs, 1, 0);
  }
}
