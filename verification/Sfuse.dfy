/** The encoding layer, sfuse.c, for one open file over the multi-device layer in any mode. */
module SfuseLayer {
  import opened Bytes
  import opened Blocks
  import opened Driver
  import opened Storage
  import opened DeviceFiles

  class Sfuse {
    const driver: EncodeDriver
    const bs: nat
    const lower: DeviceFile
    ghost var contents: seq<byte>  // the logical file
    ghost var torn: bool           // the last block was cut and not yet rewritten

    ghost predicate Valid()
      reads this, lower, lower.Repr
    {
      && 0 < bs && driver.Valid() && lower.Valid() && this !in lower.Repr && lower !in lower.Repr
      && (lower.ByIndex() ==> !torn && driver.FillsSlot(bs) && lower.width == driver.Slot(bs))
      && if torn then Torn(driver, bs, contents, lower.contents)
         else Stored(driver, bs, contents, lower.contents)
    }

    /** A new file. In erasure mode the blocks the index knows have to be the slots, all of them full. */
    constructor (driver: EncodeDriver, bs: nat, lower: DeviceFile)
      requires 0 < bs && driver.Valid() && lower.Valid() && lower.contents == []
      requires lower.ByIndex() ==> driver.FillsSlot(bs) && lower.width == driver.Slot(bs)
      ensures Valid() && !torn && contents == []
      ensures this.driver == driver && this.bs == bs && this.lower == lower
    {
      NewFileIsStored(driver, bs);
      this.driver := driver;
      this.bs := bs;
      this.lower := lower;
      this.contents := [];
      this.torn := false;
    }

    /** A read need not cover the live bytes of its block. */
    predicate ReadsParts() {
      !lower.ByIndex() && driver.ReadsParts()
    }

    /** `sfuse_read`; the discipline is what makes the bytes read one whole encoding. */
    method Read(buf: array<byte>, size: nat, offset: nat) returns (res: int)
      requires Valid() && !torn && Readable(ReadsParts(), bs, |contents|, offset, size) && size <= buf.Length
      requires lower.ByIndex() ==> offset + size <= |contents|
      modifies lower.Repr, buf
      ensures Valid()
      ensures var got := Pread(contents, offset, size); res == |got| && buf[..res] == got
      ensures buf[size..] == old(buf[size..])
    {
      hide Stored; hide Torn; hide DeviceFile.Valid; hide EncodeDriver.FillsSlot;
      var cblockSize := driver.CypheredBlockSize(size);
      var cblockOffset := driver.CypheredBlockOffset(bs, offset);
      var aux := new byte[cblockSize];
      lower.Separate(buf);
      if lower.ByIndex() { LowerDisciplined(driver, bs, contents, lower.contents, offset, size); }
      ReadDecodesPart(driver, bs, contents, lower.contents, offset, size);
      res := lower.Read(aux, cblockSize, cblockOffset);
      if res <= 0 {
        return res;
      }
      var plain := driver.Decode(aux[..res]);
      PutFront(buf, plain, size);
      return |plain|;
    }

    /** A whole block behind the end of file may be written at `offset`. */
    ghost predicate HoleFits(offset: nat)
      requires 0 < bs
      reads this, lower
    {
      !lower.ByIndex() && Storage.HoleFits(driver, bs, contents, lower.contents, offset)
    }

    /**
      `sfuse_write`; after a cut, only the write that rewrites the cut block is disciplined. `r` is the driver's
      randomness; what is written is the encoding under it.
    */
    method Write(buf: seq<byte>, offset: nat, r: seq<byte>) returns (res: int)
      requires Valid() && |r| == IV_SIZE
      requires if torn then Repairs(bs, |contents|, offset, |buf|)
               else || Disciplined(bs, |contents|, offset, |buf|)
                    || (LeavesHole(bs, |contents|, offset, |buf|) && HoleFits(offset))
      modifies this, lower, lower.Repr
      ensures Valid() && !torn
      ensures contents == Pwrite(old(contents), offset, buf)
      ensures lower.contents ==
              Pwrite(old(lower.contents), driver.CypheredBlockOffset(bs, offset), driver.Encode(buf, r))
      ensures res == |buf|
    {
      hide Stored; hide Torn; hide Storage.HoleFits; hide DeviceFile.Valid; hide EncodeDriver.FillsSlot;
      var cblockSize := driver.CypheredBlockSize(|buf|);
      var cblockOffset := driver.CypheredBlockOffset(bs, offset);
      var aux := driver.Encode(buf, r);
      if torn {
        WriteRepairs(driver, bs, contents, lower.contents, offset, buf, r);
      } else if Disciplined(bs, |contents|, offset, |buf|) {
        if lower.ByIndex() { LowerDisciplined(driver, bs, contents, lower.contents, offset, |buf|); }
        WriteStores(driver, bs, contents, lower.contents, offset, buf, r);
      } else {
        HoleExactly(driver, bs, contents, lower.contents, offset, buf, r);
      }
      if |aux| < cblockSize {
        return -1;
      }
      res := lower.Write(aux, cblockOffset);
      contents, torn := Pwrite(contents, offset, buf), false;
      if res < 0 {
        return res;
      }
      if res < cblockSize {
        return -1;
      }
      return |buf|;
    }

    /** `sfuse_fgetattr` with the driver's `get_file_size`. */
    method Fgetattr() returns (size: int)
      requires Valid() && !torn
      modifies lower.Repr
      ensures Valid() && size == |contents|
    {
      hide Stored; hide Torn; hide DeviceFile.Valid; hide EncodeDriver.FillsSlot;
      SizeRecovered(driver, bs, contents, lower.contents);
      var original := lower.Fgetattr();
      match driver {
        case Nopcrypt => size := original;
        case NopcryptPad =>
          var blocks := original / (bs + NOP_PADSIZE);
          if original % (bs + NOP_PADSIZE) > 0 {
            blocks := blocks + 1;
          }
          size := original - blocks * NOP_PADSIZE;
        case _ => size := SizeByDecoding(original);
      }
    }

    /** `det_get_file_size` and `rand_get_file_size`: the block behind the last full slot is read and decoded. */
    method SizeByDecoding(original: nat) returns (size: int)
      requires Valid() && original == |lower.contents|
      requires driver.Standard? || driver.Deterministic?
      modifies lower.Repr
      ensures Valid() && size == RecoveredSize(driver, bs, lower.contents)
    {
      hide Stored; hide Torn; hide DeviceFile.Valid; hide EncodeDriver.FillsSlot;
      RecoveredFormula(driver, bs, lower.contents);
      var blocks := original / driver.Slot(bs);
      var tail := original % driver.Slot(bs);
      var realSize := 0;
      if tail > 0 {
        TailDisciplined(driver, bs, lower.contents);
        var res, aux := ReadTail(original - tail, tail);
        if res < tail {
          return -1;
        }
        var plain := driver.Decode(aux);
        realSize := |plain|;
      }
      size := blocks * bs + realSize;
    }

    method ReadTail(address: nat, tail: nat) returns (res: int, bytes: seq<byte>)
      requires Valid() && 0 < tail && address + tail == |lower.contents|
      requires lower.ByIndex() ==> Disciplined(lower.width, |lower.contents|, address, tail)
      modifies lower.Repr
      ensures Valid()
      ensures res == tail && bytes == lower.contents[address..]
    {
      hide Stored; hide Torn; hide DeviceFile.Valid; hide EncodeDriver.FillsSlot;
      var aux := new byte[tail];
      PreadSlice(lower.contents, address, tail, address + tail);
      res := lower.Read(aux, tail, address);
      bytes := aux[..];
    }

    /** `sfuse_ftruncate`, to no more than the size the file has: the layer above fills a file before it cuts it. */
    method Ftruncate(size: nat) returns (res: int)
      requires Valid() && !torn && size <= |contents| && !lower.ByIndex()
      modifies this, lower, lower.Repr
      ensures Valid() && contents == old(contents)[..size]
      ensures torn <==> !Aligned(size, bs) && size < |old(contents)|
      ensures lower.contents == Bytes.Ftruncate(old(lower.contents), driver.TruncateSize(bs, size))
      ensures res == 0
    {
      hide Stored; hide Torn; hide DeviceFile.Valid; hide EncodeDriver.FillsSlot;
      var truncateSize := driver.TruncateSize(bs, size);
      FtruncateCuts(driver, bs, contents, lower.contents, size);
      res := lower.Ftruncate(truncateSize);
      torn := !Aligned(size, bs) && size < |contents|;
      contents := contents[..size];
      if res == -1 {
        return -1;
      }
      return 0;
    }
  }

  /** What `decode` does to the caller's buffer. */
  method PutFront(buf: array<byte>, plain: seq<byte>, size: nat)
    requires |plain| <= size <= buf.Length
    modifies buf
    ensures buf[..|plain|] == plain && buf[size..] == old(buf[size..])
  {
    forall i | 0 <= i < |plain| {
      buf[i] := plain[i];
    }
  }

  /** The bytes `openssl_rand_str` draws, or whatever follows the source buffer: any 16 bytes. */
  method Randomness() returns (r: seq<byte>)
    ensures |r| == IV_SIZE
  {
    r := [];
    for i := 0 to IV_SIZE
      invariant |r| == i
    {
      var b: byte := *;
      r := r + [b];
    }
  }
}
