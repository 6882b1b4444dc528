/**
  The layer below block alignment, `struct fuse_operations nextlayer` with a path and an open handle: the encoding
  layer, or the multi-device layer itself.
*/
module NextLayerInterface {
  import opened Bytes
  import opened Blocks
  import opened Driver
  import opened Storage
  import opened DeviceFiles
  import opened SfuseLayer

  /**
    What can be asked for: any request; all but holes; no reads of parts of blocks either; no truncates either, and
    reads inside the file only.
  */
  datatype Service = PLAIN | PADDED | ENCODED | BY_INDEX {
    predicate ReadsParts() {
      PLAIN? || PADDED?
    }
  }

  /** The service of the encoding layer over devices without an index. */
  function ServiceOf(driver: EncodeDriver): Service {
    match driver
    case Nopcrypt => PLAIN
    case NopcryptPad => PADDED
    case _ => ENCODED
  }

  class NextLayer {
    const bs: nat
    const sfuse: Sfuse?
    const devices: DeviceFile  // the layer below the encoding layer, if there is one
    ghost const Repr: set<object>
    ghost var contents: seq<byte>  // the file
    ghost var torn: bool           // its last block was cut and not yet rewritten

    ghost predicate Valid()
      reads this, Repr
    {
      && 0 < bs && this !in Repr
      && devices in Repr && devices.Repr <= Repr && devices !in devices.Repr && devices.Valid()
      && (sfuse != null ==>
            && sfuse in Repr && sfuse !in devices.Repr && sfuse.lower == devices
            && Repr == {sfuse, devices} + devices.Repr
            && sfuse.bs == bs && sfuse.Valid() && sfuse.contents == contents && sfuse.torn == torn)
      && (sfuse == null ==>
            && Repr == {devices} + devices.Repr
            && (devices.ByIndex() ==> devices.width == bs) && devices.contents == contents && !torn)
    }

    predicate ByIndex() {
      devices.ByIndex()
    }

    function Offers(): Service {
      if devices.ByIndex() then BY_INDEX
      else if sfuse == null then PLAIN
      else ServiceOf(sfuse.driver)
    }

    /** A read need not cover the live bytes of its block. */
    predicate ReadsParts() {
      Offers().ReadsParts()
    }

    /** The layers below share no buffer with the ones above. */
    lemma Separate(buf: array<byte>)
      requires Valid()
      ensures buf !in Repr
    {
      devices.Separate(buf);
    }

    constructor OfSfuse(sfuse: Sfuse)
      requires sfuse.Valid()
      ensures Valid() && this.sfuse == sfuse && this.devices == sfuse.lower && bs == sfuse.bs
      ensures contents == sfuse.contents && torn == sfuse.torn
      ensures Repr == {sfuse, sfuse.lower} + sfuse.lower.Repr
    {
      this.bs := sfuse.bs;
      this.sfuse := sfuse;
      this.devices := sfuse.lower;
      this.Repr := {sfuse, sfuse.lower} + sfuse.lower.Repr;
      this.contents := sfuse.contents;
      this.torn := sfuse.torn;
    }

    constructor OfDevices(bs: nat, devices: DeviceFile)
      requires 0 < bs && devices.Valid() && (devices.ByIndex() ==> devices.width == bs)
      ensures Valid() && this.sfuse == null && this.devices == devices && this.bs == bs
      ensures contents == devices.contents && !torn
      ensures Repr == {devices} + devices.Repr
    {
      this.bs := bs;
      this.sfuse := null;
      this.devices := devices;
      this.Repr := {devices} + devices.Repr;
      this.contents := devices.contents;
      this.torn := false;
    }

    /** A whole block behind the end of file may be written at `offset`. */
    ghost predicate HoleFits(offset: nat)
      requires Valid()
      reads this, Repr
    {
      if sfuse != null then sfuse.HoleFits(offset) else !devices.ByIndex()
    }

    lemma PlainHoleFits(offset: nat)
      requires Valid() && !torn && Offers() == PLAIN
      ensures HoleFits(offset)
    {
      if sfuse != null { Storage.PlainHoleFits(bs, contents, devices.contents, offset); }
    }

    method Fgetattr() returns (size: int)
      requires Valid() && !torn
      modifies Repr
      ensures Valid() && size == |contents|
    {
      if sfuse != null {
        size := sfuse.Fgetattr();
      } else {
        size := devices.Fgetattr();
      }
    }

    /** In erasure mode, where the result is the size asked for, only reads inside the file can be trusted. */
    method Read(buf: array<byte>, size: nat, offset: nat) returns (res: int)
      requires Valid() && !torn && Readable(ReadsParts(), bs, |contents|, offset, size) && size <= buf.Length
      requires ByIndex() ==> offset + size <= |contents|
      modifies Repr, buf
      ensures Valid()
      ensures var got := Pread(contents, offset, size); res == |got| && buf[..|got|] == got
      ensures buf[size..] == old(buf[size..])
    {
      if sfuse != null {
        res := sfuse.Read(buf, size, offset);
      } else {
        res := devices.Read(buf, size, offset);
      }
    }

    method Write(buf: seq<byte>, offset: nat) returns (res: int)
      requires Valid()
      requires if torn then Repairs(bs, |contents|, offset, |buf|)
               else || Disciplined(bs, |contents|, offset, |buf|)
                    || (LeavesHole(bs, |contents|, offset, |buf|) && HoleFits(offset))
      modifies this, Repr
      ensures Valid() && !torn
      ensures contents == Pwrite(old(contents), offset, buf)
      ensures res == |buf|
    {
      if sfuse != null {
        var r := Randomness();
        res := sfuse.Write(buf, offset, r);
        contents, torn := sfuse.contents, false;
      } else {
        res := devices.Write(buf, offset);
        contents := devices.contents;
      }
    }

    method Ftruncate(size: nat) returns (res: int)
      requires Valid() && !torn && size <= |contents| && !ByIndex()
      modifies this, Repr
      ensures Valid() && contents == old(contents)[..size]
      ensures torn ==> !Aligned(size, bs) && size < |old(contents)|
      ensures res == 0
    {
      if sfuse != null {
        res := sfuse.Ftruncate(size);
        contents, torn := sfuse.contents, sfuse.torn;
      } else {
        res := devices.Ftruncate(size);
        contents := devices.contents;
      }
    }
  }
}
