/** One file on the multi-device layer, as the layers above see it, in any of the layer's modes. */
module DeviceFiles {
  import opened Bytes
  import opened Storage
  import opened Xor
  import opened Loopback
  import ErasureKeys
  import opened ErasureStore
  import opened ErasureLoopbackLayer

  /** Here no device fails. */
  function NoFaults(code: ErasureCode): (faults: seq<bool>)
    ensures |faults| == code.devices && true !in faults
  {
    seq(code.devices, _ => false)
  }

  class DeviceFile {
    const multi: MultiLoopback?      // replication and XOR
    const erasure: ErasureLoopback?  // erasure mode: all files, this one at `path`
    const path: string
    const width: nat                 // in erasure mode, the width of the blocks that requests keep to
    ghost const Repr: set<object>
    ghost var contents: seq<byte>
    ghost const others: Files        // in erasure mode, the files at other paths

    /** In erasure mode requests are looked up in an index, so they have to keep to the blocks it knows. */
    predicate ByIndex() {
      erasure != null
    }

    ghost predicate Valid()
      reads this, Repr
    {
      && this !in Repr
      && (multi == null <==> erasure != null)
      && (multi != null ==> Repr == {multi} && multi.Valid() && multi.Contents() == contents)
      && (erasure != null ==>
            && Repr == {
              erasure, erasure.driver, erasure.driver.offsetMap, erasure.driver.fileIds, erasure.driver.fileSizes}
            && 0 < width && erasure.Valid()
            && Inv(erasure.code, width, erasure.State(), others[path := contents]))
    }

    /** The layer shares no buffer with the ones above. */
    lemma Separate(buf: array<byte>)
      requires Valid()
      ensures buf !in Repr
    {
    }

    constructor OfDevices(multi: MultiLoopback)
      requires multi.Valid()
      ensures Valid() && this.multi == multi && !ByIndex() && contents == multi.Contents() && Repr == {multi}
    {
      this.multi := multi;
      this.erasure := null;
      this.path := "";
      this.width := 0;
      this.Repr := {multi};
      this.contents := multi.Contents();
      this.others := map[];
    }

    constructor OfFragments(width: nat, erasure: ErasureLoopback, path: string, ghost files: Files)
      requires 0 < width && erasure.Valid() && Inv(erasure.code, width, erasure.State(), files) && path in files
      ensures Valid() && this.erasure == erasure && this.width == width && contents == files[path]
      ensures this.path == path && this.others == files
      ensures Repr == {
        erasure, erasure.driver, erasure.driver.offsetMap, erasure.driver.fileIds, erasure.driver.fileSizes}
    {
      hide FileOk; hide IdsOk; hide ErasureKeys.Represents;
      this.multi := null;
      this.erasure := erasure;
      this.path := path;
      this.width := width;
      this.Repr := {
        erasure, erasure.driver, erasure.driver.offsetMap, erasure.driver.fileIds, erasure.driver.fileSizes};
      this.contents := files[path];
      this.others := files;
      assert files[path := files[path]] == files;
    }

    method Fgetattr() returns (size: nat)
      requires Valid()
      ensures size == |contents|
    {
      if multi != null {
        size := multi.Fgetattr();
      } else {
        assert FileOk(erasure.code, width, erasure.State(), path, contents);
        size := erasure.Fgetattr(path);
      }
    }

    /** In erasure mode the result is always the size asked for, so only reads inside the file can be trusted. */
    method Read(buf: array<byte>, size: nat, offset: nat) returns (res: int)
      requires Valid() && size <= buf.Length
      requires ByIndex() ==> Disciplined(width, |contents|, offset, size) && offset + size <= |contents|
      modifies Repr, buf
      ensures Valid()
      ensures var got := Pread(contents, offset, size); res == |got| && buf[..|got|] == got
      ensures buf[size..] == old(buf[size..])
    {
      hide ErasureKeys.Represents; hide FileOk; hide IdsOk;
      if multi != null {
        res := multi.Read(buf, size, offset);
      } else {
        ghost var files := others[path := contents];
        NextKeepsInv(erasure.code, width, erasure.State(), files, ReadBlock(path, offset));
        res := erasure.Read(path, buf, size, offset, NoFaults(erasure.code), width, files);
      }
    }

    method Write(buf: seq<byte>, offset: nat) returns (res: int)
      requires Valid() && (ByIndex() ==> Disciplined(width, |contents|, offset, |buf|))
      modifies this, Repr
      ensures Valid() && contents == Pwrite(old(contents), offset, buf)
      ensures res == |buf|
    {
      hide ErasureKeys.Represents; hide FileOk; hide IdsOk;
      if multi != null {
        var random := RandomBlocks(multi.ndevs - 1, |buf|);
        res := multi.Write(buf, offset, random);
        contents := Pwrite(contents, offset, buf);
      } else {
        NextKeepsInv(erasure.code, width, erasure.State(), others[path := contents], WriteBlock(path, offset, buf));
        res := erasure.Write(path, buf, offset, NoFaults(erasure.code));
        assert others[path := contents][path := Pwrite(contents, offset, buf)] ==
               others[path := Pwrite(contents, offset, buf)];
        contents := Pwrite(contents, offset, buf);
      }
    }

    method Ftruncate(size: nat) returns (res: int)
      requires Valid() && !ByIndex()
      modifies this, Repr
      ensures Valid() && contents == Bytes.Ftruncate(old(contents), size)
      ensures res == 0
    {
      res := multi.Ftruncate(size);
      contents := Bytes.Ftruncate(contents, size);
    }
  }
}
