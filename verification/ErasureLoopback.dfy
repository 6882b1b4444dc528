/** The multi-device layer in erasure mode: multi_loopback.c over the erasure driver, for all files. */
module ErasureLoopbackLayer {
  import opened Wrappers
  import opened Bytes
  import opened Blocks
  import opened Device
  import opened Layout
  import opened Storage
  import opened CInt
  import opened ErasureIndex
  import opened ErasureStore
  import opened ErasureDriver

  class ErasureLoopback {
    const code: ErasureCode
    const driver: Erasure
    var devs: map<string, seq<seq<byte>>>  // the fragment files at each path, one per device

    ghost predicate Valid()
      reads this, driver, driver.offsetMap, driver.fileIds, driver.fileSizes
    {
      code.Valid() && driver.Valid()
    }

    ghost function State(): Store
      reads this, driver, driver.fileIds, driver.fileSizes
    {
      Store(driver.State(), devs)
    }

    constructor (code: ErasureCode)
      requires code.Valid()
      ensures Valid() && State() == EMPTY && this.code == code
      ensures fresh(driver) && fresh(driver.offsetMap) && fresh(driver.fileIds) && fresh(driver.fileSizes)
    {
      this.code := code;
      driver := new Erasure();
      devs := map[];
    }

    /** `loopback_create`; `left` is what the `open` calls leave on the devices. */
    method Create(path: string, left: seq<seq<byte>>) returns (res: int)
      requires Valid() && Possible(code, State(), Event.Create(path, left))
      modifies this, driver.fileIds, driver.fileSizes
      ensures Valid() && State() == Next(code, old(State()), Event.Create(path, left))
      ensures res == 0
    {
      devs := devs[path := left];
      driver.ErasureCreate(path);
      return 0;
    }

    /** `loopback_rename` */
    method Rename(from: string, to: string) returns (res: int)
      requires Valid() && Possible(code, State(), Event.Rename(from, to))
      modifies this, driver.fileIds, driver.fileSizes
      ensures Valid() && State() == Next(code, old(State()), Event.Rename(from, to))
      ensures res == 0
    {
      if from != to {
        devs := devs[to := devs[from]] - {from};
      }
      driver.ErasureRename(from, to);
      return 0;
    }

    /** `loopback_fgetattr`: the size is the index's. */
    method Fgetattr(path: string) returns (size: nat)
      ensures size == SizeOf(driver.State(), path)
    {
      size := driver.ErasureGetFileSize(path);
    }

    /**
      `loopback_write`; `faults` says which devices' calls fail. The result is the size whatever they do, and the index
      advances: `ErasureStore.FailedWriteExactly` says when that is right.
    */
    method Write(path: string, buf: seq<byte>, offset: nat, faults: seq<bool>) returns (res: int)
      requires Valid() && Possible(code, State(), WriteBlock(path, offset, buf)) && |faults| == code.devices
      modifies this, driver, driver.offsetMap, driver.fileIds, driver.fileSizes
      ensures Valid() && State() == NextFailing(code, old(State()), path, offset, buf, faults)
      ensures true !in faults ==> State() == Next(code, old(State()), WriteBlock(path, offset, buf))
      ensures res == |buf|
    {
      hide ErasureKeys.Represents;
      var encoded := code.encode(buf);
      var magicblocks := FillBuffers(encoded[..code.k], encoded[code.k..], |devs[path]|);
      assert encoded[..code.k] + encoded[code.k..] == encoded;
      driver.ErasureEncode(path, offset, |buf|, code.FragmentLength(|buf|));
      var address := driver.GetErasureBlockOffset(path, offset);
      var size := driver.GetErasureBlockSize(path, offset);
      ghost var s := old(State());
      if true !in faults { NothingMissed(code, s, path, offset, buf, faults); }
      var files;
      res, files := PutFragments(code, devs[path], magicblocks, buf, |buf|, address.value, size.value, faults);
      devs := devs[path := files];
    }

    /**
      `loopback_read` of a block of a file, by a request that covers its live bytes. The result is the size asked for,
      also when the block is shorter; and -1 as soon as one device fails, however many fragments the code needs.
    */
    method Read(
        path: string, buf: array<byte>, size: nat, offset: nat, faults: seq<bool>, ghost bs: nat, ghost files: Files)
      returns (res: int)
      requires Valid() && 0 < bs && Inv(code, bs, State(), files) && |faults| == code.devices
      requires path in files && offset < |files[path]| && Disciplined(bs, |files[path]|, offset, size)
      requires size <= buf.Length
      modifies driver, buf
      ensures Valid() && State() == Next(code, old(State()), ReadBlock(path, offset))
      ensures res == if true in faults then -1 else size
      ensures var got := if true in faults then [] else Pread(files[path], offset, size);
        buf[..] == got + old(buf[|got|..])
    {
      hide ErasureKeys.Represents; hide FileOk; hide IdsOk;
      ghost var k := AlignedIsStart(offset, bs);
      BlockIsFound(code, bs, State(), files, path, k);
      var address := driver.GetErasureBlockOffset(path, offset);
      var fragment := driver.GetErasureBlockSize(path, offset);
      var magicblocks;
      res, magicblocks := GetFragments(devs[path], size, address.value, fragment.value, faults);
      if res > 0 {
        var decoded := code.decode(magicblocks);
        PreadBlock(files[path], bs, k, size);
        CopyTo(buf, 0, decoded);
      }
    }
  }

  /** The fan-out of a write of `size` bytes: every worker writes its fragment at the block's address. */
  method PutFragments(
      code: ErasureCode, files: seq<seq<byte>>, magicblocks: seq<Option<seq<byte>>>, ghost buf: seq<byte>, size: nat,
      address: nat, length: nat, faults: seq<bool>)
    returns (res: int, files': seq<seq<byte>>)
    requires code.Valid() && |files| == |magicblocks| == |faults| == code.devices
    requires size == |buf| && length == code.fragmentLength(size)
    requires forall i | 0 <= i < code.devices :: magicblocks[i] == Some(code.encode(buf)[i])
    ensures res == size && files' == LandFragments(code, files, address, buf, faults)
  {
    var rs := [];
    for i := 0 to |files|
      invariant |rs| == i
      invariant forall j | 0 <= j < i :: rs[j] == WriteFragmentOp(size, address, code.encode(buf)[j], faults[j])
    {
      assert code.encode(buf)[i][..length] == code.encode(buf)[i];
      rs := rs + [WriteFragmentOp(size, address, magicblocks[i].value[..length], faults[i])];
    }
    var outs := Dispatch(rs, files);
    FragmentWritesReport(rs, files, size);
    files' := FilesLeft(outs);
    res := CollectResults(rs, outs);
  }

  /** The fan-out of a read: every worker reads its fragment. */
  method GetFragments(files: seq<seq<byte>>, size: nat, address: nat, length: nat, faults: seq<bool>)
    returns (res: int, magicblocks: seq<seq<byte>>)
    requires 0 < |files| == |faults|
    requires [] !in ReadFragments(files, address, length)
    ensures res == if true in faults then -1 else size
    ensures true !in faults ==> magicblocks == ReadFragments(files, address, length)
  {
    var rs := seq(|files|, i requires 0 <= i < |files| => ReadFragmentOp(size, address, length, faults[i]));
    var outs := Dispatch(rs, files);
    forall i | 0 <= i < |files| ensures Pread(files[i], address, length) != [] {
      assert ReadFragments(files, address, length)[i] != [];
    }
    FragmentReadsReport(rs, files, size, address, length);
    magicblocks := seq(|outs|, i requires 0 <= i < |outs| => outs[i].data);
    res := CollectResults(rs, outs);
    if true in faults {
      var i :| 0 <= i < |faults| && faults[i];
      assert rs[i].fault;
    }
  }

  /** The index knows the block, the fragments are there, and they decode to it. */
  lemma BlockIsFound(code: ErasureCode, bs: nat, s: Store, files: Files, path: string, k: nat)
    requires 0 < bs && code.Valid() && Inv(code, bs, s, files) && path in files && Start(k, bs) < |files[path]|
    ensures path in s.ix.fileIds && path in s.devs && |s.devs[path]| == code.devices
    ensures var id, o := FileId(s.ix, path), Start(k, bs);
      && Ro(id, o) in s.ix.entries && Rs(id, o) in s.ix.entries
      && var got := ReadFragments(s.devs[path], s.ix.entries[Ro(id, o)], s.ix.entries[Rs(id, o)]);
        [] !in got && code.decode(got) == BlockAt(bs, files[path], k)
  {
    hide Inv;
    BlockKnown(code, bs, s, files, path, k);
    FragmentsThere(code, bs, s, files, path, k);
    var b := BlockAt(bs, files[path], k);
    assert ReadFragments(s.devs[path], Start(k, code.fragmentLength(bs)), code.fragmentLength(|b|)) == code.encode(b);
  }

  lemma PreadBlock(data: seq<byte>, bs: nat, k: nat, size: nat)
    requires Start(k, bs) < |data| && 0 < size <= bs && (size == bs || |data| <= Start(k, bs) + size)
    ensures BlockAt(bs, data, k) == Pread(data, Start(k, bs), size)
  {
  }
}
