/** The multi-device layer: multi_loopback.c in replication and XOR mode, for one open file. */
module Loopback {
  import opened Bytes
  import opened Device
  import opened Xor

  datatype Mode = REP | XOR

  /** What the device files stand for. */
  ghost function Decoded(mode: Mode, devs: seq<seq<byte>>): seq<byte>
    requires 0 < |devs| && Even(devs, |devs[0]|)
  {
    match mode
    case REP => devs[0]
    case XOR => XorOf(devs, |devs[0]|)
  }

  /** All devices have files of one length; replicas are equal. */
  ghost predicate Shared(mode: Mode, devs: seq<seq<byte>>) {
    && 0 < |devs| && Even(devs, |devs[0]|)
    && (mode.REP? ==> forall i | 0 <= i < |devs| :: devs[i] == devs[0])
  }

  /** The buffers of one fan-out, as the encoder leaves them, are shares of `buf`. */
  ghost predicate SharesOf(mode: Mode, shares: seq<seq<byte>>, buf: seq<byte>) {
    && Even(shares, |buf|)
    && match mode
       case REP => forall i | 0 <= i < |shares| :: shares[i] == buf
       case XOR => XorOf(shares, |buf|) == buf
  }

  predicate Uniform(outs: seq<Outcome>, res: int) {
    forall i | 0 <= i < |outs| :: outs[i].res == res
  }

  lemma AggregateUniform(transfers: bool, outs: seq<Outcome>, res: int)
    requires 0 < |outs| && Uniform(outs, res) && res != -1
    ensures Aggregate(transfers, outs) == res
  {
    AggregateExactly(transfers, outs);
  }

  lemma WriteAll(
      mode: Mode, devs: seq<seq<byte>>, rs: seq<Request>, shares: seq<seq<byte>>, buf: seq<byte>, offset: nat)
    requires Shared(mode, devs) && |rs| == |devs| == |shares| && SharesOf(mode, shares, buf)
    requires forall i | 0 <= i < |rs| :: rs[i] == WriteOp(shares[i], offset, false)
    ensures var outs := CallAll(rs, devs);
      && Uniform(outs, |buf|)
      && Shared(mode, FilesLeft(outs))
      && Decoded(mode, FilesLeft(outs)) == Pwrite(Decoded(mode, devs), offset, buf)
  {
    var devs' := FilesLeft(CallAll(rs, devs));
    if buf == [] {
      assert devs' == devs;
    } else if mode.XOR? {
      PwriteShares(devs, |devs[0]|, offset, shares, |buf|);
      assert devs' == seq(|devs|, i requires 0 <= i < |devs| => Pwrite(devs[i], offset, shares[i]));
    }
  }

  lemma FtruncateAll(mode: Mode, devs: seq<seq<byte>>, rs: seq<Request>, length: nat)
    requires Shared(mode, devs) && |rs| == |devs|
    requires forall i | 0 <= i < |rs| :: rs[i] == FtruncateOp(length, false)
    ensures var outs := CallAll(rs, devs);
      && Uniform(outs, 0)
      && Shared(mode, FilesLeft(outs))
      && Decoded(mode, FilesLeft(outs)) == Ftruncate(Decoded(mode, devs), length)
  {
    var devs' := FilesLeft(CallAll(rs, devs));
    if mode.XOR? {
      FtruncateShares(devs, |devs[0]|, length);
      assert devs' == seq(|devs|, i requires 0 <= i < |devs| => Ftruncate(devs[i], length));
    }
  }

  /** Reads change no device; what they return, with anything behind it in the buffers, decodes to the range read. */
  lemma ReadAll(
      mode: Mode, devs: seq<seq<byte>>, rs: seq<Request>, shares: seq<seq<byte>>, offset: nat, size: nat)
    requires Shared(mode, devs) && |rs| == |devs| == |shares| && Even(shares, size)
    requires forall i | 0 <= i < |rs| :: rs[i] == ReadOp(size, offset, false)
    requires forall i | 0 <= i < |rs| :: CallAll(rs, devs)[i].data <= shares[i]
    ensures var outs, got := CallAll(rs, devs), Pread(Decoded(mode, devs), offset, size);
      && Uniform(outs, |got|)
      && FilesLeft(outs) == devs
      && (mode.XOR? ==> got <= XorOf(shares, size))
      && (mode.REP? ==> got <= shares[0])
  {
    var outs, got := CallAll(rs, devs), Pread(Decoded(mode, devs), offset, size);
    assert FilesLeft(outs) == devs;
    if mode.XOR? {
      PreadShares(devs, |devs[0]|, offset, size);
      var parts := seq(|devs|, i requires 0 <= i < |devs| => Pread(devs[i], offset, size));
      forall p | 0 <= p < |got| ensures XorAt(shares, |shares|, p) == got[p] {
        XorAtSame(shares, parts, |shares|, p, p);
      }
    }
  }

  class MultiLoopback {
    const mode: Mode
    const ndevs: nat
    var devs: seq<seq<byte>>  // the file's contents on each device

    ghost predicate Valid()
      reads this
    {
      ndevs == |devs| && Shared(mode, devs)
    }

    /** The one file the devices stand for. */
    ghost function Contents(): seq<byte>
      requires Valid()
      reads this
    {
      Decoded(mode, devs)
    }

    /** A new file: empty on every device. */
    constructor (mode: Mode, ndevs: nat)
      requires 0 < ndevs
      ensures Valid() && Contents() == []
      ensures this.mode == mode && this.ndevs == ndevs
    {
      this.mode := mode;
      this.ndevs := ndevs;
      this.devs := seq(ndevs, _ => []);
    }

    /** One fan-out over the file's devices. */
    method Dispatch(rs: seq<Request>) returns (outs: seq<Outcome>)
      requires |rs| == |devs|
      modifies this
      ensures outs == CallAll(rs, old(devs))
      ensures devs == FilesLeft(outs)
    {
      outs := Device.Dispatch(rs, devs);
      devs := FilesLeft(outs);
    }

    /** `loopback_fgetattr`: the size is the first device's. */
    method Fgetattr() returns (size: nat)
      requires Valid()
      ensures size == |Contents()|
    {
      size := |devs[0]|;
    }

    /** `loopback_ftruncate` */
    method Ftruncate(size: nat) returns (res: int)
      requires Valid()
      modifies this
      ensures Valid() && Contents() == Bytes.Ftruncate(old(Contents()), size)
      ensures res == 0
    {
      var rs := seq(ndevs, _ => FtruncateOp(size, false));
      ghost var before := devs;
      var outs := Dispatch(rs);
      FtruncateAll(mode, before, rs, size);
      AggregateUniform(false, outs, 0);
      res := CollectResults(rs, outs);
      if res == -1 {
        return -1;
      }
      return 0;
    }

    /** `loopback_read` */
    method Read(buf: array<byte>, size: nat, offset: nat) returns (res: int)
      requires Valid() && size <= buf.Length
      modifies this, buf
      ensures Valid() && devs == old(devs)
      ensures var got := Pread(Contents(), offset, size); res == |got| && buf[..|got|] == got
      ensures buf[size..] == old(buf[size..])
    {
      var magicblocks := AllocateBlocks(ndevs, size);
      var rs := seq(ndevs, _ => ReadOp(size, offset, false));
      ghost var before := devs;
      var outs := Dispatch(rs);
      StoreData(magicblocks, outs, size);
      ghost var shares := Snapshot(magicblocks, size);
      ReadAll(mode, before, rs, shares, offset, size);
      AggregateUniform(true, outs, |Pread(Contents(), offset, size)|);
      res := CollectResults(rs, outs);
      if res > 0 {
        match mode {
          case REP => Memcpy(buf, magicblocks[0], size);
          case XOR => DecodeXor(buf, magicblocks, size, ndevs, shares);
        }
        ghost var got := Pread(Contents(), offset, size);
        assert buf[..size][..|got|] == buf[..|got|];
      }
    }

    /** `loopback_write`; `random` is what `encode_xor` draws. In XOR mode every device but the last gets just that. */
    method Write(buf: seq<byte>, offset: nat, random: seq<seq<byte>>) returns (res: int)
      requires Valid() && |random| == ndevs - 1 && Even(random, |buf|)
      modifies this
      ensures Valid() && Contents() == Pwrite(old(Contents()), offset, buf)
      ensures mode.XOR? ==> forall i | 0 <= i < ndevs - 1 :: devs[i] == Pwrite(old(devs)[i], offset, random[i])
      ensures res == |buf|
    {
      var magicblocks := AllocateBlocks(ndevs, |buf|);
      var block := new byte[|buf|](i requires 0 <= i < |buf| => buf[i]);
      assert block[..|buf|] == buf;
      ghost var shares: seq<seq<byte>>;
      match mode {
        case REP => shares := RepEncode(magicblocks, block, |buf|, ndevs);
        case XOR =>
          shares := EncodeXor(magicblocks, block, |buf|, ndevs, random);
      }
      var rs := [];
      for i := 0 to ndevs
        invariant |rs| == i && forall j | 0 <= j < i :: rs[j] == WriteOp(shares[j], offset, false)
      {
        rs := rs + [WriteOp(magicblocks[i][..|buf|], offset, false)];
      }
      ghost var before := devs;
      var outs := Dispatch(rs);
      WriteAll(mode, before, rs, shares, buf, offset);
      AggregateUniform(true, outs, |buf|);
      res := CollectResults(rs, outs);
    }
  }

  /** Fresh buffers, with arbitrary contents. */
  method AllocateBlocks(n: nat, size: nat) returns (blocks: seq<array<byte>>)
    ensures |blocks| == n
    ensures forall i | 0 <= i < n :: fresh(blocks[i]) && blocks[i].Length == size
    ensures forall i, j | 0 <= i < j < n :: blocks[i] != blocks[j]
  {
    blocks := [];
    for k := 0 to n
      invariant |blocks| == k
      invariant forall i | 0 <= i < k :: fresh(blocks[i]) && blocks[i].Length == size
      invariant forall i, j | 0 <= i < j < k :: blocks[i] != blocks[j]
    {
      var b := new byte[size];
      blocks := blocks + [b];
    }
  }

  ghost method Snapshot(blocks: seq<array<byte>>, size: nat) returns (shares: seq<seq<byte>>)
    requires forall i | 0 <= i < |blocks| :: size <= blocks[i].Length
    ensures Hold(blocks, shares, size)
  {
    shares := [];
    for i := 0 to |blocks|
      invariant Hold(blocks[..i], shares, size)
    {
      shares := shares + [blocks[i][..size]];
    }
  }

  /** Each worker's read fills the front of its buffer. */
  method StoreData(blocks: seq<array<byte>>, outs: seq<Outcome>, size: nat)
    requires |blocks| == |outs|
    requires forall i | 0 <= i < |blocks| :: blocks[i].Length == size && |outs[i].data| <= size
    requires forall i, j | 0 <= i < j < |blocks| :: blocks[i] != blocks[j]
    modifies blocks
    ensures forall i | 0 <= i < |blocks| :: outs[i].data <= blocks[i][..size]
  {
    for i := 0 to |blocks|
      invariant forall j | 0 <= j < i :: outs[j].data <= blocks[j][..size]
    {
      forall p | 0 <= p < |outs[i].data| {
        blocks[i][p] := outs[i].data[p];
      }
    }
  }

  /** `rep_encode` */
  method RepEncode(magicblocks: seq<array<byte>>, block: array<byte>, size: nat, ndevs: nat)
    returns (ghost shares: seq<seq<byte>>)
    requires 0 < ndevs == |magicblocks|
    requires size <= block.Length && forall i | 0 <= i < ndevs :: size <= magicblocks[i].Length
    requires block !in magicblocks
    requires forall i, j | 0 <= i < j < ndevs :: magicblocks[i] != magicblocks[j]
    modifies magicblocks
    ensures Hold(magicblocks, shares, size)
    ensures forall i | 0 <= i < ndevs :: shares[i] == old(block[..size])
  {
    ghost var copy := block[..size];
    shares := seq(ndevs, _ => copy);
    for i := 0 to ndevs
      invariant forall j | 0 <= j < i :: magicblocks[j][..size] == block[..size]
    {
      Memcpy(magicblocks[i], block, size);
    }
  }
}
