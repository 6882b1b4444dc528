/** The block virtualisation layer, align/blockalign.c, for one open file over the encoding layer. */
module BlockAlignLayer {
  import opened Bytes
  import opened Blocks
  import opened CInt
  import opened Storage
  import opened NextLayerInterface

  datatype IoType = READ | WRITE

  const FILL_SIZE: nat := 64 * 1024

  /**
    What a write at `offset` leaves, but for what is between the old end and `offset`: zeros, or, if both are in one
    block, whatever the stack held.
  */
  ghost predicate Spliced(before: seq<byte>, offset: nat, buf: seq<byte>, after: seq<byte>) {
    && |after| == Max(|before|, offset + |buf|)
    && (forall i | offset <= i < offset + |buf| :: after[i] == buf[i - offset])
    && (forall i | 0 <= i < |before| && !(offset <= i < offset + |buf|) :: after[i] == before[i])
  }

  lemma PwriteSplices(before: seq<byte>, offset: nat, buf: seq<byte>)
    requires buf != []
    ensures Spliced(before, offset, buf, Pwrite(before, offset, buf))
    ensures ZeroGap(before, offset, Pwrite(before, offset, buf))
  {
    PwriteWrites(before, offset, buf);
  }

  /** The bytes between the old end and `offset` are zeros. */
  ghost predicate ZeroGap(before: seq<byte>, offset: nat, after: seq<byte>) {
    forall i | |before| <= i < offset && i < |after| :: after[i] == 0
  }

  /** A write that leaves no unspecified bytes. */
  lemma GaplessIsPwrite(before: seq<byte>, offset: nat, buf: seq<byte>, after: seq<byte>)
    requires buf != [] && Spliced(before, offset, buf, after) && ZeroGap(before, offset, after)
    ensures after == Pwrite(before, offset, buf)
  {
    WrittenOnce(before, offset, buf, after);
  }

  /** The first block of the write is partial, and starts at or behind the end of file, and the write behind it. */
  predicate Refused(bs: nat, fileSize: nat, blockOffset: int, extra: int, size: nat) {
    0 < size && fileSize <= blockOffset && fileSize < blockOffset + extra && (0 < extra || size < bs)
  }

  /** It is the first chunk that is refused, or nothing. */
  lemma RefusedAtOnce(bs: nat, fileSize: nat, blockOffset: nat, extra: nat, size: nat, inBlock: nat)
    requires extra < bs && 0 < size && inBlock == if size + extra >= bs then bs - extra else size
    ensures Refused(bs, fileSize, blockOffset, extra, size) <==> Refused(bs, fileSize, blockOffset, extra, inBlock)
  {
  }

  lemma SplicedAppend(
      before: seq<byte>, offset: nat, a: seq<byte>, b: seq<byte>, mid: seq<byte>, after: seq<byte>)
    requires Spliced(before, offset, a, mid) && Spliced(mid, offset + |a|, b, after)
    ensures Spliced(before, offset, a + b, after)
  {
  }

  /**
    A read that ends at `end`, in the block at `last`, needs no more of that block than an `int` can say; `size` is
    the size of the file.
  */
  predicate ReadFits(part: bool, bs: nat, size: nat, end: nat, last: nat) {
    last == end || (last <= end && RestFits(part, bs, end - last, size - last))
  }

  /** The same of a read that ends at `end`, as a caller can check it. */
  predicate ReadInRange(part: bool, bs: nat, size: nat, end: nat)
    requires 0 < bs
  {
    ReadFits(part, bs, size, end, end - end % bs)
  }

  lemma EndInRange(part: bool, bs: nat, size: nat)
    requires 0 < bs
    ensures ReadInRange(part, bs, size, size)
  {
    Blocks.AlignDown(size, bs);
  }

  lemma FillStep(s: seq<byte>, w: nat, n: nat)
    ensures Pwrite(s + Zeros(w), |s| + w, Zeros(n)) == s + Zeros(w + n)
  {
  }

  /** `merged` is a block whose `live` bytes are at `b`, with `chunk` laid over them at `extra`. */
  ghost predicate Rewrites(before: seq<byte>, b: nat, live: int, extra: nat, chunk: seq<byte>, merged: seq<byte>) {
    && b + live <= |before|
    && |merged| == Max(live, extra + |chunk|)
    && (forall i | extra <= i < extra + |chunk| :: merged[i] == chunk[i - extra])
    && (forall i | 0 <= i < live && !(extra <= i < extra + |chunk|) :: merged[i] == before[b + i])
  }

  /** A buffer with live bytes, after the chunk is copied into it. */
  lemma MergedBuffer(
      before: seq<byte>, b: nat, live: nat, extra: nat, chunk: seq<byte>, filled: seq<byte>, aux: seq<byte>)
    requires b + live <= |before| && live <= |filled| && extra + |chunk| <= |filled|
    requires filled[..live] == before[b..b + live]
    requires aux == filled[..extra] + chunk + filled[extra + |chunk|..]
    ensures Rewrites(before, b, live, extra, chunk, aux[..Max(live, extra + |chunk|)])
  {
    forall i | 0 <= i < live ensures filled[i] == before[b + i] {
      assert filled[..live][i] == before[b..b + live][i];
    }
  }

  /** Writing a rewritten block writes the chunk. */
  lemma MergedBlock(
      before: seq<byte>, b: nat, live: int, extra: nat, chunk: seq<byte>, merged: seq<byte>, after: seq<byte>)
    requires Rewrites(before, b, live, extra, chunk, merged)
    requires extra + |chunk| <= live || b + live == |before|
    requires Spliced(before, b, merged, after)
    ensures Spliced(before, b + extra, chunk, after)
  {
    forall i | b <= i < b + |merged| ensures after[i] == merged[i - b] {
    }
  }

  /** `done` bytes of a request are processed. */
  ghost predicate Progress(
      io: IoType, before: seq<byte>, offset: nat, bytes: seq<byte>, done: nat, contents: seq<byte>, buf: seq<byte>)
    requires done <= |bytes|
  {
    match io
    case READ =>
      && contents == before && offset + done <= |before| && |buf| == |bytes|
      && (forall i | 0 <= i < done :: buf[i] == before[offset + i])
      && (forall i | done <= i < |buf| :: buf[i] == bytes[i])
    case WRITE =>
      && buf == bytes
      && if done == 0 then contents == before else Spliced(before, offset, bytes[..done], contents)
  }

  lemma ProgressBegins(io: IoType, before: seq<byte>, offset: nat, bytes: seq<byte>)
    requires io.READ? ==> offset <= |before|
    ensures Progress(io, before, offset, bytes, 0, before, bytes)
  {
  }

  lemma WriteAdvances(
      before: seq<byte>, offset: nat, bytes: seq<byte>, done: nat, n: nat, mid: seq<byte>, after: seq<byte>)
    requires 0 < n && done + n <= |bytes| && Progress(WRITE, before, offset, bytes, done, mid, bytes)
    requires Spliced(mid, offset + done, bytes[done..done + n], after)
    ensures Progress(WRITE, before, offset, bytes, done + n, after, bytes)
  {
    hide Spliced;
    assert bytes[..done] + bytes[done..done + n] == bytes[..done + n];
    if done == 0 {
      assert bytes[..n] == bytes[0..n];
    } else {
      SplicedAppend(before, offset, bytes[..done], bytes[done..done + n], mid, after);
    }
  }

  /** `after` is the buffer `before` with `n` bytes of `src` from `start` on copied to `at`. */
  ghost predicate Copied(before: seq<byte>, at: nat, src: seq<byte>, start: nat, n: nat, after: seq<byte>) {
    && |after| == |before| && at + n <= |before| && start + n <= |src|
    && (forall i | at <= i < at + n :: after[i] == src[start + i - at])
    && (forall i | 0 <= i < |before| && !(at <= i < at + n) :: after[i] == before[i])
  }

  lemma ReadAdvances(
      before: seq<byte>, offset: nat, bytes: seq<byte>, done: nat, n: nat, buf: seq<byte>, buf': seq<byte>)
    requires done <= |bytes| && Progress(READ, before, offset, bytes, done, before, buf)
    requires Copied(buf, done, before, offset + done, n, buf')
    ensures Progress(READ, before, offset, bytes, done + n, before, buf')
  {
  }

  /** The only chunk that may not reach the end of its block is the last one. */
  lemma LastChunkFits(
      part: bool, bs: nat, size: nat, next: nat, extra: nat, n: nat, end: nat, last: nat)
    requires 0 < bs && Aligned(next, bs)
    requires Aligned(last, bs) && last <= end < last + bs && ReadFits(part, bs, size, end, last)
    requires extra + n == bs || (extra + n < bs && 0 < n && next + extra + n == end)
    ensures RestFits(part, bs, n + extra, size - next)
  {
    if extra + n < bs { SameStart(next, last, bs); }
  }

  /**
    The layer. Its methods see the layer below through its contents alone; where they `hide NextLayer.Valid`, it is
    because what the layer below keeps underneath plays no part in them.
  */
  class BlockAlign {
    const bs: nat
    const lower: NextLayer

    ghost predicate Valid()
      reads this, lower, lower.Repr
    {
      && 0 < bs < INT_LIMIT && lower.bs == bs
      && lower.Valid() && !lower.torn
      && |lower.contents| < OFF_LIMIT
    }

    ghost function Contents(): seq<byte>
      reads lower
    {
      lower.contents
    }

    /** In erasure mode reads report the size they were asked for; only reads inside the file make sense. */
    predicate ByIndex() {
      lower.ByIndex()
    }

    constructor (bs: nat, lower: NextLayer)
      requires 0 < bs < INT_LIMIT && lower.bs == bs && lower.Valid() && !lower.torn && |lower.contents| < OFF_LIMIT
      ensures Valid() && Contents() == lower.contents
      ensures this.lower == lower && this.bs == bs
    {
      this.bs := bs;
      this.lower := lower;
    }

    /**
      `process_read_block`: reads `size` bytes at `extra` in the block at `blockOffset`. Behind the live bytes of the
      block it reports `size` bytes all the same, and has copied whatever its buffer held.
    */
    method ProcessReadBlock(buf: array<byte>, at: nat, size: nat, blockOffset: nat, extra: nat) returns (res: int)
      requires Valid() && Aligned(blockOffset, bs) && blockOffset <= |Contents()|
      requires 0 < size && size + extra <= bs && at + size <= buf.Length
      requires RestFits(lower.ReadsParts(), bs, size + extra, |Contents()| - blockOffset)
      requires ByIndex() ==> blockOffset + extra + size <= |Contents()|
      modifies lower.Repr, buf
      ensures Valid() && Contents() == old(Contents())
      ensures var o := blockOffset + extra;
        if o <= |Contents()|
        then res == Min(size, |Contents()| - o) && Copied(old(buf[..]), at, Contents(), o, res, buf[..])
        else res == size
    {
      hide NextLayer.Valid; hide NextLayer.HoleFits; hide Copied; hide RestFits; hide Readable;
      lower.Separate(buf);
      var bytesToRead := SizeToRead(size + extra, blockOffset);
      var r, aux := ReadBlock(bytesToRead, blockOffset);
      res := CountRead(r, extra, size);
      var part := aux[extra..extra + res];
      ReadInside(Contents(), blockOffset, extra, Min(bytesToRead, |Contents()| - blockOffset), aux, part);
      ghost var before := buf[..];
      CopyTo(buf, at, part);
      if blockOffset + extra <= |Contents()| {
        CopiedBytes(before, at, Contents(), blockOffset + extra, part, buf[..]);
      }
    }

    /** `read_block` into a fresh buffer; what the buffer holds behind the bytes read is unspecified. */
    method ReadBlock(size: nat, offset: nat) returns (res: int, aux: seq<byte>)
      requires Valid() && Readable(lower.ReadsParts(), bs, |Contents()|, offset, size)
      requires ByIndex() ==> offset + size <= |Contents()|
      modifies lower.Repr
      ensures Valid() && Contents() == old(Contents())
      ensures var n := Min(size, |Contents()| - offset);
        && |aux| == size && res == n
        && aux[..n] == Contents()[offset..offset + n]
    {
      hide NextLayer.Valid; hide NextLayer.HoleFits;
      var buffer := new byte[size];
      res := lower.Read(buffer, size, offset);
      aux := buffer[..];
    }

    /** The first half of `process_read_block`: the size of the read, from the size of the file if need be. */
    method SizeToRead(want: nat, blockOffset: nat) returns (n: int)
      requires Valid() && Aligned(blockOffset, bs) && blockOffset <= |Contents()|
      requires 0 < want <= bs && RestFits(lower.ReadsParts(), bs, want, |Contents()| - blockOffset)
      modifies lower.Repr
      ensures Valid() && Contents() == old(Contents())
      ensures want <= n <= bs && Readable(lower.ReadsParts(), bs, |Contents()|, blockOffset, n)
      ensures ByIndex() ==> n == Max(want, Min(bs, |Contents()| - blockOffset))
    {
      hide NextLayer.Valid; hide NextLayer.HoleFits;
      n := bs;
      if want != bs {
        var fileSize := lower.Fgetattr();
        n := PlanRead(lower.ReadsParts(), bs, want, fileSize, blockOffset);
      }
    }

    /** The read-modify step of `process_write_block`: the live bytes of the block with the chunk laid over them. */
    method Merge(chunk: seq<byte>, blockOffset: nat, extra: nat, bytesToRead: nat, bytesToWrite: nat)
      returns (r: int, merged: seq<byte>)
      requires Valid() && Aligned(blockOffset, bs) && blockOffset < |Contents()|
      requires 0 < |chunk| && |chunk| + extra <= bs
      requires bytesToRead == Min(bs, |Contents()| - blockOffset)
      requires bytesToWrite == Max(bytesToRead, |chunk| + extra)
      modifies lower.Repr
      ensures Valid() && Contents() == old(Contents())
      ensures r == bytesToRead && |merged| == bytesToWrite
      ensures Rewrites(Contents(), blockOffset, bytesToRead, extra, chunk, merged)
    {
      hide NextLayer.Valid; hide NextLayer.HoleFits;
      var aux := new byte[bs];
      r := lower.Read(aux, bytesToRead, blockOffset);
      ghost var filled := aux[..];
      assert filled[..bytesToRead] == Contents()[blockOffset..blockOffset + bytesToRead];
      CopyTo(aux, extra, chunk);
      merged := aux[..bytesToWrite];
      MergedBuffer(Contents(), blockOffset, bytesToRead, extra, chunk, filled, aux[..]);
    }

    /**
      `process_write_block`: writes a chunk at `extra` in the block at `blockOffset`. It fails, and changes nothing,
      exactly when a partial block starts at or behind the end of file and the chunk behind it.
    */
    method ProcessWriteBlock(chunk: seq<byte>, blockOffset: nat, extra: nat) returns (res: int)
      requires Valid() && Aligned(blockOffset, bs)
      requires 0 < |chunk| && |chunk| + extra <= bs
      requires |chunk| == bs && |Contents()| < blockOffset ==> lower.HoleFits(blockOffset)
      requires blockOffset + extra + |chunk| < OFF_LIMIT
      modifies lower, lower.Repr
      ensures Valid()
      ensures res == -1 <==> Refused(bs, |old(Contents())|, blockOffset, extra, |chunk|)
      ensures res == -1 ==> Contents() == old(Contents())
      ensures res != -1 ==> res == |chunk| && Spliced(old(Contents()), blockOffset + extra, chunk, Contents())
      ensures |chunk| == bs ==> ZeroGap(old(Contents()), blockOffset, Contents())
    {
      hide NextLayer.Valid; hide NextLayer.HoleFits; hide Spliced; hide ZeroGap;
      var writeBuf: seq<byte>;
      ghost var before := Contents();
      if |chunk| == bs && extra == 0 {
        writeBuf := chunk;
      } else {
        var fileSize := lower.Fgetattr();
        var remaining := U64(fileSize - blockOffset);
        if blockOffset >= fileSize {
          if blockOffset > fileSize || extra > 0 {
            return -1;
          }
          writeBuf := chunk;
        } else if extra == 0 && remaining <= |chunk| {
          writeBuf := chunk;
        } else {
          var bytesToRead := if remaining < bs then remaining else bs;
          var bytesToWrite := if bytesToRead > |chunk| + extra then bytesToRead else |chunk| + extra;
          var r;
          r, writeBuf := Merge(chunk, blockOffset, extra, bytesToRead, bytesToWrite);
          if r < bytesToRead {
            return -1;
          }
        }
      }
      ghost var live := Min(bs, |before| - blockOffset);
      assert Rewrites(before, blockOffset, live, extra, chunk, writeBuf);
      res := WriteBlock(writeBuf, blockOffset);
      MergedBlock(before, blockOffset, live, extra, chunk, writeBuf, Contents());
      if res < |writeBuf| {
        return -1;
      }
      return |chunk|;
    }

    /** `write_block` */
    method WriteBlock(buf: seq<byte>, offset: nat) returns (res: int)
      requires Valid() && offset + |buf| < OFF_LIMIT
      requires || Disciplined(bs, |Contents()|, offset, |buf|)
               || (LeavesHole(bs, |Contents()|, offset, |buf|) && lower.HoleFits(offset))
      modifies lower, lower.Repr
      ensures Valid() && res == |buf|
      ensures Spliced(old(Contents()), offset, buf, Contents()) && ZeroGap(old(Contents()), offset, Contents())
    {
      hide NextLayer.Valid; hide NextLayer.HoleFits;
      PwriteSplices(Contents(), offset, buf);
      res := lower.Write(buf, offset);
    }

    method WriteStep(
        buf: array<byte>, done: nat, inBlock: nat, next: nat, extra: nat,
        ghost before: seq<byte>, ghost offset: nat, ghost bytes: seq<byte>)
      returns (res: int)
      requires Valid() && done + inBlock <= buf.Length == |bytes| && 0 < inBlock
      requires Aligned(next, bs) && inBlock + extra <= bs && next + extra == offset + done
      requires Progress(WRITE, before, offset, bytes, done, Contents(), buf[..])
      requires next + extra + inBlock < OFF_LIMIT
      requires done > 0 ==> extra == 0
      requires done == 0 && inBlock == bs && |before| < next ==> lower.HoleFits(next)
      modifies lower, lower.Repr
      ensures Valid()
      ensures res == -1 <==> done == 0 && Refused(bs, |before|, next, extra, inBlock)
      ensures (if done == 0 then inBlock == bs else ZeroGap(before, offset, old(Contents()))) ==>
              ZeroGap(before, offset, Contents())
      ensures res == -1 ==> Contents() == before
      ensures res != -1 ==> res == inBlock && Progress(WRITE, before, offset, bytes, done + res, Contents(), buf[..])
    {
      hide NextLayer.Valid; hide NextLayer.HoleFits;
      lower.Separate(buf);
      ghost var mid := Contents();
      var chunk := buf[done..done + inBlock];
      res := ProcessWriteBlock(chunk, next, extra);
      if res != -1 {
        WriteAdvances(before, offset, bytes, done, inBlock, mid, Contents());
      }
    }

    method ReadStep(
        buf: array<byte>, size: nat, done: nat, inBlock: nat, next: nat, extra: nat,
        ghost before: seq<byte>, ghost offset: nat, ghost bytes: seq<byte>)
      returns (res: int)
      requires Valid() && done + inBlock <= size <= buf.Length == |bytes| && 0 < inBlock
      requires Aligned(next, bs) && inBlock + extra <= bs && next + extra == offset + done
      requires Progress(READ, before, offset, bytes, done, Contents(), buf[..])
      requires next <= |before| && RestFits(lower.ReadsParts(), bs, inBlock + extra, |before| - next)
      requires ByIndex() ==> offset + done + inBlock <= |before|
      modifies lower.Repr, buf
      ensures Valid()
      ensures 0 <= res <= inBlock
      ensures Progress(READ, before, offset, bytes, done + res, Contents(), buf[..])
      ensures res < inBlock ==> offset + done + res == |before|
    {
      hide NextLayer.Valid; hide NextLayer.HoleFits;
      ghost var now := buf[..];
      res := ProcessReadBlock(buf, done, inBlock, next, extra);
      ReadAdvances(before, offset, bytes, done, res, now, buf[..]);
    }

    /** `split_into_blocks` */
    method SplitIntoBlocks(
        io: IoType, buf: array<byte>, size: nat, alignedOffset: nat, blockExtraOffset: nat, ghost last: nat)
      returns (res: int)
      requires Valid() && size <= buf.Length
      requires Aligned(alignedOffset, bs) && blockExtraOffset < bs
      requires alignedOffset + blockExtraOffset + size < OFF_LIMIT
      requires var offset := alignedOffset + blockExtraOffset;
        match io
        case READ =>
          && offset <= |Contents()|
          && (ByIndex() ==> offset + size <= |Contents()|)
          && Aligned(last, bs) && last <= offset + size < last + bs
          && ReadFits(lower.ReadsParts(), bs, |Contents()|, offset + size, last)
        case WRITE =>
          alignedOffset <= |Contents()| || size < bs || 0 < blockExtraOffset || lower.HoleFits(alignedOffset)
      modifies lower, lower.Repr, buf
      ensures Valid()
      ensures var before, offset := old(Contents()), alignedOffset + blockExtraOffset;
        if io.WRITE? && Refused(bs, |before|, alignedOffset, blockExtraOffset, size)
        then res == -1 && Contents() == before && buf[..] == old(buf[..])
        else
          && 0 <= res <= size
          && Progress(io, before, offset, old(buf[..]), res, Contents(), buf[..])
          && (io.WRITE? && blockExtraOffset == 0 && bs <= size ==> ZeroGap(before, offset, Contents()))
          && res == if io.READ? then Min(size, |before| - offset) else size
    {
      hide NextLayer.Valid; hide NextLayer.HoleFits;
      hide Spliced; hide ZeroGap; hide RestFits;
      var next: nat, extra: nat, done: nat := alignedOffset, blockExtraOffset, 0;
      ghost var before, offset, bytes := Contents(), alignedOffset + blockExtraOffset, buf[..];
      ProgressBegins(io, before, offset, bytes);
      while done < size
        invariant Valid() && done <= size
        invariant Progress(io, before, offset, bytes, done, Contents(), buf[..])
        invariant done < size ==> Aligned(next, bs) && extra < bs && next + extra == offset + done
        invariant done == 0 ==> next == alignedOffset && extra == blockExtraOffset
        invariant io.WRITE? && done == 0 && blockExtraOffset == 0 && bs <= size && |before| < alignedOffset ==>
                    lower.HoleFits(alignedOffset)
        invariant done > 0 ==> !(io.WRITE? && Refused(bs, |before|, alignedOffset, blockExtraOffset, size))
        invariant done > 0 ==> extra == 0
        invariant io.WRITE? && done > 0 && blockExtraOffset == 0 && bs <= size ==>
                    ZeroGap(before, offset, Contents())
      {
        var remaining := size - done;
        var inBlock := if remaining + extra >= bs then bs - extra else remaining;
        lower.Separate(buf);
        if done == 0 { RefusedAtOnce(bs, |before|, next, extra, size, inBlock); }
        if io.READ? { LastChunkFits(lower.ReadsParts(), bs, |before|, next, extra, inBlock, offset + size, last); }
        var r;
        match io {
          case WRITE => r := WriteStep(buf, done, inBlock, next, extra, before, offset, bytes);
          case READ => r := ReadStep(buf, size, done, inBlock, next, extra, before, offset, bytes);
        }
        if r < 0 {
          return r;
        }
        done := done + r;
        next := next + bs;
        extra := 0;
        if r < inBlock {
          return done;
        }
      }
      return done;
    }

    /** `block_align_read`: a slice of the file. */
    method Read(buf: array<byte>, size: nat, offset: nat) returns (res: int)
      requires Valid() && size <= buf.Length && size < INT_LIMIT
      requires offset <= |Contents()| && offset + size < OFF_LIMIT
      requires ReadInRange(lower.ReadsParts(), bs, |Contents()|, offset + size)
      requires ByIndex() ==> offset + size <= |Contents()|
      modifies lower, lower.Repr, buf
      ensures Valid() && Contents() == old(Contents())
      ensures res == Min(size, |Contents()| - offset)
      ensures buf[..] == Contents()[offset..offset + res] + old(buf[res..])
    {
      hide NextLayer.Valid; hide NextLayer.HoleFits; hide ReadFits;
      var blockExtraOffset := offset % bs;
      var alignedOffset := offset - blockExtraOffset;
      Blocks.AlignDown(offset, bs);
      Blocks.AlignDown(offset + size, bs);
      ghost var before := buf[..];
      res := SplitIntoBlocks(READ, buf, size, alignedOffset, blockExtraOffset, offset + size - (offset + size) % bs);
      assert buf[..] == Contents()[offset..offset + res] + before[res..];
    }

    /**
      `block_align_write`. Inside the file, and at its end, it is `pwrite`. Behind the end it fails, or, in the block
      the file ends in, leaves a gap of unspecified bytes. A request that starts with a whole block behind the end is
      `pwrite` too, if the layer below can hold the hole that leaves: see `Storage.HoleExactly`.
    */
    method Write(buf: array<byte>, size: nat, offset: nat) returns (res: int)
      requires Valid() && size <= buf.Length && size < INT_LIMIT && offset + size < OFF_LIMIT
      requires offset <= |Contents()| || 0 < offset % bs || size < bs || lower.HoleFits(offset)
      modifies lower, lower.Repr, buf
      ensures Valid() && buf[..] == old(buf[..])
      ensures var fileSize, extra := |old(Contents())|, offset % bs;
        res == -1 <==>
        0 < size && fileSize < offset && fileSize <= offset - extra && (0 < extra || size < bs)
      ensures res != -1 ==> res == size
      ensures res == -1 || size == 0 ==> Contents() == old(Contents())
      ensures res > 0 ==>
                && |Contents()| == Max(|old(Contents())|, offset + size)
                && (forall i | offset <= i < offset + size :: Contents()[i] == buf[..size][i - offset])
                && (forall i | 0 <= i < |old(Contents())| && !(offset <= i < offset + size) ::
                      Contents()[i] == old(Contents())[i])
      ensures offset <= |old(Contents())| || (offset % bs == 0 && bs <= size) ==>
              Contents() == Pwrite(old(Contents()), offset, buf[..size])
    {
      hide NextLayer.Valid; hide NextLayer.HoleFits;
      var blockExtraOffset := offset % bs;
      var alignedOffset := offset - blockExtraOffset;
      Blocks.AlignDown(offset, bs);
      ghost var before := Contents();
      res := SplitIntoBlocks(WRITE, buf, size, alignedOffset, blockExtraOffset, 0);
      if size > 0 && (offset <= |before| || (blockExtraOffset == 0 && bs <= size)) {
        GaplessIsPwrite(before, offset, buf[..size], Contents());
      }
    }

    /** The zero-fill loop of `block_align_truncate`: every write starts at the end of the file. */
    method FillWithZeros(size: nat) returns (res: int)
      requires Valid() && |Contents()| <= size < OFF_LIMIT
      modifies lower, lower.Repr
      ensures Valid() && res == 0 && Contents() == Ftruncate(old(Contents()), size)
    {
      hide NextLayer.Valid; hide NextLayer.HoleFits;
      ghost var before := Contents();
      var offset := lower.Fgetattr();
      var sizeToWrite, sizeWritten := size - offset, 0;
      var buff := new byte[FILL_SIZE](_ => 0);
      while sizeWritten < sizeToWrite
        invariant Valid() && 0 <= sizeWritten <= sizeToWrite == size - |before|
        invariant offset == |before| + sizeWritten
        invariant Contents() == before + Zeros(sizeWritten)
        invariant forall i | 0 <= i < FILL_SIZE :: buff[i] == 0
      {
        var iterSize := if FILL_SIZE < sizeToWrite - sizeWritten then FILL_SIZE else sizeToWrite - sizeWritten;
        assert buff[..iterSize] == Zeros(iterSize);
        FillStep(before, sizeWritten, iterSize);
        res := Write(buff, iterSize, offset);
        if res < iterSize {
          return -1;
        }
        offset := offset + iterSize;
        sizeWritten := sizeWritten + iterSize;
      }
      assert before[..|before|] == before;
      return 0;
    }

    method SplitSize(size: nat) returns (extraBytes: nat, blockOffset: nat)
      requires 0 < bs
      ensures extraBytes < bs && blockOffset + extraBytes == size && Aligned(blockOffset, bs)
      ensures extraBytes == 0 <==> Aligned(size, bs)
    {
      Blocks.AlignDown(size, bs);
      extraBytes := size % bs;
      blockOffset := size / bs * bs;
    }

    /** `block_align_truncate` on an open file: the prefix, or the file extended with zeros. */
    method Truncate(size: nat) returns (res: int)
      requires Valid() && size < OFF_LIMIT && !ByIndex()
      requires size < |Contents()| ==> ReadInRange(lower.ReadsParts(), bs, |Contents()|, size)
      modifies lower, lower.Repr
      ensures Valid() && res == 0
      ensures Contents() == Ftruncate(old(Contents()), size)
    {
      hide NextLayer.Valid; hide NextLayer.HoleFits;
      hide ReadInRange; hide Disciplined; hide Aligned;
      var extraBytes, blockOffset := SplitSize(size);
      var buffer := new byte[extraBytes];
      var fileSize := lower.Fgetattr();
      if size > fileSize {
        res := FillWithZeros(size);
        if res < 0 {
          return -1;
        }
      } else if extraBytes > 0 {
        EndInRange(lower.ReadsParts(), bs, fileSize);
        res := Read(buffer, extraBytes, blockOffset);
        if res < extraBytes {
          return -1;
        }
      }
      res := lower.Ftruncate(size);
      if res < 0 {
        return -1;
      }
      if extraBytes > 0 && size < fileSize {
        RepairIsDisciplined(bs, size, blockOffset, extraBytes);
        res := lower.Write(buffer[..], blockOffset);
        if res < extraBytes {
          return -1;
        }
      }
      return 0;
    }
  }

  /** A buffer that a read of a block has filled, seen from `extra` on. */
  lemma ReadInside(s: seq<byte>, b: nat, extra: nat, r: nat, aux: seq<byte>, part: seq<byte>)
    requires r <= |aux| && b + r <= |s| && aux[..r] == s[b..b + r]
    requires extra + |part| <= |aux| && part == aux[extra..extra + |part|]
    ensures extra + |part| <= r ==> part == s[b + extra..b + extra + |part|]
  {
    if extra + |part| <= r {
      forall i | 0 <= i < |part| ensures part[i] == s[b + extra + i] {
        assert aux[..r][extra + i] == s[b..b + r][extra + i];
      }
    }
  }

  lemma CopiedBytes(before: seq<byte>, at: nat, src: seq<byte>, start: nat, part: seq<byte>, after: seq<byte>)
    requires at + |part| <= |before| && start + |part| <= |src| && part == src[start..start + |part|]
    requires after == before[..at] + part + before[at + |part|..]
    ensures Copied(before, at, src, start, |part|, after)
  {
  }
}
