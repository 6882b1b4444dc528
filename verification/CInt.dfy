/**
  The C integer arithmetic of `process_read_block`, where it matters: offsets are 64-bit unsigned, but the number of
  bytes to read and the results of reads are `int`.
*/
module CInt {
  import opened Bytes

  const INT_LIMIT: int := 0x8000_0000
  const OFF_LIMIT: int := 0x8000_0000_0000_0000
  const TWO_TO_THE_32: int := 0x1_0000_0000
  const TWO_TO_THE_64: int := 0x1_0000_0000_0000_0000

  /** The value modulo 2^64: arithmetic on `uint64_t`. */
  function U64(x: int): nat {
    x % TWO_TO_THE_64
  }

  /** Conversion to `int`: the value modulo 2^32, in the signed range. */
  function ToInt(x: int): int {
    var m := x % TWO_TO_THE_32;
    if m < INT_LIMIT then m else m - TWO_TO_THE_32
  }

  /** The conversion keeps the value modulo 2^32 and gives one an `int` can hold; there is only one. */
  lemma ToIntExactly(x: int)
    ensures -0x8000_0000 <= ToInt(x) < 0x8000_0000
    ensures (x - ToInt(x)) % 0x1_0000_0000 == 0
    ensures -0x8000_0000 <= x < 0x8000_0000 ==> ToInt(x) == x
    ensures 0 <= U64(x) < 0x1_0000_0000_0000_0000 && (x - U64(x)) % 0x1_0000_0000_0000_0000 == 0
  {
  }

  /** How many bytes of a block are read to serve its first `want` bytes. */
  function BytesToRead(bs: nat, want: nat, fileSize: nat, blockOffset: nat): int {
    if want != bs then
      var rest := U64(fileSize - blockOffset);
      var n := ToInt(if want >= rest then want else rest);
      if n > bs then bs else n
    else bs
  }

  /**
    The condition under which the conversion to `int` does no harm. If the layer below reads parts of blocks, it is
    enough that the size read covers what is wanted.
  */
  predicate RestFits(part: bool, bs: nat, want: nat, rest: int) {
    || want == bs || rest <= want || rest < INT_LIMIT
    || (if part then want else bs) <= rest % TWO_TO_THE_32 < INT_LIMIT
  }

  /**
    The size read is what covers `want` and all live bytes of the block, or `want` at least, exactly when the
    conversion does no harm.
  */
  lemma ReadsEnoughExactly(bs: nat, want: nat, fileSize: nat, blockOffset: nat)
    requires 0 < want <= bs < INT_LIMIT && blockOffset <= fileSize < OFF_LIMIT
    ensures var n, rest := BytesToRead(bs, want, fileSize, blockOffset), fileSize - blockOffset;
      && (n == Max(want, Min(bs, rest)) <==> RestFits(false, bs, want, rest))
      && (want <= n <= bs <==> RestFits(true, bs, want, rest))
  {
  }

  /** The size read, in every case; the buffer gets it as its size. */
  lemma BytesToReadExactly(bs: nat, want: nat, fileSize: nat, blockOffset: nat)
    requires 0 < want <= bs < INT_LIMIT && blockOffset <= fileSize < OFF_LIMIT
    ensures var n, rest := BytesToRead(bs, want, fileSize, blockOffset), fileSize - blockOffset;
      var low := rest % 0x1_0000_0000;
      n == if want == bs then bs
           else if rest <= want then want
           else if low < 0x8000_0000 then Min(low, bs)
           else low - 0x1_0000_0000
  {
  }

  /** A partial read of a block that 4 GiB follow: the low bits are small enough again, and the read is served. */
  lemma LargerRestWorks()
    ensures BytesToRead(4096, 100, 0x1_0000_1000, 0) == 4096
    ensures RestFits(false, 4096, 100, 0x1_0000_1000)
  {
  }

  /**
    Over a layer that reads parts of blocks, where a read of `n` bytes gets the first `n` bytes of the block as far as
    there are any, this condition is the one under which `process_read_block` delivers its slice.
  */
  lemma SliceExactly(bs: nat, size: nat, extra: nat, fileSize: nat, blockOffset: nat)
    requires 0 < size && size + extra <= bs < INT_LIMIT && blockOffset + extra <= fileSize < OFF_LIMIT
    ensures var n, rest := BytesToRead(bs, size + extra, fileSize, blockOffset), fileSize - blockOffset;
      var got := Min(n, rest);
      (0 <= n && ReadResult(got, extra, size) == Min(size, rest - extra) && extra + Min(size, rest - extra) <= got)
      <==> RestFits(true, bs, size + extra, rest)
  {
    var n, rest := BytesToRead(bs, size + extra, fileSize, blockOffset), fileSize - blockOffset;
    ReadsEnoughExactly(bs, size + extra, fileSize, blockOffset);
    if 0 <= n { ReadResultExactly(Min(n, rest), extra, size); }
  }

  /** A partial read of a block that 2^31 bytes follow: the buffer gets a negative size. */
  lemma LargeRestBreaks()
    ensures BytesToRead(4096, 100, 0x8000_0000, 0) == -0x8000_0000
  {
  }

  /** The result of `process_read_block` when the layer below returned `res`: the guard on `res` is unsigned. */
  function ReadResult(res: int, extra: nat, size: nat): int {
    var d := U64(res - extra);
    if d < 0 then -1
    else if d > size then size
    else ToInt(d)
  }

  /** The result is the number of bytes read behind `extra`, or `size`: an error or a shorter read is not seen. */
  lemma ReadResultExactly(res: int, extra: nat, size: nat)
    requires -INT_LIMIT <= res < INT_LIMIT && extra < INT_LIMIT && size < INT_LIMIT
    ensures ReadResult(res, extra, size) == if extra <= res then Min(size, res - extra) else size
  {
  }

  /** Lines 61-78 of align/blockalign.c: a size that covers what is wanted, and the live bytes if need be. */
  method PlanRead(ghost part: bool, bs: nat, want: nat, fileSize: nat, blockOffset: nat) returns (n: int)
    requires 0 < want <= bs < INT_LIMIT && blockOffset <= fileSize < OFF_LIMIT
    requires RestFits(part, bs, want, fileSize - blockOffset)
    ensures want <= n <= bs
    ensures !part ==> n == Max(want, Min(bs, fileSize - blockOffset))
  {
    ReadsEnoughExactly(bs, want, fileSize, blockOffset);
    n := BytesToRead(bs, want, fileSize, blockOffset);
  }

  /** Lines 94-106 of align/blockalign.c. */
  method CountRead(res: int, extra: nat, size: nat) returns (n: int)
    requires -INT_LIMIT <= res < INT_LIMIT && extra < INT_LIMIT && size < INT_LIMIT
    ensures n == if extra <= res then Min(size, res - extra) else size
  {
    ReadResultExactly(res, extra, size);
    n := ReadResult(res, extra, size);
  }

  /** `memcpy` into the middle of a buffer. */
  method CopyTo(dest: array<byte>, at: nat, src: seq<byte>)
    requires at + |src| <= dest.Length
    modifies dest
    ensures dest[..] == old(dest[..at]) + src + old(dest[at + |src|..])
  {
    forall i | 0 <= i < |src| {
      dest[at + i] := src[i];
    }
  }
}
