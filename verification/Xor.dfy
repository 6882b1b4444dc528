/** XOR sharing: multi_loop_drivers/xor.c. */
module Xor {
  import opened Bytes

  /** The XOR of the first `k` shares at position `p`. */
  function XorAt(shares: seq<seq<byte>>, k: nat, p: nat): byte
    requires k <= |shares|
    requires forall i | 0 <= i < k :: p < |shares[i]|
  {
    if k == 0 then 0 else XorAt(shares, k - 1, p) ^ shares[k - 1][p]
  }

  /** All shares have `size` bytes. */
  ghost predicate Even(shares: seq<seq<byte>>, size: nat) {
    forall i | 0 <= i < |shares| :: |shares[i]| == size
  }

  /** What the shares stand for. */
  function XorOf(shares: seq<seq<byte>>, size: nat): (r: seq<byte>)
    requires Even(shares, size)
    ensures |r| == size
    ensures forall p | 0 <= p < size :: r[p] == XorAt(shares, |shares|, p)
  {
    seq(size, p requires 0 <= p < size => XorAt(shares, |shares|, p))
  }

  lemma XorCancels(a: byte, b: byte)
    ensures a ^ (b ^ a) == b
  {
  }

  lemma XorZero(a: byte)
    ensures 0 ^ a == a && a ^ 0 == a
  {
  }

  /** The XOR of shares depends on the bytes at the position only. */
  lemma {:induction false} XorAtSame(a: seq<seq<byte>>, b: seq<seq<byte>>, k: nat, p: nat, q: nat)
    requires k <= |a| && k <= |b|
    requires forall i | 0 <= i < k :: p < |a[i]| && q < |b[i]| && a[i][p] == b[i][q]
    ensures XorAt(a, k, p) == XorAt(b, k, q)
  {
    if k > 0 { XorAtSame(a, b, k - 1, p, q); }
  }

  lemma {:induction false} XorAtZero(a: seq<seq<byte>>, k: nat, p: nat)
    requires k <= |a|
    requires forall i | 0 <= i < k :: p < |a[i]| && a[i][p] == 0
    ensures XorAt(a, k, p) == 0
  {
    if k > 0 {
      XorAtZero(a, k - 1, p);
      XorZero(0);
    }
  }

  /** `xor_blocks`; the result buffer may be one of the operands. */
  method XorBlocks(b1: array<byte>, b2: array<byte>, r: array<byte>, len: nat)
    requires len <= b1.Length && len <= b2.Length && len <= r.Length
    modifies r
    ensures forall i | 0 <= i < len :: r[i] == old(b1[i]) ^ old(b2[i])
    ensures r[len..] == old(r[len..])
  {
    for i := 0 to len
      invariant forall j | 0 <= j < i :: r[j] == old(b1[j]) ^ old(b2[j])
      invariant forall j | i <= j < len :: b1[j] == old(b1[j]) && b2[j] == old(b2[j])
      invariant r[len..] == old(r[len..])
    {
      r[i] := b1[i] ^ b2[i];
    }
  }

  /** `memcpy` of the first `size` bytes. */
  method Memcpy(dest: array<byte>, src: array<byte>, size: nat)
    requires dest != src && size <= dest.Length && size <= src.Length
    modifies dest
    ensures dest[..size] == src[..size]
    ensures dest[size..] == old(dest[size..])
  {
    for i := 0 to size
      invariant dest[..i] == src[..i]
      invariant dest[size..] == old(dest[size..])
    {
      dest[i] := src[i];
      assert dest[..i + 1] == dest[..i] + [src[i]];
    }
  }

  /** The buffers hold the shares. */
  ghost predicate Hold(magicblocks: seq<array<byte>>, shares: seq<seq<byte>>, size: nat)
    reads magicblocks
  {
    && |magicblocks| == |shares|
    && forall i | 0 <= i < |shares| ::
      |shares[i]| == size <= magicblocks[i].Length && magicblocks[i][..size] == shares[i]
  }

  /** `decode_xor` */
  method DecodeXor(
      block: array<byte>, magicblocks: seq<array<byte>>, size: nat, ndevs: nat, ghost shares: seq<seq<byte>>)
    requires 0 < ndevs == |magicblocks| && Hold(magicblocks, shares, size)
    requires block !in magicblocks && size <= block.Length
    modifies block
    ensures Even(shares, size) && block[..size] == XorOf(shares, size)
    ensures block[size..] == old(block[size..])
  {
    Memcpy(block, magicblocks[0], size);
    forall p | 0 <= p < size ensures block[p] == XorAt(shares, 1, p) {
      assert block[..size][p] == shares[0][p];
      XorZero(shares[0][p]);
      assert XorAt(shares, 0, p) == 0;
    }
    for i := 1 to ndevs
      invariant Hold(magicblocks, shares, size)
      invariant forall p | 0 <= p < size :: block[p] == XorAt(shares, i, p)
      invariant block[size..] == old(block[size..])
    {
      XorBlocks(block, magicblocks[i], block, size);
      forall p | 0 <= p < size ensures block[p] == XorAt(shares, i + 1, p) {
        assert magicblocks[i][..size][p] == shares[i][p];
      }
    }
  }

  /** What the random generator draws: any bytes at all. */
  method RandomBlocks(n: nat, size: nat) returns (random: seq<seq<byte>>)
    ensures |random| == n && Even(random, size)
  {
    random := [];
    for k := 0 to n
      invariant |random| == k && Even(random, size)
    {
      var block := new byte[size];
      for i := 0 to size {
        block[i] := *;
      }
      random := random + [block[..]];
    }
  }

  /** `generate_random_block`; `random` is what it draws. */
  method GenerateRandomBlock(str: array<byte>, size: nat, random: seq<byte>)
    requires |random| == size <= str.Length
    modifies str
    ensures str[..size] == random && str[size..] == old(str[size..])
  {
    for i := 0 to size
      invariant str[..i] == random[..i]
      invariant str[size..] == old(str[size..])
    {
      str[i] := random[i];
    }
  }

  /**
    `encode_xor`: all shares but the last are what was drawn, and whatever that was, the shares stand for the block;
    `block` is used up.
  */
  method EncodeXor(
      magicblocks: seq<array<byte>>, block: array<byte>, size: nat, ndevs: nat, random: seq<seq<byte>>)
    returns (ghost shares: seq<seq<byte>>)
    requires 0 < ndevs == |magicblocks|
    requires size <= block.Length && forall i | 0 <= i < ndevs :: size <= magicblocks[i].Length
    requires block !in magicblocks
    requires forall i, j | 0 <= i < j < ndevs :: magicblocks[i] != magicblocks[j]
    requires |random| == ndevs - 1 && Even(random, size)
    modifies block, magicblocks
    ensures Hold(magicblocks, shares, size) && shares[..ndevs - 1] == random
    ensures Even(shares, size) && XorOf(shares, size) == old(block[..size])
  {
    shares := [];
    ghost var was := block[..size];
    forall p | 0 <= p < size ensures was[p] == XorAt(shares, 0, p) ^ was[p] {
      XorZero(was[p]);
    }
    for i := 0 to ndevs - 1
      invariant |shares| == i && Hold(magicblocks[..i], shares, size) && shares == random[..i]
      invariant Rest(shares, size, was, block[..size])
    {
      ghost var rest := block[..size];
      GenerateRandomBlock(magicblocks[i], size, random[i]);
      XorBlocks(block, magicblocks[i], block, size);
      ghost var next := magicblocks[i][..size];
      ShareAdded(shares, next, size, was, rest, block[..size]);
      shares := shares + [next];
    }
    Memcpy(magicblocks[ndevs - 1], block, size);
    LastShare(shares, size, was, block[..size]);
    shares := shares + [block[..size]];
  }

  /** What is left of a block `was` when the shares are taken out of it. */
  ghost predicate Rest(shares: seq<seq<byte>>, size: nat, was: seq<byte>, rest: seq<byte>) {
    && Even(shares, size) && |was| == |rest| == size
    && forall p | 0 <= p < size :: rest[p] == XorAt(shares, |shares|, p) ^ was[p]
  }

  lemma ShareAdded(
      shares: seq<seq<byte>>, next: seq<byte>, size: nat, was: seq<byte>, rest: seq<byte>, rest': seq<byte>)
    requires Rest(shares, size, was, rest) && |next| == |rest'| == size
    requires forall p | 0 <= p < size :: rest'[p] == rest[p] ^ next[p]
    ensures Rest(shares + [next], size, was, rest')
  {
    forall p | 0 <= p < size ensures rest'[p] == XorAt(shares + [next], |shares| + 1, p) ^ was[p] {
      XorAtSame(shares, shares + [next], |shares|, p, p);
      XorRotate(XorAt(shares, |shares|, p), was[p], next[p]);
    }
  }

  /** The rest is the last share. */
  lemma LastShare(shares: seq<seq<byte>>, size: nat, was: seq<byte>, rest: seq<byte>)
    requires Rest(shares, size, was, rest)
    ensures Even(shares + [rest], size) && XorOf(shares + [rest], size) == was
  {
    forall p | 0 <= p < size ensures XorAt(shares + [rest], |shares| + 1, p) == was[p] {
      XorAtSame(shares, shares + [rest], |shares|, p, p);
      XorCancels(XorAt(shares, |shares|, p), was[p]);
      XorCommutes(XorAt(shares, |shares|, p), was[p]);
    }
  }

  lemma XorRotate(a: byte, b: byte, c: byte)
    ensures (a ^ b) ^ c == (a ^ c) ^ b
  {
  }

  lemma XorCommutes(a: byte, b: byte)
    ensures a ^ b == b ^ a
  {
  }

  // ----- sharing through requests

  /** Writing a share of `buf` on every device writes `buf`. */
  lemma PwriteShares(devs: seq<seq<byte>>, size: nat, offset: nat, shares: seq<seq<byte>>, len: nat)
    requires 0 < |devs| == |shares| && 0 < len && Even(devs, size) && Even(shares, len)
    ensures var devs' := seq(|devs|, i requires 0 <= i < |devs| => Pwrite(devs[i], offset, shares[i]));
      && Even(devs', Max(size, offset + len))
      && XorOf(devs', Max(size, offset + len)) == Pwrite(XorOf(devs, size), offset, XorOf(shares, len))
  {
    var devs' := seq(|devs|, i requires 0 <= i < |devs| => Pwrite(devs[i], offset, shares[i]));
    forall i | 0 <= i < |devs| ensures Written(devs[i], offset, shares[i], devs'[i]) {
      PwriteWrites(devs[i], offset, shares[i]);
    }
    SharesWritten(devs, size, offset, shares, len, devs');
    WrittenOnce(XorOf(devs, size), offset, XorOf(shares, len), XorOf(devs', Max(size, offset + len)));
  }

  lemma SharesWritten(
      devs: seq<seq<byte>>, size: nat, offset: nat, shares: seq<seq<byte>>, len: nat, devs': seq<seq<byte>>)
    requires 0 < |devs| == |shares| == |devs'| && 0 < len && Even(devs, size) && Even(shares, len)
    requires forall i | 0 <= i < |devs| :: Written(devs[i], offset, shares[i], devs'[i])
    ensures Even(devs', Max(size, offset + len))
    ensures Written(XorOf(devs, size), offset, XorOf(shares, len), XorOf(devs', Max(size, offset + len)))
  {
    var n := |devs|;
    forall p | 0 <= p < Max(size, offset + len)
      ensures XorAt(devs', n, p) ==
              if offset <= p < offset + len then XorAt(shares, n, p - offset)
              else if p < size then XorAt(devs, n, p)
              else 0
    {
      if offset <= p < offset + len { XorAtSame(devs', shares, n, p, p - offset); }
      else if p < size { XorAtSame(devs', devs, n, p, p); }
      else { XorAtZero(devs', n, p); }
    }
  }

  /** Truncating every device truncates what they stand for. */
  lemma FtruncateShares(devs: seq<seq<byte>>, size: nat, length: nat)
    requires 0 < |devs| && Even(devs, size)
    ensures var devs' := seq(|devs|, i requires 0 <= i < |devs| => Ftruncate(devs[i], length));
      Even(devs', length) && XorOf(devs', length) == Ftruncate(XorOf(devs, size), length)
  {
    var devs' := seq(|devs|, i requires 0 <= i < |devs| => Ftruncate(devs[i], length));
    var n := |devs|;
    forall p | 0 <= p < length
      ensures XorAt(devs', n, p) == if p < size then XorAt(devs, n, p) else 0
    {
      if p < size { XorAtSame(devs', devs, n, p, p); } else { XorAtZero(devs', n, p); }
    }
  }

  /** Reading the same range of every device gives shares of that range. */
  lemma PreadShares(devs: seq<seq<byte>>, size: nat, offset: nat, len: nat)
    requires 0 < |devs| && Even(devs, size)
    ensures var got := seq(|devs|, i requires 0 <= i < |devs| => Pread(devs[i], offset, len));
      var want := Pread(XorOf(devs, size), offset, len);
      Even(got, |want|) && XorOf(got, |want|) == want
  {
    var got := seq(|devs|, i requires 0 <= i < |devs| => Pread(devs[i], offset, len));
    var want := Pread(XorOf(devs, size), offset, len);
    forall p | 0 <= p < |want| ensures XorAt(got, |devs|, p) == want[p] {
      XorAtSame(got, devs, |devs|, p, offset + p);
    }
  }
}
