module Wrappers {
  datatype Option<T> = None | Some(value: T)
}

/** Bytes, and the POSIX regular-file calls the lowest layer rests on. */
module Bytes {

  type byte = bv8

  function Min(a: int, b: int): int {
    if a <= b then a else b
  }

  function Max(a: int, b: int): int {
    if a >= b then a else b
  }

  function Zeros(n: nat): (z: seq<byte>)
    ensures |z| == n
    ensures forall i | 0 <= i < n :: z[i] == 0
  {
    seq(n, _ => 0 as byte)
  }

  /** `pread`: the bytes between `offset` and the end of file, at most `n` of them. */
  function Pread(file: seq<byte>, offset: nat, n: nat): seq<byte> {
    if |file| <= offset then []
    else file[offset..Min(offset + n, |file|)]
  }

  /** `pwrite`: a gap between the end of file and `offset` reads as zeros; writing nothing changes nothing. */
  function Pwrite(file: seq<byte>, offset: nat, buf: seq<byte>): (file': seq<byte>)
    ensures |file'| == if buf == [] then |file| else Max(|file|, offset + |buf|)
  {
    if buf == [] then file
    else if |file| <= offset then file + Zeros(offset - |file|) + buf
    else file[..offset] + buf + (if offset + |buf| <= |file| then file[offset + |buf|..] else [])
  }

  /** `ftruncate`: a prefix, or the file extended with zeros. */
  function Ftruncate(file: seq<byte>, n: nat): (file': seq<byte>)
    ensures |file'| == n
  {
    if n <= |file| then file[..n] else file + Zeros(n - |file|)
  }

  lemma FtruncateExtends(file: seq<byte>, n: nat)
    requires |file| <= n
    ensures Ftruncate(file, n) == file + Zeros(n - |file|)
  {
  }

  lemma PwriteAt(file: seq<byte>, offset: nat, buf: seq<byte>, i: nat)
    requires buf != [] && i < Max(|file|, offset + |buf|)
    ensures Pwrite(file, offset, buf)[i] ==
            if offset <= i < offset + |buf| then buf[i - offset]
            else if i < |file| then file[i]
            else 0
  {
  }

  /** `file'` is `file` with `buf` at `offset`, byte by byte. */
  ghost predicate Written(file: seq<byte>, offset: nat, buf: seq<byte>, file': seq<byte>) {
    && |file'| == Max(|file|, offset + |buf|)
    && (forall i | offset <= i < offset + |buf| :: file'[i] == buf[i - offset])
    && (forall i | 0 <= i < |file| && !(offset <= i < offset + |buf|) :: file'[i] == file[i])
    && (forall i | |file| <= i < offset :: file'[i] == 0)
  }

  lemma PwriteWrites(file: seq<byte>, offset: nat, buf: seq<byte>)
    requires buf != []
    ensures Written(file, offset, buf, Pwrite(file, offset, buf))
  {
    forall i | 0 <= i < Max(|file|, offset + |buf|)
      ensures Pwrite(file, offset, buf)[i] ==
              if offset <= i < offset + |buf| then buf[i - offset] else if i < |file| then file[i] else 0
    {
      PwriteAt(file, offset, buf, i);
    }
  }

  lemma WrittenAt(file: seq<byte>, offset: nat, buf: seq<byte>, file': seq<byte>)
    requires Written(file, offset, buf, file')
    ensures file'[offset..offset + |buf|] == buf
  {
  }

  /** A write behind the end of file extends what the file ends with by zeros. */
  lemma WrittenBehind(file: seq<byte>, offset: nat, buf: seq<byte>, file': seq<byte>, o: nat, e: nat)
    requires Written(file, offset, buf, file') && o <= |file| <= e <= offset
    ensures file'[o..e] == file[o..] + Zeros(e - |file|)
  {
  }

  /** There is one way to write. */
  lemma WrittenOnce(file: seq<byte>, offset: nat, buf: seq<byte>, file': seq<byte>)
    requires buf != [] && Written(file, offset, buf, file')
    ensures file' == Pwrite(file, offset, buf)
  {
    PwriteWrites(file, offset, buf);
  }

  /** A read reads the front of a longer range. */
  lemma PreadFront(file: seq<byte>, offset: nat, n: nat, m: nat)
    requires 0 < n <= m && offset + m <= |file|
    ensures Pread(file, offset, n) == file[offset..offset + m][..n]
  {
  }

  /** Writing what is there changes nothing. */
  lemma PwriteSame(file: seq<byte>, offset: nat, buf: seq<byte>)
    requires buf != [] && Pread(file, offset, |buf|) == buf
    ensures Pwrite(file, offset, buf) == file
  {
  }

  /** A read that ends where it should, or at the end of file. */
  lemma PreadSlice(file: seq<byte>, offset: nat, n: nat, e: nat)
    requires offset < e <= |file| && e == Min(offset + n, |file|)
    ensures Pread(file, offset, n) == file[offset..e]
  {
  }
}
