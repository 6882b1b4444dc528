/** The extent index of multi_loop_drivers/erasure.c. */
module ErasureIndex {
  import opened Bytes
  import opened Blocks
  import opened IvdbMap

  /** The keys of `offset_map`: what is recorded about a logical offset of the file with an id. */
  datatype Entry =
    | Wo(id: nat, offset: nat)  // the physical offset for a write that starts here
    | Ro(id: nat, offset: nat)  // the physical offset of the block that starts here
    | Rs(id: nat, offset: nat)  // the physical size of the block that starts here

  /** The driver's state, with the keys of `offset_map` as entries. */
  datatype Index = Index(
    entries: map<Entry, nat>, fileIds: map<string, nat>, fileSizes: map<string, nat>, lastId: nat)

  /** The id `get_file_id` returns; for a path without one, the next. */
  function FileId(ix: Index, path: string): nat {
    if path in ix.fileIds then ix.fileIds[path] else ix.lastId + 1
  }

  /** Asking for the id of a path without one uses an id up, and does not record it. */
  function AskedId(ix: Index, path: string): Index {
    if path in ix.fileIds then ix else ix.(lastId := ix.lastId + 1)
  }

  function SizeOf(ix: Index, path: string): nat {
    if path in ix.fileSizes then ix.fileSizes[path] else 0
  }

  /** A write at a nonzero offset needs the entry an earlier write left there. */
  predicate Chained(ix: Index, path: string, offset: nat) {
    offset == 0 || Wo(FileId(ix, path), offset) in ix.entries
  }

  function Address(ix: Index, path: string, offset: nat): nat
    requires Chained(ix, path, offset)
  {
    if offset == 0 then 0 else ix.entries[Wo(FileId(ix, path), offset)]
  }

  /** The index after `erasure_encode` of `size` bytes at `offset` into fragments of `fragment` bytes. */
  function Encoded(ix: Index, path: string, offset: nat, size: nat, fragment: nat): Index
    requires Chained(ix, path, offset)
  {
    var id, address := FileId(ix, path), Address(ix, path, offset);
    Index(
      ix.entries[Wo(id, offset + size) := address + fragment][Ro(id, offset) := address][Rs(id, offset) := fragment],
      ix.fileIds[path := id],
      if SizeOf(ix, path) < offset + size then ix.fileSizes[path := offset + size] else ix.fileSizes,
      AskedId(ix, path).lastId)
  }

  function Renamed(ix: Index, from: string, to: string): Index {
    ix.(fileIds := Moved(ix.fileIds, from, to), fileSizes := Moved(ix.fileSizes, from, to))
  }

  function Created(ix: Index, path: string): Index {
    ix.(fileIds := Without(ix.fileIds, path), fileSizes := Without(ix.fileSizes, path))
  }

  // ----- the closed form

  /** Block `k` of a file of `n` bytes is at `k` full fragments, and has its own length's fragment. */
  ghost predicate BlockIndexed(bs: nat, fragment: seq<nat>, entries: map<Entry, nat>, id: nat, n: nat, k: nat)
    requires |fragment| == bs + 1 && Start(k, bs) < n
  {
    var o := Start(k, bs);
    && Ro(id, o) in entries && entries[Ro(id, o)] == Start(k, fragment[bs])
    && Rs(id, o) in entries && entries[Rs(id, o)] == fragment[Min(bs, n - o)]
  }

  /** A write may start at block `k`, at its address. */
  ghost predicate ChainedAt(bs: nat, fragment: seq<nat>, entries: map<Entry, nat>, id: nat, k: nat)
    requires |fragment| == bs + 1
  {
    Wo(id, Start(k, bs)) in entries && entries[Wo(id, Start(k, bs))] == Start(k, fragment[bs])
  }

  ghost predicate FileIndexed(bs: nat, fragment: seq<nat>, entries: map<Entry, nat>, id: nat, n: nat)
    requires |fragment| == bs + 1
  {
    && (forall k: nat | Start(k, bs) < n :: BlockIndexed(bs, fragment, entries, id, n, k))
    && (forall k: nat | 0 < k && Start(k, bs) <= n :: ChainedAt(bs, fragment, entries, id, k))
  }

  /** Entries of a file that no write touches keep their meaning. */
  lemma OtherFileIndexed(
      bs: nat, fragment: seq<nat>, entries: map<Entry, nat>, entries': map<Entry, nat>, id: nat, n: nat)
    requires |fragment| == bs + 1 && FileIndexed(bs, fragment, entries, id, n)
    requires forall e: Entry | e.id == id && e in entries :: e in entries' && entries'[e] == entries[e]
    ensures FileIndexed(bs, fragment, entries', id, n)
  {
    forall k: nat | Start(k, bs) < n ensures BlockIndexed(bs, fragment, entries', id, n, k) {
      assert BlockIndexed(bs, fragment, entries, id, n, k);
      assert Ro(id, Start(k, bs)).id == id && Rs(id, Start(k, bs)).id == id;
    }
    forall k: nat | 0 < k && Start(k, bs) <= n ensures ChainedAt(bs, fragment, entries', id, k) {
      assert ChainedAt(bs, fragment, entries, id, k);
      assert Wo(id, Start(k, bs)).id == id;
    }
  }

  /** The entries after a write of `len` bytes to block `k`, at the address of the closed form. */
  function Linked(bs: nat, fragment: seq<nat>, entries: map<Entry, nat>, id: nat, k: nat, len: nat): map<Entry, nat>
    requires len <= bs && |fragment| == bs + 1
  {
    var o, a := Start(k, bs), Start(k, fragment[bs]);
    entries[Wo(id, o + len) := a + fragment[len]][Ro(id, o) := a][Rs(id, o) := fragment[len]]
  }

  lemma BlockIndexedAfterWrite(
      bs: nat, fragment: seq<nat>, entries: map<Entry, nat>, id: nat, n: nat, k: nat, len: nat, j: nat)
    requires 0 < bs && |fragment| == bs + 1 && 0 < len <= bs
    requires Start(k, bs) <= n && (len == bs || n <= Start(k, bs) + len)
    requires Start(j, bs) < n ==> BlockIndexed(bs, fragment, entries, id, n, j)
    requires Start(j, bs) < Max(n, Start(k, bs) + len)
    ensures BlockIndexed(bs, fragment, Linked(bs, fragment, entries, id, k, len), id, Max(n, Start(k, bs) + len), j)
  {
    if j < k { StartMono(j, k, bs); }
    if k < j { StartMono(k, j, bs); }
  }

  lemma ChainedAfterWrite(
      bs: nat, fragment: seq<nat>, entries: map<Entry, nat>, id: nat, n: nat, k: nat, len: nat, j: nat)
    requires 0 < bs && |fragment| == bs + 1 && 0 < len <= bs
    requires Start(k, bs) <= n && (len == bs || n <= Start(k, bs) + len)
    requires 0 < j && (Start(j, bs) <= n ==> ChainedAt(bs, fragment, entries, id, j))
    requires Start(j, bs) <= Max(n, Start(k, bs) + len)
    ensures ChainedAt(bs, fragment, Linked(bs, fragment, entries, id, k, len), id, j)
  {
    if j <= k {
      StartMono(j, k, bs);
    } else {
      StartMono(k + 1, j, bs);
    }
  }

  lemma BlocksAfterWrite(bs: nat, fragment: seq<nat>, entries: map<Entry, nat>, id: nat, n: nat, k: nat, len: nat)
    requires 0 < bs && |fragment| == bs + 1 && FileIndexed(bs, fragment, entries, id, n)
    requires 0 < len <= bs && Start(k, bs) <= n && (len == bs || n <= Start(k, bs) + len)
    ensures var n' := Max(n, Start(k, bs) + len);
      forall j: nat | Start(j, bs) < n' ::
        BlockIndexed(bs, fragment, Linked(bs, fragment, entries, id, k, len), id, n', j)
  {
    hide Linked; hide BlockIndexed; hide ChainedAt;
    var n' := Max(n, Start(k, bs) + len);
    forall j: nat | Start(j, bs) < n'
      ensures BlockIndexed(bs, fragment, Linked(bs, fragment, entries, id, k, len), id, n', j)
    {
      BlockIndexedAfterWrite(bs, fragment, entries, id, n, k, len, j);
    }
  }

  lemma ChainsAfterWrite(bs: nat, fragment: seq<nat>, entries: map<Entry, nat>, id: nat, n: nat, k: nat, len: nat)
    requires 0 < bs && |fragment| == bs + 1 && FileIndexed(bs, fragment, entries, id, n)
    requires 0 < len <= bs && Start(k, bs) <= n && (len == bs || n <= Start(k, bs) + len)
    ensures var n' := Max(n, Start(k, bs) + len);
      forall j: nat | 0 < j && Start(j, bs) <= n' ::
        ChainedAt(bs, fragment, Linked(bs, fragment, entries, id, k, len), id, j)
  {
    hide Linked; hide BlockIndexed; hide ChainedAt;
    var n' := Max(n, Start(k, bs) + len);
    forall j: nat | 0 < j && Start(j, bs) <= n'
      ensures ChainedAt(bs, fragment, Linked(bs, fragment, entries, id, k, len), id, j)
    {
      ChainedAfterWrite(bs, fragment, entries, id, n, k, len, j);
    }
  }

  /** A covering write to block `k` keeps the closed form; entries left by a shorter last block are not consulted. */
  lemma WriteIndexed(bs: nat, fragment: seq<nat>, entries: map<Entry, nat>, id: nat, n: nat, k: nat, len: nat)
    requires 0 < bs && |fragment| == bs + 1 && FileIndexed(bs, fragment, entries, id, n)
    requires 0 < len <= bs && Start(k, bs) <= n && (len == bs || n <= Start(k, bs) + len)
    ensures FileIndexed(bs, fragment, Linked(bs, fragment, entries, id, k, len), id, Max(n, Start(k, bs) + len))
  {
    hide Linked; hide BlockIndexed; hide ChainedAt;
    BlocksAfterWrite(bs, fragment, entries, id, n, k, len);
    ChainsAfterWrite(bs, fragment, entries, id, n, k, len);
  }
}
