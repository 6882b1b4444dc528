/** The keys of `offset_map`: what `sprintf` makes of an id, a tag and an offset. */
module ErasureKeys {
  import opened ErasureIndex

  function Digit(d: nat): char
    requires d < 10
  {
    "0123456789"[d]
  }

  function DigitValue(c: char): nat {
    if '0' <= c <= '9' then c as nat - '0' as nat else 0
  }

  /** `%ld` of a number that is not negative. */
  function Decimal(n: nat): (s: string)
    ensures s != [] && ':' !in s
  {
    if n < 10 then [Digit(n)] else Decimal(n / 10) + [Digit(n % 10)]
  }

  function DecimalValue(s: string): nat {
    if s == [] then 0 else DecimalValue(s[..|s| - 1]) * 10 + DigitValue(s[|s| - 1])
  }

  lemma {:induction false} ValueOfDecimal(n: nat)
    ensures DecimalValue(Decimal(n)) == n
  {
    if n < 10 {
      assert [Digit(n)][..0] == [];
    } else {
      ValueOfDecimal(n / 10);
      var s := Decimal(n / 10);
      assert (s + [Digit(n % 10)])[..|s|] == s;
    }
  }

  function Tag(e: Entry): (t: string)
    ensures t != [] && ':' !in t
  {
    match e
    case Wo(_, _) => "wo"
    case Ro(_, _) => "ro"
    case Rs(_, _) => "rs"
  }

  function Key(e: Entry): string {
    Decimal(e.id) + ":" + (Tag(e) + ":" + Decimal(e.offset))
  }

  /** The text before the first colon is determined. */
  lemma SplitAtColon(a: string, b: string, a': string, b': string)
    requires ':' !in a && ':' !in a' && a + ":" + b == a' + ":" + b'
    ensures a == a' && b == b'
  {
    var s := a + ":" + b;
    assert s[|a|] == ':' && s[|a'|] == ':';
    assert forall i | 0 <= i < |a| :: s[i] == a[i] && a[i] in a;
    assert forall i | 0 <= i < |a'| :: s[i] == a'[i] && a'[i] in a';
    assert |a| == |a'|;
    assert a == s[..|a|] && a' == s[..|a'|];
    assert b == s[|a| + 1..] && b' == s[|a'| + 1..];
  }

  /** Different entries have different keys, so the string table is a table of entries. */
  lemma KeyInjective(e: Entry, e': Entry)
    requires Key(e) == Key(e')
    ensures e == e'
  {
    SplitAtColon(Decimal(e.id), Tag(e) + ":" + Decimal(e.offset), Decimal(e'.id), Tag(e') + ":" + Decimal(e'.offset));
    SplitAtColon(Tag(e), Decimal(e.offset), Tag(e'), Decimal(e'.offset));
    ValueOfDecimal(e.id);
    ValueOfDecimal(e'.id);
    ValueOfDecimal(e.offset);
    ValueOfDecimal(e'.offset);
  }

  /** Keys as the driver writes them. */
  lemma KeyExample()
    ensures Key(Wo(1, 4096)) == "1:wo:4096" && Key(Ro(2, 0)) == "2:ro:0" && Key(Rs(3, 0)) == "3:rs:0"
  {
    assert Decimal(4096) == "4096" by {
      assert Decimal(4) == "4" && Decimal(40) == "40" && Decimal(409) == "409";
    }
    assert Decimal(1) == "1" && Decimal(2) == "2" && Decimal(3) == "3" && Decimal(0) == "0";
  }

  /** A table with string keys holds exactly these entries. */
  ghost predicate Represents(hash: map<string, nat>, entries: map<Entry, nat>) {
    forall e: Entry ::
      && (Key(e) in hash <==> e in entries)
      && (e in entries ==> hash[Key(e)] == entries[e])
  }

  lemma PutRepresents(hash: map<string, nat>, entries: map<Entry, nat>, e: Entry, value: nat)
    requires Represents(hash, entries)
    ensures Represents(hash[Key(e) := value], entries[e := value])
  {
    forall e': Entry | Key(e') == Key(e) ensures e' == e {
      KeyInjective(e', e);
    }
  }
}

/** The erasure driver, multi_loop_drivers/erasure.c, on its hash tables. */
module ErasureDriver {
  import opened Wrappers
  import opened Bytes
  import opened IvdbMap
  import opened ErasureIndex
  import opened ErasureKeys

  class Erasure {
    const offsetMap: Ivdb
    const fileIds: Ivdb
    const fileSizes: Ivdb
    var fileId: nat
    ghost var entries: map<Entry, nat>

    ghost predicate Valid()
      reads this, offsetMap, fileIds, fileSizes
    {
      && offsetMap != fileIds && offsetMap != fileSizes && fileIds != fileSizes
      && Represents(offsetMap.hash, entries)
    }

    /** The state the specification speaks of. */
    ghost function State(): Index
      reads this, fileIds, fileSizes
    {
      Index(entries, fileIds.hash, fileSizes.hash, fileId)
    }

    /** `init_erasure` */
    constructor ()
      ensures Valid() && State() == Index(map[], map[], map[], 0)
      ensures fresh(offsetMap) && fresh(fileIds) && fresh(fileSizes)
    {
      offsetMap := new Ivdb();
      fileIds := new Ivdb();
      fileSizes := new Ivdb();
      fileId := 0;
      entries := map[];
    }

    /** `get_file_id`: a path without an id uses the next one up, and stays without. */
    method GetFileId(path: string) returns (id: nat)
      requires Valid()
      modifies this
      ensures Valid() && State() == AskedId(old(State()), path)
      ensures id == FileId(old(State()), path)
    {
      var contains := fileIds.HashContainsKey(path);
      if !contains {
        fileId := fileId + 1;
        return fileId;
      }
      var value := fileIds.HashGet(path);
      return value.value;
    }

    method Lookup(e: Entry) returns (value: Option<nat>)
      requires Valid()
      ensures value == if e in entries then Some(entries[e]) else None
    {
      var contains := offsetMap.HashContainsKey(Key(e));
      if !contains {
        return None;
      }
      value := offsetMap.HashGet(Key(e));
    }

    /** `get_erasure_block_offset`; `None` stands for -1. */
    method GetErasureBlockOffset(path: string, offset: nat) returns (address: Option<nat>)
      requires Valid()
      modifies this
      ensures Valid() && State() == AskedId(old(State()), path)
      ensures var e := Ro(FileId(old(State()), path), offset);
        address == if e in entries then Some(entries[e]) else None
    {
      var id := GetFileId(path);
      address := Lookup(Ro(id, offset));
    }

    /** `get_erasure_block_size`; `None` stands for -1. */
    method GetErasureBlockSize(path: string, offset: nat) returns (size: Option<nat>)
      requires Valid()
      modifies this
      ensures Valid() && State() == AskedId(old(State()), path)
      ensures var e := Rs(FileId(old(State()), path), offset); size == if e in entries then Some(entries[e]) else None
    {
      var id := GetFileId(path);
      size := Lookup(Rs(id, offset));
    }

    /** `erasure_get_file_size` */
    method ErasureGetFileSize(path: string) returns (size: nat)
      ensures size == SizeOf(State(), path)
    {
      var contains := fileSizes.HashContainsKey(path);
      if !contains {
        return 0;
      }
      var value := fileSizes.HashGet(path);
      return value.value;
    }

    /** `increment_file_size` */
    method IncrementFileSize(path: string, offset: nat, blockSize: nat)
      requires Valid()
      modifies fileSizes
      ensures Valid()
      ensures fileSizes.hash == if SizeOf(old(State()), path) < offset + blockSize
                                then old(fileSizes.hash)[path := offset + blockSize]
                                else old(fileSizes.hash)
    {
      var current := ErasureGetFileSize(path);
      if offset + blockSize > current {
        var diff := offset + blockSize - current;
        fileSizes.HashPut(path, current + diff);
      }
    }

    method PutEntry(e: Entry, value: nat)
      requires Valid()
      modifies this`entries, offsetMap
      ensures Valid() && entries == old(entries)[e := value]
    {
      PutRepresents(offsetMap.hash, entries, e, value);
      offsetMap.HashPut(Key(e), value);
      entries := entries[e := value];
    }

    /**
      The index part of `erasure_encode`, for fragments of `fragmentLength` bytes. The entry an earlier
      write left at a nonzero offset is followed without checking that there is one.
    */
    method ErasureEncode(path: string, offset: nat, size: nat, fragmentLength: nat)
      requires Valid() && Chained(State(), path, offset)
      modifies this, offsetMap, fileIds, fileSizes
      ensures Valid() && State() == Encoded(old(State()), path, offset, size, fragmentLength)
    {
      hide Represents;
      var id := GetFileId(path);
      fileIds.HashPut(path, id);
      IncrementFileSize(path, offset, size);
      var erasureOffset := offset;
      if offset != 0 {
        var value := Lookup(Wo(id, offset));
        erasureOffset := value.value;
      }
      PutBlock(id, offset, size, erasureOffset, fragmentLength);
    }

    /** The three entries of a written block. */
    method PutBlock(id: nat, offset: nat, size: nat, erasureOffset: nat, fragmentLength: nat)
      requires Valid()
      modifies this`entries, offsetMap
      ensures Valid()
      ensures entries ==
              old(entries)[Wo(id, offset + size) := erasureOffset + fragmentLength]
                [Ro(id, offset) := erasureOffset][Rs(id, offset) := fragmentLength]
    {
      PutEntry(Wo(id, offset + size), erasureOffset + fragmentLength);
      PutEntry(Ro(id, offset), erasureOffset);
      PutEntry(Rs(id, offset), fragmentLength);
    }

    /** `erasure_rename` */
    method ErasureRename(from: string, to: string)
      requires Valid()
      modifies fileIds, fileSizes
      ensures Valid() && State() == Renamed(old(State()), from, to)
    {
      fileIds.MoveKey(from, to);
      fileSizes.MoveKey(from, to);
    }

    /** `erasure_create` */
    method ErasureCreate(path: string)
      requires Valid()
      modifies fileIds, fileSizes
      ensures Valid() && State() == Created(old(State()), path)
    {
      fileSizes.RemoveKeys(path);
      fileIds.RemoveKeys(path);
    }
  }

  /**
    The copy loops of `erasure_encode`: a buffer for each device, then the data and the parity fragments copied in
    turn; `None` is a buffer that nothing was copied to. With fewer devices than fragments the C loops write past the
    array of buffers.
  */
  method FillBuffers(encodedData: seq<seq<byte>>, encodedParity: seq<seq<byte>>, ndevs: nat)
    returns (magicblocks: seq<Option<seq<byte>>>)
    requires |encodedData| + |encodedParity| <= ndevs
    ensures |magicblocks| == ndevs
    ensures forall i | 0 <= i < |encodedData| + |encodedParity| ::
      magicblocks[i] == Some((encodedData + encodedParity)[i])
    ensures None in magicblocks <==> |encodedData| + |encodedParity| != ndevs
  {
    magicblocks := seq(ndevs, _ => None);
    for i := 0 to |encodedData|
      invariant |magicblocks| == ndevs
      invariant forall l | 0 <= l < i :: magicblocks[l] == Some(encodedData[l])
      invariant forall l | i <= l < ndevs :: magicblocks[l] == None
    {
      magicblocks := magicblocks[i := Some(encodedData[i])];
    }
    ghost var k := |encodedData|;
    for j := 0 to |encodedParity|
      invariant |magicblocks| == ndevs
      invariant forall l | 0 <= l < k :: magicblocks[l] == Some(encodedData[l])
      invariant forall l | 0 <= l < j :: magicblocks[k + l] == Some(encodedParity[l])
      invariant forall l | k + j <= l < ndevs :: magicblocks[l] == None
    {
      magicblocks := magicblocks[|encodedData| + j := Some(encodedParity[j])];
    }
    forall l | k <= l < k + |encodedParity| ensures magicblocks[l] == Some((encodedData + encodedParity)[l]) {
      assert magicblocks[k + (l - k)] == Some(encodedParity[l - k]);
    }
    if k + |encodedParity| < ndevs { assert magicblocks[ndevs - 1] == None; }
  }
}
