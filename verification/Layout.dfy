/**
  The physical layout the encoding layer keeps: logical block `k` is stored, encoded, at the start of slot `k`,
  and nothing is stored behind the last block.
*/
module Layout {
  import opened Bytes
  import opened Blocks
  import opened Driver

  /** Block `k` of `data`; the last block may be partial. */
  function BlockAt(bs: nat, data: seq<byte>, k: nat): seq<byte>
    requires Start(k, bs) <= |data|
  {
    data[Start(k, bs)..Min(Start(k, bs) + bs, |data|)]
  }

  /**
    The layout of a driver: the width of its blocks and slots, the length of its encodings, and its pairs of a text
    and one of its encodings. Keeping the pairs abstract keeps ciphers out of the reasoning about positions.
  */
  datatype Geometry = Geometry(bs: nat, slot: nat, size: seq<nat>, encodings: iset<(seq<byte>, seq<byte>)>) {
    /** A longer text never has a shorter encoding, and only a full block may fill a slot. */
    predicate Fits(m: nat, n: nat)
      requires m < |size| && n < |size|
    {
      0 < size[m] <= size[n] <= slot && (n < bs ==> size[n] < slot)
    }

    /** Encodings have the announced lengths, and a full block fits its slot. */
    ghost predicate Plain() {
      && 0 < bs
      && |size| == bs + 1
      && size[bs] <= slot
      && (forall x, y {:trigger (x, y) in encodings} | (x, y) in encodings && 0 < |x| <= bs :: |y| == size[|x|])
    }

    ghost predicate Valid() {
      Plain() && forall m, n | 0 < m <= n <= bs :: Fits(m, n)
    }
  }

  ghost function GeometryOf(c: EncodeDriver, bs: nat): Geometry {
    Geometry(bs, c.Slot(bs), seq(bs + 1, n requires 0 <= n => c.CypheredBlockSize(n)), Encodings(c))
  }

  lemma GeometryIsValid(c: EncodeDriver, bs: nat)
    requires 0 < bs && c.Valid()
    ensures GeometryOf(c, bs).Valid()
  {
    var g := GeometryOf(c, bs);
    forall m, n | 0 < m <= n <= bs ensures g.Fits(m, n) {
      SizesFit(c, bs, m, n);
    }
    SizesFit(c, bs, bs, bs);
    forall x, y | (x, y) in g.encodings && 0 < |x| <= bs ensures |y| == g.size[|x|] {
      DecodeEncode(c, x, y);
    }
  }

  /** Slot `k` of `phys` starts with a whole encoding of block `k` of `data`. */
  ghost predicate SlotHolds(g: Geometry, data: seq<byte>, phys: seq<byte>, k: nat)
    requires g.Plain() && Start(k, g.bs) < |data|
  {
    var b, o := BlockAt(g.bs, data, k), Start(k, g.slot);
    var e := o + g.size[|b|];
    e <= |phys| && (b, phys[o..e]) in g.encodings
  }

  /**
    `m` is a physical size for `q` full blocks and `r` more bytes. Only a full last block leaves a choice: a write
    stops at the end of its encoding, a truncate keeps the whole slot.
  */
  ghost predicate SizeFits(g: Geometry, q: nat, r: nat, m: nat)
    requires g.Valid() && r < g.bs
  {
    if r > 0 then m == Start(q, g.slot) + g.size[r]
    else if q == 0 then m == 0
    else m == Start(q, g.slot) || m == Start(q - 1, g.slot) + g.size[g.bs]
  }

  ghost predicate SizesAgree(g: Geometry, n: nat, m: nat)
    requires g.Valid()
  {
    exists q: nat, r: nat :: r < g.bs && n == Start(q, g.bs) + r && SizeFits(g, q, r, m)
  }

  ghost predicate SlotsHold(g: Geometry, data: seq<byte>, phys: seq<byte>)
    requires g.Plain()
  {
    forall k: nat | Start(k, g.bs) < |data| :: SlotHolds(g, data, phys, k)
  }

  /** `phys` stores `data`. */
  ghost predicate Stores(g: Geometry, data: seq<byte>, phys: seq<byte>)
    requires g.Valid()
  {
    SizesAgree(g, |data|, |phys|) && SlotsHold(g, data, phys)
  }

  /**
    What an `ftruncate` into the middle of block `q` leaves: the full blocks are stored, and the last slot holds
    as many bytes as an encoding of the rest of `data` needs, but not such an encoding.
  */
  ghost predicate StoresTorn(g: Geometry, data: seq<byte>, phys: seq<byte>, q: nat, r: nat)
    requires g.Valid() && r < g.bs
  {
    && 0 < r && |data| == Start(q, g.bs) + r
    && |phys| == Start(q, g.slot) + g.size[r]
    && forall k: nat | k < q && Start(k, g.bs) < |data| :: SlotHolds(g, data, phys, k)
  }

  /** The request reaches exactly one block and covers all its live bytes. */
  predicate Covers(bs: nat, size: nat, k: nat, len: nat) {
    && 0 < len <= bs
    && Start(k, bs) <= size
    && (len == bs || size <= Start(k, bs) + len)
  }

  // ----- what requests do to the layout

  /** `SlotHolds` depends on block `k` and the bytes of its encoding only. */
  lemma SlotKept(g: Geometry, data: seq<byte>, phys: seq<byte>, data': seq<byte>, phys': seq<byte>, k: nat)
    requires g.Plain() && Start(k, g.bs) < |data| && Start(k, g.bs) < |data'|
    requires SlotHolds(g, data, phys, k)
    requires BlockAt(g.bs, data', k) == BlockAt(g.bs, data, k)
    requires var o := Start(k, g.slot);
      var e := o + g.size[|BlockAt(g.bs, data, k)|];
      e <= |phys'| && forall i | o <= i < e :: phys'[i] == phys[i]
    ensures SlotHolds(g, data', phys', k)
  {
    var o := Start(k, g.slot);
    var e := o + g.size[|BlockAt(g.bs, data, k)|];
    assert phys'[o..e] == phys[o..e];
  }

  /** The blocks before block `q` stay stored when neither they nor their slots change. */
  lemma SlotBeforeKept(
      g: Geometry, data: seq<byte>, phys: seq<byte>, data': seq<byte>, phys': seq<byte>, q: nat, k: nat)
    requires g.Plain() && k < q && Start(q, g.bs) <= |data| && Start(q, g.bs) <= |data'|
    requires Start(k, g.bs) < |data| ==> SlotHolds(g, data, phys, k)
    requires data'[..Start(q, g.bs)] == data[..Start(q, g.bs)]
    requires Min(|phys|, Start(q, g.slot)) <= |phys'|
    requires forall i | 0 <= i < Start(q, g.slot) && i < |phys| :: phys'[i] == phys[i]
    ensures Start(k, g.bs) < |data'| && SlotHolds(g, data', phys', k)
  {
    StartMono(k, q, g.bs);
    StartMono(k, q, g.slot);
    var o := Start(k, g.bs);
    assert data'[..Start(q, g.bs)][o..o + g.bs] == data[..Start(q, g.bs)][o..o + g.bs];
    SlotKept(g, data, phys, data', phys', k);
  }

  lemma SlotsBeforeKept(g: Geometry, data: seq<byte>, phys: seq<byte>, data': seq<byte>, phys': seq<byte>, q: nat)
    requires g.Plain() && Start(q, g.bs) <= |data| && Start(q, g.bs) <= |data'| && SlotsHold(g, data, phys)
    requires data'[..Start(q, g.bs)] == data[..Start(q, g.bs)]
    requires Min(|phys|, Start(q, g.slot)) <= |phys'|
    requires forall i | 0 <= i < Start(q, g.slot) && i < |phys| :: phys'[i] == phys[i]
    ensures forall k: nat | k < q :: Start(k, g.bs) < |data'| && SlotHolds(g, data', phys', k)
  {
    forall k: nat | k < q ensures Start(k, g.bs) < |data'| && SlotHolds(g, data', phys', k) {
      StartMono(k, q, g.bs);
      SlotBeforeKept(g, data, phys, data', phys', q, k);
    }
  }

  lemma SameBlock(bs: nat, q: nat, r: nat, k: nat)
    requires r < bs && Start(k, bs) <= Start(q, bs) + r
    ensures k <= q
    ensures Start(q, bs) + r < Start(k, bs) + bs ==> k == q
  {
    if q < k { StartMono(q, k, bs); }
    if k < q { StartMono(k, q, bs); }
  }

  /** The sizes a covering write of `len` bytes to block `k` leaves. */
  lemma SizesAfterWrite(g: Geometry, n: nat, m: nat, k: nat, len: nat)
    requires g.Valid() && SizesAgree(g, n, m) && Covers(g.bs, n, k, len)
    ensures SizesAgree(g, Max(n, Start(k, g.bs) + len), Max(m, Start(k, g.slot) + g.size[len]))
  {
    var q: nat, r: nat :| r < g.bs && n == Start(q, g.bs) + r && SizeFits(g, q, r, m);
    SameBlock(g.bs, q, r, k);
    var m' := Max(m, Start(k, g.slot) + g.size[len]);
    if k < q {
      SizeBehind(g, q, r, m, k, len);
    } else {
      SizeAtEnd(g, q, r, m, len);
    }
  }

  lemma SizeAtEnd(g: Geometry, q: nat, r: nat, m: nat, len: nat)
    requires g.Valid() && r <= len <= g.bs && 0 < len && r < g.bs && SizeFits(g, q, r, m)
    ensures var m' := Max(m, Start(q, g.slot) + g.size[len]);
      if len == g.bs then SizeFits(g, q + 1, 0, m') else SizeFits(g, q, len, m')
  {
    assert g.Fits(len, len) && g.Fits(g.bs, g.bs) && (r > 0 ==> g.Fits(r, len));
  }

  lemma SizeBehind(g: Geometry, q: nat, r: nat, m: nat, k: nat, len: nat)
    requires g.Valid() && k < q && r < g.bs && SizeFits(g, q, r, m) && 0 < len <= g.bs
    ensures Start(k, g.bs) + len <= Start(q, g.bs)
    ensures SizeFits(g, q, r, Max(m, Start(k, g.slot) + g.size[len]))
  {
    StartMono(k, q, g.bs);
    StartMono(k, q - 1, g.slot);
    assert g.Fits(len, g.bs);
  }

  /** Where the physical file ends, seen from the block the logical file ends in. */
  lemma EndOfFile(g: Geometry, n: nat, m: nat, k: nat)
    requires g.Valid() && SizesAgree(g, n, m) && Start(k, g.bs) <= n < Start(k, g.bs) + g.bs
    ensures if n == Start(k, g.bs) then m <= Start(k, g.slot)
            else m == Start(k, g.slot) + g.size[n - Start(k, g.bs)]
  {
    var q: nat, r: nat :| r < g.bs && n == Start(q, g.bs) + r && SizeFits(g, q, r, m);
    SameBlock(g.bs, q, r, k);
    assert g.Fits(g.bs, g.bs);
  }

  /** Where the physical file ends, seen from the last block. */
  lemma LastSize(g: Geometry, n: nat, m: nat, k: nat)
    requires g.Valid() && SizesAgree(g, n, m) && Start(k, g.bs) < n <= Start(k, g.bs) + g.bs
    ensures m == Start(k, g.slot) + g.size[n - Start(k, g.bs)] ||
            (n == Start(k, g.bs) + g.bs && m == Start(k, g.slot) + g.slot)
  {
    if n < Start(k, g.bs) + g.bs {
      EndOfFile(g, n, m, k);
    } else {
      var q: nat, r: nat :| r < g.bs && n == Start(q, g.bs) + r && SizeFits(g, q, r, m);
      assert Start(k + 1, g.bs) == n;
      SameBlock(g.bs, q, r, k + 1);
    }
  }

  /** Writing side: rewriting or appending a covered block keeps the layout, with no stale ciphertext left. */
  lemma StoreBlock(g: Geometry, data: seq<byte>, phys: seq<byte>, k: nat, x: seq<byte>, y: seq<byte>)
    requires g.Valid() && Stores(g, data, phys)
    requires Covers(g.bs, |data|, k, |x|) && (x, y) in g.encodings
    ensures Stores(g, Pwrite(data, Start(k, g.bs), x), Pwrite(phys, Start(k, g.slot), y))
  {
    var data', phys' := Pwrite(data, Start(k, g.bs), x), Pwrite(phys, Start(k, g.slot), y);
    assert g.Fits(|x|, |x|);
    PwriteWrites(data, Start(k, g.bs), x);
    PwriteWrites(phys, Start(k, g.slot), y);
    SizesAfterWrite(g, |data|, |phys|, k, |x|);
    SlotsAfterWrite(g, data, phys, k, x, y, data', phys');
  }

  lemma SlotsAfterWrite(
      g: Geometry, data: seq<byte>, phys: seq<byte>, k: nat, x: seq<byte>, y: seq<byte>,
      data': seq<byte>, phys': seq<byte>)
    requires g.Plain() && SlotsHold(g, data, phys)
    requires Covers(g.bs, |data|, k, |x|) && (x, y) in g.encodings
    requires Written(data, Start(k, g.bs), x, data') && Written(phys, Start(k, g.slot), y, phys')
    ensures SlotsHold(g, data', phys')
  {
    forall j: nat | Start(j, g.bs) < |data'| ensures SlotHolds(g, data', phys', j) {
      SlotAfterWrite(g, data, phys, k, x, y, data', phys', j);
    }
  }

  lemma SlotAfterWrite(
      g: Geometry, data: seq<byte>, phys: seq<byte>, k: nat, x: seq<byte>, y: seq<byte>,
      data': seq<byte>, phys': seq<byte>, j: nat)
    requires g.Plain()
    requires j != k && Start(j, g.bs) < |data| ==> SlotHolds(g, data, phys, j)
    requires Covers(g.bs, |data|, k, |x|) && (x, y) in g.encodings
    requires Written(data, Start(k, g.bs), x, data') && Written(phys, Start(k, g.slot), y, phys')
    requires Start(j, g.bs) < |data'|
    ensures SlotHolds(g, data', phys', j)
  {
    if j == k {
      WrittenSlotHolds(g, data, phys, k, x, y, data', phys');
    } else if j < k {
      StartMono(j, k, g.bs);
      SlotBeforeKept(g, data, phys, data', phys', k, j);
    } else {
      StartMono(k, j, g.bs);
      assert |x| == g.bs;
      SlotBehindKept(g, data, phys, data', phys', k, j);
    }
  }

  /** The blocks behind block `k` stay stored when neither they nor their slots change. */
  lemma SlotBehindKept(
      g: Geometry, data: seq<byte>, phys: seq<byte>, data': seq<byte>, phys': seq<byte>, k: nat, j: nat)
    requires g.Plain() && k < j && Start(j, g.bs) < |data| && SlotHolds(g, data, phys, j)
    requires |data'| == |data| && forall i | Start(k, g.bs) + g.bs <= i < |data| :: data'[i] == data[i]
    requires |phys'| >= |phys| && forall i | Start(k, g.slot) + g.slot <= i < |phys| :: phys'[i] == phys[i]
    ensures SlotHolds(g, data', phys', j)
  {
    StartMono(k, j, g.bs);
    StartMono(k, j, g.slot);
    assert BlockAt(g.bs, data', j) == BlockAt(g.bs, data, j);
    SlotKept(g, data, phys, data', phys', j);
  }

  lemma WrittenSlotHolds(
      g: Geometry, data: seq<byte>, phys: seq<byte>, k: nat, x: seq<byte>, y: seq<byte>,
      data': seq<byte>, phys': seq<byte>)
    requires g.Plain() && Covers(g.bs, |data|, k, |x|) && (x, y) in g.encodings
    requires Written(data, Start(k, g.bs), x, data') && Written(phys, Start(k, g.slot), y, phys')
    ensures SlotHolds(g, data', phys', k)
  {
    assert BlockAt(g.bs, data', k) == x by { WrittenAt(data, Start(k, g.bs), x, data'); }
    WrittenAt(phys, Start(k, g.slot), y, phys');
  }

  /** Truncating at a block boundary keeps the layout; it may widen the last slot to its full width. */
  lemma CutAtBlock(g: Geometry, data: seq<byte>, phys: seq<byte>, q: nat)
    requires g.Valid() && Stores(g, data, phys) && Start(q, g.bs) <= |data|
    ensures Stores(g, data[..Start(q, g.bs)], Ftruncate(phys, Start(q, g.slot)))
  {
    var data', phys' := data[..Start(q, g.bs)], Ftruncate(phys, Start(q, g.slot));
    assert SizeFits(g, q, 0, |phys'|);
    SlotsBeforeKept(g, data, phys, data', phys', q);
    forall k: nat | Start(k, g.bs) < |data'| ensures k < q {
      if q <= k { StartMono(q, k, g.bs); }
    }
  }

  /** Truncating into the middle of a block tears the last slot and nothing else. */
  lemma TearLast(g: Geometry, data: seq<byte>, phys: seq<byte>, q: nat, r: nat)
    requires g.Valid() && Stores(g, data, phys) && 0 < r < g.bs && Start(q, g.bs) + r <= |data|
    ensures StoresTorn(g, data[..Start(q, g.bs) + r], Ftruncate(phys, Start(q, g.slot) + g.size[r]), q, r)
  {
    var data', phys' := data[..Start(q, g.bs) + r], Ftruncate(phys, Start(q, g.slot) + g.size[r]);
    assert data'[..Start(q, g.bs)] == data[..Start(q, g.bs)];
    SlotsBeforeKept(g, data, phys, data', phys', q);
  }

  /** Truncating to the size the file has, inside a block, changes nothing. */
  lemma SameSizeCut(g: Geometry, data: seq<byte>, phys: seq<byte>, q: nat, r: nat)
    requires g.Valid() && Stores(g, data, phys) && 0 < r < g.bs && Start(q, g.bs) + r == |data|
    ensures Ftruncate(phys, Start(q, g.slot) + g.size[r]) == phys
  {
    EndOfFile(g, |data|, |phys|, q);
    assert phys[..|phys|] == phys;
  }

  lemma ShortenAligned(g: Geometry, data: seq<byte>, phys: seq<byte>, q: nat, size: nat, m: nat)
    requires g.Valid() && Stores(g, data, phys)
    requires size == Start(q, g.bs) <= |data| && m == Start(q, g.slot)
    ensures Stores(g, data[..size], Ftruncate(phys, m))
  {
    CutAtBlock(g, data, phys, q);
  }

  lemma ShortenInside(g: Geometry, data: seq<byte>, phys: seq<byte>, q: nat, r: nat, size: nat, m: nat)
    requires g.Valid() && Stores(g, data, phys) && 0 < r < g.bs
    requires size == Start(q, g.bs) + r <= |data| && m == Start(q, g.slot) + g.size[r]
    ensures Torn(g, data[..size], Ftruncate(phys, m))
  {
    hide Geometry.Valid; hide Stores; hide StoresTorn;
    TearLast(g, data, phys, q, r);
  }

  /** Rewriting the torn block repairs the layout. */
  lemma RepairLast(g: Geometry, data: seq<byte>, phys: seq<byte>, q: nat, x: seq<byte>, y: seq<byte>)
    requires g.Valid() && |x| < g.bs && StoresTorn(g, data, phys, q, |x|)
    requires (x, y) in g.encodings
    ensures Stores(g, Pwrite(data, Start(q, g.bs), x), Pwrite(phys, Start(q, g.slot), y))
  {
    var data', phys' := Pwrite(data, Start(q, g.bs), x), Pwrite(phys, Start(q, g.slot), y);
    assert g.Fits(|x|, |x|);
    assert SizeFits(g, q, |x|, |phys'|);
    PwriteWrites(data, Start(q, g.bs), x);
    PwriteWrites(phys, Start(q, g.slot), y);
    forall k: nat | Start(k, g.bs) < |data'| ensures SlotHolds(g, data', phys', k) {
      SameBlock(g.bs, q, |x|, k);
      SlotAfterWrite(g, data, phys, q, x, y, data', phys', k);
    }
  }

  /** Some block is torn, the last one. */
  ghost predicate Torn(g: Geometry, data: seq<byte>, phys: seq<byte>)
    requires g.Valid()
  {
    exists q: nat :: Start(q, g.bs) <= |data| < Start(q, g.bs) + g.bs &&
      StoresTorn(g, data, phys, q, |data| - Start(q, g.bs))
  }

  /** Rewriting the last block, from its start in block `k` to the end of the file. */
  lemma RepairTorn(g: Geometry, data: seq<byte>, phys: seq<byte>, k: nat, x: seq<byte>, y: seq<byte>)
    requires g.Valid() && Torn(g, data, phys) && (x, y) in g.encodings
    requires Start(k, g.bs) < |data| < Start(k, g.bs) + g.bs && |data| == Start(k, g.bs) + |x|
    ensures Stores(g, Pwrite(data, Start(k, g.bs), x), Pwrite(phys, Start(k, g.slot), y))
  {
    hide Geometry.Valid; hide Stores; hide StoresTorn;
    var q: nat :| Start(q, g.bs) <= |data| < Start(q, g.bs) + g.bs &&
      StoresTorn(g, data, phys, q, |data| - Start(q, g.bs));
    SameBlock(g.bs, q, |data| - Start(q, g.bs), k);
    RepairLast(g, data, phys, k, x, y);
  }

  /** A whole block of the hole a write behind the end of file leaves is zeros, and so is its slot. */
  lemma HoleSlot(
      g: Geometry, data: seq<byte>, phys: seq<byte>, k: nat, x: seq<byte>, y: seq<byte>,
      data': seq<byte>, phys': seq<byte>, j: nat)
    requires g.Valid() && j < k && |data| <= Start(j, g.bs) && |phys| <= Start(j, g.slot)
    requires Written(data, Start(k, g.bs), x, data') && Written(phys, Start(k, g.slot), y, phys')
    ensures Start(j, g.bs) < |data'|
    ensures SlotHolds(g, data', phys', j) <==> (Zeros(g.bs), Zeros(g.size[g.bs])) in g.encodings
  {
    StartMono(j, k, g.bs);
    StartMono(j, k, g.slot);
    assert BlockAt(g.bs, data', j) == Zeros(g.bs);
    var o := Start(j, g.slot);
    assert phys'[o..o + g.size[g.bs]] == Zeros(g.size[g.bs]);
  }

  lemma HoleSlots(
      g: Geometry, data: seq<byte>, phys: seq<byte>, m: nat, k: nat, x: seq<byte>, y: seq<byte>,
      data': seq<byte>, phys': seq<byte>)
    requires g.Valid() && m <= k && |data| <= Start(m, g.bs) && |phys| <= Start(m, g.slot)
    requires Written(data, Start(k, g.bs), x, data') && Written(phys, Start(k, g.slot), y, phys')
    requires m < k ==> (Zeros(g.bs), Zeros(g.size[g.bs])) in g.encodings
    ensures forall j: nat | m <= j < k && Start(j, g.bs) < |data'| :: SlotHolds(g, data', phys', j)
  {
    hide SlotHolds; hide Written;
    forall j: nat | m <= j < k && Start(j, g.bs) < |data'| ensures SlotHolds(g, data', phys', j) {
      StartMono(m, j, g.bs);
      StartMono(m, j, g.slot);
      HoleSlot(g, data, phys, k, x, y, data', phys', j);
    }
  }

  lemma PartialSize(g: Geometry, data: seq<byte>, phys: seq<byte>, q: nat)
    requires g.Valid() && Stores(g, data, phys) && Start(q, g.bs) < |data| < Start(q, g.bs) + g.bs
    ensures g.Plain() && 0 < g.size[g.bs] && Start(q, g.slot) <= |phys| <= Start(q, g.slot) + g.size[g.bs]
  {
    EndOfFile(g, |data|, |phys|, q);
    assert g.Fits(|data| - Start(q, g.bs), g.bs);
  }

  /** The block a file ends in, and its encoding, are extended with zeros by a write behind the end of file. */
  lemma ExtendedSlot(
      g: Geometry, data: seq<byte>, phys: seq<byte>, q: nat, k: nat, x: seq<byte>, y: seq<byte>,
      data': seq<byte>, phys': seq<byte>)
    requires g.Valid() && Stores(g, data, phys) && q < k && Start(q, g.bs) < |data| < Start(q, g.bs) + g.bs
    requires Written(data, Start(k, g.bs), x, data') && Written(phys, Start(k, g.slot), y, phys')
    ensures Start(q, g.bs) < |data'| && Start(q, g.slot) <= |phys| <= Start(q, g.slot) + g.size[g.bs]
    ensures SlotHolds(g, data', phys', q) <==> ExtensionEncodes(g, data, phys, q)
  {
    hide Geometry.Valid; hide Stores;
    var o, p := Start(q, g.bs), Start(q, g.slot);
    PartialSize(g, data, phys, q);
    StartMono(q, k, g.bs);
    StartMono(q, k, g.slot);
    WrittenBehind(data, Start(k, g.bs), x, data', o, o + g.bs);
    WrittenBehind(phys, Start(k, g.slot), y, phys', p, p + g.size[g.bs]);
  }

  /**
    The last, partial block of a file extended with zeros to a whole block has the encoding stored for it, extended
    with zeros to a whole encoding, as an encoding.
  */
  ghost predicate ExtensionEncodes(g: Geometry, data: seq<byte>, phys: seq<byte>, q: nat)
    requires g.Valid() && Start(q, g.bs) <= |data| <= Start(q, g.bs) + g.bs
    requires Start(q, g.slot) <= |phys| <= Start(q, g.slot) + g.size[g.bs]
  {
    var b, e := data[Start(q, g.bs)..], phys[Start(q, g.slot)..];
    (b + Zeros(g.bs - |b|), e + Zeros(g.size[g.bs] - |e|)) in g.encodings
  }

  /** What a write of a whole block behind the end of file leaves in the slots that are no part of the hole. */
  lemma SlotsAroundHole(
      g: Geometry, data: seq<byte>, phys: seq<byte>, q: nat, k: nat, x: seq<byte>, y: seq<byte>,
      data': seq<byte>, phys': seq<byte>)
    requires g.Valid() && SlotsHold(g, data, phys) && |x| == g.bs && (x, y) in g.encodings
    requires Start(q, g.bs) <= |data| <= Start(k, g.bs) && |phys| <= Start(k, g.slot)
    requires Written(data, Start(k, g.bs), x, data') && Written(phys, Start(k, g.slot), y, phys')
    requires q <= k
    requires forall j: nat | q <= j < k && Start(j, g.bs) < |data'| :: SlotHolds(g, data', phys', j)
    ensures Stores(g, data', phys')
  {
    hide Geometry.Valid; hide SizesAgree; hide SlotHolds; hide Written;
    BehindHole(g, data, phys, k, x, y, data', phys');
    SlotsBeforeHole(g, data, phys, q, k, x, y, data', phys');
    forall j: nat | Start(j, g.bs) < |data'| ensures SlotHolds(g, data', phys', j) {
      NoSlotBehind(g, data, k, x, data', j);
    }
  }

  lemma SlotsBeforeHole(
      g: Geometry, data: seq<byte>, phys: seq<byte>, q: nat, k: nat, x: seq<byte>, y: seq<byte>,
      data': seq<byte>, phys': seq<byte>)
    requires g.Valid() && SlotsHold(g, data, phys) && q <= k && Start(q, g.bs) <= |data|
    requires Written(data, Start(k, g.bs), x, data') && Written(phys, Start(k, g.slot), y, phys')
    ensures g.Plain() && forall j: nat | j < q :: Start(j, g.bs) < |data'| && SlotHolds(g, data', phys', j)
  {
    hide SlotHolds;
    StartMono(q, k, g.bs);
    StartMono(q, k, g.slot);
    assert data'[..Start(q, g.bs)] == data[..Start(q, g.bs)];
    SlotsBeforeKept(g, data, phys, data', phys', q);
  }

  lemma NoSlotBehind(g: Geometry, data: seq<byte>, k: nat, x: seq<byte>, data': seq<byte>, j: nat)
    requires |x| == g.bs && |data| <= Start(k, g.bs) && Written(data, Start(k, g.bs), x, data')
    requires Start(j, g.bs) < |data'|
    ensures j <= k
  {
    if k < j { StartMono(k, j, g.bs); }
  }

  lemma BehindHole(
      g: Geometry, data: seq<byte>, phys: seq<byte>, k: nat, x: seq<byte>, y: seq<byte>,
      data': seq<byte>, phys': seq<byte>)
    requires g.Valid() && |x| == g.bs && (x, y) in g.encodings
    requires |data| <= Start(k, g.bs) && |phys| <= Start(k, g.slot)
    requires Written(data, Start(k, g.bs), x, data') && Written(phys, Start(k, g.slot), y, phys')
    ensures SlotHolds(g, data', phys', k) && SizesAgree(g, |data'|, |phys'|)
  {
    assert BlockAt(g.bs, data', k) == x by { WrittenAt(data, Start(k, g.bs), x, data'); }
    WrittenAt(phys, Start(k, g.slot), y, phys');
    assert SizeFits(g, k + 1, 0, |phys'|);
  }

  /**
    Writing a whole block behind the end of a file of whole blocks keeps the layout exactly when zeros are an
    encoding of a block of zeros.
  */
  lemma HoleBehindBlocks(g: Geometry, data: seq<byte>, phys: seq<byte>, q: nat, k: nat, x: seq<byte>, y: seq<byte>)
    requires g.Valid() && Stores(g, data, phys) && |data| == Start(q, g.bs) && q < k
    requires |x| == g.bs && (x, y) in g.encodings
    ensures Stores(g, Pwrite(data, Start(k, g.bs), x), Pwrite(phys, Start(k, g.slot), y)) <==>
            (Zeros(g.bs), Zeros(g.size[g.bs])) in g.encodings
  {
    var data', phys' := Pwrite(data, Start(k, g.bs), x), Pwrite(phys, Start(k, g.slot), y);
    EndOfFile(g, |data|, |phys|, q);
    StartMono(q, k, g.bs);
    StartMono(q, k, g.slot);
    assert g.Fits(g.bs, g.bs);
    PwriteWrites(data, Start(k, g.bs), x);
    PwriteWrites(phys, Start(k, g.slot), y);
    HoleSlot(g, data, phys, k, x, y, data', phys', q);
    if (Zeros(g.bs), Zeros(g.size[g.bs])) in g.encodings {
      HoleSlots(g, data, phys, q, k, x, y, data', phys');
      SlotsAroundHole(g, data, phys, q, k, x, y, data', phys');
    }
  }

  /**
    Behind the end of a file that ends inside a block, the extended last block has to be stored too; zeros need not
    encode zeros if the hole is no whole block.
  */
  lemma HoleBehindPartial(g: Geometry, data: seq<byte>, phys: seq<byte>, q: nat, k: nat, x: seq<byte>, y: seq<byte>)
    requires g.Valid() && Stores(g, data, phys) && q < k && Start(q, g.bs) < |data| < Start(q, g.bs) + g.bs
    requires |x| == g.bs && (x, y) in g.encodings
    ensures Start(q, g.slot) <= |phys| <= Start(q, g.slot) + g.size[g.bs]
    ensures Stores(g, Pwrite(data, Start(k, g.bs), x), Pwrite(phys, Start(k, g.slot), y)) <==>
            && ExtensionEncodes(g, data, phys, q)
            && (q + 1 < k ==> (Zeros(g.bs), Zeros(g.size[g.bs])) in g.encodings)
  {
    hide Geometry.Valid; hide SizesAgree; hide SlotHolds; hide Written;
    var data', phys' := Pwrite(data, Start(k, g.bs), x), Pwrite(phys, Start(k, g.slot), y);
    PartialSize(g, data, phys, q);
    StartMono(q + 1, k, g.bs);
    StartMono(q + 1, k, g.slot);
    PwriteWrites(data, Start(k, g.bs), x);
    PwriteWrites(phys, Start(k, g.slot), y);
    ExtendedSlot(g, data, phys, q, k, x, y, data', phys');
    if q + 1 < k { HoleSlot(g, data, phys, k, x, y, data', phys', q + 1); }
    if ExtensionEncodes(g, data, phys, q) && (q + 1 < k ==> (Zeros(g.bs), Zeros(g.size[g.bs])) in g.encodings) {
      HoleSlots(g, data, phys, q + 1, k, x, y, data', phys');
      SlotsAroundHole(g, data, phys, q, k, x, y, data', phys');
    }
  }

  // ----- what requests read

  /** Reading side: a read that covers block `k` returns exactly one whole encoding of it, or nothing at the end. */
  lemma ReadBlock(g: Geometry, data: seq<byte>, phys: seq<byte>, k: nat, len: nat)
    requires g.Valid() && Stores(g, data, phys) && Covers(g.bs, |data|, k, len)
    ensures var got := Pread(phys, Start(k, g.slot), g.size[len]);
      if Start(k, g.bs) == |data| then got == []
      else got != [] && (Pread(data, Start(k, g.bs), len), got) in g.encodings
  {
    hide SizesAgree;
    var o, p := Start(k, g.bs), Start(k, g.slot);
    if |data| < o + g.bs { EndOfFile(g, |data|, |phys|, k); }
    if o != |data| {
      assert SlotHolds(g, data, phys, k);
      var b := BlockAt(g.bs, data, k);
      assert g.Fits(|b|, len);
      PreadSlice(phys, p, g.size[len], p + g.size[|b|]);
      PreadSlice(data, o, len, o + |b|);
    }
  }

  /**
    The bytes behind the last full slot are nothing, and then the physical size counts the blocks; or they are the
    whole encoding of the last block.
  */
  lemma TailIsLastBlock(g: Geometry, data: seq<byte>, phys: seq<byte>) returns (k: nat, b: seq<byte>)
    requires g.Valid() && Stores(g, data, phys)
    ensures |data| == Start(k, g.bs) + |b|
    ensures Start(k, g.slot) <= |phys| < Start(k, g.slot) + g.slot
    ensures if |phys| == Start(k, g.slot) then b == [] else (b, phys[Start(k, g.slot)..]) in g.encodings
  {
    var q: nat, r: nat :| r < g.bs && |data| == Start(q, g.bs) + r && SizeFits(g, q, r, |phys|);
    assert g.Fits(g.bs, g.bs) && (r > 0 ==> g.Fits(r, r));
    if |phys| == Start(q, g.slot) {
      k, b := q, [];
    } else {
      k := if r > 0 then q else q - 1;
      b := LastBlock(g, data, phys, k);
    }
  }

  lemma LastBlock(g: Geometry, data: seq<byte>, phys: seq<byte>, k: nat) returns (b: seq<byte>)
    requires g.Valid() && Stores(g, data, phys) && Start(k, g.bs) < |data| <= Start(k, g.bs) + g.bs
    requires |phys| == Start(k, g.slot) + g.size[|data| - Start(k, g.bs)]
    ensures b == data[Start(k, g.bs)..]
    ensures (b, phys[Start(k, g.slot)..]) in g.encodings
  {
    assert SlotHolds(g, data, phys, k);
    b := data[Start(k, g.bs)..];
    assert b == BlockAt(g.bs, data, k);
    assert phys[Start(k, g.slot)..] == phys[Start(k, g.slot)..|phys|];
  }

  /** What is stored for a partial last block: all bytes behind the full slots, and one of its encodings. */
  lemma PartialBlock(g: Geometry, data: seq<byte>, phys: seq<byte>, q: nat, r: nat)
    requires g.Valid() && Stores(g, data, phys) && 0 < r < g.bs && |data| == Start(q, g.bs) + r
    ensures |phys| == Start(q, g.slot) + g.size[r] && g.size[r] <= g.size[g.bs]
    ensures (data[Start(q, g.bs)..], phys[Start(q, g.slot)..]) in g.encodings
  {
    EndOfFile(g, |data|, |phys|, q);
    assert g.Fits(r, g.bs);
    var _ := LastBlock(g, data, phys, q);
  }

  /** Where the physical file ends, seen from a block that a request covers, when full blocks fill their slots. */
  lemma BlockBounds(g: Geometry, data: seq<byte>, phys: seq<byte>, k: nat, len: nat)
    requires g.Valid() && Full(g) && Stores(g, data, phys) && Covers(g.bs, |data|, k, len)
    ensures 0 < g.size[len] <= g.slot && Start(k, g.slot) <= |phys|
    ensures len == g.bs || |phys| <= Start(k, g.slot) + g.size[len]
    ensures Start(k, g.bs) + len <= |data| ==> Start(k, g.slot) + g.size[len] <= |phys|
  {
    var q: nat, r: nat :| r < g.bs && |data| == Start(q, g.bs) + r && SizeFits(g, q, r, |phys|);
    SameBlock(g.bs, q, r, k);
    StartMono(k, q, g.slot);
    assert g.Fits(len, g.bs) && (r > 0 ==> g.Fits(r, r) && (r <= len ==> g.Fits(r, len)));
    if Start(k, g.bs) + len <= |data| { assert SlotHolds(g, data, phys, k); }
  }

  // ----- exact and canonical storage

  /** A full block's encoding fills its slot. */
  predicate Full(g: Geometry)
    requires |g.size| == g.bs + 1
  {
    g.size[g.bs] == g.slot
  }

  /** Each text has at most one encoding. */
  ghost predicate Functional(g: Geometry) {
    forall x, y, y' {:trigger (x, y) in g.encodings, (x, y') in g.encodings}
      | (x, y) in g.encodings && (x, y') in g.encodings :: y == y'
  }

  /** Equal contents are stored as equal bytes. */
  ghost predicate Canonical(g: Geometry)
    requires g.Valid()
  {
    forall data, phys, phys' :: Stores(g, data, phys) && Stores(g, data, phys') ==> phys == phys'
  }

  lemma StoredOnce(g: Geometry, data: seq<byte>, phys: seq<byte>, phys': seq<byte>)
    requires g.Valid() && Functional(g) && Full(g)
    requires Stores(g, data, phys) && Stores(g, data, phys')
    ensures phys == phys'
  {
    OneSize(g, |data|, |phys|, |phys'|);
    forall i | 0 <= i < |phys| ensures phys[i] == phys'[i] {
      var k := SlotOfByte(g, |data|, |phys|, i);
      StoredOnceAt(g, data, phys, phys', k, i);
    }
  }

  /** When full blocks fill their slots, the logical size determines the physical one. */
  lemma ExactSize(g: Geometry, n: nat, m: nat, q: nat, r: nat)
    requires g.Valid() && Full(g) && SizesAgree(g, n, m) && r < g.bs && n == Start(q, g.bs) + r
    ensures m == Start(q, g.slot) + if r > 0 then g.size[r] else 0
  {
    var q': nat, r': nat :| r' < g.bs && n == Start(q', g.bs) + r' && SizeFits(g, q', r', m);
    SameBlock(g.bs, q, r, q');
    SameBlock(g.bs, q', r', q);
  }

  lemma OneSize(g: Geometry, n: nat, m: nat, m': nat)
    requires g.Valid() && Full(g) && SizesAgree(g, n, m) && SizesAgree(g, n, m')
    ensures m == m'
  {
    var q: nat, r: nat :| r < g.bs && n == Start(q, g.bs) + r && SizeFits(g, q, r, m);
    var q': nat, r': nat :| r' < g.bs && n == Start(q', g.bs) + r' && SizeFits(g, q', r', m');
    SameBlock(g.bs, q, r, q');
    SameBlock(g.bs, q', r', q);
  }

  /** Every physical byte belongs to the encoding of a block. */
  lemma SlotOfByte(g: Geometry, n: nat, m: nat, i: nat) returns (k: nat)
    requires g.Valid() && Full(g) && i < m && SizesAgree(g, n, m)
    ensures Start(k, g.bs) < n
    ensures Start(k, g.slot) <= i < Start(k, g.slot) + g.size[Min(g.bs, n - Start(k, g.bs))]
  {
    var q: nat, r: nat :| r < g.bs && n == Start(q, g.bs) + r && SizeFits(g, q, r, m);
    assert g.Fits(g.bs, g.bs) && (r > 0 ==> g.Fits(r, r));
    k := Locate(i, g.slot);
    if k < q {
      StartMono(k, q, g.bs);
    } else if q < k {
      StartMono(q, k, g.slot);
    }
  }

  lemma StoredOnceAt(g: Geometry, data: seq<byte>, phys: seq<byte>, phys': seq<byte>, k: nat, i: nat)
    requires g.Valid() && Functional(g) && Start(k, g.bs) < |data|
    requires SlotHolds(g, data, phys, k) && SlotHolds(g, data, phys', k)
    requires Start(k, g.slot) <= i < Start(k, g.slot) + g.size[Min(g.bs, |data| - Start(k, g.bs))]
    ensures i < |phys| && i < |phys'| && phys[i] == phys'[i]
  {
    var p := Start(k, g.slot);
    var b := BlockAt(g.bs, data, k);
    var e := p + g.size[|b|];
    assert phys[p..e] == phys'[p..e];
    assert phys[p..e][i - p] == phys[i] && phys'[p..e][i - p] == phys'[i];
  }

  /** One block, stored by a write alone and by a write followed by a truncate to the size it already has. */
  lemma TwoWaysToStore(g: Geometry, x: seq<byte>, y: seq<byte>)
    requires g.Valid() && |x| == g.bs && (x, y) in g.encodings
    ensures var written := Pwrite([], 0, y);
      var truncated := Ftruncate(written, g.slot);
      && Stores(g, x, written)
      && Stores(g, x, truncated)
      && (written == truncated <==> Full(g))
  {
    var written := Pwrite([], 0, y);
    assert Start(1, g.bs) == g.bs && Start(1, g.slot) == g.slot;
    assert SizeFits(g, 0, 0, 0);
    StoreBlock(g, [], [], 0, x, y);
    assert Pwrite([], 0, x) == x;
    CutAtBlock(g, x, written, 1);
    assert x[..g.bs] == x;
  }

  /** Storage with one encoding per text is canonical exactly when a full block fills its slot. */
  lemma CanonicalExactly(g: Geometry, x: seq<byte>, y: seq<byte>)
    requires g.Valid() && Functional(g) && |x| == g.bs && (x, y) in g.encodings
    ensures Canonical(g) <==> Full(g)
  {
    if Full(g) {
      forall data, phys, phys' | Stores(g, data, phys) && Stores(g, data, phys') ensures phys == phys' {
        StoredOnce(g, data, phys, phys');
      }
    } else {
      TwoWaysToStore(g, x, y);
    }
  }
}
