/**
  The multi-device layer in erasure mode: the extent index together with the fragment files it describes.

  Requests come from the block alignment layer, so they are disciplined: one block, its live bytes covered.
*/
module ErasureStore {
  import opened Wrappers
  import opened Bytes
  import opened Blocks
  import opened Layout
  import opened Storage
  import opened ErasureIndex

  /**
    An erasure code with `k` data and `m` parity fragments, one for each device: all that is asked of liberasurecode
    is that it round-trips.
  */
  datatype ErasureCode = ErasureCode(
    k: nat,
    m: nat,
    fragmentLength: nat -> nat,
    encode: seq<byte> -> seq<seq<byte>>,
    decode: seq<seq<byte>> -> seq<byte>)
  {
    const devices: nat := k + m

    ghost predicate Valid() {
      && 0 < devices
      && forall x: seq<byte> {:trigger encode(x)} ::
        && |encode(x)| == devices
        && (forall i | 0 <= i < devices :: |encode(x)[i]| == fragmentLength(|x|))
        && 0 < fragmentLength(|x|)
        && decode(encode(x)) == x
    }

    function FragmentLength(n: nat): nat {
      fragmentLength(n)
    }

    /** The fragment lengths of up to a block. */
    function Fragments(bs: nat): seq<nat> {
      seq(bs + 1, n requires 0 <= n => FragmentLength(n))
    }
  }

  /** A code exists: every fragment is the block behind one byte of header. */
  function SomeCode(k: nat, m: nat): ErasureCode {
    ErasureCode(k, m, n => n + 1, x => seq(k + m, _ => [0] + x),
                (fs: seq<seq<byte>>) => if fs == [] || fs[0] == [] then [] else fs[0][1..])
  }

  lemma SomeCodeIsValid(k: nat, m: nat)
    requires 0 < k + m
    ensures SomeCode(k, m).Valid()
  {
    forall x: seq<byte> ensures ([0] + x)[1..] == x {
    }
  }

  /** What device `i` holds: the layout of blocks of full fragments. */
  ghost function DeviceGeometry(code: ErasureCode, bs: nat, i: nat): Geometry
    requires code.Valid() && i < code.devices
  {
    Geometry(bs, code.fragmentLength(bs), code.Fragments(bs), iset x: seq<byte> | true :: (x, code.encode(x)[i]))
  }

  lemma DeviceGeometryIsPlain(code: ErasureCode, bs: nat, i: nat)
    requires 0 < bs && code.Valid() && i < code.devices
    ensures DeviceGeometry(code, bs, i).Plain()
  {
  }

  ghost predicate DeviceHolds(code: ErasureCode, bs: nat, i: nat, data: seq<byte>, file: seq<byte>)
    requires 0 < bs && code.Valid() && i < code.devices
  {
    DeviceGeometryIsPlain(code, bs, i);
    SlotsHold(DeviceGeometry(code, bs, i), data, file)
  }

  /** A covering write of block `k` puts its fragment over the old one and touches no other block's. */
  lemma FragmentWritten(code: ErasureCode, bs: nat, i: nat, data: seq<byte>, file: seq<byte>, k: nat, x: seq<byte>)
    requires 0 < bs && code.Valid() && i < code.devices && DeviceHolds(code, bs, i, data, file)
    requires Covers(bs, |data|, k, |x|)
    ensures DeviceHolds(code, bs, i, Pwrite(data, Start(k, bs), x),
                        Pwrite(file, Start(k, code.fragmentLength(bs)), code.encode(x)[i]))
  {
    var g, y := DeviceGeometry(code, bs, i), code.encode(x)[i];
    DeviceGeometryIsPlain(code, bs, i);
    PwriteWrites(data, Start(k, bs), x);
    PwriteWrites(file, Start(k, g.slot), y);
    SlotsAfterWrite(g, data, file, k, x, y, Pwrite(data, Start(k, bs), x), Pwrite(file, Start(k, g.slot), y));
  }

  /** The extent of block `k` holds the block's fragment. */
  lemma FragmentRead(code: ErasureCode, bs: nat, i: nat, data: seq<byte>, file: seq<byte>, k: nat)
    requires 0 < bs && code.Valid() && i < code.devices && DeviceHolds(code, bs, i, data, file)
    requires Start(k, bs) < |data|
    ensures var b := BlockAt(bs, data, k);
      Pread(file, Start(k, code.fragmentLength(bs)), code.fragmentLength(|b|)) == code.encode(b)[i]
  {
    var g := DeviceGeometry(code, bs, i);
    DeviceGeometryIsPlain(code, bs, i);
    assert SlotHolds(g, data, file, k);
    var b, o := BlockAt(bs, data, k), Start(k, g.slot);
    PreadSlice(file, o, g.size[|b|], o + g.size[|b|]);
  }

  // ----- the state of all files, and what each call does to it

  datatype Store = Store(ix: Index, devs: map<string, seq<seq<byte>>>)

  datatype Event =
    | Create(path: string, left: seq<seq<byte>>)  // `left` is what the devices hold after the `open` calls
    | WriteBlock(path: string, offset: nat, buf: seq<byte>)
    | ReadBlock(path: string, offset: nat)
    | Rename(from: string, to: string)

  function WriteFragments(code: ErasureCode, files: seq<seq<byte>>, address: nat, buf: seq<byte>): seq<seq<byte>>
    requires |code.encode(buf)| == |files|
  {
    seq(|files|, i requires 0 <= i < |files| => Pwrite(files[i], address, code.encode(buf)[i]))
  }

  /** The same when the calls of some devices fail. */
  function LandFragments(
      code: ErasureCode, files: seq<seq<byte>>, address: nat, buf: seq<byte>, faults: seq<bool>): seq<seq<byte>>
    requires |code.encode(buf)| == |files| == |faults|
  {
    seq(|files|, i requires 0 <= i < |files| =>
      if faults[i] then files[i] else Pwrite(files[i], address, code.encode(buf)[i]))
  }

  function ReadFragments(files: seq<seq<byte>>, address: nat, size: nat): seq<seq<byte>> {
    seq(|files|, i requires 0 <= i < |files| => Pread(files[i], address, size))
  }

  /** The call does not follow a missing entry, and its file exists. */
  ghost predicate Possible(code: ErasureCode, s: Store, e: Event)
    requires code.Valid()
  {
    match e
    case Create(_, left) => |left| == code.devices
    case WriteBlock(path, offset, _) =>
      path in s.devs && |s.devs[path]| == code.devices && Chained(s.ix, path, offset)
    case ReadBlock(path, _) => path in s.devs
    case Rename(from, _) => from in s.devs
  }

  ghost function Next(code: ErasureCode, s: Store, e: Event): Store
    requires code.Valid() && Possible(code, s, e)
  {
    match e
    case Create(path, left) => Store(Created(s.ix, path), s.devs[path := left])
    case WriteBlock(path, offset, buf) =>
      var ix := Encoded(s.ix, path, offset, |buf|, code.fragmentLength(|buf|));
      Store(ix, s.devs[path := WriteFragments(code, s.devs[path], Address(s.ix, path, offset), buf)])
    case ReadBlock(path, _) => s.(ix := AskedId(AskedId(s.ix, path), path))
    case Rename(from, to) =>
      Store(Renamed(s.ix, from, to), if from == to then s.devs else s.devs[to := s.devs[from]] - {from})
  }

  /** What a write leaves when the calls of some devices fail: the index does not know of it. */
  ghost function NextFailing(
      code: ErasureCode, s: Store, path: string, offset: nat, buf: seq<byte>, faults: seq<bool>): Store
    requires code.Valid() && Possible(code, s, WriteBlock(path, offset, buf)) && |faults| == code.devices
  {
    Store(Encoded(s.ix, path, offset, |buf|, code.fragmentLength(|buf|)),
          s.devs[path := LandFragments(code, s.devs[path], Address(s.ix, path, offset), buf, faults)])
  }

  /** What a read of the block at `offset` decodes; nothing if the index does not know the block. */
  ghost function BlockRead(code: ErasureCode, s: Store, path: string, offset: nat): Option<seq<byte>> {
    var id := FileId(s.ix, path);
    if path in s.devs && Ro(id, offset) in s.ix.entries && Rs(id, offset) in s.ix.entries then
      Some(code.decode(ReadFragments(s.devs[path], s.ix.entries[Ro(id, offset)], s.ix.entries[Rs(id, offset)])))
    else None
  }

  // ----- the files the calls are meant to keep

  type Files = map<string, seq<byte>>

  function NextFiles(files: Files, e: Event): Files {
    match e
    case Create(path, _) => files[path := []]
    case WriteBlock(path, offset, buf) =>
      if path in files then files[path := Pwrite(files[path], offset, buf)] else files
    case ReadBlock(_, _) => files
    case Rename(from, to) => if from in files then files[to := files[from]] - {from} else files
  }

  /**
    Disciplined writes to existing files, and renames to another path, of a written file or over an unwritten one.
  */
  predicate Legal(devices: nat, bs: nat, files: Files, e: Event)
    requires 0 < bs
  {
    match e
    case Create(_, left) => |left| == devices
    case WriteBlock(path, offset, buf) => path in files && Disciplined(bs, |files[path]|, offset, |buf|)
    case ReadBlock(path, _) => path in files
    case Rename(from, to) => from in files && from != to && (files[from] != [] || to !in files || files[to] == [])
  }

  // ----- the invariant

  ghost predicate FileOk(code: ErasureCode, bs: nat, s: Store, path: string, data: seq<byte>)
    requires 0 < bs && code.Valid()
  {
    && path in s.devs && |s.devs[path]| == code.devices
    && if path in s.ix.fileIds then
         && data != [] && path in s.ix.fileSizes && s.ix.fileSizes[path] == |data|
         && FileIndexed(bs, code.Fragments(bs), s.ix.entries, s.ix.fileIds[path], |data|)
         && forall i | 0 <= i < code.devices :: DeviceHolds(code, bs, i, data, s.devs[path][i])
       else data == [] && path !in s.ix.fileSizes
  }

  /** Live ids are distinct, and neither they nor the ids of entries are still to be given out. */
  ghost predicate IdsOk(ix: Index) {
    && (forall p | p in ix.fileIds :: 1 <= ix.fileIds[p] <= ix.lastId)
    && (forall e: Entry | e in ix.entries :: e.id <= ix.lastId)
    && (forall p, q | p in ix.fileIds && q in ix.fileIds && p != q :: ix.fileIds[p] != ix.fileIds[q])
  }

  ghost predicate Inv(code: ErasureCode, bs: nat, s: Store, files: Files)
    requires 0 < bs && code.Valid()
  {
    && s.devs.Keys == files.Keys
    && s.ix.fileIds.Keys <= files.Keys && s.ix.fileSizes.Keys <= files.Keys
    && IdsOk(s.ix)
    && forall p | p in files :: FileOk(code, bs, s, p, files[p])
  }

  /** A file that a call does not concern. */
  lemma OtherFileOk(code: ErasureCode, bs: nat, s: Store, s': Store, path: string, data: seq<byte>)
    requires 0 < bs && code.Valid() && FileOk(code, bs, s, path, data)
    requires path in s'.devs && s'.devs[path] == s.devs[path]
    requires path in s'.ix.fileIds <==> path in s.ix.fileIds
    requires path in s'.ix.fileSizes <==> path in s.ix.fileSizes
    requires path in s.ix.fileIds ==> s'.ix.fileIds[path] == s.ix.fileIds[path]
    requires path in s.ix.fileSizes ==> s'.ix.fileSizes[path] == s.ix.fileSizes[path]
    requires path in s.ix.fileIds ==> forall e: Entry | e.id == s.ix.fileIds[path] && e in s.ix.entries ::
      e in s'.ix.entries && s'.ix.entries[e] == s.ix.entries[e]
    ensures FileOk(code, bs, s', path, data)
  {
    if path in s.ix.fileIds {
      OtherFileIndexed(bs, code.Fragments(bs), s.ix.entries, s'.ix.entries, s.ix.fileIds[path], |data|);
    }
  }

  lemma WriteKeepsIds(ix: Index, path: string, offset: nat, size: nat, fragment: nat)
    requires IdsOk(ix) && Chained(ix, path, offset)
    ensures IdsOk(Encoded(ix, path, offset, size, fragment))
  {
  }

  lemma UnwrittenIndexed(bs: nat, fragment: seq<nat>, entries: map<Entry, nat>, id: nat)
    requires 0 < bs && |fragment| == bs + 1
    ensures FileIndexed(bs, fragment, entries, id, 0)
  {
  }

  lemma UnwrittenHeld(code: ErasureCode, bs: nat, i: nat, file: seq<byte>)
    requires 0 < bs && code.Valid() && i < code.devices
    ensures DeviceHolds(code, bs, i, [], file)
  {
  }

  /** The address of a disciplined write exists, and is the one of the closed form. */
  lemma AddressIsClosedForm(code: ErasureCode, bs: nat, s: Store, path: string, data: seq<byte>, k: nat)
    requires 0 < bs && code.Valid() && FileOk(code, bs, s, path, data) && Start(k, bs) <= |data|
    ensures Chained(s.ix, path, Start(k, bs))
    ensures Address(s.ix, path, Start(k, bs)) == Start(k, code.fragmentLength(bs))
  {
    if 0 < k { assert ChainedAt(bs, code.Fragments(bs), s.ix.entries, FileId(s.ix, path), k); }
  }

  lemma WriteKeepsFile(code: ErasureCode, bs: nat, s: Store, path: string, data: seq<byte>, offset: nat, buf: seq<byte>)
    requires 0 < bs && code.Valid() && IdsOk(s.ix) && FileOk(code, bs, s, path, data)
    requires Disciplined(bs, |data|, offset, |buf|)
    ensures Possible(code, s, WriteBlock(path, offset, buf))
    ensures FileOk(code, bs, Next(code, s, WriteBlock(path, offset, buf)), path, Pwrite(data, offset, buf))
  {
    hide FileIndexed; hide DeviceHolds; hide IdsOk;
    var k := AlignedIsStart(offset, bs);
    AddressIsClosedForm(code, bs, s, path, data, k);
    if path !in s.ix.fileIds { UnwrittenIndexed(bs, code.Fragments(bs), s.ix.entries, FileId(s.ix, path)); }
    WriteKeepsIndex(s.ix, path, bs, code.Fragments(bs), |data|, k, |buf|);
    WriteKeepsDevices(code, bs, s, path, data, k, buf);
  }

  lemma WriteKeepsIndex(ix: Index, path: string, bs: nat, fragment: seq<nat>, n: nat, k: nat, len: nat)
    requires 0 < bs && |fragment| == bs + 1 && Covers(bs, n, k, len)
    requires FileIndexed(bs, fragment, ix.entries, FileId(ix, path), n)
    requires Chained(ix, path, Start(k, bs)) && Address(ix, path, Start(k, bs)) == Start(k, fragment[bs])
    ensures FileIndexed(bs, fragment, Encoded(ix, path, Start(k, bs), len, fragment[len]).entries,
                        FileId(ix, path), Max(n, Start(k, bs) + len))
  {
    hide FileIndexed;
    WriteIndexed(bs, fragment, ix.entries, FileId(ix, path), n, k, len);
    assert Encoded(ix, path, Start(k, bs), len, fragment[len]).entries ==
           Linked(bs, fragment, ix.entries, FileId(ix, path), k, len);
  }

  lemma WriteKeepsDevices(code: ErasureCode, bs: nat, s: Store, path: string, data: seq<byte>, k: nat, buf: seq<byte>)
    requires 0 < bs && code.Valid() && FileOk(code, bs, s, path, data) && Covers(bs, |data|, k, |buf|)
    ensures var files := WriteFragments(code, s.devs[path], Start(k, code.fragmentLength(bs)), buf);
      forall i | 0 <= i < code.devices :: DeviceHolds(code, bs, i, Pwrite(data, Start(k, bs), buf), files[i])
  {
    var files := WriteFragments(code, s.devs[path], Start(k, code.fragmentLength(bs)), buf);
    forall i | 0 <= i < code.devices
      ensures DeviceHolds(code, bs, i, Pwrite(data, Start(k, bs), buf), files[i])
    {
      if path !in s.ix.fileIds { UnwrittenHeld(code, bs, i, s.devs[path][i]); }
      FragmentWritten(code, bs, i, data, s.devs[path][i], k, buf);
    }
  }

  lemma WriteKeepsInv(code: ErasureCode, bs: nat, s: Store, files: Files, path: string, offset: nat, buf: seq<byte>)
    requires 0 < bs && code.Valid() && Inv(code, bs, s, files)
    requires Legal(code.devices, bs, files, WriteBlock(path, offset, buf))
    ensures Possible(code, s, WriteBlock(path, offset, buf))
    ensures Inv(code, bs, Next(code, s, WriteBlock(path, offset, buf)), NextFiles(files, WriteBlock(path, offset, buf)))
  {
    hide FileOk; hide IdsOk; hide Disciplined;
    WriteKeepsFile(code, bs, s, path, files[path], offset, buf);
    WriteKeepsIds(s.ix, path, offset, |buf|, code.fragmentLength(|buf|));
    WriteKeepsOthers(code, bs, s, files, path, offset, buf);
  }

  lemma WriteKeepsOthers(code: ErasureCode, bs: nat, s: Store, files: Files, path: string, offset: nat, buf: seq<byte>)
    requires 0 < bs && code.Valid() && Inv(code, bs, s, files) && Possible(code, s, WriteBlock(path, offset, buf))
    ensures forall p | p in files && p != path ::
      FileOk(code, bs, Next(code, s, WriteBlock(path, offset, buf)), p, files[p])
  {
    var s' := Next(code, s, WriteBlock(path, offset, buf));
    forall p | p in files && p != path ensures FileOk(code, bs, s', p, files[p]) {
      assert FileOk(code, bs, s, p, files[p]);
      OtherFileOk(code, bs, s, s', p, files[p]);
    }
  }

  /** What a rename leaves at the new path, and at the paths it does not concern. */
  lemma RenameKeepsFile(
      code: ErasureCode, bs: nat, s: Store, files: Files, from: string, to: string, p: string)
    requires 0 < bs && code.Valid() && Inv(code, bs, s, files)
    requires Legal(code.devices, bs, files, Rename(from, to)) && p in NextFiles(files, Rename(from, to))
    ensures FileOk(code, bs, Next(code, s, Rename(from, to)), p, NextFiles(files, Rename(from, to))[p])
  {
    hide IdsOk;
    var s' := Next(code, s, Rename(from, to));
    if p == to {
      assert FileOk(code, bs, s, from, files[from]);
      assert to in files ==> FileOk(code, bs, s, to, files[to]);
    } else {
      assert FileOk(code, bs, s, p, files[p]);
      OtherFileOk(code, bs, s, s', p, files[p]);
    }
  }

  lemma RenameKeepsInv(code: ErasureCode, bs: nat, s: Store, files: Files, from: string, to: string)
    requires 0 < bs && code.Valid() && Inv(code, bs, s, files)
    requires Legal(code.devices, bs, files, Rename(from, to))
    ensures Inv(code, bs, Next(code, s, Rename(from, to)), NextFiles(files, Rename(from, to)))
  {
    hide FileOk;
    forall p | p in NextFiles(files, Rename(from, to))
      ensures FileOk(code, bs, Next(code, s, Rename(from, to)), p, NextFiles(files, Rename(from, to))[p])
    {
      RenameKeepsFile(code, bs, s, files, from, to, p);
    }
  }

  lemma CreateKeepsInv(code: ErasureCode, bs: nat, s: Store, files: Files, path: string, left: seq<seq<byte>>)
    requires 0 < bs && code.Valid() && Inv(code, bs, s, files) && |left| == code.devices
    ensures Inv(code, bs, Next(code, s, Create(path, left)), NextFiles(files, Create(path, left)))
  {
    var s' := Next(code, s, Create(path, left));
    forall p | p in files && p != path ensures FileOk(code, bs, s', p, files[p]) {
      assert FileOk(code, bs, s, p, files[p]);
      OtherFileOk(code, bs, s, s', p, files[p]);
    }
  }

  lemma ReadKeepsInv(code: ErasureCode, bs: nat, s: Store, files: Files, path: string, offset: nat)
    requires 0 < bs && code.Valid() && Inv(code, bs, s, files) && path in files
    ensures Inv(code, bs, Next(code, s, ReadBlock(path, offset)), files)
  {
    var s' := Next(code, s, ReadBlock(path, offset));
    forall p | p in files ensures FileOk(code, bs, s', p, files[p]) {
      assert FileOk(code, bs, s, p, files[p]);
      OtherFileOk(code, bs, s, s', p, files[p]);
    }
  }

  lemma NextKeepsInv(code: ErasureCode, bs: nat, s: Store, files: Files, e: Event)
    requires 0 < bs && code.Valid() && Inv(code, bs, s, files) && Legal(code.devices, bs, files, e)
    ensures Possible(code, s, e)
    ensures Inv(code, bs, Next(code, s, e), NextFiles(files, e))
  {
    hide FileOk; hide IdsOk; hide Disciplined;
    match e
    case Create(path, left) => CreateKeepsInv(code, bs, s, files, path, left);
    case WriteBlock(path, offset, buf) => WriteKeepsInv(code, bs, s, files, path, offset, buf);
    case ReadBlock(path, offset) => ReadKeepsInv(code, bs, s, files, path, offset);
    case Rename(from, to) => RenameKeepsInv(code, bs, s, files, from, to);
  }

  // ----- runs

  ghost function Run(code: ErasureCode, s: Store, events: seq<Event>): Option<Store>
    requires code.Valid()
    decreases |events|
  {
    if events == [] then Some(s)
    else if Possible(code, s, events[0]) then Run(code, Next(code, s, events[0]), events[1..])
    else None
  }

  function RunFiles(files: Files, events: seq<Event>): Files
    decreases |events|
  {
    if events == [] then files else RunFiles(NextFiles(files, events[0]), events[1..])
  }

  predicate LegalRun(devices: nat, bs: nat, files: Files, events: seq<Event>)
    requires 0 < bs
    decreases |events|
  {
    events == [] ||
    (Legal(devices, bs, files, events[0]) && LegalRun(devices, bs, NextFiles(files, events[0]), events[1..]))
  }

  const EMPTY := Store(Index(map[], map[], map[], 0), map[])

  lemma {:induction false} RunKeepsInv(code: ErasureCode, bs: nat, s: Store, files: Files, events: seq<Event>)
    requires 0 < bs && code.Valid() && Inv(code, bs, s, files) && LegalRun(code.devices, bs, files, events)
    ensures Run(code, s, events).Some?
    ensures Inv(code, bs, Run(code, s, events).value, RunFiles(files, events))
    decreases |events|
  {
    if events != [] {
      NextKeepsInv(code, bs, s, files, events[0]);
      RunKeepsInv(code, bs, Next(code, s, events[0]), NextFiles(files, events[0]), events[1..]);
    }
  }

  /** No run of legal calls looks up an entry that is not there, and the invariant holds after it. */
  lemma RunsAreSafe(code: ErasureCode, bs: nat, events: seq<Event>)
    requires 0 < bs && code.Valid() && LegalRun(code.devices, bs, map[], events)
    ensures Run(code, EMPTY, events).Some?
    ensures Inv(code, bs, Run(code, EMPTY, events).value, RunFiles(map[], events))
  {
    assert Inv(code, bs, EMPTY, map[]);
    RunKeepsInv(code, bs, EMPTY, map[], events);
  }

  /**
    The closed form: after any run, block `k` of a written file starts at `k` times the full fragment length on every
    device, and its extent is as long as its own fragment.
  */
  lemma ClosedForm(code: ErasureCode, bs: nat, events: seq<Event>, path: string, k: nat)
    requires 0 < bs && code.Valid() && LegalRun(code.devices, bs, map[], events)
    requires path in RunFiles(map[], events) && k * bs < |RunFiles(map[], events)[path]|
    ensures Run(code, EMPTY, events).Some?
    ensures var ix, n := Run(code, EMPTY, events).value.ix, |RunFiles(map[], events)[path]|;
      var id := FileId(ix, path);
      && path in ix.fileIds && SizeOf(ix, path) == n
      && Ro(id, k * bs) in ix.entries && ix.entries[Ro(id, k * bs)] == k * code.fragmentLength(bs)
      && Rs(id, k * bs) in ix.entries && ix.entries[Rs(id, k * bs)] == code.fragmentLength(Min(bs, n - k * bs))
  {
    hide LegalRun; hide Run; hide RunFiles; hide IdsOk; hide DeviceHolds; hide ChainedAt;
    RunsAreSafe(code, bs, events);
    var s, files := Run(code, EMPTY, events).value, RunFiles(map[], events);
    StartIsProduct(k, bs);
    StartIsProduct(k, code.fragmentLength(bs));
    assert FileOk(code, bs, s, path, files[path]);
    assert BlockIndexed(bs, code.Fragments(bs), s.ix.entries, FileId(s.ix, path), |files[path]|, k);
  }

  /** After any run, the extent the index records for a block ends before those of the blocks behind it begin. */
  lemma ExtentsDisjoint(code: ErasureCode, bs: nat, events: seq<Event>, path: string, j: nat, k: nat)
    requires 0 < bs && code.Valid() && LegalRun(code.devices, bs, map[], events)
    requires j < k && path in RunFiles(map[], events) && k * bs < |RunFiles(map[], events)[path]|
    ensures Run(code, EMPTY, events).Some?
    ensures var ix := Run(code, EMPTY, events).value.ix;
      var id := FileId(ix, path);
      && {Ro(id, j * bs), Rs(id, j * bs), Ro(id, k * bs)} <= ix.entries.Keys
      && ix.entries[Ro(id, j * bs)] + ix.entries[Rs(id, j * bs)] <= ix.entries[Ro(id, k * bs)]
  {
    BlocksBefore(j, k, bs);
    BlocksBefore(j, k, code.fragmentLength(bs));
    ClosedForm(code, bs, events, path, j);
    ClosedForm(code, bs, events, path, k);
  }

  lemma BlocksBefore(j: nat, k: nat, width: nat)
    requires j < k
    ensures j * width + width <= k * width
  {
    StartMono(j, k, width);
    StartIsProduct(j, width);
    StartIsProduct(k, width);
  }

  /** Every device has the fragment of every block. */
  lemma FragmentsThere(code: ErasureCode, bs: nat, s: Store, files: Files, path: string, k: nat)
    requires 0 < bs && code.Valid() && Inv(code, bs, s, files)
    requires path in files && Start(k, bs) < |files[path]|
    ensures path in s.devs && |s.devs[path]| == code.devices
    ensures var b := BlockAt(bs, files[path], k);
      && |code.encode(b)| == code.devices && code.decode(code.encode(b)) == b
      && forall i | 0 <= i < code.devices ::
          Pread(s.devs[path][i], Start(k, code.fragmentLength(bs)), code.fragmentLength(|b|)) == code.encode(b)[i] != []
  {
    hide FileIndexed; hide DeviceHolds;
    assert FileOk(code, bs, s, path, files[path]);
    var b := BlockAt(bs, files[path], k);
    forall i | 0 <= i < code.devices
      ensures Pread(s.devs[path][i], Start(k, code.fragmentLength(bs)), code.fragmentLength(|b|)) ==
              code.encode(b)[i] != []
    {
      FragmentRead(code, bs, i, files[path], s.devs[path][i], k);
      assert |code.encode(b)[i]| == code.fragmentLength(|b|);
    }
  }

  /** The index has the address and the length of every block. */
  lemma BlockKnown(code: ErasureCode, bs: nat, s: Store, files: Files, path: string, k: nat)
    requires 0 < bs && code.Valid() && Inv(code, bs, s, files)
    requires path in files && Start(k, bs) < |files[path]|
    ensures path in s.ix.fileIds
    ensures var id, b := FileId(s.ix, path), BlockAt(bs, files[path], k);
      && Ro(id, Start(k, bs)) in s.ix.entries && Rs(id, Start(k, bs)) in s.ix.entries
      && s.ix.entries[Ro(id, Start(k, bs))] == Start(k, code.fragmentLength(bs))
      && s.ix.entries[Rs(id, Start(k, bs))] == code.fragmentLength(|b|)
  {
    hide DeviceHolds;
    assert FileOk(code, bs, s, path, files[path]);
    assert BlockIndexed(bs, code.Fragments(bs), s.ix.entries, FileId(s.ix, path), |files[path]|, k);
  }

  lemma BlockDecodes(code: ErasureCode, bs: nat, s: Store, files: Files, path: string, k: nat)
    requires 0 < bs && code.Valid() && Inv(code, bs, s, files)
    requires path in files && Start(k, bs) < |files[path]|
    ensures BlockRead(code, s, path, Start(k, bs)) == Some(BlockAt(bs, files[path], k))
  {
    hide Inv;
    BlockKnown(code, bs, s, files, path, k);
    FragmentsThere(code, bs, s, files, path, k);
    var b := BlockAt(bs, files[path], k);
    assert ReadFragments(s.devs[path], Start(k, code.fragmentLength(bs)), code.fragmentLength(|b|)) == code.encode(b);
  }

  /** After any run, reading any block of any file gives the latest bytes written to it. */
  lemma ReadAfterWrite(code: ErasureCode, bs: nat, events: seq<Event>, path: string, offset: nat)
    requires 0 < bs && code.Valid() && LegalRun(code.devices, bs, map[], events)
    requires path in RunFiles(map[], events) && offset % bs == 0 && offset < |RunFiles(map[], events)[path]|
    ensures Run(code, EMPTY, events).Some?
    ensures var data := RunFiles(map[], events)[path];
      BlockRead(code, Run(code, EMPTY, events).value, path, offset) ==
      Some(data[offset..Min(offset + bs, |data|)])
  {
    hide LegalRun; hide Run; hide RunFiles; hide Inv; hide BlockRead;
    RunsAreSafe(code, bs, events);
    AlignDown(offset, bs);
    var k := AlignedIsStart(offset, bs);
    BlockDecodes(code, bs, Run(code, EMPTY, events).value, RunFiles(map[], events), path, k);
  }

  /** So every byte of every file is where a read of its block puts it. */
  lemma EveryByteReadable(code: ErasureCode, bs: nat, events: seq<Event>, path: string, i: nat)
    requires 0 < bs && code.Valid() && LegalRun(code.devices, bs, map[], events)
    requires path in RunFiles(map[], events) && i < |RunFiles(map[], events)[path]|
    ensures Run(code, EMPTY, events).Some?
    ensures var block := BlockRead(code, Run(code, EMPTY, events).value, path, i - i % bs);
      block.Some? && i % bs < |block.value| && block.value[i % bs] == RunFiles(map[], events)[path][i]
  {
    AlignDown(i, bs);
    AlignDown(i - i % bs, bs);
    ReadAfterWrite(code, bs, events, path, i - i % bs);
  }

  // ----- devices that fail

  /** The device has, at the block's address, the fragment it is to write. */
  predicate HasFragment(
      code: ErasureCode, s: Store, path: string, offset: nat, buf: seq<byte>, i: nat)
    requires path in s.devs && i < |s.devs[path]| && i < |code.encode(buf)| && Chained(s.ix, path, offset)
  {
    var y := code.encode(buf)[i];
    Pread(s.devs[path][i], Address(s.ix, path, offset), |y|) == y
  }

  lemma NothingMissed(code: ErasureCode, s: Store, path: string, offset: nat, buf: seq<byte>, faults: seq<bool>)
    requires code.Valid() && Possible(code, s, WriteBlock(path, offset, buf)) && |faults| == code.devices
    requires forall i | 0 <= i < code.devices && faults[i] :: HasFragment(code, s, path, offset, buf, i)
    ensures NextFailing(code, s, path, offset, buf, faults) == Next(code, s, WriteBlock(path, offset, buf))
  {
    var a, files := Address(s.ix, path, offset), s.devs[path];
    forall i | 0 <= i < code.devices && faults[i] ensures Pwrite(files[i], a, code.encode(buf)[i]) == files[i] {
      assert HasFragment(code, s, path, offset, buf, i);
      assert |code.encode(buf)[i]| == code.fragmentLength(|buf|);
      PwriteSame(files[i], a, code.encode(buf)[i]);
    }
    assert LandFragments(code, files, a, buf, faults) == WriteFragments(code, files, a, buf);
  }

  /**
    A write in which devices fail leaves index and fragments in agreement exactly when each of those devices happens
    to have the fragment it did not write. The result of the write does not tell: see `ErasureLoopback.Write`.
  */
  lemma FailedWriteExactly(
      code: ErasureCode, bs: nat, s: Store, files: Files, path: string, offset: nat, buf: seq<byte>,
      faults: seq<bool>)
    requires 0 < bs && code.Valid() && Inv(code, bs, s, files) && |faults| == code.devices
    requires Legal(code.devices, bs, files, WriteBlock(path, offset, buf))
    ensures Possible(code, s, WriteBlock(path, offset, buf))
    ensures Inv(code, bs, NextFailing(code, s, path, offset, buf, faults),
                NextFiles(files, WriteBlock(path, offset, buf))) <==>
            forall i | 0 <= i < code.devices && faults[i] :: HasFragment(code, s, path, offset, buf, i)
  {
    hide FileOk; hide IdsOk; hide Disciplined; hide LandFragments; hide HasFragment;
    NextKeepsInv(code, bs, s, files, WriteBlock(path, offset, buf));
    if forall i | 0 <= i < code.devices && faults[i] :: HasFragment(code, s, path, offset, buf, i) {
      NothingMissed(code, s, path, offset, buf, faults);
    }
    var s' := NextFailing(code, s, path, offset, buf, faults);
    var files' := files[path := Pwrite(files[path], offset, buf)];
    if Inv(code, bs, s', files') {
      assert FileOk(code, bs, s', path, files'[path]) && FileOk(code, bs, s, path, files[path]);
      forall i | 0 <= i < code.devices && faults[i] ensures HasFragment(code, s, path, offset, buf, i) {
        FailedDeviceHas(code, bs, s, files[path], path, offset, buf, faults, i);
      }
    }
  }

  lemma FailedDeviceHas(
      code: ErasureCode, bs: nat, s: Store, data: seq<byte>, path: string, offset: nat, buf: seq<byte>,
      faults: seq<bool>, i: nat)
    requires 0 < bs && code.Valid() && FileOk(code, bs, s, path, data) && Disciplined(bs, |data|, offset, |buf|)
    requires |faults| == code.devices && i < code.devices && faults[i]
    requires Possible(code, s, WriteBlock(path, offset, buf))
    requires FileOk(code, bs, NextFailing(code, s, path, offset, buf, faults), path, Pwrite(data, offset, buf))
    ensures HasFragment(code, s, path, offset, buf, i)
  {
    hide DeviceHolds; hide FileIndexed;
    var k := AlignedIsStart(offset, bs);
    AddressIsClosedForm(code, bs, s, path, data, k);
    var s' := NextFailing(code, s, path, offset, buf, faults);
    assert s'.devs[path][i] == s.devs[path][i] && path in s'.ix.fileIds;
    CoveredBlock(bs, data, k, buf);
    FragmentRead(code, bs, i, Pwrite(data, offset, buf), s.devs[path][i], k);
    assert |code.encode(buf)[i]| == code.fragmentLength(|buf|);
  }

  /** A covering write is its block. */
  lemma CoveredBlock(bs: nat, data: seq<byte>, k: nat, x: seq<byte>)
    requires Covers(bs, |data|, k, |x|)
    ensures Start(k, bs) < |Pwrite(data, Start(k, bs), x)| && BlockAt(bs, Pwrite(data, Start(k, bs), x), k) == x
  {
    PwriteWrites(data, Start(k, bs), x);
    WrittenAt(data, Start(k, bs), x, Pwrite(data, Start(k, bs), x));
  }

  /** Of the fragments a failing write leaves, a read decodes new and old ones together. */
  lemma FailedWriteRead(
      code: ErasureCode, bs: nat, s: Store, files: Files, path: string, offset: nat, buf: seq<byte>,
      faults: seq<bool>)
    requires 0 < bs && code.Valid() && Inv(code, bs, s, files) && |faults| == code.devices
    requires Legal(code.devices, bs, files, WriteBlock(path, offset, buf))
    ensures Possible(code, s, WriteBlock(path, offset, buf))
    ensures var a, n := Address(s.ix, path, offset), code.fragmentLength(|buf|);
      BlockRead(code, NextFailing(code, s, path, offset, buf, faults), path, offset) ==
      Some(code.decode(seq(code.devices, i requires 0 <= i < code.devices =>
        if faults[i] then Pread(s.devs[path][i], a, n) else code.encode(buf)[i])))
  {
    hide Inv;
    NextKeepsInv(code, bs, s, files, WriteBlock(path, offset, buf));
    FragmentsLeft(code, s.devs[path], Address(s.ix, path, offset), buf, faults);
  }

  lemma FragmentsLeft(code: ErasureCode, files: seq<seq<byte>>, address: nat, buf: seq<byte>, faults: seq<bool>)
    requires code.Valid() && |files| == |faults| == code.devices
    ensures var n := code.fragmentLength(|buf|);
      ReadFragments(LandFragments(code, files, address, buf, faults), address, n) ==
      seq(code.devices, i requires 0 <= i < code.devices =>
        if faults[i] then Pread(files[i], address, n) else code.encode(buf)[i])
  {
    var n, left := code.fragmentLength(|buf|), LandFragments(code, files, address, buf, faults);
    forall i | 0 <= i < code.devices && !faults[i] ensures Pread(left[i], address, n) == code.encode(buf)[i] {
      assert |code.encode(buf)[i]| == n;
      PwriteWrites(files[i], address, code.encode(buf)[i]);
      WrittenAt(files[i], address, code.encode(buf)[i], left[i]);
    }
  }

  /** A file of one byte, overwritten while the first device fails: a read returns the old byte. */
  lemma FailedWriteUnseen(bs: nat, path: string, x: byte, y: byte)
    requires 0 < bs
    ensures var code, events := SomeCode(2, 1), [Create(path, [[], [], []]), WriteBlock(path, 0, [x])];
      && code.Valid() && LegalRun(3, bs, map[], events) && RunFiles(map[], events) == map[path := [x]]
      && Run(code, EMPTY, events).Some?
      && var s := Run(code, EMPTY, events).value;
        && Possible(code, s, WriteBlock(path, 0, [y]))
        && BlockRead(code, NextFailing(code, s, path, 0, [y], [true, false, false]), path, 0) == Some([x])
  {
    hide Inv; hide NextFailing; hide BlockRead; hide ErasureCode.Valid;
    var code, events := SomeCode(2, 1), [Create(path, [[], [], []]), WriteBlock(path, 0, [x])];
    SomeCodeIsValid(2, 1);
    OneByteRun(bs, path, [[], [], []], x);
    RunsAreSafe(code, bs, events);
    OldByteRead(code, bs, Run(code, EMPTY, events).value, RunFiles(map[], events), path, x, y);
  }

  lemma OneByteRun(bs: nat, path: string, left: seq<seq<byte>>, x: byte)
    requires 0 < bs
    ensures var events := [Create(path, left), WriteBlock(path, 0, [x])];
      LegalRun(|left|, bs, map[], events) && RunFiles(map[], events) == map[path := [x]]
  {
    var events := [Create(path, left), WriteBlock(path, 0, [x])];
    var files0: Files := map[];
    assert Pwrite([], 0, [x]) == [x] && [events[1]] + [] == [events[1]] && [events[0]] + [events[1]] == events;
    RunStep(|left|, bs, files0[path := []], events[1], []);
    RunStep(|left|, bs, files0, events[0], [events[1]]);
  }

  lemma OldByteRead(code: ErasureCode, bs: nat, s: Store, files: Files, path: string, x: byte, y: byte)
    requires 0 < bs && code == SomeCode(2, 1) && code.Valid() && Inv(code, bs, s, files)
    requires path in files && files[path] == [x]
    ensures Possible(code, s, WriteBlock(path, 0, [y]))
    ensures BlockRead(code, NextFailing(code, s, path, 0, [y], [true, false, false]), path, 0) == Some([x])
  {
    hide Inv;
    FragmentsThere(code, bs, s, files, path, 0);
    FailedWriteRead(code, bs, s, files, path, 0, [y], [true, false, false]);
    assert BlockAt(bs, [x], 0) == [x];
    assert code.encode([x])[0] == [0, x];
    assert ([0] + [x])[1..] == [x];
  }

  /** After any run, live paths have distinct ids, none above the counter, and the size recorded is the file's. */
  lemma IdentitySafety(code: ErasureCode, bs: nat, events: seq<Event>, p: string, q: string)
    requires 0 < bs && code.Valid() && LegalRun(code.devices, bs, map[], events)
    requires p in RunFiles(map[], events) && q in RunFiles(map[], events) && p != q
    ensures Run(code, EMPTY, events).Some?
    ensures var ix, files := Run(code, EMPTY, events).value.ix, RunFiles(map[], events);
      && (p in ix.fileIds <==> files[p] != [])
      && (p in ix.fileIds ==> 1 <= ix.fileIds[p] <= ix.lastId)
      && (p in ix.fileIds && q in ix.fileIds ==> ix.fileIds[p] != ix.fileIds[q])
      && SizeOf(ix, p) == |files[p]|
  {
    RunsAreSafe(code, bs, events);
    assert FileOk(code, bs, Run(code, EMPTY, events).value, p, RunFiles(map[], events)[p]);
  }

  /**
    The ids that are given out: a file's first write takes the next one, and so does every lookup for a path without
    one, two of them for a read; nothing else does.
  */
  lemma IdsUsed(code: ErasureCode, s: Store, e: Event)
    requires code.Valid() && Possible(code, s, e)
    ensures var ix, ix' := s.ix, Next(code, s, e).ix;
      match e
      case WriteBlock(path, _, _) =>
        && path in ix'.fileIds
        && ix'.fileIds[path] == (if path in ix.fileIds then ix.fileIds[path] else ix.lastId + 1)
        && ix'.lastId == if path in ix.fileIds then ix.lastId else ix.lastId + 1
      case ReadBlock(path, _) => ix'.lastId == if path in ix.fileIds then ix.lastId else ix.lastId + 2
      case _ => ix'.lastId == ix.lastId && ix'.entries == ix.entries
  {
  }

  /** The id a new file's first write gets has no entries: whatever was at its path is out of sight. */
  lemma RecreatedIsFresh(
      code: ErasureCode, bs: nat, s: Store, files: Files, path: string, left: seq<seq<byte>>, offset: nat)
    requires 0 < bs && code.Valid() && Inv(code, bs, s, files) && |left| == code.devices
    ensures var ix := Next(code, s, Create(path, left)).ix;
      && SizeOf(ix, path) == 0
      && (forall e: Entry | e in ix.entries :: e.id != FileId(ix, path))
      && BlockRead(code, Next(code, s, Create(path, left)), path, offset) == None
  {
    var ix := Next(code, s, Create(path, left)).ix;
    var id := FileId(ix, path);
    assert Ro(id, offset).id == id;
  }

  /** The index and the fragments at `path` hold `data`: its size, and every block of it. */
  ghost predicate Holds(code: ErasureCode, bs: nat, s: Store, path: string, data: seq<byte>)
    requires 0 < bs
  {
    && SizeOf(s.ix, path) == |data|
    && forall k: nat | Start(k, bs) < |data| :: BlockRead(code, s, path, Start(k, bs)) == Some(BlockAt(bs, data, k))
  }

  /**
    A rename carries a file, size and content, exactly when the file is written and not renamed to itself, or it is
    not written and replaces no written one. Otherwise nothing is left of it, or the size is that of the old target.
  */
  lemma RenameExactly(code: ErasureCode, bs: nat, s: Store, files: Files, from: string, to: string)
    requires 0 < bs && code.Valid() && Inv(code, bs, s, files) && from in files
    ensures Possible(code, s, Rename(from, to))
    ensures Holds(code, bs, Next(code, s, Rename(from, to)), to, files[from]) <==>
            if files[from] != [] then from != to else to !in files || files[to] == []
    ensures files[from] != [] && from != to ==>
            forall k: nat | Start(k, bs) < |files[from]| ::
              BlockRead(code, Next(code, s, Rename(from, to)), to, Start(k, bs)) == Some(BlockAt(bs, files[from], k))
    ensures SizeOf(Next(code, s, Rename(from, to)).ix, to) ==
            if files[from] == [] then (if to in files then |files[to]| else 0)
            else if from == to then 0
            else |files[from]|
  {
    assert FileOk(code, bs, s, from, files[from]);
    assert to in files ==> FileOk(code, bs, s, to, files[to]);
    if files[from] != [] && from != to {
      RenameKeepsInv(code, bs, s, files, from, to);
      FileIsHeld(code, bs, Next(code, s, Rename(from, to)), NextFiles(files, Rename(from, to)), to);
    }
  }

  /** The renames to another path that leave index and fragments in agreement are the legal ones. */
  lemma RenameLegalExactly(code: ErasureCode, bs: nat, s: Store, files: Files, from: string, to: string)
    requires 0 < bs && code.Valid() && Inv(code, bs, s, files) && from in files && from != to
    ensures Possible(code, s, Rename(from, to))
    ensures Inv(code, bs, Next(code, s, Rename(from, to)), NextFiles(files, Rename(from, to))) <==>
            Legal(code.devices, bs, files, Rename(from, to))
  {
    var s', files' := Next(code, s, Rename(from, to)), NextFiles(files, Rename(from, to));
    RenameExactly(code, bs, s, files, from, to);
    if Legal(code.devices, bs, files, Rename(from, to)) {
      RenameKeepsInv(code, bs, s, files, from, to);
    } else if Inv(code, bs, s', files') {
      FileIsHeld(code, bs, s', files', to);
    }
  }

  lemma FileIsHeld(code: ErasureCode, bs: nat, s: Store, files: Files, path: string)
    requires 0 < bs && code.Valid() && Inv(code, bs, s, files) && path in files
    ensures Holds(code, bs, s, path, files[path])
  {
    assert FileOk(code, bs, s, path, files[path]);
    forall k: nat | Start(k, bs) < |files[path]|
      ensures BlockRead(code, s, path, Start(k, bs)) == Some(BlockAt(bs, files[path], k))
    {
      BlockDecodes(code, bs, s, files, path, k);
    }
  }

  lemma RunStep(devices: nat, bs: nat, files: Files, e: Event, rest: seq<Event>)
    requires 0 < bs
    ensures LegalRun(devices, bs, files, [e] + rest) <==>
            Legal(devices, bs, files, e) && LegalRun(devices, bs, NextFiles(files, e), rest)
    ensures RunFiles(files, [e] + rest) == RunFiles(NextFiles(files, e), rest)
  {
    assert ([e] + rest)[1..] == rest;
  }

  /** Both failures occur: a written file renamed to itself, and a file just created renamed over it. */
  lemma RenameFailures(code: ErasureCode, bs: nat, p: string, q: string, left: seq<seq<byte>>, x: byte)
    requires 0 < bs && code.Valid() && p != q && |left| == code.devices
    ensures var events := [Create(p, left), Create(q, left), WriteBlock(q, 0, [x])];
      && LegalRun(code.devices, bs, map[], events)
      && RunFiles(map[], events) == map[p := [], q := [x]]
      && Run(code, EMPTY, events).Some?
      && var s := Run(code, EMPTY, events).value;
        && Possible(code, s, Rename(q, q)) && !Holds(code, bs, Next(code, s, Rename(q, q)), q, [x])
        && Possible(code, s, Rename(p, q)) && !Holds(code, bs, Next(code, s, Rename(p, q)), q, [])
  {
    var events := [Create(p, left), Create(q, left), WriteBlock(q, 0, [x])];
    var files0: Files := map[];
    var files1, files2, files3 := files0[p := []], files0[p := []][q := []], files0[p := []][q := [x]];
    assert Pwrite([], 0, [x]) == [x];
    assert NextFiles(files2, events[2]) == files3;
    assert [events[2]] + [] == [events[2]] && [events[1]] + [events[2]] == [events[1], events[2]];
    assert [events[0]] + [events[1], events[2]] == events;
    RunStep(code.devices, bs, files2, events[2], []);
    RunStep(code.devices, bs, files1, events[1], [events[2]]);
    RunStep(code.devices, bs, files0, events[0], [events[1], events[2]]);
    RunsAreSafe(code, bs, events);
    var s := Run(code, EMPTY, events).value;
    RenameExactly(code, bs, s, RunFiles(map[], events), q, q);
    RenameExactly(code, bs, s, RunFiles(map[], events), p, q);
  }
}
