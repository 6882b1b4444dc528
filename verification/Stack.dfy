/** The whole stack against one flat file: block alignment over encoding over devices. */
module Stack {
  import opened Bytes
  import opened CInt
  import opened Blocks
  import opened Driver
  import opened Storage
  import opened Xor
  import opened FlatFiles
  import opened Loopback
  import opened DeviceFiles
  import opened SfuseLayer
  import opened NextLayerInterface
  import opened ErasureIndex
  import opened ErasureStore
  import opened ErasureLoopbackLayer
  import opened BlockAlignLayer

  /**
    Requests inside the file or at its end, in the ranges of the C types; partial reads, also the one a truncate
    makes, not more than 2^31 bytes before the end. Where zeros are stored as zeros, also writes that start with a
    whole block behind the end. In erasure mode, reads end inside the file, and there are no truncates.
  */
  predicate Allowed(bs: nat, service: Service, op: Op, file: seq<byte>)
    requires 0 < bs
  {
    match op
    case Write(buf, offset) =>
      && (offset <= |file| || (service.PLAIN? && offset % bs == 0 && bs <= |buf|))
      && |buf| < INT_LIMIT && offset + |buf| < OFF_LIMIT
    case Read(size, offset) =>
      && offset <= |file| && size < INT_LIMIT && offset + size < OFF_LIMIT
      && ReadInRange(service.ReadsParts(), bs, |file|, offset + size)
      && (service.BY_INDEX? ==> offset + size <= |file|)
    case Truncate(size) =>
      && !service.BY_INDEX? && size < OFF_LIMIT
      && (size < |file| ==> ReadInRange(service.ReadsParts(), bs, |file|, size))
    case GetSize => true
  }

  predicate AllowedRun(bs: nat, service: Service, ops: seq<Op>, file: seq<byte>)
    requires 0 < bs
  {
    ops == [] ||
    (Allowed(bs, service, ops[0], file) && AllowedRun(bs, service, ops[1..], FlatFile(ops[0], file)))
  }

  /** Files below 2^31 bytes never meet the limit on partial reads. */
  lemma SmallFilesAreInRange(part: bool, bs: nat, size: nat, end: nat)
    requires 0 < bs && size < INT_LIMIT
    ensures ReadInRange(part, bs, size, end)
  {
    Blocks.AlignDown(end, bs);
  }

  /**
    Below 2^31 bytes every run of requests inside the file or at its end is allowed, whatever the layers, but for what
    erasure mode does not serve; and over plain layers also writes of whole blocks behind the end.
  */
  lemma {:induction false} SmallRunsAreAllowed(bs: nat, service: Service, ops: seq<Op>, file: seq<byte>)
    requires 0 < bs
    requires forall i | 0 <= i < |ops| ::
      var f := FlatRun(ops[..i], file);
      |f| < 0x8000_0000 &&
      match ops[i]
      case Write(buf, offset) =>
        && offset + |buf| < 0x8000_0000
        && (offset <= |f| || (service.PLAIN? && offset % bs == 0 && bs <= |buf|))
      case Read(size, offset) =>
        offset <= |f| && offset + size < 0x8000_0000 && (service.BY_INDEX? ==> offset + size <= |f|)
      case Truncate(size) => size < 0x8000_0000 && !service.BY_INDEX?
      case GetSize => true
    ensures AllowedRun(bs, service, ops, file)
    decreases |ops|
  {
    if ops != [] {
      var rest, next := ops[1..], FlatFile(ops[0], file);
      assert ops[..0] == [];
      forall i | 0 <= i < |rest|
        ensures rest[i] == ops[i + 1] && FlatRun(rest[..i], next) == FlatRun(ops[..i + 1], file)
      {
        assert ops[..i + 1][1..] == rest[..i];
      }
      SmallRequestIsAllowed(bs, service, ops[0], file);
      SmallRunsAreAllowed(bs, service, rest, next);
    }
  }

  lemma SmallRequestIsAllowed(bs: nat, service: Service, op: Op, file: seq<byte>)
    requires 0 < bs && |file| < 0x8000_0000
    requires match op
      case Write(buf, offset) =>
        && offset + |buf| < 0x8000_0000
        && (offset <= |file| || (service.PLAIN? && offset % bs == 0 && bs <= |buf|))
      case Read(size, offset) =>
        offset <= |file| && offset + size < 0x8000_0000 && (service.BY_INDEX? ==> offset + size <= |file|)
      case Truncate(size) => size < 0x8000_0000 && !service.BY_INDEX?
      case GetSize => true
    ensures Allowed(bs, service, op, file)
  {
    hide ReadInRange;
    match op
    case Read(size, offset) => SmallFilesAreInRange(service.ReadsParts(), bs, |file|, offset + size);
    case Truncate(size) => SmallFilesAreInRange(service.ReadsParts(), bs, |file|, size);
    case _ =>
  }

  /** What each driver serves: without encoding everything, with padding all but holes, with a cipher whole blocks. */
  lemma DriversServe(driver: EncodeDriver)
    ensures ServiceOf(driver).PLAIN? <==> driver.Nopcrypt?
    ensures ServiceOf(driver).ReadsParts() <==> driver.Nopcrypt? || driver.NopcryptPad?
    ensures !ServiceOf(driver).BY_INDEX?
  {
  }

  // ----- the stack

  method Perform(file: BlockAlign, op: Op) returns (answer: Answer)
    requires file.Valid() && Allowed(file.bs, file.lower.Offers(), op, file.Contents())
    modifies file.lower, file.lower.Repr
    ensures file.Valid()
    ensures file.Contents() == FlatFile(op, old(file.Contents()))
    ensures answer == FlatAnswer(op, old(file.Contents()))
  {
    hide NextLayer.Valid; hide NextLayer.HoleFits; hide Spliced; hide ReadInRange;
    match op
    case Write(buf, offset) =>
      var data := new byte[|buf|](i requires 0 <= i < |buf| => buf[i]);
      assert data[..|buf|] == buf;
      if |file.Contents()| < offset { file.lower.PlainHoleFits(offset); }
      var res := file.Write(data, |buf|, offset);
      answer := Answer(res, []);
    case Read(size, offset) =>
      var data := new byte[size];
      var res := file.Read(data, size, offset);
      answer := Answer(res, data[..res]);
    case Truncate(size) =>
      var res := file.Truncate(size);
      answer := Answer(res, []);
    case GetSize =>
      var size := file.lower.Fgetattr();
      answer := Answer(size, []);
  }

  /** Any run of allowed requests: the stack answers as the flat file does, and stays laid out. */
  method Execute(file: BlockAlign, ops: seq<Op>) returns (answers: seq<Answer>)
    requires file.Valid() && AllowedRun(file.bs, file.lower.Offers(), ops, file.Contents())
    modifies file.lower, file.lower.Repr
    ensures file.Valid()
    ensures file.Contents() == FlatRun(ops, old(file.Contents()))
    ensures answers == FlatAnswers(ops, old(file.Contents()))
  {
    answers := [];
    ghost var start := file.Contents();
    for i := 0 to |ops|
      invariant file.Valid()
      invariant AllowedRun(file.bs, file.lower.Offers(), ops[i..], file.Contents())
      invariant FlatRun(ops[i..], file.Contents()) == FlatRun(ops, start)
      invariant answers + FlatAnswers(ops[i..], file.Contents()) == FlatAnswers(ops, start)
    {
      assert ops[i..][1..] == ops[i + 1..];
      var answer := Perform(file, ops[i]);
      answers := answers + [answer];
    }
  }

  /**
    End to end: a new file on any number of devices, in replication or XOR mode, under any encoding driver and any
    block size. Every run answers as one flat file would, and leaves devices that store that file's contents.
  */
  method RunOnNewFile(mode: Mode, ndevs: nat, driver: EncodeDriver, bs: nat, ops: seq<Op>)
    returns (answers: seq<Answer>, devs: seq<seq<byte>>)
    requires 0 < ndevs && 0 < bs < INT_LIMIT && driver.Valid()
    requires AllowedRun(bs, ServiceOf(driver), ops, [])
    ensures answers == FlatAnswers(ops, [])
    ensures |devs| == ndevs && Shared(mode, devs)
    ensures Stored(driver, bs, FlatRun(ops, []), Decoded(mode, devs))
  {
    hide AllowedRun; hide FlatRun; hide FlatAnswers; hide Stored; hide Torn; hide Shared;
    var loopback := new MultiLoopback(mode, ndevs);
    var devices := new DeviceFile.OfDevices(loopback);
    var sfuse := new Sfuse(driver, bs, devices);
    var next := new NextLayer.OfSfuse(sfuse);
    var file := new BlockAlign(bs, next);
    answers := Execute(file, ops);
    devs := loopback.devs;
  }

  /**
    Without randomness the devices are a function of the contents: two histories that end in the same contents
    leave identical replicas, if a full block fills its slot.
  */
  method TwoHistories(ndevs: nat, driver: EncodeDriver, bs: nat, ops: seq<Op>, ops': seq<Op>)
    returns (devs: seq<seq<byte>>, devs': seq<seq<byte>>)
    requires 0 < ndevs && 0 < bs < INT_LIMIT && driver.Valid() && driver.IsDeterministic() && driver.FillsSlot(bs)
    requires AllowedRun(bs, ServiceOf(driver), ops, []) && AllowedRun(bs, ServiceOf(driver), ops', [])
    ensures FlatRun(ops, []) == FlatRun(ops', []) ==> devs == devs'
  {
    var answers, answers';
    answers, devs := RunOnNewFile(REP, ndevs, driver, bs, ops);
    answers', devs' := RunOnNewFile(REP, ndevs, driver, bs, ops');
    CanonicalExactly(driver, bs);
  }

  // ----- the stack over an erasure code

  /**
    Block alignment over the multi-device layer in erasure mode, on a new file among others: every run of writes,
    and of reads inside the file, answers as one flat file would; afterwards index and fragments hold that file, and
    the other files as they were.
  */
  method RunOnErasureCode(
      erasure: ErasureLoopback, bs: nat, path: string, left: seq<seq<byte>>, ghost files: Files, ops: seq<Op>)
    returns (answers: seq<Answer>)
    requires 0 < bs < INT_LIMIT && erasure.Valid() && Inv(erasure.code, bs, erasure.State(), files)
    requires |left| == erasure.code.devices && AllowedRun(bs, BY_INDEX, ops, [])
    modifies erasure, erasure.driver, erasure.driver.offsetMap, erasure.driver.fileIds, erasure.driver.fileSizes
    ensures answers == FlatAnswers(ops, [])
    ensures erasure.Valid() && Inv(erasure.code, bs, erasure.State(), files[path := FlatRun(ops, [])])
  {
    hide AllowedRun; hide FlatRun; hide FlatAnswers; hide Inv; hide ErasureLoopback.Valid;
    var devices := CreateOnErasureCode(erasure, bs, path, left, files);
    var next := new NextLayer.OfDevices(bs, devices);
    var file := new BlockAlign(bs, next);
    answers := Execute(file, ops);
    assert files[path := []][path := devices.contents] == files[path := devices.contents];
  }

  /**
    The same with an encoding driver in between, if its full blocks fill their slots: to the index the slots are the
    blocks, and what it holds afterwards stores the flat file.
  */
  method RunEncodedOnErasureCode(
      erasure: ErasureLoopback, driver: EncodeDriver, bs: nat, path: string, left: seq<seq<byte>>,
      ghost files: Files, ops: seq<Op>)
    returns (answers: seq<Answer>, ghost phys: seq<byte>)
    requires 0 < bs < INT_LIMIT && driver.Valid() && driver.FillsSlot(bs)
    requires erasure.Valid() && Inv(erasure.code, driver.Slot(bs), erasure.State(), files)
    requires |left| == erasure.code.devices && AllowedRun(bs, BY_INDEX, ops, [])
    modifies erasure, erasure.driver, erasure.driver.offsetMap, erasure.driver.fileIds, erasure.driver.fileSizes
    ensures answers == FlatAnswers(ops, [])
    ensures Stored(driver, bs, FlatRun(ops, []), phys)
    ensures erasure.Valid() && Inv(erasure.code, driver.Slot(bs), erasure.State(), files[path := phys])
  {
    hide AllowedRun; hide FlatRun; hide FlatAnswers; hide Inv; hide ErasureLoopback.Valid; hide Stored; hide Torn;
    var devices := CreateOnErasureCode(erasure, driver.Slot(bs), path, left, files);
    var sfuse := new Sfuse(driver, bs, devices);
    var next := new NextLayer.OfSfuse(sfuse);
    var file := new BlockAlign(bs, next);
    answers := Execute(file, ops);
    phys := devices.contents;
    assert files[path := []][path := phys] == files[path := phys];
  }

  method CreateOnErasureCode(
      erasure: ErasureLoopback, width: nat, path: string, left: seq<seq<byte>>, ghost files: Files)
    returns (devices: DeviceFile)
    requires 0 < width && erasure.Valid() && Inv(erasure.code, width, erasure.State(), files)
    requires |left| == erasure.code.devices
    modifies erasure, erasure.driver, erasure.driver.offsetMap, erasure.driver.fileIds, erasure.driver.fileSizes
    ensures fresh(devices) && devices.Valid() && devices.contents == []
    ensures devices.erasure == erasure && devices.width == width
    ensures devices.path == path && devices.others == files[path := []]
  {
    hide FileOk; hide IdsOk; hide ErasureKeys.Represents;
    NextKeepsInv(erasure.code, width, erasure.State(), files, Event.Create(path, left));
    var res := erasure.Create(path, left);
    devices := new DeviceFile.OfFragments(width, erasure, path, files[path := []]);
  }

  /**
    If they do not, the second block of every new file is lost: its write follows an entry that the write of the first
    block leaves exactly when its encoding fills the slot.
  */
  lemma SecondBlockExactly(
      code: ErasureCode, c: EncodeDriver, bs: nat, s: Store, files: Files, path: string, y: seq<byte>, y': seq<byte>)
    requires 0 < bs && code.Valid() && Inv(code, c.Slot(bs), s, files) && path in files && files[path] == []
    requires |y| == c.CypheredBlockSize(bs)
    ensures Possible(code, s, WriteBlock(path, 0, y))
    ensures Possible(code, Next(code, s, WriteBlock(path, 0, y)), WriteBlock(path, c.CypheredBlockOffset(bs, bs), y'))
            <==> c.FillsSlot(bs)
  {
    assert FileOk(code, c.Slot(bs), s, path, files[path]);
    FullBlockFillsSlot(c, bs);
    SizesFit(c, bs, bs, bs);
    OffsetOfBlock(c, bs, 1);
    assert Start(1, bs) == bs && Start(1, c.Slot(bs)) == c.Slot(bs);
    assert Wo(s.ix.lastId + 1, c.Slot(bs)).id == s.ix.lastId + 1;
  }

  // ----- the multi-device layer alone

  method PerformOnDevices(file: MultiLoopback, op: Op) returns (answer: Answer)
    requires file.Valid()
    modifies file
    ensures file.Valid()
    ensures file.Contents() == FlatFile(op, old(file.Contents()))
    ensures answer == FlatAnswer(op, old(file.Contents()))
  {
    match op
    case Write(buf, offset) =>
      var random := RandomBlocks(file.ndevs - 1, |buf|);
      var res := file.Write(buf, offset, random);
      answer := Answer(res, []);
    case Read(size, offset) =>
      var data := new byte[size];
      var res := file.Read(data, size, offset);
      answer := Answer(res, data[..res]);
    case Truncate(size) =>
      var res := file.Ftruncate(size);
      answer := Answer(res, []);
    case GetSize =>
      var size := file.Fgetattr();
      answer := Answer(size, []);
  }

  /**
    Without the layers above, the devices are one flat file for every run at all: any offsets, overlapping or behind
    the end, and any truncates. In XOR mode this is the sharing invariant, for every random choice.
  */
  method RunOnNewDevices(mode: Mode, ndevs: nat, ops: seq<Op>)
    returns (answers: seq<Answer>, devs: seq<seq<byte>>)
    requires 0 < ndevs
    ensures answers == FlatAnswers(ops, [])
    ensures |devs| == ndevs && Shared(mode, devs) && Decoded(mode, devs) == FlatRun(ops, [])
  {
    var file := new MultiLoopback(mode, ndevs);
    answers := [];
    for i := 0 to |ops|
      invariant fresh(file) && file.Valid() && file.ndevs == ndevs && file.mode == mode
      invariant FlatRun(ops[i..], file.Contents()) == FlatRun(ops, [])
      invariant answers + FlatAnswers(ops[i..], file.Contents()) == FlatAnswers(ops, [])
    {
      assert ops[i..][1..] == ops[i + 1..];
      var answer := PerformOnDevices(file, ops[i]);
      answers := answers + [answer];
    }
    devs := file.devs;
  }
}
