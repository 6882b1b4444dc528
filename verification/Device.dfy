/** One storage device: the calls a worker thread makes on the device's copy of a file. */
module Device {
  import opened Bytes

  /**
    A request of `struct op_info`; `fault` says that the device call fails. In erasure mode a transfer of `size` bytes
    moves a fragment, at its own address.
  */
  datatype Request =
    | ReadOp(size: nat, offset: nat, fault: bool)
    | WriteOp(buf: seq<byte>, offset: nat, fault: bool)
    | FtruncateOp(length: nat, fault: bool)
    | ReadFragmentOp(size: nat, address: nat, length: nat, fault: bool)
    | WriteFragmentOp(size: nat, address: nat, buf: seq<byte>, fault: bool)
  {
    predicate Transfers() {
      !FtruncateOp?
    }

    /** `op_res` is what the device call returned; with fragments it is made up from the size. */
    predicate ReportsItsCall() {
      !ReadFragmentOp? && !WriteFragmentOp?
    }
  }

  /** What the call leaves: the file, `op_res`, and the bytes put in the request's buffer. */
  datatype Outcome = Outcome(file: seq<byte>, res: int, data: seq<byte>)

  function Call(r: Request, file: seq<byte>): Outcome {
    match r
    case WriteFragmentOp(size, address, buf, fault) =>
      Outcome(if fault then file else Pwrite(file, address, buf), size, [])
    case _ =>
      if r.fault then Outcome(file, -1, [])
      else
        match r
        case ReadOp(size, offset, _) => var data := Pread(file, offset, size); Outcome(file, |data|, data)
        case WriteOp(buf, offset, _) => Outcome(Pwrite(file, offset, buf), |buf|, [])
        case FtruncateOp(length, _) => Outcome(Ftruncate(file, length), 0, [])
        case ReadFragmentOp(size, address, length, _) =>
          var data := Pread(file, address, length);
          Outcome(file, if |data| > 0 then size else 0, data)
  }

  /** A failing call is recorded as -1, unless it writes a fragment; nothing else is. */
  lemma FailureRecorded(r: Request, file: seq<byte>)
    ensures Call(r, file).res == -1 <==> r.fault && !r.WriteFragmentOp?
    ensures r.fault ==> Call(r, file).file == file
  {
  }

  /** The calls of one fan-out, each on its own device. */
  function CallAll(rs: seq<Request>, devs: seq<seq<byte>>): (outs: seq<Outcome>)
    requires |rs| == |devs|
    ensures |outs| == |rs|
  {
    seq(|rs|, i requires 0 <= i < |rs| => Call(rs[i], devs[i]))
  }

  /** The files of one fan-out. */
  function FilesLeft(outs: seq<Outcome>): (devs: seq<seq<byte>>)
    ensures |devs| == |outs|
  {
    seq(|outs|, i requires 0 <= i < |outs| => outs[i].file)
  }

  /** One fan-out, in the order of the devices; `FanOut.ScheduleIndependence` says that the order is immaterial. */
  method Dispatch(rs: seq<Request>, devs: seq<seq<byte>>) returns (outs: seq<Outcome>)
    requires |rs| == |devs|
    ensures outs == CallAll(rs, devs)
  {
    outs := [];
    for i := 0 to |rs|
      invariant outs == CallAll(rs, devs)[..i]
    {
      outs := outs + [Call(rs[i], devs[i])];
    }
  }

  /** The result `wait_for_all_requests` computes, over the devices from `i` on. */
  function AggregateFrom(transfers: bool, outs: seq<Outcome>, i: nat): int
    requires 0 < |outs| && i <= |outs|
    decreases |outs| - i
  {
    if i == |outs| then outs[0].res
    else if outs[i].res == -1 then -1
    else if transfers && outs[i].res != outs[0].res then -1
    else AggregateFrom(transfers, outs, i + 1)
  }

  function Aggregate(transfers: bool, outs: seq<Outcome>): int
    requires 0 < |outs|
  {
    AggregateFrom(transfers, outs, 0)
  }

  /** Failure exactly when a device failed or, for transfers, two devices disagree; the common result otherwise. */
  lemma AggregateExactly(transfers: bool, outs: seq<Outcome>)
    requires 0 < |outs|
    ensures Aggregate(transfers, outs) == -1 <==>
            || (exists i | 0 <= i < |outs| :: outs[i].res == -1)
            || (transfers && exists i, j | 0 <= i < |outs| && 0 <= j < |outs| :: outs[i].res != outs[j].res)
    ensures Aggregate(transfers, outs) != -1 ==> Aggregate(transfers, outs) == outs[0].res
    ensures transfers && Aggregate(transfers, outs) != -1 ==>
            forall i | 0 <= i < |outs| :: outs[i].res == Aggregate(transfers, outs)
  {
    AggregateRest(transfers, outs, 0);
  }

  lemma {:induction false} AggregateRest(transfers: bool, outs: seq<Outcome>, i: nat)
    requires 0 < |outs| && i <= |outs|
    ensures AggregateFrom(transfers, outs, i) == -1 <==>
            || outs[0].res == -1
            || exists j | i <= j < |outs| :: outs[j].res == -1 || (transfers && outs[j].res != outs[0].res)
    ensures AggregateFrom(transfers, outs, i) in {-1, outs[0].res}
    decreases |outs| - i
  {
    if i < |outs| { AggregateRest(transfers, outs, i + 1); }
  }

  /** The loop of `wait_for_all_requests` over the recorded results. */
  method CollectResults(rs: seq<Request>, outs: seq<Outcome>) returns (res: int)
    requires 0 < |rs| == |outs|
    requires forall i | 0 <= i < |rs| :: rs[i].Transfers() == rs[0].Transfers()
    ensures res == Aggregate(rs[0].Transfers(), outs)
  {
    res := 0;
    for i := 0 to |rs|
      invariant Aggregate(rs[0].Transfers(), outs) == AggregateFrom(rs[0].Transfers(), outs, i)
      invariant i > 0 ==> res == outs[0].res
    {
      if outs[i].res == -1 {
        return -1;
      }
      if i > 0 && rs[i].Transfers() {
        if res != outs[i].res {
          return -1;
        }
      }
      if i == 0 {
        res := outs[i].res;
      }
    }
  }

  // ----- what the results tell of fragments

  /** Writing fragments is reported as done, whatever the devices did. */
  lemma FragmentWritesReport(rs: seq<Request>, devs: seq<seq<byte>>, size: nat)
    requires 0 < |rs| == |devs|
    requires forall i | 0 <= i < |rs| :: rs[i].WriteFragmentOp? && rs[i].size == size
    ensures Aggregate(true, CallAll(rs, devs)) == size
  {
    AggregateExactly(true, CallAll(rs, devs));
  }

  /** A device failed, or some returned bytes and others none. */
  predicate FragmentReadFails(rs: seq<Request>, devs: seq<seq<byte>>, size: nat, address: nat, length: nat)
    requires |rs| == |devs|
  {
    || (exists i | 0 <= i < |rs| :: rs[i].fault)
    || (0 < size && exists i, j | 0 <= i < |rs| && 0 <= j < |rs| ::
          Pread(devs[i], address, length) == [] && Pread(devs[j], address, length) != [])
  }

  /** Reading fragments is reported as the size asked for, or nothing; that a fragment is short is not seen. */
  lemma FragmentReadsReport(rs: seq<Request>, devs: seq<seq<byte>>, size: nat, address: nat, length: nat)
    requires 0 < |rs| == |devs|
    requires forall i | 0 <= i < |rs| :: rs[i] == ReadFragmentOp(size, address, length, rs[i].fault)
    ensures Aggregate(true, CallAll(rs, devs)) ==
            if FragmentReadFails(rs, devs, size, address, length) then -1
            else if Pread(devs[0], address, length) == [] then 0
            else size
  {
    var outs := CallAll(rs, devs);
    AggregateExactly(true, outs);
    forall i | 0 <= i < |rs|
      ensures outs[i].res == if rs[i].fault then -1 else if Pread(devs[i], address, length) == [] then 0 else size
    {
    }
  }
}
