/** The multi-device layer under the real scheduler: what `Loopback` does in order, every interleaving does. */
module Schedules {
  import opened Bytes
  import opened Device
  import opened Xor
  import opened Loopback
  import opened FanOut

  /** One finished fan-out, seen by the layer: devices and result of the ordered loop. */
  lemma FinishedFanOut(job: Job, steps: seq<Step>, s: State, res: int)
    requires job.Valid() && Reaches(job, Init(job), steps, s) && Stuck(job, s)
    requires Uniform(job.Expected(), res) && res != -1
    ensures s.caller == Returned(res) && s.devs == FilesLeft(job.Expected())
  {
    ScheduleIndependence(job, steps, s);
    AggregateUniform(job.rs[0].Transfers(), job.Expected(), res);
  }

  /** However the workers are scheduled, a write changes what the devices stand for as `pwrite` would. */
  lemma AnyScheduleWrites(
      mode: Mode, job: Job, steps: seq<Step>, s: State, shares: seq<seq<byte>>, buf: seq<byte>, offset: nat)
    requires job.Valid() && Reaches(job, Init(job), steps, s) && Stuck(job, s)
    requires Shared(mode, job.devs) && |shares| == |job.rs| && SharesOf(mode, shares, buf)
    requires forall i | 0 <= i < |job.rs| :: job.rs[i] == WriteOp(shares[i], offset, false)
    ensures s.caller == Returned(|buf|) && Shared(mode, s.devs)
    ensures Decoded(mode, s.devs) == Pwrite(Decoded(mode, job.devs), offset, buf)
  {
    WriteAll(mode, job.devs, job.rs, shares, buf, offset);
    FinishedFanOut(job, steps, s, |buf|);
  }

  lemma AnyScheduleTruncates(mode: Mode, job: Job, steps: seq<Step>, s: State, length: nat)
    requires job.Valid() && Reaches(job, Init(job), steps, s) && Stuck(job, s)
    requires Shared(mode, job.devs)
    requires forall i | 0 <= i < |job.rs| :: job.rs[i] == FtruncateOp(length, false)
    ensures s.caller == Returned(0) && Shared(mode, s.devs)
    ensures Decoded(mode, s.devs) == Ftruncate(Decoded(mode, job.devs), length)
  {
    FtruncateAll(mode, job.devs, job.rs, length);
    FinishedFanOut(job, steps, s, 0);
  }

  /** The buffers the workers fill decode to the range that was read. */
  lemma AnyScheduleReads(
      mode: Mode, job: Job, steps: seq<Step>, s: State, buffers: seq<seq<byte>>, offset: nat, size: nat)
    requires job.Valid() && Reaches(job, Init(job), steps, s) && Stuck(job, s)
    requires Shared(mode, job.devs) && |buffers| == |job.rs| && Even(buffers, size)
    requires forall i | 0 <= i < |job.rs| :: job.rs[i] == ReadOp(size, offset, false)
    requires forall i | 0 <= i < |job.rs| :: job.Expected()[i].data <= buffers[i]
    ensures var got := Pread(Decoded(mode, job.devs), offset, size);
      && s.caller == Returned(|got|) && s.devs == job.devs
      && got <= match mode case REP => buffers[0] case XOR => XorOf(buffers, size)
  {
    ReadAll(mode, job.devs, job.rs, buffers, offset, size);
    FinishedFanOut(job, steps, s, |Pread(Decoded(mode, job.devs), offset, size)|);
  }

  /**
    A transfer returns -1 under every schedule exactly when a recorded result is -1 or two of them differ. In
    replication and XOR mode, where the device calls' own results are recorded, that is when a device fails or two
    devices disagree; for erasure mode see `ErasureSchedules`.
  */
  lemma AnyScheduleReportsFailure(job: Job, steps: seq<Step>, s: State)
    requires job.Valid() && Reaches(job, Init(job), steps, s) && Stuck(job, s) && job.rs[0].Transfers()
    ensures s.caller == Returned(-1) <==>
            exists i, j | 0 <= i < |job.rs| && 0 <= j < |job.rs| ::
              job.Expected()[i].res == -1 || job.Expected()[i].res != job.Expected()[j].res
    ensures (forall i | 0 <= i < |job.rs| :: job.rs[i].ReportsItsCall()) ==>
            (s.caller == Returned(-1) <==>
             || (exists i | 0 <= i < |job.rs| :: job.rs[i].fault)
             || (exists i, j | 0 <= i < |job.rs| && 0 <= j < |job.rs| ::
                  job.Expected()[i].res != job.Expected()[j].res))
  {
    ScheduleIndependence(job, steps, s);
    AggregateExactly(true, job.Expected());
    RecordedFaults(job);
  }

  /**
    In replication and XOR mode, under every schedule, a device whose call failed keeps its file, and one whose call
    did not fail has it written, truncated or as it was.
  */
  lemma AnyScheduleCalls(job: Job, steps: seq<Step>, s: State)
    requires job.Valid() && Reaches(job, Init(job), steps, s) && Stuck(job, s)
    requires forall i | 0 <= i < |job.rs| :: job.rs[i].ReadOp? || job.rs[i].WriteOp? || job.rs[i].FtruncateOp?
    ensures |s.devs| == |job.devs|
    ensures forall i | 0 <= i < |job.rs| ::
      s.devs[i] ==
      if job.rs[i].fault then job.devs[i]
      else match job.rs[i]
        case WriteOp(buf, offset, _) => Pwrite(job.devs[i], offset, buf)
        case FtruncateOp(length, _) => Ftruncate(job.devs[i], length)
        case _ => job.devs[i]
  {
    ScheduleIndependence(job, steps, s);
  }

  /** A truncate returns -1 exactly when a device fails, and 0 otherwise. */
  lemma AnyScheduleTruncateReports(job: Job, steps: seq<Step>, s: State)
    requires job.Valid() && Reaches(job, Init(job), steps, s) && Stuck(job, s)
    requires forall i | 0 <= i < |job.rs| :: job.rs[i].FtruncateOp?
    ensures s.caller == Returned(if exists i | 0 <= i < |job.rs| :: job.rs[i].fault then -1 else 0)
  {
    ScheduleIndependence(job, steps, s);
    AggregateExactly(false, job.Expected());
    RecordedFaults(job);
  }

  /** A write returns -1 exactly when a device fails or two shares differ in length, and the length otherwise. */
  lemma AnyScheduleWriteReports(job: Job, steps: seq<Step>, s: State)
    requires job.Valid() && Reaches(job, Init(job), steps, s) && Stuck(job, s)
    requires forall i | 0 <= i < |job.rs| :: job.rs[i].WriteOp?
    ensures s.caller == Returned(
                          if || (exists i | 0 <= i < |job.rs| :: job.rs[i].fault)
                             || (exists i, j | 0 <= i < |job.rs| && 0 <= j < |job.rs| ::
                                  |job.rs[i].buf| != |job.rs[j].buf|)
                          then -1 else |job.rs[0].buf|)
  {
    ScheduleIndependence(job, steps, s);
    AggregateExactly(true, job.Expected());
    RecordedFaults(job);
    forall i | 0 <= i < |job.rs| && !job.rs[i].fault ensures job.Expected()[i].res == |job.rs[i].buf| {
    }
  }

  /** A read returns -1 exactly when a device fails or two have different numbers of bytes there. */
  lemma AnyScheduleReadReports(job: Job, steps: seq<Step>, s: State, size: nat, offset: nat)
    requires job.Valid() && Reaches(job, Init(job), steps, s) && Stuck(job, s)
    requires forall i | 0 <= i < |job.rs| :: job.rs[i] == ReadOp(size, offset, job.rs[i].fault)
    ensures s.caller == Returned(
                          if || (exists i | 0 <= i < |job.rs| :: job.rs[i].fault)
                             || (exists i, j | 0 <= i < |job.rs| && 0 <= j < |job.rs| ::
                                  |Pread(job.devs[i], offset, size)| != |Pread(job.devs[j], offset, size)|)
                          then -1 else |Pread(job.devs[0], offset, size)|)
    ensures |s.outs| == |job.rs|
    ensures forall i | 0 <= i < |job.rs| && !job.rs[i].fault ::
      s.outs[i].Some? && s.outs[i].value.data == Pread(job.devs[i], offset, size)
  {
    ScheduleIndependence(job, steps, s);
    AggregateExactly(true, job.Expected());
    RecordedFaults(job);
    forall i | 0 <= i < |job.rs| && !job.rs[i].fault
      ensures job.Expected()[i].res == |Pread(job.devs[i], offset, size)|
    {
    }
  }

  lemma RecordedFaults(job: Job)
    requires job.Valid()
    ensures forall i | 0 <= i < |job.rs| ::
      job.Expected()[i].res == -1 <==> job.rs[i].fault && !job.rs[i].WriteFragmentOp?
  {
    forall i | 0 <= i < |job.rs|
      ensures job.Expected()[i].res == -1 <==> job.rs[i].fault && !job.rs[i].WriteFragmentOp?
    {
      FailureRecorded(job.rs[i], job.devs[i]);
    }
  }
}
