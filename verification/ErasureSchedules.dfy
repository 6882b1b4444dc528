/** Erasure mode under the real scheduler, and what its results tell when devices fail. */
module ErasureSchedules {
  import opened Bytes
  import opened Device
  import opened FanOut
  import Blocks
  import Layout
  import ErasureIndex
  import Store = ErasureStore

  /**
    However the workers are scheduled, a write of fragments returns the size, whatever fails; and a device has its
    fragment written exactly if its call did not fail.
  */
  lemma AnyScheduleWritesFragments(job: Job, steps: seq<Step>, s: State, size: nat, address: nat)
    requires job.Valid() && Reaches(job, Init(job), steps, s) && Stuck(job, s)
    requires forall i | 0 <= i < |job.rs| ::
      job.rs[i].WriteFragmentOp? && job.rs[i].size == size && job.rs[i].address == address
    ensures s.caller == Returned(size) && |s.devs| == |job.devs|
    ensures forall i | 0 <= i < |job.rs| ::
      s.devs[i] == if job.rs[i].fault then job.devs[i] else Pwrite(job.devs[i], address, job.rs[i].buf)
  {
    ScheduleIndependence(job, steps, s);
    FragmentWritesReport(job.rs, job.devs, size);
  }

  /**
    A read of fragments returns -1 exactly when a device fails, or one returns bytes and another none; else the size,
    or 0 if there are none, however few bytes there are.
  */
  lemma AnyScheduleReadsFragments(job: Job, steps: seq<Step>, s: State, size: nat, address: nat, length: nat)
    requires job.Valid() && Reaches(job, Init(job), steps, s) && Stuck(job, s)
    requires forall i | 0 <= i < |job.rs| :: job.rs[i] == ReadFragmentOp(size, address, length, job.rs[i].fault)
    ensures s.devs == job.devs
    ensures s.caller == Returned(
                          if || (exists i | 0 <= i < |job.rs| :: job.rs[i].fault)
                             || (0 < size && exists i, j | 0 <= i < |job.rs| && 0 <= j < |job.rs| ::
                                  && Pread(job.devs[i], address, length) == []
                                  && Pread(job.devs[j], address, length) != [])
                          then -1
                          else if Pread(job.devs[0], address, length) == [] then 0
                          else size)
    ensures Shape(job, s) && forall i | 0 <= i < |job.rs| && !job.rs[i].fault ::
      s.outs[i].Some? && s.outs[i].value.data == Pread(job.devs[i], address, length)
  {
    ScheduleIndependence(job, steps, s);
    FragmentReadsReport(job.rs, job.devs, size, address, length);
  }

  /**
    A write of a block, under every schedule: it returns its size, and leaves index and fragments in agreement exactly
    when every device that failed happens to have had its fragment.
  */
  lemma AnyScheduleWritesBlock(
      job: Job, steps: seq<Step>, s: State, code: Store.ErasureCode, bs: nat, store: Store.Store, files: Store.Files,
      path: string, offset: nat, buf: seq<byte>, faults: seq<bool>)
    requires job.Valid() && Reaches(job, Init(job), steps, s) && Stuck(job, s)
    requires 0 < bs && code.Valid() && Store.Inv(code, bs, store, files) && |faults| == |job.rs| == code.devices
    requires Store.Legal(code.devices, bs, files, Store.WriteBlock(path, offset, buf))
    requires Store.Possible(code, store, Store.WriteBlock(path, offset, buf)) && job.devs == store.devs[path]
    requires var address := ErasureIndex.Address(store.ix, path, offset);
      forall i | 0 <= i < |job.rs| ::
        job.rs[i] == WriteFragmentOp(|buf|, address, code.encode(buf)[i], faults[i])
    ensures s.caller == Returned(|buf|)
    ensures var left := Store.NextFailing(code, store, path, offset, buf, faults);
      && left.devs == store.devs[path := s.devs]
      && (Store.Inv(code, bs, left, Store.NextFiles(files, Store.WriteBlock(path, offset, buf))) <==>
          forall i | 0 <= i < code.devices && faults[i] :: Store.HasFragment(code, store, path, offset, buf, i))
  {
    hide Store.Inv; hide Store.HasFragment;
    var address := ErasureIndex.Address(store.ix, path, offset);
    AnyScheduleWritesFragments(job, steps, s, |buf|, address);
    Store.FailedWriteExactly(code, bs, store, files, path, offset, buf, faults);
    assert s.devs == Store.LandFragments(code, job.devs, address, buf, faults);
  }

  /** A read of a block, under every schedule: -1 exactly when a device fails, else the size, and the block. */
  lemma AnyScheduleReadsBlock(
      job: Job, steps: seq<Step>, s: State, code: Store.ErasureCode, bs: nat, store: Store.Store, files: Store.Files,
      path: string, k: nat, size: nat)
    requires job.Valid() && Reaches(job, Init(job), steps, s) && Stuck(job, s)
    requires 0 < bs && code.Valid() && Store.Inv(code, bs, store, files)
    requires path in files && Blocks.Start(k, bs) < |files[path]|
    requires |job.rs| == code.devices && path in store.devs && job.devs == store.devs[path]
    requires var length := code.fragmentLength(|Layout.BlockAt(bs, files[path], k)|);
      forall i | 0 <= i < |job.rs| ::
        job.rs[i] ==
        ReadFragmentOp(size, Blocks.Start(k, code.fragmentLength(bs)), length, job.rs[i].fault)
    ensures s.devs == job.devs
    ensures s.caller == Returned(if exists i | 0 <= i < |job.rs| :: job.rs[i].fault then -1 else size)
    ensures (forall i | 0 <= i < |job.rs| :: !job.rs[i].fault) ==>
            && (forall i | 0 <= i < |s.outs| :: s.outs[i].Some?)
            && code.decode(seq(|s.outs|, i requires 0 <= i < |s.outs| => s.outs[i].value.data)) ==
               Layout.BlockAt(bs, files[path], k)
  {
    hide Store.Inv; hide Store.ErasureCode.Valid;
    var b := Layout.BlockAt(bs, files[path], k);
    var address, length := Blocks.Start(k, code.fragmentLength(bs)), code.fragmentLength(|b|);
    Store.FragmentsThere(code, bs, store, files, path, k);
    AnyScheduleReadsFragments(job, steps, s, size, address, length);
    if forall i | 0 <= i < |job.rs| :: !job.rs[i].fault {
      assert seq(|s.outs|, i requires 0 <= i < |s.outs| => s.outs[i].value.data) == code.encode(b);
    }
  }

  /** One of three devices has half its fragment: the read reports the whole size, under every schedule. */
  lemma ShortFragmentUnseen(job: Job, steps: seq<Step>, s: State, size: nat)
    requires job.Valid() && Reaches(job, Init(job), steps, s) && Stuck(job, s)
    requires job.devs == [[1, 2], [1, 2], [1]] && 0 < size
    requires forall i | 0 <= i < 3 :: job.rs[i] == ReadFragmentOp(size, 0, 2, false)
    ensures s.caller == Returned(size)
    ensures |s.outs| == 3 && s.outs[2].Some? && s.outs[2].value.data == [1]
  {
    AnyScheduleReadsFragments(job, steps, s, size, 0, 2);
  }
}
