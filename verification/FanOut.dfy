/**
  The fan-out protocol of multi_loopback.c: the caller sends one request per device to a shared thread pool and
  waits, on a mutex, a condition variable and a counter, until all are done; then it collects the results.

  A state is what the caller and the workers share plus where each of them is; a step is one of their actions.
*/
module FanOut {
  import opened Wrappers
  import opened Bytes
  import opened Device

  datatype Worker =
    | Unsent     // not yet pushed to the pool
    | Queued     // pushed, waiting for a thread
    | Running    // started by a thread, device not yet called
    | Called     // device called, result recorded
    | Locked     // holding the mutex
    | Counted    // mutex held, counter incremented
    | Signalled  // mutex held, condition signalled
    | Finished   // mutex released
  {
    /** How many steps the worker has left. */
    function Remaining(): nat {
      match this
      case Unsent => 7
      case Queued => 6
      case Running => 5
      case Called => 4
      case Locked => 3
      case Counted => 2
      case Signalled => 1
      case Finished => 0
    }

    /** Occupies a thread of the pool. */
    predicate Active() {
      Running? || Called? || Locked? || Counted? || Signalled?
    }

    predicate HoldsMutex() {
      Locked? || Counted? || Signalled?
    }

    predicate PastCall() {
      Called? || HoldsMutex() || Finished?
    }

    predicate PastCount() {
      Counted? || Signalled? || Finished?
    }
  }

  datatype Caller =
    | Sending(next: nat)     // pushing requests; `next` is the first one not pushed
    | Checking               // holding the mutex, about to test the counter
    | Sleeping               // in the condition wait, mutex released
    | Waking                 // woken, about to take the mutex back
    | Collecting             // past the wait, mutex released
    | Returned(res: int)     // results collected; request records, mutex and buffers are gone
  {
    function Rank(): nat {
      match this
      case Sending(_) => 5
      case Checking => 4
      case Sleeping => 3
      case Waking => 5
      case Collecting => 1
      case Returned(_) => 0
    }

    predicate PastWait() {
      Collecting? || Returned?
    }
  }

  datatype Owner = Free | ByCaller | ByWorker(i: nat)

  /** What does not change during one fan-out. */
  datatype Job = Job(rs: seq<Request>, devs: seq<seq<byte>>, threads: nat) {
    ghost predicate Valid() {
      && 0 < |rs| == |devs|
      && 0 < threads
      && forall i | 0 <= i < |rs| :: rs[i].Transfers() == rs[0].Transfers()
    }

    /** What the sequential loop over the devices does. */
    function Expected(): seq<Outcome>
      requires |rs| == |devs|
    {
      CallAll(rs, devs)
    }
  }

  datatype State = State(
    caller: Caller,
    workers: seq<Worker>,
    mutex: Owner,
    opsDone: nat,
    devs: seq<seq<byte>>,
    outs: seq<Option<Outcome>>)

  datatype Step =
    | Send | Acquire | Sleep | SpuriousWake | Leave | Return
    | Start(i: nat) | CallDevice(i: nat) | Lock(i: nat) | Count(i: nat) | Signal(i: nat) | Unlock(i: nat)
  {
    predicate ByAWorker() {
      Start? || CallDevice? || Lock? || Count? || Signal? || Unlock?
    }
  }

  function Init(job: Job): State {
    var n := |job.rs|;
    State(Sending(0), seq(n, _ => Unsent), Free, 0, job.devs, seq(n, _ => None))
  }

  /** The sum over the workers of one of three weights. */
  datatype Weight = Work | Busy | Done {
    function Of(w: Worker): nat {
      match this
      case Work => w.Remaining()
      case Busy => if w.Active() then 1 else 0
      case Done => if w.PastCount() then 1 else 0
    }
  }

  function Total(weight: Weight, ws: seq<Worker>): nat {
    if ws == [] then 0 else Total(weight, ws[..|ws| - 1]) + weight.Of(ws[|ws| - 1])
  }

  predicate Enabled(job: Job, s: State, step: Step) {
    var n := |job.rs|;
    && |s.workers| == |s.devs| == |s.outs| == |job.devs| == n
    && match step
       case Send => s.caller.Sending? && s.caller.next < n
       case Acquire => s.mutex == Free && (s.caller == Sending(n) || s.caller.Waking?)
       case Sleep => s.caller.Checking? && s.opsDone < n
       case SpuriousWake => s.caller.Sleeping?
       case Leave => s.caller.Checking? && n <= s.opsDone
       case Return => s.caller.Collecting? && 0 < n && forall i | 0 <= i < n :: s.outs[i].Some?
       case Start(i) => i < n && s.workers[i].Queued? && Total(Busy, s.workers) < job.threads
       case CallDevice(i) => i < n && s.workers[i].Running?
       case Lock(i) => i < n && s.workers[i].Called? && s.mutex == Free
       case Count(i) => i < n && s.workers[i].Locked?
       case Signal(i) => i < n && s.workers[i].Counted?
       case Unlock(i) => i < n && s.workers[i].Signalled?
  }

  function Move(s: State, i: nat, w: Worker): State
    requires i < |s.workers|
  {
    s.(workers := s.workers[i := w])
  }

  function Recorded(s: State): (outs: seq<Outcome>)
    requires forall i | 0 <= i < |s.outs| :: s.outs[i].Some?
    ensures |outs| == |s.outs|
  {
    seq(|s.outs|, i requires 0 <= i < |s.outs| => s.outs[i].value)
  }

  function Apply(job: Job, s: State, step: Step): State
    requires Enabled(job, s, step)
  {
    match step
    case Send => Move(s, s.caller.next, Queued).(caller := Sending(s.caller.next + 1))
    case Acquire => s.(caller := Checking, mutex := ByCaller)
    case Sleep => s.(caller := Sleeping, mutex := Free)
    case SpuriousWake => s.(caller := Waking)
    case Leave => s.(caller := Collecting, mutex := Free)
    case Return => s.(caller := Returned(Aggregate(job.rs[0].Transfers(), Recorded(s))))
    case Start(i) => Move(s, i, Running)
    case CallDevice(i) =>
      var out := Call(job.rs[i], s.devs[i]);
      Move(s, i, Called).(devs := s.devs[i := out.file], outs := s.outs[i := Some(out)])
    case Lock(i) => Move(s, i, Locked).(mutex := ByWorker(i))
    case Count(i) => Move(s, i, Counted).(opsDone := s.opsDone + 1)
    case Signal(i) => Move(s, i, Signalled).(caller := if s.caller.Sleeping? then Waking else s.caller)
    case Unlock(i) => Move(s, i, Finished).(mutex := Free)
  }

  /** The steps lead from `s` to `t`. */
  predicate Reaches(job: Job, s: State, steps: seq<Step>, t: State)
    decreases |steps|
  {
    if steps == [] then s == t
    else Enabled(job, s, steps[0]) && Reaches(job, Apply(job, s, steps[0]), steps[1..], t)
  }

  function SpuriousWakes(steps: seq<Step>): nat {
    if steps == [] then 0
    else (if steps[0].SpuriousWake? then 1 else 0) + SpuriousWakes(steps[1..])
  }

  // ----- the invariant

  ghost predicate Shape(job: Job, s: State) {
    && |s.workers| == |s.devs| == |s.outs| == |job.rs|
    && (s.caller.Sending? ==> s.caller.next <= |job.rs|)
    && forall i | 0 <= i < |s.workers| :: s.workers[i].Unsent? <==> s.caller.Sending? && s.caller.next <= i
  }

  ghost predicate MutexInv(s: State) {
    && (s.mutex.ByCaller? <==> s.caller.Checking?)
    && (s.mutex.ByWorker? ==> s.mutex.i < |s.workers|)
    && forall i | 0 <= i < |s.workers| :: s.workers[i].HoldsMutex() <==> s.mutex == ByWorker(i)
  }

  /** A device is in its final state, with its result recorded, or untouched. */
  ghost predicate EffectInv(job: Job, s: State)
    requires job.Valid() && Shape(job, s)
  {
    forall i | 0 <= i < |s.workers| ::
      if s.workers[i].PastCall()
      then s.outs[i] == Some(job.Expected()[i]) && s.devs[i] == job.Expected()[i].file
      else s.outs[i] == None && s.devs[i] == job.devs[i]
  }

  ghost predicate SomeoneWillSignal(s: State) {
    exists i :: 0 <= i < |s.workers| && s.workers[i].Counted?
  }

  ghost predicate WaitInv(job: Job, s: State)
    requires job.Valid()
  {
    && s.opsDone == Total(Done, s.workers)
    && (s.caller.Sleeping? ==> s.opsDone < |job.rs| || SomeoneWillSignal(s))
    && (s.caller.PastWait() ==> forall i | 0 <= i < |s.workers| :: s.workers[i].Finished?)
    && (s.caller.Returned? ==> s.caller.res == Aggregate(job.rs[0].Transfers(), job.Expected()))
  }

  ghost predicate Inv(job: Job, s: State)
    requires job.Valid()
  {
    Shape(job, s) && MutexInv(s) && EffectInv(job, s) && WaitInv(job, s)
  }

  // ----- sums over the workers

  lemma {:induction false} TotalUpdate(weight: Weight, ws: seq<Worker>, i: nat, w: Worker)
    requires i < |ws|
    ensures Total(weight, ws[i := w]) + weight.Of(ws[i]) == Total(weight, ws) + weight.Of(w)
    decreases |ws|
  {
    var m := |ws| - 1;
    if i < m {
      TotalUpdate(weight, ws[..m], i, w);
      assert ws[i := w][..m] == ws[..m][i := w];
    } else {
      assert ws[i := w][..m] == ws[..m];
    }
  }

  lemma {:induction false} TotalZero(weight: Weight, ws: seq<Worker>)
    requires forall i | 0 <= i < |ws| :: weight.Of(ws[i]) == 0
    ensures Total(weight, ws) == 0
    decreases |ws|
  {
    if ws != [] { TotalZero(weight, ws[..|ws| - 1]); }
  }

  /** A positive sum has a positive term. */
  lemma {:induction false} TotalWitness(weight: Weight, ws: seq<Worker>) returns (i: nat)
    requires 0 < Total(weight, ws)
    ensures i < |ws| && 0 < weight.Of(ws[i])
    decreases |ws|
  {
    var m := |ws| - 1;
    if 0 < weight.Of(ws[m]) {
      i := m;
    } else {
      i := TotalWitness(weight, ws[..m]);
    }
  }

  /** The counter reaches the number of devices exactly when every worker is past it. */
  lemma {:induction false} AllDone(ws: seq<Worker>)
    ensures Total(Done, ws) <= |ws|
    ensures Total(Done, ws) == |ws| <==> forall i | 0 <= i < |ws| :: ws[i].PastCount()
    decreases |ws|
  {
    if ws != [] {
      var m := |ws| - 1;
      AllDone(ws[..m]);
      assert forall i | 0 <= i < m :: ws[..m][i] == ws[i];
    }
  }

  lemma {:induction false} InitialWork(ws: seq<Worker>)
    requires forall i | 0 <= i < |ws| :: ws[i].Unsent?
    ensures Total(Work, ws) == 7 * |ws|
    decreases |ws|
  {
    if ws != [] { InitialWork(ws[..|ws| - 1]); }
  }

  // ----- preservation

  lemma InitInv(job: Job)
    requires job.Valid()
    ensures Inv(job, Init(job))
  {
    TotalZero(Done, Init(job).workers);
  }

  lemma StepInv(job: Job, s: State, step: Step)
    requires job.Valid() && Inv(job, s) && Enabled(job, s, step)
    ensures Inv(job, Apply(job, s, step))
  {
    match step
    case Send => StepByWorker(job, s, step, s.caller.next, Queued);
    case Start(i) => StepByWorker(job, s, step, i, Running);
    case CallDevice(i) => StepByWorker(job, s, step, i, Called);
    case Lock(i) => StepByWorker(job, s, step, i, Locked);
    case Count(i) => StepByWorker(job, s, step, i, Counted);
    case Signal(i) => StepByWorker(job, s, step, i, Signalled);
    case Unlock(i) => StepByWorker(job, s, step, i, Finished);
    case Leave => AllDone(s.workers);
    case Return =>
      assert Recorded(s) == job.Expected();
    case Acquire =>
    case Sleep =>
    case SpuriousWake =>
      AllDone(s.workers);
  }

  lemma StepByWorker(job: Job, s: State, step: Step, i: nat, w: Worker)
    requires job.Valid() && Inv(job, s) && Enabled(job, s, step)
    requires step.ByAWorker() || step.Send?
    requires i == (if step.Send? then s.caller.next else step.i) < |s.workers|
    requires Apply(job, s, step).workers == s.workers[i := w]
    ensures Inv(job, Apply(job, s, step))
  {
    var t := Apply(job, s, step);
    assert Shape(job, t);
    MutexKept(job, s, step, i, w);
    EffectKept(job, s, step, i, w);
    WaitKept(job, s, step, i, w);
  }

  lemma MutexKept(job: Job, s: State, step: Step, i: nat, w: Worker)
    requires Enabled(job, s, step) && (step.ByAWorker() || step.Send?)
    requires i == (if step.Send? then s.caller.next else step.i) < |s.workers|
    requires Apply(job, s, step).workers == s.workers[i := w]
    requires Shape(job, s) && MutexInv(s)
    ensures MutexInv(Apply(job, s, step))
  {
  }

  lemma EffectKept(job: Job, s: State, step: Step, i: nat, w: Worker)
    requires job.Valid() && Enabled(job, s, step) && (step.ByAWorker() || step.Send?)
    requires i == (if step.Send? then s.caller.next else step.i) < |s.workers|
    requires Apply(job, s, step).workers == s.workers[i := w]
    requires Shape(job, s) && EffectInv(job, s) && Shape(job, Apply(job, s, step))
    ensures EffectInv(job, Apply(job, s, step))
  {
  }

  lemma WaitKept(job: Job, s: State, step: Step, i: nat, w: Worker)
    requires job.Valid() && Enabled(job, s, step) && (step.ByAWorker() || step.Send?)
    requires i == (if step.Send? then s.caller.next else step.i) < |s.workers|
    requires Apply(job, s, step).workers == s.workers[i := w]
    requires Shape(job, s) && WaitInv(job, s)
    ensures WaitInv(job, Apply(job, s, step))
  {
    var t := Apply(job, s, step);
    TotalUpdate(Done, s.workers, i, w);
    AllDone(t.workers);
    assert t.workers[i] == w;
    if step.ByAWorker() && s.caller.Sleeping? && !step.Signal? && SomeoneWillSignal(s) {
      var j :| 0 <= j < |s.workers| && s.workers[j].Counted?;
      assert t.workers[j].Counted?;
    }
  }

  lemma {:induction false} RunInv(job: Job, s: State, steps: seq<Step>, t: State)
    requires job.Valid() && Inv(job, s) && Reaches(job, s, steps, t)
    ensures Inv(job, t)
    decreases |steps|
  {
    if steps != [] {
      StepInv(job, s, steps[0]);
      RunInv(job, Apply(job, s, steps[0]), steps[1..], t);
    }
  }

  // ----- safety

  /**
    When the caller is past the wait, every device call is complete and recorded, and no worker ever touches the
    request records, the mutex or the buffers again.
  */
  lemma SafeToLeave(job: Job, steps: seq<Step>, s: State)
    requires job.Valid() && Reaches(job, Init(job), steps, s) && s.caller.PastWait()
    ensures Shape(job, s) && s.opsDone == |job.rs|
    ensures forall i | 0 <= i < |job.rs| ::
      s.workers[i].Finished? && s.outs[i] == Some(job.Expected()[i]) && s.devs[i] == job.Expected()[i].file
    ensures forall step: Step | step.ByAWorker() :: !Enabled(job, s, step)
  {
    InitInv(job);
    RunInv(job, Init(job), steps, s);
    AllDone(s.workers);
  }

  /** The counter is the number of workers past the increment, and a sleeping caller always has a waker to come. */
  lemma NoLostWakeup(job: Job, steps: seq<Step>, s: State)
    requires job.Valid() && Reaches(job, Init(job), steps, s)
    ensures s.opsDone == Total(Done, s.workers)
    ensures s.caller.Sleeping? && s.opsDone == |job.rs| ==>
            exists i :: 0 <= i < |job.rs| && Enabled(job, s, Signal(i))
  {
    InitInv(job);
    RunInv(job, Init(job), steps, s);
    if s.caller.Sleeping? && s.opsDone == |job.rs| {
      var i :| 0 <= i < |s.workers| && s.workers[i].Counted?;
      assert Enabled(job, s, Signal(i));
    }
  }

  // ----- progress

  function Measure(s: State): nat {
    3 * Total(Work, s.workers) + s.caller.Rank()
  }

  lemma StepMeasure(job: Job, s: State, step: Step)
    requires Shape(job, s) && Enabled(job, s, step)
    ensures Measure(Apply(job, s, step)) < Measure(s) + if step.SpuriousWake? then 3 else 0
  {
    var t := Apply(job, s, step);
    match step
    case Send => TotalUpdate(Work, s.workers, s.caller.next, Queued);
    case Start(i) => TotalUpdate(Work, s.workers, i, Running);
    case CallDevice(i) => TotalUpdate(Work, s.workers, i, Called);
    case Lock(i) => TotalUpdate(Work, s.workers, i, Locked);
    case Count(i) => TotalUpdate(Work, s.workers, i, Counted);
    case Signal(i) => TotalUpdate(Work, s.workers, i, Signalled);
    case Unlock(i) => TotalUpdate(Work, s.workers, i, Finished);
    case Acquire =>
    case Sleep =>
    case SpuriousWake =>
    case Leave =>
    case Return =>
  }

  lemma {:induction false} RunMeasure(job: Job, s: State, steps: seq<Step>, t: State)
    requires job.Valid() && Inv(job, s) && Reaches(job, s, steps, t)
    ensures |steps| + Measure(t) <= Measure(s) + 3 * SpuriousWakes(steps)
    decreases |steps|
  {
    if steps != [] {
      StepInv(job, s, steps[0]);
      StepMeasure(job, s, steps[0]);
      RunMeasure(job, Apply(job, s, steps[0]), steps[1..], t);
    }
  }

  /** Every run ends: spurious wakeups apart, it has at most 21 steps a device and 5 more. */
  lemma RunsEnd(job: Job, steps: seq<Step>, s: State)
    requires job.Valid() && Reaches(job, Init(job), steps, s)
    ensures |steps| <= 21 * |job.rs| + 5 + 3 * SpuriousWakes(steps)
  {
    InitInv(job);
    RunMeasure(job, Init(job), steps, s);
    InitialWork(Init(job).workers);
  }

  /** Until the caller has returned, some thread can take a step that is not a spurious wakeup. */
  lemma NeverStuck(job: Job, s: State) returns (step: Step)
    requires job.Valid() && Inv(job, s) && !s.caller.Returned?
    ensures Enabled(job, s, step) && !step.SpuriousWake?
  {
    var n := |job.rs|;
    match s.caller
    case Sending(next) =>
      if next < n { step := Send; }
      else if s.mutex == Free { step := Acquire; }
      else { step := HolderMoves(job, s); }
    case Waking =>
      if s.mutex == Free { step := Acquire; }
      else { step := HolderMoves(job, s); }
    case Checking =>
      step := if s.opsDone < n then Sleep else Leave;
    case Collecting =>
      step := Return;
    case Sleeping =>
      if SomeoneWillSignal(s) {
        var i :| 0 <= i < |s.workers| && s.workers[i].Counted?;
        step := Signal(i);
      } else {
        AllDone(s.workers);
        var i :| 0 <= i < |s.workers| && !s.workers[i].PastCount();
        step := WorkerMoves(job, s, i);
      }
  }

  lemma HolderMoves(job: Job, s: State) returns (step: Step)
    requires job.Valid() && Inv(job, s) && s.mutex != Free && !s.caller.Checking?
    ensures Enabled(job, s, step) && !step.SpuriousWake?
  {
    var i := s.mutex.i;
    step := if s.workers[i].Locked? then Count(i) else if s.workers[i].Counted? then Signal(i) else Unlock(i);
  }

  lemma ActiveMoves(job: Job, s: State, i: nat) returns (step: Step)
    requires job.Valid() && Inv(job, s) && i < |s.workers| && s.workers[i].Active() && !s.caller.Checking?
    ensures Enabled(job, s, step) && !step.SpuriousWake?
  {
    if s.workers[i].Running? { step := CallDevice(i); }
    else if s.workers[i].Called? && s.mutex == Free { step := Lock(i); }
    else { step := HolderMoves(job, s); }
  }

  lemma WorkerMoves(job: Job, s: State, i: nat) returns (step: Step)
    requires job.Valid() && Inv(job, s) && s.caller.Sleeping?
    requires i < |s.workers| && !s.workers[i].PastCount()
    ensures Enabled(job, s, step) && !step.SpuriousWake?
  {
    if s.workers[i].Active() {
      step := ActiveMoves(job, s, i);
    } else if Total(Busy, s.workers) < job.threads {
      step := Start(i);
    } else {
      var j := TotalWitness(Busy, s.workers);
      step := ActiveMoves(job, s, j);
    }
  }

  // ----- every schedule does what the sequential loop does

  ghost predicate Stuck(job: Job, s: State) {
    forall step: Step | Enabled(job, s, step) :: step.SpuriousWake?
  }

  /**
    A run that cannot go on has returned; its devices, its recorded results and the value it returns are those of
    the loop that calls one device after the other.
  */
  lemma ScheduleIndependence(job: Job, steps: seq<Step>, s: State)
    requires job.Valid() && Reaches(job, Init(job), steps, s) && Stuck(job, s)
    ensures s.caller == Returned(Aggregate(job.rs[0].Transfers(), job.Expected()))
    ensures Shape(job, s)
    ensures forall i | 0 <= i < |job.rs| ::
      s.devs[i] == job.Expected()[i].file && s.outs[i] == Some(job.Expected()[i])
  {
    InitInv(job);
    RunInv(job, Init(job), steps, s);
    if !s.caller.Returned? {
      var step := NeverStuck(job, s);
    }
  }

  /** After the return nothing moves any more. */
  lemma ReturnedIsStuck(job: Job, steps: seq<Step>, s: State)
    requires job.Valid() && Reaches(job, Init(job), steps, s) && s.caller.Returned?
    ensures Stuck(job, s)
  {
    SafeToLeave(job, steps, s);
  }

  // ----- how much may happen at once

  lemma {:induction false} CountActive(ws: seq<Worker>)
    ensures |set i | 0 <= i < |ws| && ws[i].Active()| == Total(Busy, ws)
    decreases |ws|
  {
    if ws != [] {
      var m := |ws| - 1;
      CountActive(ws[..m]);
      var front := set i | 0 <= i < m && ws[..m][i].Active();
      assert (set i | 0 <= i < |ws| && ws[i].Active()) == front + if ws[m].Active() then {m} else {};
    }
  }

  lemma StepBound(job: Job, s: State, step: Step)
    requires Enabled(job, s, step) && Total(Busy, s.workers) <= job.threads
    ensures Total(Busy, Apply(job, s, step).workers) <= job.threads
  {
    match step
    case Send =>
      if s.caller.next < |s.workers| { TotalUpdate(Busy, s.workers, s.caller.next, Queued); }
    case Start(i) => TotalUpdate(Busy, s.workers, i, Running);
    case CallDevice(i) => TotalUpdate(Busy, s.workers, i, Called);
    case Lock(i) => TotalUpdate(Busy, s.workers, i, Locked);
    case Count(i) => TotalUpdate(Busy, s.workers, i, Counted);
    case Signal(i) => TotalUpdate(Busy, s.workers, i, Signalled);
    case Unlock(i) => TotalUpdate(Busy, s.workers, i, Finished);
    case _ =>
  }

  lemma {:induction false} RunBound(job: Job, s: State, steps: seq<Step>, t: State)
    requires Reaches(job, s, steps, t) && Total(Busy, s.workers) <= job.threads
    ensures Total(Busy, t.workers) <= job.threads
    decreases |steps|
  {
    if steps != [] {
      StepBound(job, s, steps[0]);
      RunBound(job, Apply(job, s, steps[0]), steps[1..], t);
    }
  }

  /** Never more workers than the pool has threads are between their start and their last unlock. */
  lemma PoolIsBound(job: Job, steps: seq<Step>, s: State)
    requires job.Valid() && Reaches(job, Init(job), steps, s)
    ensures |set i | 0 <= i < |s.workers| &&
                     !s.workers[i].Unsent? && !s.workers[i].Queued? && !s.workers[i].Finished?| <= job.threads
  {
    TotalZero(Busy, Init(job).workers);
    RunBound(job, Init(job), steps, s);
    CountActive(s.workers);
    assert (set i | 0 <= i < |s.workers| &&
                    !s.workers[i].Unsent? && !s.workers[i].Queued? && !s.workers[i].Finished?) ==
           set i | 0 <= i < |s.workers| && s.workers[i].Active();
  }

  lemma {:induction false} OneMore(job: Job, s: State, steps: seq<Step>, t: State, step: Step)
    requires Reaches(job, s, steps, t) && Enabled(job, t, step)
    ensures Reaches(job, s, steps + [step], Apply(job, t, step))
    decreases |steps|
  {
    if steps == [] {
      assert [step][1..] == [];
    } else {
      OneMore(job, Apply(job, s, steps[0]), steps[1..], t, step);
      assert (steps + [step])[1..] == steps[1..] + [step];
    }
  }

  lemma {:induction false} Then(job: Job, s: State, first: seq<Step>, t: State, second: seq<Step>, u: State)
    requires Reaches(job, s, first, t) && Reaches(job, t, second, u)
    ensures Reaches(job, s, first + second, u)
    decreases |first|
  {
    if first == [] {
      assert first + second == second;
    } else {
      Then(job, Apply(job, s, first[0]), first[1..], t, second, u);
      assert (first + second)[1..] == first[1..] + second;
    }
  }

  lemma {:induction false} SendFirst(job: Job, k: nat) returns (steps: seq<Step>, s: State)
    requires job.Valid() && k <= |job.rs|
    ensures Reaches(job, Init(job), steps, s)
    ensures s == Init(job).(caller := Sending(k), workers := s.workers) && |s.workers| == |job.rs|
    ensures forall i | 0 <= i < |job.rs| :: s.workers[i] == if i < k then Queued else Unsent
    ensures Total(Busy, s.workers) == 0
  {
    if k == 0 {
      steps, s := [], Init(job);
      TotalZero(Busy, s.workers);
    } else {
      var before, t := SendFirst(job, k - 1);
      OneMore(job, Init(job), before, t, Send);
      TotalUpdate(Busy, t.workers, k - 1, Queued);
      steps, s := before + [Send], Apply(job, t, Send);
    }
  }

  lemma {:induction false} StartFirst(job: Job, k: nat) returns (steps: seq<Step>, s: State)
    requires job.Valid() && k <= |job.rs| <= job.threads
    ensures Reaches(job, Init(job), steps, s)
    ensures s == Init(job).(caller := Sending(|job.rs|), workers := s.workers) && |s.workers| == |job.rs|
    ensures forall i | 0 <= i < |job.rs| :: s.workers[i] == if i < k then Running else Queued
    ensures Total(Busy, s.workers) == k
  {
    if k == 0 {
      steps, s := SendFirst(job, |job.rs|);
    } else {
      var before, t := StartFirst(job, k - 1);
      OneMore(job, Init(job), before, t, Start(k - 1));
      TotalUpdate(Busy, t.workers, k - 1, Running);
      steps, s := before + [Start(k - 1)], Apply(job, t, Start(k - 1));
    }
  }

  /** With a thread for each device, all of them may be about to call at once. */
  lemma AllAtOnce(job: Job) returns (steps: seq<Step>, s: State)
    requires job.Valid() && |job.rs| <= job.threads
    ensures Reaches(job, Init(job), steps, s)
    ensures |s.workers| == |s.devs| == |s.outs| == |job.rs| && forall i | 0 <= i < |job.rs| :: s.workers[i].Running?
    ensures s.caller == Sending(|job.rs|) && s.mutex == Free
  {
    steps, s := StartFirst(job, |job.rs|);
  }

  /** Each device once, in some order. */
  predicate Permutes(order: seq<nat>, n: nat) {
    && |order| == n
    && (forall i | 0 <= i < n :: order[i] < n)
    && forall i, j | 0 <= i < j < n :: order[i] != order[j]
  }

  lemma {:induction false} CallFirst(job: Job, order: seq<nat>, k: nat, s: State) returns (t: State)
    requires job.Valid() && Permutes(order, |job.rs|) && k <= |job.rs|
    requires |s.workers| == |s.devs| == |s.outs| == |job.rs| && s.caller == Sending(|job.rs|) && s.mutex == Free
    requires forall i | 0 <= i < |job.rs| :: s.workers[i].Running?
    ensures Reaches(job, s, seq(k, j requires 0 <= j < k => CallDevice(order[j])), t)
    ensures |t.workers| == |t.devs| == |t.outs| == |job.rs| && t.caller == Sending(|job.rs|) && t.mutex == Free
    ensures forall j | 0 <= j < |job.rs| :: t.workers[order[j]] == if j < k then Called else Running
  {
    if k == 0 {
      t := s;
    } else {
      var before := CallFirst(job, order, k - 1, s);
      var calls := seq(k - 1, j requires 0 <= j < k - 1 => CallDevice(order[j]));
      assert Enabled(job, before, CallDevice(order[k - 1]));
      OneMore(job, s, calls, before, CallDevice(order[k - 1]));
      t := Apply(job, before, CallDevice(order[k - 1]));
      assert seq(k, j requires 0 <= j < k => CallDevice(order[j])) == calls + [CallDevice(order[k - 1])];
    }
  }

  /** What a worker does with the mutex. */
  function Report(i: nat): seq<Step> {
    [Lock(i), Count(i), Signal(i), Unlock(i)]
  }

  lemma ReportOne(job: Job, s: State, i: nat) returns (t: State)
    requires |s.workers| == |s.devs| == |s.outs| == |job.devs| == |job.rs| && i < |job.rs|
    requires s.workers[i].Called? && s.mutex == Free && !s.caller.Sleeping?
    ensures Reaches(job, s, Report(i), t)
    ensures t == s.(workers := s.workers[i := Finished], opsDone := s.opsDone + 1)
  {
    var s1 := Apply(job, s, Lock(i));
    var s2 := Apply(job, s1, Count(i));
    var s3 := Apply(job, s2, Signal(i));
    t := Apply(job, s3, Unlock(i));
    OneMore(job, s, [], s, Lock(i));
    OneMore(job, s, [Lock(i)], s1, Count(i));
    OneMore(job, s, [Lock(i), Count(i)], s2, Signal(i));
    OneMore(job, s, [Lock(i), Count(i), Signal(i)], s3, Unlock(i));
    assert t.workers == s.workers[i := Finished];
    assert [Lock(i)] + [Count(i)] == [Lock(i), Count(i)];
    assert [Lock(i), Count(i)] + [Signal(i)] == [Lock(i), Count(i), Signal(i)];
    assert [Lock(i), Count(i), Signal(i)] + [Unlock(i)] == Report(i);
    assert [] + [Lock(i)] == [Lock(i)];
  }

  lemma {:induction false} ReportFirst(job: Job, order: seq<nat>, k: nat, s: State) returns (steps: seq<Step>, t: State)
    requires job.Valid() && Permutes(order, |job.rs|) && k <= |job.rs|
    requires |s.workers| == |s.devs| == |s.outs| == |job.rs| && s.caller == Sending(|job.rs|) && s.mutex == Free
    requires forall j | 0 <= j < |job.rs| :: s.workers[order[j]].Called?
    ensures Reaches(job, s, steps, t)
    ensures |t.workers| == |t.devs| == |t.outs| == |job.rs| && t.caller == Sending(|job.rs|) && t.mutex == Free
    ensures forall j | 0 <= j < |job.rs| :: t.workers[order[j]] == if j < k then Finished else Called
    ensures steps == Reports(order[..k])
  {
    if k == 0 {
      steps, t := [], s;
    } else {
      var before, u := ReportFirst(job, order, k - 1, s);
      t := ReportOne(job, u, order[k - 1]);
      Then(job, s, before, u, Report(order[k - 1]), t);
      steps := before + Report(order[k - 1]);
      assert order[..k][..k - 1] == order[..k - 1];
    }
  }

  function Reports(order: seq<nat>): seq<Step> {
    if order == [] then [] else Reports(order[..|order| - 1]) + Report(order[|order| - 1])
  }

  /**
    With a thread for each device, the device calls may come in any order, and the workers take the mutex in any other,
    and the caller returns.
  */
  lemma EveryOrderHappens(job: Job, calls: seq<nat>, reports: seq<nat>) returns (start: seq<Step>, t: State)
    requires job.Valid() && |job.rs| <= job.threads
    requires |calls| == |reports| == |job.rs|
    requires forall i | 0 <= i < |job.rs| :: calls[i] < |job.rs| && reports[i] < |job.rs|
    requires forall i, j | 0 <= i < j < |job.rs| :: calls[i] != calls[j] && reports[i] != reports[j]
    ensures t.caller.Returned?
    ensures var n := |job.rs|;
      Reaches(job, Init(job), start + seq(n, j requires 0 <= j < n => CallDevice(calls[j])) + Reports(reports) +
                              [Acquire, Leave, Return], t)
  {
    var n := |job.rs|;
    var s;
    start, s := AllAtOnce(job);
    var called := CallFirst(job, calls, n, s);
    var first := seq(n, j requires 0 <= j < n => CallDevice(calls[j]));
    Then(job, Init(job), start, s, first, called);
    EveryWorker(calls, n, called.workers, Called);
    var second, reported := ReportFirst(job, reports, n, called);
    Then(job, Init(job), start + first, called, second, reported);
    assert reports[..n] == reports;
    EveryWorker(reports, n, reported.workers, Finished);
    t := Collect(job, start + first + second, reported);
    assert start + first + Reports(reports) == start + first + second;
  }

  lemma Collect(job: Job, steps: seq<Step>, s: State) returns (t: State)
    requires job.Valid() && Reaches(job, Init(job), steps, s) && s.caller == Sending(|job.rs|) && s.mutex == Free
    requires |s.workers| == |job.rs| && forall i | 0 <= i < |job.rs| :: s.workers[i].Finished?
    ensures t.caller.Returned? && Reaches(job, Init(job), steps + [Acquire, Leave, Return], t)
  {
    InitInv(job);
    RunInv(job, Init(job), steps, s);
    AllDone(s.workers);
    var s1 := Apply(job, s, Acquire);
    var s2 := Apply(job, s1, Leave);
    t := Apply(job, s2, Return);
    OneMore(job, Init(job), steps, s, Acquire);
    OneMore(job, Init(job), steps + [Acquire], s1, Leave);
    OneMore(job, Init(job), steps + [Acquire] + [Leave], s2, Return);
    assert steps + [Acquire, Leave, Return] == steps + [Acquire] + [Leave] + [Return];
  }

  /** A permutation reaches everyone. */
  lemma Position(order: seq<nat>, n: nat, i: nat) returns (j: nat)
    requires Permutes(order, n) && i < n
    ensures j < n && order[j] == i
  {
    if i !in order { PigeonHole(order, Below(n) - {i}); }
    j :| j < n && order[j] == i;
  }

  function Below(n: nat): (values: set<nat>)
    ensures |values| == n && forall v: nat :: v in values <==> v < n
  {
    if n == 0 then {} else Below(n - 1) + {n - 1}
  }

  lemma {:induction false} PigeonHole(order: seq<nat>, values: set<nat>)
    requires forall i | 0 <= i < |order| :: order[i] in values
    requires forall i, j | 0 <= i < j < |order| :: order[i] != order[j]
    ensures |order| <= |values|
    decreases |order|
  {
    if order != [] {
      var m := |order| - 1;
      PigeonHole(order[..m], values - {order[m]});
    }
  }

  lemma EveryWorker(order: seq<nat>, n: nat, ws: seq<Worker>, w: Worker)
    requires Permutes(order, n) && |ws| == n
    requires forall j | 0 <= j < n :: ws[order[j]] == w
    ensures forall i | 0 <= i < n :: ws[i] == w
  {
    forall i | 0 <= i < n ensures ws[i] == w {
      var j := Position(order, n, i);
    }
  }

  /** The caller may sleep before any worker has started, and may wake for no reason whenever it sleeps. */
  lemma SleepersWake(job: Job) returns (steps: seq<Step>, s: State)
    requires job.Valid()
    ensures Reaches(job, Init(job), steps + [Acquire, Sleep], s)
    ensures s.caller.Sleeping? && |s.workers| == |job.rs| && forall i | 0 <= i < |job.rs| :: s.workers[i].Queued?
  {
    var t;
    steps, t := SendFirst(job, |job.rs|);
    OneMore(job, Init(job), steps, t, Acquire);
    OneMore(job, Init(job), steps + [Acquire], Apply(job, t, Acquire), Sleep);
    s := Apply(job, Apply(job, t, Acquire), Sleep);
    assert steps + [Acquire] + [Sleep] == steps + [Acquire, Sleep];
  }

  lemma AnySleeperMayWake(job: Job, steps: seq<Step>, s: State)
    requires job.Valid() && Reaches(job, Init(job), steps, s) && s.caller.Sleeping?
    ensures Reaches(job, Init(job), steps + [SpuriousWake], s.(caller := Waking))
  {
    InitInv(job);
    RunInv(job, Init(job), steps, s);
    OneMore(job, Init(job), steps, s, SpuriousWake);
  }
}
