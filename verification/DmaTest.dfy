/** One DMA test case on one channel: the work item submits the jobs of a lap, the engine finishes
    them in any order, and each callback counts one job until the lap, and at last the test, is over
    (kernel/testcases/dma/kernel_space/dma_test_module.c, dma_test_lib.c). */
module DmaTest {

  import opened Basics

  /** The buffers of one job: one, or the whole list for a scatter-gather transfer. */
  type Buffer = seq<seq<byte>>

  /** The workqueue thread: idle, or inside the work item about to submit job next. */
  datatype Worker = Idle | Running(next: nat)

  /** The fields of tc_struct and its buflist that a run changes, with src.. fixed at set-up. */
  datatype Tc = Tc(
    src: seq<Buffer>, dst: seq<Buffer>, check: bool,
    laps: int, jobCounter: nat, finished: nat, queued: bool, err: int, signals: nat)
  {
    /** nbr_returns_per_transfer: one callback for each job of a lap. */
    function Jobs(): nat {
      |src|
    }
  }

  /** A test in progress: active jobs are with the engine, ready ones await their callback. */
  datatype Test = Test(tc: Tc, worker: Worker, active: set<nat>, ready: set<nat>)

  function Verdict(tc: Tc): int {
    if tc.dst == tc.src then 0 else -1
  }

  /** transmit_cb followed by tc_worker: count the job; at the end of a lap check the payload, then
      signal completion or queue the next lap. */
  function CountJob(tc: Tc): Tc {
    var tc' := tc.(finished := tc.finished + 1, jobCounter := tc.jobCounter + 1);
    if tc'.jobCounter != tc.Jobs() then tc'
    else
      var checked := tc'.(err := if tc.check then Verdict(tc) else tc.err, laps := tc.laps - 1);
      if checked.laps == 0 then checked.(signals := tc.signals + 1)
      else checked.(finished := 0, jobCounter := 0, queued := true)
  }

  // Steps

  datatype Step =
    | Begin                              // the workqueue thread takes the queued work item
    | Submit(scratch: Buffer)            // tx_submit of the next job; its target is now the engine's
    | EndWork                            // the work item returns
    | Complete(job: nat, data: Buffer)   // the engine finishes a job, leaving data in its target
    | Callback(job: nat)

  /** The two hold the same number of bytes, buffer by buffer. */
  predicate SameShape(a: Buffer, b: Buffer) {
    |a| == |b| && forall i :: 0 <= i < |a| ==> |a[i]| == |b[i]|
  }

  predicate SameShapes(dst: seq<Buffer>, src: seq<Buffer>) {
    |dst| == |src| && forall j :: 0 <= j < |dst| ==> SameShape(dst[j], src[j])
  }

  /** The engine only ever writes the bytes of a target that is its own. */
  predicate Enabled(t: Test, s: Step) {
    match s
    case Begin => t.tc.queued && t.worker.Idle?
    case Submit(scratch) =>
      && t.worker.Running? && t.worker.next < t.tc.Jobs() && t.worker.next < |t.tc.dst|
      && SameShape(scratch, t.tc.dst[t.worker.next])
    case EndWork => t.worker.Running? && t.worker.next >= t.tc.Jobs()
    case Complete(j, data) => j in t.active && j < |t.tc.dst| && SameShape(data, t.tc.dst[j])
    case Callback(j) => j in t.ready
  }

  function After(t: Test, s: Step): Test
    requires Enabled(t, s)
  {
    match s
    case Begin => t.(tc := t.tc.(queued := false), worker := Running(0))
    case Submit(scratch) =>
      t.(tc := t.tc.(dst := t.tc.dst[t.worker.next := scratch]),
         worker := Running(t.worker.next + 1), active := t.active + {t.worker.next})
    case EndWork => t.(worker := Idle)
    case Complete(j, data) =>
      t.(tc := t.tc.(dst := t.tc.dst[j := data]), active := t.active - {j}, ready := t.ready + {j})
    case Callback(j) => t.(tc := CountJob(t.tc), ready := t.ready - {j})
  }

  /** An engine that copies what it was told to. */
  predicate Faithful(t: Test, s: Step) {
    s.Complete? && s.job < |t.tc.src| ==> s.data == t.tc.src[s.job]
  }

  ghost predicate IsRun(t: Test, steps: seq<Step>)
    decreases |steps|
  {
    steps != [] ==> Enabled(t, steps[0]) && IsRun(After(t, steps[0]), steps[1..])
  }

  ghost function Final(t: Test, steps: seq<Step>): Test
    requires IsRun(t, steps)
    decreases |steps|
  {
    if steps == [] then t else Final(After(t, steps[0]), steps[1..])
  }

  ghost predicate FaithfulRun(t: Test, steps: seq<Step>)
    requires IsRun(t, steps)
    decreases |steps|
  {
    steps != [] ==> Faithful(t, steps[0]) && FaithfulRun(After(t, steps[0]), steps[1..])
  }

  function Callbacks(steps: seq<Step>): nat {
    if steps == [] then 0 else (if steps[0].Callback? then 1 else 0) + Callbacks(steps[1..])
  }

  /** A test set up by tc_test_init. */
  predicate Fresh(t: Test) {
    && SameShapes(t.tc.dst, t.tc.src) && t.tc.jobCounter == 0 && t.tc.finished == 0 && t.tc.err == 0 && t.tc.signals == 0
    && !t.tc.queued && t.worker.Idle? && t.active == {} && t.ready == {}
  }

  /** tc_test_run: queue the work item. */
  function Started(t: Test): Test {
    t.(tc := t.tc.(queued := true))
  }

  // What every step keeps

  function Unsubmitted(t: Test): int {
    (if t.tc.queued then t.tc.Jobs() else 0) + (if t.worker.Running? then t.tc.Jobs() - t.worker.next else 0)
  }

  predicate Quiescent(t: Test) {
    t.active == {} && t.ready == {} && (t.worker.Running? ==> t.worker.next == t.tc.Jobs())
  }

  /** The jobs handed to the engine so far in this lap are those below this bound. */
  function Submitted(t: Test): int {
    if t.tc.queued then 0 else if t.worker.Running? then t.worker.next else t.tc.Jobs()
  }

  ghost predicate Inv(t: Test) {
    && |t.tc.src| > 0 && SameShapes(t.tc.dst, t.tc.src)
    && (t.worker.Running? ==> t.worker.next <= t.tc.Jobs())
    && t.active !! t.ready
    && (forall j :: j in t.active || j in t.ready ==> j < Submitted(t))
    && t.tc.finished == t.tc.jobCounter
    && (t.tc.queued ==> Quiescent(t) && t.tc.jobCounter == 0 && t.tc.laps != 0)
    && (if t.tc.laps != 0 then InLap(t) else Over(t))
  }

  /** Within a lap every job is unsubmitted, in flight or counted. */
  ghost predicate InLap(t: Test) {
    && t.tc.jobCounter < t.tc.Jobs()
    && Unsubmitted(t) + |t.active| + |t.ready| + t.tc.jobCounter == t.tc.Jobs()
    && t.tc.signals == 0
  }

  /** After the last lap nothing moves, completion was signalled once, and err is the verdict on the
      buffers as they are. */
  ghost predicate Over(t: Test) {
    && Quiescent(t) && !t.tc.queued && t.tc.jobCounter == t.tc.Jobs() && t.tc.signals == 1
    && (t.tc.check ==> t.tc.err == Verdict(t.tc))
  }

  lemma KeepsShapes(dst: seq<Buffer>, src: seq<Buffer>, j: nat, data: Buffer)
    requires SameShapes(dst, src) && j < |dst| && SameShape(data, dst[j])
    ensures SameShapes(dst[j := data], src)
  {
  }

  lemma StartedInv(t: Test)
    requires Fresh(t) && t.tc.laps != 0 && t.tc.Jobs() > 0
    ensures Inv(Started(t))
  {
  }

  lemma StepInv(t: Test, s: Step)
    requires Inv(t) && Enabled(t, s)
    ensures Inv(After(t, s))
  {
    match s
    case Begin =>
    case Submit(_) => SubmitInv(t, s);
    case EndWork =>
    case Complete(j, _) => CompleteInv(t, s);
    case Callback(j) => CallbackInv(t, s);
  }

  lemma SubmitInv(t: Test, s: Step)
    requires Inv(t) && s.Submit? && Enabled(t, s)
    ensures Inv(After(t, s))
  {
    KeepsShapes(t.tc.dst, t.tc.src, t.worker.next, s.scratch);
    hide SameShapes, SameShape;
    assert t.worker.next !in t.active && t.worker.next !in t.ready;
    assert |t.active + {t.worker.next}| == |t.active| + 1;
  }

  lemma CompleteInv(t: Test, s: Step)
    requires Inv(t) && s.Complete? && Enabled(t, s)
    ensures Inv(After(t, s))
  {
    KeepsShapes(t.tc.dst, t.tc.src, s.job, s.data);
    hide SameShapes, SameShape;
    assert |t.active - {s.job}| == |t.active| - 1;
    assert |t.ready + {s.job}| == |t.ready| + 1;
  }

  lemma CallbackInv(t: Test, s: Step)
    requires Inv(t) && s.Callback? && Enabled(t, s)
    ensures Inv(After(t, s))
    ensures t.tc.jobCounter + 1 == t.tc.Jobs() ==> t.active == {} && t.ready == {s.job}
  {
    assert |t.ready - {s.job}| == |t.ready| - 1;
    if t.tc.jobCounter + 1 == t.tc.Jobs() {
      assert |t.active| == 0 && |t.ready - {s.job}| == 0;
      assert t.ready == {s.job};
    }
  }

  lemma {:induction false} RunInv(t: Test, steps: seq<Step>)
    requires Inv(t) && IsRun(t, steps)
    ensures Inv(Final(t, steps))
    decreases |steps|
  {
    if steps != [] {
      StepInv(t, steps[0]);
      RunInv(After(t, steps[0]), steps[1..]);
    }
  }

  /** The payload is checked, and the work item queued again, only when nothing is in flight. */
  lemma LapEndsQuiescent(t: Test, s: Step)
    requires Inv(t) && Enabled(t, s)
    requires After(t, s).tc.laps != t.tc.laps || (After(t, s).tc.queued && !t.tc.queued)
    ensures s.Callback? && t.active == {} && t.ready == {s.job} && Unsubmitted(t) == 0
    ensures Quiescent(After(t, s))
    ensures After(t, s).tc.err == if !t.tc.check then t.tc.err else if t.tc.dst == t.tc.src then 0 else -1
    ensures After(t, s).tc.laps == t.tc.laps - 1 && (After(t, s).tc.queued <==> t.tc.laps != 1)
  {
    CallbackInv(t, s);
    hide SameShape, SameShapes;
  }

  // Faithful engines

  /** Every job of this lap that the engine has finished with holds its source. */
  ghost predicate Copied(t: Test) {
    && t.tc.err == 0
    && if t.tc.laps == 0 then t.tc.check ==> t.tc.dst == t.tc.src
       else forall j :: 0 <= j < Submitted(t) && j < |t.tc.src| == |t.tc.dst| && j !in t.active ==> t.tc.dst[j] == t.tc.src[j]
  }

  lemma StepCopied(t: Test, s: Step)
    requires Inv(t) && Copied(t) && Enabled(t, s) && Faithful(t, s)
    ensures Copied(After(t, s))
  {
    if s.Callback? {
      CallbackInv(t, s);
      if t.tc.jobCounter + 1 == t.tc.Jobs() {
        assert Submitted(t) == t.tc.Jobs();
        assert t.tc.dst == t.tc.src;
      }
    }
  }

  /** A faithful engine never makes err non-zero, however it interleaves. */
  lemma {:induction false} FaithfulNoError(t: Test, steps: seq<Step>)
    requires Inv(t) && Copied(t) && IsRun(t, steps) && FaithfulRun(t, steps)
    ensures Copied(Final(t, steps)) && Final(t, steps).tc.err == 0
    decreases |steps|
  {
    if steps != [] {
      StepInv(t, steps[0]);
      StepCopied(t, steps[0]);
      FaithfulNoError(After(t, steps[0]), steps[1..]);
    }
  }

  // Counting callbacks, and how long a run can be

  function CallbacksLeft(t: Test): int {
    t.tc.laps * t.tc.Jobs() - if t.tc.laps == 0 then 0 else t.tc.jobCounter
  }

  lemma StepCallbacks(t: Test, s: Step)
    requires Inv(t) && Enabled(t, s)
    ensures CallbacksLeft(After(t, s)) == CallbacksLeft(t) - if s.Callback? then 1 else 0
  {
    hide Verdict, Unsubmitted;
    if s.Callback? && t.tc.jobCounter + 1 == t.tc.Jobs() {
      assert (t.tc.laps - 1) * t.tc.Jobs() == t.tc.laps * t.tc.Jobs() - t.tc.Jobs();
    }
  }

  lemma {:induction false} RunCallbacks(t: Test, steps: seq<Step>)
    requires Inv(t) && IsRun(t, steps)
    ensures Callbacks(steps) == CallbacksLeft(t) - CallbacksLeft(Final(t, steps))
    decreases |steps|
  {
    if steps != [] {
      StepInv(t, steps[0]);
      StepCallbacks(t, steps[0]);
      hide CallbacksLeft, Inv, Enabled, After;
      RunCallbacks(After(t, steps[0]), steps[1..]);
    }
  }

  /** The number of steps still to come: a lap takes one Begin, one EndWork and three steps a job. */
  function StepsLeft(t: Test): int {
    (if t.tc.laps > 0 then (t.tc.laps - 1) * (3 * t.tc.Jobs() + 2) else 0)
    + (if t.tc.queued then 3 * t.tc.Jobs() + 2 else 0)
    + (if t.worker.Running? then 3 * (t.tc.Jobs() - t.worker.next) + 1 else 0)
    + 2 * |t.active| + |t.ready|
  }

  lemma StepTakesOne(t: Test, s: Step)
    requires Inv(t) && t.tc.laps >= 0 && Enabled(t, s)
    ensures StepsLeft(After(t, s)) == StepsLeft(t) - 1 && After(t, s).tc.laps >= 0
  {
    hide Verdict;
    match s
    case Begin =>
    case EndWork =>
    case Submit(_) =>
      assert t.worker.next !in t.active;
      assert |t.active + {t.worker.next}| == |t.active| + 1;
    case Complete(j, _) =>
      assert |t.active - {j}| == |t.active| - 1;
      assert |t.ready + {j}| == |t.ready| + 1;
    case Callback(j) => CallbackTakesOne(t, j);
  }

  lemma CallbackTakesOne(t: Test, j: nat)
    requires Inv(t) && t.tc.laps >= 0 && j in t.ready
    ensures var t' := After(t, Callback(j)); StepsLeft(t') == StepsLeft(t) - 1 && t'.tc.laps >= 0
  {
    hide SameShape, SameShapes;
    assert t.tc.laps > 0 && |t.ready - {j}| == |t.ready| - 1;
    var lap, t' := 3 * t.tc.Jobs() + 2, After(t, Callback(j));
    hide Inv, Verdict;
    if t.tc.jobCounter + 1 == t.tc.Jobs() {
      CallbackQueues(t, j);
      if t'.tc.laps > 0 {
        assert (t.tc.laps - 1) * lap == (t'.tc.laps - 1) * lap + lap;
      }
    }
  }

  lemma CallbackQueues(t: Test, j: nat)
    requires Inv(t) && j in t.ready && t.tc.jobCounter + 1 == t.tc.Jobs()
    ensures !t.tc.queued && After(t, Callback(j)).tc.queued == (t.tc.laps != 1)
  {
  }

  lemma {:induction false} RunLength(t: Test, steps: seq<Step>)
    requires Inv(t) && t.tc.laps >= 0 && IsRun(t, steps)
    ensures Final(t, steps).tc.laps >= 0
    ensures StepsLeft(Final(t, steps)) == StepsLeft(t) - |steps|
    decreases |steps|
  {
    if steps != [] {
      StepInv(t, steps[0]);
      StepTakesOne(t, steps[0]);
      hide StepsLeft, Inv, Enabled, After;
      RunLength(After(t, steps[0]), steps[1..]);
    }
  }

  /** No deadlock: while completion is outstanding some step is possible. */
  lemma Progress(t: Test) returns (s: Step)
    requires Inv(t) && (t.tc.laps != 0 || t.worker.Running?)
    ensures Enabled(t, s)
    ensures s.Complete? ==> s.job < |t.tc.src| && s.data == t.tc.src[s.job]
  {
    if t.worker.Running? {
      s := if t.worker.next < t.tc.Jobs() then Submit(t.tc.dst[t.worker.next]) else EndWork;
    } else if t.tc.queued {
      s := Begin;
    } else if t.active != {} {
      var j :| j in t.active;
      s := Complete(j, t.tc.src[j]);
      assert SameShape(t.tc.dst[j], t.tc.src[j]);
    } else {
      assert t.ready != {};
      var j :| j in t.ready;
      s := Callback(j);
    }
  }

  /** Every run from the start of a test with laps >= 1 has at most laps * (3 * jobs + 2) steps, and
      one that cannot go on has signalled completion exactly once, after exactly laps * jobs
      callbacks. */
  lemma CompletesExactlyOnce(t: Test, steps: seq<Step>)
    requires Fresh(t) && t.tc.laps > 0 && t.tc.Jobs() > 0 && IsRun(Started(t), steps)
    ensures |steps| <= t.tc.laps * (3 * t.tc.Jobs() + 2)
    ensures Final(Started(t), steps).tc.signals <= 1
    ensures Final(Started(t), steps).tc.signals == 1 <==> Callbacks(steps) == t.tc.laps * t.tc.Jobs()
    ensures (forall s :: !Enabled(Final(Started(t), steps), s))
            <==> |steps| == t.tc.laps * (3 * t.tc.Jobs() + 2)
    ensures (forall s :: !Enabled(Final(Started(t), steps), s)) ==> Final(Started(t), steps).tc.signals == 1
  {
    var t0 := Started(t);
    StartedInv(t);
    RunInv(t0, steps);
    RunLength(t0, steps);
    RunCallbacks(t0, steps);
    RunKeepsSize(t0, steps);
    LapSteps(t);
    LapsLeft(Final(t0, steps));
    NothingLeft(Final(t0, steps));
    hide Inv, Final, IsRun, Enabled, Fresh, StepsLeft, CallbacksLeft, Callbacks;
  }

  lemma LapSteps(t: Test)
    requires Fresh(t) && t.tc.laps > 0
    ensures StepsLeft(Started(t)) == t.tc.laps * (3 * t.tc.Jobs() + 2)
    ensures CallbacksLeft(Started(t)) == t.tc.laps * t.tc.Jobs()
  {
    var lap := 3 * t.tc.Jobs() + 2;
    assert (t.tc.laps - 1) * lap + lap == t.tc.laps * lap;
  }

  lemma NothingLeft(t: Test)
    requires Inv(t)
    ensures (forall s :: !Enabled(t, s)) <==> t.tc.laps == 0 && t.worker.Idle?
    ensures t.tc.signals == if t.tc.laps == 0 then 1 else 0
  {
    if t.tc.laps != 0 || t.worker.Running? {
      var s := Progress(t);
      assert Enabled(t, s);
    }
  }

  lemma {:induction false} RunKeepsSize(t: Test, steps: seq<Step>)
    requires IsRun(t, steps)
    ensures Final(t, steps).tc.src == t.tc.src && Final(t, steps).tc.check == t.tc.check
    decreases |steps|
  {
    if steps != [] {
      RunKeepsSize(After(t, steps[0]), steps[1..]);
    }
  }

  lemma LapsLeft(t: Test)
    requires Inv(t) && t.tc.laps >= 0
    ensures StepsLeft(t) >= 0
    ensures CallbacksLeft(t) == 0 <==> t.tc.laps == 0
    ensures StepsLeft(t) == 0 <==> t.tc.laps == 0 && t.worker.Idle?
  {
    hide Verdict;
    var n := t.tc.Jobs();
    if t.tc.laps > 0 {
      assert t.tc.laps * n == (t.tc.laps - 1) * n + n;
      ProductNat(t.tc.laps - 1, n);
      ProductNat(t.tc.laps - 1, 3 * n + 2);
    }
  }

  lemma ProductNat(a: nat, b: nat)
    ensures a * b >= 0
  {
  }

  lemma {:induction false} NeverSignals(t: Test, steps: seq<Step>)
    requires IsRun(t, steps) && t.tc.laps <= 0 && t.tc.signals == 0
    ensures Final(t, steps).tc.signals == 0
    decreases |steps|
  {
    if steps != [] {
      NeverSignals(After(t, steps[0]), steps[1..]);
    }
  }

  lemma {:induction false} NoJobsNoSignal(t: Test, steps: seq<Step>)
    requires IsRun(t, steps) && t.tc.Jobs() == 0 && t.active == {} && t.ready == {} && t.tc.signals == 0
    ensures Final(t, steps).tc.signals == 0
    decreases |steps|
  {
    if steps != [] {
      NoJobsNoSignal(After(t, steps[0]), steps[1..]);
    }
  }

  /** From here a faithful engine ends the test with err 0: what it finished in this lap is right. */
  ghost predicate Tidy(t: Test) {
    if t.tc.laps == 0 then t.tc.err == 0
    else forall j :: 0 <= j < Submitted(t) && j < |t.tc.src| == |t.tc.dst| && j !in t.active ==> t.tc.dst[j] == t.tc.src[j]
  }

  lemma StepTidy(t: Test, s: Step)
    requires Inv(t) && Tidy(t) && t.tc.check && Enabled(t, s) && Faithful(t, s)
    ensures Tidy(After(t, s))
  {
    if s.Callback? {
      CallbackInv(t, s);
      if EndsLap(t, s) {
        assert Submitted(t) == t.tc.Jobs();
        assert t.tc.dst == t.tc.src;
      }
    }
  }

  /** Some run, with a faithful engine, completes; err is then 0 if nothing was wrong before. */
  lemma {:induction false} CanFinish(t: Test) returns (steps: seq<Step>)
    requires Inv(t) && t.tc.laps >= 0
    ensures IsRun(t, steps) && Final(t, steps).tc.signals == 1
    ensures t.tc.check && Tidy(t) ==> Final(t, steps).tc.err == 0
    decreases StepsLeft(t)
  {
    steps := [];
    LapsLeft(t);
    if t.tc.laps != 0 {
      var s := Progress(t);
      StepInv(t, s);
      StepTakesOne(t, s);
      LapsLeft(After(t, s));
      if t.tc.check && Tidy(t) {
        StepTidy(t, s);
      }
      assert After(t, s).tc.check == t.tc.check;
      hide Inv, StepsLeft, Enabled, After, Tidy;
      var rest := CanFinish(After(t, s));
      steps := [s] + rest;
      assert steps[1..] == rest;
    }
  }

  /** Completion can be signalled exactly for tests with at least one lap and one job. */
  lemma SignalReachableIff(t: Test)
    requires Fresh(t)
    ensures (exists steps :: IsRun(Started(t), steps) && Final(Started(t), steps).tc.signals > 0)
            <==> t.tc.laps > 0 && t.tc.Jobs() > 0
  {
    if t.tc.laps > 0 && t.tc.Jobs() > 0 {
      StartedInv(t);
      var steps := CanFinish(Started(t));
    } else {
      forall steps | IsRun(Started(t), steps) ensures Final(Started(t), steps).tc.signals == 0 {
        if t.tc.laps <= 0 {
          NeverSignals(Started(t), steps);
        } else {
          NoJobsNoSignal(Started(t), steps);
        }
      }
    }
  }

  /** err is overwritten at the end of every lap: with any engine at all, faithful or not, it reports
      the last lap only. */
  lemma ErrIsLastVerdict(t: Test, steps: seq<Step>)
    requires Fresh(t) && t.tc.laps > 0 && t.tc.Jobs() > 0 && IsRun(Started(t), steps) && t.tc.check
    requires Final(Started(t), steps).tc.signals == 1
    ensures var end := Final(Started(t), steps).tc; end.err == 0 <==> end.dst == end.src
  {
    StartedInv(t);
    RunInv(Started(t), steps);
    RunKeepsSize(Started(t), steps);
    hide Final, IsRun;
  }

  // The work item on its own

  /** Submitting the jobs from next on, with no step of the engine in between. */
  function SubmitAll(dst: seq<Buffer>, next: nat): seq<Step>
    decreases |dst| - next
  {
    if next >= |dst| then [EndWork] else [Submit(dst[next])] + SubmitAll(dst, next + 1)
  }

  /** All that the work item does: begin, submit every job in order, return. */
  function WorkItem(dst: seq<Buffer>): seq<Step> {
    [Begin] + SubmitAll(dst, 0)
  }

  function JobsFrom(next: nat, n: nat): set<nat>
    decreases n - next
  {
    if next >= n then {} else {next} + JobsFrom(next + 1, n)
  }

  lemma {:induction false} JobsFromNext(next: nat, n: nat, j: nat)
    ensures j in JobsFrom(next, n) <==> next <= j < n
    decreases n - next
  {
    if next < n {
      JobsFromNext(next + 1, n, j);
    }
  }

  lemma {:induction false} SubmitsAll(t: Test, next: nat)
    requires t.worker == Running(next) && next <= |t.tc.dst| == |t.tc.src|
    ensures var steps := SubmitAll(t.tc.dst, next);
            && IsRun(t, steps)
            && Final(t, steps) == t.(worker := Idle, active := t.active + JobsFrom(next, |t.tc.dst|))
    decreases |t.tc.dst| - next
  {
    var steps := SubmitAll(t.tc.dst, next);
    var t' := After(t, steps[0]);
    assert steps == [steps[0]] + steps[1..];
    if next < |t.tc.dst| {
      assert t.tc.dst[next := t.tc.dst[next]] == t.tc.dst;
      assert steps[1..] == SubmitAll(t.tc.dst, next + 1);
      SubmitsAll(t', next + 1);
    } else {
      assert steps[1..] == [];
      assert IsRun(t', []) && Final(t', []) == t';
    }
  }

  lemma WorkItemRuns(t: Test)
    requires t.tc.queued && t.worker.Idle? && |t.tc.dst| == |t.tc.src|
    ensures var steps := WorkItem(t.tc.dst);
            && IsRun(t, steps)
            && Final(t, steps) == t.(tc := t.tc.(queued := false), active := t.active + JobsFrom(0, |t.tc.dst|))
  {
    var steps, t' := WorkItem(t.tc.dst), After(t, Begin);
    assert steps[1..] == SubmitAll(t.tc.dst, 0);
    SubmitsAll(t', 0);
  }

  // What err tells about the laps before the last

  /** The callback that completes a lap, and checks its payload. */
  predicate EndsLap(t: Test, s: Step) {
    s.Callback? && t.tc.jobCounter + 1 == t.tc.Jobs()
  }

  /** Every payload check of the run found what was sent. */
  ghost predicate LapsClean(t: Test, steps: seq<Step>)
    requires IsRun(t, steps)
    decreases |steps|
  {
    steps != [] ==> (EndsLap(t, steps[0]) ==> Verdict(t.tc) == 0) && LapsClean(After(t, steps[0]), steps[1..])
  }

  /** The run has signalled completion, and err is 0. */
  ghost predicate Passed(t: Test, steps: seq<Step>)
    requires IsRun(t, steps)
  {
    Final(t, steps).tc.signals == 1 && Final(t, steps).tc.err == 0
  }

  /** A faithful engine passes every check. */
  lemma {:induction false} FaithfulLapsClean(t: Test, steps: seq<Step>)
    requires Inv(t) && Copied(t) && t.tc.check && IsRun(t, steps) && FaithfulRun(t, steps)
    ensures LapsClean(t, steps)
    decreases |steps|
  {
    if steps != [] {
      StepInv(t, steps[0]);
      StepCopied(t, steps[0]);
      assert EndsLap(t, steps[0]) ==> After(t, steps[0]).tc.err == Verdict(t.tc);
      hide Inv, Copied, Enabled, Faithful;
      FaithfulLapsClean(After(t, steps[0]), steps[1..]);
    }
  }

  lemma {:induction false} ErrStays(t: Test, steps: seq<Step>)
    requires Inv(t) && t.tc.laps == 0 && IsRun(t, steps)
    ensures Final(t, steps).tc.err == t.tc.err
    decreases |steps|
  {
    if steps != [] {
      StepInv(t, steps[0]);
      ErrStays(After(t, steps[0]), steps[1..]);
    }
  }

  /** In the last lap a wrong payload shows in err for good. */
  lemma {:induction false} LastLapClean(t: Test, steps: seq<Step>)
    requires Inv(t) && 0 <= t.tc.laps <= 1 && t.tc.check && IsRun(t, steps) && Final(t, steps).tc.err == 0
    ensures LapsClean(t, steps)
    decreases |steps|
  {
    if steps != [] {
      var s := steps[0];
      StepInv(t, s);
      if t.tc.laps == 1 && EndsLap(t, s) {
        ErrStays(After(t, s), steps[1..]);
        assert After(t, s).tc.err == Verdict(t.tc);
      }
      LastLapClean(After(t, s), steps[1..]);
    }
  }

  /** The test transfers no byte at all. */
  predicate NoBytes(src: seq<Buffer>) {
    forall j, i :: 0 <= j < |src| && 0 <= i < |src[j]| ==> src[j][i] == []
  }

  lemma NothingToCheck(tc: Tc)
    requires SameShapes(tc.dst, tc.src) && NoBytes(tc.src)
    ensures Verdict(tc) == 0
  {
    forall j | 0 <= j < |tc.src| ensures tc.dst[j] == tc.src[j] {
      assert SameShape(tc.dst[j], tc.src[j]);
    }
  }

  lemma {:induction false} NoBytesClean(t: Test, steps: seq<Step>)
    requires Inv(t) && NoBytes(t.tc.src) && IsRun(t, steps)
    ensures LapsClean(t, steps)
    decreases |steps|
  {
    NothingToCheck(t.tc);
    if steps != [] {
      StepInv(t, steps[0]);
      hide Inv, NoBytes, Verdict, SameShapes;
      NoBytesClean(After(t, steps[0]), steps[1..]);
    }
  }

  /** Job j has a first byte in its buffer i. */
  predicate HasByte(src: seq<Buffer>, j: nat, i: nat) {
    j < |src| && i < |src[j]| && src[j][i] != []
  }

  lemma SomeByte(src: seq<Buffer>) returns (j: nat, i: nat)
    requires !NoBytes(src)
    ensures HasByte(src, j, i)
  {
    j, i :| 0 <= j < |src| && 0 <= i < |src[j]| && src[j][i] != [];
  }

  /** A buffer whose first byte arrived wrong. */
  function Flipped(b: Buffer, i: nat): (f: Buffer)
    requires i < |b| && b[i] != []
    ensures f != b && SameShape(f, b)
  {
    var f := b[i := b[i][0 := if b[i][0] == 0 then 1 else 0]];
    assert f[i][0] != b[i][0];
    f
  }

  /** The engine has not left the right data in target j. */
  predicate Spoiled(t: Test, j: nat) {
    j < Submitted(t) && j !in t.active && j < |t.tc.src| == |t.tc.dst| ==> t.tc.dst[j] != t.tc.src[j]
  }

  /** A step towards the end of a lap whose check fails. */
  lemma SpoilStep(t: Test, j: nat, i: nat) returns (s: Step)
    requires Inv(t) && Spoiled(t, j) && HasByte(t.tc.src, j, i) && t.tc.laps > 1
    ensures Enabled(t, s)
    ensures if EndsLap(t, s) then Verdict(t.tc) == -1 && After(t, s).tc.laps == t.tc.laps - 1 && After(t, s).tc.queued
            else Spoiled(After(t, s), j) && After(t, s).tc.laps == t.tc.laps
  {
    s := Progress(t);
    if s.Complete? && s.job == j {
      SpoiledData(t, j, i);
      s := Complete(j, Flipped(t.tc.src[j], i));
    }
    if EndsLap(t, s) {
      SpoiledLapEnds(t, s, j);
    } else {
      StaysSpoiled(t, s, j);
    }
    hide *;
  }

  lemma SpoiledLapEnds(t: Test, s: Step, j: nat)
    requires Inv(t) && Spoiled(t, j) && j < |t.tc.src| && t.tc.laps > 1 && Enabled(t, s) && EndsLap(t, s)
    ensures Verdict(t.tc) == -1 && After(t, s).tc.laps == t.tc.laps - 1 && After(t, s).tc.queued
  {
    hide SameShape;
    CallbackInv(t, s);
    assert Submitted(t) == t.tc.Jobs();
    assert t.tc.dst[j] != t.tc.src[j];
  }

  lemma StaysSpoiled(t: Test, s: Step, j: nat)
    requires Inv(t) && Spoiled(t, j) && t.tc.laps > 1 && Enabled(t, s) && !EndsLap(t, s)
    requires s.Complete? && s.job == j && j < |t.tc.src| ==> s.data != t.tc.src[j]
    ensures Spoiled(After(t, s), j) && After(t, s).tc.laps == t.tc.laps
  {
    hide SameShape, Verdict;
  }

  lemma SpoiledData(t: Test, j: nat, i: nat)
    requires SameShapes(t.tc.dst, t.tc.src) && HasByte(t.tc.src, j, i)
    ensures SameShape(Flipped(t.tc.src[j], i), t.tc.dst[j])
  {
    assert SameShape(t.tc.dst[j], t.tc.src[j]);
    hide Flipped;
  }

  /** A run that spoils the first lap and completes with err 0 all the same. */
  lemma {:induction false} SpoiledRun(t: Test, j: nat, i: nat) returns (steps: seq<Step>)
    requires Inv(t) && Spoiled(t, j) && HasByte(t.tc.src, j, i) && t.tc.laps > 1 && t.tc.check
    ensures IsRun(t, steps) && Final(t, steps).tc.signals == 1 && Final(t, steps).tc.err == 0
    ensures !LapsClean(t, steps)
    decreases StepsLeft(t)
  {
    var s := SpoilStep(t, j, i);
    var t' := After(t, s);
    StepInv(t, s);
    StepTakesOne(t, s);
    LapsLeft(t);
    LapsLeft(t');
    assert t'.tc.check && t'.tc.src == t.tc.src;
    var rest;
    if EndsLap(t, s) {
      assert Tidy(t');
      rest := CanFinish(t');
    } else {
      rest := SpoiledRun(t', j, i);
    }
    steps := [s] + rest;
    hide Inv, StepsLeft, Enabled, After, Tidy, Spoiled;
    assert steps[1..] == rest;
  }

  /** With more than one lap and some byte to transfer, an engine that gets one byte of a lap wrong goes
      unnoticed. */
  lemma EarlierErrorIsLost(t: Test) returns (steps: seq<Step>)
    requires Fresh(t) && t.tc.laps > 1 && t.tc.Jobs() > 0 && t.tc.check && !NoBytes(t.tc.src)
    ensures IsRun(Started(t), steps) && Passed(Started(t), steps)
    ensures !LapsClean(Started(t), steps) && !FaithfulRun(Started(t), steps)
  {
    StartedInv(t);
    var j, i := SomeByte(t.tc.src);
    steps := SpoiledRun(Started(t), j, i);
    hide IsRun, Final, LapsClean;
    if FaithfulRun(Started(t), steps) {
      FaithfulLapsClean(Started(t), steps);
    }
  }

  /** err reports every lap exactly when there is only one, or no byte that could arrive wrong. */
  lemma ErrReportsEveryLapIff(t: Test)
    requires Fresh(t) && t.tc.laps > 0 && t.tc.Jobs() > 0 && t.tc.check
    ensures (forall steps :: IsRun(Started(t), steps) && Passed(Started(t), steps) ==> LapsClean(Started(t), steps))
            <==> t.tc.laps == 1 || NoBytes(t.tc.src)
  {
    var t0 := Started(t);
    StartedInv(t);
    hide IsRun, Final, LapsClean, Inv, NoBytes;
    if t.tc.laps == 1 || NoBytes(t.tc.src) {
      forall steps | IsRun(t0, steps) && Passed(t0, steps) ensures LapsClean(t0, steps) {
        if t.tc.laps == 1 {
          LastLapClean(t0, steps);
        } else {
          NoBytesClean(t0, steps);
        }
      }
    } else {
      var steps := EarlierErrorIsLost(t);
    }
  }
}
