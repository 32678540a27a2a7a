/** Several DMA channels at once: the main thread starts, awaits and frees the test cases while the
    channels take their steps in any order (tc_run_parallel in
    kernel/testcases/dma/kernel_space/dma_test_module.c). */
module DmaParallel {
  import opened Arithmetic
  import opened DmaTest

  const EINVAL := 22

  /** Where the main thread is in its three loops over the channels. */
  datatype Main = Starting(i: nat) | Waiting(i: nat) | Freeing(i: nat) | Returned(err: int)

  /** tests are the channels tc_test_init could set up; those below first are never started. freed are the
      channels whose buffers tc_test_free has given back, in order. */
  datatype State = State(tests: seq<Test>, first: nat, main: Main, freed: seq<nat>)

  datatype Action = MainStep | Chan(i: nat, step: Step)

  /** A wait returns once done was signalled; destroy_workqueue returns once the work item did. */
  predicate CanAct(p: State, a: Action) {
    match a
    case Chan(i, s) => i < |p.tests| && Enabled(p.tests[i], s)
    case MainStep =>
      match p.main
      case Starting(_) => true
      case Waiting(i) => i < |p.tests| ==> p.tests[i].tc.signals > 0
      case Freeing(i) => i < |p.tests| ==> !p.tests[i].tc.queued && p.tests[i].worker.Idle?
      case Returned(_) => false
  }

  /** err |= tc[i].err over all channels, each err being 0 or -1. */
  function OrErrs(tests: seq<Test>): int {
    if tests == [] then 0
    else
      var err := OrErrs(tests[..|tests| - 1]);
      if err == 0 then tests[|tests| - 1].tc.err else err
  }

  function Act(p: State, a: Action): State
    requires CanAct(p, a)
  {
    match a
    case Chan(i, s) => p.(tests := p.tests[i := After(p.tests[i], s)])
    case MainStep =>
      match p.main
      case Starting(i) =>
        if i < |p.tests| then p.(tests := p.tests[i := Started(p.tests[i])], main := Starting(i + 1))
        else p.(main := Waiting(p.first))
      case Waiting(i) => p.(main := if i < |p.tests| then Waiting(i + 1) else Freeing(0))
      case Freeing(i) =>
        if i < |p.tests| then p.(main := Freeing(i + 1), freed := p.freed + [i]) else p.(main := Returned(Result(p.tests)))
      case Returned(_) => p
  }

  ghost predicate IsRun(p: State, actions: seq<Action>)
    decreases |actions|
  {
    actions != [] ==> CanAct(p, actions[0]) && IsRun(Act(p, actions[0]), actions[1..])
  }

  ghost function Final(p: State, actions: seq<Action>): State
    requires IsRun(p, actions)
    decreases |actions|
  {
    if actions == [] then p else Final(Act(p, actions[0]), actions[1..])
  }

  ghost predicate FaithfulRun(p: State, actions: seq<Action>)
    requires IsRun(p, actions)
    decreases |actions|
  {
    actions != [] ==>
      && (actions[0].Chan? ==> Faithful(p.tests[actions[0].i], actions[0].step))
      && FaithfulRun(Act(p, actions[0]), actions[1..])
  }

  /** Every payload check of the run, on any channel, found what was sent. */
  ghost predicate LapsClean(p: State, actions: seq<Action>)
    requires IsRun(p, actions)
    decreases |actions|
  {
    actions != [] ==>
      && (actions[0].Chan? && EndsLap(p.tests[actions[0].i], actions[0].step) ==> Verdict(p.tests[actions[0].i].tc) == 0)
      && LapsClean(Act(p, actions[0]), actions[1..])
  }

  /** Every test set up, with work to do and its buffers checked. */
  predicate Ready(t: Test) {
    Fresh(t) && t.tc.laps > 0 && t.tc.Jobs() > 0 && t.tc.check
  }

  /** With no channel set up at all the run is over before it starts. */
  ghost predicate AtStart(p: State) {
    && p.main == (if p.tests == [] then Returned(-EINVAL) else Starting(p.first)) && p.freed == []
    && forall i :: 0 <= i < |p.tests| ==> Ready(p.tests[i])
  }

  /** The value returned at the end. */
  function Result(tests: seq<Test>): int {
    if tests == [] then -EINVAL else OrErrs(tests)
  }

  // What every action keeps

  predicate WasStarted(p: State, i: nat) {
    p.first <= i && (p.main.Starting? ==> i < p.main.i)
  }

  predicate WasAwaited(p: State, i: nat) {
    p.first <= i && (p.main.Freeing? || p.main.Returned? || (p.main.Waiting? && i < p.main.i))
  }

  predicate WasFreed(p: State, i: nat) {
    p.main.Returned? || (p.main.Freeing? && i < p.main.i)
  }

  ghost predicate ChannelInv(p: State, i: nat, t: Test) {
    && t.tc.check
    && (if WasStarted(p, i) then Inv(t) && t.tc.laps >= 0 && (t.tc.err == 0 || t.tc.err == -1) else Ready(t))
    && (WasAwaited(p, i) ==> t.tc.laps == 0)
    && (WasFreed(p, i) ==> t.worker.Idle?)
  }

  ghost predicate StateInv(p: State) {
    && (forall i :: 0 <= i < |p.tests| ==> ChannelInv(p, i, p.tests[i]))
    && (p.main.Starting? || p.main.Waiting? ==> p.first <= p.main.i)
    && (p.main.Freeing? ==> p.main.i <= |p.tests|)
    && (p.main.Returned? ==> p.main.err == Result(p.tests))
    && |p.freed| == Freed(p) && forall k :: 0 <= k < |p.freed| ==> p.freed[k] == k
  }

  /** How many channels are freed already. */
  function Freed(p: State): nat {
    if p.main.Returned? then |p.tests| else if p.main.Freeing? && p.main.i <= |p.tests| then p.main.i else 0
  }

  lemma StepKeepsSign(t: Test, s: Step)
    requires Inv(t) && t.tc.laps >= 0 && Enabled(t, s) && (t.tc.err == 0 || t.tc.err == -1)
    ensures var tc := After(t, s).tc; tc.laps >= 0 && (tc.err == 0 || tc.err == -1) && tc.check == t.tc.check
  {
    if s.Callback? {
      CallbackInv(t, s);
    }
  }

  /** A channel that was not started, or was awaited and freed, has no step left to take. */
  lemma NothingEnabled(p: State, i: nat, t: Test, s: Step)
    requires ChannelInv(p, i, t) && (!WasStarted(p, i) || WasFreed(p, i))
    ensures !Enabled(t, s)
  {
  }

  lemma ChannelStep(p: State, i: nat, t: Test, s: Step)
    requires ChannelInv(p, i, t) && Enabled(t, s)
    ensures WasStarted(p, i) && !WasFreed(p, i) && ChannelInv(p, i, After(t, s))
  {
    if !WasStarted(p, i) || WasFreed(p, i) {
      NothingEnabled(p, i, t, s);
    } else {
      StepInv(t, s);
      StepKeepsSign(t, s);
      if t.tc.laps == 0 {
        assert s.EndWork?;
      }
    }
  }

  lemma ActInv(p: State, a: Action)
    requires StateInv(p) && CanAct(p, a)
    ensures StateInv(Act(p, a))
  {
    var p' := Act(p, a);
    match a
    case Chan(k, s) =>
      hide Enabled, After;
      ChannelStep(p, k, p.tests[k], s);
      forall i | 0 <= i < |p.tests| ensures ChannelInv(p', i, p'.tests[i]) {
        assert ChannelInv(p, i, p.tests[i]);
      }
    case MainStep =>
      forall i | 0 <= i < |p.tests| ensures ChannelInv(p', i, p'.tests[i]) {
        MainStepInv(p, i);
      }
  }

  lemma MainStepInv(p: State, i: nat)
    requires StateInv(p) && CanAct(p, MainStep) && i < |p.tests|
    ensures ChannelInv(Act(p, MainStep), i, Act(p, MainStep).tests[i])
  {
    assert ChannelInv(p, i, p.tests[i]);
    if p.main == Starting(i) {
      StartedInv(p.tests[i]);
    }
  }

  lemma {:induction false} RunKeepsInv(p: State, actions: seq<Action>)
    requires StateInv(p) && IsRun(p, actions)
    ensures StateInv(Final(p, actions)) && |Final(p, actions).tests| == |p.tests| && Final(p, actions).first == p.first
    decreases |actions|
  {
    if actions != [] {
      ActInv(p, actions[0]);
      hide StateInv, CanAct;
      RunKeepsInv(Act(p, actions[0]), actions[1..]);
    }
  }

  // Safety

  /** No channel is freed before every started channel is quiescent, and a freed channel never takes
      another step. */
  lemma FreedIsQuiescent(p: State, actions: seq<Action>, i: nat, k: nat)
    requires AtStart(p) && IsRun(p, actions) && i < |p.tests| && k < |p.tests|
    requires k in Final(p, actions).freed
    ensures var end := Final(p, actions);
            && |end.tests| == |p.tests|
            && (p.first <= i ==> Quiescent(end.tests[i]) && end.tests[i].tc.signals == 1)
            && (p.first > i ==> Fresh(end.tests[i]))
            && forall s :: !CanAct(end, Chan(k, s))
  {
    assert StateInv(p);
    RunKeepsInv(p, actions);
    var end := Final(p, actions);
    hide Final, IsRun, Fresh, Verdict;
    assert WasFreed(end, k);
    assert ChannelInv(end, i, end.tests[i]) && ChannelInv(end, k, end.tests[k]);
    forall s ensures !CanAct(end, Chan(k, s)) {
      NothingEnabled(end, k, end.tests[k], s);
    }
  }

  /** When the run returns, every channel set up has been freed, once and in order. */
  lemma EachFreedOnce(p: State, actions: seq<Action>)
    requires AtStart(p) && IsRun(p, actions) && Final(p, actions).main.Returned?
    ensures var freed := Final(p, actions).freed;
            |freed| == |p.tests| && forall k :: 0 <= k < |p.tests| ==> freed[k] == k
  {
    assert StateInv(p);
    RunKeepsInv(p, actions);
    hide Final, IsRun;
  }

  lemma {:induction false} OrErrsZero(tests: seq<Test>)
    ensures OrErrs(tests) == 0 <==> forall i :: 0 <= i < |tests| ==> tests[i].tc.err == 0
  {
    if tests != [] {
      OrErrsZero(tests[..|tests| - 1]);
    }
  }

  lemma {:induction false} OrErrsSign(tests: seq<Test>)
    requires forall i :: 0 <= i < |tests| ==> tests[i].tc.err == 0 || tests[i].tc.err == -1
    ensures OrErrs(tests) == 0 || OrErrs(tests) == -1
  {
    if tests != [] {
      OrErrsSign(tests[..|tests| - 1]);
    }
  }

  /** The result is -EINVAL without a channel, 0 when on every started channel the last lap's buffers agree,
      and -1 otherwise, whatever the engine did. */
  lemma ResultIsLastVerdict(p: State, actions: seq<Action>)
    requires AtStart(p) && IsRun(p, actions) && Final(p, actions).main.Returned?
    ensures var end := Final(p, actions);
            end.main.err ==
              if p.tests == [] then -22
              else if forall i :: p.first <= i < |end.tests| ==> end.tests[i].tc.dst == end.tests[i].tc.src then 0
              else -1
  {
    assert StateInv(p);
    RunKeepsInv(p, actions);
    var end := Final(p, actions);
    forall i | 0 <= i < |end.tests| ensures end.tests[i].tc.err == 0 || end.tests[i].tc.err == -1 {
      assert ChannelInv(end, i, end.tests[i]);
    }
    OrErrsZero(end.tests);
    OrErrsSign(end.tests);
    hide Final, IsRun, OrErrs;
    forall i | 0 <= i < |p.tests|
      ensures end.tests[i].tc.err == 0 <==> (p.first <= i ==> end.tests[i].tc.dst == end.tests[i].tc.src)
    {
      assert ChannelInv(end, i, end.tests[i]);
    }
  }

  ghost predicate AllCopied(p: State) {
    forall i :: 0 <= i < |p.tests| && WasStarted(p, i) ==> Copied(p.tests[i])
  }

  lemma ActCopied(p: State, a: Action)
    requires StateInv(p) && AllCopied(p) && CanAct(p, a)
    requires a.Chan? ==> Faithful(p.tests[a.i], a.step)
    ensures AllCopied(Act(p, a))
  {
    match a
    case Chan(k, s) =>
      assert ChannelInv(p, k, p.tests[k]);
      ChannelStep(p, k, p.tests[k], s);
      StepCopied(p.tests[k], s);
    case MainStep =>
      if p.main.Starting? && p.main.i < |p.tests| {
        assert ChannelInv(p, p.main.i, p.tests[p.main.i]);
      }
  }

  lemma {:induction false} RunCopied(p: State, actions: seq<Action>)
    requires StateInv(p) && AllCopied(p) && IsRun(p, actions) && FaithfulRun(p, actions)
    ensures AllCopied(Final(p, actions))
    decreases |actions|
  {
    if actions != [] {
      ActInv(p, actions[0]);
      ActCopied(p, actions[0]);
      hide StateInv, CanAct, AllCopied;
      RunCopied(Act(p, actions[0]), actions[1..]);
    }
  }

  /** With faithful engines a run on any channels reports success, however they interleave. */
  lemma FaithfulRunSucceeds(p: State, actions: seq<Action>)
    requires AtStart(p) && IsRun(p, actions) && FaithfulRun(p, actions) && Final(p, actions).main.Returned?
    ensures Final(p, actions).main.err == if p.tests == [] then -EINVAL else 0
  {
    assert StateInv(p) && AllCopied(p);
    RunCopied(p, actions);
    RunKeepsInv(p, actions);
    var end := Final(p, actions);
    OrErrsZero(end.tests);
    hide Final, IsRun, OrErrs, FaithfulRun;
    forall i | 0 <= i < |p.tests| ensures end.tests[i].tc.err == 0 {
      assert ChannelInv(end, i, end.tests[i]);
    }
  }

  // Termination

  /** The steps a channel has left, counting its whole test when it is yet to be started. */
  function ChannelLeft(p: State, i: nat): int
    requires i < |p.tests|
  {
    if i < p.first then 0
    else if WasStarted(p, i) then StepsLeft(p.tests[i])
    else StepsLeft(Started(p.tests[i]))
  }

  function ChannelsLeft(p: State): (s: seq<int>)
    ensures |s| == |p.tests|
  {
    seq(|p.tests|, i requires 0 <= i < |p.tests| => ChannelLeft(p, i))
  }

  function LoopLeft(i: nat, n: nat): nat {
    if i < n then n - i + 1 else 1
  }

  function MainLeft(p: State): nat {
    var n := |p.tests|;
    match p.main
    case Starting(i) => LoopLeft(i, n) + LoopLeft(p.first, n) + n + 1
    case Waiting(i) => LoopLeft(i, n) + n + 1
    case Freeing(i) => LoopLeft(i, n)
    case Returned(_) => 0
  }

  function ActionsLeft(p: State): int {
    MainLeft(p) + Sum(ChannelsLeft(p))
  }

  /** Every action, of any thread, uses up exactly one. */
  lemma ActTakesOne(p: State, a: Action)
    requires StateInv(p) && CanAct(p, a)
    ensures ActionsLeft(Act(p, a)) == ActionsLeft(p) - 1
  {
    match a
    case Chan(k, s) => ChannelTakesOne(p, k, s);
    case MainStep =>
      hide StepsLeft, Inv, Enabled, Fresh, OrErrs, Sum;
      var p' := Act(p, a);
      forall i | 0 <= i < |p.tests| ensures ChannelLeft(p', i) == ChannelLeft(p, i) {
      }
      assert ChannelsLeft(p') == ChannelsLeft(p);
  }

  lemma ChannelTakesOne(p: State, k: nat, s: Step)
    requires StateInv(p) && CanAct(p, Chan(k, s))
    ensures ActionsLeft(Act(p, Chan(k, s))) == ActionsLeft(p) - 1
  {
    var t, before, p' := p.tests[k], ChannelsLeft(p), Act(p, Chan(k, s));
    assert ChannelInv(p, k, t);
    ChannelStep(p, k, t, s);
    StepTakesOne(t, s);
    hide StepsLeft, Inv, Enabled, Fresh, After, StateInv, ChannelInv, Sum;
    SumUpdate(before, k, before[k] - 1);
    assert ChannelsLeft(p') == before[k := before[k] - 1];
  }

  lemma {:induction false} RunUsesUp(p: State, actions: seq<Action>)
    requires StateInv(p) && IsRun(p, actions)
    ensures ActionsLeft(Final(p, actions)) == ActionsLeft(p) - |actions|
    decreases |actions|
  {
    if actions != [] {
      ActInv(p, actions[0]);
      ActTakesOne(p, actions[0]);
      hide StateInv, CanAct, ActionsLeft, Act;
      RunUsesUp(Act(p, actions[0]), actions[1..]);
    }
  }

  lemma LeftIsNat(p: State)
    requires StateInv(p)
    ensures ActionsLeft(p) >= 0
  {
    forall i | 0 <= i < |p.tests| ensures ChannelLeft(p, i) >= 0 {
      assert ChannelInv(p, i, p.tests[i]);
      if WasStarted(p, i) {
        LapsLeft(p.tests[i]);
      } else if p.first <= i {
        StartedInv(p.tests[i]);
        LapsLeft(Started(p.tests[i]));
      }
    }
    SumNat(ChannelsLeft(p));
  }

  /** The run never blocks before it returns. */
  lemma Unblocked(p: State) returns (a: Action)
    requires StateInv(p) && !p.main.Returned?
    ensures CanAct(p, a) && (a.Chan? ==> Faithful(p.tests[a.i], a.step))
  {
    a := MainStep;
    if p.main.Waiting? && p.main.i < |p.tests| && p.tests[p.main.i].tc.signals == 0 {
      var t := p.tests[p.main.i];
      assert ChannelInv(p, p.main.i, t);
      if WasStarted(p, p.main.i) {
        var s := Progress(t);
        a := Chan(p.main.i, s);
      }
    } else if p.main.Freeing? && p.main.i < |p.tests| && p.tests[p.main.i].worker.Running? {
      assert ChannelInv(p, p.main.i, p.tests[p.main.i]);
      a := Chan(p.main.i, EndWork);
    } else if p.main.Freeing? && p.main.i < |p.tests| {
      assert ChannelInv(p, p.main.i, p.tests[p.main.i]);
    }
  }

  /** Every schedule ends: no run is longer than the measure at the start, and one that cannot go on
      has returned. */
  lemma EveryScheduleReturns(p: State, actions: seq<Action>)
    requires AtStart(p) && IsRun(p, actions)
    ensures |actions| <= ActionsLeft(p)
    ensures (forall a :: !CanAct(Final(p, actions), a)) ==> Final(p, actions).main.Returned?
  {
    assert StateInv(p);
    RunKeepsInv(p, actions);
    RunUsesUp(p, actions);
    LeftIsNat(Final(p, actions));
    hide Final, IsRun, ActionsLeft;
    if !Final(p, actions).main.Returned? {
      var a := Unblocked(Final(p, actions));
    }
  }

  // What the result tells about the laps before the last

  lemma {:induction false} ErrStaysHere(p: State, actions: seq<Action>, k: nat)
    requires StateInv(p) && IsRun(p, actions) && p.first <= k < |p.tests| && WasStarted(p, k) && p.tests[k].tc.laps == 0
    ensures k < |Final(p, actions).tests| && Final(p, actions).tests[k].tc.err == p.tests[k].tc.err
    decreases |actions|
  {
    if actions != [] {
      OverStays(p, actions[0], k);
      ActInv(p, actions[0]);
      hide StateInv, CanAct, Act, WasStarted;
      ErrStaysHere(Act(p, actions[0]), actions[1..], k);
    }
  }

  lemma OverStays(p: State, a: Action, k: nat)
    requires StateInv(p) && CanAct(p, a) && p.first <= k < |p.tests| && WasStarted(p, k) && p.tests[k].tc.laps == 0
    ensures var p' := Act(p, a);
            && |p'.tests| == |p.tests| && p'.first == p.first && WasStarted(p', k)
            && p'.tests[k].tc.laps == 0 && p'.tests[k].tc.err == p.tests[k].tc.err
  {
    assert ChannelInv(p, k, p.tests[k]);
  }

  /** Every started channel has its last lap to go at most, or no byte to transfer. */
  predicate Telling(p: State) {
    forall i :: p.first <= i < |p.tests| ==> p.tests[i].tc.laps <= 1 || NoBytes(p.tests[i].tc.src)
  }

  lemma LapsFall(t: Test, s: Step)
    requires Enabled(t, s)
    ensures After(t, s).tc.laps <= t.tc.laps && After(t, s).tc.src == t.tc.src
  {
    hide Verdict, SameShape;
  }

  lemma StaysTelling(p: State, a: Action)
    requires CanAct(p, a) && Telling(p)
    ensures Telling(Act(p, a)) && Act(p, a).first == p.first && |Act(p, a).tests| == |p.tests|
  {
    if a.Chan? {
      LapsFall(p.tests[a.i], a.step);
      hide After, Enabled;
    }
    hide NoBytes;
  }

  /** On such channels a wrong payload shows in the result for good. */
  lemma {:induction false} TellingLapsClean(p: State, actions: seq<Action>)
    requires StateInv(p) && Telling(p) && IsRun(p, actions)
    requires forall i :: 0 <= i < |Final(p, actions).tests| ==> Final(p, actions).tests[i].tc.err == 0
    ensures LapsClean(p, actions)
    decreases |actions|
  {
    if actions != [] {
      var a := actions[0];
      var p' := Act(p, a);
      ActInv(p, a);
      StaysTelling(p, a);
      assert Final(p, actions) == Final(p', actions[1..]);
      if a.Chan? && EndsLap(p.tests[a.i], a.step) {
        CheckedForGood(p, a.i, a.step);
        assert a == Chan(a.i, a.step);
        if p'.tests[a.i].tc.laps == 0 {
          ErrStaysHere(p', actions[1..], a.i);
        }
      }
      hide StateInv, CanAct, Act, Telling, EndsLap;
      TellingLapsClean(p', actions[1..]);
    }
  }

  lemma CheckedForGood(p: State, k: nat, s: Step)
    requires StateInv(p) && Telling(p) && CanAct(p, Chan(k, s)) && EndsLap(p.tests[k], s)
    ensures var p' := Act(p, Chan(k, s));
            && p'.first == p.first <= k < |p'.tests| && WasStarted(p', k)
            && if p'.tests[k].tc.laps == 0 then p'.tests[k].tc.err == Verdict(p.tests[k].tc)
               else Verdict(p.tests[k].tc) == 0
  {
    assert ChannelInv(p, k, p.tests[k]);
    ChannelStep(p, k, p.tests[k], s);
    if NoBytes(p.tests[k].tc.src) {
      NothingToCheck(p.tests[k].tc);
    }
    hide Verdict, NoBytes, SameShape, SameShapes;
  }

  /** Every started channel can still end with err 0. */
  ghost predicate AllTidy(p: State) {
    forall i :: 0 <= i < |p.tests| && WasStarted(p, i) ==> Tidy(p.tests[i])
  }

  lemma ActTidy(p: State, a: Action)
    requires StateInv(p) && AllTidy(p) && CanAct(p, a)
    requires a.Chan? ==> Faithful(p.tests[a.i], a.step)
    ensures AllTidy(Act(p, a))
  {
    match a
    case Chan(k, s) =>
      assert ChannelInv(p, k, p.tests[k]);
      ChannelStep(p, k, p.tests[k], s);
      StepTidy(p.tests[k], s);
    case MainStep =>
      if p.main.Starting? && p.main.i < |p.tests| {
        assert ChannelInv(p, p.main.i, p.tests[p.main.i]);
      }
  }

  lemma TidyResult(p: State)
    requires StateInv(p) && AllTidy(p) && p.main.Returned? && p.tests != []
    ensures p.main.err == 0
  {
    OrErrsZero(p.tests);
    forall i | 0 <= i < |p.tests| ensures p.tests[i].tc.err == 0 {
      assert ChannelInv(p, i, p.tests[i]);
    }
  }

  /** Some schedule, with faithful engines, returns 0 from here. */
  lemma {:induction false} CanReturn(p: State) returns (actions: seq<Action>)
    requires StateInv(p) && AllTidy(p) && p.tests != []
    ensures IsRun(p, actions) && Final(p, actions).main == Returned(0)
    decreases ActionsLeft(p)
  {
    actions := [];
    if p.main.Returned? {
      TidyResult(p);
    } else {
      var a := Unblocked(p);
      LeftIsNat(p);
      ActInv(p, a);
      ActTidy(p, a);
      ActTakesOne(p, a);
      assert |Act(p, a).tests| == |p.tests|;
      hide StateInv, AllTidy, CanAct, Act, ActionsLeft;
      var rest := CanReturn(Act(p, a));
      actions := [a] + rest;
      assert actions[1..] == rest;
    }
  }

  /** As AllTidy, but for channel k, which is about to be spoiled in buffer i of job j. */
  ghost predicate SpoilReady(p: State, k: nat, j: nat, i: nat) {
    && p.first <= k < |p.tests| && p.tests[k].tc.laps > 1 && HasByte(p.tests[k].tc.src, j, i)
    && (p.main.Starting? || p.main.Waiting?)
    && (WasStarted(p, k) ==> Spoiled(p.tests[k], j))
    && forall n :: 0 <= n < |p.tests| && n != k && WasStarted(p, n) ==> Tidy(p.tests[n])
  }

  lemma StartOn(p: State, k: nat, j: nat, i: nat)
    requires StateInv(p) && SpoilReady(p, k, j, i) && p.main.Starting?
    ensures SpoilReady(Act(p, MainStep), k, j, i) && StateInv(Act(p, MainStep))
    ensures ActionsLeft(Act(p, MainStep)) == ActionsLeft(p) - 1
  {
    ActInv(p, MainStep);
    ActTakesOne(p, MainStep);
    if p.main.i < |p.tests| {
      assert ChannelInv(p, p.main.i, p.tests[p.main.i]);
    }
    hide ActionsLeft, SameShape, SameShapes, HasByte;
  }

  lemma SpoilOn(p: State, k: nat, j: nat, i: nat) returns (a: Action)
    requires StateInv(p) && SpoilReady(p, k, j, i) && p.main.Waiting?
    ensures CanAct(p, a) && a.Chan? && a.i == k && StateInv(Act(p, a)) && |Act(p, a).tests| == |p.tests|
    ensures ActionsLeft(Act(p, a)) == ActionsLeft(p) - 1
    ensures if EndsLap(p.tests[k], a.step) then Verdict(p.tests[k].tc) == -1 && AllTidy(Act(p, a))
            else SpoilReady(Act(p, a), k, j, i) && Act(p, a).main.Waiting?
  {
    assert ChannelInv(p, k, p.tests[k]);
    var s := SpoilStep(p.tests[k], j, i);
    a := Chan(k, s);
    ActInv(p, a);
    ActTakesOne(p, a);
    SpoilGoesOn(p, k, j, i, s);
    hide *;
  }

  lemma SpoilGoesOn(p: State, k: nat, j: nat, i: nat, s: Step)
    requires SpoilReady(p, k, j, i) && p.main.Waiting? && Enabled(p.tests[k], s)
    ensures var t', p' := After(p.tests[k], s), Act(p, Chan(k, s));
            && |p'.tests| == |p.tests| && p'.main == p.main
            && (t'.tc.queued && t'.tc.laps > 0 ==> AllTidy(p'))
            && (Spoiled(t', j) && t'.tc.laps == p.tests[k].tc.laps ==> SpoilReady(p', k, j, i))
  {
    var t' := After(p.tests[k], s);
    assert t'.tc.src == p.tests[k].tc.src;
    assert t'.tc.queued && t'.tc.laps > 0 ==> Tidy(t');
    hide After, Enabled, Spoiled, HasByte, Tidy;
  }

  /** A schedule that starts every channel, spoils a lap of channel k, and returns 0 all the same. */
  lemma {:induction false} SpoiledSchedule(p: State, k: nat, j: nat, i: nat) returns (actions: seq<Action>)
    requires StateInv(p) && SpoilReady(p, k, j, i)
    ensures IsRun(p, actions) && Final(p, actions).main == Returned(0) && !LapsClean(p, actions)
    decreases ActionsLeft(p)
  {
    LeftIsNat(p);
    var a, rest;
    if p.main.Starting? {
      StartOn(p, k, j, i);
      a := MainStep;
      rest := SpoiledSchedule(Act(p, a), k, j, i);
    } else {
      a := SpoilOn(p, k, j, i);
      if EndsLap(p.tests[k], a.step) {
        rest := CanReturn(Act(p, a));
      } else {
        rest := SpoiledSchedule(Act(p, a), k, j, i);
      }
    }
    actions := [a] + rest;
    hide StateInv, SpoilReady, Act, ActionsLeft, EndsLap;
    assert actions[1..] == rest;
  }

  /** A result of 0 says that every lap of every channel was right exactly when every started channel has
      one lap only, or no byte that could arrive wrong. */
  lemma ResultReportsEveryLapIff(p: State)
    requires AtStart(p)
    ensures (forall actions :: IsRun(p, actions) && Final(p, actions).main == Returned(0) ==> LapsClean(p, actions))
            <==> forall i :: p.first <= i < |p.tests| ==> p.tests[i].tc.laps == 1 || NoBytes(p.tests[i].tc.src)
  {
    assert StateInv(p);
    if forall i :: p.first <= i < |p.tests| ==> p.tests[i].tc.laps == 1 || NoBytes(p.tests[i].tc.src) {
      hide NoBytes;
      assert Telling(p);
      forall actions | IsRun(p, actions) && Final(p, actions).main == Returned(0) ensures LapsClean(p, actions) {
        RunKeepsInv(p, actions);
        OrErrsZero(Final(p, actions).tests);
        hide IsRun, Final, LapsClean, Telling;
        TellingLapsClean(p, actions);
      }
    } else {
      var k :| p.first <= k < |p.tests| && p.tests[k].tc.laps != 1 && !NoBytes(p.tests[k].tc.src);
      assert Ready(p.tests[k]);
      var j, i := SomeByte(p.tests[k].tc.src);
      assert SpoilReady(p, k, j, i);
      hide IsRun, Final, LapsClean, StateInv;
      var actions := SpoiledSchedule(p, k, j, i);
    }
  }
}
