/** Forking copies of a process: every process of the growing tree runs the same loop on its own copy
    of the counters and the pid array, in any interleaving (forker in ltp_framework/lib/forker.c). */
module Forker {
  import opened Arithmetic

  const MAX_PIDS := 4098

  /** Forker_npids and Forker_pids, static in each process and copied by fork. */
  datatype Table = Table(npids: nat, pids: seq<int>)

  /** Where a process is: at the loop test, just back from fork as parent or as child, or returned. */
  datatype Phase = Looping | IsParent(child: int) | IsChild | Returned(value: int)

  datatype Proc = Proc(pid: int, cnt: int, table: Table, phase: Phase)

  datatype State = State(procs: seq<Proc>, failed: bool)

  datatype Step = Fork(i: nat, newPid: int) | ForkFails(i: nat) | Settle(i: nat) | Leave(i: nat)

  /** After a fork: count it, and store the pid while the count is below the array size. */
  function Recorded(t: Table, pid: int): Table {
    var n := t.npids + 1;
    Table(n, if n < MAX_PIDS && n - 1 < |t.pids| then t.pids[n - 1 := pid] else t.pids)
  }

  /** At the end of the loop the entry behind the last pid is cleared. */
  function Closed(t: Table): Table {
    if t.npids < MAX_PIDS && t.npids < |t.pids| then t.(pids := t.pids[t.npids := 0]) else t
  }

  predicate Enabled(st: State, ncopies: int, s: Step) {
    && s.i < |st.procs|
    && var p := st.procs[s.i];
       match s
       case Fork(_, newPid) =>
         && p.phase.Looping? && p.cnt < ncopies
         && newPid > 0 && forall j :: 0 <= j < |st.procs| ==> st.procs[j].pid != newPid
       case ForkFails(_) => p.phase.Looping? && p.cnt < ncopies
       case Settle(_) => p.phase.IsParent? || p.phase.IsChild?
       case Leave(_) => p.phase.Looping? && p.cnt >= ncopies
  }

  function Settled(p: Proc, mode: int): Proc
    requires p.phase.IsParent? || p.phase.IsChild?
  {
    var q := p.(table := Recorded(p.table, if p.phase.IsChild? then p.pid else p.phase.child));
    if mode == 1 then
      if p.phase.IsChild? then q.(cnt := p.cnt + 1, phase := Looping) else q.(phase := Returned(p.cnt - 1))
    else
      if p.phase.IsChild? then q.(phase := Returned(p.cnt)) else q.(cnt := p.cnt + 1, phase := Looping)
  }

  function After(st: State, ncopies: int, mode: int, s: Step): State
    requires Enabled(st, ncopies, s)
  {
    var p := st.procs[s.i];
    match s
    case Fork(i, newPid) =>
      st.(procs := st.procs[i := p.(phase := IsParent(newPid))] + [p.(pid := newPid, phase := IsChild)])
    case ForkFails(i) =>
      State(st.procs[i := p.(phase := Returned(if mode == 1 then 0 else p.cnt - 1))], true)
    case Settle(i) => st.(procs := st.procs[i := Settled(p, mode)])
    case Leave(i) => st.(procs := st.procs[i := p.(table := Closed(p.table), phase := Returned(p.cnt - 1))])
  }

  /** The calling process on entry, with Forker_npids == 0. */
  function Start(pid: int): State {
    State([Proc(pid, 1, Table(0, seq(MAX_PIDS, _ => 0)), Looping)], false)
  }

  ghost predicate IsRun(st: State, ncopies: int, mode: int, steps: seq<Step>)
    decreases |steps|
  {
    steps != [] ==> Enabled(st, ncopies, steps[0]) && IsRun(After(st, ncopies, mode, steps[0]), ncopies, mode, steps[1..])
  }

  ghost function Final(st: State, ncopies: int, mode: int, steps: seq<Step>): State
    requires IsRun(st, ncopies, mode, steps)
    decreases |steps|
  {
    if steps == [] then st else Final(After(st, ncopies, mode, steps[0]), ncopies, mode, steps[1..])
  }

  // What a process knows

  /** The table counts k forks and holds the pids of processes 1 .. k, as far as the array is filled: its
      last entry never is. */
  ghost predicate Knows(t: Table, procs: seq<Proc>, k: int) {
    && t.npids == k && 0 <= k < |procs| && |t.pids| == MAX_PIDS && t.pids[MAX_PIDS - 1] == 0
    && forall m :: 0 <= m < k && m < MAX_PIDS - 1 ==> t.pids[m] == procs[m + 1].pid
  }

  /** The table has the pid of the m-th fork where the documentation puts it. */
  predicate Stored(t: Table, procs: seq<Proc>, m: nat) {
    m < |t.pids| && m + 1 < |procs| && t.pids[m] == procs[m + 1].pid
  }

  /** Of the forks counted exactly the first MAX_PIDS - 1 have their pid stored. */
  ghost predicate StoresMost(t: Table, procs: seq<Proc>) {
    forall m: nat :: m < t.npids ==> (Stored(t, procs, m) <==> m < MAX_PIDS - 1)
  }

  lemma KnowsStores(t: Table, procs: seq<Proc>, k: int)
    requires Knows(t, procs, k) && ForkedPids(procs)
    ensures StoresMost(t, procs)
  {
  }

  /** fork never hands out 0. */
  predicate ForkedPids(procs: seq<Proc>) {
    forall j :: 1 <= j < |procs| ==> procs[j].pid > 0
  }

  lemma StepForkedPids(st: State, ncopies: int, mode: int, s: Step)
    requires Enabled(st, ncopies, s) && ForkedPids(st.procs)
    ensures ForkedPids(After(st, ncopies, mode, s).procs)
  {
    hide Recorded, Closed;
  }

  lemma {:induction false} RunForkedPids(st: State, ncopies: int, mode: int, steps: seq<Step>)
    requires IsRun(st, ncopies, mode, steps) && ForkedPids(st.procs)
    ensures ForkedPids(Final(st, ncopies, mode, steps).procs)
    decreases |steps|
  {
    if steps != [] {
      StepForkedPids(st, ncopies, mode, steps[0]);
      hide ForkedPids, After, Enabled;
      RunForkedPids(After(st, ncopies, mode, steps[0]), ncopies, mode, steps[1..]);
    }
  }

  lemma RecordKnows(t: Table, procs: seq<Proc>, k: int, pid: int)
    requires Knows(t, procs, k) && k + 1 < |procs| && procs[k + 1].pid == pid
    ensures Knows(Recorded(t, pid), procs, k + 1)
  {
  }

  lemma CloseKnows(t: Table, procs: seq<Proc>, k: int)
    requires Knows(t, procs, k)
    ensures Knows(Closed(t), procs, k)
  {
  }

  /** Knowledge survives any change that keeps the pids and adds processes. */
  lemma KnowsStays(t: Table, procs: seq<Proc>, procs': seq<Proc>, k: int)
    requires Knows(t, procs, k) && |procs| <= |procs'|
    requires forall j :: 0 <= j < |procs| ==> procs'[j].pid == procs[j].pid
    ensures Knows(t, procs', k)
  {
  }

  // Mode 0: a star

  /** Process 0 is the parent of all; process j returns j and knows the pids of 1 .. j. */
  ghost predicate StarProc(procs: seq<Proc>, j: nat, p: Proc, ncopies: int, failed: bool)
    requires j < |procs|
  {
    var n := |procs|;
    if j == 0 then
      match p.phase
      case Looping => p.cnt == n && Knows(p.table, procs, n - 1)
      case IsParent(child) => p.cnt == n - 1 && n > 1 && child == procs[n - 1].pid && Knows(p.table, procs, n - 2)
      case IsChild => false
      case Returned(v) => v == n - 1 && Knows(p.table, procs, n - 1) && (failed || n >= ncopies)
    else
      match p.phase
      case IsChild => p.cnt == j && Knows(p.table, procs, j - 1) && p.pid == procs[j].pid
      case Returned(v) => v == j && Knows(p.table, procs, j)
      case _ => false
  }

  ghost predicate Star(st: State, ncopies: int) {
    && st.procs != [] && (|st.procs| > 1 ==> |st.procs| <= ncopies)
    && forall j :: 0 <= j < |st.procs| ==> StarProc(st.procs, j, st.procs[j], ncopies, st.failed)
  }

  lemma StarStays(procs: seq<Proc>, procs': seq<Proc>, j: nat, p: Proc, ncopies: int, failed: bool)
    requires 0 < j < |procs| <= |procs'| && StarProc(procs, j, p, ncopies, failed)
    requires forall i :: 0 <= i < |procs| ==> procs'[i].pid == procs[i].pid
    ensures StarProc(procs', j, p, ncopies, failed)
  {
    match p.phase
    case IsChild => KnowsStays(p.table, procs, procs', j - 1);
    case Returned(_) => KnowsStays(p.table, procs, procs', j);
  }

  lemma StarStep(st: State, ncopies: int, mode: int, s: Step)
    requires Star(st, ncopies) && mode != 1 && Enabled(st, ncopies, s)
    ensures Star(After(st, ncopies, mode, s), ncopies)
  {
    var st' := After(st, ncopies, mode, s);
    var procs, procs', p := st.procs, st'.procs, st.procs[s.i];
    assert StarProc(procs, s.i, p, ncopies, st.failed);
    hide Knows, Recorded, Closed, StarProc;
    forall j | 0 <= j < |procs'| ensures StarProc(procs', j, procs'[j], ncopies, st'.failed) {
      if j < |procs| && j != s.i {
        StarOthers(st, ncopies, mode, s, j);
      } else {
        StarMoves(st, ncopies, mode, s, j);
      }
    }
  }

  lemma ParentStays(procs: seq<Proc>, procs': seq<Proc>, p: Proc, ncopies: int, failed: bool)
    requires 0 < |procs| == |procs'| && StarProc(procs, 0, p, ncopies, failed)
    requires forall i :: 0 <= i < |procs| ==> procs'[i].pid == procs[i].pid
    ensures StarProc(procs', 0, p, ncopies, failed)
  {
    match p.phase
    case Looping => KnowsStays(p.table, procs, procs', |procs| - 1);
    case IsParent(_) => KnowsStays(p.table, procs, procs', |procs| - 2);
    case Returned(_) => KnowsStays(p.table, procs, procs', |procs| - 1);
  }

  /** A step changes no other process and no pid; only a fork adds a process, and only a failing one sets
      failed. */
  lemma OthersStay(st: State, ncopies: int, mode: int, s: Step)
    requires Enabled(st, ncopies, s)
    ensures var procs, procs' := st.procs, After(st, ncopies, mode, s).procs;
            && |procs| <= |procs'| && (forall j :: 0 <= j < |procs| ==> procs'[j].pid == procs[j].pid)
            && (forall j :: 0 <= j < |procs| && j != s.i ==> procs'[j] == procs[j])
            && (s.Settle? ==> |procs'| == |procs| && After(st, ncopies, mode, s).failed == st.failed)
  {
    hide Recorded, Closed;
  }

  lemma StarOthers(st: State, ncopies: int, mode: int, s: Step, j: nat)
    requires Star(st, ncopies) && mode != 1 && Enabled(st, ncopies, s) && j < |st.procs| && j != s.i
    ensures var st' := After(st, ncopies, mode, s);
            j < |st'.procs| && StarProc(st'.procs, j, st'.procs[j], ncopies, st'.failed)
  {
    var st' := After(st, ncopies, mode, s);
    assert StarProc(st.procs, s.i, st.procs[s.i], ncopies, st.failed) && StarProc(st.procs, j, st.procs[j], ncopies, st.failed);
    OthersStay(st, ncopies, mode, s);
    if j > 0 {
      StarFailed(st.procs, j, st.procs[j], ncopies, st.failed, st'.failed);
      StarStays(st.procs, st'.procs, j, st.procs[j], ncopies, st'.failed);
    } else {
      OnlySettles(st, ncopies, s);
      ParentStays(st.procs, st'.procs, st.procs[0], ncopies, st.failed);
    }
    hide *;
  }

  /** What a child knows does not depend on failed forks. */
  lemma StarFailed(procs: seq<Proc>, j: nat, p: Proc, ncopies: int, failed: bool, failed': bool)
    requires 0 < j < |procs| && StarProc(procs, j, p, ncopies, failed)
    ensures StarProc(procs, j, p, ncopies, failed')
  {
    hide Knows;
  }

  lemma OnlySettles(st: State, ncopies: int, s: Step)
    requires Enabled(st, ncopies, s) && s.i > 0 && StarProc(st.procs, s.i, st.procs[s.i], ncopies, st.failed)
    ensures s.Settle?
  {
    hide Knows;
  }

  lemma StarMoves(st: State, ncopies: int, mode: int, s: Step, j: nat)
    requires Star(st, ncopies) && mode != 1 && Enabled(st, ncopies, s)
    requires var n := |st.procs|; j == s.i || (j == n && s.Fork?)
    ensures var st' := After(st, ncopies, mode, s);
            j < |st'.procs| && StarProc(st'.procs, j, st'.procs[j], ncopies, st'.failed)
  {
    var st' := After(st, ncopies, mode, s);
    var procs, procs', p := st.procs, st'.procs, st.procs[s.i];
    assert StarProc(procs, s.i, p, ncopies, st.failed);
    hide Knows, Recorded, Closed;
    match s
    case Fork(_, _) => KnowsStays(p.table, procs, procs', |procs| - 1);
    case ForkFails(_) => KnowsStays(p.table, procs, procs', |procs| - 1);
    case Leave(_) => KnowsStays(p.table, procs, procs', |procs| - 1); CloseKnows(p.table, procs', |procs| - 1);
    case Settle(_) =>
      if p.phase.IsChild? {
        KnowsStays(p.table, procs, procs', s.i - 1);
        RecordKnows(p.table, procs', s.i - 1, p.pid);
      } else {
        KnowsStays(p.table, procs, procs', |procs| - 2);
        RecordKnows(p.table, procs', |procs| - 2, p.phase.child);
      }
  }

  // Mode 1: a chain

  /** Process j forked process j + 1 and returns j, knowing the pids up to j + 1; the last one goes on. */
  ghost predicate ChainProc(procs: seq<Proc>, j: nat, p: Proc, ncopies: int, failed: bool)
    requires j < |procs|
  {
    var last := |procs| - 1;
    if j < last then
      match p.phase
      case IsParent(child) => p.cnt == j + 1 && child == procs[j + 1].pid && Knows(p.table, procs, j)
      case Returned(v) => v == j && Knows(p.table, procs, j + 1)
      case _ => false
    else
      match p.phase
      case Looping => p.cnt == j + 1 && Knows(p.table, procs, j)
      case IsChild => j > 0 && p.cnt == j && Knows(p.table, procs, j - 1) && p.pid == procs[j].pid
      case Returned(v) => Knows(p.table, procs, j) && if failed then v == 0 else v == j && j + 1 >= ncopies
      case IsParent(_) => false
  }

  ghost predicate Chain(st: State, ncopies: int) {
    && st.procs != [] && (|st.procs| > 1 ==> |st.procs| <= ncopies)
    && (st.failed ==> st.procs[|st.procs| - 1].phase.Returned?)
    && forall j :: 0 <= j < |st.procs| ==> ChainProc(st.procs, j, st.procs[j], ncopies, st.failed)
  }

  lemma ChainStays(procs: seq<Proc>, procs': seq<Proc>, j: nat, p: Proc, ncopies: int, failed: bool, failed': bool)
    requires j < |procs| <= |procs'| && ChainProc(procs, j, p, ncopies, failed)
    requires forall i :: 0 <= i < |procs| ==> procs'[i].pid == procs[i].pid
    requires j < |procs| - 1 || (|procs'| == |procs| && failed == failed')
    ensures ChainProc(procs', j, p, ncopies, failed')
  {
    match p.phase
    case Looping => KnowsStays(p.table, procs, procs', j);
    case IsParent(_) => KnowsStays(p.table, procs, procs', j);
    case IsChild => KnowsStays(p.table, procs, procs', j - 1);
    case Returned(_) =>
      if j < |procs| - 1 { KnowsStays(p.table, procs, procs', j + 1); } else { KnowsStays(p.table, procs, procs', j); }
  }

  lemma ChainMoves(st: State, ncopies: int, s: Step, j: nat)
    requires Chain(st, ncopies) && Enabled(st, ncopies, s)
    requires j == s.i || (j == |st.procs| && s.Fork?)
    ensures var st' := After(st, ncopies, 1, s);
            j < |st'.procs| && ChainProc(st'.procs, j, st'.procs[j], ncopies, st'.failed)
  {
    var st' := After(st, ncopies, 1, s);
    var procs, procs', p := st.procs, st'.procs, st.procs[s.i];
    assert ChainProc(procs, s.i, p, ncopies, st.failed);
    hide Knows, Recorded, Closed;
    match s
    case Fork(_, _) => KnowsStays(p.table, procs, procs', s.i);
    case ForkFails(_) => KnowsStays(p.table, procs, procs', s.i);
    case Leave(_) => KnowsStays(p.table, procs, procs', s.i); CloseKnows(p.table, procs', s.i);
    case Settle(_) =>
      if p.phase.IsChild? {
        KnowsStays(p.table, procs, procs', s.i - 1);
        RecordKnows(p.table, procs', s.i - 1, p.pid);
      } else {
        KnowsStays(p.table, procs, procs', s.i);
        RecordKnows(p.table, procs', s.i, p.phase.child);
      }
  }

  lemma ChainStep(st: State, ncopies: int, s: Step)
    requires Chain(st, ncopies) && Enabled(st, ncopies, s)
    ensures Chain(After(st, ncopies, 1, s), ncopies)
  {
    var st' := After(st, ncopies, 1, s);
    var procs, procs' := st.procs, st'.procs;
    assert ChainProc(procs, s.i, procs[s.i], ncopies, st.failed);
    assert ChainProc(procs, |procs| - 1, procs[|procs| - 1], ncopies, st.failed);
    hide Knows, Recorded, Closed;
    forall j | 0 <= j < |procs'| ensures ChainProc(procs', j, procs'[j], ncopies, st'.failed) {
      if j < |procs| && j != s.i {
        assert ChainProc(procs, j, procs[j], ncopies, st.failed);
        ChainStays(procs, procs', j, procs[j], ncopies, st.failed, st'.failed);
      } else {
        ChainMoves(st, ncopies, s, j);
      }
    }
  }

  // Runs

  lemma {:induction false} RunKeeps(st: State, ncopies: int, mode: int, steps: seq<Step>)
    requires IsRun(st, ncopies, mode, steps)
    requires if mode == 1 then Chain(st, ncopies) else Star(st, ncopies)
    ensures if mode == 1 then Chain(Final(st, ncopies, mode, steps), ncopies) else Star(Final(st, ncopies, mode, steps), ncopies)
    decreases |steps|
  {
    if steps != [] {
      if mode == 1 { ChainStep(st, ncopies, steps[0]); } else { StarStep(st, ncopies, mode, steps[0]); }
      hide Chain, Star, After;
      RunKeeps(After(st, ncopies, mode, steps[0]), ncopies, mode, steps[1..]);
    }
  }

  predicate AllReturned(st: State) {
    forall j :: 0 <= j < |st.procs| ==> st.procs[j].phase.Returned?
  }

  function Copies(ncopies: int): int {
    if ncopies > 1 then ncopies else 1
  }

  /** Mode 0, without fork failures: exactly ncopies processes return (one for ncopies < 1); the parent
      returns the number of its children and child j returns j; child j holds the pids of children
      1 .. j, and the parent, like the last child, holds them all, as far as the array is filled. */
  lemma StarReturns(pid: int, ncopies: int, mode: int, steps: seq<Step>)
    requires mode != 1 && IsRun(Start(pid), ncopies, mode, steps)
    requires var end := Final(Start(pid), ncopies, mode, steps); AllReturned(end) && !end.failed
    ensures var procs := Final(Start(pid), ncopies, mode, steps).procs;
            && |procs| == Copies(ncopies)
            && procs[0].phase == Returned(|procs| - 1) && Knows(procs[0].table, procs, |procs| - 1)
            && (forall j :: 1 <= j < |procs| ==> procs[j].phase == Returned(j) && Knows(procs[j].table, procs, j))
            && forall j :: 0 <= j < |procs| ==> StoresMost(procs[j].table, procs)
  {
    assert Star(Start(pid), ncopies);
    RunKeeps(Start(pid), ncopies, mode, steps);
    var end := Final(Start(pid), ncopies, mode, steps);
    hide Final, IsRun, Knows;
    assert forall j :: 0 <= j < |end.procs| ==> StarProc(end.procs, j, end.procs[j], ncopies, end.failed);
    assert end.procs[0].phase.Returned?;
    assert ForkedPids(Start(pid).procs);
    RunForkedPids(Start(pid), ncopies, mode, steps);
    hide StoresMost, ForkedPids;
    forall j | 0 <= j < |end.procs| ensures StoresMost(end.procs[j].table, end.procs) {
      KnowsStores(end.procs[j].table, end.procs, if j == 0 then |end.procs| - 1 else j);
    }
  }

  /** Mode 1, without fork failures: exactly ncopies processes return, the one at depth d returns d and
      holds the pids down to its child; the last one holds them all. */
  lemma ChainReturns(pid: int, ncopies: int, steps: seq<Step>)
    requires IsRun(Start(pid), ncopies, 1, steps)
    requires var end := Final(Start(pid), ncopies, 1, steps); AllReturned(end) && !end.failed
    ensures var procs := Final(Start(pid), ncopies, 1, steps).procs;
            && |procs| == Copies(ncopies)
            && forall d :: 0 <= d < |procs| ==>
                 && procs[d].phase == Returned(d)
                 && Knows(procs[d].table, procs, if d == |procs| - 1 then d else d + 1)
                 && StoresMost(procs[d].table, procs)
  {
    assert Chain(Start(pid), ncopies);
    RunKeeps(Start(pid), ncopies, 1, steps);
    var end := Final(Start(pid), ncopies, 1, steps);
    hide Final, IsRun, Knows;
    var procs := end.procs;
    forall d | 0 <= d < |procs|
      ensures procs[d].phase == Returned(d) && Knows(procs[d].table, procs, if d == |procs| - 1 then d else d + 1)
    {
      assert ChainProc(procs, d, procs[d], ncopies, end.failed) && procs[d].phase.Returned?;
    }
    assert ChainProc(procs, |procs| - 1, procs[|procs| - 1], ncopies, end.failed);
    assert procs[|procs| - 1].phase.Returned?;
    assert ForkedPids(Start(pid).procs);
    RunForkedPids(Start(pid), ncopies, 1, steps);
    hide StoresMost, ForkedPids;
    forall d | 0 <= d < |procs| ensures StoresMost(procs[d].table, procs) {
      KnowsStores(procs[d].table, procs, if d == |procs| - 1 then d else d + 1);
    }
  }

  /** When a fork fails in mode 1, the process that could not fork returns 0 however many forks were
      made; in mode 0 the parent still returns their number. */
  lemma FailedForkReturns(pid: int, ncopies: int, mode: int, steps: seq<Step>)
    requires IsRun(Start(pid), ncopies, mode, steps)
    requires var end := Final(Start(pid), ncopies, mode, steps); AllReturned(end) && end.failed
    ensures var procs := Final(Start(pid), ncopies, mode, steps).procs;
            && procs != []
            && if mode == 1 then procs[|procs| - 1].phase == Returned(0)
               else procs[0].phase == Returned(|procs| - 1)
  {
    if mode == 1 { assert Chain(Start(pid), ncopies); } else { assert Star(Start(pid), ncopies); }
    RunKeeps(Start(pid), ncopies, mode, steps);
    var end := Final(Start(pid), ncopies, mode, steps);
    hide Final, IsRun, Knows;
    if mode == 1 {
      assert ChainProc(end.procs, |end.procs| - 1, end.procs[|end.procs| - 1], ncopies, end.failed);
    } else {
      assert StarProc(end.procs, 0, end.procs[0], ncopies, end.failed);
    }
  }

  // Termination

  function Weight(p: Proc): int {
    match p.phase
    case Looping => 1
    case Returned(_) => 0
    case _ => 2
  }

  function Weights(procs: seq<Proc>): (w: seq<int>)
    ensures |w| == |procs|
  {
    seq(|procs|, i requires 0 <= i < |procs| => Weight(procs[i]))
  }

  /** Four for every fork still to be made, and what the processes have left to do. */
  function Left(st: State, ncopies: int): int {
    4 * (Copies(ncopies) - |st.procs|) + Sum(Weights(st.procs))
  }

  lemma ChangeOne(procs: seq<Proc>, i: nat, q: Proc)
    requires i < |procs|
    ensures Sum(Weights(procs[i := q])) == Sum(Weights(procs)) - Weight(procs[i]) + Weight(q)
  {
    SumUpdate(Weights(procs), i, Weight(q));
    assert Weights(procs[i := q]) == Weights(procs)[i := Weight(q)];
  }

  lemma AddOne(procs: seq<Proc>, q: Proc)
    ensures Sum(Weights(procs + [q])) == Sum(Weights(procs)) + Weight(q)
  {
    assert Weights(procs + [q])[..|procs|] == Weights(procs);
  }

  lemma StepUses(st: State, ncopies: int, mode: int, s: Step)
    requires Enabled(st, ncopies, s)
    ensures Left(After(st, ncopies, mode, s), ncopies) < Left(st, ncopies)
  {
    var p := st.procs[s.i];
    hide Recorded, Closed, Sum;
    match s
    case Fork(i, newPid) =>
      var q := p.(phase := IsParent(newPid));
      ChangeOne(st.procs, i, q);
      AddOne(st.procs[i := q], p.(pid := newPid, phase := IsChild));
    case ForkFails(i) => ChangeOne(st.procs, i, p.(phase := Returned(if mode == 1 then 0 else p.cnt - 1)));
    case Settle(i) => ChangeOne(st.procs, i, Settled(p, mode));
    case Leave(i) => ChangeOne(st.procs, i, p.(table := Closed(p.table), phase := Returned(p.cnt - 1)));
  }

  lemma {:induction false} RunUses(st: State, ncopies: int, mode: int, steps: seq<Step>)
    requires IsRun(st, ncopies, mode, steps)
    ensures Left(Final(st, ncopies, mode, steps), ncopies) + |steps| <= Left(st, ncopies)
    decreases |steps|
  {
    if steps != [] {
      StepUses(st, ncopies, mode, steps[0]);
      hide Left, After, Enabled;
      RunUses(After(st, ncopies, mode, steps[0]), ncopies, mode, steps[1..]);
    }
  }

  /** A pid no process has. */
  lemma {:induction false} FreePid(procs: seq<Proc>) returns (pid: int)
    ensures pid > 0 && forall j :: 0 <= j < |procs| ==> procs[j].pid < pid
  {
    pid := 1;
    if procs != [] {
      var last := procs[|procs| - 1];
      pid := FreePid(procs[..|procs| - 1]);
      if last.pid >= pid {
        pid := last.pid + 1;
      }
    }
  }

  /** A process that has not returned can take a step, which need not be a failing fork. */
  lemma CanMove(st: State, ncopies: int, j: nat) returns (s: Step)
    requires j < |st.procs| && !st.procs[j].phase.Returned?
    ensures Enabled(st, ncopies, s) && s.i == j && !s.ForkFails?
  {
    var p := st.procs[j];
    if !p.phase.Looping? {
      s := Settle(j);
    } else if p.cnt < ncopies {
      var pid := FreePid(st.procs);
      s := Fork(j, pid);
    } else {
      s := Leave(j);
    }
  }

  /** No run has more than 4 * ncopies steps, and while some process has not returned the run can go on
      without any fork failing. */
  lemma EveryRunEnds(pid: int, ncopies: int, mode: int, steps: seq<Step>)
    requires IsRun(Start(pid), ncopies, mode, steps)
    ensures |steps| <= 4 * Copies(ncopies) - 3
    ensures (forall s: Step :: !s.ForkFails? ==> !Enabled(Final(Start(pid), ncopies, mode, steps), ncopies, s))
            ==> AllReturned(Final(Start(pid), ncopies, mode, steps))
  {
    var st := Start(pid);
    assert Weights(st.procs) == [1] && Weights(st.procs)[..0] == [];
    assert Sum(Weights(st.procs)) == 1;
    RunUses(st, ncopies, mode, steps);
    if mode == 1 { assert Chain(st, ncopies); } else { assert Star(st, ncopies); }
    RunKeeps(st, ncopies, mode, steps);
    var end := Final(st, ncopies, mode, steps);
    SumNat(Weights(end.procs));
    hide Final, IsRun, Knows, Enabled;
    if !AllReturned(end) {
      var j :| 0 <= j < |end.procs| && !end.procs[j].phase.Returned?;
      var s := CanMove(end, ncopies, j);
    }
  }

  // The bookkeeping code of one process

  class ForkerStatics {
    const forkerPids: array<int>
    var forkerNpids: nat

    constructor ()
      ensures fresh(forkerPids) && View() == Table(0, seq(MAX_PIDS, _ => 0))
    {
      forkerPids := new int[MAX_PIDS](_ => 0);
      forkerNpids := 0;
    }

    function View(): Table
      reads this, forkerPids
    {
      Table(forkerNpids, forkerPids[..])
    }

    /** What parent and child both do after fork: count, then store the new pid if there is room. */
    method RecordPid(pid: int)
      requires forkerPids.Length == MAX_PIDS
      modifies this, forkerPids
      ensures View() == Recorded(old(View()), pid)
      ensures forkerNpids == old(forkerNpids) + 1
      ensures forkerPids[..] == if forkerNpids < 4098 then old(forkerPids[..])[old(forkerNpids) := pid] else old(forkerPids[..])
    {
      forkerNpids := forkerNpids + 1;
      if forkerNpids < MAX_PIDS {
        forkerPids[forkerNpids - 1] := pid;
      }
    }

    method ClosePids()
      requires forkerPids.Length == MAX_PIDS
      modifies forkerPids
      ensures View() == Closed(old(View()))
      ensures forkerPids[..] == if forkerNpids < 4098 then old(forkerPids[..])[forkerNpids := 0] else old(forkerPids[..])
    {
      if forkerNpids < MAX_PIDS {
        forkerPids[forkerNpids] := 0;
      }
    }
  }
}
