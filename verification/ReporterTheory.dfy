/** What the result reporter promises: nested breaks amount to a flat list of reports that exits once,
    the exit value is the OR of everything reported, and with TOUTPUT=NOPASS each run of equal
    results prints one line. */
module ReporterTheory {
  import opened Reporter

  // Nested programs as flat event lists

  datatype Event =
    | Report(tcid: string, ttype: TType, mesg: string)
    | TypeWarning(tcid: string)
    | FlushEvent
    | SetOut
    | ExitEvent

  function Apply(st: State, ev: Event): State {
    if !st.status.Active? then st
    else
      match ev
      case Report(tcid, ttype, mesg) => TstRes(st, tcid, ttype, mesg)
      case TypeWarning(tcid) => Print(st, Line(tcid, 0, TWARN, TYPE_WARNING))
      case FlushEvent => Flush(st)
      case SetOut => st.(outSet := true)
      case ExitEvent => Exit(st)
  }

  function Play(st: State, evs: seq<Event>): State {
    if evs == [] then st else Apply(Play(st, evs[..|evs| - 1]), evs[|evs| - 1])
  }

  predicate Exits(evs: seq<Event>) {
    evs != [] && evs[|evs| - 1].ExitEvent?
  }

  /** b happens only if a does not exit. */
  function Cut(a: seq<Event>, b: seq<Event>): seq<Event> {
    if Exits(a) then a else a + b
  }

  /** The reports, warnings and exit a program makes when entered cleanup routines are being run. */
  function Trace(prog: Prog, entered: int): seq<Event>
    decreases prog
  {
    match prog
    case Done => []
    case Then(first, rest) => Cut(CallTrace(first, entered), Trace(rest, entered))
  }

  function CallTrace(call: Call, entered: int): seq<Event>
    decreases call
  {
    match call
    case Res(tcid, ttype, mesg) => [Report(tcid, ttype, mesg)]
    case FlushCall => [FlushEvent]
    case ExitCall => [ExitEvent]
    case Environ => [SetOut]
    case Brk(tcid, ttype, mesg, cleanup) =>
      var cleaning := if cleanup.Routine? then Trace(cleanup.body, entered + 1) else [];
      var last := if entered == 0 then [ExitEvent] else [];
      Cut(BreakTrace(tcid, ttype, mesg, entered) + cleaning, last)
  }

  function BreakTrace(tcid: string, ttype: TType, mesg: string, entered: int): seq<Event> {
    var r := ttype.result;
    (if BreakType(r) then [] else [TypeWarning(tcid)])
    + [Report(tcid, BrkType(ttype), mesg)]
    + (if entered == 0 && Remaining(r).Some?
       then [Report(tcid, if r == TBROK then TType(TBROK, 0) else ttype, Remaining(r).value)] else [])
  }

  lemma {:induction false} PlayAppend(st: State, a: seq<Event>, b: seq<Event>)
    ensures Play(st, a + b) == Play(Play(st, a), b)
  {
    hide Apply;
    if b == [] {
      assert a + b == a;
    } else {
      var s := a + b;
      assert s[..|s| - 1] == a + b[..|b| - 1];
      PlayAppend(st, a, b[..|b| - 1]);
    }
  }

  lemma {:induction false} PlayStopped(st: State, evs: seq<Event>)
    requires !st.status.Active?
    ensures Play(st, evs) == st
  {
    if evs != [] {
      PlayStopped(st, evs[..|evs| - 1]);
    }
  }

  lemma PlayOne(st: State, ev: Event)
    ensures Play(st, [ev]) == Apply(st, ev)
  {
    assert [ev][..0] == [];
    assert Play(st, []) == st;
  }

  lemma PlayNone(st: State)
    ensures Play(st, []) == st
  {
  }

  lemma FlushStops(st: State)
    ensures !Exit(st).status.Active?
  {
  }

  /** After an exit event the reporter has stopped. */
  lemma PlayExits(st: State, evs: seq<Event>)
    requires Exits(evs)
    ensures !Play(st, evs).status.Active?
  {
    hide Exit, Print, TstRes, Flush;
    FlushStops(Play(st, evs[..|evs| - 1]));
  }

  lemma PlayCut(st: State, a: seq<Event>, b: seq<Event>)
    ensures Play(st, Cut(a, b)) == Play(Play(st, a), b)
  {
    hide Play;
    if Exits(a) {
      PlayExits(st, a);
      PlayStopped(Play(st, a), b);
    } else {
      PlayAppend(st, a, b);
    }
  }

  lemma PlayBreak(p: Process, tcid: string, ttype: TType, mesg: string)
    requires p.st.status.Active?
    ensures BrkReport(p, tcid, ttype, mesg) == p.(st := Play(p.st, BreakTrace(tcid, ttype, mesg, p.entered)))
  {
    var r := ttype.result;
    var st := p.st;
    var warn := if BreakType(r) then [] else [TypeWarning(tcid)];
    var main := [Report(tcid, BrkType(ttype), mesg)];
    var more := if p.entered == 0 && Remaining(r).Some?
                then [Report(tcid, if r == TBROK then TType(TBROK, 0) else ttype, Remaining(r).value)] else [];
    if warn != [] { PlayOne(st, warn[0]); } else { assert Play(st, warn) == st; }
    var st1 := Play(st, warn);
    PlayOne(st1, main[0]);
    var st2 := Play(st1, main);
    if more != [] { PlayOne(st2, more[0]); } else { assert Play(st2, more) == st2; }
    PlayAppend(st, warn, main);
    PlayAppend(st, warn + main, more);
    hide Play, Print, TstRes, Remaining, BrkType;
  }

  /** tst_brk_entered is restored by every call that returns, and the nested run of a program is the
      flat run of its trace: every cleanup call is made, and exit happens once, where the trace ends. */
  lemma {:induction false} ExecIsPlay(p: Process, prog: Prog)
    requires p.entered >= 0
    ensures var q := Exec(p, prog);
            && q.st == Play(p.st, Trace(prog, p.entered))
            && (q.st.status.Active? ==> q.entered == p.entered)
    decreases prog
  {
    match prog
    case Done =>
    case Then(first, rest) =>
      PlayCut(p.st, CallTrace(first, p.entered), Trace(rest, p.entered));
      hide ExecCall, CallTrace, Play;
      if p.st.status.Active? {
        CallIsPlay(p, first);
        var q := ExecCall(p, first);
        if q.st.status.Active? {
          ExecIsPlay(q, rest);
        } else {
          PlayStopped(q.st, Trace(rest, p.entered));
          ExecStopped(q, rest);
        }
      } else {
        PlayStopped(p.st, Trace(prog, p.entered));
      }
  }

  lemma ExecStopped(p: Process, prog: Prog)
    requires !p.st.status.Active?
    ensures Exec(p, prog) == p
  {
  }

  lemma {:induction false} CallIsPlay(p: Process, call: Call)
    requires p.entered >= 0 && p.st.status.Active?
    ensures var q := ExecCall(p, call);
            && q.st == Play(p.st, CallTrace(call, p.entered))
            && (q.st.status.Active? ==> q.entered == p.entered)
    decreases call
  {
    match call
    case Brk(tcid, ttype, mesg, cleanup) => BreakIsPlay(p, tcid, ttype, mesg, cleanup);
    case Res(tcid, ttype, mesg) => PlayOne(p.st, Report(tcid, ttype, mesg));
    case FlushCall => PlayOne(p.st, FlushEvent);
    case ExitCall => PlayOne(p.st, ExitEvent);
    case Environ => PlayOne(p.st, SetOut);
  }

  lemma {:induction false} BreakIsPlay(p: Process, tcid: string, ttype: TType, mesg: string, cleanup: Cleanup)
    requires p.entered >= 0 && p.st.status.Active?
    ensures var q := ExecCall(p, Brk(tcid, ttype, mesg, cleanup));
            && q.st == Play(p.st, CallTrace(Brk(tcid, ttype, mesg, cleanup), p.entered))
            && (q.st.status.Active? ==> q.entered == p.entered)
    decreases cleanup
  {
    hide Play, BrkReport, BreakTrace, Trace, Exec, Exit, TstRes, Print, Flush;
    PlayBreak(p, tcid, ttype, mesg);
    var reporting := BreakTrace(tcid, ttype, mesg, p.entered);
    var reported := BrkReport(p, tcid, ttype, mesg);
    var cleaning := if cleanup.Routine? then Trace(cleanup.body, p.entered + 1) else [];
    var last := if p.entered == 0 then [ExitEvent] else [];
    PlayAppend(p.st, reporting, cleaning);
    PlayCut(p.st, reporting + cleaning, last);
    var st := Play(reported.st, cleaning);
    PlayOne(st, ExitEvent);
    PlayNone(st);
    if cleanup.Routine? {
      ExecIsPlay(reported.(entered := reported.entered + 1), cleanup.body);
    } else {
      PlayNone(reported.st);
    }
  }

  // Where a trace exits

  predicate HasExit(prog: Prog)
    decreases prog
  {
    prog.Then? && ((prog.first.ExitCall? || (prog.first.Brk? && prog.first.cleanup.Routine? && HasExit(prog.first.cleanup.body)))
                   || HasExit(prog.rest))
  }

  predicate ExitFree(evs: seq<Event>) {
    forall i :: 0 <= i < |evs| ==> !evs[i].ExitEvent?
  }

  /** At most one exit, and nothing after it. */
  predicate ExitsOnce(evs: seq<Event>) {
    evs == [] || ExitFree(evs[..|evs| - 1])
  }

  lemma CutOnce(a: seq<Event>, b: seq<Event>)
    requires ExitsOnce(a) && ExitsOnce(b)
    ensures ExitsOnce(Cut(a, b)) && (Exits(Cut(a, b)) <==> Exits(a) || Exits(b))
    ensures !Exits(a) ==> ExitFree(a)
  {
    if b == [] {
      assert a + b == a;
    } else if !Exits(a) {
      assert (a + b)[..|a + b| - 1] == a + b[..|b| - 1];
    }
  }

  lemma {:induction false} TraceExits(prog: Prog, entered: int)
    ensures ExitsOnce(Trace(prog, entered))
    ensures entered > 0 ==> (Exits(Trace(prog, entered)) <==> HasExit(prog))
    decreases prog
  {
    if prog.Then? {
      CallExits(prog.first, entered);
      TraceExits(prog.rest, entered);
      hide CallTrace;
      CutOnce(CallTrace(prog.first, entered), Trace(prog.rest, entered));
    }
  }

  lemma {:induction false} CallExits(call: Call, entered: int)
    ensures ExitsOnce(CallTrace(call, entered))
    ensures entered > 0 ==> (Exits(CallTrace(call, entered))
            <==> call.ExitCall? || (call.Brk? && call.cleanup.Routine? && HasExit(call.cleanup.body)))
    ensures entered == 0 && call.Brk? ==> Exits(CallTrace(call, entered))
    decreases call
  {
    if call.Brk? {
      var reporting := BreakTrace(call.tcid, call.ttype, call.mesg, entered);
      var cleaning := if call.cleanup.Routine? then Trace(call.cleanup.body, entered + 1) else [];
      var last := if entered == 0 then [ExitEvent] else [];
      assert ExitFree(reporting);
      if call.cleanup.Routine? && entered >= 0 {
        TraceExits(call.cleanup.body, entered + 1);
      } else if call.cleanup.Routine? {
        TraceExits(call.cleanup.body, entered + 1);
      }
      hide BreakTrace, Trace;
      CutOnce(reporting, cleaning);
      assert Cut(reporting, cleaning) == reporting + cleaning by { assert !Exits(reporting); }
      CutOnce(reporting + cleaning, last);
    }
  }

  /** An outermost tst_brk whose cleanup never calls tst_exit reports the whole cleanup, nested breaks
      and all, and then exits, once. */
  lemma OutermostBreakExitsLast(tcid: string, ttype: TType, mesg: string, body: Prog)
    requires !HasExit(body)
    ensures var before := BreakTrace(tcid, ttype, mesg, 0) + Trace(body, 1);
            ExitFree(before) && CallTrace(Brk(tcid, ttype, mesg, Routine(body)), 0) == before + [ExitEvent]
  {
    TraceExits(body, 1);
    var reporting, cleaning := BreakTrace(tcid, ttype, mesg, 0), Trace(body, 1);
    assert ExitFree(reporting);
    NoExitIsFree(cleaning);
    hide Trace, BreakTrace;
    assert ExitFree(reporting + cleaning);
  }

  lemma NoExitIsFree(evs: seq<Event>)
    requires ExitsOnce(evs) && !Exits(evs)
    ensures ExitFree(evs)
  {
    assert forall i :: 0 <= i < |evs| ==> i == |evs| - 1 || evs[i] == evs[..|evs| - 1][i];
  }

  // The exit value

  predicate Counted(ev: Event) {
    ev.Report? && ev.ttype.result != TWARN && ev.ttype.result != TINFO
  }

  /** Tst_count after the events. */
  function CountAfter(evs: seq<Event>, count: int): int {
    if evs == [] then count
    else CountAfter(evs[..|evs| - 1], count) + if Counted(evs[|evs| - 1]) then 1 else 0
  }

  /** The bits an event reports: its type, and TWARN for an internal warning. */
  function Reported(ev: Event, countBefore: int): Bits {
    match ev
    case Report(_, ttype, _) => if Counted(ev) && countBefore < 0 then ttype.result.Or(TWARN) else ttype.result
    case TypeWarning(_) => TWARN
    case _ => TPASS
  }

  function AllReported(evs: seq<Event>, count: int): Bits {
    if evs == [] then TPASS
    else
      var init := evs[..|evs| - 1];
      AllReported(init, count).Or(Reported(evs[|evs| - 1], CountAfter(init, count)))
  }

  predicate Bad(b: Bits) {
    b.fail || b.brok || b.warn
  }

  predicate BadAt(evs: seq<Event>, count: int, i: nat)
    requires i < |evs|
  {
    Bad(Reported(evs[i], CountAfter(evs[..i], count)))
  }

  ghost predicate AnyBad(evs: seq<Event>, count: int) {
    exists i: nat :: i < |evs| && BadAt(evs, count, i)
  }

  lemma BadAtPrefix(evs: seq<Event>, count: int, i: nat)
    requires i < |evs| - 1
    ensures BadAt(evs, count, i) == BadAt(evs[..|evs| - 1], count, i)
  {
    assert evs[..|evs| - 1][..i] == evs[..i];
  }

  lemma {:induction false} AllReportedBad(evs: seq<Event>, count: int)
    ensures Bad(AllReported(evs, count)) <==> AnyBad(evs, count)
  {
    if evs != [] {
      var n, init := |evs| - 1, evs[..|evs| - 1];
      AllReportedBad(init, count);
      assert BadAt(evs, count, n) <==> Bad(Reported(evs[n], CountAfter(init, count)));
      hide Reported, CountAfter, BadAt;
      forall i: nat | i < n ensures BadAt(evs, count, i) == BadAt(init, count, i) {
        BadAtPrefix(evs, count, i);
      }
      if AnyBad(init, count) {
        var i: nat :| i < |init| && BadAt(init, count, i);
        assert BadAt(evs, count, i);
      }
    }
  }

  /** Some report or tst_environ call has set the output stream. */
  ghost predicate Opened(evs: seq<Event>) {
    exists i :: 0 <= i < |evs| && (evs[i].Report? || evs[i].SetOut?)
  }

  ghost predicate ReportedAny(evs: seq<Event>) {
    exists i :: 0 <= i < |evs| && evs[i].Report?
  }

  /** A type warning before the output stream is set. */
  ghost predicate EarlyWarning(evs: seq<Event>) {
    exists i :: 0 <= i < |evs| && evs[i].TypeWarning? && !Opened(evs[..i])
  }

  lemma OpenedLast(init: seq<Event>, last: Event)
    ensures Opened(init + [last]) <==> Opened(init) || last.Report? || last.SetOut?
  {
    var evs := init + [last];
    assert evs[|init|] == last;
    if i :| 0 <= i < |init| && (init[i].Report? || init[i].SetOut?) {
      assert evs[i].Report? || evs[i].SetOut?;
    }
  }

  lemma ReportedLast(init: seq<Event>, last: Event)
    ensures ReportedAny(init + [last]) <==> ReportedAny(init) || last.Report?
  {
    var evs := init + [last];
    assert evs[|init|] == last;
    if i :| 0 <= i < |init| && init[i].Report? {
      assert evs[i].Report?;
    }
  }

  lemma EarlyLast(init: seq<Event>, last: Event)
    ensures EarlyWarning(init + [last]) <==> EarlyWarning(init) || (last.TypeWarning? && !Opened(init))
  {
    hide Opened;
    var evs, n := init + [last], |init|;
    assert forall i :: 0 <= i <= n ==> evs[..i] == init[..i];
    assert evs[n] == last && init[..n] == init;
    if EarlyWarning(evs) {
      var i :| 0 <= i < |evs| && evs[i].TypeWarning? && !Opened(evs[..i]);
      if i < n { assert init[i].TypeWarning? && !Opened(init[..i]); }
    }
    if EarlyWarning(init) {
      var i :| 0 <= i < n && init[i].TypeWarning? && !Opened(init[..i]);
      assert evs[i].TypeWarning? && !Opened(evs[..i]);
    }
  }

  lemma LastEvent(evs: seq<Event>)
    requires evs != []
    ensures var init, last := evs[..|evs| - 1], evs[|evs| - 1];
            && (Opened(evs) <==> Opened(init) || last.Report? || last.SetOut?)
            && (ReportedAny(evs) <==> ReportedAny(init) || last.Report?)
            && (EarlyWarning(evs) <==> EarlyWarning(init) || (last.TypeWarning? && !Opened(init)))
  {
    var init, last := evs[..|evs| - 1], evs[|evs| - 1];
    hide *;
    assert evs == init + [last];
    OpenedLast(init, last);
    ReportedLast(init, last);
    EarlyLast(init, last);
  }

  /** The state before any exit, apart from the lines. */
  ghost predicate Tracks(st: State, evs: seq<Event>, env: Mode, count: int) {
    && st.status.Active? && st.env == env
    && st.exitval == AllReported(evs, count) && st.count == CountAfter(evs, count)
    && (st.outSet <==> Opened(evs))
    && (st.envRead <==> ReportedAny(evs)) && st.mode == (if st.envRead then env else Verbose)
    && BufferNoted(st)
  }

  /** When the stream is set, printing ORs a type and perhaps adds a line. */
  lemma PrintEffect(st: State, line: Line)
    requires st.outSet
    ensures var st' := Print(st, line); st' == st.(exitval := st.exitval.Or(line.ttype), out := st'.out)
  {
  }

  lemma CondenseEffect(st: State, line: Line)
    requires st.outSet && BufferNoted(st)
    ensures var st' := Condense(st, line);
            && st' == st.(buffered := st'.buffered, out := st'.out)
            && st'.buffered.Some? && st'.buffered.value.ttype == line.ttype
  {
    if st.buffered.Some? {
      PrintEffect(st, st.buffered.value);
      hide Print;
    }
  }

  ghost predicate BufferNoted(st: State) {
    st.buffered.Some? ==> st.mode == NoPass && st.exitval.Or(st.buffered.value.ttype) == st.exitval
  }

  lemma CountCheckedEffect(st: State, tcid: string)
    requires st.outSet && BufferNoted(st)
    ensures var st' := CountChecked(st, tcid);
            && st' == st.(exitval := if st.count < 0 then st.exitval.Or(TWARN) else st.exitval, out := st'.out)
            && BufferNoted(st')
  {
    PrintEffect(st, Line(tcid, 0, TWARN, COUNT_WARNING));
    hide Print;
  }

  lemma ShownEffect(st: State, line: Line)
    requires st.outSet && BufferNoted(st) && st.exitval.Or(line.ttype) == st.exitval
    ensures var st' := Shown(st, line);
            st' == st.(buffered := st'.buffered, out := st'.out) && BufferNoted(st')
  {
    PrintEffect(st, line);
    CondenseEffect(st, line);
    hide Print, Condense;
  }

  lemma ReportEffect(st: State, tcid: string, ttype: TType, mesg: string)
    requires BufferNoted(st) && st.mode == if st.envRead then st.env else Verbose
    ensures var ev, st' := Report(tcid, ttype, mesg), TstRes(st, tcid, ttype, mesg);
            && st' == st.(outSet := true, envRead := true, mode := st.env, exitval := st.exitval.Or(Reported(ev, st.count)),
                          count := st.count + if Counted(ev) then 1 else 0, buffered := st'.buffered, out := st'.out)
            && BufferNoted(st')
  {
    hide Print, CountChecked, Shown;
    var r := ttype.result;
    var noted := Noted(st, r);
    if r == TWARN || r == TINFO {
      PrintEffect(noted, Line(tcid, 0, r, mesg));
    } else {
      CountCheckedEffect(noted, tcid);
      var checked := CountChecked(noted, tcid);
      ShownEffect(checked, Line(tcid, checked.count + 1, r, mesg));
    }
  }

  lemma ApplyTracks(st: State, evs: seq<Event>, env: Mode, count: int)
    requires evs != [] && Tracks(st, evs[..|evs| - 1], env, count)
    requires !evs[|evs| - 1].ExitEvent? && !EarlyWarning(evs)
    ensures Tracks(Apply(st, evs[|evs| - 1]), evs, env, count)
  {
    LastEvent(evs);
    hide Opened, ReportedAny, EarlyWarning, TstRes, Print, Reported;
    match evs[|evs| - 1]
    case Report(tcid, ttype, mesg) => ReportEffect(st, tcid, ttype, mesg);
    case TypeWarning(tcid) =>
      PrintEffect(st, Line(tcid, 0, TWARN, TYPE_WARNING));
      assert Reported(TypeWarning(tcid), st.count) == TWARN by { ReportedWarning(tcid, st.count); }
    case FlushEvent =>
      assert Reported(FlushEvent, st.count) == TPASS by { ReportedNothing(FlushEvent, st.count); }
      if st.buffered.Some? { PrintEffect(st, st.buffered.value); }
    case SetOut =>
      assert Reported(SetOut, st.count) == TPASS by { ReportedNothing(SetOut, st.count); }
  }

  lemma ReportedWarning(tcid: string, count: int)
    ensures Reported(TypeWarning(tcid), count) == TWARN
  {
  }

  lemma ReportedNothing(ev: Event, count: int)
    requires ev.FlushEvent? || ev.SetOut? || ev.ExitEvent?
    ensures Reported(ev, count) == TPASS
  {
  }

  lemma {:induction false} PlayTracks(env: Mode, count: int, evs: seq<Event>)
    requires ExitFree(evs) && !EarlyWarning(evs)
    ensures Tracks(Play(Initial(env, count), evs), evs, env, count)
  {
    if evs != [] {
      LastEvent(evs);
      PlayTracks(env, count, evs[..|evs| - 1]);
      ApplyTracks(Play(Initial(env, count), evs[..|evs| - 1]), evs, env, count);
    }
  }

  /** In every print mode the exit value is the OR of all reported types and internal warnings, with
      RETR, INFO and CONF masked out; it is zero exactly when no FAIL, BROK or WARN was reported. */
  lemma ExitValue(env: Mode, count: int, evs: seq<Event>)
    requires ExitFree(evs) && !EarlyWarning(evs)
    ensures var end := Play(Initial(env, count), evs + [ExitEvent]);
            && end.status == Exited(AllReported(evs, count).ExitMask())
            && (end.status == Exited(TPASS) <==> !AnyBad(evs, count))
  {
    PlayTracks(env, count, evs);
    AllReportedBad(evs, count);
    assert (evs + [ExitEvent])[..|evs|] == evs;
    hide AllReported, CountAfter, Reported, Play, AnyBad;
    assert Play(Initial(env, count), evs + [ExitEvent]) == Exit(Play(Initial(env, count), evs)) by { PlayLast(env, count, evs); }
  }

  lemma PlayLast(env: Mode, count: int, evs: seq<Event>)
    requires Play(Initial(env, count), evs).status.Active?
    ensures Play(Initial(env, count), evs + [ExitEvent]) == Exit(Play(Initial(env, count), evs))
  {
    PlayAppend(Initial(env, count), evs, [ExitEvent]);
    PlayOne(Play(Initial(env, count), evs), ExitEvent);
  }
}
