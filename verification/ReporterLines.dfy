/** Which lines the reporter prints: with TOUTPUT=NOPASS one FAIL or BROK line for each run of equal
    results, numbered by the first of the run; in verbose mode every result; with DISCARD none. */
module ReporterLines {
  import opened Reporter
  import opened ReporterTheory

  /** A result to be numbered and printed, or the end of a run of equal results. */
  datatype Item = Entry(line: Line) | Mark

  /** The numbered results of a run of events; warnings and information are printed on their own. */
  function Items(evs: seq<Event>, count: int): seq<Item> {
    if evs == [] then []
    else
      var init, last := evs[..|evs| - 1], evs[|evs| - 1];
      Items(init, count) +
      if Counted(last) then [Entry(Line(last.tcid, CountAfter(init, count) + 1, last.ttype.result, last.mesg))]
      else if last.FlushEvent? || last.ExitEvent? then [Mark]
      else []
  }

  /** The two lines are for one test case, of one type and with one message. */
  predicate SameResult(a: Line, b: Line) {
    a.tcid == b.tcid && a.ttype == b.ttype && a.mesg == b.mesg
  }

  /** The line that begins a new run when item follows items. */
  function NewHead(items: seq<Item>, item: Item): seq<Line> {
    match item
    case Mark => []
    case Entry(line) =>
      if items != [] && items[|items| - 1].Entry? && SameResult(items[|items| - 1].line, line) then [] else [line]
  }

  /** The first line of every maximal run of equal adjacent entries. */
  function Heads(items: seq<Item>): seq<Line> {
    if items == [] then [] else Heads(items[..|items| - 1]) + NewHead(items[..|items| - 1], items[|items| - 1])
  }

  function Entries(items: seq<Item>): seq<Line> {
    if items == [] then []
    else Entries(items[..|items| - 1]) + if items[|items| - 1].Entry? then [items[|items| - 1].line] else []
  }

  predicate IsFailure(line: Line) {
    line.ttype == TFAIL || line.ttype == TBROK
  }

  function Failures(lines: seq<Line>): seq<Line> {
    if lines == [] then []
    else Failures(lines[..|lines| - 1]) + if IsFailure(lines[|lines| - 1]) then [lines[|lines| - 1]] else []
  }

  predicate IsResult(line: Line) {
    line.ttype != TWARN && line.ttype != TINFO
  }

  /** The printed lines that are not warnings or information. */
  function Results(lines: seq<Line>): seq<Line> {
    if lines == [] then []
    else Results(lines[..|lines| - 1]) + if IsResult(lines[|lines| - 1]) then [lines[|lines| - 1]] else []
  }

  lemma ResultsAppend(lines: seq<Line>, line: Line)
    ensures Results(lines + [line]) == Results(lines) + if IsResult(line) then [line] else []
  {
    assert (lines + [line])[..|lines|] == lines;
  }

  lemma FailuresAppend(lines: seq<Line>, line: Line)
    ensures Failures(lines + [line]) == Failures(lines) + if IsFailure(line) then [line] else []
  {
    assert (lines + [line])[..|lines|] == lines;
  }

  lemma HeadsAppend(items: seq<Item>, item: Item)
    ensures Heads(items + [item]) == Heads(items) + NewHead(items, item)
  {
    assert (items + [item])[..|items|] == items;
  }

  lemma EntriesAppend(items: seq<Item>, item: Item)
    ensures Entries(items + [item]) == Entries(items) + if item.Entry? then [item.line] else []
  {
    assert (items + [item])[..|items|] == items;
  }

  lemma PrintResults(st: State, line: Line)
    requires st.outSet
    ensures Results(Print(st, line).out)
         == Results(st.out) + if Printed(st.mode, line.ttype) && IsResult(line) then [line] else []
  {
    ResultsAppend(st.out, line);
  }

  // The invariant of the condensed output

  function Pending(st: State): seq<Line> {
    if st.buffered.Some? && IsFailure(st.buffered.value) then [st.buffered.value] else []
  }

  /** The buffer holds the head of the run in progress, if there is one. */
  ghost predicate Buffering(st: State, items: seq<Item>) {
    if items != [] && items[|items| - 1].Entry? then
      && st.buffered.Some? && SameResult(st.buffered.value, items[|items| - 1].line) && IsResult(st.buffered.value)
    else st.buffered.None?
  }

  ghost predicate Condensed(st: State, items: seq<Item>) {
    Buffering(st, items) && Results(st.out) + Pending(st) == Failures(Heads(items))
  }

  lemma PrintPending(st: State)
    requires st.mode == NoPass && st.outSet && st.buffered.Some? && IsResult(st.buffered.value)
    ensures Results(Print(st, st.buffered.value).out) == Results(st.out) + Pending(st)
  {
    PrintResults(st, st.buffered.value);
    hide Results, Print;
  }

  lemma SameItem(items: seq<Item>, line: Line)
    requires items != [] && items[|items| - 1].Entry? && SameResult(items[|items| - 1].line, line)
    ensures Heads(items + [Entry(line)]) == Heads(items)
  {
    HeadsAppend(items, Entry(line));
    hide Heads;
    assert Heads(items) + [] == Heads(items);
  }

  lemma NewItem(items: seq<Item>, line: Line)
    requires items != [] && items[|items| - 1].Entry? ==> !SameResult(items[|items| - 1].line, line)
    ensures Failures(Heads(items + [Entry(line)])) == Failures(Heads(items)) + if IsFailure(line) then [line] else []
  {
    HeadsAppend(items, Entry(line));
    FailuresAppend(Heads(items), line);
  }

  lemma MarkItem(items: seq<Item>)
    ensures Heads(items + [Mark]) == Heads(items)
  {
    HeadsAppend(items, Mark);
    hide Heads;
    assert Heads(items) + [] == Heads(items);
  }

  lemma CondenseKeeps(st: State, items: seq<Item>, line: Line)
    requires st.mode == NoPass && st.outSet && Condensed(st, items) && IsResult(line)
    ensures Condensed(Condense(st, line), items + [Entry(line)])
  {
    hide Failures, Results, Heads, Print, IsFailure;
    if st.buffered.Some? && Same(st.buffered.value, line) {
      SameItem(items, line);
    } else {
      NewItem(items, line);
      var lines := Results(st.out) + Pending(st);
      if st.buffered.Some? {
        PrintPending(st);
      } else {
        assert lines == Results(st.out);
      }
      assert Results(Condense(st, line).out) == lines;
    }
  }

  lemma FlushKeeps(st: State, items: seq<Item>)
    requires st.mode == NoPass && st.outSet && Condensed(st, items)
    ensures Condensed(Flush(st), items + [Mark])
  {
    hide Failures, Results, Heads, Print, IsFailure;
    MarkItem(items);
    var lines := Results(st.out) + Pending(st);
    if st.buffered.Some? {
      PrintPending(st);
    }
    assert Results(Flush(st).out) == lines && lines + [] == lines;
  }

  /** What has been printed so far, in each mode. */
  ghost predicate Listed(st: State, items: seq<Item>) {
    if !st.envRead then st.buffered.None? && Results(st.out) == [] && Entries(items) == []
    else match st.mode
      case NoPass => Condensed(st, items)
      case Verbose => st.buffered.None? && Results(st.out) == Entries(items)
      case Discard => st.buffered.None? && Results(st.out) == []
  }

  lemma {:induction false} NoEntries(items: seq<Item>)
    requires Entries(items) == []
    ensures Heads(items) == [] && (items != [] ==> items[|items| - 1].Mark?)
  {
    if items != [] {
      NoEntries(items[..|items| - 1]);
    }
  }

  /** The first result turns the state over to the requested mode. */
  lemma NotedListed(st: State, items: seq<Item>, r: Bits)
    requires Listed(st, items) && (st.envRead ==> st.mode == st.env)
    ensures Listed(Noted(st, r), items) && Noted(st, r).mode == st.env
  {
    hide Results, Failures, Heads, Entries;
    if !st.envRead {
      NoEntries(items);
      assert Failures([]) == [] by { NoFailures(); }
    }
  }

  lemma NoFailures()
    ensures Failures([]) == []
  {
  }

  lemma WarningListed(st: State, items: seq<Item>, line: Line)
    requires st.outSet && Listed(st, items) && !IsResult(line)
    ensures Listed(Print(st, line), items)
  {
    PrintResults(st, line);
    PrintEffect(st, line);
    hide Print, Results, Failures, Heads, Entries;
  }

  lemma ShownListed(st: State, items: seq<Item>, line: Line)
    requires st.outSet && st.envRead && Listed(st, items) && IsResult(line)
    ensures Listed(Shown(st, line), items + [Entry(line)])
  {
    EntriesAppend(items, Entry(line));
    match st.mode
    case NoPass =>
      CondenseKeeps(st, items, line);
      hide Condense, Condensed;
      CondenseMode(st, line);
    case Verbose =>
      PrintResults(st, line);
      PrintEffect(st, line);
      hide Print, Results, Failures, Heads, Entries;
    case Discard =>
  }

  lemma CondenseMode(st: State, line: Line)
    requires st.outSet
    ensures Condense(st, line).mode == st.mode && Condense(st, line).envRead == st.envRead
  {
  }

  lemma ReportListed(st: State, items: seq<Item>, tcid: string, ttype: TType, mesg: string)
    requires Listed(st, items) && BufferNoted(st) && (st.mode == if st.envRead then st.env else Verbose)
    ensures var r, st' := ttype.result, TstRes(st, tcid, ttype, mesg);
            if r == TWARN || r == TINFO then Listed(st', items)
            else Listed(st', items + [Entry(Line(tcid, st.count + 1, r, mesg))])
  {
    hide Print, Shown, Listed, Reported;
    var r := ttype.result;
    NotedListed(st, items, r);
    var noted := Noted(st, r);
    if r == TWARN || r == TINFO {
      WarningListed(noted, items, Line(tcid, 0, r, mesg));
    } else {
      if st.count < 0 { WarningListed(noted, items, Line(tcid, 0, TWARN, COUNT_WARNING)); }
      CountCheckedEffect(noted, tcid);
      var checked := CountChecked(noted, tcid);
      var line := Line(tcid, checked.count + 1, r, mesg);
      ShownListed(checked, items, line);
      CountIrrelevant(Shown(checked, line), items + [Entry(line)]);
    }
  }

  lemma CountIrrelevant(st: State, items: seq<Item>)
    ensures Listed(st, items) ==> Listed(st.(count := st.count + 1), items)
  {
  }

  lemma MarkListed(st: State, items: seq<Item>)
    requires Listed(st, items) && (st.envRead ==> st.outSet)
    ensures Listed(Flush(st), items + [Mark])
  {
    EntriesAppend(items, Mark);
    if st.mode == NoPass && st.envRead {
      FlushKeeps(st, items);
      FlushOut(st);
      hide Flush;
    }
    hide Results, Failures, Heads, Entries, Print;
  }

  lemma {:induction false} PlayListed(env: Mode, count: int, evs: seq<Event>)
    requires ExitFree(evs) && !EarlyWarning(evs)
    ensures Listed(Play(Initial(env, count), evs), Items(evs, count))
  {
    if evs != [] {
      var init := evs[..|evs| - 1];
      LastEvent(evs);
      PlayTracks(env, count, init);
      PlayListed(env, count, init);
      ApplyListed(Play(Initial(env, count), init), evs, env, count);
      hide Apply;
    }
  }

  lemma ApplyListed(st: State, evs: seq<Event>, env: Mode, count: int)
    requires evs != [] && Tracks(st, evs[..|evs| - 1], env, count) && Listed(st, Items(evs[..|evs| - 1], count))
    requires !evs[|evs| - 1].ExitEvent? && !EarlyWarning(evs)
    ensures Listed(Apply(st, evs[|evs| - 1]), Items(evs, count))
  {
    LastEvent(evs);
    var items := Items(evs[..|evs| - 1], count);
    assert ReportedAny(evs[..|evs| - 1]) ==> Opened(evs[..|evs| - 1]);
    hide Opened, ReportedAny, EarlyWarning, TstRes, Flush, Print, Reported, Listed, AllReported;
    match evs[|evs| - 1]
    case Report(tcid, ttype, mesg) => ReportListed(st, items, tcid, ttype, mesg); assert items + [] == items;
    case TypeWarning(tcid) => WarningListed(st, items, Line(tcid, 0, TWARN, TYPE_WARNING)); assert items + [] == items;
    case FlushEvent => MarkListed(st, items);
    case SetOut => SetOutListed(st, items); assert items + [] == items;
  }

  lemma SetOutListed(st: State, items: seq<Item>)
    ensures Listed(st, items) ==> Listed(st.(outSet := true), items)
  {
  }

  /** The lines a test that ends with tst_exit has printed. */
  lemma FinalLines(env: Mode, count: int, evs: seq<Event>)
    requires ExitFree(evs) && !EarlyWarning(evs)
    ensures var end, items := Play(Initial(env, count), evs + [ExitEvent]), Items(evs, count);
            Results(end.out) ==
              match env
              case NoPass => Failures(Heads(items))
              case Verbose => Entries(items)
              case Discard => []
  {
    var st, items := Play(Initial(env, count), evs), Items(evs, count);
    hide Play, Opened, ReportedAny, AllReported, CountAfter, Items, Results, Failures, Heads, Entries, Flush, Exit;
    PlayTracks(env, count, evs);
    PlayListed(env, count, evs);
    PlayLast(env, count, evs);
    OpenedByReport(evs);
    FlushedLines(st, items);
  }

  lemma OpenedByReport(evs: seq<Event>)
    ensures ReportedAny(evs) ==> Opened(evs)
  {
  }

  lemma FlushedLines(st: State, items: seq<Item>)
    requires Listed(st, items) && st.mode == (if st.envRead then st.env else Verbose) && (st.envRead ==> st.outSet)
    ensures Results(Exit(st).out) ==
              match st.env
              case NoPass => Failures(Heads(items))
              case Verbose => Entries(items)
              case Discard => []
  {
    MarkListed(st, items);
    MarkItem(items);
    EntriesAppend(items, Mark);
    NoFailures();
    if !st.envRead {
      NoEntries(items);
    }
    FlushOut(st);
    hide Results, Failures, Heads, Entries, Flush, Exit;
    assert Entries(items) + [] == Entries(items);
    assert Results(Flush(st).out) + [] == Results(Flush(st).out);
  }

  lemma FlushOut(st: State)
    ensures Exit(st).out == Flush(st).out
    ensures Flush(st).mode == st.mode && Flush(st).envRead == st.envRead
    ensures st.mode == NoPass ==> Flush(st).buffered.None?
  {
  }

  /** A test run crashes exactly when an unsupported tst_brk type is its first use of the stream. */
  lemma {:induction false} CrashesIff(env: Mode, count: int, evs: seq<Event>)
    requires ExitFree(evs)
    ensures Play(Initial(env, count), evs).status.Crashed? <==> EarlyWarning(evs)
  {
    if evs != [] && EarlyWarning(evs) {
      var init := evs[..|evs| - 1];
      LastEvent(evs);
      CrashesIff(env, count, init);
      if !EarlyWarning(init) {
        PlayTracks(env, count, init);
        assert ReportedAny(init) ==> Opened(init);
      }
      hide Opened, ReportedAny, EarlyWarning, AllReported, CountAfter;
    } else {
      PlayTracks(env, count, evs);
    }
  }

  /** For instance: a program whose first call is tst_brk with TWARN crashes, whatever follows. */
  lemma FirstBreakCrashes(env: Mode, count: int, tcid: string, flags: nat, mesg: string, cleanup: Cleanup, rest: Prog)
    ensures var prog := Then(Brk(tcid, TType(TWARN, flags), mesg, cleanup), rest);
            && Exec(Process(Initial(env, count), 0), prog).st.status.Crashed?
            && EarlyWarning(Trace(prog, 0))
  {
    var p, ttype := Process(Initial(env, count), 0), TType(TWARN, flags);
    var call := Brk(tcid, ttype, mesg, cleanup);
    FirstBreakTrace(tcid, flags, mesg, cleanup, rest);
    var reported := BrkReport(p, tcid, ttype, mesg);
    assert reported.st.status.Crashed?;
    hide BrkReport, Trace, EarlyWarning;
    if cleanup.Routine? {
      ExecStopped(reported.(entered := reported.entered + 1), cleanup.body);
    }
    assert ExecCall(p, call).st.status.Crashed?;
    ExecStopped(ExecCall(p, call), rest);
  }

  lemma FirstBreakTrace(tcid: string, flags: nat, mesg: string, cleanup: Cleanup, rest: Prog)
    ensures EarlyWarning(Trace(Then(Brk(tcid, TType(TWARN, flags), mesg, cleanup), rest), 0))
  {
    var call := Brk(tcid, TType(TWARN, flags), mesg, cleanup);
    var reporting := BreakTrace(tcid, TType(TWARN, flags), mesg, 0);
    assert reporting[0] == TypeWarning(tcid);
    hide BreakTrace;
    assert |CallTrace(call, 0)| > 0 && CallTrace(call, 0)[0] == reporting[0];
    hide CallTrace;
    var evs := Trace(Then(call, rest), 0);
    assert evs[0].TypeWarning? && !Opened(evs[..0]);
  }

  // Consequences

  /** Entries are numbered consecutively from count + 1. */
  lemma {:induction false} EntriesNumbered(evs: seq<Event>, count: int)
    ensures var es := Entries(Items(evs, count));
            && |es| == CountAfter(evs, count) - count
            && forall i :: 0 <= i < |es| ==> es[i].num == count + 1 + i
  {
    if evs != [] {
      var init := evs[..|evs| - 1];
      EntriesNumbered(init, count);
      var items := Items(init, count);
      assert items + [] == items;
      if |Items(evs, count)| > |items| {
        EntriesAppend(items, Items(evs, count)[|items|]);
      }
    }
  }

  predicate Increasing(lines: seq<Line>) {
    forall i, j :: 0 <= i < j < |lines| ==> lines[i].num < lines[j].num
  }

  /** Picking heads and failures keeps the order of the numbers. */
  lemma {:induction false} HeadsIncreasing(items: seq<Item>)
    requires Increasing(Entries(items))
    ensures Increasing(Heads(items))
    ensures forall i :: 0 <= i < |Heads(items)| ==> Heads(items)[i] in Entries(items)
  {
    if items != [] {
      var init, item := items[..|items| - 1], items[|items| - 1];
      assert items == init + [item];
      EntriesAppend(init, item);
      HeadsAppend(init, item);
      assert Increasing(Entries(init)) by {
        IncreasingPrefix(Entries(init), Entries(items));
      }
      HeadsIncreasing(init);
      hide Heads, Entries;
      if item.Entry? {
        forall i | 0 <= i < |Heads(init)| ensures Heads(init)[i].num < item.line.num {
          EarlierNum(Entries(init), item.line, Heads(init)[i]);
        }
      }
    }
  }

  lemma IncreasingPrefix(part: seq<Line>, lines: seq<Line>)
    requires part <= lines && Increasing(lines)
    ensures Increasing(part)
  {
  }

  lemma EarlierNum(lines: seq<Line>, last: Line, line: Line)
    requires Increasing(lines + [last]) && line in lines
    ensures line.num < last.num
  {
    var k :| 0 <= k < |lines| && lines[k] == line;
    assert (lines + [last])[k] == line && (lines + [last])[|lines|] == last;
  }

  lemma {:induction false} FailuresIncreasing(lines: seq<Line>)
    requires Increasing(lines)
    ensures Increasing(Failures(lines))
    ensures forall i :: 0 <= i < |Failures(lines)| ==> Failures(lines)[i] in lines
  {
    if lines != [] {
      FailuresIncreasing(lines[..|lines| - 1]);
    }
  }

  /** In every mode the numbers of the printed results strictly increase. */
  lemma NumbersIncrease(env: Mode, count: int, evs: seq<Event>)
    requires ExitFree(evs) && !EarlyWarning(evs)
    ensures Increasing(Results(Play(Initial(env, count), evs + [ExitEvent]).out))
  {
    FinalLines(env, count, evs);
    EntriesNumbered(evs, count);
    hide Play, Items, CountAfter, Results;
    var items := Items(evs, count);
    assert Increasing(Entries(items));
    HeadsIncreasing(items);
    FailuresIncreasing(Heads(items));
  }

  predicate Shows(lines: seq<Line>, line: Line) {
    exists i :: 0 <= i < |lines| && SameResult(lines[i], line)
  }

  /** Every entry equals the head of its run. */
  lemma {:induction false} HeadShown(items: seq<Item>, k: nat)
    requires k < |items| && items[k].Entry?
    ensures Shows(Heads(items), items[k].line)
  {
    var n := |items| - 1;
    if k < n {
      HeadShown(items[..n], k);
      var i :| 0 <= i < |Heads(items[..n])| && SameResult(Heads(items[..n])[i], items[k].line);
      assert Heads(items)[i] == Heads(items[..n])[i];
    } else if n > 0 && items[n - 1].Entry? && SameResult(items[n - 1].line, items[n].line) {
      HeadShown(items[..n], n - 1);
      var i :| 0 <= i < |Heads(items[..n])| && SameResult(Heads(items[..n])[i], items[n - 1].line);
      assert Heads(items)[i] == Heads(items[..n])[i];
    } else {
      assert Heads(items)[|Heads(items[..n])|] == items[n].line;
    }
  }

  lemma {:induction false} FailureShown(lines: seq<Line>, line: Line)
    requires Shows(lines, line) && IsFailure(line)
    ensures Shows(Failures(lines), line)
  {
    var n := |lines| - 1;
    var i :| 0 <= i < |lines| && SameResult(lines[i], line);
    if i < n {
      assert SameResult(lines[..n][i], line);
      FailureShown(lines[..n], line);
      var j :| 0 <= j < |Failures(lines[..n])| && SameResult(Failures(lines[..n])[j], line);
      assert Failures(lines)[j] == Failures(lines[..n])[j];
    } else {
      assert Failures(lines)[|Failures(lines[..n])|] == lines[n];
    }
  }

  /** Condensing loses no distinct failure: every FAIL or BROK result has a line with its test case,
      type and message. */
  lemma NoFailureLost(count: int, evs: seq<Event>, k: nat)
    requires ExitFree(evs) && !EarlyWarning(evs)
    requires k < |Items(evs, count)| && Items(evs, count)[k].Entry? && IsFailure(Items(evs, count)[k].line)
    ensures Shows(Results(Play(Initial(NoPass, count), evs + [ExitEvent]).out), Items(evs, count)[k].line)
  {
    FinalLines(NoPass, count, evs);
    hide Play, Items, Results;
    HeadShown(Items(evs, count), k);
    FailureShown(Heads(Items(evs, count)), Items(evs, count)[k].line);
  }

  /** A whole test, nested cleanups included: when its trace exits, the process exits with the masked OR
      of what the trace reports, having printed what the mode asks for. */
  lemma WholeTest(env: Mode, count: int, prog: Prog)
    requires Exits(Trace(prog, 0)) && !EarlyWarning(Trace(prog, 0)[..|Trace(prog, 0)| - 1])
    ensures var evs := Trace(prog, 0)[..|Trace(prog, 0)| - 1];
            var end := Exec(Process(Initial(env, count), 0), prog).st;
            && end.status == Exited(AllReported(evs, count).ExitMask())
            && Increasing(Results(end.out))
            && (env == NoPass ==> Results(end.out) == Failures(Heads(Items(evs, count))))
  {
    var trace := Trace(prog, 0);
    var evs := trace[..|trace| - 1];
    ExecIsPlay(Process(Initial(env, count), 0), prog);
    TraceExits(prog, 0);
    hide Trace, Exec, Play, EarlyWarning, AllReported, Results, Failures, Heads, Items;
    assert trace == evs + [ExitEvent];
    ExitValue(env, count, evs);
    FinalLines(env, count, evs);
    NumbersIncrease(env, count, evs);
  }
}
