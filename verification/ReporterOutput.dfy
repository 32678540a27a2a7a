/** Every line a test prints, in order, as a function of its events alone: results, warnings and
    information in verbose mode, failures and warnings with TOUTPUT=NOPASS
    (ltp_framework/lib/tst_res.c). */
module ReporterOutput {
  import opened Basics
  import opened Reporter
  import opened ReporterTheory
  import opened ReporterLines

  /** The line that began the run of equal results the items end with. */
  function RunHead(items: seq<Item>): Option<Line> {
    if items == [] then None
    else
      var init, last := items[..|items| - 1], items[|items| - 1];
      if last.Mark? then None
      else if NewHead(init, last) == [] then RunHead(init) else Some(last.line)
  }

  /** What the end of a run prints: with NOPASS its head, if that is a failure. */
  function Released(items: seq<Item>, env: Mode): seq<Line> {
    if env == NoPass && RunHead(items).Some? && IsFailure(RunHead(items).value) then [RunHead(items).value] else []
  }

  /** What an event prints besides numbered results: a warning unless output is discarded, information
      in verbose mode only, both with number 0; a warning for each result while the count is negative.
      Before the first report the requested mode is not known, and everything is printed. */
  ghost function Aside(before: seq<Event>, ev: Event, env: Mode, count: int): seq<Line> {
    match ev
    case Report(tcid, ttype, mesg) =>
      if ttype.result == TWARN then if env == Discard then [] else [Line(tcid, 0, TWARN, mesg)]
      else if ttype.result == TINFO then if env == Verbose then [Line(tcid, 0, TINFO, mesg)] else []
      else if CountAfter(before, count) < 0 && env != Discard then [Line(tcid, 0, TWARN, COUNT_WARNING)]
      else []
    case TypeWarning(tcid) =>
      if ReportedAny(before) && env == Discard then [] else [Line(tcid, 0, TWARN, TYPE_WARNING)]
    case _ => []
  }

  /** What an event prints of the numbered results: in verbose mode its own; with NOPASS the run that it
      ends. */
  function Numbered(before: seq<Event>, ev: Event, env: Mode, count: int): seq<Line> {
    var items := Items(before, count);
    match ev
    case Report(tcid, ttype, mesg) =>
      var line := Line(tcid, CountAfter(before, count) + 1, ttype.result, mesg);
      if ttype.result == TWARN || ttype.result == TINFO || env == Discard then []
      else if env == Verbose then [line]
      else if NewHead(items, Entry(line)) == [] then [] else Released(items, env)
    case FlushEvent => Released(items, env)
    case ExitEvent => Released(items, env)
    case _ => []
  }

  ghost function Output(evs: seq<Event>, env: Mode, count: int): seq<Line> {
    if evs == [] then []
    else
      var before, ev := evs[..|evs| - 1], evs[|evs| - 1];
      Output(before, env, count) + Aside(before, ev, env, count) + Numbered(before, ev, env, count)
  }

  // The state that the lines come from

  ghost predicate Printing(st: State, evs: seq<Event>, env: Mode, count: int) {
    && Tracks(st, evs, env, count)
    && st.out == Output(evs, env, count)
    && st.buffered == (if env == NoPass then RunHead(Items(evs, count)) else None)
  }

  lemma {:induction false} RunHeadIsResult(evs: seq<Event>, count: int)
    ensures RunHead(Items(evs, count)).Some? ==> IsResult(RunHead(Items(evs, count)).value)
  {
    if evs != [] {
      RunHeadIsResult(evs[..|evs| - 1], count);
      ItemsLast(evs[..|evs| - 1], evs[|evs| - 1], count);
      assert evs == evs[..|evs| - 1] + [evs[|evs| - 1]];
    }
  }

  lemma RunHeadAppend(items: seq<Item>, item: Item)
    ensures RunHead(items + [item]) ==
              if item.Mark? then None else if NewHead(items, item) == [] then RunHead(items) else Some(item.line)
  {
    assert (items + [item])[..|items|] == items;
  }

  lemma ItemsLast(before: seq<Event>, ev: Event, count: int)
    ensures Items(before + [ev], count) == Items(before, count) +
              if Counted(ev) then [Entry(Line(ev.tcid, CountAfter(before, count) + 1, ev.ttype.result, ev.mesg))]
              else if ev.FlushEvent? || ev.ExitEvent? then [Mark] else []
    ensures RunHead(Items(before + [ev], count)) ==
              if Counted(ev) then
                var line := Line(ev.tcid, CountAfter(before, count) + 1, ev.ttype.result, ev.mesg);
                if NewHead(Items(before, count), Entry(line)) == [] then RunHead(Items(before, count)) else Some(line)
              else if ev.FlushEvent? || ev.ExitEvent? then None
              else RunHead(Items(before, count))
  {
    assert (before + [ev])[..|before|] == before;
    var items := Items(before, count);
    assert items + [] == items;
    if Counted(ev) {
      RunHeadAppend(items, Entry(Line(ev.tcid, CountAfter(before, count) + 1, ev.ttype.result, ev.mesg)));
    } else {
      RunHeadAppend(items, Mark);
    }
  }

  lemma OutputLast(before: seq<Event>, ev: Event, env: Mode, count: int)
    ensures Output(before + [ev], env, count)
         == Output(before, env, count) + Aside(before, ev, env, count) + Numbered(before, ev, env, count)
  {
    hide Aside, Numbered;
    assert (before + [ev])[..|before|] == before;
  }

  /** Printing a line of a mode that prints it. */
  lemma PrintOut(st: State, line: Line)
    requires st.outSet
    ensures Print(st, line).out == st.out +
              if st.mode == Verbose || (st.mode == NoPass && line.ttype in {TFAIL, TBROK, TWARN}) then [line] else []
    ensures Print(st, line).buffered == st.buffered
  {
  }

  lemma FlushOutput(st: State, items: seq<Item>)
    requires st.outSet && BufferNoted(st) && (st.mode == NoPass ==> st.env == NoPass)
    requires st.buffered == (if st.env == NoPass then RunHead(items) else None)
    requires RunHead(items).Some? ==> IsResult(RunHead(items).value)
    ensures Flush(st).out == st.out + Released(items, st.env) && Flush(st).buffered == None
  {
    hide RunHead;
    if st.buffered.Some? {
      PrintOut(st, st.buffered.value);
      hide Print;
    }
  }

  lemma CondenseOutput(st: State, items: seq<Item>, line: Line)
    requires st.outSet && BufferNoted(st) && st.env == NoPass && st.mode == NoPass && st.buffered == RunHead(items)
    requires RunHead(items).Some? ==> IsResult(RunHead(items).value)
    ensures var starts := NewHead(items, Entry(line)) != [];
            && Condense(st, line).out == st.out + (if starts then Released(items, NoPass) else [])
            && Condense(st, line).buffered == if starts then Some(line) else RunHead(items)
  {
    RunHeadMatches(items);
    hide RunHead;
    if st.buffered.Some? {
      PrintOut(st, st.buffered.value);
      hide Print;
    }
  }

  /** The run of the last entry has a head, which is an equal result. */
  lemma {:induction false} RunHeadMatches(items: seq<Item>)
    ensures if items != [] && items[|items| - 1].Entry?
            then RunHead(items).Some? && SameResult(RunHead(items).value, items[|items| - 1].line)
            else RunHead(items) == None
  {
    if items != [] {
      RunHeadMatches(items[..|items| - 1]);
    }
  }

  lemma ShownOutput(st: State, items: seq<Item>, line: Line)
    requires st.outSet && BufferNoted(st) && st.mode == st.env
    requires st.buffered == (if st.env == NoPass then RunHead(items) else None)
    requires RunHead(items).Some? ==> IsResult(RunHead(items).value)
    requires line.ttype != TWARN && line.ttype != TINFO
    ensures Shown(st, line).out == st.out +
              if st.env == Discard then [] else if st.env == Verbose then [line]
              else if NewHead(items, Entry(line)) == [] then [] else Released(items, st.env)
    ensures Shown(st, line).buffered ==
              if st.env != NoPass then None else if NewHead(items, Entry(line)) == [] then RunHead(items) else Some(line)
  {
    PrintOut(st, line);
    if st.env == NoPass {
      CondenseOutput(st, items, line);
    }
    hide Print, Condense, RunHead, NewHead, Released;
  }

  /** One tst_res call, from a state whose output is known. */
  lemma ReportOutput(st: State, before: seq<Event>, ev: Event, env: Mode, count: int)
    requires Printing(st, before, env, count) && ev.Report?
    ensures var st', r := TstRes(st, ev.tcid, ev.ttype, ev.mesg), ev.ttype.result;
            && st'.out == st.out + Aside(before, ev, env, count) + Numbered(before, ev, env, count)
            && st'.buffered == if env != NoPass then None
                               else if r == TWARN || r == TINFO then st.buffered
                               else var line := Line(ev.tcid, CountAfter(before, count) + 1, r, ev.mesg);
                                    if NewHead(Items(before, count), Entry(line)) == [] then st.buffered else Some(line)
  {
    RunHeadIsResult(before, count);
    hide Opened, ReportedAny, RunHead, NewHead, Released, AllReported, Items, CountAfter, Output;
    var items, r := Items(before, count), ev.ttype.result;
    var noted := Noted(st, r);
    if r == TWARN || r == TINFO {
      PrintOut(noted, Line(ev.tcid, 0, r, ev.mesg));
      hide Print;
    } else {
      var line := Line(ev.tcid, noted.count + 1, r, ev.mesg);
      PrintOut(noted, Line(ev.tcid, 0, TWARN, COUNT_WARNING));
      CountCheckedEffect(noted, ev.tcid);
      var checked := CountChecked(noted, ev.tcid);
      ShownOutput(checked, items, line);
      hide Print, Shown;
    }
  }

  lemma {:induction false} PlayPrinting(env: Mode, count: int, evs: seq<Event>)
    requires ExitFree(evs) && !EarlyWarning(evs)
    ensures Printing(Play(Initial(env, count), evs), evs, env, count)
  {
    PlayTracks(env, count, evs);
    if evs != [] {
      var before, ev := evs[..|evs| - 1], evs[|evs| - 1];
      assert evs == before + [ev];
      LastEvent(evs);
      PlayPrinting(env, count, before);
      ApplyPrinting(Play(Initial(env, count), before), before, ev, env, count);
      hide Apply;
    }
  }

  /** What one event adds to the output, and the buffered line it leaves. */
  ghost predicate Adds(st: State, st': State, before: seq<Event>, ev: Event, env: Mode, count: int) {
    && st'.out == st.out + Aside(before, ev, env, count) + Numbered(before, ev, env, count)
    && st'.buffered == if env == NoPass then RunHead(Items(before + [ev], count)) else None
  }

  lemma ReportAdds(st: State, before: seq<Event>, ev: Event, env: Mode, count: int)
    requires Printing(st, before, env, count) && ev.Report?
    ensures Adds(st, Apply(st, ev), before, ev, env, count)
  {
    ReportOutput(st, before, ev, env, count);
    ItemsLast(before, ev, count);
    hide TstRes, Aside, Numbered, RunHead, NewHead, Items, CountAfter, Output, AllReported, Opened, ReportedAny;
  }

  lemma WarningAdds(st: State, before: seq<Event>, ev: Event, env: Mode, count: int)
    requires Printing(st, before, env, count) && ev.TypeWarning? && st.outSet
    ensures Adds(st, Apply(st, ev), before, ev, env, count)
  {
    PrintOut(st, Line(ev.tcid, 0, TWARN, TYPE_WARNING));
    ItemsLast(before, ev, count);
    hide Print, RunHead, NewHead, Items, CountAfter, Output, AllReported, Opened, ReportedAny, Released;
  }

  lemma FlushAdds(st: State, before: seq<Event>, ev: Event, env: Mode, count: int)
    requires Printing(st, before, env, count) && ev.FlushEvent?
    ensures Adds(st, Apply(st, ev), before, ev, env, count)
  {
    ItemsLast(before, ev, count);
    RunHeadIsResult(before, count);
    OpenedByReport(before);
    hide RunHead, NewHead, Items, CountAfter, Output, AllReported, Opened, ReportedAny;
    if st.outSet {
      FlushOutput(st, Items(before, count));
      hide Flush, Released;
    }
  }

  lemma SetOutAdds(st: State, before: seq<Event>, ev: Event, env: Mode, count: int)
    requires Printing(st, before, env, count) && ev.SetOut?
    ensures Adds(st, Apply(st, ev), before, ev, env, count)
  {
    ItemsLast(before, ev, count);
    hide RunHead, NewHead, Items, CountAfter, Output, AllReported, Opened, ReportedAny;
  }

  lemma ApplyPrinting(st: State, before: seq<Event>, ev: Event, env: Mode, count: int)
    requires Printing(st, before, env, count) && !ev.ExitEvent? && !EarlyWarning(before + [ev])
    requires Tracks(Apply(st, ev), before + [ev], env, count)
    ensures Printing(Apply(st, ev), before + [ev], env, count)
  {
    OutputLast(before, ev, env, count);
    EarlyLast(before, ev);
    assert st.outSet <==> Opened(before);
    hide Opened, ReportedAny, EarlyWarning, RunHead, Aside, Numbered, AllReported, Items, CountAfter, Output, Apply;
    match ev
    case Report(_, _, _) => ReportAdds(st, before, ev, env, count);
    case TypeWarning(_) => WarningAdds(st, before, ev, env, count);
    case FlushEvent => FlushAdds(st, before, ev, env, count);
    case SetOut => SetOutAdds(st, before, ev, env, count);
  }

  // Main results

  /** The whole output of a test that ends with tst_exit. */
  lemma WholeOutput(env: Mode, count: int, evs: seq<Event>)
    requires ExitFree(evs) && !EarlyWarning(evs)
    ensures Play(Initial(env, count), evs + [ExitEvent]).out == Output(evs + [ExitEvent], env, count)
  {
    var st := Play(Initial(env, count), evs);
    PlayPrinting(env, count, evs);
    hide Play, RunHead, Items, CountAfter, Output, AllReported, Opened, ReportedAny, Exit, Released;
    PlayLast(env, count, evs);
    OutputLast(evs, ExitEvent, env, count);
    FlushOut(st);
    LastFlush(st, evs, env, count);
  }

  lemma LastFlush(st: State, evs: seq<Event>, env: Mode, count: int)
    requires Printing(st, evs, env, count)
    ensures Flush(st).out == Output(evs, env, count) + Released(Items(evs, count), env)
  {
    RunHeadIsResult(evs, count);
    OpenedByReport(evs);
    hide RunHead, Items, CountAfter, Output, AllReported, Opened, ReportedAny;
    if st.outSet {
      FlushOutput(st, Items(evs, count));
      hide Flush, Released;
    }
  }

  /** The lines other than numbered results that the events print, in order. */
  ghost function Asides(evs: seq<Event>, env: Mode, count: int): seq<Line> {
    if evs == [] then []
    else Asides(evs[..|evs| - 1], env, count) + Aside(evs[..|evs| - 1], evs[|evs| - 1], env, count)
  }

  /** The printed warnings and information. */
  function Remarks(lines: seq<Line>): seq<Line> {
    if lines == [] then []
    else Remarks(lines[..|lines| - 1]) + if IsResult(lines[|lines| - 1]) then [] else [lines[|lines| - 1]]
  }

  lemma RemarksAppend(lines: seq<Line>, more: seq<Line>)
    requires |more| <= 1
    ensures Remarks(lines + more) == Remarks(lines) + Remarks(more)
  {
    if more == [] {
      assert lines + more == lines;
    } else {
      assert (lines + more)[..|lines|] == lines && more[..0] == [];
    }
  }

  lemma EventRemarks(before: seq<Event>, ev: Event, env: Mode, count: int)
    ensures var aside, numbered := Aside(before, ev, env, count), Numbered(before, ev, env, count);
            |aside| <= 1 && |numbered| <= 1 && Remarks(aside) == aside && Remarks(numbered) == []
  {
    hide Remarks, RunHead, NewHead, Items, CountAfter, ReportedAny;
    RunHeadIsResult(before, count);
    var aside, numbered := Aside(before, ev, env, count), Numbered(before, ev, env, count);
    assert |aside| <= 1 && forall i :: 0 <= i < |aside| ==> !IsResult(aside[i]);
    assert |numbered| <= 1 && forall i :: 0 <= i < |numbered| ==> IsResult(numbered[i]);
    OneRemark(aside);
    OneRemark(numbered);
    hide *;
  }

  lemma OneRemark(lines: seq<Line>)
    requires |lines| <= 1
    ensures Remarks(lines) == if lines != [] && IsResult(lines[0]) then [] else lines
  {
    if lines != [] {
      assert lines[..0] == [] && lines == [lines[0]];
    }
  }

  /** Every warning is printed unless output is discarded, all information in verbose mode and none
      otherwise: the printed lines that are no results are exactly those. */
  lemma {:induction false} RemarksPrinted(evs: seq<Event>, env: Mode, count: int)
    ensures Remarks(Output(evs, env, count)) == Asides(evs, env, count)
  {
    if evs != [] {
      var before, ev := evs[..|evs| - 1], evs[|evs| - 1];
      RemarksPrinted(before, env, count);
      EventRemarks(before, ev, env, count);
      hide Aside, Numbered, Remarks;
      var aside, numbered := Aside(before, ev, env, count), Numbered(before, ev, env, count);
      RemarksAppend(Output(before, env, count), aside);
      RemarksAppend(Output(before, env, count) + aside, numbered);
      assert Asides(before, env, count) + aside + [] == Asides(before, env, count) + aside;
    }
  }

  /** The output of a whole test program, nested cleanups included. */
  lemma WholeTestOutput(env: Mode, count: int, prog: Prog)
    requires Exits(Trace(prog, 0)) && !EarlyWarning(Trace(prog, 0)[..|Trace(prog, 0)| - 1])
    ensures Exec(Process(Initial(env, count), 0), prog).st.out == Output(Trace(prog, 0), env, count)
  {
    var trace := Trace(prog, 0);
    ExecIsPlay(Process(Initial(env, count), 0), prog);
    TraceExits(prog, 0);
    hide Trace, Exec, Play, EarlyWarning, Output;
    assert trace == trace[..|trace| - 1] + [ExitEvent];
    WholeOutput(env, count, trace[..|trace| - 1]);
  }

  // Breaks and the exit value, spelled out

  /** What tst_brk reports: its own type and message, or TBROK with a warning if the type is none of the
      four; and outside cleanups a line for the remaining cases, which for TFAIL there is not. */
  lemma BreakReports(tcid: string, ttype: TType, mesg: string, entered: int)
    ensures var r, reports := ttype.result, BreakTrace(tcid, ttype, mesg, entered);
            if r == TFAIL then reports == [Report(tcid, ttype, mesg)]
            else if r == TBROK then
              reports == [Report(tcid, ttype, mesg)]
                         + if entered == 0 then [Report(tcid, TType(TBROK, 0), "Remaining cases broken")] else []
            else if r == TCONF then
              reports == [Report(tcid, ttype, mesg)]
                         + if entered == 0 then [Report(tcid, ttype, "Remaining cases not appropriate for configuration")] else []
            else if r == TRETR then
              reports == [Report(tcid, ttype, mesg)]
                         + if entered == 0 then [Report(tcid, ttype, "Remaining cases retired")] else []
            else reports == [TypeWarning(tcid), Report(tcid, TType(TBROK, ttype.flags), mesg)]
  {
  }

  /** Some report of the events, or internal warning, has this bit. */
  ghost predicate SomeReport(evs: seq<Event>, count: int, bit: Bits -> bool) {
    exists i: nat :: i < |evs| && BitAt(evs, count, bit, i)
  }

  predicate BitAt(evs: seq<Event>, count: int, bit: Bits -> bool, i: nat)
    requires i < |evs|
  {
    bit(Reported(evs[i], CountAfter(evs[..i], count)))
  }

  lemma {:induction false} BitReported(evs: seq<Event>, count: int, bit: Bits -> bool)
    requires !bit(TPASS) && forall a: Bits, b: Bits :: bit(a.Or(b)) <==> bit(a) || bit(b)
    ensures bit(AllReported(evs, count)) <==> SomeReport(evs, count, bit)
  {
    if evs != [] {
      var n, init := |evs| - 1, evs[..|evs| - 1];
      BitReported(init, count, bit);
      assert BitAt(evs, count, bit, n) <==> bit(Reported(evs[n], CountAfter(init, count)));
      hide Reported, CountAfter, BitAt;
      forall i: nat | i < n ensures BitAt(evs, count, bit, i) == BitAt(init, count, bit, i) {
        BitPrefix(evs, count, bit, i);
      }
      if SomeReport(init, count, bit) {
        var i: nat :| i < |init| && BitAt(init, count, bit, i);
        assert BitAt(evs, count, bit, i);
      }
    }
  }

  lemma BitPrefix(evs: seq<Event>, count: int, bit: Bits -> bool, i: nat)
    requires i < |evs| - 1
    ensures BitAt(evs, count, bit, i) == BitAt(evs[..|evs| - 1], count, bit, i)
  {
    assert evs[..|evs| - 1][..i] == evs[..i];
  }

  /** The exit value has the FAIL, BROK or WARN bit exactly when some report or internal warning has it,
      and no other bit. */
  lemma ExitBits(env: Mode, count: int, evs: seq<Event>)
    requires ExitFree(evs) && !EarlyWarning(evs)
    ensures var end := Play(Initial(env, count), evs + [ExitEvent]);
            && end.status.Exited?
            && (end.status.code.fail <==> SomeReport(evs, count, (b: Bits) => b.fail))
            && (end.status.code.brok <==> SomeReport(evs, count, (b: Bits) => b.brok))
            && (end.status.code.warn <==> SomeReport(evs, count, (b: Bits) => b.warn))
            && !end.status.code.retr && !end.status.code.info && !end.status.code.conf
  {
    ExitValue(env, count, evs);
    BitReported(evs, count, (b: Bits) => b.fail);
    BitReported(evs, count, (b: Bits) => b.brok);
    BitReported(evs, count, (b: Bits) => b.warn);
    hide Play, AllReported, SomeReport, EarlyWarning;
  }
}
