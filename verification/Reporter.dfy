/** The result reporter: each call ORs its type into the exit value and prints, buffers or drops one
    line, and a break runs a cleanup routine that may break again
    (ltp_framework/lib/tst_res.c). */
module Reporter {
  import opened Basics

  /** The six result bits of an int, from TFAIL (1) up to TCONF (32). */
  datatype Bits = Bits(fail: bool, brok: bool, warn: bool, retr: bool, info: bool, conf: bool)
  {
    function Or(b: Bits): Bits {
      Bits(fail || b.fail, brok || b.brok, warn || b.warn, retr || b.retr, info || b.info, conf || b.conf)
    }

    /** & ~(TRETR | TINFO | TCONF) */
    function ExitMask(): Bits {
      Bits(fail, brok, warn, false, false, false)
    }
  }

  const TPASS := Bits(false, false, false, false, false, false)
  const TFAIL := TPASS.(fail := true)
  const TBROK := TPASS.(brok := true)
  const TWARN := TPASS.(warn := true)
  const TRETR := TPASS.(retr := true)
  const TINFO := TPASS.(info := true)
  const TCONF := TPASS.(conf := true)

  /** A ttype argument: the bits under TTYPE_MASK, and the errno flags above it. */
  datatype TType = TType(result: Bits, flags: nat)

  datatype Mode = Verbose | NoPass | Discard

  datatype Line = Line(tcid: string, num: int, ttype: Bits, mesg: string)

  /** Crashed: a line was to be printed before T_out was set. */
  datatype Status = Active | Exited(code: Bits) | Crashed

  /** The static variables of tst_res.c. env is what TOUTPUT asks for, read at the first result. */
  datatype State = State(
    env: Mode, mode: Mode, envRead: bool, outSet: bool,
    exitval: Bits, buffered: Option<Line>, count: int, out: seq<Line>, status: Status)

  // What the routines do, as functions on the state

  predicate Printed(mode: Mode, result: Bits) {
    !(mode == Discard || (mode == NoPass && result != TFAIL && result != TBROK && result != TWARN))
  }

  function Print(st: State, line: Line): State {
    var st' := st.(exitval := st.exitval.Or(line.ttype));
    if !Printed(st.mode, line.ttype) then st'
    else if !st.outSet then st'.(status := Crashed)
    else st'.(out := st.out + [line])
  }

  predicate Same(a: Line, b: Line) {
    a.tcid == b.tcid && a.ttype == b.ttype && a.mesg == b.mesg
  }

  function Condense(st: State, line: Line): State {
    if st.buffered.Some? && Same(st.buffered.value, line) then st
    else
      var st' := if st.buffered.Some? then Print(st, st.buffered.value) else st;
      st'.(buffered := Some(line))
  }

  const COUNT_WARNING := "tst_res(): Tst_count < 0 is not valid"

  /** The exit value, the output stream and, the first time, TOUTPUT are settled before any line. */
  function Noted(st: State, r: Bits): State {
    st.(exitval := st.exitval.Or(r), outSet := true, mode := if st.envRead then st.mode else st.env, envRead := true)
  }

  function CountChecked(st: State, tcid: string): State {
    if st.count < 0 then Print(st, Line(tcid, 0, TWARN, COUNT_WARNING)) else st
  }

  function Shown(st: State, line: Line): State {
    match st.mode
    case Discard => st
    case NoPass => Condense(st, line)
    case Verbose => Print(st, line)
  }

  function TstRes(st: State, tcid: string, ttype: TType, mesg: string): State {
    var r := ttype.result;
    if r == TWARN || r == TINFO then
      Print(Noted(st, r), Line(tcid, 0, r, mesg))
    else
      var checked := CountChecked(Noted(st, r), tcid);
      var shown := Shown(checked, Line(tcid, checked.count + 1, r, mesg));
      shown.(count := shown.count + 1)
  }

  function Flush(st: State): State {
    if st.buffered.Some? && st.mode == NoPass then Print(st, st.buffered.value).(buffered := None) else st
  }

  function Exit(st: State): State {
    var st' := Flush(st);
    if st'.status.Crashed? then st' else st'.(status := Exited(st'.exitval.ExitMask()))
  }

  // Programs of calls; a cleanup routine is such a program

  datatype Call =
    | Res(tcid: string, ttype: TType, mesg: string)
    | Brk(tcid: string, ttype: TType, mesg: string, cleanup: Cleanup)
    | FlushCall
    | ExitCall
    | Environ

  datatype Cleanup = NoCleanup | Routine(body: Prog)

  datatype Prog = Done | Then(first: Call, rest: Prog)

  predicate BreakType(r: Bits) {
    r == TFAIL || r == TBROK || r == TCONF || r == TRETR
  }

  /** The type tst_brk reports: an unsupported one becomes TBROK and keeps its errno flags. */
  function BrkType(ttype: TType): TType {
    if BreakType(ttype.result) then ttype else ttype.(result := TBROK)
  }

  function Remaining(r: Bits): Option<string> {
    if r == TCONF then Some("Remaining cases not appropriate for configuration")
    else if r == TRETR then Some("Remaining cases retired")
    else if r == TBROK then Some("Remaining cases broken")
    else None
  }

  const TYPE_WARNING := "tst_brk: Invalid Type. Using TBROK"

  /** The reporter and tst_brk_entered, which counts the cleanup routines being run. */
  datatype Process = Process(st: State, entered: int)

  /** The calls of a program in order, until one exits; exit does not return. */
  function Exec(p: Process, prog: Prog): Process
    decreases prog
  {
    match prog
    case Done => p
    case Then(first, rest) => if p.st.status.Active? then Exec(ExecCall(p, first), rest) else p
  }

  function ExecCall(p: Process, call: Call): Process
    decreases call
  {
    match call
    case Res(tcid, ttype, mesg) => p.(st := TstRes(p.st, tcid, ttype, mesg))
    case FlushCall => p.(st := Flush(p.st))
    case ExitCall => p.(st := Exit(p.st))
    case Environ => p.(st := p.st.(outSet := true))
    case Brk(tcid, ttype, mesg, cleanup) =>
      var reported := BrkReport(p, tcid, ttype, mesg);
      var cleaned :=
        match cleanup
        case NoCleanup => reported
        case Routine(body) =>
          var q := Exec(reported.(entered := reported.entered + 1), body);
          if q.st.status.Active? then q.(entered := q.entered - 1) else q;
      if cleaned.st.status.Active? && cleaned.entered == 0 then cleaned.(st := Exit(cleaned.st)) else cleaned
  }

  /** The lines tst_brk reports before it runs the cleanup. */
  function BrkReport(p: Process, tcid: string, ttype: TType, mesg: string): Process {
    var r := ttype.result;
    var st1 := if BreakType(r) then p.st else Print(p.st, Line(tcid, 0, TWARN, TYPE_WARNING));
    if !st1.status.Active? then p.(st := st1)
    else
      var st2 := TstRes(st1, tcid, BrkType(ttype), mesg);
      if p.entered == 0 && Remaining(r).Some? && st2.status.Active? then
        p.(st := TstRes(st2, tcid, if r == TBROK then TType(TBROK, 0) else ttype, Remaining(r).value))
      else
        p.(st := st2)
  }

  function Initial(env: Mode, count: int): State {
    State(env, Verbose, false, false, TPASS, None, count, [], Active)
  }

  // The code

  class TestReporter {
    const env: Mode
    var tMode: Mode
    var envRead: bool
    var outSet: bool
    var exitval: Bits
    var buffered: Option<Line>   // Buffered and the four Last_ variables
    var tstCount: int
    var out: seq<Line>
    var status: Status
    var brkEntered: int

    constructor (env: Mode, count: int)
      ensures View() == Process(Initial(env, count), 0)
    {
      this.env := env;
      tMode, envRead, outSet, exitval, buffered := Verbose, false, false, TPASS, None;
      tstCount, out, status, brkEntered := count, [], Active, 0;
    }

    function View(): Process
      reads this
    {
      Process(State(env, tMode, envRead, outSet, exitval, buffered, tstCount, out, status), brkEntered)
    }

    /** tst_print. */
    method PrintLine(line: Line)
      modifies this
      ensures View() == old(View()).(st := Print(old(View()).st, line))
    {
      exitval := exitval.Or(line.ttype);
      if tMode == Discard || (tMode == NoPass && line.ttype != TFAIL && line.ttype != TBROK && line.ttype != TWARN) {
        return;
      }
      if !outSet {
        status := Crashed;
        return;
      }
      out := out + [line];
    }

    /** tst_condense. */
    method CondenseLine(line: Line)
      modifies this
      ensures View() == old(View()).(st := Condense(old(View()).st, line))
    {
      if buffered.Some? {
        if Same(buffered.value, line) {
          return;
        }
        PrintLine(buffered.value);
      }
      buffered := Some(line);
    }

    /** tst_res without a file. */
    method Report(tcid: string, ttype: TType, mesg: string)
      modifies this
      ensures View() == old(View()).(st := TstRes(old(View()).st, tcid, ttype, mesg))
    {
      hide Print, Condense;
      var r := ttype.result;
      exitval := exitval.Or(r);
      outSet := true;
      if !envRead {
        tMode := env;
        envRead := true;
      }
      if r == TWARN || r == TINFO {
        PrintLine(Line(tcid, 0, r, mesg));
      } else {
        if tstCount < 0 {
          PrintLine(Line(tcid, 0, TWARN, COUNT_WARNING));
        }
        match tMode {
          case Discard =>
          case NoPass => CondenseLine(Line(tcid, tstCount + 1, r, mesg));
          case Verbose => PrintLine(Line(tcid, tstCount + 1, r, mesg));
        }
        tstCount := tstCount + 1;
      }
    }

    /** tst_flush. */
    method FlushBuffered()
      modifies this
      ensures View() == old(View()).(st := Flush(old(View()).st))
    {
      if buffered.Some? && tMode == NoPass {
        PrintLine(buffered.value);
        buffered := None;
      }
    }

    /** tst_exit. */
    method ExitTest()
      modifies this
      ensures View() == old(View()).(st := Exit(old(View()).st))
    {
      FlushBuffered();
      if !status.Crashed? {
        status := Exited(exitval.ExitMask());
      }
    }

    /** The reporting part of tst_brk. */
    method ReportBreak(tcid: string, ttype: TType, mesg: string)
      requires status.Active?
      modifies this
      ensures View() == BrkReport(old(View()), tcid, ttype, mesg)
    {
      var r := ttype.result;
      if !BreakType(r) {
        PrintLine(Line(tcid, 0, TWARN, TYPE_WARNING));
        if !status.Active? {
          return;
        }
      }
      Report(tcid, BrkType(ttype), mesg);
      if brkEntered == 0 && status.Active? {
        if r == TCONF {
          Report(tcid, ttype, "Remaining cases not appropriate for configuration");
        } else if r == TRETR {
          Report(tcid, ttype, "Remaining cases retired");
        } else if r == TBROK {
          Report(tcid, TType(TBROK, 0), "Remaining cases broken");
        }
      }
    }

    /** tst_brk. */
    method Break(tcid: string, ttype: TType, mesg: string, cleanup: Cleanup)
      requires status.Active?
      modifies this
      ensures View() == ExecCall(old(View()), Brk(tcid, ttype, mesg, cleanup))
      decreases cleanup
    {
      hide BrkReport, Exit;
      ReportBreak(tcid, ttype, mesg);
      if cleanup.Routine? {
        brkEntered := brkEntered + 1;
        RunCalls(cleanup.body);
        if status.Active? {
          brkEntered := brkEntered - 1;
        }
      }
      if status.Active? && brkEntered == 0 {
        ExitTest();
      }
    }

    method RunCall(call: Call)
      requires status.Active?
      modifies this
      ensures View() == ExecCall(old(View()), call)
      decreases call
    {
      match call
      case Res(tcid, ttype, mesg) => Report(tcid, ttype, mesg);
      case Brk(tcid, ttype, mesg, cleanup) => Break(tcid, ttype, mesg, cleanup);
      case FlushCall => FlushBuffered();
      case ExitCall => ExitTest();
      case Environ => outSet := true;
    }

    /** A test, or a cleanup routine, making its calls. */
    method RunCalls(prog: Prog)
      modifies this
      ensures View() == Exec(old(View()), prog)
      decreases prog
    {
      hide ExecCall;
      if prog.Then? && status.Active? {
        RunCall(prog.first);
        RunCalls(prog.rest);
      }
    }
  }
}
