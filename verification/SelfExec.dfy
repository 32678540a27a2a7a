/** Handing arguments to a re-executed copy of the program: self_exec joins them with commas after the
    current directory, maybe_run_child takes them apart with the same format
    (ltp_framework/lib/self_exec.c). */
module SelfExec {
  import opened Basics
  import opened Text

  const COMMA := ','

  /** An argument under 'd' or 'n' is a number, under 's' or 'S' a string. */
  datatype Arg = Num(value: int) | Str(text: string)

  predicate Numeric(c: char) { c == 'd' || c == 'n' }
  predicate Textual(c: char) { c == 's' || c == 'S' }

  /** The variadic arguments fit the format. */
  predicate Typed(fmt: string, args: seq<Arg>) {
    && |fmt| == |args|
    && forall i :: 0 <= i < |fmt| ==>
         && (Numeric(fmt[i]) ==> args[i].Num? && -LONG_MAX - 1 <= args[i].value <= LONG_MAX)
         && (Textual(fmt[i]) ==> args[i].Str?)
  }

  predicate Supported(fmt: string) {
    forall i :: 0 <= i < |fmt| ==> Numeric(fmt[i]) || Textual(fmt[i])
  }

  // self_exec

  function ArgText(a: Arg): string {
    if a.Num? then Decimal(a.value) else a.text
  }

  function ArgTexts(args: seq<Arg>): (texts: seq<string>)
    ensures |texts| == |args|
  {
    if args == [] then [] else ArgTexts(args[..|args| - 1]) + [ArgText(args[|args| - 1])]
  }

  /** The -C argument, or None for the -1 of an unknown format character. */
  function Encoded(dir: string, fmt: string, args: seq<Arg>): Option<string> {
    if Supported(fmt) then Some(Join([dir] + ArgTexts(args), [COMMA])) else None
  }

  method SelfExec(dir: string, fmt: string, args: seq<Arg>) returns (r: Option<string>)
    requires Typed(fmt, args)
    ensures r == Encoded(dir, fmt, args)
  {
    hide Decimal;
    var arg := dir;
    var p := 0;
    while p < |fmt|
      invariant 0 <= p <= |fmt| && Supported(fmt[..p])
      invariant arg == Join([dir] + ArgTexts(args[..p]), [COMMA])
    {
      ghost var texts := ArgTexts(args[..p]);
      assert args[..p + 1][..p] == args[..p];
      assert fmt[..p + 1] == fmt[..p] + [fmt[p]];
      JoinAppend([dir] + texts, ArgText(args[p]), [COMMA]);
      assert [dir] + texts + [ArgText(args[p])] == [dir] + (texts + [ArgText(args[p])]);
      if Numeric(fmt[p]) {
        arg := arg + [COMMA] + Decimal(args[p].value);
      } else if Textual(fmt[p]) {
        arg := arg + [COMMA] + args[p].text;
      } else {
        return None;
      }
      p := p + 1;
    }
    assert args[..p] == args && fmt[..p] == fmt;
    return Some(arg);
  }

  /** Nothing is sent exactly if some character is unknown; without arguments it is the directory, and every
      further argument adds a comma and its text, a number in decimal. */
  lemma EncodedIs(dir: string, fmt: string, args: seq<Arg>, c: char, a: Arg)
    ensures Encoded(dir, fmt, args) == None <==> exists i :: 0 <= i < |fmt| && fmt[i] != 'd' && fmt[i] != 'n' && fmt[i] != 's' && fmt[i] != 'S'
    ensures Encoded(dir, "", []) == Some(dir)
    ensures Encoded(dir, fmt + [c], args + [a]).Some? ==>
      && Encoded(dir, fmt, args).Some?
      && Encoded(dir, fmt + [c], args + [a]).value
         == Encoded(dir, fmt, args).value + [','] + if a.Num? then Decimal(a.value) else a.text
  {
    assert (args + [a])[..|args|] == args;
    assert forall i :: 0 <= i < |fmt| ==> (fmt + [c])[i] == fmt[i];
    JoinAppend([dir] + ArgTexts(args), ArgText(a), [COMMA]);
    assert [dir] + ArgTexts(args) + [ArgText(a)] == [dir] + (ArgTexts(args) + [ArgText(a)]);
    assert ArgTexts([]) == [] && [dir] + [] == [dir];
    hide Decimal;
  }

  // maybe_run_child

  /** Broken: tst_exit after TBROK. Skipped: an 'n' value differs and the caller goes on. Ran: the child
      runs in dir, with one value for each format character. Crashed: strlen of a missing directory. */
  datatype Outcome = NotChild | Broken | Skipped | Ran(dir: string, values: seq<Arg>) | Crashed

  datatype Field = Bad | Differs | Read(arg: Arg)

  /** One token under one format character; want is the caller's value for 'n'. */
  function ReadField(c: char, tok: string, want: int): Field {
    if Numeric(c) then
      var (i, end) := Strtol(tok);
      if end != |tok| then Bad else if c == 'n' && i != want then Differs else Read(Num(i))
    else if Textual(c) then Read(Str(tok))
    else Bad
  }

  /** The format loop from position p on, with the tokens that are left. */
  function DecodeFrom(dir: string, tokens: seq<string>, fmt: string, wants: seq<int>, p: nat, values: seq<Arg>): Outcome
    requires p <= |fmt| == |wants|
    decreases |fmt| - p
  {
    if p == |fmt| then Ran(dir, values)
    else if tokens == [] then Broken
    else
      match ReadField(fmt[p], tokens[0], wants[p])
      case Bad => Broken
      case Differs => Skipped
      case Read(arg) => DecodeFrom(dir, tokens[1..], fmt, wants, p + 1, values + [arg])
  }

  function Decoded(childArgs: Option<string>, fmt: string, wants: seq<int>, canEnter: string -> bool): Outcome
    requires |fmt| == |wants|
  {
    if childArgs.None? then NotChild
    else
      var tokens := Tokens(childArgs.value, COMMA);
      if tokens == [] then Crashed
      else
        var r := DecodeFrom(tokens[0], tokens[1..], fmt, wants, 0, []);
        if r.Ran? && !canEnter(r.dir) then Broken else r
  }

  method MaybeRunChild(childArgs: Option<string>, fmt: string, wants: seq<int>, canEnter: string -> bool) returns (r: Outcome)
    requires |fmt| == |wants|
    ensures r == Decoded(childArgs, fmt, wants, canEnter)
  {
    if childArgs.None? {
      return NotChild;
    }
    var args := childArgs.value;
    assert args[0..] == args;
    var childDir, at := StrTok(args, 0, COMMA);
    if childDir.None? {
      return Crashed;
    }
    var dir := childDir.value;
    ghost var rest := Tokens(args, COMMA)[1..];
    assert rest == Tokens(args[at..], COMMA);
    var values: seq<Arg> := [];
    var p := 0;
    while p < |fmt|
      invariant 0 <= p <= |fmt| && 0 <= at <= |args|
      invariant DecodeFrom(dir, rest, fmt, wants, 0, []) == DecodeFrom(dir, Tokens(args[at..], COMMA), fmt, wants, p, values)
    {
      ghost var left := Tokens(args[at..], COMMA);
      var tok, next := StrTok(args, at, COMMA);
      if tok.None? {
        return Broken;
      }
      assert left[0] == tok.value && left[1..] == Tokens(args[next..], COMMA);
      match ReadField(fmt[p], tok.value, wants[p]) {
        case Bad => return Broken;
        case Differs => return Skipped;
        case Read(arg) => values := values + [arg];
      }
      at := next;
      p := p + 1;
    }
    return if canEnter(dir) then Ran(dir, values) else Broken;
  }

  // Encode then decode

  /** No string is empty or holds a comma. */
  predicate Clean(dir: string, args: seq<Arg>) {
    IsToken(dir, COMMA) && forall i :: 0 <= i < |args| && args[i].Str? ==> IsToken(args[i].text, COMMA)
  }

  /** The child's caller asked for the values that were sent. */
  predicate Wanted(fmt: string, args: seq<Arg>, wants: seq<int>)
    requires |fmt| == |args| == |wants|
  {
    forall i :: 0 <= i < |fmt| && fmt[i] == 'n' && args[i].Num? ==> args[i].value == wants[i]
  }

  lemma ReadSent(c: char, a: Arg, want: int)
    requires Numeric(c) || Textual(c)
    requires Numeric(c) ==> a.Num? && -LONG_MAX - 1 <= a.value <= LONG_MAX
    requires Textual(c) ==> a.Str? && IsToken(a.text, COMMA)
    ensures ReadField(c, ArgText(a), want) == if c == 'n' && a.value != want then Differs else Read(a)
    ensures IsToken(ArgText(a), COMMA)
  {
    if a.Num? {
      StrtolOfDecimal(a.value);
      hide Strtol, Decimal;
    }
  }

  lemma {:induction false} ArgTextAt(args: seq<Arg>, i: nat)
    requires i < |args|
    ensures ArgTexts(args)[i] == ArgText(args[i])
  {
    if i < |args| - 1 {
      ArgTextAt(args[..|args| - 1], i);
    }
  }

  lemma TextsAreTokens(dir: string, fmt: string, args: seq<Arg>)
    requires Typed(fmt, args) && Supported(fmt) && Clean(dir, args)
    ensures AllTokens([dir] + ArgTexts(args), COMMA)
  {
    forall i | 0 <= i < |args| ensures IsToken(ArgTexts(args)[i], COMMA) {
      ArgTextAt(args, i);
      ReadSent(fmt[i], args[i], 0);
    }
    hide IsToken;
  }

  /** Decoding clean arguments stops at the first 'n' whose value differs and otherwise gives them back. */
  lemma {:induction false} DecodeSent(dir: string, fmt: string, args: seq<Arg>, wants: seq<int>, p: nat)
    requires Typed(fmt, args) && Supported(fmt) && Clean(dir, args) && |wants| == |fmt| && p <= |fmt|
    ensures DecodeFrom(dir, ArgTexts(args)[p..], fmt, wants, p, args[..p])
         == if Wanted(fmt[p..], args[p..], wants[p..]) then Ran(dir, args) else Skipped
    decreases |fmt| - p
  {
    if p == |fmt| {
      assert args[..p] == args;
    } else {
      ArgTextAt(args, p);
      ReadSent(fmt[p], args[p], wants[p]);
      hide ReadField, ArgText, IsToken, Typed, Supported, Clean, Wanted;
      DecodeOne(dir, ArgTexts(args)[p..], fmt, wants, p, args[..p]);
      DecodeSent(dir, fmt, args, wants, p + 1);
      hide DecodeFrom;
      assert args[..p] + [args[p]] == args[..p + 1];
      assert ArgTexts(args)[p..][1..] == ArgTexts(args)[p + 1..];
      WantedStep(fmt, args, wants, p);
    }
  }

  lemma DecodeOne(dir: string, tokens: seq<string>, fmt: string, wants: seq<int>, p: nat, values: seq<Arg>)
    requires p < |fmt| == |wants| && tokens != []
    ensures var f := ReadField(fmt[p], tokens[0], wants[p]);
            DecodeFrom(dir, tokens, fmt, wants, p, values) ==
              if f.Bad? then Broken else if f.Differs? then Skipped
              else DecodeFrom(dir, tokens[1..], fmt, wants, p + 1, values + [f.arg])
  {
    hide ReadField;
  }

  lemma WantedStep(fmt: string, args: seq<Arg>, wants: seq<int>, p: nat)
    requires |fmt| == |args| == |wants| && p < |fmt|
    ensures Wanted(fmt[p..], args[p..], wants[p..])
            <==> (fmt[p] == 'n' && args[p].Num? ==> args[p].value == wants[p]) && Wanted(fmt[p + 1..], args[p + 1..], wants[p + 1..])
  {
    var f, a, w := fmt[p..], args[p..], wants[p..];
    var f', a', w' := fmt[p + 1..], args[p + 1..], wants[p + 1..];
    assert f[0] == fmt[p] && a[0] == args[p] && w[0] == wants[p];
    assert forall i :: 0 <= i < |f'| ==> f'[i] == f[i + 1] && a'[i] == a[i + 1] && w'[i] == w[i + 1];
    if Wanted(f, a, w) {
      forall i | 0 <= i < |f'| && f'[i] == 'n' && a'[i].Num? ensures a'[i].value == w'[i] {
        assert f[i + 1] == 'n';
      }
    }
    if (f[0] == 'n' && a[0].Num? ==> a[0].value == w[0]) && Wanted(f', a', w') {
      forall i | 0 <= i < |f| && f[i] == 'n' && a[i].Num? ensures a[i].value == w[i] {
        if i > 0 { assert f'[i - 1] == 'n'; }
      }
    }
  }

  /** Whatever was sent, the child only runs with values that came from tokens and were wanted. */
  lemma {:induction false} RanIsClean(dir: string, tokens: seq<string>, fmt: string, wants: seq<int>, p: nat, values: seq<Arg>)
    requires p <= |fmt| == |wants| && |values| == p && AllTokens(tokens, COMMA)
    requires forall i :: 0 <= i < p ==> Fine(fmt[i], values[i], wants[i])
    ensures var r := DecodeFrom(dir, tokens, fmt, wants, p, values);
            r.Ran? ==> r.dir == dir && |r.values| == |fmt| && forall i :: 0 <= i < |fmt| ==> Fine(fmt[i], r.values[i], wants[i])
    decreases |fmt| - p
  {
    if p < |fmt| && tokens != [] {
      var f := ReadField(fmt[p], tokens[0], wants[p]);
      assert f.Read? ==> Fine(fmt[p], f.arg, wants[p]);
      hide ReadField, Fine, IsToken;
      if f.Read? {
        RanIsClean(dir, tokens[1..], fmt, wants, p + 1, values + [f.arg]);
      }
    }
  }

  predicate Fine(c: char, a: Arg, want: int) {
    && (a.Str? ==> IsToken(a.text, COMMA))
    && (c == 'n' ==> a == Num(want))
  }

  /** The child runs with exactly the directory, integers and strings that were sent if and only if no
      string is empty or holds a comma and every 'n' value is the one the caller wants. */
  lemma ArgumentsRoundTrip(dir: string, fmt: string, args: seq<Arg>, wants: seq<int>, canEnter: string -> bool)
    requires Typed(fmt, args) && Supported(fmt) && |wants| == |fmt| && canEnter(dir)
    ensures Decoded(Encoded(dir, fmt, args), fmt, wants, canEnter) == Ran(dir, args)
            <==> Clean(dir, args) && Wanted(fmt, args, wants)
    ensures Clean(dir, args) && !Wanted(fmt, args, wants) ==> Decoded(Encoded(dir, fmt, args), fmt, wants, canEnter) == Skipped
  {
    var text := Join([dir] + ArgTexts(args), [COMMA]);
    if Clean(dir, args) {
      TextsAreTokens(dir, fmt, args);
      TokensOfJoin([dir] + ArgTexts(args), COMMA);
      DecodeSent(dir, fmt, args, wants, 0);
      hide Clean, Wanted, Typed, Join, DecodeFrom;
      assert ([dir] + ArgTexts(args))[1..] == ArgTexts(args) == ArgTexts(args)[0..];
      assert fmt[0..] == fmt && args[0..] == args && wants[0..] == wants && args[..0] == [];
    } else {
      var tokens := Tokens(text, COMMA);
      TokensAreTokens(text, COMMA);
      if tokens != [] {
        RanIsClean(tokens[0], tokens[1..], fmt, wants, 0, []);
        hide Join, DecodeFrom, IsToken, Tokens;
      }
    }
  }

  // When each outcome comes about

  /** Format character c cannot be served by token p: there is none, it is a number with something behind
      it, or the character is unknown. */
  predicate Unreadable(c: char, toks: seq<string>, p: nat) {
    || p >= |toks|
    || ((c == 'd' || c == 'n') && Strtol(toks[p]).1 != |toks[p]|)
    || (c != 'd' && c != 'n' && c != 's' && c != 'S')
  }

  /** Token p is a number under 'n' that is not the wanted one. */
  predicate Unwanted(c: char, toks: seq<string>, p: nat, want: int) {
    p < |toks| && c == 'n' && Strtol(toks[p]).1 == |toks[p]| && Strtol(toks[p]).0 != want
  }

  /** From position p on something is unreadable before anything is unwanted. */
  ghost predicate BreaksFrom(fmt: string, toks: seq<string>, wants: seq<int>, p: nat)
    requires |fmt| == |wants|
  {
    exists q :: p <= q < |fmt| && Unreadable(fmt[q], toks, q) && forall k :: p <= k < q ==> !Unwanted(fmt[k], toks, k, wants[k])
  }

  /** From position p on something is unwanted before anything is unreadable. */
  ghost predicate SkipsFrom(fmt: string, toks: seq<string>, wants: seq<int>, p: nat)
    requires |fmt| == |wants|
  {
    exists q :: p <= q < |fmt| && Unwanted(fmt[q], toks, q, wants[q]) && forall k :: p <= k < q ==> !Unreadable(fmt[k], toks, k)
  }

  /** The values read: numbers under 'd' and 'n', the tokens themselves under 's' and 'S'. */
  predicate ReadFrom(values: seq<Arg>, fmt: string, toks: seq<string>) {
    && |values| == |fmt| <= |toks|
    && forall k :: 0 <= k < |fmt| ==>
         values[k] == if fmt[k] == 'd' || fmt[k] == 'n' then Num(Strtol(toks[k]).0) else Str(toks[k])
  }

  lemma FromNext(fmt: string, toks: seq<string>, wants: seq<int>, p: nat)
    requires |fmt| == |wants| && p < |fmt|
    ensures var bad, other := Unreadable(fmt[p], toks, p), Unwanted(fmt[p], toks, p, wants[p]);
            && !(bad && other)
            && (BreaksFrom(fmt, toks, wants, p) <==> bad || (!other && BreaksFrom(fmt, toks, wants, p + 1)))
            && (SkipsFrom(fmt, toks, wants, p) <==> other || (!bad && SkipsFrom(fmt, toks, wants, p + 1)))
  {
    assert !(Unreadable(fmt[p], toks, p) && Unwanted(fmt[p], toks, p, wants[p]));
    hide Unreadable, Unwanted;
    BreaksNext(fmt, toks, wants, p);
    SkipsNext(fmt, toks, wants, p);
  }

  lemma BreaksNext(fmt: string, toks: seq<string>, wants: seq<int>, p: nat)
    requires |fmt| == |wants| && p < |fmt|
    ensures BreaksFrom(fmt, toks, wants, p)
            <==> Unreadable(fmt[p], toks, p) || (!Unwanted(fmt[p], toks, p, wants[p]) && BreaksFrom(fmt, toks, wants, p + 1))
  {
    hide Unreadable, Unwanted;
    if !Unwanted(fmt[p], toks, p, wants[p]) && BreaksFrom(fmt, toks, wants, p + 1) {
      var q :| p + 1 <= q < |fmt| && Unreadable(fmt[q], toks, q) && forall k :: p + 1 <= k < q ==> !Unwanted(fmt[k], toks, k, wants[k]);
      assert forall k :: p <= k < q ==> !Unwanted(fmt[k], toks, k, wants[k]);
    }
  }

  lemma SkipsNext(fmt: string, toks: seq<string>, wants: seq<int>, p: nat)
    requires |fmt| == |wants| && p < |fmt|
    ensures SkipsFrom(fmt, toks, wants, p)
            <==> Unwanted(fmt[p], toks, p, wants[p]) || (!Unreadable(fmt[p], toks, p) && SkipsFrom(fmt, toks, wants, p + 1))
  {
    hide Unreadable, Unwanted;
    if !Unreadable(fmt[p], toks, p) && SkipsFrom(fmt, toks, wants, p + 1) {
      var q :| p + 1 <= q < |fmt| && Unwanted(fmt[q], toks, q, wants[q]) && forall k :: p + 1 <= k < q ==> !Unreadable(fmt[k], toks, k);
      assert forall k :: p <= k < q ==> !Unreadable(fmt[k], toks, k);
    }
  }

  lemma ReadCases(c: char, toks: seq<string>, p: nat, want: int)
    requires p < |toks|
    ensures ReadField(c, toks[p], want) ==
              if Unreadable(c, toks, p) then Bad
              else if Unwanted(c, toks, p, want) then Differs
              else Read(if c == 'd' || c == 'n' then Num(Strtol(toks[p]).0) else Str(toks[p]))
  {
    hide Strtol;
  }

  lemma {:induction false} DecodeCases(dir: string, toks: seq<string>, fmt: string, wants: seq<int>, p: nat, values: seq<Arg>)
    requires p <= |fmt| == |wants| && p <= |toks| && ReadFrom(values, fmt[..p], toks)
    ensures var r := DecodeFrom(dir, toks[p..], fmt, wants, p, values);
            && (r == Broken <==> BreaksFrom(fmt, toks, wants, p))
            && (r == Skipped <==> SkipsFrom(fmt, toks, wants, p))
            && (r == Broken || r == Skipped || (r.Ran? && r.dir == dir && ReadFrom(r.values, fmt, toks)))
    decreases |fmt| - p
  {
    if p == |fmt| {
      assert fmt[..p] == fmt;
    } else {
      FromNext(fmt, toks, wants, p);
      if p == |toks| {
        assert Unreadable(fmt[p], toks, p);
        hide BreaksFrom, SkipsFrom, Unreadable, Unwanted;
      } else {
        ReadCases(fmt[p], toks, p, wants[p]);
        assert toks[p..][0] == toks[p] && toks[p..][1..] == toks[p + 1..];
        var f := ReadField(fmt[p], toks[p], wants[p]);
        hide BreaksFrom, SkipsFrom, Unreadable, Unwanted, ReadField, Strtol;
        if f.Read? {
          assert fmt[..p + 1] == fmt[..p] + [fmt[p]];
          DecodeCases(dir, toks, fmt, wants, p + 1, values + [f.arg]);
        }
      }
    }
  }

  /** Every outcome of maybe_run_child. Without child arguments it returns at once. With arguments that
      hold nothing but commas it crashes. Otherwise the first token is the directory and the others serve
      the format: the first one that cannot be read breaks the program off and the first one that is not
      wanted sends it back to its caller, whichever comes first; and if all are read and wanted the child
      runs with them, unless the directory cannot be entered. */
  lemma Outcomes(childArgs: Option<string>, fmt: string, wants: seq<int>, canEnter: string -> bool)
    requires |fmt| == |wants|
    ensures var r := Decoded(childArgs, fmt, wants, canEnter);
            && (r == NotChild <==> childArgs == None)
            && (childArgs.Some? ==>
                  var tokens := Tokens(childArgs.value, COMMA);
                  && (r == Crashed <==> tokens == [])
                  && (tokens != [] ==>
                        var toks := tokens[1..];
                        && (r == Skipped <==> SkipsFrom(fmt, toks, wants, 0))
                        && (r == Broken <==> BreaksFrom(fmt, toks, wants, 0)
                                             || (!SkipsFrom(fmt, toks, wants, 0) && !canEnter(tokens[0])))
                        && (r.Ran? ==> r.dir == tokens[0] && ReadFrom(r.values, fmt, toks))))
  {
    if childArgs.Some? {
      var tokens := Tokens(childArgs.value, COMMA);
      if tokens != [] {
        var toks := tokens[1..];
        assert toks[0..] == toks && fmt[..0] == [];
        DecodeCases(tokens[0], toks, fmt, wants, 0, []);
        hide DecodeFrom, BreaksFrom, SkipsFrom, ReadFrom, Tokens;
      }
    }
  }
}
