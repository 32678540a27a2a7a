/** Open flags as text: openflags2symbols names the bits of a mask, parse_open_flags reads the names
    back (ltp_framework/lib/open_flags.c). */
module OpenFlags {
  import opened Basics
  import opened Text

  /** An int as the set of its one bits: & is *, | is +, & ~ is -. */
  type Bits = set<nat>

  const O_RDONLY: Bits := {}
  const O_WRONLY: Bits := {0}
  const O_RDWR: Bits := {1}
  const RDONLY_SYMBOL := "O_RDONLY"
  const UNKNOWN_SYMBOL := "UNKNOWN"
  const COMMA := ','
  const NUL := '\0'

  datatype Flag = Flag(symbol: string, bits: Bits)

  /** -1 with *badname set is Bad: where in the string the unknown name begins. */
  datatype Parsed = Ok(bits: Bits) | Bad(badname: nat)

  // Parsing

  function Lookup(table: seq<Flag>, name: string): Option<Bits> {
    if table == [] then None
    else if table[0].symbol == name then Some(table[0].bits)
    else Lookup(table[1..], name)
  }

  function ParseFrom(table: seq<Flag>, text: string, name: nat, bits: Bits): Parsed
    requires name <= |text|
    decreases |text| - name
  {
    var cc := FieldEnd(text, name, COMMA);
    match Lookup(table, text[name..cc])
    case None => Bad(name)
    case Some(found) =>
      if cc == |text| then Ok(bits + found) else ParseFrom(table, text, cc + 1, bits + found)
  }

  /** A NUL-terminated C string in an array. */
  predicate IsString(str: array<char>, n: nat)
    reads str
  {
    n < str.Length && str[n] == NUL && forall i :: 0 <= i < n ==> str[i] != NUL
  }

  /** strcmp(name, symbol) == 0 for the name that NUL ends at cc. */
  method Compare(table: seq<Flag>, name: string) returns (found: Option<Bits>)
    ensures found == Lookup(table, name)
  {
    found := None;
    var ind := 0;
    while ind < |table|
      invariant 0 <= ind <= |table| && found == None
      invariant Lookup(table, name) == Lookup(table[ind..], name)
    {
      if table[ind].symbol == name {
        found := Some(table[ind].bits);
        break;
      }
      ind := ind + 1;
    }
  }

  /** The name that begins at name: its end is found, cut off with a NUL for the comparison, and mended. */
  method LookUpName(table: seq<Flag>, str: array<char>, n: nat, name: nat, ghost text: string)
    returns (cc: nat, found: Option<Bits>)
    requires IsString(str, n) && name <= n && str[..n] == text
    modifies str
    ensures str[..] == old(str[..]) && IsString(str, n) && str[..n] == text
    ensures cc == FieldEnd(text, name, COMMA) && found == Lookup(table, text[name..cc])
    ensures str[cc] == NUL <==> cc == n
  {
    cc := name;
    while str[cc] != COMMA && str[cc] != NUL
      invariant name <= cc <= n && FieldEnd(text, name, COMMA) == FieldEnd(text, cc, COMMA)
      decreases n - cc
    {
      cc := cc + 1;
    }
    assert forall k :: 0 <= k < n ==> str[k] == text[k];
    var savecc := str[cc];
    str[cc] := NUL;
    assert str[name..cc] == text[name..cc];
    found := Compare(table, str[name..cc]);
    str[cc] := savecc;
    assert str[..] == old(str[..]) && str[..n] == text;
  }

  /** parse_open_flags: cuts the string at each comma in place and mends it before going on, so that
      on every exit the string is as it was. */
  method ParseOpenFlags(table: seq<Flag>, str: array<char>, n: nat) returns (r: Parsed)
    requires IsString(str, n)
    modifies str
    ensures str[..] == old(str[..])
    ensures r == ParseFrom(table, old(str[..n]), 0, {})
  {
    ghost var text := str[..n];
    hide Lookup, FieldEnd, ParseFrom, IsString;
    var bits: Bits, name := {}, 0;
    while true
      invariant 0 <= name <= n && str[..] == old(str[..]) && IsString(str, n) && str[..n] == text
      invariant ParseFrom(table, text, 0, {}) == ParseFrom(table, text, name, bits)
      decreases n - name
    {
      ParseAt(table, text, name, bits);
      var cc, found := LookUpName(table, str, n, name, text);
      if found == None {
        return Bad(name);
      }
      bits := bits + found.value;
      if str[cc] == NUL {
        return Ok(bits);
      }
      name := cc + 1;
    }
  }

  // Printing

  /** The greedy pass over a table: the symbols whose bits are all still there, and the bits left. */
  function Greedy(table: seq<Flag>, bits: Bits): (seq<string>, Bits) {
    if table == [] then ([], bits)
    else if table[0].bits <= bits then
      var (symbols, left) := Greedy(table[1..], bits - table[0].bits);
      ([table[0].symbol] + symbols, left)
    else Greedy(table[1..], bits)
  }

  function Symbols(table: seq<Flag>, flags: Bits, mode: int): seq<string>
    requires table != []
  {
    var (symbols, left) := Greedy(table[1..], flags);
    (if flags * (O_WRONLY + O_RDWR) == {} then [RDONLY_SYMBOL] else [])
    + symbols
    + (if left != {} && mode == 1 then [UNKNOWN_SYMBOL] else [])
  }

  /** The loop of openflags2symbols over all but the first entry, appending to Open_symbols. */
  method PrintGreedy(table: seq<Flag>, openflags: Bits, sep: string, first: seq<string>)
    returns (openSymbols: string, bits: Bits, havesome: nat)
    requires table != []
    ensures havesome == |first + Greedy(table[1..], openflags).0|
    ensures openSymbols == Join(first + Greedy(table[1..], openflags).0, sep) && bits == Greedy(table[1..], openflags).1
  {
    hide Join;
    openSymbols, bits := Join(first, sep), openflags;
    ghost var printed := first;
    havesome := |first|;
    ghost var all := Greedy(table[1..], openflags);
    var ind := 1;
    while ind < |table|
      invariant 1 <= ind <= |table|
      invariant havesome == |printed| && openSymbols == Join(printed, sep)
      invariant all.1 == Greedy(table[ind..], bits).1
      invariant first + all.0 == printed + Greedy(table[ind..], bits).0
    {
      assert table[ind..][1..] == table[ind + 1..];
      if table[ind].bits <= bits {
        JoinAppend(printed, table[ind].symbol, sep);
        JoinNone(sep);
        ghost var rest := Greedy(table[ind + 1..], bits - table[ind].bits).0;
        assert printed + ([table[ind].symbol] + rest) == printed + [table[ind].symbol] + rest;
        if havesome > 0 {
          openSymbols := openSymbols + sep;
        }
        openSymbols := openSymbols + table[ind].symbol;
        havesome := havesome + 1;
        bits := bits - table[ind].bits;
        printed := printed + [table[ind].symbol];
      }
      ind := ind + 1;
    }
    assert printed + [] == printed;
  }

  /** openflags2symbols. */
  method OpenFlags2Symbols(table: seq<Flag>, openflags: Bits, sep: string, mode: int) returns (openSymbols: string)
    requires table != []
    ensures openSymbols == Join(Symbols(table, openflags, mode), sep)
  {
    hide Join, Greedy;
    var first := if openflags * (O_WRONLY + O_RDWR) == {} then [RDONLY_SYMBOL] else [];
    var bits, havesome;
    openSymbols, bits, havesome := PrintGreedy(table, openflags, sep, first);
    ghost var printed := first + Greedy(table[1..], openflags).0;
    if bits != {} && mode == 1 {
      JoinAppend(printed, UNKNOWN_SYMBOL, sep);
      JoinNone(sep);
      if havesome > 0 {
        openSymbols := openSymbols + sep;
      }
      openSymbols := openSymbols + UNKNOWN_SYMBOL;
    } else {
      assert printed + [] == printed;
    }
  }

  // Print then parse

  predicate Clean(name: string) {
    name != "" && COMMA !in name && NUL !in name
  }

  predicate Distinct(table: seq<Flag>) {
    forall i, j :: 0 <= i < j < |table| ==> table[i].symbol != table[j].symbol
  }

  /** Distinct clean names, none of them UNKNOWN, and O_RDONLY first. */
  ghost predicate CleanTable(table: seq<Flag>) {
    && table != [] && table[0] == Flag(RDONLY_SYMBOL, O_RDONLY)
    && (forall i :: 0 <= i < |table| ==> Clean(table[i].symbol) && table[i].symbol != UNKNOWN_SYMBOL)
    && Distinct(table)
  }

  /** As in the source, where the other two access modes follow: then something is always printed. */
  ghost predicate GoodTable(table: seq<Flag>) {
    && CleanTable(table)
    && (exists i :: 1 <= i < |table| && table[i].bits == O_WRONLY)
    && (exists i :: 1 <= i < |table| && table[i].bits == O_RDWR)
  }

  lemma {:induction false} LookupAt(table: seq<Flag>, k: nat)
    requires k < |table| && Distinct(table)
    ensures Lookup(table, table[k].symbol) == Some(table[k].bits)
  {
    if k > 0 {
      assert table[0].symbol != table[k].symbol;
      LookupAt(table[1..], k - 1);
    }
  }

  lemma {:induction false} LookupMissing(table: seq<Flag>, name: string)
    requires forall i :: 0 <= i < |table| ==> table[i].symbol != name
    ensures Lookup(table, name) == None
  {
    if table != [] {
      LookupMissing(table[1..], name);
    }
  }

  // A joined list of names parses name by name

  function ParseTokens(table: seq<Flag>, tokens: seq<string>, at: nat, bits: Bits): Parsed {
    if tokens == [] then Ok(bits)
    else
      match Lookup(table, tokens[0])
      case None => Bad(at)
      case Some(found) => ParseTokens(table, tokens[1..], at + |tokens[0]| + 1, bits + found)
  }

  predicate CommaFree(tokens: seq<string>) {
    forall i :: 0 <= i < |tokens| ==> COMMA !in tokens[i]
  }

  lemma {:induction false} ParseJoined(table: seq<Flag>, prefix: string, tokens: seq<string>, bits: Bits)
    requires tokens != [] && CommaFree(tokens)
    ensures ParseFrom(table, prefix + Join(tokens, ","), |prefix|, bits) == ParseTokens(table, tokens, |prefix|, bits)
    decreases |tokens|
  {
    hide Lookup, ParseFrom;
    var name := tokens[0];
    var rest := if |tokens| == 1 then "" else "," + Join(tokens[1..], ",");
    assert prefix + Join(tokens, ",") == prefix + name + rest;
    ParseOne(table, prefix, name, rest, bits);
    if |tokens| > 1 {
      match Lookup(table, name)
      case None =>
      case Some(found) =>
        assert rest[1..] == Join(tokens[1..], ",");
        ParseJoined(table, prefix + name + ",", tokens[1..], bits + found);
    }
  }

  lemma ParseOne(table: seq<Flag>, prefix: string, name: string, rest: string, bits: Bits)
    requires COMMA !in name && (rest == "" || rest[0] == COMMA)
    ensures ParseFrom(table, prefix + name + rest, |prefix|, bits) ==
              match Lookup(table, name)
              case None => Bad(|prefix|)
              case Some(found) =>
                if rest == "" then Ok(bits + found)
                else ParseFrom(table, prefix + name + "," + rest[1..], |prefix + name + ","|, bits + found)
  {
    hide Lookup, FieldEnd, ParseFrom;
    var text := prefix + name + rest;
    FieldEndAt(prefix, name, rest, COMMA);
    ParseAt(table, text, |prefix|, bits);
    assert text[|prefix|..|prefix| + |name|] == name;
    if rest != "" {
      assert rest == "," + rest[1..];
      assert text == prefix + name + "," + rest[1..];
    }
  }

  lemma ParseAt(table: seq<Flag>, text: string, name: nat, bits: Bits)
    requires name <= |text|
    ensures var cc := FieldEnd(text, name, COMMA);
            ParseFrom(table, text, name, bits) ==
              match Lookup(table, text[name..cc])
              case None => Bad(name)
              case Some(found) => if cc == |text| then Ok(bits + found) else ParseFrom(table, text, cc + 1, bits + found)
  {
  }

  /** The room some names take in front of another one. */
  function Room(tokens: seq<string>): nat {
    if tokens == [] then 0 else |tokens[0]| + 1 + Room(tokens[1..])
  }

  lemma {:induction false} ParseKnown(table: seq<Flag>, from: nat, bits: Bits, taken: Bits, at: nat, tail: seq<string>)
    requires from <= |table|
    requires Distinct(table)
    ensures var done := Greedy(table[from..], bits);
            && done.1 <= bits
            && ParseTokens(table, done.0 + tail, at, taken) == ParseTokens(table, tail, at + Room(done.0), taken + (bits - done.1))
    decreases |table| - from
  {
    if from == |table| {
      GreedyEnd(table[from..], bits);
      hide *;
      assert [] + tail == tail && taken + (bits - bits) == taken;
    } else {
      var flag := table[from];
      GreedyFirst(table, from, bits);
      if flag.bits <= bits {
        var rest := Greedy(table[from + 1..], bits - flag.bits);
        ParseKnown(table, from + 1, bits - flag.bits, taken + flag.bits, at + |flag.symbol| + 1, tail);
        LookupAt(table, from);
        ParseTaken(table, flag, rest.0, rest.1, bits, taken, at, tail);
      } else {
        ParseKnown(table, from + 1, bits, taken, at, tail);
      }
      hide *;
    }
  }

  lemma ParseTaken(table: seq<Flag>, flag: Flag, symbols: seq<string>, left: Bits, bits: Bits, taken: Bits, at: nat, tail: seq<string>)
    requires Lookup(table, flag.symbol) == Some(flag.bits) && flag.bits <= bits && left <= bits - flag.bits
    requires var at', taken' := at + |flag.symbol| + 1, taken + flag.bits;
             ParseTokens(table, symbols + tail, at', taken')
             == ParseTokens(table, tail, at' + Room(symbols), taken' + (bits - flag.bits - left))
    ensures ParseTokens(table, [flag.symbol] + symbols + tail, at, taken)
         == ParseTokens(table, tail, at + Room([flag.symbol] + symbols), taken + (bits - left))
    ensures left <= bits
  {
    ParseFirst(table, flag, symbols + tail, at, taken);
    RoomFirst(flag.symbol, symbols);
    TakeMore(taken, flag.bits, bits, left);
    hide *;
    assert [flag.symbol] + symbols + tail == [flag.symbol] + (symbols + tail);
  }

  lemma TakeMore(taken: Bits, more: Bits, bits: Bits, left: Bits)
    requires more <= bits && left <= bits - more
    ensures left <= bits && taken + more + (bits - more - left) == taken + (bits - left)
  {
  }

  /** The greedy pass names entries of the table only. */
  lemma {:induction false} GreedyNames(table: seq<Flag>, from: nat, bits: Bits)
    requires from <= |table|
    ensures forall name :: name in Greedy(table[from..], bits).0 ==> exists j :: from <= j < |table| && name == table[j].symbol
    decreases |table| - from
  {
    if from < |table| {
      GreedyFirst(table, from, bits);
      GreedyNames(table, from + 1, bits - table[from].bits);
      GreedyNames(table, from + 1, bits);
      hide Greedy;
    }
  }

  lemma GreedyEnd(table: seq<Flag>, bits: Bits)
    requires table == []
    ensures Greedy(table, bits) == ([], bits) && Room([]) == 0
  {
  }

  lemma GreedyFirst(table: seq<Flag>, from: nat, bits: Bits)
    requires from < |table|
    ensures Greedy(table[from..], bits) ==
              if table[from].bits <= bits then
                var rest := Greedy(table[from + 1..], bits - table[from].bits);
                ([table[from].symbol] + rest.0, rest.1)
              else Greedy(table[from + 1..], bits)
  {
    assert table[from..][1..] == table[from + 1..];
  }

  lemma ParseFirst(table: seq<Flag>, flag: Flag, rest: seq<string>, at: nat, bits: Bits)
    requires Lookup(table, flag.symbol) == Some(flag.bits)
    ensures ParseTokens(table, [flag.symbol] + rest, at, bits) == ParseTokens(table, rest, at + |flag.symbol| + 1, bits + flag.bits)
  {
    hide Lookup;
    assert ([flag.symbol] + rest)[1..] == rest;
  }

  lemma RoomFirst(name: string, rest: seq<string>)
    ensures Room([name] + rest) == |name| + 1 + Room(rest)
  {
    assert ([name] + rest)[1..] == rest;
  }

  lemma {:induction false} RoomOfJoin(tokens: seq<string>, last: string)
    ensures |Join(tokens + [last], ",")| == Room(tokens) + |last|
  {
    if tokens != [] {
      assert (tokens + [last])[1..] == tokens[1..] + [last];
      RoomOfJoin(tokens[1..], last);
    }
  }

  /** A single bit that some entry stands for is printed, unless another entry took it first. */
  lemma {:induction false} BitIsTaken(table: seq<Flag>, k: nat, bits: Bits)
    requires k < |table| && table[k].bits != {} && table[k].bits <= bits
    ensures Greedy(table, bits).0 != []
  {
    if !(table[0].bits <= bits) {
      BitIsTaken(table[1..], k - 1, bits);
    }
  }

  /** The bits the greedy pass recognises in a mask. */
  function Recognised(table: seq<Flag>, flags: Bits): Bits
    requires table != []
  {
    flags - Greedy(table[1..], flags).1
  }

  /** With the source's table something is printed for every mask. */
  lemma SymbolsNonEmpty(table: seq<Flag>, flags: Bits, mode: int)
    requires GoodTable(table)
    ensures Symbols(table, flags, mode) != []
  {
    if flags * (O_WRONLY + O_RDWR) != {} {
      var b :| b in flags * (O_WRONLY + O_RDWR);
      var k :| 1 <= k < |table| && table[k].bits == {b};
      BitIsTaken(table[1..], k - 1, flags);
    }
  }

  lemma TokensParse(table: seq<Flag>, flags: Bits, mode: int)
    requires CleanTable(table) && Symbols(table, flags, mode) != []
    ensures var tokens, left := Symbols(table, flags, mode), Greedy(table[1..], flags).1;
            && left <= flags && CommaFree(tokens)
            && ParseTokens(table, tokens, 0, {}) ==
                 (if mode == 1 && left != {} then Bad(Room(tokens[..|tokens| - 1])) else Ok(flags - left))
            && (mode == 1 && left != {} ==> tokens[|tokens| - 1] == UNKNOWN_SYMBOL)
  {
    var symbols, left := Greedy(table[1..], flags).0, Greedy(table[1..], flags).1;
    var tail := if left != {} && mode == 1 then [UNKNOWN_SYMBOL] else [];
    var first := if flags * (O_WRONLY + O_RDWR) == {} then [RDONLY_SYMBOL] else [];
    assert Symbols(table, flags, mode) == first + symbols + tail;
    hide Lookup, Greedy, Symbols, ParseTokens, Room, CleanTable, CommaFree;
    FirstParses(table, flags, first, tail);
    ParseTail(table, Room(first + symbols), flags - left, tail);
    assert tail != [] ==> (first + symbols + tail)[..|first + symbols|] == first + symbols;
    SymbolsClean(table, flags, first + symbols + tail, |first|, |symbols|);
  }

  lemma FirstParses(table: seq<Flag>, flags: Bits, first: seq<string>, tail: seq<string>)
    requires CleanTable(table) && (first == [] || first == [RDONLY_SYMBOL])
    ensures var symbols, left := Greedy(table[1..], flags).0, Greedy(table[1..], flags).1;
            && left <= flags
            && ParseTokens(table, first + symbols + tail, 0, {}) == ParseTokens(table, tail, Room(first + symbols), flags - left)
  {
    hide Lookup, Greedy;
    var symbols, left := Greedy(table[1..], flags).0, Greedy(table[1..], flags).1;
    assert {} + (flags - left) == flags - left;
    if first == [] {
      ParseKnown(table, 1, flags, {}, 0, tail);
      assert first + symbols == symbols;
    } else {
      ParseKnown(table, 1, flags, {}, |RDONLY_SYMBOL| + 1, tail);
      LookupAt(table, 0);
      assert {} + O_RDONLY == {};
      assert (first + symbols + tail)[1..] == symbols + tail;
      assert (first + symbols)[1..] == symbols;
    }
  }

  lemma ParseTail(table: seq<Flag>, at: nat, bits: Bits, tail: seq<string>)
    requires (tail == [] || tail == [UNKNOWN_SYMBOL]) && CleanTable(table)
    ensures ParseTokens(table, tail, at, bits) == if tail == [] then Ok(bits) else Bad(at)
  {
    LookupMissing(table, UNKNOWN_SYMBOL);
  }

  lemma SymbolsClean(table: seq<Flag>, flags: Bits, tokens: seq<string>, m: nat, n: nat)
    requires CleanTable(table) && m + n <= |tokens|
    requires tokens[m..m + n] == Greedy(table[1..], flags).0
    requires forall i :: 0 <= i < |tokens| && !(m <= i < m + n) ==> tokens[i] == RDONLY_SYMBOL || tokens[i] == UNKNOWN_SYMBOL
    ensures CommaFree(tokens)
  {
    GreedyNames(table, 1, flags);
    hide Greedy;
    forall i | 0 <= i < |tokens| ensures COMMA !in tokens[i] {
      if m <= i < m + n {
        assert tokens[i] == tokens[m..m + n][i - m] && tokens[i] in Greedy(table[1..], flags).0;
        var j :| 1 <= j < |table| && tokens[i] == table[j].symbol;
        assert Clean(table[j].symbol);
      }
    }
  }

  /** A joined list parses name by name from the start. */
  lemma ParseWhole(table: seq<Flag>, tokens: seq<string>)
    requires tokens != [] && CommaFree(tokens)
    ensures ParseFrom(table, Join(tokens, ","), 0, {}) == ParseTokens(table, tokens, 0, {})
  {
    ParseJoined(table, "", tokens, {});
    hide *;
    assert "" + Join(tokens, ",") == Join(tokens, ",");
  }

  /** Where the last of some joined names begins. */
  lemma LastBegins(tokens: seq<string>)
    requires tokens != []
    ensures Room(tokens[..|tokens| - 1]) == |Join(tokens, ",")| - |tokens[|tokens| - 1]|
  {
    RoomOfJoin(tokens[..|tokens| - 1], tokens[|tokens| - 1]);
    hide *;
    assert tokens == tokens[..|tokens| - 1] + [tokens[|tokens| - 1]];
  }

  lemma ParseNothing(table: seq<Flag>)
    requires CleanTable(table)
    ensures Join([], ",") == "" && ParseFrom(table, "", 0, {}) == Bad(0)
  {
    LookupMissing(table, "");
    assert ""[0..0] == "";
    hide Lookup;
  }

  lemma RecognisedRest(table: seq<Flag>, flags: Bits)
    requires table != []
    ensures var left := Greedy(table[1..], flags).1; left <= flags ==> (Recognised(table, flags) != flags <==> left != {})
  {
    hide Greedy;
  }

  /** Print then parse: when anything is printed, the parser returns exactly the bits the printer
      recognised, and with mode 1 it stops at the UNKNOWN that ends the text exactly when some bits were
      left over. When nothing is, it stops at once. */
  lemma PrintThenParse(table: seq<Flag>, flags: Bits, mode: int)
    requires CleanTable(table)
    ensures var text, recognised := Join(Symbols(table, flags, mode), ","), Recognised(table, flags);
            if Symbols(table, flags, mode) == [] then
              text == "" && ParseFrom(table, text, 0, {}) == Bad(0)
            else if mode == 1 && recognised != flags then
              |text| >= |UNKNOWN_SYMBOL| && ParseFrom(table, text, 0, {}) == Bad(|text| - |UNKNOWN_SYMBOL|)
            else ParseFrom(table, text, 0, {}) == Ok(recognised)
  {
    var tokens := Symbols(table, flags, mode);
    if tokens == [] {
      ParseNothing(table);
    } else {
      TokensParse(table, flags, mode);
      ParseWhole(table, tokens);
      LastBegins(tokens);
      RecognisedRest(table, flags);
      assert Recognised(table, flags) == flags - Greedy(table[1..], flags).1;
      hide *;
    }
  }

  // Which symbols are printed

  predicate Sorted(idx: seq<nat>) {
    forall k, l :: 0 <= k < l < |idx| ==> idx[k] < idx[l]
  }

  /** All bits of entry j are in the mask, and no chosen entry before it has one of them. */
  ghost predicate Free(table: seq<Flag>, idx: seq<nat>, mask: Bits, j: nat)
    requires j < |table|
  {
    forall b :: b in table[j].bits ==> b in mask && !Covered(table, idx, j, b)
  }

  /** A chosen entry before j has this bit. */
  ghost predicate Covered(table: seq<Flag>, idx: seq<nat>, j: nat, b: nat) {
    exists i :: i in idx && i < j && i < |table| && b in table[i].bits
  }

  /** The entries from one on that the greedy pass chooses: those that are free. */
  ghost predicate Chosen(table: seq<Flag>, from: nat, mask: Bits, idx: seq<nat>) {
    && Sorted(idx) && (forall i :: i in idx ==> from <= i < |table|)
    && (forall j :: from <= j < |table| ==> (j in idx <==> Free(table, idx, mask, j)))
  }

  lemma ChosenMore(table: seq<Flag>, from: nat, mask: Bits, rest: seq<nat>)
    requires from < |table| && table[from].bits <= mask && Chosen(table, from + 1, mask - table[from].bits, rest)
    ensures Chosen(table, from, mask, [from] + rest)
  {
    var idx := [from] + rest;
    Prepended(from, rest);
    forall j | from <= j < |table| ensures j in idx <==> Free(table, idx, mask, j) {
      forall b: nat ensures Covered(table, idx, j, b) <==> Covered(table, rest, j, b) || (from < j && b in table[from].bits) {
        CoveredMore(table, from, rest, j, b);
      }
      if j == from {
        FirstIsFree(table, rest, mask, from);
        FreeLess(table, idx, rest, mask, {}, j);
        assert mask - {} == mask;
      } else {
        FreeLess(table, idx, rest, mask, table[from].bits, j);
      }
    }
  }

  lemma Prepended(from: nat, rest: seq<nat>)
    requires Sorted(rest) && forall i :: i in rest ==> from < i
    ensures Sorted([from] + rest) && forall i :: i in [from] + rest <==> i == from || i in rest
  {
    var idx := [from] + rest;
    forall k, l | 0 <= k < l < |idx| ensures idx[k] < idx[l] {
      assert idx[l] == rest[l - 1] && rest[l - 1] in rest;
    }
    assert idx[0] == from && forall k :: 0 <= k < |rest| ==> idx[k + 1] == rest[k];
  }

  lemma FirstIsFree(table: seq<Flag>, rest: seq<nat>, mask: Bits, from: nat)
    requires from < |table| && table[from].bits <= mask && forall i :: i in rest ==> from < i
    ensures Free(table, rest, mask, from)
  {
  }

  lemma FreeLess(table: seq<Flag>, idx: seq<nat>, rest: seq<nat>, mask: Bits, taken: Bits, j: nat)
    requires j < |table|
    requires forall b: nat :: Covered(table, idx, j, b) <==> Covered(table, rest, j, b) || b in taken
    ensures Free(table, idx, mask, j) <==> Free(table, rest, mask - taken, j)
  {
    hide Covered;
  }

  lemma ChosenSkip(table: seq<Flag>, from: nat, mask: Bits, rest: seq<nat>)
    requires from < |table| && !(table[from].bits <= mask) && Chosen(table, from + 1, mask, rest)
    ensures Chosen(table, from, mask, rest)
  {
    assert from !in rest && !Free(table, rest, mask, from);
  }

  /** The symbols of chosen entries. */
  function Names(table: seq<Flag>, idx: seq<nat>): seq<string>
    requires forall i :: i in idx ==> i < |table|
  {
    seq(|idx|, k requires 0 <= k < |idx| => assert idx[k] in idx; table[idx[k]].symbol)
  }

  /** The greedy pass prints the chosen entries, in table order, and leaves the bits none of them has. */
  lemma {:induction false} GreedyChooses(table: seq<Flag>, from: nat, mask: Bits) returns (idx: seq<nat>)
    requires from <= |table|
    ensures Chosen(table, from, mask, idx) && Names(table, idx) == Greedy(table[from..], mask).0
    ensures forall b :: b in Greedy(table[from..], mask).1 <==> b in mask && !Covered(table, idx, |table|, b)
    decreases |table| - from
  {
    idx := [];
    if from == |table| {
      GreedyEnd(table[from..], mask);
    } else {
      GreedyFirst(table, from, mask);
      hide Greedy;
      if table[from].bits <= mask {
        var rest := GreedyChooses(table, from + 1, mask - table[from].bits);
        ChosenMore(table, from, mask, rest);
        idx := [from] + rest;
        hide Chosen;
        assert Names(table, idx) == [table[from].symbol] + Names(table, rest);
        forall b: nat ensures Covered(table, idx, |table|, b) <==> b in table[from].bits || Covered(table, rest, |table|, b) {
          CoveredMore(table, from, rest, |table|, b);
        }
      } else {
        idx := GreedyChooses(table, from + 1, mask);
        ChosenSkip(table, from, mask, idx);
      }
    }
  }

  lemma CoveredMore(table: seq<Flag>, from: nat, rest: seq<nat>, j: nat, b: nat)
    requires from < |table|
    ensures Covered(table, [from] + rest, j, b) <==> Covered(table, rest, j, b) || (from < j && b in table[from].bits)
  {
    var idx := [from] + rest;
    assert idx[0] == from && forall i :: i in rest ==> i in idx;
    if Covered(table, rest, j, b) {
      var i :| i in rest && i < j && i < |table| && b in table[i].bits;
      assert i in idx;
    }
  }

  /** What is printed for a mask: O_RDONLY exactly when it has neither access mode, and then first; the
      symbol of any other entry exactly when all its bits are there and no printed entry before it took
      one of them; UNKNOWN exactly in mode 1 when some bit belongs to no printed entry. */
  lemma PrintedSymbols(table: seq<Flag>, flags: Bits, mode: int) returns (idx: seq<nat>)
    requires CleanTable(table)
    ensures var tokens := Symbols(table, flags, mode);
            && Chosen(table, 1, flags, idx)
            && ("O_RDONLY" in tokens <==> 0 !in flags && 1 !in flags)
            && ("O_RDONLY" in tokens ==> tokens[0] == "O_RDONLY")
            && (forall j :: 1 <= j < |table| ==> (table[j].symbol in tokens <==> Free(table, idx, flags, j)))
            && ("UNKNOWN" in tokens <==> mode == 1 && exists b :: b in flags && !Covered(table, idx, |table|, b))
            && (forall name :: name in tokens ==>
                  name == "O_RDONLY" || name == "UNKNOWN" || exists j :: 1 <= j < |table| && name == table[j].symbol && table[j].bits <= flags)
  {
    idx := GreedyChooses(table, 1, flags);
    var names, left := Greedy(table[1..], flags).0, Greedy(table[1..], flags).1;
    var tokens := Symbols(table, flags, mode);
    var first := if 0 !in flags && 1 !in flags then ["O_RDONLY"] else [];
    var tail := if left != {} && mode == 1 then ["UNKNOWN"] else [];
    NoAccessMode(flags);
    assert tokens == first + names + tail;
    NamesAre(table, idx, flags);
    hide Greedy, Symbols, Chosen, Free, Covered, CleanTable, Names;
    assert forall name :: name in tokens <==> name in first || name in names || name in tail;
  }

  lemma NoAccessMode(flags: Bits)
    ensures flags * (O_WRONLY + O_RDWR) == {} <==> 0 !in flags && 1 !in flags
  {
    assert 0 in flags ==> 0 in flags * (O_WRONLY + O_RDWR);
    assert 1 in flags ==> 1 in flags * (O_WRONLY + O_RDWR);
  }

  lemma NamesAre(table: seq<Flag>, idx: seq<nat>, flags: Bits)
    requires CleanTable(table) && Chosen(table, 1, flags, idx)
    ensures var names := Names(table, idx);
            && "O_RDONLY" !in names && "UNKNOWN" !in names
            && (forall j :: 1 <= j < |table| ==>
                  table[j].symbol != "O_RDONLY" && table[j].symbol != "UNKNOWN"
                  && (table[j].symbol in names <==> Free(table, idx, flags, j)))
            && (forall name :: name in names ==> exists j :: 1 <= j < |table| && name == table[j].symbol && table[j].bits <= flags)
  {
    var names := Names(table, idx);
    hide Free, Names;
    forall name | name in names ensures exists j :: 1 <= j < |table| && name == table[j].symbol && table[j].bits <= flags {
      var j := NameOf(table, idx, flags, name);
    }
    forall j | 1 <= j < |table| ensures table[j].symbol in names <==> Free(table, idx, flags, j) {
      if table[j].symbol in names {
        var i := NameOf(table, idx, flags, table[j].symbol);
        assert i == j;
      }
      if j in idx {
        NamedAt(table, idx, j);
      }
    }
    assert table[0].symbol == "O_RDONLY";
  }

  lemma NameOf(table: seq<Flag>, idx: seq<nat>, flags: Bits, name: string) returns (j: nat)
    requires Chosen(table, 1, flags, idx) && name in Names(table, idx)
    ensures 1 <= j < |table| && j in idx && name == table[j].symbol && table[j].bits <= flags
  {
    var k :| 0 <= k < |idx| && Names(table, idx)[k] == name;
    j := idx[k];
    assert j in idx && Free(table, idx, flags, j);
  }

  lemma NamedAt(table: seq<Flag>, idx: seq<nat>, j: nat)
    requires (forall i :: i in idx ==> i < |table|) && j in idx
    ensures table[j].symbol in Names(table, idx)
  {
    var k :| 0 <= k < |idx| && idx[k] == j;
    assert Names(table, idx)[k] == table[j].symbol;
  }
}
