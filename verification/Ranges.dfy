/** Parsing lists of ranges: comma-separated num or min:max[:mult] tokens, any field of which may be
    blank (parse_ranges in ltp_framework/lib/random_range.c). */
module Ranges {
  import opened Basics
  import opened Text

  datatype Range = Range(min: int, max: int, mult: int)

  /** A user-supplied number parser; None is its -1. */
  type NumberParser = string -> Option<int>

  const COMMA := ','
  const COLON := ':'

  // The meaning of one token

  /** A blank field keeps the default. */
  function Field(s: string, default: int, parse: NumberParser): Option<int> {
    if s == "" then Some(default) else parse(s)
  }

  /** The fields of a token: n1, n2 if there is a colon, mult if there is a second one. */
  function Split(tok: string): (string, Option<string>, Option<string>) {
    var c1 := FieldEnd(tok, 0, COLON);
    if c1 == |tok| then (tok, None, None)
    else
      var rest := tok[c1 + 1..];
      var c2 := FieldEnd(rest, 0, COLON);
      if c2 == |rest| then (tok[..c1], Some(rest), None)
      else (tok[..c1], Some(rest[..c2]), Some(rest[c2 + 1..]))
  }

  function ParseToken(tok: string, def: Range, parse: NumberParser): Option<Range> {
    var (n1, n2, mult) := Split(tok);
    match Field(n1, def.min, parse)
    case None => None
    case Some(min) =>
      var max := if n2.None? then Some(min) else Field(n2.value, def.max, parse);
      if max.None? then None
      else
        var m := if mult.None? then Some(def.mult) else Field(mult.value, def.mult, parse);
        if m.None? then None else Some(Range(min, max.value, m.value))
  }

  function ParseAll(tokens: seq<string>, def: Range, parse: NumberParser): Option<seq<Range>> {
    if tokens == [] then Some([])
    else
      match ParseToken(tokens[0], def, parse)
      case None => None
      case Some(range) =>
        match ParseAll(tokens[1..], def, parse)
        case None => None
        case Some(rest) => Some([range] + rest)
  }

  // The code

  method CountCommas(str: string) returns (ncommas: nat)
    ensures ncommas == Occurrences(str, COMMA)
  {
    ncommas := 0;
    var cp := 0;
    while cp < |str|
      invariant 0 <= cp <= |str| && ncommas + Occurrences(str[cp..], COMMA) == Occurrences(str, COMMA)
    {
      if str[cp] == COMMA {
        ncommas := ncommas + 1;
      }
      assert str[cp..][1..] == str[cp + 1..];
      cp := cp + 1;
    }
  }

  function Rejoined(field: Option<string>): string {
    if field.None? then "" else [COLON] + field.value
  }

  /** The two strchr calls that cut a token at its colons. */
  method CutToken(tok: string) returns (n1str: string, n2str: Option<string>, multstr: Option<string>)
    ensures (n1str, n2str, multstr) == Split(tok)
    ensures COLON !in n1str && (n2str.Some? ==> COLON !in n2str.value) && (n2str.None? ==> multstr.None?)
    ensures tok == n1str + Rejoined(n2str) + Rejoined(multstr)
  {
    hide FieldEnd;
    n1str, n2str, multstr := tok, None, None;
    var cp := FieldEnd(tok, 0, COLON);
    if cp < |tok| {
      var rest := tok[cp + 1..];
      n1str, n2str := tok[..cp], Some(rest);
      cp := FieldEnd(rest, 0, COLON);
      if cp < |rest| {
        n2str, multstr := Some(rest[..cp]), Some(rest[cp + 1..]);
      }
    }
  }

  /** The field is there, is not blank, and is no number. */
  predicate Fails(field: Option<string>, parse: NumberParser) {
    field.Some? && field.value != "" && parse(field.value) == None
  }

  /** The body of the token loop, filling one range. */
  method FillRange(tok: string, def: Range, parse: NumberParser) returns (r: Option<Range>)
    ensures r == ParseToken(tok, def, parse)
    ensures var (n1, n2, m) := Split(tok);
            r == None <==> Fails(Some(n1), parse) || Fails(n2, parse) || Fails(m, parse)
    ensures r.Some? ==>
      var (n1, n2, m) := Split(tok);
      && r.value.min == (if n1 == "" then def.min else parse(n1).value)
      && r.value.max == (if n2.None? then r.value.min else if n2.value == "" then def.max else parse(n2.value).value)
      && r.value.mult == (if m.None? || m.value == "" then def.mult else parse(m.value).value)
  {
    hide Split;
    var n1str, n2str, multstr := CutToken(tok);
    var range := def;
    if |n1str| > 0 {
      var v := parse(n1str);
      if v.None? {
        return None;
      }
      range := range.(min := v.value);
    }
    if n2str.None? {
      range := range.(max := range.min);
    } else if |n2str.value| > 0 {
      var v := parse(n2str.value);
      if v.None? {
        return None;
      }
      range := range.(max := v.value);
    }
    if multstr.Some? && |multstr.value| > 0 {
      var v := parse(multstr.value);
      if v.None? {
        return None;
      }
      range := range.(mult := v.value);
    }
    return Some(range);
  }

  /** parse_ranges: the array has one slot more than there are commas, which is enough whatever the
      string, since strtok drops empty tokens. r is the number of ranges, or -1. */
  method ParseRanges(str: string, def: Range, parse: NumberParser) returns (r: int, ranges: array<Range>)
    ensures fresh(ranges) && ranges.Length == Occurrences(str, COMMA) + 1
    ensures match ParseAll(Tokens(str, COMMA), def, parse)
            case None => r == -1
            case Some(all) => r == |all| <= ranges.Length && ranges[..r] == all
  {
    hide ParseToken, Occurrences, Tokens;
    var ncommas := CountCommas(str);
    ranges := new Range[ncommas + 1](_ => def);
    ghost var tokens := Tokens(str, COMMA);
    TokenCount(str, COMMA);
    var rp := 0;
    assert str[0..] == str;
    var tok, next := StrTok(str, 0, COMMA);
    while tok.Some?
      invariant next <= |str| && 0 <= rp <= |tokens|
      invariant tokens[rp..] == if tok.None? then [] else [tok.value] + Tokens(str[next..], COMMA)
      invariant ParseAll(tokens[..rp], def, parse) == Some(ranges[..rp])
      decreases if tok.Some? then |str| - next + 1 else 0
    {
      NextToken(tokens, rp, tok.value, Tokens(str[next..], COMMA));
      var range := FillRange(tok.value, def, parse);
      ParseAppend(tokens[..rp], tok.value, def, parse);
      if range.None? {
        ParseFails(tokens, rp + 1, def, parse);
        return -1, ranges;
      }
      ranges[rp] := range.value;
      assert ranges[..rp + 1] == ranges[..rp] + [range.value];
      rp := rp + 1;
      tok, next := StrTok(str, next, COMMA);
    }
    assert tokens[..rp] == tokens;
    return rp, ranges;
  }

  /** The list fails exactly when one of its tokens does, and else has the range of each in order. */
  lemma {:induction false} ParseAllIs(tokens: seq<string>, def: Range, parse: NumberParser)
    ensures ParseAll(tokens, def, parse) == None <==> exists k :: 0 <= k < |tokens| && ParseToken(tokens[k], def, parse) == None
    ensures ParseAll(tokens, def, parse).Some? ==>
      var all := ParseAll(tokens, def, parse).value;
      |all| == |tokens| && forall k :: 0 <= k < |tokens| ==> ParseToken(tokens[k], def, parse) == Some(all[k])
  {
    hide ParseToken;
    if tokens != [] {
      ParseAllIs(tokens[1..], def, parse);
      assert forall k :: 1 <= k < |tokens| ==> tokens[k] == tokens[1..][k - 1];
      if k :| 0 <= k < |tokens[1..]| && ParseToken(tokens[1..][k], def, parse) == None {
        assert ParseToken(tokens[k + 1], def, parse) == None;
      }
    }
  }

  lemma NextToken(tokens: seq<string>, rp: nat, tok: string, rest: seq<string>)
    requires rp <= |tokens| && tokens[rp..] == [tok] + rest
    ensures rp < |tokens| && tokens[rp + 1..] == rest && tokens[..rp] + [tok] == tokens[..rp + 1]
  {
    assert |tokens[rp..]| == |tokens| - rp;
    assert tokens[rp] == tokens[rp..][0] && tokens[rp + 1..] == tokens[rp..][1..];
  }

  lemma {:induction false} ParseAppend(tokens: seq<string>, tok: string, def: Range, parse: NumberParser)
    requires ParseAll(tokens, def, parse).Some?
    ensures ParseAll(tokens + [tok], def, parse) ==
              match ParseToken(tok, def, parse)
              case None => None
              case Some(range) => Some(ParseAll(tokens, def, parse).value + [range])
  {
    hide ParseToken;
    if tokens == [] {
      assert [] + [tok] == [tok] && [tok][1..] == [];
      if ParseToken(tok, def, parse).Some? {
        var last := ParseToken(tok, def, parse).value;
        assert [last] + [] == [] + [last];
      }
    } else {
      assert (tokens + [tok])[1..] == tokens[1..] + [tok] && (tokens + [tok])[0] == tokens[0];
      ParseAppend(tokens[1..], tok, def, parse);
      if ParseToken(tok, def, parse).Some? {
        var first, rest, last := ParseToken(tokens[0], def, parse).value, ParseAll(tokens[1..], def, parse).value, ParseToken(tok, def, parse).value;
        assert [first] + (rest + [last]) == [first] + rest + [last];
      }
    }
  }

  lemma {:induction false} ParseFails(tokens: seq<string>, n: nat, def: Range, parse: NumberParser)
    requires n <= |tokens| && ParseAll(tokens[..n], def, parse) == None
    ensures ParseAll(tokens, def, parse) == None
  {
    hide ParseToken;
    assert n > 0 && tokens[..n][0] == tokens[0];
    if ParseToken(tokens[0], def, parse).Some? {
      assert tokens[..n][1..] == tokens[1..][..n - 1];
      ParseFails(tokens[1..], n - 1, def, parse);
    }
  }

  // Printing lists of ranges, and reading them back

  datatype Printed = Blank | Number(value: int)

  /** The three forms of a token. */
  datatype Form = Lone(num: int) | Pair(min: Printed, max: Printed) | Triple(min: Printed, max: Printed, mult: Printed)

  function ShowField(p: Printed, show: int -> string): string {
    if p.Blank? then "" else show(p.value)
  }

  function Show(f: Form, show: int -> string): string {
    match f
    case Lone(n) => show(n)
    case Pair(min, max) => ShowField(min, show) + [COLON] + ShowField(max, show)
    case Triple(min, max, mult) => ShowField(min, show) + [COLON] + (ShowField(max, show) + [COLON] + ShowField(mult, show))
  }

  function Or(p: Printed, default: int): int {
    if p.Blank? then default else p.value
  }

  /** What a token stands for: blanks take the defaults and a lone number is both bounds. */
  function Meaning(f: Form, def: Range): Range {
    match f
    case Lone(n) => Range(n, n, def.mult)
    case Pair(min, max) => Range(Or(min, def.min), Or(max, def.max), def.mult)
    case Triple(min, max, mult) => Range(Or(min, def.min), Or(max, def.max), Or(mult, def.mult))
  }

  function ShowAll(forms: seq<Form>, show: int -> string): seq<string> {
    if forms == [] then [] else [Show(forms[0], show)] + ShowAll(forms[1..], show)
  }

  function Meanings(forms: seq<Form>, def: Range): seq<Range> {
    if forms == [] then [] else [Meaning(forms[0], def)] + Meanings(forms[1..], def)
  }

  predicate FitsInt(p: Printed) {
    p.Number? ==> IsInt32(p.value)
  }

  predicate AllInts(f: Form) {
    match f
    case Lone(n) => IsInt32(n)
    case Pair(min, max) => FitsInt(min) && FitsInt(max)
    case Triple(min, max, mult) => FitsInt(min) && FitsInt(max) && FitsInt(mult)
  }

  /** On ints, parse undoes show, whose output has neither separator. */
  ghost predicate Inverse(show: int -> string, parse: NumberParser) {
    forall n :: IsInt32(n) ==> parse(show(n)) == Some(n) && show(n) != "" && COMMA !in show(n) && COLON !in show(n)
  }

  lemma SplitTwo(a: string, b: string)
    requires COLON !in a && COLON !in b
    ensures Split(a + [COLON] + b) == (a, Some(b), None)
  {
    var tok := a + [COLON] + b;
    FieldEndAt("", a, [COLON] + b, COLON);
    assert "" + a + ([COLON] + b) == tok;
    assert tok[..|a|] == a && tok[|a| + 1..] == b;
    FieldEndAt("", b, "", COLON);
    assert "" + b + "" == b;
  }

  lemma SplitThree(a: string, b: string, c: string)
    requires COLON !in a && COLON !in b
    ensures Split(a + [COLON] + (b + [COLON] + c)) == (a, Some(b), Some(c))
  {
    var rest := b + [COLON] + c;
    FieldEndAt("", a, [COLON] + rest, COLON);
    var tok := a + [COLON] + rest;
    assert "" + a + ([COLON] + rest) == tok;
    assert tok[..|a|] == a && tok[|a| + 1..] == rest;
    FieldEndAt("", b, [COLON] + c, COLON);
    assert "" + b + ([COLON] + c) == rest;
    assert rest[..|b|] == b && rest[|b| + 1..] == c;
  }

  lemma FieldShown(p: Printed, default: int, show: int -> string, parse: NumberParser)
    requires Inverse(show, parse) && FitsInt(p)
    ensures Field(ShowField(p, show), default, parse) == Some(Or(p, default))
    ensures COLON !in ShowField(p, show) && COMMA !in ShowField(p, show)
  {
    if p.Number? {
      assert parse(show(p.value)) == Some(p.value);
    }
  }

  lemma TokenRoundTrip(f: Form, def: Range, show: int -> string, parse: NumberParser)
    requires Inverse(show, parse) && AllInts(f)
    ensures ParseToken(Show(f, show), def, parse) == Some(Meaning(f, def))
    ensures IsToken(Show(f, show), COMMA)
  {
    match f
    case Lone(n) =>
      assert parse(show(n)) == Some(n);
      FieldEndAt("", show(n), "", COLON);
      assert "" + show(n) + "" == show(n);
    case Pair(min, max) =>
      FieldShown(min, def.min, show, parse);
      FieldShown(max, def.max, show, parse);
      SplitTwo(ShowField(min, show), ShowField(max, show));
      hide Split, Field, ShowField, Inverse, FieldEnd;
    case Triple(min, max, mult) => TripleRoundTrip(f, def, show, parse);
  }

  lemma TripleRoundTrip(f: Form, def: Range, show: int -> string, parse: NumberParser)
    requires Inverse(show, parse) && f.Triple? && AllInts(f)
    ensures ParseToken(Show(f, show), def, parse) == Some(Meaning(f, def))
    ensures IsToken(Show(f, show), COMMA)
  {
    FieldShown(f.min, def.min, show, parse);
    FieldShown(f.max, def.max, show, parse);
    FieldShown(f.mult, def.mult, show, parse);
    SplitThree(ShowField(f.min, show), ShowField(f.max, show), ShowField(f.mult, show));
    hide Split, Field, ShowField, Inverse, FieldEnd;
  }

  lemma {:induction false} AllRoundTrip(forms: seq<Form>, def: Range, show: int -> string, parse: NumberParser)
    requires Inverse(show, parse) && forall i :: 0 <= i < |forms| ==> AllInts(forms[i])
    ensures AllTokens(ShowAll(forms, show), COMMA)
    ensures ParseAll(ShowAll(forms, show), def, parse) == Some(Meanings(forms, def))
  {
    if forms != [] {
      TokenRoundTrip(forms[0], def, show, parse);
      AllRoundTrip(forms[1..], def, show, parse);
      hide ParseToken, Show, Meaning, IsToken, Inverse;
      var shown := ShowAll(forms, show);
      assert shown[0] == Show(forms[0], show) && shown[1..] == ShowAll(forms[1..], show);
    }
  }

  /** parse_ranges inverts the printer of comma-joined range lists of ints. */
  lemma RangesRoundTrip(forms: seq<Form>, def: Range, show: int -> string, parse: NumberParser)
    requires Inverse(show, parse) && forall i :: 0 <= i < |forms| ==> AllInts(forms[i])
    ensures ParseAll(Tokens(Join(ShowAll(forms, show), [COMMA]), COMMA), def, parse) == Some(Meanings(forms, def))
  {
    AllRoundTrip(forms, def, show, parse);
    TokensOfJoin(ShowAll(forms, show), COMMA);
  }

  /** A parser of whole decimal numbers. */
  function ReadWhole(s: string): Option<int> {
    var (v, end) := Strtol(s);
    if s != "" && end == |s| then Some(v) else None
  }

  /** The decimal printer and parser are such a pair. */
  lemma DecimalIsInverse()
    ensures Inverse(n => Decimal(n), s => ReadWhole(s))
  {
    hide Decimal, Strtol;
    forall n | IsInt32(n)
      ensures ReadWhole(Decimal(n)) == Some(n) && Decimal(n) != "" && COMMA !in Decimal(n) && COLON !in Decimal(n)
    {
      StrtolOfDecimal(n);
      DecimalChars(n);
    }
  }

  /** So lists of ranges printed in decimal are read back. */
  lemma DecimalRangesRoundTrip(forms: seq<Form>, def: Range)
    requires forall i :: 0 <= i < |forms| ==> AllInts(forms[i])
    ensures ParseAll(Tokens(Join(ShowAll(forms, n => Decimal(n)), [COMMA]), COMMA), def, s => ReadWhole(s))
         == Some(Meanings(forms, def))
  {
    var show, parse := n => Decimal(n), s => ReadWhole(s);
    DecimalIsInverse();
    RangesRoundTrip(forms, def, show, parse);
  }
}
