/** Lists of fields in a string: joining with a separator, and strtok's way of taking them apart. */
module Text {

  import opened Basics

  /** Where the field that begins at i ends: at the separator or at the end of the text. */
  function FieldEnd(s: string, i: nat, sep: char): (cc: nat)
    requires i <= |s|
    ensures i <= cc <= |s| && (cc < |s| ==> s[cc] == sep)
    ensures forall j :: i <= j < cc ==> s[j] != sep
    decreases |s| - i
  {
    if i == |s| || s[i] == sep then i else FieldEnd(s, i + 1, sep)
  }

  lemma FieldEndAt(prefix: string, field: string, rest: string, sep: char)
    requires sep !in field && (rest == "" || rest[0] == sep)
    ensures FieldEnd(prefix + field + rest, |prefix|, sep) == |prefix| + |field|
  {
    var s, cc := prefix + field + rest, FieldEnd(prefix + field + rest, |prefix|, sep);
    assert forall j :: |prefix| <= j < |prefix| + |field| ==> s[j] == field[j - |prefix|];
    assert rest != "" ==> s[|prefix| + |field|] == rest[0];
  }

  function Join(tokens: seq<string>, sep: string): string {
    if tokens == [] then ""
    else if |tokens| == 1 then tokens[0]
    else tokens[0] + sep + Join(tokens[1..], sep)
  }

  lemma {:induction false} JoinAppend(tokens: seq<string>, last: string, sep: string)
    ensures Join(tokens + [last], sep) == if tokens == [] then last else Join(tokens, sep) + sep + last
  {
    if |tokens| > 1 {
      JoinAppend(tokens[1..], last, sep);
      assert (tokens + [last])[1..] == tokens[1..] + [last];
      assert Join(tokens + [last], sep) == tokens[0] + sep + (Join(tokens[1..], sep) + sep + last);
    } else if |tokens| == 1 {
      assert (tokens + [last])[1..] == [last];
    }
  }

  lemma JoinNone(sep: string)
    ensures Join([], sep) == ""
  {
  }

  // strtok

  /** The tokens strtok yields: the maximal runs of other characters; empty fields are dropped. */
  function Tokens(s: string, sep: char): seq<string>
    decreases |s|
  {
    if s == "" then []
    else if s[0] == sep then Tokens(s[1..], sep)
    else
      var cc := FieldEnd(s, 0, sep);
      [s[..cc]] + Tokens(s[cc..], sep)
  }

  predicate IsToken(t: string, sep: char) {
    t != "" && sep !in t
  }

  predicate AllTokens(tokens: seq<string>, sep: char) {
    forall i :: 0 <= i < |tokens| ==> IsToken(tokens[i], sep)
  }

  lemma {:induction false} TokensAreTokens(s: string, sep: char)
    ensures AllTokens(Tokens(s, sep), sep)
    decreases |s|
  {
    if s != "" {
      if s[0] == sep {
        TokensAreTokens(s[1..], sep);
      } else {
        TokensAreTokens(s[FieldEnd(s, 0, sep)..], sep);
      }
    }
  }

  lemma FirstToken(field: string, rest: string, sep: char)
    requires IsToken(field, sep) && (rest == "" || rest[0] == sep)
    ensures Tokens(field + rest, sep) == [field] + Tokens(rest, sep)
  {
    FieldEndAt("", field, rest, sep);
    assert "" + field + rest == field + rest;
    assert (field + rest)[..|field|] == field && (field + rest)[|field|..] == rest;
  }

  /** strtok takes a joined list of tokens apart again. */
  lemma {:induction false} TokensOfJoin(tokens: seq<string>, sep: char)
    requires AllTokens(tokens, sep)
    ensures Tokens(Join(tokens, [sep]), sep) == tokens
  {
    if tokens != [] {
      TokensOfJoin(tokens[1..], sep);
      var rest := if |tokens| == 1 then "" else [sep] + Join(tokens[1..], [sep]);
      assert Join(tokens, [sep]) == tokens[0] + rest;
      FirstToken(tokens[0], rest, sep);
      if |tokens| > 1 {
        assert rest[1..] == Join(tokens[1..], [sep]);
      }
      hide Join;
    }
  }

  /** The fields of a string, empty ones included: they are what was joined. */
  function Fields(s: string, sep: char): (fields: seq<string>)
    ensures fields != []
    decreases |s|
  {
    var cc := FieldEnd(s, 0, sep);
    if cc == |s| then [s] else [s[..cc]] + Fields(s[cc + 1..], sep)
  }

  lemma {:induction false} FieldsJoin(s: string, sep: char)
    ensures Join(Fields(s, sep), [sep]) == s
    ensures forall i :: 0 <= i < |Fields(s, sep)| ==> sep !in Fields(s, sep)[i]
    decreases |s|
  {
    var cc := FieldEnd(s, 0, sep);
    if cc < |s| {
      FieldsJoin(s[cc + 1..], sep);
      assert s == s[..cc] + [sep] + s[cc + 1..];
    }
  }

  function NonEmpty(fields: seq<string>): seq<string> {
    if fields == [] then []
    else (if fields[0] == "" then [] else [fields[0]]) + NonEmpty(fields[1..])
  }

  /** strtok finds exactly the fields that are not empty. */
  lemma {:induction false} TokensAreFields(s: string, sep: char)
    ensures Tokens(s, sep) == NonEmpty(Fields(s, sep))
    decreases |s|
  {
    var cc := FieldEnd(s, 0, sep);
    if cc == |s| {
      assert s[..cc] == s && s[cc..] == "";
    } else {
      TokensAreFields(s[cc + 1..], sep);
      assert s[cc..][0] == sep && s[cc..][1..] == s[cc + 1..];
      assert Fields(s, sep)[1..] == Fields(s[cc + 1..], sep);
      AfterSeparator(s[cc..], sep);
      assert cc == 0 ==> s[cc..] == s;
    }
  }

  lemma AfterSeparator(s: string, sep: char)
    requires s != "" && s[0] == sep
    ensures Tokens(s, sep) == Tokens(s[1..], sep)
  {
  }

  function Occurrences(s: string, c: char): nat {
    if s == "" then 0 else (if s[0] == c then 1 else 0) + Occurrences(s[1..], c)
  }

  lemma {:induction false} OccurrencesSuffix(s: string, i: nat, c: char)
    requires i <= |s|
    ensures Occurrences(s[i..], c) <= Occurrences(s, c)
    decreases i
  {
    if i > 0 {
      OccurrencesSuffix(s[1..], i - 1, c);
      assert s[1..][i - 1..] == s[i..];
    } else {
      assert s[0..] == s;
    }
  }

  /** There is at most one token more than there are separators. */
  lemma {:induction false} TokenCount(s: string, sep: char)
    ensures |Tokens(s, sep)| <= Occurrences(s, sep) + 1
    ensures s != "" && s[0] == sep ==> |Tokens(s, sep)| <= Occurrences(s, sep)
    decreases |s|
  {
    if s != "" {
      if s[0] == sep {
        TokenCount(s[1..], sep);
      } else {
        var cc := FieldEnd(s, 0, sep);
        TokenCount(s[cc..], sep);
        OccurrencesSuffix(s, cc, sep);
        if s[cc..] == "" {
          assert Tokens(s[cc..], sep) == [];
        }
      }
    }
  }

  /** strtok from position at of the copied string. */
  method StrTok(tmpstr: string, at: nat, sep: char) returns (tok: Option<string>, next: nat)
    requires at <= |tmpstr|
    ensures next <= |tmpstr|
    ensures Tokens(tmpstr[at..], sep) == if tok.None? then [] else [tok.value] + Tokens(tmpstr[next..], sep)
    ensures tok.Some? ==> at < next
  {
    var start := at;
    while start < |tmpstr| && tmpstr[start] == sep
      invariant at <= start <= |tmpstr| && Tokens(tmpstr[at..], sep) == Tokens(tmpstr[start..], sep)
    {
      assert tmpstr[start..][1..] == tmpstr[start + 1..];
      start := start + 1;
    }
    if start == |tmpstr| {
      return None, start;
    }
    ghost var rest := tmpstr[start..];
    next := start;
    while next < |tmpstr| && tmpstr[next] != sep
      invariant start <= next <= |tmpstr|
      invariant FieldEnd(rest, 0, sep) == FieldEnd(rest, next - start, sep)
    {
      next := next + 1;
    }
    assert rest[..next - start] == tmpstr[start..next] && rest[next - start..] == tmpstr[next..];
    tok := Some(tmpstr[start..next]);
  }

  // Decimal numbers

  function Digit(d: nat): char
    requires d < 10
  {
    '0' + (d as char)
  }

  function DigitValue(c: char): Option<nat> {
    if '0' <= c <= '9' then Some((c - '0') as nat) else None
  }

  /** %d for a non-negative number. */
  function Digits(n: nat): (s: string)
    ensures s != ""
  {
    if n < 10 then [Digit(n)] else Digits(n / 10) + [Digit(n % 10)]
  }

  function Decimal(i: int): (s: string)
    ensures s != ""
  {
    if i < 0 then "-" + Digits(-i) else Digits(i)
  }

  /** The value of the digits from i on, and where they end. */
  function ReadDigits(s: string, i: nat, value: nat): (nat, nat)
    requires i <= |s|
    decreases |s| - i
  {
    if i < |s| && DigitValue(s[i]).Some? then ReadDigits(s, i + 1, 10 * value + DigitValue(s[i]).value) else (value, i)
  }

  predicate IsDigits(s: string) {
    forall i :: 0 <= i < |s| ==> DigitValue(s[i]).Some?
  }

  lemma DigitRoundTrip(d: nat)
    requires d < 10
    ensures DigitValue(Digit(d)) == Some(d)
  {
  }

  lemma {:induction false} ReadAppend(s: string, d: nat, i: nat, value: nat)
    requires i <= |s| && d < 10
    requires ReadDigits(s, i, value).1 == |s|
    ensures ReadDigits(s + [Digit(d)], i, value) == (10 * ReadDigits(s, i, value).0 + d, |s| + 1)
    decreases |s| - i
  {
    var t := s + [Digit(d)];
    DigitRoundTrip(d);
    if i < |s| {
      assert t[i] == s[i];
      ReadAppend(s, d, i + 1, 10 * value + DigitValue(s[i]).value);
    } else {
      assert t[i] == Digit(d);
      assert ReadDigits(t, i + 1, 10 * value + d) == (10 * value + d, i + 1);
    }
  }

  lemma {:induction false} ReadPrinted(n: nat)
    ensures ReadDigits(Digits(n), 0, 0) == (n, |Digits(n)|)
  {
    if n < 10 {
      DigitRoundTrip(n);
    } else {
      ReadPrinted(n / 10);
      ReadAppend(Digits(n / 10), n % 10, 0, 0);
    }
  }

  lemma DigitNotComma(d: nat)
    requires d < 10
    ensures Digit(d) != ',' && Digit(d) != '-' && !IsSpace(Digit(d))
  {
  }

  lemma {:induction false} DigitsClean(n: nat)
    ensures IsDigits(Digits(n)) && IsToken(Digits(n), ',') && Digits(n)[0] != '-' && !IsSpace(Digits(n)[0])
  {
    DigitRoundTrip(n % 10);
    DigitNotComma(n % 10);
    if n >= 10 {
      DigitsClean(n / 10);
    }
  }

  /** %d prints digits and perhaps a minus sign. */
  lemma DecimalChars(v: int)
    ensures forall i :: 0 <= i < |Decimal(v)| ==> Decimal(v)[i] == '-' || '0' <= Decimal(v)[i] <= '9'
  {
    var digits := Digits(if v < 0 then -v else v);
    DigitsClean(if v < 0 then -v else v);
    assert forall i :: 0 <= i < |digits| ==> DigitValue(digits[i]).Some?;
    hide Digits;
  }

  predicate IsSpace(c: char) {
    c == ' ' || c == '\t' || c == '\n' || c == '\r' || c as int == 11 || c as int == 12
  }

  const LONG_MAX := 0x7FFF_FFFF

  function Clamp(v: int): int {
    if v > LONG_MAX then LONG_MAX else if v < -LONG_MAX - 1 then -LONG_MAX - 1 else v
  }

  function SkipSpaces(s: string, i: nat): (j: nat)
    requires i <= |s|
    ensures i <= j <= |s|
    decreases |s| - i
  {
    if i < |s| && IsSpace(s[i]) then SkipSpaces(s, i + 1) else i
  }

  /** strtol(s, &end, 10) with a 32-bit long: the value and end - s. */
  function Strtol(s: string): (int, nat) {
    var i := SkipSpaces(s, 0);
    var negative := i < |s| && s[i] == '-';
    var j := if i < |s| && (s[i] == '-' || s[i] == '+') then i + 1 else i;
    var (value, end) := ReadDigits(s, j, 0);
    if end == j then (0, 0) else (Clamp(if negative then -(value as int) else value as int), end)
  }

  lemma {:induction false} ReadShifted(prefix: string, s: string, i: nat, value: nat)
    requires i <= |s|
    ensures ReadDigits(prefix + s, |prefix| + i, value) == (ReadDigits(s, i, value).0, |prefix| + ReadDigits(s, i, value).1)
    decreases |s| - i
  {
    if i < |s| {
      assert (prefix + s)[|prefix| + i] == s[i];
      if DigitValue(s[i]).Some? {
        ReadShifted(prefix, s, i + 1, 10 * value + DigitValue(s[i]).value);
      }
    }
  }

  /** strtol reads back every 32-bit number that %d prints, to the end of the text. */
  lemma StrtolOfDecimal(v: int)
    requires -LONG_MAX - 1 <= v <= LONG_MAX
    ensures Strtol(Decimal(v)) == (v, |Decimal(v)|) && IsToken(Decimal(v), ',')
  {
    var n := if v < 0 then -v else v;
    ReadPrinted(n);
    DigitsClean(n);
    hide Digits, ReadDigits;
    if v < 0 {
      ReadShifted("-", Digits(n), 0, 0);
      assert Decimal(v)[0] == '-';
    } else {
      assert Digits(n)[0] != '+' by { assert DigitValue(Digits(n)[0]).Some?; }
    }
  }

  /** No digit begins this text. */
  predicate NoDigit(rest: string) {
    rest != "" ==> !('0' <= rest[0] <= '9')
  }

  predicate IsSign(sign: string) {
    sign == "" || sign == "-" || sign == "+"
  }

  /** What strtol makes of spaces, a sign, zeros and a number: their value, cut to 32 bits, whatever is
      behind the number. */
  lemma StrtolOfNumber(spaces: string, sign: string, zeros: string, n: nat, rest: string)
    requires (forall i :: 0 <= i < |spaces| ==> IsSpace(spaces[i])) && IsSign(sign)
    requires (forall i :: 0 <= i < |zeros| ==> zeros[i] == '0') && NoDigit(rest)
    ensures var v := if sign == "-" then -(n as int) else n as int;
            Strtol(spaces + sign + (zeros + Digits(n) + rest))
            == (if v > 2147483647 then 2147483647 else if v < -2147483648 then -2147483648 else v,
                |spaces| + |sign| + |zeros + Digits(n)|)
  {
    var before, digits := spaces + sign, zeros + Digits(n) + rest;
    FirstDigit(zeros, n, rest);
    ReadPadded(zeros, n, rest);
    SignBegins(spaces, sign, digits);
    hide Digits, ReadDigits, SkipSpaces, Strtol, IsSign;
    ReadShifted(before, digits, 0, 0);
    StrtolAt(before + digits, |spaces|, |before|, n, |before| + |zeros + Digits(n)|);
  }

  lemma FirstDigit(zeros: string, n: nat, rest: string)
    requires forall i :: 0 <= i < |zeros| ==> zeros[i] == '0'
    ensures var digits := zeros + Digits(n) + rest; digits != "" && '0' <= digits[0] <= '9'
  {
    DigitsClean(n);
    assert DigitValue(Digits(n)[0]).Some?;
    hide Digits;
  }

  /** Behind the spaces comes the sign, if there is one, and then what follows. */
  lemma SignBegins(spaces: string, sign: string, digits: string)
    requires (forall i :: 0 <= i < |spaces| ==> IsSpace(spaces[i])) && IsSign(sign)
    requires digits != "" && '0' <= digits[0] <= '9'
    ensures var s, at := spaces + sign + digits, |spaces|;
            && SkipSpaces(s, 0) == at && at < |s|
            && |sign| == (if s[at] == '-' || s[at] == '+' then 1 else 0) && (s[at] == '-' <==> sign == "-")
  {
    var s := spaces + sign + digits;
    assert s == spaces + (sign + digits);
    assert (sign + digits)[0] == if sign == "" then digits[0] else sign[0];
    SpacesSkipped(spaces, sign + digits, 0);
    hide SkipSpaces;
  }

  lemma ReadPadded(zeros: string, n: nat, rest: string)
    requires (forall i :: 0 <= i < |zeros| ==> zeros[i] == '0') && NoDigit(rest)
    ensures ReadDigits(zeros + Digits(n) + rest, 0, 0) == (n, |zeros + Digits(n)|)
  {
    hide Digits, ReadDigits;
    ReadZeros(zeros, Digits(n) + rest, 0);
    assert zeros + (Digits(n) + rest) == zeros + Digits(n) + rest;
    ReadNumber(n, rest);
    ReadShifted(zeros, Digits(n) + rest, 0, 0);
  }

  /** strtol once it is known where the spaces, the sign and the digits end. */
  lemma StrtolAt(s: string, at: nat, j: nat, value: nat, end: nat)
    requires at == SkipSpaces(s, 0) && at < |s| && j == at + (if s[at] == '-' || s[at] == '+' then 1 else 0)
    requires j <= |s| && ReadDigits(s, j, 0) == (value, end) && end > j
    ensures var v := if s[at] == '-' then -(value as int) else value as int;
            Strtol(s) == (if v > 2147483647 then 2147483647 else if v < -2147483648 then -2147483648 else v, end)
  {
    hide SkipSpaces, ReadDigits;
  }

  /** Without a digit behind spaces and sign nothing is read. */
  lemma StrtolOfNothing(spaces: string, sign: string, rest: string)
    requires (forall i :: 0 <= i < |spaces| ==> IsSpace(spaces[i])) && IsSign(sign) && NoDigit(rest)
    requires sign == "" ==> rest != "" ==> !IsSpace(rest[0]) && rest[0] != '-' && rest[0] != '+'
    ensures Strtol(spaces + sign + rest) == (0, 0)
  {
    var s := spaces + sign + rest;
    SpacesSkipped(spaces, sign + rest, 0);
    assert spaces + (sign + rest) == s;
    hide SkipSpaces;
  }

  lemma {:induction false} SpacesSkipped(spaces: string, rest: string, i: nat)
    requires i <= |spaces| && (forall k :: 0 <= k < |spaces| ==> IsSpace(spaces[k]))
    requires rest != "" ==> !IsSpace(rest[0])
    ensures SkipSpaces(spaces + rest, i) == |spaces|
    decreases |spaces| - i
  {
    if i < |spaces| {
      SpacesSkipped(spaces, rest, i + 1);
    }
  }

  lemma {:induction false} ReadZeros(zeros: string, rest: string, i: nat)
    requires i <= |zeros| && forall k :: 0 <= k < |zeros| ==> zeros[k] == '0'
    ensures ReadDigits(zeros + rest, i, 0) == ReadDigits(zeros + rest, |zeros|, 0)
    decreases |zeros| - i
  {
    if i < |zeros| {
      assert (zeros + rest)[i] == '0' && DigitValue('0') == Some(0);
      ReadZeros(zeros, rest, i + 1);
    }
  }

  lemma ReadNumber(n: nat, rest: string)
    requires NoDigit(rest)
    ensures ReadDigits(Digits(n) + rest, 0, 0) == (n, |Digits(n)|)
  {
    ReadPrinted(n);
    ReadBefore(Digits(n), rest, 0, 0);
  }

  lemma {:induction false} ReadBefore(s: string, rest: string, i: nat, value: nat)
    requires i <= |s| && NoDigit(rest)
    ensures ReadDigits(s, i, value).1 == |s| ==> ReadDigits(s + rest, i, value) == ReadDigits(s, i, value)
    decreases |s| - i
  {
    if i < |s| {
      assert (s + rest)[i] == s[i];
      if DigitValue(s[i]).Some? {
        ReadBefore(s, rest, i + 1, 10 * value + DigitValue(s[i]).value);
      }
    }
  }
}
