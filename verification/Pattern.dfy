/** Filling and checking a buffer with a rotated, repeated pattern by doubling the part already done
    (ltp_framework/lib/pattern.c). */
module Pattern {
  import opened Basics
  import opened Arithmetic

  /** The reference: byte i of a buffer of repeated copies of pat, rotated left by shift. */
  function PatternByte(pat: seq<byte>, shift: nat, i: nat): byte
    requires pat != []
  {
    pat[(i + shift) % |pat|]
  }

  function Repeated(pat: seq<byte>, shift: nat, n: nat): (s: seq<byte>)
    requires pat != []
    ensures |s| == n
  {
    seq(n, i requires 0 <= i < n => PatternByte(pat, shift, i))
  }

  /** Without a shift a buffer of the pattern's length is the pattern. */
  lemma UnshiftedIsPattern(pat: seq<byte>)
    requires pat != []
    ensures Repeated(pat, 0, |pat|) == pat
  {
    forall i | 0 <= i < |pat| ensures PatternByte(pat, 0, i) == pat[i] {
      Remainder(i, |pat|, 0, i);
    }
  }

  lemma ConcatPrefix(a: seq<byte>, b: seq<byte>, n: nat)
    requires n <= |a| + |b|
    ensures (a + b)[..n] == if n <= |a| then a[..n] else a + b[..n - |a|]
  {
  }

  /** The first |pat| bytes: the tail of the pattern, then its beginning. */
  lemma RepeatedHead(pat: seq<byte>, shift: nat, n: nat)
    requires pat != [] && n <= |pat|
    ensures var s := shift % |pat|; Repeated(pat, shift, n) == (pat[s..] + pat[..s])[..n]
  {
    var p, s := |pat|, shift % |pat|;
    var rotated := pat[s..] + pat[..s];
    forall i | 0 <= i < n ensures PatternByte(pat, shift, i) == rotated[i] {
      assert shift == s + shift / p * p;
      ModAddMultiple(i + s, shift / p, p);
      assert i + shift == i + s + shift / p * p;
      if i < p - s {
        Remainder(i + s, p, 0, i + s);
      } else {
        Remainder(i + s, p, 1, i + s - p);
      }
    }
  }

  /** After whole copies of the pattern the buffer repeats itself from the start. */
  lemma RepeatedDoubles(pat: seq<byte>, shift: nat, n: nat, t: nat)
    requires pat != [] && Whole(n, |pat|) && t <= n
    ensures Repeated(pat, shift, n + t) == Repeated(pat, shift, n) + Repeated(pat, shift, n)[..t]
    ensures Whole(n + n, |pat|)
  {
    var p := |pat|;
    DivMod(n, p);
    forall i | 0 <= i < t ensures PatternByte(pat, shift, n + i) == PatternByte(pat, shift, i) {
      ModAddMultiple(i + shift, n / p, p);
    }
    ModAddMultiple(n, n / p, p);
  }

  /** n bytes are whole copies of a pattern of p bytes. */
  predicate Whole(n: nat, p: nat)
    requires p > 0
  {
    n % p == 0
  }

  /** How often the copied prefix has to be doubled until wanted bytes are there. */
  function Turns(copied: nat, wanted: nat): nat
    decreases wanted - copied
  {
    if copied >= wanted || copied == 0 then 0
    else 1 + Turns(copied + if copied < wanted - copied then copied else wanted - copied, wanted)
  }

  /** That is the least number of doublings that reach wanted: ceil(log2(wanted / copied)). */
  lemma {:induction false} TurnsIsLog(copied: nat, wanted: nat)
    requires copied > 0
    ensures var k := Turns(copied, wanted);
            wanted <= Pow2(k) * copied && (k > 0 ==> Pow2(k - 1) * copied < wanted)
    decreases wanted - copied
  {
    PowOne(copied);
    hide Pow2;
    if 2 * copied < wanted {
      var k := Turns(2 * copied, wanted);
      TurnsIsLog(2 * copied, wanted);
      Doubled(k - 1, copied);
      Doubled(k, copied);
    } else if copied < wanted {
      assert Turns(wanted, wanted) == 0;
    }
  }

  lemma Doubled(k: int, c: nat)
    ensures k >= 0 ==> Pow2(k) * (2 * c) == Pow2(k + 1) * c
  {
  }

  lemma PowOne(c: nat)
    ensures Pow2(0) * c == c && Pow2(1) * c == 2 * c
  {
    assert Pow2(0) == 1;
    assert Pow2(1) == 2;
  }

  lemma RepeatedPrefix(pat: seq<byte>, shift: nat, n: nat, k: nat)
    requires pat != [] && k <= n
    ensures Repeated(pat, shift, n)[..k] == Repeated(pat, shift, k)
  {
  }

  // The code

  /** memcpy of bytes into buf. */
  method MemCopy(buf: array<byte>, at: nat, bytes: seq<byte>)
    requires at + |bytes| <= buf.Length
    modifies buf
    ensures buf[..at + |bytes|] == old(buf[..at]) + bytes
  {
    for n := 0 to |bytes|
      invariant buf[..at + n] == old(buf[..at]) + bytes[..n]
    {
      buf[at + n] := bytes[n];
      assert buf[..at + n + 1] == buf[..at + n] + [bytes[n]];
    }
  }

  /** The two copies that open pattern_fill: the first |pat| bytes, or all of a shorter buffer. */
  method FillHead(buf: array<byte>, pat: seq<byte>, shift: nat) returns (cp: nat)
    requires shift < |pat|
    modifies buf
    ensures cp == if buf.Length < |pat| then buf.Length else |pat|
    ensures buf[..cp] == (pat[shift..] + pat[..shift])[..cp]
  {
    var nleft := buf.Length;
    cp := if nleft < |pat| then nleft else |pat|;
    ConcatPrefix(pat[shift..], pat[..shift], cp);
    var trans := |pat| - shift;
    if nleft < trans {
      MemCopy(buf, 0, pat[shift..shift + nleft]);
      return;
    }
    MemCopy(buf, 0, pat[shift..shift + trans]);
    assert pat[shift..shift + trans] == pat[shift..];
    nleft := nleft - trans;
    if shift > 0 {
      MemCopy(buf, trans, pat[..if nleft < shift then nleft else shift]);
    }
    assert buf[..cp] == pat[shift..] + pat[..cp - trans];
  }

  /** pattern_fill; turns counts the doubling loop. */
  method PatternFill(buf: array<byte>, pat: seq<byte>, patshift: nat) returns (ghost turns: nat)
    requires pat != []
    modifies buf
    ensures buf[..] == Repeated(pat, patshift, buf.Length)
    ensures turns == Turns(|pat|, buf.Length)
  {
    var buflen, patlen := buf.Length, |pat|;
    var ncopied := FillHead(buf, pat, patshift % patlen);
    RepeatedHead(pat, patshift, ncopied);
    hide Repeated, Whole;
    turns := 0;
    assert Whole(patlen, patlen) by { WholeOne(patlen); }
    while ncopied < buflen
      invariant ncopied <= buflen && turns + Turns(ncopied, buflen) == Turns(patlen, buflen)
      invariant ncopied < buflen ==> ncopied > 0 && Whole(ncopied, patlen)
      invariant buf[..ncopied] == Repeated(pat, patshift, ncopied)
    {
      var nleft := buflen - ncopied;
      var trans := if ncopied < nleft then ncopied else nleft;
      assert buf[..trans] == buf[..ncopied][..trans];
      RepeatedDoubles(pat, patshift, ncopied, trans);
      MemCopy(buf, ncopied, buf[..trans]);
      ncopied := ncopied + trans;
      turns := turns + 1;
    }
    assert buf[..ncopied] == buf[..];
  }

  lemma WholeOne(p: nat)
    requires p > 0
    ensures Whole(p, p)
  {
  }

  /** The two comparisons that open pattern_check, over the first |pat| bytes or a shorter buffer. */
  method CheckHead(buf: array<byte>, pat: seq<byte>, shift: nat) returns (same: bool, cp: nat)
    requires shift < |pat|
    ensures cp == if buf.Length < |pat| then buf.Length else |pat|
    ensures same <==> buf[..cp] == (pat[shift..] + pat[..shift])[..cp]
  {
    var nleft := buf.Length;
    cp := if nleft < |pat| then nleft else |pat|;
    ConcatPrefix(pat[shift..], pat[..shift], cp);
    var nb := |pat| - shift;
    if nleft < nb {
      return buf[..nleft] == pat[shift..shift + nleft], cp;
    }
    assert buf[..cp] == buf[..nb] + buf[nb..cp];
    same := buf[..nb] == pat[shift..shift + nb] && (shift == 0 || buf[nb..cp] == pat[..cp - nb]);
    SameConcat(buf[..nb], buf[nb..cp], pat[shift..shift + nb], pat[..cp - nb]);
  }

  lemma SameConcat(a: seq<byte>, b: seq<byte>, c: seq<byte>, d: seq<byte>)
    requires |a| == |c| && |b| == |d|
    ensures a + b == c + d <==> a == c && b == d
  {
    if a + b == c + d {
      assert a == (a + b)[..|a|] && c == (c + d)[..|a|];
      assert b == (a + b)[|a|..] && d == (c + d)[|a|..];
    }
  }

  /** pattern_check: 0 exactly when every byte is the expected one, though past the first |pat| bytes
      the buffer is only compared with itself. */
  method PatternCheck(buf: array<byte>, pat: seq<byte>, patshift: nat) returns (r: int)
    requires pat != []
    ensures r == if buf[..] == Repeated(pat, patshift, buf.Length) then 0 else -1
  {
    var buflen, patlen := buf.Length, |pat|;
    ghost var s := buf[..];
    var same, ncmp := CheckHead(buf, pat, patshift % patlen);
    RepeatedHead(pat, patshift, ncmp);
    hide Repeated, Whole;
    assert buf[..ncmp] == s[..ncmp];
    if !same {
      WrongPart(s, pat, patshift, ncmp);
      return -1;
    }
    assert Whole(patlen, patlen) by { WholeOne(patlen); }
    while ncmp < buflen
      invariant ncmp <= buflen && (ncmp < buflen ==> Whole(ncmp, patlen))
      invariant s[..ncmp] == Repeated(pat, patshift, ncmp)
    {
      var nleft := buflen - ncmp;
      var nb := if ncmp < nleft then ncmp else nleft;
      CompareTurn(s, pat, patshift, ncmp, nb);
      assert buf[..nb] == s[..nb] && buf[ncmp..ncmp + nb] == s[ncmp..ncmp + nb];
      if buf[..nb] != buf[ncmp..ncmp + nb] {
        return -1;
      }
      ncmp := ncmp + nb;
    }
    assert s[..ncmp] == s;
    return 0;
  }

  /** When the first n bytes are right, t more of them are right exactly if they equal the beginning. */
  lemma CompareTurn(s: seq<byte>, pat: seq<byte>, shift: nat, n: nat, t: nat)
    requires pat != [] && Whole(n, |pat|) && t <= n && n + t <= |s| && s[..n] == Repeated(pat, shift, n)
    ensures s[..t] == s[n..n + t] <==> s[..n + t] == Repeated(pat, shift, n + t)
    ensures s[..t] != s[n..n + t] ==> s != Repeated(pat, shift, |s|)
    ensures Whole(n + n, |pat|)
  {
    RepeatedDoubles(pat, shift, n, t);
    hide Repeated, Whole;
    assert s[..n + t] == s[..n] + s[n..n + t] && s[..n][..t] == s[..t];
    SameConcat(s[..n], s[n..n + t], s[..n], s[..t]);
    if s[..n + t] != Repeated(pat, shift, n + t) {
      WrongPart(s, pat, shift, n + t);
    }
  }

  /** A wrong prefix is a wrong buffer. */
  lemma WrongPart(s: seq<byte>, pat: seq<byte>, shift: nat, k: nat)
    requires pat != [] && k <= |s| && s[..k] != Repeated(pat, shift, k)
    ensures s != Repeated(pat, shift, |s|)
  {
    RepeatedPrefix(pat, shift, |s|, k);
  }

  /** The repeated pattern from byte k on is the one shifted by k more. */
  lemma RepeatedLater(pat: seq<byte>, shift: nat, n: nat, k: nat)
    requires pat != [] && k <= n
    ensures Repeated(pat, shift, n)[k..] == Repeated(pat, shift + k, n - k)
  {
    var whole, later := Repeated(pat, shift, n), Repeated(pat, shift + k, n - k);
    forall i | 0 <= i < n - k ensures whole[k + i] == later[i] {
      assert i + (shift + k) == (k + i) + shift;
    }
    hide Repeated;
  }

  /** A buffer is right for shift s exactly when its first k bytes are right for s and the rest is
      right for s + k: so any part of a filled buffer can be checked on its own. */
  lemma SubBuffer(s: seq<byte>, pat: seq<byte>, shift: nat, k: nat)
    requires pat != [] && k <= |s|
    ensures s == Repeated(pat, shift, |s|)
            <==> s[..k] == Repeated(pat, shift, k) && s[k..] == Repeated(pat, shift + k, |s| - k)
  {
    var whole := Repeated(pat, shift, |s|);
    RepeatedPrefix(pat, shift, |s|, k);
    RepeatedLater(pat, shift, |s|, k);
    hide Repeated;
    assert s == s[..k] + s[k..] && whole == whole[..k] + whole[k..];
    SameConcat(s[..k], s[k..], whole[..k], whole[k..]);
  }

  /** Only the shift modulo the pattern length matters. */
  lemma ShiftIsModular(pat: seq<byte>, shift: nat, n: nat)
    requires pat != []
    ensures Repeated(pat, shift, n) == Repeated(pat, shift % |pat|, n)
  {
    var p, s := |pat|, shift % |pat|;
    forall i | 0 <= i < n ensures PatternByte(pat, shift, i) == PatternByte(pat, s, i) {
      ModAddMultiple(i + s, shift / p, p);
      assert i + shift == (i + s) + shift / p * p;
    }
  }
}
