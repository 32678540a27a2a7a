/** Data that tells who wrote it where: each 8-byte word holds the pid, its own file offset and the pid
    again (the CRAY branch of ltp_framework/lib/datapid.c). */
module DataPid {
  import opened Basics
  import opened Arithmetic

  const NBPW := 8

  /** The bytes of the word at file offset woff, most significant first. */
  function WordByte(pid: int, woff: int, k: nat): byte
    requires k < NBPW
  {
    if k == 0 || k == 6 then pid % 0x1_0000 / 256
    else if k == 1 || k == 7 then pid % 256
    else if k == 2 then woff % 0x1_0000_0000 / 0x100_0000
    else if k == 3 then woff % 0x100_0000 / 0x1_0000
    else if k == 4 then woff % 0x1_0000 / 256
    else woff % 256
  }

  /** The reference: the byte at an absolute file offset. */
  function ByteAt(pid: int, at: nat): byte {
    WordByte(pid, at - at % NBPW, at % NBPW)
  }

  predicate Matches(s: seq<byte>, pid: int, offset: nat) {
    forall i :: 0 <= i < |s| ==> s[i] == ByteAt(pid, offset + i)
  }

  // The three phases both routines share

  function HeadLength(bsize: nat, offset: nat): (n: nat)
    ensures n <= bsize
  {
    var rest := NBPW - offset % NBPW;
    if offset % NBPW == 0 then 0 else if rest < bsize then rest else bsize
  }

  /** After the head the file offset is at a word, unless the buffer ended inside the head. */
  lemma AfterHead(bsize: nat, offset: nat)
    ensures var head := HeadLength(bsize, offset); head < bsize ==> (offset + head) % NBPW == 0
  {
  }

  lemma InWord(woff: int, k: nat)
    requires woff % NBPW == 0 && k < NBPW
    ensures (woff + k) % NBPW == k
  {
  }

  /** Bytes from .. from + count of the word at woff, which lie in the buffer from boff on. */
  predicate WordRun(bsize: nat, offset: nat, boff: nat, woff: int, from: nat, count: nat) {
    woff >= 0 && woff % NBPW == 0 && from + count <= NBPW && woff + from == offset + boff && boff + count <= bsize
  }

  lemma RunByte(bsize: nat, offset: nat, boff: nat, woff: int, from: nat, count: nat, pid: int, k: nat)
    requires WordRun(bsize, offset, boff, woff, from, count) && k < count
    ensures ByteAt(pid, offset + boff + k) == WordByte(pid, woff, from + k)
  {
    hide WordByte;
    InWord(woff, from + k);
  }

  /** A loop over the bytes of one word, storing them. */
  method PutBytes(pid: int, buffer: array<byte>, offset: nat, boff: nat, woff: int, from: nat, count: nat)
    requires WordRun(buffer.Length, offset, boff, woff, from, count) && Matches(buffer[..boff], pid, offset)
    modifies buffer
    ensures Matches(buffer[..boff + count], pid, offset)
  {
    hide WordByte, ByteAt;
    for k := 0 to count
      invariant Matches(buffer[..boff + k], pid, offset)
    {
      RunByte(buffer.Length, offset, boff, woff, from, count, pid, k);
      buffer[boff + k] := WordByte(pid, woff, from + k);
      assert buffer[..boff + k + 1] == buffer[..boff + k] + [buffer[boff + k]];
    }
  }

  /** datapidgen: the rest of a word begun before the buffer, the full words, the start of a last word. */
  method DataPidGen(pid: int, buffer: array<byte>, offset: nat)
    modifies buffer
    ensures Matches(buffer[..], pid, offset)
  {
    hide Matches;
    var bsize := buffer.Length;
    var boff: nat := 0;
    assert Matches(buffer[..0], pid, offset) by { NothingMatches(pid, offset); }
    var cnt := offset % NBPW;
    if cnt != 0 {
      var count := if NBPW - cnt < bsize then NBPW - cnt else bsize;
      PutBytes(pid, buffer, offset, boff, offset - cnt, cnt, count);
      boff := count;
    }
    AfterHead(bsize, offset);
    var numFullWords := (bsize - boff) / NBPW;
    var woff := offset + boff;
    ghost var start := boff;
    for n := 0 to numFullWords
      invariant boff == start + NBPW * n <= bsize && woff == offset + boff
      invariant start < bsize ==> woff % NBPW == 0
      invariant Matches(buffer[..boff], pid, offset)
    {
      PutBytes(pid, buffer, offset, boff, woff, 0, NBPW);
      boff := boff + NBPW;
      woff := woff + NBPW;
    }
    cnt := (bsize - boff) % NBPW;
    if cnt != 0 {
      PutBytes(pid, buffer, offset, boff, woff, 0, cnt);
      boff := boff + cnt;
    }
    assert buffer[..boff] == buffer[..];
  }

  lemma NothingMatches(pid: int, offset: nat)
    ensures Matches([], pid, offset)
  {
  }

  /** What datapidchk returns for a first mismatch at index m: in the full words the offset of the word,
      elsewhere that of the byte. */
  function Reported(bsize: nat, offset: nat, m: nat): int
    requires m < bsize
  {
    var head := HeadLength(bsize, offset);
    var words := (bsize - head) / NBPW;
    if head <= m < head + NBPW * words then offset + m - (m - head) % NBPW else offset + m
  }

  predicate FirstMismatch(s: seq<byte>, pid: int, offset: nat, m: nat) {
    m < |s| && s[m] != ByteAt(pid, offset + m) && Matches(s[..m], pid, offset)
  }

  /** A loop over the bytes of one word, comparing them; k is where it stops. */
  method CheckBytes(pid: int, buffer: array<byte>, offset: nat, boff: nat, woff: int, from: nat, count: nat) returns (k: nat)
    requires WordRun(buffer.Length, offset, boff, woff, from, count) && Matches(buffer[..boff], pid, offset)
    ensures k <= count
    ensures if k == count then Matches(buffer[..boff + count], pid, offset)
            else FirstMismatch(buffer[..], pid, offset, boff + k) && !Matches(buffer[..], pid, offset)
  {
    hide WordByte, ByteAt;
    k := 0;
    while k < count
      invariant k <= count && Matches(buffer[..boff + k], pid, offset)
    {
      RunByte(buffer.Length, offset, boff, woff, from, count, pid, k);
      assert buffer[..][..boff + k] == buffer[..boff + k];
      if buffer[boff + k] != WordByte(pid, woff, from + k) {
        return;
      }
      assert buffer[..boff + k + 1] == buffer[..boff + k] + [buffer[boff + k]];
      k := k + 1;
    }
  }

  /** The full words from start on: the offset of the first wrong one, or -1. */
  method CheckWords(pid: int, buffer: array<byte>, offset: nat, start: nat, words: nat) returns (r: int, ghost m: nat)
    requires start + NBPW * words <= buffer.Length && Matches(buffer[..start], pid, offset)
    requires words > 0 ==> (offset + start) % NBPW == 0
    ensures if r == -1 then Matches(buffer[..start + NBPW * words], pid, offset)
            else FirstMismatch(buffer[..], pid, offset, m) && !Matches(buffer[..], pid, offset)
    ensures r != -1 ==> start <= m < start + NBPW * words && r == offset + m - (m - start) % NBPW
  {
    hide Matches, FirstMismatch;
    var boff: nat, woff := start, offset + start;
    for n := 0 to words
      invariant boff == start + NBPW * n && woff == offset + boff
      invariant n < words ==> woff % NBPW == 0
      invariant Matches(buffer[..boff], pid, offset)
    {
      var k := CheckBytes(pid, buffer, offset, boff, woff, 0, NBPW);
      if k < NBPW {
        m := boff + k;
        InFullWords(n, k);
        return woff, m;
      }
      boff, woff := boff + NBPW, woff + NBPW;
    }
    return -1, 0;
  }

  /** A check of the buffer up to n that passed, or that found the first wrong byte m of it. */
  ghost predicate Checked(r: int, m: nat, s: seq<byte>, pid: int, offset: nat, n: nat) {
    && n <= |s|
    && if r == -1 then Matches(s[..n], pid, offset)
       else !Matches(s, pid, offset) && FirstMismatch(s, pid, offset, m) && r == Reported(|s|, offset, m)
  }

  method CheckHead(pid: int, buffer: array<byte>, offset: nat) returns (r: int, ghost m: nat)
    ensures Checked(r, m, buffer[..], pid, offset, HeadLength(buffer.Length, offset))
  {
    assert Matches(buffer[..0], pid, offset);
    var bsize, cnt := buffer.Length, offset % NBPW;
    r, m := -1, 0;
    if cnt != 0 {
      var count := if NBPW - cnt < bsize then NBPW - cnt else bsize;
      var k := CheckBytes(pid, buffer, offset, 0, offset - cnt, cnt, count);
      hide Matches;
      assert buffer[..][..count] == buffer[..count];
      if k < count {
        r, m := offset + k, k;
        ReportedByte(bsize, offset, m);
      }
    }
  }

  method CheckTail(pid: int, buffer: array<byte>, offset: nat, boff: nat) returns (r: int, ghost m: nat)
    requires var head := HeadLength(buffer.Length, offset); boff == head + NBPW * ((buffer.Length - head) / NBPW)
    requires boff <= buffer.Length && Matches(buffer[..boff], pid, offset) && (boff < buffer.Length ==> (offset + boff) % NBPW == 0)
    ensures Checked(r, m, buffer[..], pid, offset, buffer.Length)
  {
    hide Matches, Reported;
    var bsize := buffer.Length;
    FullWords(bsize - HeadLength(bsize, offset));
    r, m := -1, 0;
    assert buffer[..][..bsize] == buffer[..bsize];
    var cnt := (bsize - boff) % NBPW;
    if cnt != 0 {
      var k := CheckBytes(pid, buffer, offset, boff, offset + boff, 0, cnt);
      if k < cnt {
        r, m := offset + boff + k, boff + k;
        ReportedByte(bsize, offset, m);
      }
    }
  }

  /** datapidchk: -1 exactly when every byte is the expected one; otherwise it points at the first
      byte that is not, in the full words only at its word. */
  method DataPidChk(pid: int, buffer: array<byte>, offset: nat) returns (r: int, ghost m: nat)
    ensures r == -1 <==> Matches(buffer[..], pid, offset)
    ensures r != -1 ==> FirstMismatch(buffer[..], pid, offset, m) && r == Reported(buffer.Length, offset, m)
    ensures r != -1 ==> Located(r, buffer.Length, offset, m)
  {
    var bsize := buffer.Length;
    var boff := HeadLength(bsize, offset);
    AfterHead(bsize, offset);
    r, m := CheckHead(pid, buffer, offset);
    hide Matches, FirstMismatch, Reported, HeadLength, Located;
    if r == -1 {
      assert buffer[..][..boff] == buffer[..boff];
      var numFullWords := (bsize - boff) / NBPW;
      FullWords(bsize - boff);
      r, m := CheckWords(pid, buffer, offset, boff, numFullWords);
      if r != -1 {
        ReportedWord(bsize, offset, m);
      } else {
        WordsAligned(offset, boff, numFullWords);
        r, m := CheckTail(pid, buffer, offset, boff + NBPW * numFullWords);
        assert buffer[..][..bsize] == buffer[..];
      }
    }
    if r != -1 {
      InBuffer(buffer[..], pid, offset, m);
      ReportedIsLocated(bsize, offset, m);
    }
  }

  lemma InBuffer(s: seq<byte>, pid: int, offset: nat, m: nat)
    requires FirstMismatch(s, pid, offset, m)
    ensures m < |s|
  {
  }

  lemma WordsAligned(offset: nat, boff: nat, words: nat)
    ensures (offset + boff + NBPW * words) % NBPW == (offset + boff) % NBPW
  {
    ModAddMultiple(offset + boff, words, NBPW);
  }

  lemma FullWords(n: nat)
    ensures var rest := n - NBPW * (n / NBPW); 0 <= rest < NBPW && rest % NBPW == rest
  {
  }

  lemma ReportedByte(bsize: nat, offset: nat, m: nat)
    requires m < bsize
    requires var head := HeadLength(bsize, offset); m < head || m >= head + NBPW * ((bsize - head) / NBPW)
    ensures Reported(bsize, offset, m) == offset + m
  {
  }

  lemma ReportedWord(bsize: nat, offset: nat, m: nat)
    requires m < bsize
    requires var head := HeadLength(bsize, offset); head <= m < head + NBPW * ((bsize - head) / NBPW)
    ensures Reported(bsize, offset, m) == offset + m - (m - HeadLength(bsize, offset)) % NBPW
  {
  }

  lemma InFullWords(n: nat, tmp: nat)
    requires tmp < NBPW
    ensures (NBPW * n + tmp) % NBPW == tmp
  {
  }

  /** Any part of a generated buffer can be checked on its own at its own offset. */
  lemma PartMatches(s: seq<byte>, pid: int, offset: nat, k: nat)
    requires k <= |s|
    ensures Matches(s, pid, offset) <==> Matches(s[..k], pid, offset) && Matches(s[k..], pid, offset + k)
  {
    hide ByteAt;
    var head, tail := s[..k], s[k..];
    if Matches(s, pid, offset) {
      forall i | 0 <= i < |tail| ensures tail[i] == ByteAt(pid, offset + k + i) {
        assert tail[i] == s[k + i] && offset + (k + i) == offset + k + i;
      }
    }
    if Matches(head, pid, offset) && Matches(tail, pid, offset + k) {
      forall i | 0 <= i < |s| ensures s[i] == ByteAt(pid, offset + i) {
        if i < k { assert s[i] == head[i]; } else { assert s[i] == tail[i - k] && offset + i == offset + k + (i - k); }
      }
    }
  }

  /** Six bytes tell two writers apart exactly when their pids differ in the low 16 bits. */
  lemma PidsToldApart(s: seq<byte>, pid: int, other: int, offset: nat)
    requires |s| >= 6 && Matches(s, pid, offset)
    ensures Matches(s, other, offset) <==> pid % 0x1_0000 == other % 0x1_0000
  {
    var p, q := pid % 0x1_0000, other % 0x1_0000;
    if p == q {
      SamePid(pid, other);
      forall i | 0 <= i < |s| ensures s[i] == ByteAt(other, offset + i) {
        SameBytes(pid, other, offset + i);
      }
    } else {
      var i, j := PidBytes(offset);
      SamePid(pid, other);
      assert s[i] == ByteAt(pid, offset + i) && s[j] == ByteAt(pid, offset + j);
      assert ByteAt(pid, offset + i) != ByteAt(other, offset + i) || ByteAt(pid, offset + j) != ByteAt(other, offset + j);
    }
  }

  lemma SamePid(pid: int, other: int)
    ensures pid % 0x1_0000 == other % 0x1_0000
            <==> pid % 0x1_0000 / 256 == other % 0x1_0000 / 256 && pid % 256 == other % 256
  {
    LowByte(pid);
    LowByte(other);
  }

  lemma LowByte(x: int)
    ensures x % 0x1_0000 == x % 0x1_0000 / 256 * 256 + x % 256
  {
    var q, r := x / 0x1_0000, x % 0x1_0000;
    Remainder(x, 256, 256 * q + r / 256, r % 256);
  }

  lemma SameBytes(pid: int, other: int, at: nat)
    requires pid % 0x1_0000 == other % 0x1_0000
    ensures ByteAt(pid, at) == ByteAt(other, at)
  {
    SamePid(pid, other);
  }

  /** Among six adjacent bytes there is a high and a low pid byte. */
  lemma PidBytes(offset: nat) returns (i: nat, j: nat)
    ensures i < 6 && j < 6
    ensures (offset + i) % NBPW == 0 || (offset + i) % NBPW == 6
    ensures (offset + j) % NBPW == 1 || (offset + j) % NBPW == 7
  {
    var k := offset % NBPW;
    i := if k == 0 then 0 else if k <= 6 then 6 - k else 1;
    j := if k <= 1 then 1 - k else 7 - k;
    if k == 1 { i, j := 5, 0; }
  }

  /** A word reads as the low 16 bits of the pid, the low 32 bits of its offset and the pid's again, the
      most significant byte first. */
  lemma WordBytes(pid: int, woff: int)
    ensures var b := seq(8, k requires 0 <= k < 8 => WordByte(pid, woff, k));
            && 256 * b[0] as int + b[1] as int == pid % 65536
            && 16777216 * b[2] as int + 65536 * b[3] as int + 256 * b[4] as int + b[5] as int == woff % 4294967296
            && 256 * b[6] as int + b[7] as int == pid % 65536
  {
    LowByte(pid);
    OffsetBytes(woff);
  }

  lemma OffsetBytes(w: int)
    ensures 16777216 * (w % 0x1_0000_0000 / 0x100_0000) + 65536 * (w % 0x100_0000 / 0x1_0000) + 256 * (w % 0x1_0000 / 256) + w % 256
         == w % 4294967296
  {
    LowByte(w);
    ThirdByte(w);
    FourthByte(w);
  }

  lemma ThirdByte(x: int)
    ensures x % 0x100_0000 == x % 0x100_0000 / 0x1_0000 * 0x1_0000 + x % 0x1_0000
  {
    var q, r := x / 0x100_0000, x % 0x100_0000;
    Remainder(x, 0x1_0000, 256 * q + r / 0x1_0000, r % 0x1_0000);
  }

  lemma FourthByte(x: int)
    ensures x % 0x1_0000_0000 == x % 0x1_0000_0000 / 0x100_0000 * 0x100_0000 + x % 0x100_0000
  {
    var q, r := x / 0x1_0000_0000, x % 0x1_0000_0000;
    Remainder(x, 0x100_0000, 256 * q + r / 0x100_0000, r % 0x100_0000);
  }

  /** The place of a mismatch: its word if all of it is in the buffer, and else its byte. */
  predicate Located(r: int, bsize: nat, offset: nat, m: nat) {
    var word := offset + m - (offset + m) % 8;
    r == if offset <= word && word + 8 <= offset + bsize then word else offset + m
  }

  lemma ReportedIsLocated(bsize: nat, offset: nat, m: nat)
    requires m < bsize
    ensures Located(Reported(bsize, offset, m), bsize, offset, m)
  {
  }
}
