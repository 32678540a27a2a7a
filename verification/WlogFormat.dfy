/** The on-disk form of one write-history record: a 28-byte header of bit-fields followed by
    three strings (ltp_framework/include/write_log.h, wlog_rec_pack and wlog_rec_unpack).

    The header is the seven little-endian words the ARM ABI gives struct wlog_rec_disk: a
    bit-field that would cross a word starts the next one, so w_hostlen opens word 5 and
    w_extra2 fills word 6. */
module WlogFormat {

  import opened Basics

  const TWO_17 := 0x2_0000
  const TWO_24 := 0x100_0000
  const TWO_30 := 0x4000_0000

  const HEADER_SIZE := 28
  const HOST_BUFFER := 9
  const PATH_BUFFER := 129
  const PATTERN_BUFFER := 65

  /** struct wlog_rec: the caller's view, with its three fixed-size string buffers. */
  datatype Rec = Rec(
    pid: int, offset: int, nbytes: int, oflags: int, done: int, async: int,
    host: seq<byte>, hostlen: int,
    path: seq<byte>, pathlen: int,
    pattern: seq<byte>, patternlen: int)

  /** The values of the bit-fields of struct wlog_rec_disk, as unsigned numbers. */
  datatype Header = Header(
    offset: nat, nbytes: nat, oflags: nat, pid: nat,
    pathlen: nat, patternlen: nat, hostlen: nat, done: nat, async: nat)
  {
    function Strings(): nat {
      pathlen + hostlen + patternlen
    }
  }

  /** The record is a C struct of this shape, and packing it reads no host byte past its buffer. */
  predicate Packable(r: Rec) {
    && |r.host| == HOST_BUFFER && |r.path| == PATH_BUFFER && |r.pattern| == PATTERN_BUFFER
    && IsInt32(r.pid) && IsInt32(r.offset) && IsInt32(r.nbytes) && IsInt32(r.oflags)
    && IsInt32(r.done) && IsInt32(r.async)
    && IsInt32(r.hostlen) && IsInt32(r.pathlen) && IsInt32(r.patternlen)
    && Clip(r.hostlen, 16) <= HOST_BUFFER
  }

  /** A length as its bit-field keeps it: negative becomes 0, the rest loses its high bits. */
  function Clip(len: int, width: nat): nat
    requires width > 0
  {
    if len > 0 then len % width else 0
  }

  function DiskHeader(r: Rec): Header {
    Header(r.offset % TWO_32, r.nbytes % TWO_32, r.oflags % TWO_32, r.pid % TWO_17,
           Clip(r.pathlen, 128), Clip(r.patternlen, 64), Clip(r.hostlen, 16),
           r.done % 2, r.async % 2)
  }

  // Words and bytes

  function Store(w: nat): (b: seq<byte>)
    requires w < TWO_32
    ensures |b| == 4 && Load(b) == w
  {
    var low, high := w % 0x1_0000, w / 0x1_0000;
    [low % 256, low / 256, high % 256, high / 256]
  }

  function Load(b: seq<byte>): (w: nat)
    requires |b| == 4
    ensures w < TWO_32
  {
    b[0] + b[1] * 256 + b[2] * 0x1_0000 + b[3] * TWO_24
  }

  /** Bit-field stores leave the other bits of their word, and the extra words, as the buffer had them. */
  function HeaderBytes(h: Header, junk: seq<byte>): (b: seq<byte>)
    requires HeaderInRange(h) && |junk| == HEADER_SIZE
    ensures |b| == HEADER_SIZE
  {
    Store(h.offset) + junk[4..8] + Store(h.nbytes) + Store(h.oflags)
    + Word4(h, junk[16..20]) + Word5(h, junk[20..24]) + junk[24..28]
  }

  function Word4(h: Header, junk: seq<byte>): (b: seq<byte>)
    requires HeaderInRange(h) && |junk| == 4
    ensures |b| == 4
  {
    Store(h.pid + h.pathlen * TWO_17 + h.patternlen * TWO_24 + Load(junk) / TWO_30 * TWO_30)
  }

  function Word5(h: Header, junk: seq<byte>): (b: seq<byte>)
    requires HeaderInRange(h) && |junk| == 4
    ensures |b| == 4
  {
    Store(h.hostlen + h.done * 16 + h.async * 32 + Load(junk) / 64 * 64)
  }

  predicate HeaderInRange(h: Header) {
    && h.offset < TWO_32 && h.nbytes < TWO_32 && h.oflags < TWO_32 && h.pid < TWO_17
    && h.pathlen < 128 && h.patternlen < 64 && h.hostlen < 16 && h.done < 2 && h.async < 2
  }

  function HeaderOf(b: seq<byte>): (h: Header)
    requires |b| >= HEADER_SIZE
    ensures HeaderInRange(h)
  {
    var word4 := Load(b[16..20]);
    var word5 := Load(b[20..24]);
    Header(Load(b[0..4]), Load(b[8..12]), Load(b[12..16]), word4 % TWO_17,
           word4 / TWO_17 % 128, word4 / TWO_24 % 64, word5 % 16, word5 / 16 % 2, word5 / 32 % 2)
  }

  lemma PackedWord4(pid: nat, pathlen: nat, patternlen: nat, top: nat)
    requires pid < TWO_17 && pathlen < 128 && patternlen < 64 && top < 4
    ensures var w := pid + pathlen * TWO_17 + patternlen * TWO_24 + top * TWO_30;
            w % TWO_17 == pid && w / TWO_17 % 128 == pathlen && w / TWO_24 % 64 == patternlen
  {
    var w := pid + pathlen * TWO_17 + patternlen * TWO_24 + top * TWO_30;
    assert w / TWO_17 == pathlen + patternlen * 128 + top * 8192;
    assert w / TWO_24 == patternlen + top * 64;
  }

  lemma PackedWord5(hostlen: nat, done: nat, async: nat, top: nat)
    requires hostlen < 16 && done < 2 && async < 2
    ensures var w := hostlen + done * 16 + async * 32 + top * 64;
            w % 16 == hostlen && w / 16 % 2 == done && w / 32 % 2 == async
  {
    var w := hostlen + done * 16 + async * 32 + top * 64;
    assert w / 16 == done + async * 2 + top * 4;
    assert w / 32 == async + top * 2;
    assert w % 16 == hostlen;
  }

  /** Reading the header back gives the stored fields, whatever the unused bits hold. */
  lemma HeaderRoundTrip(h: Header, junk: seq<byte>, rest: seq<byte>)
    requires HeaderInRange(h) && |junk| == HEADER_SIZE
    ensures HeaderOf(HeaderBytes(h, junk) + rest) == h
  {
    var top4, top5 := Load(junk[16..20]) / TWO_30, Load(junk[20..24]) / 64;
    PackedWord4(h.pid, h.pathlen, h.patternlen, top4);
    PackedWord5(h.hostlen, h.done, h.async, top5);
    var b := HeaderBytes(h, junk) + rest;
    assert b[0..4] == Store(h.offset);
    assert b[8..12] == Store(h.nbytes);
    assert b[12..16] == Store(h.oflags);
    assert b[16..20] == Word4(h, junk[16..20]);
    assert b[20..24] == Word5(h, junk[20..24]);
  }

  // Whole records

  /** The string area that follows the header: path, host, pattern, none null-terminated. */
  function StringBytes(r: Rec): (s: seq<byte>)
    requires Packable(r)
    ensures |s| == DiskHeader(r).Strings()
  {
    var h := DiskHeader(r);
    r.path[..h.pathlen] + r.host[..h.hostlen] + r.pattern[..h.patternlen]
  }

  function Packed(r: Rec, junk: seq<byte>): (b: seq<byte>)
    requires Packable(r) && |junk| == HEADER_SIZE
    ensures |b| == HEADER_SIZE + DiskHeader(r).Strings()
  {
    HeaderBytes(DiskHeader(r), junk) + StringBytes(r)
  }

  /** The body holds a header and the strings it announces, and each fits the caller's buffer. */
  predicate Decodable(body: seq<byte>) {
    && |body| >= HEADER_SIZE
    && HEADER_SIZE + HeaderOf(body).Strings() <= |body|
    && HeaderOf(body).hostlen <= HOST_BUFFER
  }

  function Padded(s: seq<byte>, size: nat): (b: seq<byte>)
    requires |s| <= size
    ensures |b| == size
  {
    s + seq(size - |s|, _ => 0)
  }

  function Unpacked(body: seq<byte>): (r: Rec)
    requires Decodable(body)
  {
    var h := HeaderOf(body);
    var host := HEADER_SIZE + h.pathlen;
    var pattern := host + h.hostlen;
    Rebuilt(h, body[HEADER_SIZE..host], body[host..pattern], body[pattern..pattern + h.patternlen])
  }

  function Rebuilt(h: Header, path: seq<byte>, host: seq<byte>, pattern: seq<byte>): Rec
    requires |path| <= PATH_BUFFER && |host| <= HOST_BUFFER && |pattern| <= PATTERN_BUFFER
  {
    Rec(h.pid, ToInt32(h.offset), ToInt32(h.nbytes), ToInt32(h.oflags), h.done, h.async,
        Padded(host, HOST_BUFFER), h.hostlen, Padded(path, PATH_BUFFER), h.pathlen,
        Padded(pattern, PATTERN_BUFFER), h.patternlen)
  }

  /** What a packed record keeps of the caller's: every field cut to its width, every string to its
      stored length and padded with zeros. */
  function Kept(r: Rec): Rec
    requires Packable(r)
  {
    var h := DiskHeader(r);
    Rec(h.pid, r.offset, r.nbytes, r.oflags, h.done, h.async,
        Padded(r.host[..h.hostlen], HOST_BUFFER), h.hostlen,
        Padded(r.path[..h.pathlen], PATH_BUFFER), h.pathlen,
        Padded(r.pattern[..h.patternlen], PATTERN_BUFFER), h.patternlen)
  }

  /** Every field fits its bit-field and every buffer is zero past its string. The path field has
      7 bits and the pattern field 6, so the declared maxima 128 and 64 do not fit. */
  predicate Fits(r: Rec) {
    && 0 <= r.pid < TWO_17 && 0 <= r.done < 2 && 0 <= r.async < 2
    && 0 <= r.hostlen <= HOST_BUFFER && 0 <= r.pathlen < 128 && 0 <= r.patternlen < 64
    && (forall i :: r.hostlen <= i < |r.host| ==> r.host[i] == 0)
    && (forall i :: r.pathlen <= i < |r.path| ==> r.path[i] == 0)
    && (forall i :: r.patternlen <= i < |r.pattern| ==> r.pattern[i] == 0)
  }

  lemma TwosComplement(x: int)
    requires IsInt32(x)
    ensures ToInt32(x % TWO_32) == x
  {
  }

  lemma Slices(a: seq<byte>, b: seq<byte>, c: seq<byte>, d: seq<byte>)
    ensures var s := a + (b + c + d);
            var i, j, k := |a|, |a| + |b|, |a| + |b| + |c|;
            s[i..j] == b && s[j..k] == c && s[k..k + |d|] == d
  {
  }

  lemma UnpackPacked(r: Rec, junk: seq<byte>)
    requires Packable(r) && |junk| == HEADER_SIZE
    ensures Decodable(Packed(r, junk)) && Unpacked(Packed(r, junk)) == Kept(r)
  {
    hide HeaderOf, HeaderBytes, Padded, ToInt32, HeaderInRange;
    var h := DiskHeader(r);
    HeaderRoundTrip(h, junk, StringBytes(r));
    Slices(HeaderBytes(h, junk), r.path[..h.pathlen], r.host[..h.hostlen], r.pattern[..h.patternlen]);
    TwosComplement(r.offset);
    TwosComplement(r.nbytes);
    TwosComplement(r.oflags);
  }

  lemma PaddedIsSame(b: seq<byte>, len: nat)
    requires len <= |b|
    ensures Padded(b[..len], |b|) == b <==> forall i :: len <= i < |b| ==> b[i] == 0
  {
    var p := Padded(b[..len], |b|);
    assert forall i :: 0 <= i < |b| ==> p[i] == if i < len then b[i] else 0;
    if forall i :: len <= i < |b| ==> b[i] == 0 {
      assert p == b;
    }
  }

  lemma KeptIsSame(r: Rec)
    requires Packable(r)
    ensures Kept(r) == r <==> Fits(r)
  {
    hide Padded;
    var h := DiskHeader(r);
    PaddedIsSame(r.host, h.hostlen);
    PaddedIsSame(r.path, h.pathlen);
    PaddedIsSame(r.pattern, h.patternlen);
  }

  /** wlog_rec_unpack undoes wlog_rec_pack exactly on the records whose fields fit. */
  lemma RoundTrip(r: Rec, junk: seq<byte>)
    requires Packable(r) && |junk| == HEADER_SIZE
    ensures Decodable(Packed(r, junk))
    ensures Unpacked(Packed(r, junk)) == r <==> Fits(r)
  {
    hide *;
    UnpackPacked(r, junk);
    KeptIsSame(r);
  }

  // Where everything is

  /** Four bytes of b from at on, the first the least significant. */
  function LittleEndian(b: seq<byte>, at: nat): nat
    requires at + 4 <= |b|
  {
    b[at] as nat + 256 * b[at + 1] as nat + 65536 * b[at + 2] as nat + 16777216 * b[at + 3] as nat
  }

  lemma LoadIs(b: seq<byte>, at: nat)
    requires at + 4 <= |b|
    ensures LittleEndian(b, at) == Load(b[at..at + 4])
  {
  }

  /** What the length fields of 7, 6 and 4 bits keep for path, pattern and host. */
  function Kept7(len: int): nat { if len > 0 then len % 128 else 0 }
  function Kept6(len: int): nat { if len > 0 then len % 64 else 0 }
  function Kept4(len: int): nat { if len > 0 then len % 16 else 0 }

  /** Byte for byte, what a packed record is: offset, size and flags in words 0, 2 and 3; pid and the
      lengths of path and pattern in word 4; the length of the host and the two flags in word 5; the bits
      and words between them as the buffer had them; then path, host and pattern. */
  lemma PackedLayout(r: Rec, junk: seq<byte>)
    requires Packable(r) && |junk| == 28
    ensures var b, path, host, pattern := Packed(r, junk), Kept7(r.pathlen), Kept4(r.hostlen), Kept6(r.patternlen);
            && |b| == 28 + path + host + pattern
            && LittleEndian(b, 0) == r.offset % 0x1_0000_0000
            && b[4..8] == junk[4..8]
            && LittleEndian(b, 8) == r.nbytes % 0x1_0000_0000
            && LittleEndian(b, 12) == r.oflags % 0x1_0000_0000
            && LittleEndian(b, 16) == r.pid % 131072 + 131072 * path + 16777216 * pattern
                                      + LittleEndian(junk, 16) / 1073741824 * 1073741824
            && LittleEndian(b, 20) == host + 16 * (r.done % 2) + 32 * (r.async % 2) + LittleEndian(junk, 20) / 64 * 64
            && b[24..28] == junk[24..28]
            && b[28..28 + path] == r.path[..path]
            && b[28 + path..28 + path + host] == r.host[..host]
            && b[28 + path + host..] == r.pattern[..pattern]
  {
    var h, b := DiskHeader(r), Packed(r, junk);
    HeaderLayout(h, junk, StringBytes(r));
    Slices(HeaderBytes(h, junk), r.path[..h.pathlen], r.host[..h.hostlen], r.pattern[..h.patternlen]);
    hide HeaderBytes, Store, Load, LittleEndian;
  }

  lemma HeaderLayout(h: Header, junk: seq<byte>, rest: seq<byte>)
    requires HeaderInRange(h) && |junk| == 28
    ensures var b := HeaderBytes(h, junk) + rest;
            && LittleEndian(b, 0) == h.offset && b[4..8] == junk[4..8]
            && LittleEndian(b, 8) == h.nbytes && LittleEndian(b, 12) == h.oflags
            && LittleEndian(b, 16) == h.pid + 131072 * h.pathlen + 16777216 * h.patternlen
                                      + LittleEndian(junk, 16) / 1073741824 * 1073741824
            && LittleEndian(b, 20) == h.hostlen + 16 * h.done + 32 * h.async + LittleEndian(junk, 20) / 64 * 64
            && b[24..28] == junk[24..28]
  {
    var b := HeaderBytes(h, junk) + rest;
    LoadIs(junk, 16);
    LoadIs(junk, 20);
    LoadIs(b, 0);
    LoadIs(b, 8);
    LoadIs(b, 12);
    LoadIs(b, 16);
    LoadIs(b, 20);
    hide Load, Store, LittleEndian;
    assert b[0..4] == Store(h.offset);
    assert b[4..8] == junk[4..8];
    assert b[8..12] == Store(h.nbytes);
    assert b[12..16] == Store(h.oflags);
    assert b[16..20] == Word4(h, junk[16..20]);
    assert b[20..24] == Word5(h, junk[20..24]);
    assert b[24..28] == junk[24..28];
  }

  // The packing and unpacking code, on a byte buffer

  method CopyInto(buf: array<byte>, at: nat, bytes: seq<byte>)
    requires at + |bytes| <= buf.Length
    modifies buf
    ensures forall i :: 0 <= i < buf.Length ==>
      buf[i] == if at <= i < at + |bytes| then bytes[i - at] else old(buf[i])
  {
    for n := 0 to |bytes|
      invariant forall i :: 0 <= i < buf.Length ==>
        buf[i] == if at <= i < at + n then bytes[i - at] else old(buf[i])
    {
      buf[at + n] := bytes[n];
    }
  }

  method StoreWord(buf: array<byte>, at: nat, word: seq<byte>)
    requires |word| == 4 && at + 4 <= buf.Length
    modifies buf
    ensures buf[..at] == old(buf[..at]) && buf[at..at + 4] == word && buf[at + 4..] == old(buf[at + 4..])
  {
    CopyInto(buf, at, word);
  }

  lemma Reassemble(s: seq<byte>, at: nat, word: seq<byte>, t: seq<byte>)
    requires |word| == 4 && |s| == |t| && at + 4 <= |s|
    requires t[..at] == s[..at] && t[at..at + 4] == word && t[at + 4..] == s[at + 4..]
    ensures t == s[..at] + word + s[at + 4..]
  {
    assert t == t[..at] + t[at..at + 4] + t[at + 4..];
  }

  /** The bit-field stores of wlog_rec_pack, word by word, leave the header bytes. */
  lemma HeaderWords(h: Header, s: seq<byte>, s0: seq<byte>, s2: seq<byte>, s3: seq<byte>, s4: seq<byte>, s5: seq<byte>)
    requires HeaderInRange(h) && |s| >= HEADER_SIZE
    requires s0 == Store(h.offset) + s[4..]
    requires s2 == s0[..8] + Store(h.nbytes) + s0[12..]
    requires s3 == s2[..12] + Store(h.oflags) + s2[16..]
    requires s4 == s3[..16] + Word4(h, s[16..20]) + s3[20..]
    requires s5 == s4[..20] + Word5(h, s[20..24]) + s4[24..]
    ensures s5 == HeaderBytes(h, s[..HEADER_SIZE]) + s[HEADER_SIZE..]
  {
    hide Store, Word4, Word5;
    var junk := s[..HEADER_SIZE];
    assert junk[4..8] == s[4..8] && junk[16..20] == s[16..20] && junk[20..24] == s[20..24] && junk[24..28] == s[24..28];
    assert s2 == Store(h.offset) + s[4..8] + Store(h.nbytes) + s[12..];
    assert s3 == Store(h.offset) + s[4..8] + Store(h.nbytes) + Store(h.oflags) + s[16..];
    assert s[24..] == s[24..28] + s[28..];
  }

  method StoreHeader(h: Header, buf: array<byte>)
    requires HeaderInRange(h) && HEADER_SIZE <= buf.Length
    modifies buf
    ensures buf[..] == HeaderBytes(h, old(buf[..HEADER_SIZE])) + old(buf[HEADER_SIZE..])
  {
    var word4, word5 := Word4(h, buf[16..20]), Word5(h, buf[20..24]);
    hide *;
    ghost var s := buf[..];
    StoreWord(buf, 0, Store(h.offset));
    ghost var s0 := buf[..];
    Reassemble(s, 0, Store(h.offset), s0);
    StoreWord(buf, 8, Store(h.nbytes));
    ghost var s2 := buf[..];
    Reassemble(s0, 8, Store(h.nbytes), s2);
    StoreWord(buf, 12, Store(h.oflags));
    ghost var s3 := buf[..];
    Reassemble(s2, 12, Store(h.oflags), s3);
    StoreWord(buf, 16, word4);
    ghost var s4 := buf[..];
    Reassemble(s3, 16, word4, s4);
    StoreWord(buf, 20, word5);
    Reassemble(s4, 20, word5, buf[..]);
    HeaderWords(h, s, s0, s2, s3, s4, buf[..]);
  }

  method StoreStrings(path: seq<byte>, host: seq<byte>, pattern: seq<byte>, buf: array<byte>) returns (reclen: nat)
    requires HEADER_SIZE + |path| + |host| + |pattern| <= buf.Length
    modifies buf
    ensures reclen == HEADER_SIZE + |path| + |host| + |pattern|
    ensures buf[..reclen] == old(buf[..HEADER_SIZE]) + (path + host + pattern)
    ensures buf[reclen..] == old(buf[reclen..])
  {
    CopyInto(buf, HEADER_SIZE, path);
    CopyInto(buf, HEADER_SIZE + |path|, host);
    CopyInto(buf, HEADER_SIZE + |path| + |host|, pattern);
    reclen := HEADER_SIZE + |path| + |host| + |pattern|;
  }

  /** wlog_rec_pack: fills the header bit-fields and, for an append, the strings behind them. The
      rest of the buffer, and the bits no field covers, keep what the buffer held. */
  method RecPack(r: Rec, buf: array<byte>, flag: bool) returns (reclen: nat)
    requires Packable(r) && HEADER_SIZE + DiskHeader(r).Strings() <= buf.Length
    modifies buf
    ensures reclen == HEADER_SIZE + if flag then DiskHeader(r).Strings() else 0
    ensures buf[..reclen] == if flag then Packed(r, old(buf[..HEADER_SIZE]))
                             else HeaderBytes(DiskHeader(r), old(buf[..HEADER_SIZE]))
    ensures buf[reclen..] == old(buf[reclen..])
  {
    hide HeaderBytes;
    var h := DiskHeader(r);
    StoreHeader(h, buf);
    reclen := HEADER_SIZE;
    if flag {
      ghost var behind := buf[HEADER_SIZE..];
      reclen := StoreStrings(r.path[..h.pathlen], r.host[..h.hostlen], r.pattern[..h.patternlen], buf);
      assert buf[reclen..] == behind[reclen - HEADER_SIZE..];
    }
  }
}
