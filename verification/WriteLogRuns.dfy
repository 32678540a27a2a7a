/** Whole runs of the write-history log: the file after any appends and overlays still is the
    abstract sequence of records, and scanning it gives that sequence back, newest first. */
module WriteLogRuns {
  import opened Basics
  import opened WlogFormat
  import opened WriteLog
  import opened WriteLogTheory

  /** A call of wlog_record_write: an append, or an overlay at the offset returned by the target-th
      append. junk is what the stack buffer happened to hold. */
  datatype Op = Append(r: Rec, junk: seq<byte>) | Overlay(target: nat, r: Rec, junk: seq<byte>)

  /** The file and the offsets returned so far. */
  datatype History = History(file: seq<byte>, starts: seq<nat>)

  /** The abstract effect of an overlay: the later header fields with the original strings. */
  function Overlaid(first: Rec, r: Rec): Rec
    requires Packable(r)
  {
    Kept(r).(host := first.host, path := first.path, pattern := first.pattern)
  }

  predicate SameLengths(first: Rec, r: Rec)
    requires Packable(r)
  {
    first.hostlen == Kept(r).hostlen && first.pathlen == Kept(r).pathlen && first.patternlen == Kept(r).patternlen
  }

  /** What the caller owes: a packable record, and an overlay only of a record that exists, with the
      same string lengths. */
  predicate LegalOp(recs: seq<Rec>, op: Op) {
    && Packable(op.r) && |op.junk| == HEADER_SIZE
    && (op.Overlay? ==> op.target < |recs| && SameLengths(recs[op.target], op.r))
  }

  function RecordsAfter(recs: seq<Rec>, op: Op): seq<Rec> {
    if !LegalOp(recs, op) then recs
    else
      match op
      case Append(r, _) => recs + [Kept(r)]
      case Overlay(i, r, _) => recs[i := Overlaid(recs[i], r)]
  }

  /** The abstract log: a sequence of records. */
  function Records(ops: seq<Op>): seq<Rec> {
    if ops == [] then []
    else
      RecordsAfter(Records(ops[..|ops| - 1]), ops[|ops| - 1])
  }

  predicate Legal(ops: seq<Op>) {
    ops != [] ==> Legal(ops[..|ops| - 1]) && LegalOp(Records(ops[..|ops| - 1]), ops[|ops| - 1])
  }

  function PlayOp(h: History, op: Op): History
    requires Packable(op.r) && |op.junk| == HEADER_SIZE
  {
    match op
    case Append(r, junk) =>
      var (file, at) := Written(h.file, r, -1, junk);
      History(file, h.starts + [at])
    case Overlay(i, r, junk) =>
      if i < |h.starts| then h.(file := Written(h.file, r, h.starts[i], junk).0) else h
  }

  /** The concrete log: the bytes written and the offsets returned. */
  function Play(ops: seq<Op>): History
    requires Legal(ops)
  {
    if ops == [] then History([], []) else PlayOp(Play(ops[..|ops| - 1]), ops[|ops| - 1])
  }

  ghost predicate Represents(images: seq<seq<byte>>, h: History, recs: seq<Rec>) {
    && Images(images) && |images| == |h.starts| == |recs| && h.file == Flatten(images)
    && (forall i :: 0 <= i < |images| ==> Decoded(images[i]) == recs[i])
    && (forall i :: 0 <= i < |images| ==> h.starts[i] == |Flatten(images[..i])|)
  }

  lemma AppendedImage(r: Rec, junk: seq<byte>)
    requires Packable(r) && |junk| == HEADER_SIZE
    ensures var image := Packed(r, junk) + Trailer(HEADER_SIZE + DiskHeader(r).Strings());
            IsImage(image) && Decoded(image) == Kept(r)
  {
    UnpackPacked(r, junk);
    HeaderRoundTrip(DiskHeader(r), junk, StringBytes(r));
    hide HeaderOf, HeaderBytes, Unpacked, Kept;
    var packed, len := Packed(r, junk), HEADER_SIZE + DiskHeader(r).Strings();
    var image := packed + Trailer(len);
    assert Body(image) == packed;
    assert StoredLength(image) == len;
  }

  lemma SameTail(s: seq<byte>, t: seq<byte>, from: nat, to: nat)
    requires |s| == |t| && HEADER_SIZE <= from <= to <= |s| && s[HEADER_SIZE..] == t[HEADER_SIZE..]
    ensures s[from..to] == t[from..to]
  {
    forall i | from <= i < to ensures s[i] == t[i] {
      assert s[i] == s[HEADER_SIZE..][i - HEADER_SIZE] && t[i] == t[HEADER_SIZE..][i - HEADER_SIZE];
    }
  }

  /** Overlaying a record's header bytes changes its header fields and keeps its strings. */
  lemma OverlaidImage(image: seq<byte>, r: Rec, junk: seq<byte>)
    requires IsImage(image) && Packable(r) && |junk| == HEADER_SIZE && SameLengths(Decoded(image), r)
    ensures var image' := HeaderBytes(DiskHeader(r), junk) + image[HEADER_SIZE..];
            && |image'| == |image| && IsImage(image') && Decoded(image') == Overlaid(Decoded(image), r)
  {
    var h, body := DiskHeader(r), Body(image);
    var rest := body[HEADER_SIZE..];
    HeaderRoundTrip(h, junk, rest);
    OverlaidBody(body, r, HeaderBytes(h, junk) + rest);
    hide HeaderOf, HeaderBytes, Unpacked, Overlaid, HeaderInRange, DiskHeader;
    var image' := HeaderBytes(h, junk) + image[HEADER_SIZE..];
    assert Body(image') == HeaderBytes(h, junk) + rest;
    assert image'[|image| - 2..] == image[|image| - 2..];
    assert StoredLength(image') == StoredLength(image);
  }

  lemma OverlaidBody(body: seq<byte>, r: Rec, body': seq<byte>)
    requires Decodable(body) && Packable(r) && SameLengths(Unpacked(body), r)
    requires |body'| == |body| && body'[HEADER_SIZE..] == body[HEADER_SIZE..] && HeaderOf(body') == DiskHeader(r)
    ensures Decodable(body') && HeaderOf(body').Strings() == HeaderOf(body).Strings()
    ensures Unpacked(body') == Overlaid(Unpacked(body), r)
  {
    var h := DiskHeader(r);
    LengthsAgree(body, r);
    SameStrings(body, body', h);
    var host := HEADER_SIZE + h.pathlen;
    var pattern := host + h.hostlen;
    RebuiltFields(r, HeaderOf(body), body[HEADER_SIZE..host], body[host..pattern], body[pattern..pattern + h.patternlen]);
    hide HeaderOf, HeaderInRange, SameLengths, Packable, DiskHeader, Rebuilt, Overlaid;
  }

  /** A rebuilt record with another record's header is that record overlaid on it. */
  lemma RebuiltFields(r: Rec, first: Header, path: seq<byte>, host: seq<byte>, pattern: seq<byte>)
    requires Packable(r) && |path| <= PATH_BUFFER && |host| <= HOST_BUFFER && |pattern| <= PATTERN_BUFFER
    ensures Rebuilt(DiskHeader(r), path, host, pattern) == Overlaid(Rebuilt(first, path, host, pattern), r)
  {
    TwosComplement(r.offset);
    TwosComplement(r.nbytes);
    TwosComplement(r.oflags);
    hide Padded, ToInt32;
  }

  lemma LengthsAgree(body: seq<byte>, r: Rec)
    requires Decodable(body) && Packable(r) && SameLengths(Unpacked(body), r)
    ensures var h, h' := HeaderOf(body), DiskHeader(r);
            h.pathlen == h'.pathlen && h.hostlen == h'.hostlen && h.patternlen == h'.patternlen
  {
    hide HeaderOf, Padded, ToInt32, HeaderInRange;
  }

  lemma SameStrings(body: seq<byte>, body': seq<byte>, h: Header)
    requires HEADER_SIZE + h.Strings() <= |body| == |body'| && body'[HEADER_SIZE..] == body[HEADER_SIZE..]
    ensures var host, pattern := HEADER_SIZE + h.pathlen, HEADER_SIZE + h.pathlen + h.hostlen;
            && body'[HEADER_SIZE..host] == body[HEADER_SIZE..host]
            && body'[host..pattern] == body[host..pattern]
            && body'[pattern..pattern + h.patternlen] == body[pattern..pattern + h.patternlen]
  {
    SameTail(body', body, HEADER_SIZE, HEADER_SIZE + h.pathlen);
    SameTail(body', body, HEADER_SIZE + h.pathlen, HEADER_SIZE + h.pathlen + h.hostlen);
    SameTail(body', body, HEADER_SIZE + h.pathlen + h.hostlen, HEADER_SIZE + h.Strings());
  }

  lemma FlattenAppend(images: seq<seq<byte>>, image: seq<byte>)
    ensures Flatten(images + [image]) == Flatten(images) + image
  {
    assert (images + [image])[..|images|] == images;
  }

  lemma AppendRepresents(images: seq<seq<byte>>, h: History, recs: seq<Rec>, image: seq<byte>)
    requires Represents(images, h, recs) && IsImage(image)
    ensures Represents(images + [image], History(h.file + image, h.starts + [|h.file|]), recs + [Decoded(image)])
  {
    hide IsImage, Decoded;
    FlattenAppend(images, image);
    var images' := images + [image];
    forall i | 0 <= i < |images'| ensures (h.starts + [|h.file|])[i] == |Flatten(images'[..i])| {
      assert images'[..i] == images[..i];
    }
  }

  lemma OverlayRepresents(images: seq<seq<byte>>, h: History, recs: seq<Rec>, k: nat, bytes: seq<byte>, image: seq<byte>)
    requires Represents(images, h, recs) && k < |images| && |bytes| == HEADER_SIZE <= |images[k]|
    requires image == bytes + images[k][HEADER_SIZE..] && IsImage(image)
    ensures Represents(images[k := image], h.(file := WriteAt(h.file, h.starts[k], bytes)), recs[k := Decoded(image)])
  {
    hide IsImage, Decoded;
    FlattenUpdate(images, k, image);
    var at, file := h.starts[k], h.file;
    assert images[..k] == images[..k];
    assert file[at..at + |image|] == images[k];
    assert file[at + HEADER_SIZE..] == images[k][HEADER_SIZE..] + file[at + |image|..];
    forall i | 0 <= i < |images| ensures h.starts[i] == |Flatten(images[k := image][..i])| {
      SameLengthPrefix(images, k, image, i);
    }
  }

  lemma SameLengthPrefix(images: seq<seq<byte>>, k: nat, image: seq<byte>, i: nat)
    requires k < |images| && |image| == |images[k]| && i <= |images|
    ensures |Flatten(images[k := image][..i])| == |Flatten(images[..i])|
  {
    if k < i {
      assert images[k := image][..i] == images[..i][k := image];
      FlattenUpdate(images[..i], k, image);
    } else {
      assert images[k := image][..i] == images[..i];
    }
  }

  lemma OpRepresents(images: seq<seq<byte>>, h: History, recs: seq<Rec>, op: Op) returns (images': seq<seq<byte>>)
    requires Represents(images, h, recs) && LegalOp(recs, op)
    ensures Represents(images', PlayOp(h, op), RecordsAfter(recs, op))
  {
    hide Packed, HeaderBytes, Kept, IsImage, Decoded, Represents;
    match op
    case Append(r, junk) =>
      AppendedImage(r, junk);
      var image := Packed(r, junk) + Trailer(HEADER_SIZE + DiskHeader(r).Strings());
      AppendRepresents(images, h, recs, image);
      assert h.file + image == h.file + Packed(r, junk) + Trailer(HEADER_SIZE + DiskHeader(r).Strings());
      images' := images + [image];
    case Overlay(k, r, junk) =>
      images' := OverlayOp(images, h, recs, k, r, junk);
  }

  lemma OverlayOp(images: seq<seq<byte>>, h: History, recs: seq<Rec>, k: nat, r: Rec, junk: seq<byte>)
    returns (images': seq<seq<byte>>)
    requires Represents(images, h, recs) && LegalOp(recs, Overlay(k, r, junk))
    ensures Represents(images', PlayOp(h, Overlay(k, r, junk)), RecordsAfter(recs, Overlay(k, r, junk)))
  {
    hide Packed, HeaderBytes, Kept, Decoded, IsImage;
    OverlaidImage(images[k], r, junk);
    ImageSize(images[k]);
    var bytes := HeaderBytes(DiskHeader(r), junk);
    var image := bytes + images[k][HEADER_SIZE..];
    OverlayRepresents(images, h, recs, k, bytes, image);
    images' := images[k := image];
  }

  /** After any legal run the file is the well-formed image of the abstract records, and the offsets
      returned are where the records begin. */
  lemma {:induction false} LogRefinesSequence(ops: seq<Op>) returns (images: seq<seq<byte>>)
    requires Legal(ops)
    ensures Represents(images, Play(ops), Records(ops))
  {
    images := [];
    if ops != [] {
      hide PlayOp, RecordsAfter, Represents;
      images := LogRefinesSequence(ops[..|ops| - 1]);
      images := OpRepresents(images, Play(ops[..|ops| - 1]), Records(ops[..|ops| - 1]), ops[|ops| - 1]);
    }
  }

  // Scanning after a run

  /** The newest records first, all of them for nrecs 0 and at most nrecs otherwise. */
  function Newest(recs: seq<Rec>, nrecs: int): seq<Rec> {
    var n := if nrecs == 0 || nrecs > |recs| then |recs| else if nrecs < 0 then 0 else nrecs;
    seq(n, i requires 0 <= i < n => recs[|recs| - 1 - i])
  }

  function DiskSize(r: Rec): int {
    HEADER_SIZE + r.pathlen + r.hostlen + r.patternlen + TRAILER
  }

  lemma {:induction false} QuietDelivers(images: seq<seq<byte>>, recs: seq<Rec>, nrecs: int, cb: Callback, k: nat, calls: seq<Rec>)
    requires Images(images) && |images| == |recs| && k <= |recs| && Quiet(cb)
    requires forall i :: 0 <= i < |images| ==> Decoded(images[i]) == recs[i]
    requires calls == seq(k, i requires 0 <= i < k => recs[|recs| - 1 - i])
    requires nrecs > 0 ==> k <= nrecs
    requires nrecs < 0 ==> k == 0
    ensures Deliver(images[..|images| - k], nrecs, cb, calls, k) == Newest(recs, nrecs)
    decreases |recs| - k
  {
    hide IsImage, Decoded;
    if k < |recs| && Wanted(nrecs, k) {
      var rest := images[..|images| - k];
      assert rest[..|rest| - 1] == images[..|images| - (k + 1)];
      QuietDelivers(images, recs, nrecs, cb, k + 1, calls + [recs[|recs| - 1 - k]]);
    } else {
      assert calls == Newest(recs, nrecs);
    }
  }

  lemma ImageSize(image: seq<byte>)
    requires IsImage(image)
    ensures HEADER_SIZE <= |image| == DiskSize(Decoded(image)) <= 229
  {
    hide HeaderOf, HeaderInRange;
    LongestBody(HeaderOf(Body(image)));
  }

  lemma ScanRepresented(images: seq<seq<byte>>, h: History, recs: seq<Rec>, capacity: nat, longest: nat,
                        nrecs: int, cb: Callback)
    requires Represents(images, h, recs) && Quiet(cb) && AtMost(images, longest) && longest <= capacity
    ensures var run := Scan(h.file, capacity, nrecs, cb);
            && run.outcome == Finished && !run.progress.resumed
            && run.progress.calls == Newest(recs, nrecs)
            && (Roomy(longest, capacity) ==> run.progress.clean)
  {
    hide IsImage, Decoded, ScanFrom, Deliver, Newest;
    WholeFileRests(images);
    ScanDelivers(images, h.file, capacity, nrecs, cb, |h.file|, [], START, longest);
    QuietDelivers(images, recs, nrecs, cb, 0, []);
    assert images[..|images|] == images;
  }

  /** The log refines a sequence: after any legal run of appends and overlays, a scan that is never
      told to stop delivers the newest records, newest first, through any buffer that holds the
      longest record; in very small buffers and in those with room for two of the longest records no
      leftover copy overlaps itself. */
  lemma ScanAfterRun(ops: seq<Op>, capacity: nat, nrecs: int, cb: Callback)
    requires Legal(ops) && Quiet(cb)
    requires forall i :: 0 <= i < |Records(ops)| ==> DiskSize(Records(ops)[i]) <= capacity
    ensures var run := Scan(Play(ops).file, capacity, nrecs, cb);
            && run.outcome == Finished && !run.progress.resumed
            && run.progress.calls == Newest(Records(ops), nrecs)
            && (capacity <= 60 || 456 <= capacity ==> run.progress.clean)
  {
    var images := LogRefinesSequence(ops);
    hide IsImage, Decoded, Records, Play, Legal, Scan, Newest;
    var longest := if capacity < 229 then capacity else 229;
    forall i | 0 <= i < |images| ensures |images[i]| <= longest {
      ImageSize(images[i]);
    }
    ScanRepresented(images, Play(ops), Records(ops), capacity, longest, nrecs, cb);
  }

  /** With the source's buffer every record fits, and every copy is free of overlap. */
  lemma SourceBufferScan(ops: seq<Op>, nrecs: int, cb: Callback)
    requires Legal(ops) && Quiet(cb)
    ensures var run := Scan(Play(ops).file, SCAN_BUFFER, nrecs, cb);
            && run.outcome == Finished && run.progress.clean
            && run.progress.calls == Newest(Records(ops), nrecs)
  {
    var images := LogRefinesSequence(ops);
    hide IsImage, Decoded, Records, Play, Legal, Scan, Newest;
    forall i | 0 <= i < |Records(ops)| ensures DiskSize(Records(ops)[i]) <= SCAN_BUFFER {
      ImageSize(images[i]);
    }
    ScanAfterRun(ops, SCAN_BUFFER, nrecs, cb);
  }

  // Which buffers are free of overlapping copies

  /** No scan of a log whose records fit the buffer copies a leftover onto itself. */
  ghost predicate OverlapFree(capacity: nat) {
    forall ops: seq<Op>, nrecs: int, cb: Callback ::
      Legal(ops) && Quiet(cb) && (forall i :: 0 <= i < |Records(ops)| ==> DiskSize(Records(ops)[i]) <= capacity)
      ==> Scan(Play(ops).file, capacity, nrecs, cb).progress.clean
  }

  /** Records of every size from 30 to 229 bytes can be logged. */
  lemma RecordOfSize(n: nat) returns (r: Rec)
    requires 30 <= n <= 229
    ensures Packable(r) && DiskSize(Kept(r)) == n
  {
    var p := if n - 30 < 127 then n - 30 else 127;
    var q := if n - 30 - p < 63 then n - 30 - p else 63;
    var h := n - 30 - p - q;
    r := Rec(0, 0, 0, 0, 0, 0, seq(HOST_BUFFER, _ => 0), h, seq(PATH_BUFFER, _ => 0), p, seq(PATTERN_BUFFER, _ => 0), q);
  }

  function Image(r: Rec, junk: seq<byte>): seq<byte>
    requires Packable(r) && |junk| == HEADER_SIZE
  {
    Packed(r, junk) + Trailer(HEADER_SIZE + DiskHeader(r).Strings())
  }

  lemma TwoAppends(r: Rec, r': Rec, junk: seq<byte>)
    requires Packable(r) && Packable(r') && |junk| == HEADER_SIZE
    ensures var ops := [Append(r, junk), Append(r', junk)];
            Legal(ops) && Records(ops) == [Kept(r), Kept(r')] && Play(ops).file == Image(r, junk) + Image(r', junk)
  {
    hide Packed, Kept, Packable;
    var one, ops := [Append(r, junk)], [Append(r, junk), Append(r', junk)];
    assert one[..0] == [] && ops[..1] == one;
    assert Legal([]) && Records([]) == [] && Play([]) == History([], []);
    assert Legal(one) && Records(one) == [Kept(r)];
    assert Play(one).file == Image(r, junk);
    assert Image(r, junk) + Packed(r', junk) + Trailer(HEADER_SIZE + DiskHeader(r').Strings()) == Image(r, junk) + Image(r', junk);
  }

  /** Scanning these two records copies a leftover onto itself. */
  lemma TwoRecordsOverlap(older: Rec, newer: Rec, junk: seq<byte>, capacity: nat, cb: Callback)
    requires Packable(older) && Packable(newer) && |junk| == HEADER_SIZE && Quiet(cb)
    requires var m, n := DiskSize(Kept(older)), DiskSize(Kept(newer)); m <= capacity && n <= capacity < m + n && capacity < 2 * (capacity - n)
    ensures !Scan(Image(older, junk) + Image(newer, junk), capacity, 0, cb).progress.clean
  {
    AppendedImage(older, junk);
    AppendedImage(newer, junk);
    var a, b := Image(older, junk), Image(newer, junk);
    hide Image, Packed, Kept, Packable, IsImage, Decoded, Scan;
    ImageSize(a);
    ImageSize(b);
    hide DiskSize;
    LeftoverOverlapIff(a, b, capacity, cb);
  }

  lemma NotFree(ops: seq<Op>, capacity: nat, cb: Callback)
    requires Legal(ops) && Quiet(cb) && forall i :: 0 <= i < |Records(ops)| ==> DiskSize(Records(ops)[i]) <= capacity
    requires !Scan(Play(ops).file, capacity, 0, cb).progress.clean
    ensures !OverlapFree(capacity)
  {
    hide Legal, Records, Play, Scan, Quiet;
  }

  lemma BothFit(recs: seq<Rec>, r: Rec, r': Rec, capacity: nat)
    requires recs == [r, r'] && DiskSize(r) <= capacity && DiskSize(r') <= capacity
    ensures forall i :: 0 <= i < |recs| ==> DiskSize(recs[i]) <= capacity
  {
  }

  lemma TwoRecordsNotFree(older: Rec, newer: Rec, capacity: nat)
    requires Packable(older) && Packable(newer)
    requires var m, n := DiskSize(Kept(older)), DiskSize(Kept(newer)); m <= capacity && n <= capacity < m + n && capacity < 2 * (capacity - n)
    ensures !OverlapFree(capacity)
  {
    var junk: seq<byte> := seq(HEADER_SIZE, _ => 0);
    var cb: Callback := h => true;
    assert Quiet(cb);
    hide Image, Packed, Kept, Packable, Records, Legal, Play, Scan, DiskSize, OverlapFree;
    TwoRecordsOverlap(older, newer, junk, capacity, cb);
    TwoAppends(older, newer, junk);
    hide Quiet;
    var ops := [Append(older, junk), Append(newer, junk)];
    BothFit(Records(ops), Kept(older), Kept(newer), capacity);
    NotFree(ops, capacity, cb);
  }

  /** Between the two bounds some log of two records makes a copy overlap. */
  lemma OverlapPossible(capacity: nat)
    requires 60 < capacity < 456
    ensures !OverlapFree(capacity)
  {
    var older := RecordOfSize(if capacity < 229 then capacity else 229);
    var newer := RecordOfSize(if capacity < 258 then 30 else capacity - 228);
    hide *;
    TwoRecordsNotFree(older, newer, capacity);
  }

  /** memcpy is never given overlapping bytes exactly for buffers of at most 60 or at least 456 bytes. */
  lemma OverlapFreeIff(capacity: nat)
    ensures OverlapFree(capacity) <==> capacity <= 60 || 456 <= capacity
  {
    if capacity <= 60 || 456 <= capacity {
      hide Legal, Records, Play, Scan, Quiet, Newest;
      forall ops: seq<Op>, nrecs: int, cb: Callback |
        Legal(ops) && Quiet(cb) && (forall i :: 0 <= i < |Records(ops)| ==> DiskSize(Records(ops)[i]) <= capacity)
        ensures Scan(Play(ops).file, capacity, nrecs, cb).progress.clean
      {
        ScanAfterRun(ops, capacity, nrecs, cb);
      }
    } else {
      OverlapPossible(capacity);
    }
  }
}
