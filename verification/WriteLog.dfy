/** The write-history log: wlog_record_write appends and overlays records in a byte file, and
    wlog_scan_backward reads them newest first through a fixed buffer
    (ltp_framework/lib/write_log.c). */
module WriteLog {
  import opened Basics
  import opened WlogFormat

  const ALBUF_SIZE := 450     // sizeof(struct wlog_rec) is 248 on ARM; WLOG_REC_MAX_SIZE adds 202
  const SCAN_BUFFER := 16384  // BSIZE * 32, BSIZE being DEV_BSIZE
  const TRAILER := 2

  // The file as wlog_record_write leaves it

  function Trailer(len: nat): (b: seq<byte>)
    requires len < 0x1_0000
  {
    [len / 256, len % 256]
  }

  /** write(2) at a file position: overwrites, and fills a hole with zeros. */
  function WriteAt(file: seq<byte>, at: nat, bytes: seq<byte>): seq<byte> {
    if at + |bytes| <= |file| then file[..at] + bytes + file[at + |bytes|..]
    else if at <= |file| then file[..at] + bytes
    else file + seq(at - |file|, _ => 0) + bytes
  }

  /** wlog_record_write as a function: the new file and the record's offset. The stored length
      excludes its own two bytes. */
  function Written(file: seq<byte>, r: Rec, offset: int, junk: seq<byte>): (seq<byte>, nat)
    requires Packable(r) && |junk| == HEADER_SIZE
  {
    if offset < 0 then
      (file + Packed(r, junk) + Trailer(HEADER_SIZE + DiskHeader(r).Strings()), |file|)
    else
      (WriteAt(file, offset, HeaderBytes(DiskHeader(r), junk)), offset)
  }

  /** An append leaves the file in front of the record alone, returns where that ends, and closes the record
      with the length of what lies between, high byte first. */
  lemma AppendLayout(file: seq<byte>, r: Rec, offset: int, junk: seq<byte>)
    requires Packable(r) && |junk| == HEADER_SIZE && offset < 0
    ensures var (file', at) := Written(file, r, offset, junk);
            && at == |file| && |file'| == at + |Packed(r, junk)| + 2
            && file'[..at] == file && file'[at..|file'| - 2] == Packed(r, junk)
            && 256 * file'[|file'| - 2] as nat + file'[|file'| - 1] as nat == |Packed(r, junk)|
  {
    hide Packed;
  }

  /** An overlay replaces the 28 bytes at the offset and no others. */
  lemma OverlayLayout(file: seq<byte>, r: Rec, offset: nat, junk: seq<byte>)
    requires Packable(r) && |junk| == HEADER_SIZE && offset + 28 <= |file|
    ensures var (file', at) := Written(file, r, offset, junk);
            && at == offset && |file'| == |file|
            && file'[..at] == file[..at] && file'[at + 28..] == file[at + 28..]
            && file'[at..at + 28] == Packed(r, junk)[..28]
  {
    hide HeaderBytes, StringBytes;
    var b := HeaderBytes(DiskHeader(r), junk);
    assert Packed(r, junk)[..28] == b;
  }

  // The backward scan as a function

  /** What the scan has done so far: records handed to the callback, records counted, whether the
      callback said stop, whether reading went on after that, and whether no leftover copy
      overlapped itself. */
  datatype Progress = Progress(calls: seq<Rec>, recnum: nat, stopped: bool, resumed: bool, clean: bool)

  /** Stuck: a leftover as long as the buffer, so the file offset cannot fall. Malformed: bytes no
      append ever wrote, which overrun the record buffer or its strings. */
  datatype Outcome = Finished | Stuck | Malformed

  datatype Run = Run(outcome: Outcome, progress: Progress)

  datatype Parse = Fault(progress: Progress) | Parsed(progress: Progress, left: seq<byte>)

  /** The user's function; it may depend on every record it has been given. true is WLOG_CONTINUE_SCAN. */
  type Callback = seq<Rec> -> bool

  predicate Wanted(nrecs: int, recnum: nat) {
    nrecs == 0 || recnum < nrecs
  }

  /** The two length bytes that end a chunk. */
  function StoredLength(chunk: seq<byte>): nat
    requires |chunk| >= TRAILER
  {
    chunk[|chunk| - 2] as int * 256 + chunk[|chunk| - 1] as int
  }

  /** The chunk ends with a whole record and its length. */
  predicate Complete(chunk: seq<byte>) {
    |chunk| >= TRAILER && |chunk| >= StoredLength(chunk) + TRAILER
  }

  function RecordStart(chunk: seq<byte>): (cp: nat)
    requires Complete(chunk)
    ensures cp + TRAILER <= |chunk|
  {
    |chunk| - StoredLength(chunk) - TRAILER
  }

  /** The inner loop: peel records off the end of a chunk. */
  function ParseChunk(chunk: seq<byte>, nrecs: int, cb: Callback, pr: Progress): (p: Parse)
    ensures p.Parsed? ==> |p.left| <= |chunk|
    decreases |chunk|
  {
    if !Complete(chunk) then
      Parsed(pr, chunk)
    else
      var cp := RecordStart(chunk);
      var body := chunk[cp..|chunk| - TRAILER];
      if |body| > ALBUF_SIZE || !Decodable(body) then
        Fault(pr)
      else
        var calls := pr.calls + [Unpacked(body)];
        if !cb(calls) then
          Parsed(pr.(calls := calls, stopped := true), [])
        else
          var pr' := pr.(calls := calls, recnum := pr.recnum + 1);
          if !Wanted(nrecs, pr'.recnum) then Parsed(pr', [])
          else ParseChunk(chunk[..cp], nrecs, cb, pr')
  }

  /** One turn of the outer loop either ends the scan or leaves a smaller file offset. */
  datatype Turn = Halt(run: Run) | Go(offset: nat, left: seq<byte>, progress: Progress)

  /** Refill the buffer with the bytes before offset, in front of the leftover, and parse it. */
  function ScanTurn(file: seq<byte>, capacity: nat, nrecs: int, cb: Callback,
                    offset: nat, left: seq<byte>, pr: Progress): (t: Turn)
    requires offset <= |file| && |left| <= capacity
    ensures t.Go? ==> t.offset < offset && |t.left| <= capacity
  {
    var pr' := pr.(resumed := pr.resumed || pr.stopped);
    var offset' := if offset + |left| < capacity then 0 else offset - (capacity - |left|);
    if offset' == offset then
      Halt(Run(Stuck, pr'))
    else
      var chunk := file[offset'..offset] + left;
      match ParseChunk(chunk, nrecs, cb, pr')
      case Fault(pr'') => Halt(Run(Malformed, pr''))
      case Parsed(pr'', left') => Go(offset', left', pr''.(clean := pr''.clean && 2 * |left'| <= |chunk|))
  }

  function ScanFrom(file: seq<byte>, capacity: nat, nrecs: int, cb: Callback,
                    offset: nat, left: seq<byte>, pr: Progress): Run
    requires offset <= |file| && |left| <= capacity
    decreases offset
  {
    if !Wanted(nrecs, pr.recnum) || offset == 0 then
      Run(Finished, pr)
    else
      match ScanTurn(file, capacity, nrecs, cb, offset, left, pr)
      case Halt(run) => run
      case Go(offset', left', pr') => ScanFrom(file, capacity, nrecs, cb, offset', left', pr')
  }

  const START := Progress([], 0, false, false, true)

  function Scan(file: seq<byte>, capacity: nat, nrecs: int, cb: Callback): Run {
    ScanFrom(file, capacity, nrecs, cb, |file|, [], START)
  }

  // The code

  class LogFile {
    var file: seq<byte>

    constructor ()
      ensures file == []
    {
      file := [];
    }

    /** wlog_record_write. junk is what the stack buffer held before. */
    method RecordWrite(r: Rec, offset: int, junk: seq<byte>) returns (at: nat)
      requires Packable(r) && |junk| == HEADER_SIZE
      modifies this
      ensures (file, at) == Written(old(file), r, offset, junk)
    {
      hide HeaderBytes;
      var wbuf := new byte[ALBUF_SIZE + TRAILER](i => if 0 <= i < |junk| then junk[i] else 0);
      assert wbuf[..HEADER_SIZE] == junk;
      var reclen := RecPack(r, wbuf, offset < 0);
      if offset < 0 {
        ghost var packed := wbuf[..reclen];
        wbuf[reclen] := reclen / 256;
        wbuf[reclen + 1] := reclen % 256;
        assert wbuf[..reclen + TRAILER] == packed + Trailer(reclen);
        reclen := reclen + TRAILER;
        assert file + (packed + Trailer(reclen - TRAILER)) == file + packed + Trailer(reclen - TRAILER);
        file := file + wbuf[..reclen];
        at := |file| - reclen;
      } else {
        file := WriteAt(file, offset, wbuf[..reclen]);
        at := offset;
      }
    }
  }

  /** Finds the last record of buf[bufstart..end], if it is there whole. */
  method LastRecord(buf: array<byte>, bufstart: nat, end: nat) returns (complete: bool, cp: nat, albuf: seq<byte>)
    requires bufstart <= end <= buf.Length
    ensures complete == Complete(buf[bufstart..end])
    ensures complete ==>
      && cp == bufstart + RecordStart(buf[bufstart..end])
      && albuf == buf[bufstart..end][cp - bufstart..end - bufstart - TRAILER]
      && buf[bufstart..cp] == buf[bufstart..end][..cp - bufstart]
  {
    complete, cp, albuf := false, end, [];
    if end - bufstart >= TRAILER {
      var reclen: nat := buf[end - 2] as int * 256 + buf[end - 1] as int;
      if end - bufstart >= reclen + TRAILER {
        complete := true;
        cp := end - (reclen + TRAILER);
        albuf := buf[cp..cp + reclen];
        ghost var chunk := buf[bufstart..end];
        assert forall i :: 0 <= i < |chunk| ==> chunk[i] == buf[bufstart + i];
        assert StoredLength(chunk) == reclen;
        assert albuf == chunk[cp - bufstart..end - bufstart - TRAILER];
        assert buf[bufstart..cp] == chunk[..cp - bufstart];
      }
    }
  }

  /** The inner loop of wlog_scan_backward over buf[bufstart..]; leftover bytes stay at bufstart. */
  method ScanBuffer(buf: array<byte>, bufstart: nat, nrecs: int, cb: Callback, before: Progress)
    returns (fault: bool, pr: Progress, leftover: nat)
    requires bufstart <= buf.Length
    ensures bufstart + leftover <= buf.Length
    ensures ParseChunk(buf[bufstart..], nrecs, cb, before)
         == if fault then Fault(pr) else Parsed(pr, buf[bufstart..bufstart + leftover])
  {
    hide Unpacked, Decodable, Complete, RecordStart;
    var cp: nat := buf.Length;
    fault, pr, leftover := false, before, 0;
    assert buf[bufstart..cp] == buf[bufstart..];
    while cp >= bufstart
      invariant bufstart <= cp <= buf.Length && !fault && leftover == 0
      invariant ParseChunk(buf[bufstart..], nrecs, cb, before) == ParseChunk(buf[bufstart..cp], nrecs, cb, pr)
      decreases cp
    {
      var complete, start, albuf := LastRecord(buf, bufstart, cp);
      if !complete {
        leftover := cp - bufstart;
        break;
      }
      if |albuf| > ALBUF_SIZE || !Decodable(albuf) {
        fault := true;
        break;
      }
      cp := start;
      pr := pr.(calls := pr.calls + [Unpacked(albuf)]);
      if !cb(pr.calls) {
        pr := pr.(stopped := true);
        break;
      }
      pr := pr.(recnum := pr.recnum + 1);
      if !Wanted(nrecs, pr.recnum) {
        break;
      }
    }
  }

  /** read(2) into the buffer, in front of the leftover bytes at its end. */
  method Refill(buf: array<byte>, bufstart: nat, leftover: nat, bytes: seq<byte>)
    requires bufstart + |bytes| + leftover == buf.Length
    modifies buf
    ensures buf[bufstart..] == bytes + old(buf[buf.Length - leftover..])
  {
    CopyInto(buf, bufstart, bytes);
  }

  method KeepLeftover(buf: array<byte>, bufstart: nat, leftover: nat)
    requires bufstart + leftover <= buf.Length
    modifies buf
    ensures buf[buf.Length - leftover..] == old(buf[bufstart..bufstart + leftover])
  {
    CopyInto(buf, buf.Length - leftover, buf[bufstart..bufstart + leftover]);
  }

  /** One turn of the outer loop on the buffer, whose last leftover bytes, left, come from the turn
      before. */
  method RefillAndParse(file: seq<byte>, buf: array<byte>, nrecs: int, cb: Callback,
                        end: nat, before: nat, pr: Progress, ghost left: seq<byte>)
    returns (outcome: Outcome, offset: nat, leftover: nat, pr': Progress, ghost left': seq<byte>)
    requires 0 < end <= |file| && before <= buf.Length && buf[buf.Length - before..] == left
    modifies buf
    ensures leftover <= buf.Length && buf[buf.Length - leftover..] == left'
    ensures ScanTurn(file, buf.Length, nrecs, cb, end, left, pr)
         == if outcome != Finished then Halt(Run(outcome, pr')) else Go(offset, left', pr')
  {
    hide ParseChunk;
    var bufstart: nat := 0;
    outcome, leftover, pr', left' := Finished, before, pr.(resumed := pr.resumed || pr.stopped), left;
    if end + leftover < buf.Length {
      bufstart := buf.Length - (end + leftover);
      offset := 0;
    } else {
      offset := end - (buf.Length - leftover);
    }
    if offset == end {
      outcome := Stuck;
    } else {
      ghost var chunk := file[offset..end] + left;
      Refill(buf, bufstart, leftover, file[offset..end]);
      outcome, leftover, pr', left' := ParseBuffer(buf, bufstart, nrecs, cb, pr', chunk);
    }
  }

  /** Parse the refilled buffer and keep what is left over at its end. */
  method ParseBuffer(buf: array<byte>, bufstart: nat, nrecs: int, cb: Callback, pr: Progress, ghost chunk: seq<byte>)
    returns (outcome: Outcome, leftover: nat, pr': Progress, ghost left: seq<byte>)
    requires bufstart <= buf.Length && buf[bufstart..] == chunk
    modifies buf
    ensures leftover <= buf.Length && buf[buf.Length - leftover..] == left && outcome != Stuck
    ensures match ParseChunk(chunk, nrecs, cb, pr)
            case Fault(pr'') => outcome == Malformed && pr' == pr''
            case Parsed(pr'', rest) =>
              outcome == Finished && rest == left && pr' == pr''.(clean := pr''.clean && 2 * |left| <= |chunk|)
  {
    hide ParseChunk;
    var fault;
    outcome := Finished;
    fault, pr', leftover := ScanBuffer(buf, bufstart, nrecs, cb, pr);
    left := buf[bufstart..bufstart + leftover];
    if fault {
      outcome := Malformed;
      left := buf[buf.Length - leftover..];
    } else {
      pr' := pr'.(clean := pr'.clean && 2 * leftover <= buf.Length - bufstart);
      KeepLeftover(buf, bufstart, leftover);
    }
  }

  /** wlog_scan_backward, with the buffer size as a parameter. */
  method ScanBackward(log: LogFile, capacity: nat, nrecs: int, cb: Callback) returns (run: Run)
    ensures run == Scan(log.file, capacity, nrecs, cb)
  {
    hide ScanTurn;
    var file := log.file;
    var buf := new byte[capacity](_ => 0);
    var offset: nat, leftover: nat, pr := |file|, 0, START;
    ghost var left: seq<byte> := [];
    assert buf[capacity..] == [];
    while Wanted(nrecs, pr.recnum) && offset > 0
      invariant offset <= |file| && leftover <= capacity && buf[capacity - leftover..] == left
      invariant Scan(file, capacity, nrecs, cb) == ScanFrom(file, capacity, nrecs, cb, offset, left, pr)
      decreases offset
    {
      var outcome;
      outcome, offset, leftover, pr, left := RefillAndParse(file, buf, nrecs, cb, offset, leftover, pr, left);
      if outcome != Finished {
        return Run(outcome, pr);
      }
    }
    return Run(Finished, pr);
  }
}
