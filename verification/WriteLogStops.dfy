/** What a scan of the write-history log does after its callback said stop: only the inner loop is left,
    and the next chunk is read and parsed as if it were the end of a file
    (wlog_scan_backward in ltp_framework/lib/write_log.c). */
module WriteLogStops {
  import opened Basics
  import opened WlogFormat
  import opened WriteLog
  import opened WriteLogTheory

  /** The callback as it behaves once it has been told these records. */
  function Later(cb: Callback, told: seq<Rec>): Callback {
    h => cb(told + h)
  }

  /** The records of some images, newest first. */
  function Told(images: seq<seq<byte>>): (recs: seq<Rec>)
    requires Images(images)
    ensures |recs| == |images|
  {
    if images == [] then [] else [Decoded(images[|images| - 1])] + Told(images[..|images| - 1])
  }

  // A scan does not look back

  /** pr is pr' with more records told and counted before, whatever its flags. */
  predicate After(pr: Progress, pr': Progress, told: seq<Rec>, counted: nat) {
    pr.calls == told + pr'.calls && pr.recnum == pr'.recnum + counted
  }

  /** nrecs is what is wanted in all when nrecs' is wanted still. */
  predicate StillWanted(nrecs: int, nrecs': int, counted: nat) {
    if nrecs == 0 then nrecs' == 0 else nrecs' > 0 && nrecs == nrecs' + counted
  }

  lemma {:induction false} ParseShift(chunk: seq<byte>, nrecs: int, nrecs': int, cb: Callback,
                                      told: seq<Rec>, counted: nat, pr: Progress, pr': Progress)
    requires After(pr, pr', told, counted) && StillWanted(nrecs, nrecs', counted)
    ensures var p, p' := ParseChunk(chunk, nrecs, cb, pr), ParseChunk(chunk, nrecs', Later(cb, told), pr');
            && p.Fault? == p'.Fault? && After(p.progress, p'.progress, told, counted)
            && (p.Parsed? ==> p.left == p'.left)
    decreases |chunk|
  {
    hide Decodable, Unpacked, StoredLength;
    if Complete(chunk) {
      var cp := RecordStart(chunk);
      var body := chunk[cp..|chunk| - TRAILER];
      if |body| <= ALBUF_SIZE && Decodable(body) {
        var calls, calls' := pr.calls + [Unpacked(body)], pr'.calls + [Unpacked(body)];
        assert calls == told + calls';
        ParseShift(chunk[..cp], nrecs, nrecs', cb, told, counted,
                   pr.(calls := calls, recnum := pr.recnum + 1), pr'.(calls := calls', recnum := pr'.recnum + 1));
      }
    }
  }

  /** Scanning from an offset depends on the bytes before it only, and on what was told and counted
      before only through the callback and nrecs. */
  lemma {:induction false} ScanShift(file: seq<byte>, file': seq<byte>, capacity: nat, nrecs: int, nrecs': int, cb: Callback,
                                     told: seq<Rec>, counted: nat, offset: nat, left: seq<byte>, pr: Progress, pr': Progress)
    requires offset <= |file| && offset <= |file'| && file[..offset] == file'[..offset] && |left| <= capacity
    requires After(pr, pr', told, counted) && StillWanted(nrecs, nrecs', counted)
    ensures var run, run' := ScanFrom(file, capacity, nrecs, cb, offset, left, pr),
                             ScanFrom(file', capacity, nrecs', Later(cb, told), offset, left, pr');
            run.outcome == run'.outcome && After(run.progress, run'.progress, told, counted)
    decreases offset
  {
    if Wanted(nrecs, pr.recnum) && offset > 0 {
      TurnShift(file, file', capacity, nrecs, nrecs', cb, told, counted, offset, left, pr, pr');
      var turn := ScanTurn(file, capacity, nrecs, cb, offset, left, pr);
      var turn' := ScanTurn(file', capacity, nrecs', Later(cb, told), offset, left, pr');
      hide ScanTurn;
      if turn.Go? {
        assert file[..turn.offset] == file[..offset][..turn.offset] == file'[..turn.offset];
        ScanShift(file, file', capacity, nrecs, nrecs', cb, told, counted, turn.offset, turn.left, turn.progress, turn'.progress);
      }
    }
  }

  lemma TurnShift(file: seq<byte>, file': seq<byte>, capacity: nat, nrecs: int, nrecs': int, cb: Callback,
                  told: seq<Rec>, counted: nat, offset: nat, left: seq<byte>, pr: Progress, pr': Progress)
    requires offset <= |file| && offset <= |file'| && file[..offset] == file'[..offset] && |left| <= capacity
    requires After(pr, pr', told, counted) && StillWanted(nrecs, nrecs', counted)
    ensures var turn := ScanTurn(file, capacity, nrecs, cb, offset, left, pr);
            var turn' := ScanTurn(file', capacity, nrecs', Later(cb, told), offset, left, pr');
            && turn.Go? == turn'.Go?
            && (turn.Go? ==> turn'.offset == turn.offset && turn'.left == turn.left && After(turn.progress, turn'.progress, told, counted))
            && (turn.Halt? ==> turn.run.outcome == turn'.run.outcome && After(turn.run.progress, turn'.run.progress, told, counted))
  {
    var offset' := if offset + |left| < capacity then 0 else offset - (capacity - |left|);
    var p, p' := pr.(resumed := pr.resumed || pr.stopped), pr'.(resumed := pr'.resumed || pr'.stopped);
    SameSlice(file, file', offset', offset);
    var chunk := file[offset'..offset] + left;
    ParseShift(chunk, nrecs, nrecs', cb, told, counted, p, p');
    TurnParts(file, capacity, nrecs, cb, offset, left, pr, offset', chunk);
    TurnParts(file', capacity, nrecs', Later(cb, told), offset, left, pr', offset', chunk);
    hide ParseChunk, ScanTurn, Later, StillWanted;
  }

  lemma SameSlice(s: seq<byte>, t: seq<byte>, low: nat, high: nat)
    requires low <= high <= |s| && high <= |t| && s[..high] == t[..high]
    ensures s[low..high] == t[low..high]
  {
    assert s[low..high] == s[..high][low..] && t[low..high] == t[..high][low..];
  }

  lemma TurnParts(file: seq<byte>, capacity: nat, nrecs: int, cb: Callback, offset: nat, left: seq<byte>, pr: Progress,
                  offset': nat, chunk: seq<byte>)
    requires offset <= |file| && |left| <= capacity
    requires offset' == if offset + |left| < capacity then 0 else offset - (capacity - |left|)
    requires chunk == file[offset'..offset] + left
    ensures var turn, before := ScanTurn(file, capacity, nrecs, cb, offset, left, pr), pr.(resumed := pr.resumed || pr.stopped);
            var p := ParseChunk(chunk, nrecs, cb, before);
            && (offset' == offset ==> turn == Halt(Run(Stuck, before)))
            && (offset' != offset && p.Fault? ==> turn == Halt(Run(Malformed, p.progress)))
            && (offset' != offset && p.Parsed? ==>
                  turn.Go? && turn.offset == offset' && turn.left == p.left
                  && turn.progress == p.progress.(clean := p.progress.clean && 2 * |p.left| <= |chunk|))
  {
    hide ParseChunk;
  }

  // The turn that is told to stop

  /** Told these records one by one after calls, the callback refuses the last of them only. */
  ghost predicate RefusesLast(cb: Callback, calls: seq<Rec>, told: seq<Rec>) {
    (forall k :: 0 < k < |told| ==> cb(calls + told[..k])) && !cb(calls + told)
  }

  lemma RefusesLater(cb: Callback, calls: seq<Rec>, r: Rec, rest: seq<Rec>)
    requires RefusesLast(cb, calls, [r] + rest)
    ensures if rest == [] then !cb(calls + [r]) else cb(calls + [r]) && RefusesLast(cb, calls + [r], rest)
  {
    var told := [r] + rest;
    if rest == [] {
      assert told == [r];
    } else {
      assert told[..1] == [r];
      forall k | 0 < k < |rest| ensures cb(calls + [r] + rest[..k]) {
        assert calls + told[..k + 1] == calls + [r] + rest[..k];
      }
      assert calls + told == calls + [r] + rest;
    }
  }

  /** Told these records, all but the last counted, the callback said stop. */
  function Stopped(pr: Progress, told: seq<Rec>): Progress
    requires told != []
  {
    pr.(calls := pr.calls + told, recnum := pr.recnum + |told| - 1, stopped := true)
  }

  lemma StoppedLater(pr: Progress, r: Rec, rest: seq<Rec>)
    ensures if rest == [] then Stopped(pr, [r] + rest) == pr.(calls := pr.calls + [r], stopped := true)
            else Stopped(pr, [r] + rest) == Stopped(pr.(calls := pr.calls + [r], recnum := pr.recnum + 1), rest)
  {
    assert pr.calls + ([r] + rest) == pr.calls + [r] + rest;
  }

  /** The oldest of these images is refused and those before it are not: the parse ends there, with
      nothing left over, and the refused record is not counted. */
  lemma {:induction false} ParseToRefusal(lead: seq<byte>, images: seq<seq<byte>>, nrecs: int, cb: Callback, pr: Progress)
    requires Images(images) && images != [] && (nrecs == 0 || pr.recnum + |images| <= nrecs)
    requires RefusesLast(cb, pr.calls, Told(images))
    ensures ParseChunk(lead + Flatten(images), nrecs, cb, pr) == Parsed(Stopped(pr, Told(images)), [])
    decreases |images|
  {
    var image, init := images[|images| - 1], images[..|images| - 1];
    var before, rest := lead + Flatten(init), Told(init);
    Unstacked(lead, images);
    RefusesLater(cb, pr.calls, Decoded(image), rest);
    StoppedLater(pr, Decoded(image), rest);
    hide *;
    if init == [] {
      Refused(before, image, nrecs, cb, pr);
    } else {
      Wants(nrecs, pr.recnum + 1);
      Accepted(before, image, nrecs, cb, pr);
      ParseToRefusal(lead, init, nrecs, cb, pr.(calls := pr.calls + [Decoded(image)], recnum := pr.recnum + 1));
    }
  }

  lemma Wants(nrecs: int, recnum: nat)
    requires nrecs == 0 || recnum < nrecs
    ensures Wanted(nrecs, recnum)
  {
  }

  lemma Unstacked(lead: seq<byte>, images: seq<seq<byte>>)
    requires Images(images) && images != []
    ensures var image, init := images[|images| - 1], images[..|images| - 1];
            && IsImage(image) && Images(init)
            && lead + Flatten(images) == lead + Flatten(init) + image
            && Told(images) == [Decoded(image)] + Told(init)
  {
    hide IsImage, Decoded;
  }

  lemma Refused(before: seq<byte>, image: seq<byte>, nrecs: int, cb: Callback, pr: Progress)
    requires IsImage(image) && !cb(pr.calls + [Decoded(image)])
    ensures ParseChunk(before + image, nrecs, cb, pr) == Parsed(pr.(calls := pr.calls + [Decoded(image)], stopped := true), [])
  {
    ParseStep(before, image, nrecs, cb, pr);
    hide ParseChunk, IsImage, Decoded;
  }

  lemma Accepted(before: seq<byte>, image: seq<byte>, nrecs: int, cb: Callback, pr: Progress)
    requires IsImage(image) && cb(pr.calls + [Decoded(image)]) && Wanted(nrecs, pr.recnum + 1)
    ensures ParseChunk(before + image, nrecs, cb, pr)
         == ParseChunk(before, nrecs, cb, pr.(calls := pr.calls + [Decoded(image)], recnum := pr.recnum + 1))
  {
    ParseStep(before, image, nrecs, cb, pr);
    hide ParseChunk, IsImage, Decoded;
  }

  /** A stop in the newest chunk: the callback goes on to be called with whatever a scan of the file
      without that chunk would deliver to it, well-formed or not. */
  lemma StopGoesOn(before: seq<byte>, lead: seq<byte>, images: seq<seq<byte>>, capacity: nat, nrecs: int, cb: Callback)
    requires Images(images) && images != [] && |lead + Flatten(images)| == capacity
    requires nrecs == 0 || |images| <= nrecs
    requires RefusesLast(cb, [], Told(images))
    ensures var run := Scan(before + (lead + Flatten(images)), capacity, nrecs, cb);
            var rest := Scan(before, capacity, if nrecs == 0 then 0 else nrecs - (|images| - 1), Later(cb, Told(images)));
            run.outcome == rest.outcome && run.progress.calls == Told(images) + rest.progress.calls
  {
    hide *;
    ChunkNotEmpty(images);
    ParseStop(lead, images, nrecs, cb);
    GoesOn(before, lead + Flatten(images), capacity, nrecs, cb, Told(images), |images| - 1);
  }

  lemma ParseStop(lead: seq<byte>, images: seq<seq<byte>>, nrecs: int, cb: Callback)
    requires Images(images) && images != [] && (nrecs == 0 || |images| <= nrecs)
    requires RefusesLast(cb, [], Told(images))
    ensures ParseChunk(lead + Flatten(images), nrecs, cb, START)
         == Parsed(START.(calls := Told(images), recnum := |images| - 1, stopped := true), [])
  {
    hide ParseChunk, Flatten, Told, IsImage, Decoded, RefusesLast;
    ParseToRefusal(lead, images, nrecs, cb, START);
    assert START.calls + Told(images) == Told(images);
    assert Stopped(START, Told(images)) == START.(calls := Told(images), recnum := |images| - 1, stopped := true);
  }

  lemma GoesOn(before: seq<byte>, chunk: seq<byte>, capacity: nat, nrecs: int, cb: Callback, told: seq<Rec>, counted: nat)
    requires |chunk| == capacity > 0 && (nrecs == 0 || counted < nrecs)
    requires ParseChunk(chunk, nrecs, cb, START) == Parsed(START.(calls := told, recnum := counted, stopped := true), [])
    ensures var run := Scan(before + chunk, capacity, nrecs, cb);
            var rest := Scan(before, capacity, if nrecs == 0 then 0 else nrecs - counted, Later(cb, told));
            run.outcome == rest.outcome && run.progress.calls == told + rest.progress.calls
  {
    var pr := START.(calls := told, recnum := counted, stopped := true);
    StopTurn(before, chunk, capacity, nrecs, cb, pr);
    hide ParseChunk, ScanFrom, Later;
    assert (before + chunk)[..|before|] == before[..|before|];
    ScanShift(before + chunk, before, capacity, nrecs, if nrecs == 0 then 0 else nrecs - counted, cb, told, counted, |before|, [], pr, START);
  }

  lemma ChunkNotEmpty(images: seq<seq<byte>>)
    requires Images(images) && images != []
    ensures |Flatten(images)| > 0
  {
    assert IsImage(images[|images| - 1]);
  }

  lemma StopTurn(before: seq<byte>, chunk: seq<byte>, capacity: nat, nrecs: int, cb: Callback, pr: Progress)
    requires |chunk| == capacity > 0 && Wanted(nrecs, 0) && pr.clean
    requires ParseChunk(chunk, nrecs, cb, START) == Parsed(pr, [])
    ensures Scan(before + chunk, capacity, nrecs, cb) == ScanFrom(before + chunk, capacity, nrecs, cb, |before|, [], pr)
  {
    var file := before + chunk;
    hide ParseChunk, ScanTurn;
    assert file[|before|..|file|] + [] == chunk;
    assert START.(resumed := START.resumed || START.stopped) == START;
    TurnParts(file, capacity, nrecs, cb, |file|, [], START, |before|, chunk);
    assert ScanTurn(file, capacity, nrecs, cb, |file|, [], START) == Go(|before|, [], pr);
  }

  // What that comes to

  /** In a log longer than the buffer a callback that refuses the newest record goes on to be called with
      all that a scan of the bytes before the first chunk finds: the stop is obeyed exactly if that is
      nothing. */
  lemma StopAtNewest(images: seq<seq<byte>>, capacity: nat, nrecs: int, cb: Callback)
    requires Images(images) && images != [] && |images[|images| - 1]| <= capacity < |Flatten(images)|
    requires nrecs >= 0 && !cb([Decoded(images[|images| - 1])])
    ensures var file, newest := Flatten(images), Decoded(images[|images| - 1]);
            Scan(file, capacity, nrecs, cb).progress.calls
            == [newest] + Scan(file[..|file| - capacity], capacity, nrecs, Later(cb, [newest])).progress.calls
  {
    var file, image := Flatten(images), images[|images| - 1];
    var before, lead := file[..|file| - capacity], file[|file| - capacity..|file| - |image|];
    EndsInImage(images);
    LastBytes(file, image, capacity);
    hide *;
    StopAtOne(before, lead, image, capacity, nrecs, cb);
  }

  lemma LastBytes(file: seq<byte>, image: seq<byte>, capacity: nat)
    requires EndsWith(file, image) && |image| <= capacity <= |file|
    ensures var lead := file[|file| - capacity..|file| - |image|];
            |lead + image| == capacity && file == file[..|file| - capacity] + (lead + image)
  {
  }

  /** StopGoesOn for a stop at the newest record. */
  lemma StopAtOne(before: seq<byte>, lead: seq<byte>, image: seq<byte>, capacity: nat, nrecs: int, cb: Callback)
    requires IsImage(image) && |lead + image| == capacity && nrecs >= 0 && !cb([Decoded(image)])
    ensures var run, rest := Scan(before + (lead + image), capacity, nrecs, cb), Scan(before, capacity, nrecs, Later(cb, [Decoded(image)]));
            run.outcome == rest.outcome && run.progress.calls == [Decoded(image)] + rest.progress.calls
  {
    OneImage(image);
    FirstRefused(cb, Decoded(image));
    hide *;
    StopGoesOn(before, lead, [image], capacity, nrecs, cb);
  }

  lemma EndsInImage(images: seq<seq<byte>>)
    requires Images(images) && images != []
    ensures EndsWith(Flatten(images), images[|images| - 1])
  {
  }

  lemma FirstRefused(cb: Callback, r: Rec)
    requires !cb([r])
    ensures RefusesLast(cb, [], [r])
  {
    assert [] + [r] == [r];
  }

  lemma OneImage(image: seq<byte>)
    requires IsImage(image)
    ensures Images([image]) && Flatten([image]) == image && Told([image]) == [Decoded(image)]
  {
    hide IsImage, Decoded;
    assert [image][..0] == [];
    assert Flatten([]) + image == image;
    assert Told([]) == [];
  }

  /** The callback refuses whatever it is given. */
  ghost predicate Refuses(cb: Callback) {
    forall h :: !cb(h)
  }

  /** The file is cut into these chunks, each of which ends with its image; all but the first fill the
      buffer. */
  ghost predicate Chunked(chunks: seq<seq<byte>>, images: seq<seq<byte>>, capacity: nat) {
    && |chunks| == |images| && Images(images)
    && (forall i :: 0 <= i < |chunks| ==> EndsWith(chunks[i], images[i]) && |chunks[i]| <= capacity)
    && (forall i :: 1 <= i < |chunks| ==> |chunks[i]| == capacity)
  }

  /** Stopping every time, a callback is still called once for each chunk that ends with a record. */
  lemma {:induction false} OncePerChunk(chunks: seq<seq<byte>>, images: seq<seq<byte>>, capacity: nat, nrecs: int, cb: Callback)
    requires Chunked(chunks, images, capacity) && Refuses(cb) && nrecs >= 0
    ensures var run := Scan(Flatten(chunks), capacity, nrecs, cb);
            run.outcome == Finished && run.progress.calls == Told(images)
    decreases |chunks|
  {
    if chunks == [] {
      NothingToScan(capacity, nrecs, cb);
    } else {
      var n := |chunks| - 1;
      var chunk, image := chunks[n], images[n];
      var lead := chunk[..|chunk| - |image|];
      ChunkAndImage(chunks, images, capacity);
      RefusesStill(cb, [Decoded(image)]);
      assert !cb([Decoded(image)]);
      hide *;
      if n == 0 {
        LastChunk(lead, image, capacity, nrecs, cb);
      } else {
        StopAtOne(Flatten(chunks[..n]), lead, image, capacity, nrecs, cb);
        OncePerChunk(chunks[..n], images[..n], capacity, nrecs, Later(cb, [Decoded(image)]));
      }
    }
  }

  lemma NothingToScan(capacity: nat, nrecs: int, cb: Callback)
    ensures Flatten([]) == [] && Scan([], capacity, nrecs, cb) == Run(Finished, START) && START.calls == [] && Told([]) == []
  {
  }

  lemma ChunkAndImage(chunks: seq<seq<byte>>, images: seq<seq<byte>>, capacity: nat)
    requires Chunked(chunks, images, capacity) && chunks != []
    ensures var n := |chunks| - 1;
            var lead := chunks[n][..|chunks[n]| - |images[n]|];
            && Flatten(chunks) == Flatten(chunks[..n]) + (lead + images[n]) && IsImage(images[n])
            && Told(images) == [Decoded(images[n])] + Told(images[..n])
            && |lead + images[n]| <= capacity && (n > 0 ==> |lead + images[n]| == capacity)
            && Chunked(chunks[..n], images[..n], capacity)
            && (n == 0 ==> Flatten(chunks) == lead + images[n] && Told(images) == [Decoded(images[n])])
  {
    hide IsImage, Decoded;
    var n := |chunks| - 1;
    assert EndsWith(chunks[n], images[n]);
    assert chunks[n] == chunks[n][..|chunks[n]| - |images[n]|] + images[n];
    assert n == 0 ==> chunks[..n] == [] && images[..n] == [] && Flatten([]) == [] && Told([]) == [];
  }

  lemma RefusesStill(cb: Callback, told: seq<Rec>)
    requires Refuses(cb)
    ensures Refuses(Later(cb, told))
  {
  }

  /** The chunk that begins the file. */
  lemma LastChunk(lead: seq<byte>, image: seq<byte>, capacity: nat, nrecs: int, cb: Callback)
    requires IsImage(image) && |lead + image| <= capacity && nrecs >= 0 && !cb([Decoded(image)])
    ensures var run := Scan(lead + image, capacity, nrecs, cb);
            run.outcome == Finished && run.progress.calls == [Decoded(image)]
  {
    NotEmpty(image);
    assert START.calls + [Decoded(image)] == [Decoded(image)];
    Refused(lead, image, nrecs, cb, START);
    hide ParseChunk, Scan, IsImage, Decoded;
    ScanOneChunk(lead + image, capacity, nrecs, cb);
  }

  /** The first turn parses the end of the file. */
  lemma FirstTurnOf(file: seq<byte>, capacity: nat, nrecs: int, cb: Callback, offset: nat, chunk: seq<byte>)
    requires |file| > 0 && capacity > 0 && nrecs >= 0
    requires offset == (if |file| < capacity then 0 else |file| - capacity) && chunk == file[offset..]
    ensures var p, turn := ParseChunk(chunk, nrecs, cb, START), ScanTurn(file, capacity, nrecs, cb, |file|, [], START);
            && turn.Go? == p.Parsed?
            && (turn.Go? ==> turn.offset == offset && turn.left == p.left && turn.progress.calls == p.progress.calls)
            && (turn.Halt? ==> turn.run.progress.calls == p.progress.calls)
  {
    assert chunk == file[offset..|file|] + [];
    assert START.(resumed := START.resumed || START.stopped) == START;
    TurnParts(file, capacity, nrecs, cb, |file|, [], START, offset, chunk);
    hide ParseChunk, ScanTurn;
  }

  lemma ScanOneChunk(file: seq<byte>, capacity: nat, nrecs: int, cb: Callback)
    requires 0 < |file| <= capacity && nrecs >= 0 && ParseChunk(file, nrecs, cb, START).Parsed?
    ensures var run := Scan(file, capacity, nrecs, cb);
            run.outcome == Finished && run.progress.calls == ParseChunk(file, nrecs, cb, START).progress.calls
  {
    assert file[0..] == file;
    FirstTurnOf(file, capacity, nrecs, cb, 0, file);
    var turn := ScanTurn(file, capacity, nrecs, cb, |file|, [], START);
    hide ParseChunk, ScanTurn;
    assert ScanFrom(file, capacity, nrecs, cb, 0, turn.left, turn.progress) == Run(Finished, turn.progress);
  }

  /** When whole records lie before the first chunk, the next record the callback is given is the newest of
      them. */
  lemma CalledAgain(older: seq<seq<byte>>, lead: seq<byte>, image: seq<byte>, capacity: nat, nrecs: int, cb: Callback)
    requires Images(older) && older != [] && |older[|older| - 1]| <= capacity && nrecs >= 0
    requires IsImage(image) && |lead + image| == capacity && !cb([Decoded(image)])
    ensures var calls := Scan(Flatten(older) + (lead + image), capacity, nrecs, cb).progress.calls;
            |calls| >= 2 && calls[0] == Decoded(image) && calls[1] == Decoded(older[|older| - 1])
  {
    hide *;
    StopAtOne(Flatten(older), lead, image, capacity, nrecs, cb);
    NewestFirst(older, capacity, nrecs, Later(cb, [Decoded(image)]));
  }

  /** Whatever the callback says, the first record it is given is the newest. */
  lemma NewestFirst(images: seq<seq<byte>>, capacity: nat, nrecs: int, cb: Callback)
    requires Images(images) && images != [] && |images[|images| - 1]| <= capacity && nrecs >= 0
    ensures var calls := Scan(Flatten(images), capacity, nrecs, cb).progress.calls;
            |calls| >= 1 && calls[0] == Decoded(images[|images| - 1])
  {
    var file, image := Flatten(images), images[|images| - 1];
    var offset := if |file| < capacity then 0 else |file| - capacity;
    var chunk := file[offset..];
    ChunkNotEmpty(images);
    EndsInImage(images);
    NotEmpty(image);
    var lead := chunk[..|chunk| - |image|];
    assert chunk == lead + image;
    ParseNewest(lead, image, nrecs, cb);
    FirstTurnOf(file, capacity, nrecs, cb, offset, chunk);
    var turn := ScanTurn(file, capacity, nrecs, cb, |file|, [], START);
    hide ParseChunk, ScanTurn, IsImage, Decoded, Flatten;
    if turn.Go? {
      ScanGrows(file, capacity, nrecs, cb, turn.offset, turn.left, turn.progress);
    }
  }

  lemma NotEmpty(image: seq<byte>)
    requires IsImage(image)
    ensures |image| > 0
  {
  }

  lemma ParseNewest(lead: seq<byte>, image: seq<byte>, nrecs: int, cb: Callback)
    requires IsImage(image)
    ensures [Decoded(image)] <= ParseChunk(lead + image, nrecs, cb, START).progress.calls
  {
    assert START.calls + [Decoded(image)] == [Decoded(image)];
    ParseStep(lead, image, nrecs, cb, START);
    CallsGrow(lead, nrecs, cb, START.(calls := [Decoded(image)], recnum := 1));
    hide ParseChunk, IsImage, Decoded, Wanted;
  }

  lemma {:induction false} CallsGrow(chunk: seq<byte>, nrecs: int, cb: Callback, pr: Progress)
    ensures pr.calls <= ParseChunk(chunk, nrecs, cb, pr).progress.calls
    decreases |chunk|
  {
    hide Decodable, Unpacked, StoredLength;
    if Complete(chunk) {
      var cp := RecordStart(chunk);
      var body := chunk[cp..|chunk| - TRAILER];
      if |body| <= ALBUF_SIZE && Decodable(body) {
        CallsGrow(chunk[..cp], nrecs, cb, pr.(calls := pr.calls + [Unpacked(body)], recnum := pr.recnum + 1));
      }
    }
  }

  lemma {:induction false} ScanGrows(file: seq<byte>, capacity: nat, nrecs: int, cb: Callback,
                                     offset: nat, left: seq<byte>, pr: Progress)
    requires offset <= |file| && |left| <= capacity
    ensures pr.calls <= ScanFrom(file, capacity, nrecs, cb, offset, left, pr).progress.calls
    decreases offset
  {
    if Wanted(nrecs, pr.recnum) && offset > 0 {
      var offset' := if offset + |left| < capacity then 0 else offset - (capacity - |left|);
      var chunk := file[offset'..offset] + left;
      CallsGrow(chunk, nrecs, cb, pr.(resumed := pr.resumed || pr.stopped));
      TurnParts(file, capacity, nrecs, cb, offset, left, pr, offset', chunk);
      var turn := ScanTurn(file, capacity, nrecs, cb, offset, left, pr);
      hide ParseChunk, ScanTurn;
      if turn.Go? {
        ScanGrows(file, capacity, nrecs, cb, turn.offset, turn.left, turn.progress);
      }
    }
  }
}
