/** What the write-history log promises: after any run of appends and overlays the backward scan
    delivers the records newest first, each with its latest header fields and original strings. */
module WriteLogTheory {
  import opened Basics
  import opened WlogFormat
  import opened WriteLog

  // Well-formed files

  predicate IsImage(image: seq<byte>) {
    && Complete(image) && RecordStart(image) == 0
    && Decodable(Body(image))
    && |Body(image)| == HEADER_SIZE + HeaderOf(Body(image)).Strings()
  }

  function Body(image: seq<byte>): seq<byte>
    requires |image| >= TRAILER
  {
    image[..|image| - TRAILER]
  }

  /** The record an image holds. */
  function Decoded(image: seq<byte>): Rec
    requires IsImage(image)
  {
    Unpacked(Body(image))
  }

  ghost predicate Images(images: seq<seq<byte>>) {
    forall i :: 0 <= i < |images| ==> IsImage(images[i])
  }

  function Flatten(images: seq<seq<byte>>): seq<byte> {
    if images == [] then [] else Flatten(images[..|images| - 1]) + images[|images| - 1]
  }

  lemma FlattenPrefix(images: seq<seq<byte>>, k: nat)
    requires k <= |images|
    ensures Flatten(images[..k]) <= Flatten(images)
  {
    if k < |images| {
      FlattenPrefix(images[..|images| - 1], k);
      assert images[..|images| - 1][..k] == images[..k];
    } else {
      assert images[..k] == images;
    }
  }

  lemma {:induction false} FlattenUpdate(images: seq<seq<byte>>, k: nat, image: seq<byte>)
    requires k < |images| && |image| == |images[k]|
    ensures var at := |Flatten(images[..k])|;
            && at + |image| <= |Flatten(images)|
            && Flatten(images[k := image])
               == Flatten(images)[..at] + image + Flatten(images)[at + |image|..]
            && Flatten(images)[at..at + |image|] == images[k]
  {
    var n := |images| - 1;
    var before, last, at := Flatten(images[..n]), images[n], |Flatten(images[..k])|;
    assert images[k := image][..n] == if k == n then images[..n] else images[..n][k := image];
    assert Flatten(images) == before + last;
    if k < n {
      FlattenUpdate(images[..n], k, image);
      assert images[..n][..k] == images[..k];
      hide Flatten;
      ReplaceInFront(before, last, at, image);
    } else {
      hide Flatten;
      assert (before + last)[..at] == before && (before + last)[at..at + |image|] == last && (before + last)[at + |image|..] == [];
    }
  }

  lemma ReplaceInFront(s: seq<byte>, t: seq<byte>, at: nat, image: seq<byte>)
    requires at + |image| <= |s|
    ensures s[..at] + image + s[at + |image|..] + t == (s + t)[..at] + image + (s + t)[at + |image|..]
    ensures (s + t)[at..at + |image|] == s[at..at + |image|]
  {
  }

  // The abstract delivery

  /** Hands the newest remaining record to the callback until it says stop or enough were counted. */
  ghost function Deliver(images: seq<seq<byte>>, nrecs: int, cb: Callback, calls: seq<Rec>, recnum: nat): seq<Rec>
    requires Images(images)
  {
    if images == [] || !Wanted(nrecs, recnum) then
      calls
    else
      var calls' := calls + [Decoded(images[|images| - 1])];
      if cb(calls') then Deliver(images[..|images| - 1], nrecs, cb, calls', recnum + 1) else calls'
  }

  lemma ImageEndsChunk(before: seq<byte>, image: seq<byte>)
    requires IsImage(image)
    ensures var chunk := before + image;
            && Complete(chunk) && RecordStart(chunk) == |before|
            && chunk[..|before|] == before
            && var body := chunk[|before|..|chunk| - TRAILER];
               && Decodable(body) && |body| <= ALBUF_SIZE && Unpacked(body) == Decoded(image)
  {
    hide Unpacked, HeaderOf, HeaderInRange;
    assert HeaderInRange(HeaderOf(Body(image)));
    LongestBody(HeaderOf(Body(image)));
    var chunk := before + image;
    assert chunk[|before|..|chunk| - TRAILER] == Body(image);
    assert chunk[|chunk| - 2] == image[|image| - 2] && chunk[|chunk| - 1] == image[|image| - 1];
  }

  lemma LongestBody(h: Header)
    requires HeaderInRange(h) && h.hostlen <= HOST_BUFFER
    ensures HEADER_SIZE + h.Strings() <= 227
  {
  }

  lemma PartialImage(image: seq<byte>, chunk: seq<byte>)
    requires IsImage(image) && |chunk| < |image| && EndsWith(image, chunk)
    ensures !Complete(chunk)
  {
    hide HeaderOf, Decodable;
  }

  /** A parse that either ended the delivery, or left less than one record of the remaining ones,
      ending where they end; lead is how far before the chunk the file reaches. */
  ghost predicate Peeled(p: Parse, rest: seq<seq<byte>>, lead: int, target: seq<Rec>,
                         nrecs: int, cb: Callback, pr: Progress)
    requires Images(rest)
  {
    && p.Parsed? && p.progress.resumed == pr.resumed && p.progress.clean == pr.clean
    && (p.progress.stopped ==> exists h :: !cb(h))
    && if p.progress.stopped || !Wanted(nrecs, p.progress.recnum) then
         p.left == [] && target == p.progress.calls
       else
         && target == Deliver(rest, nrecs, cb, p.progress.calls, p.progress.recnum)
         && EndsWith(Flatten(rest), p.left) && |Flatten(rest)| - |p.left| == lead
         && if rest == [] then p.left == [] else |p.left| < |rest[|rest| - 1]|
  }

  predicate EndsWith(s: seq<byte>, tail: seq<byte>) {
    |tail| <= |s| && s[|s| - |tail|..] == tail
  }

  lemma SplitSuffix(before: seq<byte>, image: seq<byte>, chunk: seq<byte>)
    requires EndsWith(before + image, chunk)
    ensures if |chunk| < |image| then EndsWith(image, chunk)
            else EndsWith(before, chunk[..|chunk| - |image|]) && chunk == chunk[..|chunk| - |image|] + image
  {
  }

  /** One turn of the inner loop on a chunk that ends with a whole record. */
  lemma ParseStep(before: seq<byte>, image: seq<byte>, nrecs: int, cb: Callback, pr: Progress)
    requires IsImage(image)
    ensures var pr' := pr.(calls := pr.calls + [Decoded(image)]);
            ParseChunk(before + image, nrecs, cb, pr)
            == if !cb(pr'.calls) then Parsed(pr'.(stopped := true), [])
               else if !Wanted(nrecs, pr.recnum + 1) then Parsed(pr'.(recnum := pr.recnum + 1), [])
               else ParseChunk(before, nrecs, cb, pr'.(recnum := pr.recnum + 1))
  {
    hide IsImage, Decodable, Unpacked, Complete, RecordStart, Decoded;
    ImageEndsChunk(before, image);
  }

  ghost predicate PeelsAll(images: seq<seq<byte>>, rest: seq<seq<byte>>, chunk: seq<byte>,
                           nrecs: int, cb: Callback, pr: Progress)
    requires Images(images) && Images(rest)
  {
    Peeled(ParseChunk(chunk, nrecs, cb, pr), rest, |Flatten(images)| - |chunk|,
           Deliver(images, nrecs, cb, pr.calls, pr.recnum), nrecs, cb, pr)
  }

  lemma PeelNothing(images: seq<seq<byte>>, chunk: seq<byte>, nrecs: int, cb: Callback, pr: Progress)
    requires Images(images) && Wanted(nrecs, pr.recnum) && !pr.stopped
    requires EndsWith(Flatten(images), chunk)
    requires images == [] || |chunk| < |images[|images| - 1]|
    ensures PeelsAll(images, images, chunk, nrecs, cb, pr)
  {
    if images != [] {
      hide IsImage, Deliver;
      var image, init := images[|images| - 1], images[..|images| - 1];
      SplitSuffix(Flatten(init), image, chunk);
      PartialImage(image, chunk);
    }
  }

  lemma PeelLast(images: seq<seq<byte>>, before: seq<byte>, nrecs: int, cb: Callback, pr: Progress)
    requires Images(images) && Wanted(nrecs, pr.recnum) && !pr.stopped && images != []
    requires !cb(pr.calls + [Decoded(images[|images| - 1])]) || !Wanted(nrecs, pr.recnum + 1)
    ensures PeelsAll(images, images, before + images[|images| - 1], nrecs, cb, pr)
  {
    var image := images[|images| - 1];
    ParseStep(before, image, nrecs, cb, pr);
    DeliverLast(images, nrecs, cb, pr.calls, pr.recnum);
    hide ParseChunk, IsImage, Decoded, EndsWith, Deliver;
  }

  lemma DeliverLast(images: seq<seq<byte>>, nrecs: int, cb: Callback, calls: seq<Rec>, recnum: nat)
    requires Images(images) && images != [] && Wanted(nrecs, recnum)
    requires !cb(calls + [Decoded(images[|images| - 1])]) || !Wanted(nrecs, recnum + 1)
    ensures Deliver(images, nrecs, cb, calls, recnum) == calls + [Decoded(images[|images| - 1])]
  {
    hide IsImage, Decoded;
    var calls' := calls + [Decoded(images[|images| - 1])];
    if cb(calls') {
      assert Deliver(images[..|images| - 1], nrecs, cb, calls', recnum + 1) == calls';
    }
  }

  lemma PeelMore(images: seq<seq<byte>>, rest: seq<seq<byte>>, before: seq<byte>, nrecs: int, cb: Callback, pr: Progress)
    requires Images(images) && Images(rest) && Wanted(nrecs, pr.recnum) && images != []
    requires cb(pr.calls + [Decoded(images[|images| - 1])]) && Wanted(nrecs, pr.recnum + 1)
    requires var pr' := pr.(calls := pr.calls + [Decoded(images[|images| - 1])], recnum := pr.recnum + 1);
             PeelsAll(images[..|images| - 1], rest, before, nrecs, cb, pr')
    ensures PeelsAll(images, rest, before + images[|images| - 1], nrecs, cb, pr)
  {
    hide ParseChunk, IsImage, Decoded, Deliver, EndsWith;
    var image, init := images[|images| - 1], images[..|images| - 1];
    ParseStep(before, image, nrecs, cb, pr);
    DeliverStep(images, nrecs, cb, pr.calls, pr.recnum);
    var pr' := pr.(calls := pr.calls + [Decoded(image)], recnum := pr.recnum + 1);
    PeeledFrom(ParseChunk(before, nrecs, cb, pr'), rest, |Flatten(init)| - |before|,
               Deliver(images, nrecs, cb, pr.calls, pr.recnum), nrecs, cb, pr', pr);
  }

  lemma DeliverStep(images: seq<seq<byte>>, nrecs: int, cb: Callback, calls: seq<Rec>, recnum: nat)
    requires Images(images) && images != [] && Wanted(nrecs, recnum) && cb(calls + [Decoded(images[|images| - 1])])
    ensures Deliver(images, nrecs, cb, calls, recnum)
         == Deliver(images[..|images| - 1], nrecs, cb, calls + [Decoded(images[|images| - 1])], recnum + 1)
  {
  }

  lemma PeeledFrom(p: Parse, rest: seq<seq<byte>>, lead: int, target: seq<Rec>,
                   nrecs: int, cb: Callback, pr: Progress, pr': Progress)
    requires Images(rest) && Peeled(p, rest, lead, target, nrecs, cb, pr)
    requires pr.resumed == pr'.resumed && pr.clean == pr'.clean
    ensures Peeled(p, rest, lead, target, nrecs, cb, pr')
  {
  }

  /** Parsing a chunk that ends a well-formed log peels whole records and leaves less than one. */
  lemma {:induction false} ParseSuffix(images: seq<seq<byte>>, chunk: seq<byte>, nrecs: int, cb: Callback, pr: Progress)
    returns (rest: seq<seq<byte>>)
    requires Images(images) && Wanted(nrecs, pr.recnum) && !pr.stopped
    requires EndsWith(Flatten(images), chunk)
    ensures rest <= images && PeelsAll(images, rest, chunk, nrecs, cb, pr)
    decreases |images|
  {
    hide IsImage, Decoded, EndsWith, PeelsAll, ParseChunk, Deliver;
    rest := images;
    if images == [] || |chunk| < |images[|images| - 1]| {
      PeelNothing(images, chunk, nrecs, cb, pr);
    } else {
      var image, init := images[|images| - 1], images[..|images| - 1];
      SplitSuffix(Flatten(init), image, chunk);
      var before := chunk[..|chunk| - |image|];
      var pr' := pr.(calls := pr.calls + [Decoded(image)], recnum := pr.recnum + 1);
      if cb(pr'.calls) && Wanted(nrecs, pr'.recnum) {
        rest := ParseSuffix(init, before, nrecs, cb, pr');
        PeelMore(images, rest, before, nrecs, cb, pr);
      } else {
        PeelLast(images, before, nrecs, cb, pr);
      }
    }
  }

  // The scan over the whole file

  ghost predicate Quiet(cb: Callback) {
    forall h :: cb(h)
  }

  ghost predicate AtMost(images: seq<seq<byte>>, longest: nat) {
    forall i :: 0 <= i < |images| ==> |images[i]| <= longest
  }

  /** Where the outer loop stands on a well-formed file: the bytes still to be parsed are the images,
      and the leftover, which lies in the file behind offset, is less than the last of them. */
  ghost predicate Resting(images: seq<seq<byte>>, file: seq<byte>, offset: nat, left: seq<byte>)
    requires offset <= |file|
  {
    && Images(images) && Flatten(images) == file[..offset] + left
    && offset + |left| <= |file| && left == file[offset..offset + |left|]
    && if images == [] then left == [] else |left| < |images[|images| - 1]|
  }

  lemma AppendedSuffix(file: seq<byte>, low: nat, high: nat, left: seq<byte>)
    requires low <= high <= |file|
    ensures EndsWith(file[..high] + left, file[low..high] + left)
  {
  }

  lemma SamePrefix(whole: seq<byte>, part: seq<byte>, file: seq<byte>, lead: nat, high: nat, left: seq<byte>, left': seq<byte>)
    requires lead <= high <= |file| && whole == file[..high] + left
    requires part <= whole && EndsWith(part, left') && |part| - |left'| == lead
    ensures part == file[..lead] + left'
  {
    assert part[..lead] == whole[..lead] == file[..lead];
    assert part == part[..lead] + part[lead..];
  }

  /** A leftover that ends a prefix of the file is the file's own bytes. */
  lemma LeftoverInFile(whole: seq<byte>, part: seq<byte>, file: seq<byte>, lead: nat, high: nat, left: seq<byte>, left': seq<byte>)
    requires lead <= high && high + |left| <= |file| && whole == file[..high] + left && left == file[high..high + |left|]
    requires part <= whole && part == file[..lead] + left'
    ensures lead + |left'| <= |file| && left' == file[lead..lead + |left'|]
  {
    assert whole == file[..high + |left|];
    assert part == file[..lead + |left'|];
    assert left' == part[lead..];
  }

  lemma PrefixFlattens(rest: seq<seq<byte>>, images: seq<seq<byte>>)
    requires rest <= images
    ensures Flatten(rest) <= Flatten(images)
  {
    FlattenPrefix(images, |rest|);
    assert images[..|rest|] == rest;
  }

  /** The sizes for which no leftover can fill more than half the buffer: room for two records, or for
      so little that whatever is peeled off takes half of it. */
  predicate Roomy(longest: nat, capacity: nat) {
    2 * (longest - 1) <= capacity || capacity <= 2 * SHORTEST
  }

  const SHORTEST := HEADER_SIZE + TRAILER

  ghost predicate TurnEnds(turn: Turn, images: seq<seq<byte>>, rest: seq<seq<byte>>, file: seq<byte>,
                           nrecs: int, cb: Callback, pr: Progress, tight: bool)
    requires Images(images) && Images(rest)
  {
    && turn.Go? && turn.offset <= |file| && turn.progress.resumed == pr.resumed
    && (pr.clean && tight ==> turn.progress.clean)
    && (turn.progress.stopped ==> exists h :: !cb(h))
    && var target := Deliver(images, nrecs, cb, pr.calls, pr.recnum);
       if turn.progress.stopped || !Wanted(nrecs, turn.progress.recnum) then
         target == turn.progress.calls
       else
         && Resting(rest, file, turn.offset, turn.left)
         && target == Deliver(rest, nrecs, cb, turn.progress.calls, turn.progress.recnum)
  }

  /** One turn of the outer loop on a well-formed file keeps the delivery still to come. */
  lemma TurnKeeps(images: seq<seq<byte>>, file: seq<byte>, capacity: nat, nrecs: int, cb: Callback,
                  offset: nat, left: seq<byte>, pr: Progress, longest: nat)
    returns (rest: seq<seq<byte>>)
    requires 0 < offset <= |file| && Resting(images, file, offset, left) && AtMost(images, longest)
    requires longest <= capacity && |left| <= capacity
    requires Wanted(nrecs, pr.recnum) && !pr.stopped
    ensures rest <= images
    ensures TurnEnds(ScanTurn(file, capacity, nrecs, cb, offset, left, pr), images, rest, file, nrecs, cb, pr,
                     Roomy(longest, capacity))
    ensures ScanTurn(file, capacity, nrecs, cb, offset, left, pr).offset
         == if offset + |left| < capacity then 0 else offset - (capacity - |left|)
  {
    hide ParseChunk, IsImage, EndsWith, Deliver;
    var offset' := if offset + |left| < capacity then 0 else offset - (capacity - |left|);
    var chunk := file[offset'..offset] + left;
    AppendedSuffix(file, offset', offset, left);
    rest := ParseSuffix(images, chunk, nrecs, cb, pr);
    PrefixFlattens(rest, images);
    var p := ParseChunk(chunk, nrecs, cb, pr);
    assert pr.(resumed := pr.resumed || pr.stopped) == pr;
    if !p.progress.stopped && Wanted(nrecs, p.progress.recnum) {
      SamePrefix(Flatten(images), Flatten(rest), file, offset', offset, left, p.left);
      LeftoverInFile(Flatten(images), Flatten(rest), file, offset', offset, left, p.left);
      if images != [] && |images[|images| - 1]| <= |chunk| {
        PeeledRoom(images, rest, |chunk|, |p.left|);
      }
    }
  }

  /** A chunk that holds the newest record is left with at least that record less. */
  lemma PeeledRoom(images: seq<seq<byte>>, rest: seq<seq<byte>>, chunk: nat, left: nat)
    requires Images(images) && rest <= images && images != []
    requires |Flatten(rest)| - left == |Flatten(images)| - chunk
    requires |images[|images| - 1]| <= chunk && (if rest == [] then left == 0 else left < |rest[|rest| - 1]|)
    ensures left + SHORTEST <= chunk
  {
    var n := |images| - 1;
    assert IsImage(images[n]);
    assert rest != images;
    FlattenPrefix(images[..n], |rest|);
    assert images[..n][..|rest|] == rest;
    hide IsImage;
  }

  lemma RestingAtStart(images: seq<seq<byte>>, file: seq<byte>, left: seq<byte>)
    requires Resting(images, file, 0, left)
    ensures images == []
  {
    if images != [] {
      FlattenLast(images);
    }
  }

  lemma FlattenLast(images: seq<seq<byte>>)
    requires images != []
    ensures |Flatten(images)| >= |images[|images| - 1]|
  {
  }

  /** The chunked scan of a well-formed file delivers what a one-shot backward parse would, for every
      buffer that holds the longest record; a stop is obeyed when the rest of the file fits the
      buffer, and no leftover copy overlaps itself when the buffer is roomy. */
  lemma {:induction false} ScanDelivers(images: seq<seq<byte>>, file: seq<byte>, capacity: nat, nrecs: int, cb: Callback,
                                        offset: nat, left: seq<byte>, pr: Progress, longest: nat)
    requires offset <= |file| && Resting(images, file, offset, left) && AtMost(images, longest)
    requires longest <= capacity && |left| <= capacity && !pr.stopped
    requires Quiet(cb) || offset + |left| <= capacity
    ensures var run := ScanFrom(file, capacity, nrecs, cb, offset, left, pr);
            && run.outcome == Finished
            && run.progress.calls == Deliver(images, nrecs, cb, pr.calls, pr.recnum)
            && run.progress.resumed == pr.resumed
            && (pr.clean && Roomy(longest, capacity) ==> run.progress.clean)
    decreases offset
  {
    if offset == 0 {
      RestingAtStart(images, file, left);
    } else if Wanted(nrecs, pr.recnum) {
      hide IsImage, Deliver;
      var rest := TurnKeeps(images, file, capacity, nrecs, cb, offset, left, pr, longest);
      var turn := ScanTurn(file, capacity, nrecs, cb, offset, left, pr);
      hide ScanTurn;
      if !turn.progress.stopped && Wanted(nrecs, turn.progress.recnum) {
        ScanDelivers(rest, file, capacity, nrecs, cb, turn.offset, turn.left, turn.progress, longest);
      }
    }
  }

  lemma {:induction false} ParseKeepsResumed(chunk: seq<byte>, nrecs: int, cb: Callback, pr: Progress)
    ensures ParseChunk(chunk, nrecs, cb, pr).progress.resumed == pr.resumed
    decreases |chunk|
  {
    hide Decodable, Unpacked, StoredLength;
    if Complete(chunk) {
      var cp := RecordStart(chunk);
      var body := chunk[cp..|chunk| - TRAILER];
      if |body| <= ALBUF_SIZE && Decodable(body) {
        var calls := pr.calls + [Unpacked(body)];
        ParseKeepsResumed(chunk[..cp], nrecs, cb, pr.(calls := calls, recnum := pr.recnum + 1));
      }
    }
  }

  lemma {:induction false} ResumedStays(file: seq<byte>, capacity: nat, nrecs: int, cb: Callback,
                                        offset: nat, left: seq<byte>, pr: Progress)
    requires offset <= |file| && |left| <= capacity
    requires pr.resumed || (pr.stopped && offset > 0 && Wanted(nrecs, pr.recnum))
    ensures ScanFrom(file, capacity, nrecs, cb, offset, left, pr).progress.resumed
    decreases offset
  {
    if Wanted(nrecs, pr.recnum) && offset > 0 {
      hide ParseChunk;
      var offset' := if offset + |left| < capacity then 0 else offset - (capacity - |left|);
      ParseKeepsResumed(file[offset'..offset] + left, nrecs, cb, pr.(resumed := true));
      var turn := ScanTurn(file, capacity, nrecs, cb, offset, left, pr);
      if turn.Go? {
        assert turn.progress.resumed;
        ResumedStays(file, capacity, nrecs, cb, turn.offset, turn.left, turn.progress);
      }
    }
  }

  /** A stop at the newest record of a file longer than the buffer does not end the reading. */
  lemma StopIsMissed(images: seq<seq<byte>>, capacity: nat, nrecs: int, cb: Callback)
    requires Images(images) && images != [] && AtMost(images, capacity)
    requires capacity < |Flatten(images)| && nrecs >= 0 && !cb([Decoded(images[|images| - 1])])
    ensures Scan(Flatten(images), capacity, nrecs, cb).progress.resumed
  {
    hide ParseChunk, IsImage, Decoded;
    var file, image := Flatten(images), images[|images| - 1];
    var chunk := file[|file| - capacity..];
    SplitSuffix(Flatten(images[..|images| - 1]), image, chunk);
    ParseStep(chunk[..capacity - |image|], image, nrecs, cb, START);
    assert file[|file| - capacity..|file|] + [] == chunk;
    assert [] + [Decoded(image)] == [Decoded(image)];
    var turn := ScanTurn(file, capacity, nrecs, cb, |file|, [], START);
    assert START.(resumed := START.resumed || START.stopped) == START;
    assert turn.Go? && turn.progress.stopped && turn.offset == |file| - capacity;
    ResumedStays(file, capacity, nrecs, cb, turn.offset, turn.left, turn.progress);
  }

  /** WLOG_STOP_SCAN ends the scan, whatever the callback, exactly when the file fits the buffer. */
  lemma StopObeyedIff(images: seq<seq<byte>>, capacity: nat, nrecs: int)
    requires Images(images) && images != [] && AtMost(images, capacity) && nrecs >= 0
    ensures (forall cb: Callback :: !Scan(Flatten(images), capacity, nrecs, cb).progress.resumed)
            <==> |Flatten(images)| <= capacity
  {
    var file := Flatten(images);
    hide IsImage, Decoded, ScanFrom;
    if |file| <= capacity {
      forall cb: Callback ensures !Scan(file, capacity, nrecs, cb).progress.resumed {
        assert file == file[..|file|] + [];
        WholeFileRests(images);
        ScanDelivers(images, file, capacity, nrecs, cb, |file|, [], START, capacity);
      }
    } else {
      var cb: Callback := h => false;
      StopIsMissed(images, capacity, nrecs, cb);
    }
  }

  lemma WholeFileRests(images: seq<seq<byte>>)
    requires Images(images)
    ensures Resting(images, Flatten(images), |Flatten(images)|, [])
  {
    var file := Flatten(images);
    assert file == file[..|file|] + [];
    if images != [] {
      assert IsImage(images[|images| - 1]);
    }
  }

  /** Holding the longest record is not enough to keep the leftover copy from overlapping itself: with
      two records and a buffer that holds either but not both, it is clean exactly when what is left of
      the older one fills no more than half the buffer. */
  lemma LeftoverOverlapIff(older: seq<byte>, newer: seq<byte>, capacity: nat, cb: Callback)
    requires IsImage(older) && IsImage(newer) && Quiet(cb)
    requires |older| <= capacity && |newer| <= capacity < |older| + |newer|
    ensures Scan(older + newer, capacity, 0, cb).progress.clean <==> 2 * (capacity - |newer|) <= capacity
  {
    hide IsImage, Decoded, ParseChunk, EndsWith;
    var file, left := older + newer, older[|older| + |newer| - capacity..];
    var pr := START.(calls := [Decoded(newer)], recnum := 1, clean := 2 * |left| <= capacity);
    FirstTurn(older, newer, capacity, cb);
    assert file[..|file| - capacity] + left == older;
    LastTurn(file, older, capacity, cb, |file| - capacity, left, pr);
    hide ScanTurn;
    assert ScanFrom(file, capacity, 0, cb, |file|, [], START)
        == ScanFrom(file, capacity, 0, cb, |file| - capacity, left, pr);
    var turn := ScanTurn(file, capacity, 0, cb, |file| - capacity, left, pr);
    assert ScanFrom(file, capacity, 0, cb, |file| - capacity, left, pr)
        == ScanFrom(file, capacity, 0, cb, 0, turn.left, turn.progress);
  }

  lemma FirstTurn(older: seq<byte>, newer: seq<byte>, capacity: nat, cb: Callback)
    requires IsImage(older) && IsImage(newer) && Quiet(cb)
    requires |older| <= capacity && |newer| <= capacity < |older| + |newer|
    ensures var file, left := older + newer, older[|older| + |newer| - capacity..];
            ScanTurn(file, capacity, 0, cb, |file|, [], START)
            == Go(|file| - capacity, left, START.(calls := [Decoded(newer)], recnum := 1, clean := 2 * |left| <= capacity))
  {
    hide IsImage, Decoded, EndsWith, ParseChunk;
    var file, left := older + newer, older[|older| + |newer| - capacity..];
    assert file[|file| - capacity..|file|] + [] == left + newer;
    ParseStep(left, newer, 0, cb, START);
    assert EndsWith(older, left) by { ShortSuffix(older, |left|); }
    PartialImage(older, left);
    TooShortToParse(left, 0, cb, START.(calls := START.calls + [Decoded(newer)], recnum := 1));
    assert START.(resumed := START.resumed || START.stopped) == START;
    assert START.calls + [Decoded(newer)] == [Decoded(newer)];
  }

  lemma ShortSuffix(s: seq<byte>, n: nat)
    requires n <= |s|
    ensures EndsWith(s, s[|s| - n..])
  {
  }

  /** The turn that reaches the start of the file with one whole record leaves nothing over. */
  lemma LastTurn(file: seq<byte>, image: seq<byte>, capacity: nat, cb: Callback, offset: nat, left: seq<byte>, pr: Progress)
    requires IsImage(image) && Quiet(cb) && |image| <= capacity
    requires 0 < offset <= |file| && |left| <= capacity && file[..offset] + left == image
    ensures var t := ScanTurn(file, capacity, 0, cb, offset, left, pr);
            t.Go? && t.offset == 0 && t.progress.clean == pr.clean
  {
    hide IsImage, Decoded, ParseChunk, EndsWith;
    assert file[0..offset] + left == image;
    assert [] + image == image;
    var pr' := pr.(resumed := pr.resumed || pr.stopped);
    ParseStep([], image, 0, cb, pr');
    TooShortToParse([], 0, cb, pr'.(calls := pr'.calls + [Decoded(image)], recnum := pr'.recnum + 1));
  }

  lemma TooShortToParse(chunk: seq<byte>, nrecs: int, cb: Callback, pr: Progress)
    requires !Complete(chunk)
    ensures ParseChunk(chunk, nrecs, cb, pr) == Parsed(pr, chunk)
  {
  }
}
