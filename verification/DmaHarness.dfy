/** The code behind a DMA test case: the size list and its buffers, the payload check, and the
    callback that counts jobs and laps (kernel/testcases/dma/kernel_space/dma_test_lib.c and
    dma_test_module.c). */
module DmaHarness {
  import opened Basics
  import opened Arithmetic
  import opened DmaTest

  const U32_MAX := 0xFFFF_FFFF
  const END_OF_LIST := -1

  /** ALIGN(x, a) on unsigned 32-bit numbers, for a power of two a. */
  function Align(x: nat, a: nat): (r: nat)
    requires a > 0
    ensures r <= U32_MAX
  {
    RoundDown((x + a - 1) % TWO_32, a)
  }

  /** Clearing the low bits: the last multiple of a up to v. */
  function RoundDown(v: nat, a: nat): (r: nat)
    requires a > 0
    ensures r <= v
  {
    QuotientIsNat(v, a);
    DivMod(v, a);
    Scale(0, v / a, a);
    v / a * a
  }

  lemma RoundDownIs(v: nat, a: nat)
    requires a > 0
    ensures RoundDown(v, a) % a == 0 && v < RoundDown(v, a) + a
  {
    QuotientIsNat(v, a);
    DivMod(v, a);
    MultipleOf(v / a, a);
  }

  lemma QuotientIsNat(v: nat, a: nat)
    requires a > 0
    ensures v / a >= 0
  {
  }

  /** The random size before alignment, which wraps around like any u32. */
  function Draw(r: nat, min: nat, max: nat): nat
    requires 0 < max - min <= U32_MAX
  {
    DivPositive(U32_MAX, max - min);
    (r / (U32_MAX / (max - min)) + min) % TWO_32
  }

  lemma DivPositive(m: nat, d: nat)
    requires 0 < d <= m
    ensures m / d >= 1
  {
  }

  lemma QuotientBound(r: nat, q: nat, d: nat)
    requires q > 0
    ensures r / q <= d <==> r < q * (d + 1)
  {
    DivMod(r, q);
    Scale(r / q, d, q);
    Scale(d + 1, r / q, q);
    Distribute(d, 1, q);
  }

  /** Dividing all 32-bit numbers into max - min steps leaves less over than a step. */
  predicate EvenRange(min: nat, max: nat) {
    0 < max - min <= U32_MAX && (DivPositive(U32_MAX, max - min); U32_MAX % (max - min) < U32_MAX / (max - min))
  }

  /** dmatest_sizelist_randomize draws every size between min and max exactly for these ranges; every
      range up to 65535 wide is one of them. */
  lemma DrawWithinIff(min: nat, max: nat)
    requires min < max <= U32_MAX
    ensures (forall r: nat :: r <= U32_MAX ==> min <= Draw(r, min, max) <= max) <==> EvenRange(min, max)
    ensures max - min <= 65535 ==> EvenRange(min, max)
  {
    hide Draw, EvenRange;
    if EvenRange(min, max) {
      forall r: nat | r <= U32_MAX ensures min <= Draw(r, min, max) <= max {
        NoOvershoot(r, min, max);
      }
    } else {
      var r := Overshoot(min, max);
    }
    NarrowIsEven(min, max);
  }

  /** A range is even when the quotient by the step never exceeds its width. */
  lemma EvenMeans(d: nat, q: int)
    requires 0 < d <= U32_MAX && q == U32_MAX / d
    ensures q > 0 && (U32_MAX % d < q <==> U32_MAX < q * (d + 1))
  {
    DivPositive(U32_MAX, d);
    DivMod(U32_MAX, d);
    Distribute(d, 1, q);
  }

  lemma NarrowIsEven(min: nat, max: nat)
    requires min < max <= U32_MAX
    ensures max - min <= 65535 ==> EvenRange(min, max)
  {
    DivMod(U32_MAX, max - min);
    QuotientBound(U32_MAX, max - min, 65536);
  }

  lemma NoOvershoot(r: nat, min: nat, max: nat)
    requires min < max <= U32_MAX && EvenRange(min, max) && r <= U32_MAX
    ensures min <= Draw(r, min, max) <= max
  {
    var d, q := max - min, U32_MAX / (max - min);
    EvenMeans(d, q);
    QuotientBound(r, q, d);
    QuotientIsNat(r, q);
  }

  /** In any other range some draw is one too large, or wraps around to 0. */
  lemma Overshoot(min: nat, max: nat) returns (r: nat)
    requires min < max <= U32_MAX && !EvenRange(min, max)
    ensures r <= U32_MAX && !(min <= Draw(r, min, max) <= max)
  {
    var d, q := max - min, U32_MAX / (max - min);
    EvenMeans(d, q);
    Scale(0, d + 1, q);
    r := q * (d + 1);
    ExactQuotient(q, d + 1);
    WidestIsEven(min, max);
  }

  lemma ExactQuotient(q: nat, k: nat)
    requires q > 0
    ensures q * k / q == k
  {
    assert q * k == k * q;
    Remainder(k * q, q, k, 0);
  }

  lemma WidestIsEven(min: nat, max: nat)
    requires min < max <= U32_MAX && !EvenRange(min, max)
    ensures max == U32_MAX ==> min > 0
  {
  }

  /** What the largest 32-bit number draws. */
  function LargestDraw(min: nat, max: nat): nat
    requires 0 < max - min <= U32_MAX
  {
    DivPositive(U32_MAX, max - min);
    QuotientIsNat(U32_MAX, U32_MAX / (max - min));
    min + U32_MAX / (U32_MAX / (max - min))
  }

  /** The BUG_ON of dmatest_sizelist_randomize is silent for every draw exactly when it is for the
      largest, if nothing wraps around. */
  lemma BugNeverFiresIff(min: nat, max: nat, align: nat)
    requires min < max && align > 0 && max + align <= TWO_32 && LargestDraw(min, max) + align <= TWO_32
    ensures (forall r: nat :: r <= U32_MAX ==> Align(Draw(r, min, max), align) <= Align(max, align))
            <==> Align(LargestDraw(min, max), align) <= Align(max, align)
  {
    DivPositive(U32_MAX, max - min);
    var q, top := U32_MAX / (max - min), LargestDraw(min, max);
    forall r: nat | r <= U32_MAX ensures Draw(r, min, max) == min + r / q <= top {
      Quotients(r, U32_MAX, q);
      NoWrap(min + r / q);
    }
    hide Align, Draw;
    if Align(top, align) <= Align(max, align) {
      forall r: nat | r <= U32_MAX ensures Align(Draw(r, min, max), align) <= Align(max, align) {
        AlignMonotone(Draw(r, min, max), top, align);
      }
    }
  }

  lemma Quotients(a: nat, b: nat, q: nat)
    requires a <= b && q > 0
    ensures 0 <= a / q <= b / q
  {
    DivMod(a, q);
    DivMod(b, q);
    Scale(b / q, a / q, q);
    QuotientIsNat(a, q);
  }

  /** On an even range the draw is min plus the number of whole steps in the random number. */
  lemma DrawMeans(r: nat, min: nat, max: nat)
    requires min < max <= U32_MAX && EvenRange(min, max) && r <= U32_MAX
    ensures var v, q := Draw(r, min, max), U32_MAX / (max - min);
            min <= v <= max && (v - min) * q <= r < (v - min + 1) * q
  {
    NoOvershoot(r, min, max);
    var q := U32_MAX / (max - min);
    EvenMeans(max - min, q);
    DrawIs(r, min, max, q);
    DivMod(r, q);
    Distribute(r / q, 1, q);
    hide Draw;
  }

  lemma DrawIs(r: nat, min: nat, max: nat, q: nat)
    requires min < max <= U32_MAX && EvenRange(min, max) && r <= U32_MAX && q == U32_MAX / (max - min) > 0
    ensures Draw(r, min, max) == min + r / q
  {
    EvenMeans(max - min, q);
    QuotientBound(r, q, max - min);
    QuotientIsNat(r, q);
    NoWrap(min + r / q);
  }

  /** Aligned without wrapping around, a size is the least multiple that is not smaller. */
  lemma AlignIsLeast(x: nat, a: nat)
    requires a > 0 && x + a <= TWO_32
    ensures x <= Align(x, a) < x + a && Align(x, a) % a == 0
  {
    AlignIs(x, a);
    RoundDownIs(x + a - 1, a);
    hide *;
  }

  /** A transfer that leaves the fresh target untouched is noticed unless it has no bytes, or is the single
      byte of a buffer whose pattern begins with 0xAA. */
  lemma UntouchedNoticedIff(index: nat, size: nat, endPadding: nat, src: seq<byte>, dst: seq<byte>)
    requires IsAllocated(index, size, endPadding, src, dst)
    ensures src[..size] == dst[..size] <==> size == 0 || (size == 1 && index % 256 == 170)
  {
    if size >= 2 {
      assert src[..size][0] == index % 256 && src[..size][1] == (1 + index) % 256;
      assert dst[..size][0] == 170 && dst[..size][1] == 170;
    } else if size == 1 {
      assert src[..size] == [src[0]] && dst[..size] == [dst[0]];
    }
  }

  predicate Covers(sizes: seq<int>, bufs: seq<seq<byte>>) {
    |sizes| == |bufs| && forall i :: 0 <= i < |sizes| ==> 0 <= sizes[i] <= |bufs[i]|
  }

  lemma SubmittedJobs(submitted: seq<Desc>)
    requires forall k :: 0 <= k < |submitted| ==> submitted[k].buf == k
    ensures {} + JobsFrom(0, |submitted|) == set k | 0 <= k < |submitted| :: submitted[k].buf
  {
    var jobs := set k | 0 <= k < |submitted| :: submitted[k].buf;
    forall j: nat ensures j in JobsFrom(0, |submitted|) <==> j in jobs {
      JobsFromNext(0, |submitted|, j);
      assert j < |submitted| ==> submitted[j].buf == j;
    }
  }

  /** The bytes of each buffer that are transferred, padding left out. */
  function Heads(sizes: seq<int>, bufs: seq<seq<byte>>): (p: seq<seq<byte>>)
    requires Covers(sizes, bufs)
    ensures |p| == |bufs|
  {
    seq(|bufs|, i requires 0 <= i < |bufs| => bufs[i][..sizes[i]])
  }

  /** One job a buffer, or a single job for the whole scatter-gather list. */
  function JobsOf(isSg: bool, payload: seq<seq<byte>>): (jobs: seq<Buffer>)
    ensures |jobs| == if isSg then 1 else |payload|
  {
    if isSg then [payload] else seq(|payload|, i requires 0 <= i < |payload| => [payload[i]])
  }

  /** Comparing buffer by buffer is comparing job by job. */
  lemma SameJobs(isSg: bool, p: seq<seq<byte>>, q: seq<seq<byte>>)
    requires |p| == |q|
    ensures JobsOf(isSg, p) == JobsOf(isSg, q) <==> p == q
  {
    if JobsOf(isSg, p) == JobsOf(isSg, q) && !isSg {
      forall i | 0 <= i < |p| ensures p[i] == q[i] {
        assert JobsOf(isSg, p)[i] == [p[i]] && JobsOf(isSg, q)[i] == [q[i]];
      }
    }
  }

  lemma HeadsShapes(isSg: bool, sizes: seq<int>, src: seq<seq<byte>>, dst: seq<seq<byte>>)
    requires Covers(sizes, src) && Covers(sizes, dst)
    ensures SameShapes(JobsOf(isSg, Heads(sizes, dst)), JobsOf(isSg, Heads(sizes, src)))
  {
    var p, q := Heads(sizes, dst), Heads(sizes, src);
    assert SameShape(p, q);
    assert forall j :: 0 <= j < |p| ==> SameShape([p[j]], [q[j]]);
  }

  lemma RoundDownMonotone(p: nat, q: nat, a: nat)
    requires a > 0 && p <= q
    ensures RoundDown(p, a) <= RoundDown(q, a)
  {
    var p', q' := RoundDown(p, a), RoundDown(q, a);
    RoundDownIs(p, a);
    RoundDownIs(q, a);
    hide RoundDown;
    if q' < p' {
      MultiplesApart(q', p', a);
    }
  }

  /** Aligning keeps the order as long as it does not wrap around. */
  lemma AlignMonotone(x: nat, y: nat, a: nat)
    requires a > 0 && x <= y && y + a <= TWO_32
    ensures Align(x, a) <= Align(y, a)
  {
    AlignIs(x, a);
    AlignIs(y, a);
    RoundDownMonotone(x + a - 1, y + a - 1, a);
    hide *;
  }

  lemma AlignIs(x: nat, a: nat)
    requires a > 0 && x + a <= TWO_32
    ensures Align(x, a) == RoundDown(x + a - 1, a)
  {
    NoWrap(x + a - 1);
    hide RoundDown;
  }

  lemma NoWrap(v: nat)
    requires v < TWO_32
    ensures v % TWO_32 == v
  {
  }

  /** Comparing an int with an unsigned number turns it back. */
  lemma U32Again(u: nat)
    requires u <= U32_MAX
    ensures ToInt32(u) % TWO_32 == u
  {
  }

  lemma SmallStays(bound: nat)
    ensures bound < TWO_31 ==> forall u: nat :: u <= bound ==> ToInt32(u) == u
  {
  }

  /** A prepared memcpy: buffer index and transfer size. */
  datatype Desc = Desc(buf: nat, size: int)

  /** struct tc_struct with its embedded buflist. */
  class TestCase {
    const listLen: nat
    const isSg: bool
    const checkBuffer: bool
    const listSize: array<int>    // listLen sizes and the END_OF_LIST mark
    var listBufSrc: seq<seq<byte>>
    var listBufDst: seq<seq<byte>>
    var nbrReturns: nat           // nbr_returns_per_transfer
    var laps: int
    var jobCounter: nat
    var finishedJobs: nat
    var desc: seq<Desc>
    var isDmaPrepared: bool
    var queued: bool              // work_start is on the workqueue
    var err: int
    var signals: nat              // complete() calls on done

    /** tc_test_init up to the size list. */
    constructor (listLen: nat, isSg: bool, checkBuffer: bool, laps: int)
      ensures listSize.Length == listLen + 1 && fresh(listSize)
      ensures this.listLen == listLen && this.isSg == isSg && this.checkBuffer == checkBuffer && this.laps == laps
      ensures jobCounter == 0 && finishedJobs == 0 && !queued && err == 0 && signals == 0
      ensures nbrReturns == if isSg then 1 else listLen
      ensures listBufSrc == [] && listBufDst == [] && !isDmaPrepared
    {
      this.listLen, this.isSg, this.checkBuffer, this.laps := listLen, isSg, checkBuffer, laps;
      listSize := new int[listLen + 1](_ => END_OF_LIST);
      listBufSrc, listBufDst, desc, isDmaPrepared := [], [], [], false;
      nbrReturns := if isSg then 1 else listLen;
      jobCounter, finishedJobs, queued, err, signals := 0, 0, false, 0, 0;
    }

    predicate Sized()
      reads listSize
    {
      && listSize.Length == listLen + 1 && listSize[listLen] == END_OF_LIST
      && forall i :: 0 <= i < listLen ==> 0 <= listSize[i]
    }

    predicate Valid()
      reads this, listSize
    {
      && Sized() && Covers(listSize[..listLen], listBufSrc) && Covers(listSize[..listLen], listBufDst)
      && nbrReturns == if isSg then 1 else listLen
    }

    function Payload(bufs: seq<seq<byte>>): seq<seq<byte>>
      requires listLen <= listSize.Length && Covers(listSize[..listLen], bufs)
      reads listSize
    {
      Heads(listSize[..listLen], bufs)
    }

    function View(): Tc
      requires Valid()
      reads this, listSize
    {
      Tc(JobsOf(isSg, Payload(listBufSrc)), JobsOf(isSg, Payload(listBufDst)), checkBuffer,
         laps, jobCounter, finishedJobs, queued, err, signals)
    }

    /** Source and target jobs hold the same bytes, buffer by buffer. */
    lemma ViewShapes()
      requires Valid()
      ensures SameShapes(View().dst, View().src)
    {
      HeadsShapes(isSg, listSize[..listLen], listBufSrc, listBufDst);
      hide Heads, JobsOf, Covers;
    }

    /** A test case that was set up is where the protocol starts. */
    lemma SetUp()
      requires Valid() && jobCounter == 0 && finishedJobs == 0 && err == 0 && signals == 0 && !queued
      ensures Fresh(Test(View(), Idle, {}, {}))
    {
      ViewShapes();
      hide Heads, JobsOf, Covers, SameShapes;
    }

    /** dmatest_sizelist_set. The list holds ints. */
    method SizelistSet(value: nat, align: nat)
      requires align > 0 && value <= U32_MAX && listSize.Length == listLen + 1
      modifies listSize
      ensures listSize[listLen] == END_OF_LIST && forall i :: 0 <= i < listLen ==> listSize[i] == ToInt32(Align(value, align))
      ensures Align(value, align) < TWO_31 ==> Sized()
    {
      hide Align;
      for i := 0 to listLen
        invariant forall k :: 0 <= k < i ==> listSize[k] == ToInt32(Align(value, align))
      {
        listSize[i] := ToInt32(Align(value, align));
      }
      listSize[listLen] := END_OF_LIST;
    }

    /** The aligned size of one draw. */
    function DrawnSize(draw: nat, min: nat, max: nat, align: nat): (size: nat)
      requires align > 0 && 0 < max - min <= U32_MAX
      ensures size <= U32_MAX
    {
      Align(Draw(draw, min, max), align)
    }

    /** dmatest_sizelist_randomize; draws are the random32 values. Its BUG_ON fires exactly if some aligned
        size is above the aligned maximum, and never on an even range that alignment does not wrap. */
    method SizelistRandomize(draws: seq<nat>, min: nat, max: nat, align: nat) returns (bug: bool)
      requires |draws| == listLen && (forall i :: 0 <= i < listLen ==> draws[i] <= U32_MAX)
      requires align > 0 && min < max <= U32_MAX && listSize.Length == listLen + 1
      modifies listSize
      ensures bug <==> exists i :: 0 <= i < listLen && DrawnSize(draws[i], min, max, align) > Align(max, align)
      ensures !bug ==> listSize[listLen] == END_OF_LIST
      ensures !bug ==> forall i :: 0 <= i < listLen ==> listSize[i] == ToInt32(DrawnSize(draws[i], min, max, align))
      ensures !bug && Align(max, align) < TWO_31 ==> Sized()
      ensures EvenRange(min, max) && max + align <= TWO_32 ==> !bug
    {
      NeverTooLarge(draws, min, max, align);
      SmallStays(Align(max, align));
      hide Align, DrawnSize, EvenRange, ToInt32;
      for i := 0 to listLen
        invariant forall k :: 0 <= k < i ==> listSize[k] == ToInt32(DrawnSize(draws[k], min, max, align))
        invariant forall k :: 0 <= k < i ==> DrawnSize(draws[k], min, max, align) <= Align(max, align)
      {
        var size := DrawnSize(draws[i], min, max, align);
        listSize[i] := ToInt32(size);
        U32Again(size);
        if listSize[i] % TWO_32 > Align(max, align) {
          return true;
        }
      }
      listSize[listLen] := END_OF_LIST;
      return false;
    }

    lemma NeverTooLarge(draws: seq<nat>, min: nat, max: nat, align: nat)
      requires forall i :: 0 <= i < |draws| ==> draws[i] <= U32_MAX
      requires align > 0 && min < max <= U32_MAX
      ensures EvenRange(min, max) && max + align <= TWO_32
              ==> forall i :: 0 <= i < |draws| ==> DrawnSize(draws[i], min, max, align) <= Align(max, align)
    {
      DrawWithinIff(min, max);
      hide Align, Draw, EvenRange;
      if EvenRange(min, max) && max + align <= TWO_32 {
        forall i | 0 <= i < |draws| ensures DrawnSize(draws[i], min, max, align) <= Align(max, align) {
          AlignMonotone(Draw(draws[i], min, max), max, align);
        }
      }
    }

    /** dmatest_buflist_alloc: distinct patterns in the source and the target, equal padding. */
    method BuflistAlloc(endPadding: nat)
      requires Sized()
      modifies this`listBufSrc, this`listBufDst
      ensures |listBufSrc| == |listBufDst| == listLen
      ensures nbrReturns == (if isSg then 1 else listLen) ==> Valid()
      ensures forall i :: 0 <= i < listLen ==> IsAllocated(i, listSize[i], endPadding, listBufSrc[i], listBufDst[i])
    {
      listBufSrc, listBufDst := [], [];
      var i := 0;
      while listSize[i] != END_OF_LIST
        invariant 0 <= i <= listLen && |listBufSrc| == |listBufDst| == i
        invariant forall k :: 0 <= k < i ==> IsAllocated(k, listSize[k], endPadding, listBufSrc[k], listBufDst[k])
        decreases listLen - i
      {
        var size := listSize[i];
        var src := seq(size, j requires 0 <= j => ((j + i) % 256) as byte) + seq(endPadding, _ => 0xBE as byte);
        var dst := seq(size, _ => 0xAA as byte) + seq(endPadding, _ => 0xBE as byte);
        listBufSrc, listBufDst := listBufSrc + [src], listBufDst + [dst];
        i := i + 1;
      }
    }

    /** dmatest_buflist_payload_check: compares list_size bytes of every buffer up to the mark. */
    method PayloadCheck() returns (r: int)
      requires Valid()
      ensures r == if Payload(listBufDst) == Payload(listBufSrc) then 0 else -1
    {
      r := 0;
      var i := 0;
      ghost var src, dst := Payload(listBufSrc), Payload(listBufDst);
      while listSize[i] != END_OF_LIST
        invariant 0 <= i <= listLen
        invariant r == if dst[..i] == src[..i] then 0 else -1
        decreases listLen - i
      {
        assert dst[i] == listBufDst[i][..listSize[i]] && src[i] == listBufSrc[i][..listSize[i]];
        assert dst[..i + 1] == dst[..i] + [dst[i]] && src[..i + 1] == src[..i] + [src[i]];
        if listBufDst[i][..listSize[i]] != listBufSrc[i][..listSize[i]] {
          r := -1;
        }
        i := i + 1;
      }
      assert dst[..i] == dst && src[..i] == src;
    }

    method CheckedErr() returns (r: int)
      requires Valid()
      ensures r == if View().dst == View().src then 0 else -1
    {
      r := PayloadCheck();
      SameJobs(isSg, Payload(listBufDst), Payload(listBufSrc));
      hide Heads, JobsOf;
    }

    /** Descriptors that are kept from an earlier lap still describe the list. */
    predicate Prepared()
      requires Sized()
      reads this, listSize
    {
      isDmaPrepared ==> desc == seq(listLen, i requires 0 <= i < listLen reads listSize
                                             requires listSize.Length > listLen => Desc(i, listSize[i]))
    }

    /** dmatest_buflist_start_single: every buffer is submitted once, in list order, whether its
        descriptor is prepared now (always with DMA_CTRL_ACK) or left from an earlier lap. */
    method StartSingle(ctrlAck: bool) returns (submitted: seq<Desc>)
      requires Sized() && Prepared()
      modifies this`desc, this`isDmaPrepared
      ensures isDmaPrepared && Prepared()
      ensures |submitted| == listLen && forall k :: 0 <= k < listLen ==> submitted[k] == Desc(k, listSize[k])
    {
      var i := 0;
      if ctrlAck || !isDmaPrepared {
        desc := [];
        while listSize[i] != END_OF_LIST
          invariant 0 <= i <= listLen && |desc| == i
          invariant forall k :: 0 <= k < i ==> desc[k] == Desc(k, listSize[k])
          decreases listLen - i
        {
          desc := desc + [Desc(i, listSize[i])];
          i := i + 1;
        }
        isDmaPrepared := true;
      }
      submitted := [];
      i := 0;
      while listSize[i] != END_OF_LIST
        invariant 0 <= i <= listLen && submitted == desc[..i]
        decreases listLen - i
      {
        submitted := submitted + [desc[i]];
        i := i + 1;
      }
    }

    /** tc_worker_start_single, taken off the workqueue. t is where the protocol stands: the work item
        makes exactly the steps of Begin, Submit and EndWork from there, handing the engine the jobs of
        the descriptors it submits, in this order. */
    method StartWork(ctrlAck: bool, ghost t: Test) returns (submitted: seq<Desc>)
      requires Valid() && Prepared() && !isSg && queued
      requires t.tc == View() && t.worker.Idle? && t.active == {}
      modifies this`desc, this`isDmaPrepared, this`queued
      ensures Valid() && isDmaPrepared && Prepared()
      ensures |submitted| == listLen == |View().src|
      ensures forall k :: 0 <= k < listLen ==>
        submitted[k] == Desc(k, listSize[k]) && View().src[k] == [listBufSrc[k][..submitted[k].size]]
      ensures IsRun(t, WorkItem(t.tc.dst))
      ensures Final(t, WorkItem(t.tc.dst))
           == t.(tc := View(), active := set k | 0 <= k < |submitted| :: submitted[k].buf)
    {
      ViewShapes();
      WorkItemRuns(t);
      assert |t.tc.src| == listLen && forall k :: 0 <= k < listLen ==> t.tc.src[k] == [listBufSrc[k][..listSize[k]]];
      hide IsRun, Final, SameShapes, WorkItem, Heads, JobsOf, Covers;
      queued := false;
      submitted := StartSingle(ctrlAck);
      assert View() == t.tc.(queued := false);
      SubmittedJobs(submitted);
    }

    lemma LengthsOf(src: seq<seq<byte>>, dst: seq<seq<byte>>)
      requires Sized() && Covers(listSize[..listLen], src) && Covers(listSize[..listLen], dst)
      ensures |JobsOf(isSg, Payload(src))| == |JobsOf(isSg, Payload(dst))| == if isSg then 1 else listLen
    {
    }

    /** tc_worker: reached once for each finished job. */
    method Worker()
      requires Valid()
      requires finishedJobs > 0
      modifies this`jobCounter, this`finishedJobs, this`laps, this`queued, this`err, this`signals
      ensures Valid() && View() == CountJob(old(View()).(finished := old(finishedJobs) - 1))
    {
      hide Heads, JobsOf, Covers, Sized;
      LengthsOf(listBufSrc, listBufDst);
      jobCounter := jobCounter + 1;
      if jobCounter == nbrReturns {
        if checkBuffer {
          err := CheckedErr();
        }
        laps := laps - 1;
        if laps == 0 {
          signals := signals + 1;
        } else {
          finishedJobs := 0;
          jobCounter := 0;
          queued := true;
        }
      }
    }

    /** transmit_cb, with tc_worker as the registered callback: exactly one CountJob step. */
    method TransmitCb()
      requires Valid()
      modifies this`jobCounter, this`finishedJobs, this`laps, this`queued, this`err, this`signals
      ensures Valid() && View() == CountJob(old(View()))
    {
      finishedJobs := finishedJobs + 1;
      Worker();
    }
  }

  predicate IsAllocated(index: nat, size: int, endPadding: nat, src: seq<byte>, dst: seq<byte>) {
    && size >= 0 && |src| == |dst| == size + endPadding
    && (forall j :: 0 <= j < size ==> src[j] == (j + index) % 256 && dst[j] == 0xAA)
    && (forall j :: size <= j < size + endPadding ==> src[j] == 0xBE && dst[j] == 0xBE)
  }
}
