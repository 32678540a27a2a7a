/** Short transfers: the synchronous loops of lio_write_buffer and lio_read_buffer against a kernel that
    may transfer any part of what is asked, and stride_bounds (ltp_framework/lib/tlibio.c). */
module Transfer {
  import opened Basics
  import opened Arithmetic

  /** One answer of write(2): it takes some of the bytes offered, or fails. */
  datatype WriteReply = Took(n: nat) | WriteError(errno: int)

  /** One answer of read(2): it delivers some bytes, none at the end of the file, or fails. */
  datatype ReadReply = Gave(offered: seq<byte>) | ReadError(errno: int)

  const EINTR := 4
  const EAGAIN := 11

  predicate Retried(errno: int) {
    errno == EINTR || errno == EAGAIN
  }

  /** Pending: the kernel's answers given were all used up and the loop is still waiting. */
  datatype Outcome = Done(ret: int) | Failed(errno: int) | Pending

  function Total(chunks: seq<nat>): nat {
    if chunks == [] then 0 else Total(chunks[..|chunks| - 1]) + chunks[|chunks| - 1]
  }

  function Least(a: nat, b: nat): nat {
    if a < b then a else b
  }

  // What the first n of the kernel's answers amount to

  /** The bytes each answer took, none taking more than was still to be written. */
  function Taken(size: nat, replies: seq<WriteReply>, n: nat): (chunks: seq<nat>)
    requires n <= |replies|
    ensures Total(chunks) <= size
  {
    if n == 0 then []
    else
      var before := Taken(size, replies, n - 1);
      match replies[n - 1]
      case WriteError(_) => before
      case Took(m) =>
        TotalAppend(before, Least(m, size - Total(before)));
        before + [Least(m, size - Total(before))]
  }

  /** The n-th answer ends the loop: an error that is not retried, or the rest being taken. */
  predicate WriteEnds(size: nat, replies: seq<WriteReply>, n: nat)
    requires n <= |replies|
  {
    n > 0 &&
    match replies[n - 1]
    case WriteError(errno) => !Retried(errno)
    case Took(m) => m >= size - Total(Taken(size, replies, n - 1))
  }

  /** None of them ends the loop. */
  predicate WriteWaits(size: nat, replies: seq<WriteReply>, n: nat)
    requires n <= |replies|
  {
    forall k :: 0 <= k <= n ==> !WriteEnds(size, replies, k)
  }

  function Concat(datas: seq<seq<byte>>): seq<byte> {
    if datas == [] then [] else Concat(datas[..|datas| - 1]) + datas[|datas| - 1]
  }

  /** The pieces the answers gave, none longer than what was still wanted. */
  function Given(size: nat, replies: seq<ReadReply>, n: nat): (datas: seq<seq<byte>>)
    requires n <= |replies|
    ensures |Concat(datas)| <= size
  {
    if n == 0 then []
    else
      var before := Given(size, replies, n - 1);
      match replies[n - 1]
      case ReadError(_) => before
      case Gave(offered) =>
        var data := offered[..Least(|offered|, size - |Concat(before)|)];
        ConcatAppend(before, data);
        before + [data]
  }

  predicate ReadEnds(size: nat, replies: seq<ReadReply>, n: nat)
    requires n <= |replies|
  {
    n > 0 &&
    match replies[n - 1]
    case ReadError(errno) => !Retried(errno)
    case Gave(offered) => offered == [] || |offered| >= size - |Concat(Given(size, replies, n - 1))|
  }

  predicate ReadWaits(size: nat, replies: seq<ReadReply>, n: nat)
    requires n <= |replies|
  {
    forall k :: 0 <= k <= n ==> !ReadEnds(size, replies, k)
  }

  lemma TotalAppend(chunks: seq<nat>, n: nat)
    ensures Total(chunks + [n]) == Total(chunks) + n
  {
    assert (chunks + [n])[..|chunks|] == chunks;
  }

  lemma ConcatAppend(datas: seq<seq<byte>>, data: seq<byte>)
    ensures Concat(datas + [data]) == Concat(datas) + data
  {
    assert (datas + [data])[..|datas|] == datas;
  }

  // The same without the loop's own terms

  /** All that the first n answers take. */
  function Offered(replies: seq<WriteReply>, n: nat): nat
    requires n <= |replies|
  {
    if n == 0 then 0 else Offered(replies, n - 1) + if replies[n - 1].Took? then replies[n - 1].n else 0
  }

  /** All that the first n answers offer. */
  function Stream(replies: seq<ReadReply>, n: nat): seq<byte>
    requires n <= |replies|
  {
    if n == 0 then []
    else if replies[n - 1].Gave? then Stream(replies, n - 1) + replies[n - 1].offered
    else Stream(replies, n - 1)
  }

  /** After the k-th answer the loop goes on: EINTR (4), EAGAIN (11), or not all taken yet. */
  predicate WriteGoesOn(size: nat, replies: seq<WriteReply>, k: nat)
    requires k < |replies|
  {
    if replies[k].WriteError? then replies[k].errno == 4 || replies[k].errno == 11 else Offered(replies, k + 1) < size
  }

  predicate ReadGoesOn(size: nat, replies: seq<ReadReply>, k: nat)
    requires k < |replies|
  {
    if replies[k].ReadError? then replies[k].errno == 4 || replies[k].errno == 11
    else replies[k].offered != [] && |Stream(replies, k + 1)| < size
  }

  /** The loop ends with the first answer after which it does not go on. All that was taken up to then was
      sent, or as much of it as there was. */
  predicate WriteResult(r: Outcome, sent: nat, size: nat, replies: seq<WriteReply>, used: nat) {
    && used <= |replies|
    && (forall k :: 0 <= k < used - 1 ==> WriteGoesOn(size, replies, k))
    && sent == (if Offered(replies, used) < size then Offered(replies, used) else size)
    && match r
       case Pending => used == |replies| && forall k :: 0 <= k < used ==> WriteGoesOn(size, replies, k)
       case Failed(e) => used > 0 && replies[used - 1] == WriteError(e) && e != 4 && e != 11
       case Done(ret) => used > 0 && replies[used - 1].Took? && sent == size && ret == size - Offered(replies, used - 1)
  }

  predicate ReadResult(r: Outcome, got: nat, size: nat, replies: seq<ReadReply>, used: nat) {
    && used <= |replies|
    && (forall k :: 0 <= k < used - 1 ==> ReadGoesOn(size, replies, k))
    && got == (if |Stream(replies, used)| < size then |Stream(replies, used)| else size)
    && match r
       case Pending => used == |replies| && forall k :: 0 <= k < used ==> ReadGoesOn(size, replies, k)
       case Failed(e) => used > 0 && replies[used - 1] == ReadError(e) && e != 4 && e != 11
       case Done(ret) =>
         && used > 0 && replies[used - 1].Gave? && ret == got - |Stream(replies, used - 1)|
         && (replies[used - 1].offered == [] || got == size)
  }

  lemma {:induction false} TakenIsOffered(size: nat, replies: seq<WriteReply>, n: nat)
    requires n <= |replies|
    ensures Total(Taken(size, replies, n)) == if Offered(replies, n) < size then Offered(replies, n) else size
  {
    NothingYet();
    hide Total;
    if n > 0 {
      TakenIsOffered(size, replies, n - 1);
      if replies[n - 1].Took? {
        var before := Taken(size, replies, n - 1);
        TotalAppend(before, Least(replies[n - 1].n, size - Total(before)));
      }
    }
  }

  lemma WriteEndsIff(size: nat, replies: seq<WriteReply>, n: nat)
    requires 0 < n <= |replies|
    ensures WriteEnds(size, replies, n) <==> !WriteGoesOn(size, replies, n - 1)
  {
    TakenIsOffered(size, replies, n - 1);
    hide Total, Taken;
  }

  lemma {:induction false} NotAllYet(size: nat, replies: seq<WriteReply>, n: nat)
    requires n <= |replies| && forall k :: 0 <= k < n ==> WriteGoesOn(size, replies, k)
    ensures Offered(replies, n) == 0 || Offered(replies, n) < size
  {
    if n > 0 {
      NotAllYet(size, replies, n - 1);
      assert WriteGoesOn(size, replies, n - 1);
    }
  }

  lemma {:induction false} NotFullYet(size: nat, replies: seq<ReadReply>, n: nat)
    requires n <= |replies| && forall k :: 0 <= k < n ==> ReadGoesOn(size, replies, k)
    ensures Stream(replies, n) == [] || |Stream(replies, n)| < size
  {
    if n > 0 {
      NotFullYet(size, replies, n - 1);
      assert ReadGoesOn(size, replies, n - 1);
    }
  }

  lemma WriteMeans(size: nat, replies: seq<WriteReply>, used: nat, r: Outcome)
    requires used <= |replies| && (used > 0 ==> WriteWaits(size, replies, used - 1))
    requires if !WriteEnds(size, replies, used) then r == Pending && used == |replies|
             else match replies[used - 1]
               case WriteError(errno) => r == Failed(errno)
               case Took(_) => Total(Taken(size, replies, used)) == size && r == Done(size - Total(Taken(size, replies, used - 1)))
    ensures WriteResult(r, Total(Taken(size, replies, used)), size, replies, used)
  {
    TakenIsOffered(size, replies, used);
    WentOn(size, replies, used);
    if used > 0 {
      WriteEndsIff(size, replies, used);
      TakenIsOffered(size, replies, used - 1);
      NotAllYet(size, replies, used - 1);
    }
    hide Total, Taken, WriteEnds, WriteWaits, Offered;
  }

  lemma WentOn(size: nat, replies: seq<WriteReply>, used: nat)
    requires used <= |replies| && (used > 0 ==> WriteWaits(size, replies, used - 1))
    ensures forall k :: 0 <= k < used - 1 ==> WriteGoesOn(size, replies, k)
  {
    hide WriteEnds, WriteGoesOn;
    forall k | 0 <= k < used - 1 ensures WriteGoesOn(size, replies, k) {
      assert !WriteEnds(size, replies, k + 1);
      WriteEndsIff(size, replies, k + 1);
    }
  }

  lemma {:induction false} GivenIsStream(size: nat, replies: seq<ReadReply>, n: nat)
    requires n <= |replies|
    ensures var s := Stream(replies, n); Concat(Given(size, replies, n)) == if |s| < size then s else s[..size]
  {
    NothingYet();
    hide Concat;
    if n > 0 {
      GivenIsStream(size, replies, n - 1);
      if replies[n - 1].Gave? {
        var before, offered := Given(size, replies, n - 1), replies[n - 1].offered;
        ConcatAppend(before, offered[..Least(|offered|, size - |Concat(before)|)]);
      }
    }
  }

  lemma ReadEndsIff(size: nat, replies: seq<ReadReply>, n: nat)
    requires 0 < n <= |replies|
    ensures ReadEnds(size, replies, n) <==> !ReadGoesOn(size, replies, n - 1)
  {
    GivenIsStream(size, replies, n - 1);
    hide Concat, Given;
  }

  lemma ReadMeans(size: nat, replies: seq<ReadReply>, used: nat, r: Outcome, got: nat)
    requires used <= |replies| && (used > 0 ==> ReadWaits(size, replies, used - 1))
    requires got == |Concat(Given(size, replies, used))|
    requires if ReadEnds(size, replies, used) then ReadReturns(r, size, replies, used, got)
             else r == Pending && used == |replies|
    ensures ReadResult(r, got, size, replies, used)
  {
    assert !ReadEnds(size, replies, 0);
    hide *;
    GivenLength(size, replies, used);
    ReadOn(size, replies, used);
    if used > 0 {
      ReadEndsIff(size, replies, used);
      if ReadEnds(size, replies, used) {
        ReturnsFor(r, size, replies, used, got);
      }
    }
    ReadOutcome(size, replies, used, r, got);
  }

  lemma ReturnsFor(r: Outcome, size: nat, replies: seq<ReadReply>, used: nat, got: nat)
    requires 0 < used <= |replies| && ReadReturns(r, size, replies, used, got)
    requires forall k :: 0 <= k < used - 1 ==> ReadGoesOn(size, replies, k)
    ensures if replies[used - 1].ReadError? then r == Failed(replies[used - 1].errno)
            else if replies[used - 1].offered == [] then r == Done(0)
            else got == size && r == Done(got - |Stream(replies, used - 1)|)
  {
    hide Concat, Given, Stream, ReadGoesOn;
    GivenLength(size, replies, used - 1);
    NotFullYet(size, replies, used - 1);
  }

  lemma GivenLength(size: nat, replies: seq<ReadReply>, n: nat)
    requires n <= |replies|
    ensures |Concat(Given(size, replies, n))| == if |Stream(replies, n)| < size then |Stream(replies, n)| else size
  {
    hide Concat, Given, Stream;
    GivenIsStream(size, replies, n);
  }

  lemma FilledFrom(size: nat, replies: seq<ReadReply>, used: nat, got: nat, s: seq<byte>, was: seq<byte>)
    requires used <= |replies| && |s| == size && Filled(s, was, got, Given(size, replies, used))
    ensures got == (if |Stream(replies, used)| < size then |Stream(replies, used)| else size)
    ensures got == |Concat(Given(size, replies, used))|
    ensures |was| == size && s == Stream(replies, used)[..got] + was[got..]
  {
    GivenIsStream(size, replies, used);
    FilledBy(s, was, got, Given(size, replies, used), Stream(replies, used));
    hide Concat, Given, Stream;
  }

  lemma ReadOutcome(size: nat, replies: seq<ReadReply>, used: nat, r: Outcome, got: nat)
    requires used <= |replies| && forall k :: 0 <= k < used - 1 ==> ReadGoesOn(size, replies, k)
    requires got == if |Stream(replies, used)| < size then |Stream(replies, used)| else size
    requires used == 0 || ReadGoesOn(size, replies, used - 1) ==> r == Pending && used == |replies|
    requires used > 0 && !ReadGoesOn(size, replies, used - 1) ==>
      if replies[used - 1].ReadError? then r == Failed(replies[used - 1].errno)
      else if replies[used - 1].offered == [] then r == Done(0)
      else got == size && r == Done(got - |Stream(replies, used - 1)|)
    ensures ReadResult(r, got, size, replies, used)
  {
    if used > 0 {
      NotFullYet(size, replies, used - 1);
      assert replies[used - 1].Gave? && replies[used - 1].offered == [] ==> |Stream(replies, used)| == |Stream(replies, used - 1)|;
    }
    hide Stream;
  }

  lemma ReadOn(size: nat, replies: seq<ReadReply>, used: nat)
    requires used <= |replies| && (used > 0 ==> ReadWaits(size, replies, used - 1))
    ensures forall k :: 0 <= k < used - 1 ==> ReadGoesOn(size, replies, k)
  {
    hide ReadEnds, ReadGoesOn;
    forall k | 0 <= k < used - 1 ensures ReadGoesOn(size, replies, k) {
      assert !ReadEnds(size, replies, k + 1);
      ReadEndsIff(size, replies, k + 1);
    }
  }

  lemma FilledBy(s: seq<byte>, was: seq<byte>, got: nat, datas: seq<seq<byte>>, stream: seq<byte>)
    requires Filled(s, was, got, datas) && Concat(datas) == if |stream| < |s| then stream else stream[..|s|]
    ensures got == (if |stream| < |s| then |stream| else |s|) && s == stream[..got] + was[got..]
  {
    hide Concat;
    assert s == s[..got] + s[got..];
  }

  /** An interrupted call in front of any answers changes nothing: neither which of them end the loop nor
      what they take or give. */
  lemma {:induction false} RetriedWrite(size: nat, replies: seq<WriteReply>, e: int, n: nat)
    requires (e == 4 || e == 11) && n <= |replies|
    ensures var more := [WriteError(e)] + replies;
            && Offered(more, n + 1) == Offered(replies, n) && WriteGoesOn(size, more, 0)
            && (n > 0 ==> (WriteGoesOn(size, more, n) <==> WriteGoesOn(size, replies, n - 1)))
  {
    var more := [WriteError(e)] + replies;
    if n > 0 {
      RetriedWrite(size, replies, e, n - 1);
      assert more[n] == replies[n - 1];
    } else {
      assert Offered(more, 0) == 0;
    }
  }

  lemma {:induction false} RetriedRead(size: nat, replies: seq<ReadReply>, e: int, n: nat)
    requires (e == 4 || e == 11) && n <= |replies|
    ensures var more := [ReadError(e)] + replies;
            && Stream(more, n + 1) == Stream(replies, n) && ReadGoesOn(size, more, 0)
            && (n > 0 ==> (ReadGoesOn(size, more, n) <==> ReadGoesOn(size, replies, n - 1)))
  {
    var more := [ReadError(e)] + replies;
    if n > 0 {
      RetriedRead(size, replies, e, n - 1);
      assert more[n] == replies[n - 1];
    } else {
      assert Stream(more, 0) == [];
    }
  }

  /** So the outcome and the bytes are the same with one answer more. */
  lemma RetryChangesNothing(r: Outcome, sent: nat, size: nat, replies: seq<WriteReply>, used: nat, e: int)
    requires (e == 4 || e == 11) && WriteResult(r, sent, size, replies, used)
    ensures WriteResult(r, sent, size, [WriteError(e)] + replies, used + 1)
  {
    var more := [WriteError(e)] + replies;
    RetriedWrite(size, replies, e, used);
    forall k | 0 <= k <= used && (k == 0 || WriteGoesOn(size, replies, k - 1)) ensures WriteGoesOn(size, more, k) {
      RetriedWrite(size, replies, e, k);
    }
    if used > 0 {
      RetriedWrite(size, replies, e, used - 1);
      assert more[used] == replies[used - 1];
    }
    hide Offered, WriteGoesOn;
  }

  lemma RereadChangesNothing(r: Outcome, got: nat, size: nat, replies: seq<ReadReply>, used: nat, e: int)
    requires (e == 4 || e == 11) && ReadResult(r, got, size, replies, used)
    ensures ReadResult(r, got, size, [ReadError(e)] + replies, used + 1)
    ensures Stream([ReadError(e)] + replies, used + 1) == Stream(replies, used)
  {
    var more := [ReadError(e)] + replies;
    RetriedRead(size, replies, e, used);
    forall k | 0 <= k <= used && (k == 0 || ReadGoesOn(size, replies, k - 1)) ensures ReadGoesOn(size, more, k) {
      RetriedRead(size, replies, e, k);
    }
    if used > 0 {
      RetriedRead(size, replies, e, used - 1);
      assert more[used] == replies[used - 1];
    }
    hide Stream, ReadGoesOn;
  }

  lemma NothingYet()
    ensures Total([]) == 0 && Concat([]) == []
  {
  }

  /** One more answer. */
  lemma WriteNext(size: nat, replies: seq<WriteReply>, n: nat, before: seq<nat>, after: seq<nat>)
    requires n < |replies| && before == Taken(size, replies, n) && after == Taken(size, replies, n + 1)
    ensures Total(before) <= size
    ensures match replies[n]
            case WriteError(errno) => after == before && WriteEnds(size, replies, n + 1) == !Retried(errno)
            case Took(m) =>
              && Total(after) == Total(before) + Least(m, size - Total(before))
              && WriteEnds(size, replies, n + 1) == (Total(after) == size)
    ensures WriteWaits(size, replies, n) && !WriteEnds(size, replies, n + 1) ==> WriteWaits(size, replies, n + 1)
  {
    if replies[n].Took? {
      TotalAppend(before, Least(replies[n].n, size - Total(before)));
    }
    hide Total;
  }

  lemma ReadNextError(size: nat, replies: seq<ReadReply>, n: nat)
    requires n < |replies| && replies[n].ReadError?
    ensures Given(size, replies, n + 1) == Given(size, replies, n)
    ensures ReadEnds(size, replies, n + 1) == !Retried(replies[n].errno)
    ensures ReadWaits(size, replies, n) && !ReadEnds(size, replies, n + 1) ==> ReadWaits(size, replies, n + 1)
  {
    hide Concat;
  }

  lemma ReadNextGave(size: nat, replies: seq<ReadReply>, n: nat, offered: seq<byte>, at: nat, ret: nat)
    requires n < |replies| && replies[n] == Gave(offered)
    requires at == |Concat(Given(size, replies, n))| <= size && ret == Least(|offered|, size - at)
    ensures Given(size, replies, n + 1) == Given(size, replies, n) + [offered[..ret]]
    ensures ReadEnds(size, replies, n + 1) == (offered == [] || ret == size - at)
    ensures ReadWaits(size, replies, n) && !ReadEnds(size, replies, n + 1) ==> ReadWaits(size, replies, n + 1)
  {
    hide Concat;
  }

  // The loops

  /** The write loop. used answers are consumed, the last of them being the first that ends the loop;
      sent is what they took, in order from the start of the buffer. Success means that was all of it,
      but the value returned is only the size of the last transfer. */
  method WriteBuffer(buffer: seq<byte>, replies: seq<WriteReply>) returns (r: Outcome, sent: seq<byte>, used: nat)
    ensures used <= |replies| && (used > 0 ==> WriteWaits(|buffer|, replies, used - 1))
    ensures sent == buffer[..Total(Taken(|buffer|, replies, used))]
    ensures if !WriteEnds(|buffer|, replies, used) then r == Pending && used == |replies|
            else match replies[used - 1]
              case WriteError(errno) => r == Failed(errno)
              case Took(_) => sent == buffer && r == Done(|buffer| - Total(Taken(|buffer|, replies, used - 1)))
    ensures WriteResult(r, |sent|, |buffer|, replies, used)
  {
    var at: nat, size: nat := 0, |buffer|;
    sent, used := [], 0;
    NothingYet();
    ghost var chunks := Taken(|buffer|, replies, 0);
    assert WriteWaits(|buffer|, replies, 0) && !WriteEnds(|buffer|, replies, 0);
    hide Total, Taken, WriteWaits, WriteEnds, Retried;
    while used < |replies|
      invariant used <= |replies| && at + size == |buffer| && sent == buffer[..at]
      invariant chunks == Taken(|buffer|, replies, used) && at == Total(chunks)
      invariant WriteWaits(|buffer|, replies, used) && !WriteEnds(|buffer|, replies, used)
    {
      ghost var after := Taken(|buffer|, replies, used + 1);
      WriteNext(|buffer|, replies, used, chunks, after);
      chunks := after;
      used := used + 1;
      match replies[used - 1] {
        case WriteError(errno) =>
          if !Retried(errno) {
            WriteMeans(|buffer|, replies, used, Failed(errno));
            return Failed(errno), sent, used;
          }
        case Took(n) =>
          var ret := Least(n, size);
          assert buffer[..at] + buffer[at..at + ret] == buffer[..at + ret];
          sent := sent + buffer[at..at + ret];
          if ret == size {
            WriteMeans(|buffer|, replies, used, Done(ret));
            return Done(ret), sent, used;
          }
          size := size - ret;
          at := at + ret;
      }
    }
    WriteMeans(|buffer|, replies, used, Pending);
    return Pending, sent, used;
  }

  /** What a read loop that the n-th answer ends returns: the error, 0 at the end of the file, or the size
      of the last piece, which has filled the buffer. */
  predicate ReadReturns(r: Outcome, size: nat, replies: seq<ReadReply>, n: nat, got: nat)
    requires 0 < n <= |replies|
  {
    match replies[n - 1]
    case ReadError(errno) => r == Failed(errno)
    case Gave(offered) =>
      if offered == [] then r == Done(0)
      else got == size && r == Done(got - |Concat(Given(size, replies, n - 1))|)
  }

  /** The read loop. The pieces the consumed answers gave lie in the buffer back to back, and the rest of
      it is untouched. A positive result means the buffer is full, 0 that the file ended or nothing was
      asked for, however much had arrived before. */
  method ReadBuffer(buffer: array<byte>, replies: seq<ReadReply>) returns (r: Outcome, got: nat, used: nat)
    modifies buffer
    ensures used <= |replies| && (used > 0 ==> ReadWaits(buffer.Length, replies, used - 1))
    ensures Filled(buffer[..], old(buffer[..]), got, Given(buffer.Length, replies, used))
    ensures if ReadEnds(buffer.Length, replies, used) then ReadReturns(r, buffer.Length, replies, used, got)
            else r == Pending && used == |replies|
    ensures ReadResult(r, got, buffer.Length, replies, used)
    ensures buffer[..] == Stream(replies, used)[..got] + old(buffer[..])[got..]
  {
    var size: nat := buffer.Length;
    got, used, r := 0, 0, Pending;
    ghost var was := buffer[..];
    NothingYet();
    assert ReadWaits(size, replies, 0) && !ReadEnds(size, replies, 0);
    assert Filled(was, was, 0, Given(size, replies, 0));
    hide *;
    while used < |replies|
      invariant used <= |replies| && got + size == buffer.Length && r == Pending
      invariant Filled(buffer[..], was, got, Given(buffer.Length, replies, used))
      invariant ReadWaits(buffer.Length, replies, used) && !ReadEnds(buffer.Length, replies, used)
    {
      used := used + 1;
      r, size := ReadOnce(buffer, got, size, replies[used - 1], replies, used, was);
      got := buffer.Length - size;
      if r != Pending {
        break;
      }
    }
    FilledFrom(buffer.Length, replies, used, got, buffer[..], was);
    ReadMeans(buffer.Length, replies, used, r, got);
  }

  /** One turn of the loop: read(2) gives an answer, and the loop returns or goes on with less to read. */
  method ReadOnce(buffer: array<byte>, got: nat, size: nat, reply: ReadReply,
                  ghost replies: seq<ReadReply>, ghost used: nat, ghost was: seq<byte>)
    returns (r: Outcome, size': nat)
    requires 0 < used <= |replies| && reply == replies[used - 1] && got + size == buffer.Length
    requires Filled(buffer[..], was, got, Given(buffer.Length, replies, used - 1))
    modifies buffer
    ensures size' <= size && Filled(buffer[..], was, buffer.Length - size', Given(buffer.Length, replies, used))
    ensures if ReadEnds(buffer.Length, replies, used)
            then r != Pending && ReadReturns(r, buffer.Length, replies, used, buffer.Length - size')
            else r == Pending
    ensures ReadWaits(buffer.Length, replies, used - 1) && r == Pending ==> ReadWaits(buffer.Length, replies, used)
  {
    hide Concat, Given, ReadWaits, ReadEnds, Retried, Filled;
    match reply {
      case ReadError(errno) =>
        ReadNextError(buffer.Length, replies, used - 1);
        return if Retried(errno) then Pending else Failed(errno), size;
      case Gave(offered) =>
        var ret := Deliver(buffer, got, offered, was, Given(buffer.Length, replies, used - 1));
        ReadNextGave(buffer.Length, replies, used - 1, offered, got, ret);
        return if ret == 0 || ret == size then Done(ret) else Pending, size - ret;
    }
  }

  /** The pieces lie back to back in the first got bytes, and behind them the buffer is as it was. */
  predicate Filled(s: seq<byte>, was: seq<byte>, got: nat, datas: seq<seq<byte>>) {
    got <= |s| == |was| && s[..got] == Concat(datas) && s[got..] == was[got..]
  }

  /** One read(2) into the rest of the buffer. */
  method Deliver(buffer: array<byte>, at: nat, offered: seq<byte>, ghost was: seq<byte>, ghost before: seq<seq<byte>>)
    returns (ret: nat)
    requires Filled(buffer[..], was, at, before)
    modifies buffer
    ensures at == |Concat(before)| <= buffer.Length && ret == Least(|offered|, buffer.Length - at)
    ensures Filled(buffer[..], was, at + ret, before + [offered[..ret]])
  {
    ret := Least(|offered|, buffer.Length - at);
    ConcatAppend(before, offered[..ret]);
    hide Concat, Least;
    for n := 0 to ret
      invariant buffer[..at + n] == Concat(before) + offered[..n] && buffer[at + n..] == was[at + n..]
    {
      buffer[at + n] := offered[n];
      assert buffer[..at + n + 1] == buffer[..at + n] + [offered[n]];
      assert buffer[at + n + 1..] == buffer[at + n..][1..];
      assert was[at + n + 1..] == was[at + n..][1..];
    }
    assert buffer[..][..at + ret] == buffer[..at + ret] && buffer[..][at + ret..] == buffer[at + ret..];
  }

  // When the result is the whole transfer

  lemma {:induction false} TakenNothing(size: nat, replies: seq<WriteReply>, n: nat)
    requires n <= |replies| && WriteWaits(size, replies, n)
    ensures Total(Taken(size, replies, n)) == 0 <==> forall k :: 0 <= k < n && replies[k].Took? ==> replies[k].n == 0
  {
    NothingYet();
    hide Total;
    if n > 0 {
      TakenNothing(size, replies, n - 1);
      assert !WriteEnds(size, replies, n);
      if replies[n - 1].Took? {
        TotalAppend(Taken(size, replies, n - 1), replies[n - 1].n);
      }
    }
  }

  lemma {:induction false} GivenNothing(size: nat, replies: seq<ReadReply>, n: nat)
    requires n <= |replies| && ReadWaits(size, replies, n)
    ensures Concat(Given(size, replies, n)) == [] <==> forall k :: 0 <= k < n ==> replies[k].ReadError?
  {
    NothingYet();
    hide Concat;
    if n > 0 {
      GivenNothing(size, replies, n - 1);
      assert !ReadEnds(size, replies, n);
      if replies[n - 1].Gave? {
        var offered := replies[n - 1].offered;
        assert offered[..|offered|] == offered;
        ConcatAppend(Given(size, replies, n - 1), offered);
        assert Given(size, replies, n) == Given(size, replies, n - 1) + [offered];
      }
    }
  }

  /** A write loop that the n-th answer ends without an error returns the size of the whole transfer exactly when no answer
      before it took anything. */
  lemma WriteResultIsTotalIff(size: nat, replies: seq<WriteReply>, n: nat)
    requires 0 < n <= |replies| && WriteWaits(size, replies, n - 1) && WriteEnds(size, replies, n) && replies[n - 1].Took?
    ensures size - Total(Taken(size, replies, n - 1)) == size
            <==> forall k :: 0 <= k < n - 1 && replies[k].Took? ==> replies[k].n == 0
  {
    TakenNothing(size, replies, n - 1);
  }

  /** A read loop that the n-th answer ends without an error returns the number of bytes it delivered exactly when every
      answer before it was an error to be retried. */
  lemma ReadResultIsTotalIff(size: nat, replies: seq<ReadReply>, n: nat)
    requires 0 < n <= |replies| && ReadWaits(size, replies, n - 1) && ReadEnds(size, replies, n) && replies[n - 1].Gave?
    ensures var delivered := |Concat(Given(size, replies, n))|;
            delivered - |Concat(Given(size, replies, n - 1))| == delivered
            <==> forall k :: 0 <= k < n - 1 ==> replies[k].ReadError?
  {
    GivenNothing(size, replies, n - 1);
  }

  // stride_bounds

  datatype Bounds = Illegal | Bounds(nbytes: int, min: int, max: int)

  function Abs(x: int): nat {
    if x < 0 then -x else x
  }

  /** A stride of 0 stands for adjacent transfers. */
  function Step(stride: int, bytesPerStride: int): int {
    if stride == 0 then bytesPerStride else stride
  }

  /** Byte b is transferred by the i-th stride. */
  predicate TouchedBy(b: int, i: int, offset: int, stride: int, bytesPerStride: int) {
    offset + i * Step(stride, bytesPerStride) <= b < offset + i * Step(stride, bytesPerStride) + bytesPerStride
  }

  ghost predicate Touched(b: int, offset: int, stride: int, nstrides: int, bytesPerStride: int) {
    exists i :: 0 <= i < nstrides && TouchedBy(b, i, offset, stride, bytesPerStride)
  }

  /** min and max are the least and greatest byte transferred, and nbytes the distance they span. */
  ghost predicate TrueBounds(r: Bounds, offset: int, stride: int, nstrides: int, bytesPerStride: int) {
    && r.Bounds? && r.nbytes == r.max - r.min + 1
    && Touched(r.min, offset, stride, nstrides, bytesPerStride)
    && Touched(r.max, offset, stride, nstrides, bytesPerStride)
    && forall b :: Touched(b, offset, stride, nstrides, bytesPerStride) ==> r.min <= b <= r.max
  }

  /** stride_bounds gives the true bounds exactly when some byte is transferred at all. */
  method StrideBounds(offset: int, stride: int, nstrides: int, bytesPerStride: int) returns (r: Bounds)
    ensures r == Illegal <==> nstrides < 0 || bytesPerStride < 0
    ensures TrueBounds(r, offset, stride, nstrides, bytesPerStride) <==> nstrides >= 1 && bytesPerStride >= 1
    ensures r.Bounds? ==>
      && r.nbytes == r.max - r.min + 1
      && r.nbytes == (if stride < 0 then -stride else if stride > 0 then stride else bytesPerStride) * (nstrides - 1) + bytesPerStride
      && if stride < 0 then r.max == offset + bytesPerStride - 1 else r.min == offset
  {
    if nstrides < 0 || bytesPerStride < 0 {
      return Illegal;
    }
    var step := Step(stride, bytesPerStride);
    var nbytes := Abs(step) * (nstrides - 1) + bytesPerStride;
    var minByte, maxByte;
    if step < 0 {
      maxByte := offset + bytesPerStride - 1;
      minByte := maxByte - nbytes + 1;
    } else {
      minByte := offset;
      maxByte := minByte + nbytes - 1;
    }
    r := Bounds(nbytes, minByte, maxByte);
    if nstrides >= 1 && bytesPerStride >= 1 {
      BoundsAreTrue(r, offset, stride, nstrides, bytesPerStride);
    }
  }

  lemma BoundsAreTrue(r: Bounds, offset: int, stride: int, nstrides: int, bytesPerStride: int)
    requires nstrides >= 1 && bytesPerStride >= 1 && r.Bounds?
    requires var step := Step(stride, bytesPerStride);
             && r.nbytes == Abs(step) * (nstrides - 1) + bytesPerStride
             && (step < 0 ==> r.max == offset + bytesPerStride - 1 && r.min == r.max - r.nbytes + 1)
             && (step >= 0 ==> r.min == offset && r.max == r.min + r.nbytes - 1)
    ensures TrueBounds(r, offset, stride, nstrides, bytesPerStride)
  {
    var step, last := Step(stride, bytesPerStride), nstrides - 1;
    assert step < 0 ==> Abs(step) * last == -(last * step);
    assert step >= 0 ==> Abs(step) * last == last * step;
    var low, high := if step < 0 then last else 0, if step < 0 then 0 else last;
    assert TouchedBy(r.min, low, offset, stride, bytesPerStride);
    assert TouchedBy(r.max, high, offset, stride, bytesPerStride);
    forall b | Touched(b, offset, stride, nstrides, bytesPerStride) ensures r.min <= b <= r.max {
      var i :| 0 <= i < nstrides && TouchedBy(b, i, offset, stride, bytesPerStride);
      Between(i, last, step);
    }
  }

  lemma Between(i: int, last: int, step: int)
    requires 0 <= i <= last
    ensures if step < 0 then last * step <= i * step <= 0 else 0 <= i * step <= last * step
  {
    if step > 0 {
      Scale(0, i, step);
      Scale(i, last, step);
    } else if step < 0 {
      Scale(0, i, -step);
      Scale(i, last, -step);
      assert i * -step == -(i * step) && last * -step == -(last * step);
    }
  }

  /** With stride 0 the transfers lie end to end. */
  lemma StrideZero(b: int, offset: int, nstrides: nat, bytesPerStride: nat)
    ensures Touched(b, offset, 0, nstrides, bytesPerStride) <==> offset <= b < offset + nstrides * bytesPerStride
  {
    if Touched(b, offset, 0, nstrides, bytesPerStride) {
      var i :| 0 <= i < nstrides && TouchedBy(b, i, offset, 0, bytesPerStride);
      Scale(0, i, bytesPerStride);
      Scale(i + 1, nstrides, bytesPerStride);
      Distribute(i, 1, bytesPerStride);
    }
    if offset <= b < offset + nstrides * bytesPerStride {
      Piece(b - offset, nstrides, bytesPerStride);
      assert TouchedBy(b, (b - offset) / bytesPerStride, offset, 0, bytesPerStride);
    }
  }

  lemma Piece(d: nat, n: nat, m: nat)
    requires d < n * m
    ensures m > 0 && 0 <= d / m < n && d / m * m <= d < d / m * m + m
  {
    assert m > 0;
    DivMod(d, m);
    if d / m < 0 {
      Scale(d / m, 0, m);
    }
    if d / m >= n {
      Scale(n, d / m, m);
    }
  }

  /** With any other stride transfer i begins i strides behind the offset. */
  lemma StrideOther(b: int, i: int, offset: int, stride: int, bytesPerStride: int)
    requires stride != 0
    ensures TouchedBy(b, i, offset, stride, bytesPerStride) <==> 0 <= b - (offset + i * stride) < bytesPerStride
  {
  }
}
