/** Sequences of `Write` and `Read` calls on one counter, and what holds
    over a whole run of them: exact byte accounting, the payload position
    staying inside the payload, and the spacing of progress snapshots. */
module Trace {
  import opened Wrappers
  import opened Events
  import opened Counter

  /** One call on the counter, with what the caller supplies: the length
      written, or what the wrapped reader produced; and the time. */
  datatype Op =
    | WriteOp(len: nat, now: int)
    | ReadOp(n: nat, err: Option<IoError>, now: int)

  function Apply(c: Counter, op: Op): StepResult {
    match op
    case WriteOp(len, now) => Write(c, len, now)
    case ReadOp(n, err, now) => Read(c, n, err, now)
  }

  function Run(c: Counter, ops: seq<Op>): Counter
    decreases |ops|
  {
    if |ops| == 0 then c else Run(Apply(c, ops[0]).counter, ops[1..])
  }

  /** The byte counts the calls returned, in order. */
  function Returned(c: Counter, ops: seq<Op>): seq<int>
    decreases |ops|
  {
    if |ops| == 0 then []
    else [Apply(c, ops[0]).n] + Returned(Apply(c, ops[0]).counter, ops[1..])
  }

  /** The snapshots the calls emitted, in order. */
  function Emitted(c: Counter, ops: seq<Op>): seq<Snapshot>
    decreases |ops|
  {
    if |ops| == 0 then []
    else
      var r := Apply(c, ops[0]);
      (if r.snapshot.Some? then [r.snapshot.value] else []) + Emitted(r.counter, ops[1..])
  }

  /** The byte counts the callers asked for: the lengths written and the
      counts the reader produced. */
  function Requested(ops: seq<Op>): seq<int>
    decreases |ops|
  {
    if |ops| == 0 then []
    else [match ops[0] case WriteOp(len, _) => len case ReadOp(n, _, _) => n] + Requested(ops[1..])
  }

  function Sum(s: seq<int>): int
    decreases |s|
  {
    if |s| == 0 then 0 else s[0] + Sum(s[1..])
  }

  /** Every call returns exactly the count it was given, so what the
      callers see does not depend on the counter's state. */
  lemma {:induction false} ReturnedIsRequested(c: Counter, ops: seq<Op>)
    ensures Returned(c, ops) == Requested(ops)
    decreases |ops|
  {
    if |ops| > 0 {
      ReturnedIsRequested(Apply(c, ops[0]).counter, ops[1..]);
    }
  }

  /** No byte is lost or counted twice: the total grows by exactly the sum
      of the counts the calls returned, including those of reads that also
      returned an error. */
  lemma {:induction false} TotalIsSumOfReturned(c: Counter, ops: seq<Op>)
    ensures Total(Run(c, ops)) == Total(c) + Sum(Returned(c, ops))
    decreases |ops|
  {
    if |ops| > 0 {
      TotalIsSumOfReturned(Apply(c, ops[0]).counter, ops[1..]);
    }
  }

  /** From a total of zero, as a new counter has whatever setters ran on
      it, `Total` after any run is the number of bytes the callers wrote or
      read through the counter. */
  lemma TotalCountsAllCalls(c: Counter, ops: seq<Op>)
    requires Total(c) == 0
    ensures Total(Run(c, ops)) == Sum(Requested(ops))
  {
    TotalIsSumOfReturned(c, ops);
    ReturnedIsRequested(c, ops);
  }

  lemma {:induction false} SumOfNats(s: seq<int>)
    requires forall i :: 0 <= i < |s| ==> s[i] >= 0
    ensures Sum(s) >= 0
    decreases |s|
  {
    if |s| > 0 {
      SumOfNats(s[1..]);
    }
  }

  lemma {:induction false} RequestedNonNegative(ops: seq<Op>)
    ensures |Requested(ops)| == |ops|
    ensures forall i :: 0 <= i < |Requested(ops)| ==> Requested(ops)[i] >= 0
    decreases |ops|
  {
    if |ops| > 0 {
      RequestedNonNegative(ops[1..]);
    }
  }

  /** The total never decreases. */
  lemma TotalMonotone(c: Counter, ops: seq<Op>)
    ensures Total(c) <= Total(Run(c, ops))
  {
    TotalIsSumOfReturned(c, ops);
    ReturnedIsRequested(c, ops);
    RequestedNonNegative(ops);
    SumOfNats(Requested(ops));
  }

  /** Calls change neither the start, the payload size, the interval, the
      transfer type, the duration nor the base. */
  lemma {:induction false} RunKeepsConfiguration(c: Counter, ops: seq<Op>)
    ensures var c' := Run(c, ops);
            && c'.start == c.start && c'.uploadSize == c.uploadSize
            && c'.progressIntervalMs == c.progressIntervalMs && c'.transferType == c.transferType
            && c'.duration == c.duration && c'.mebi == c.mebi
    decreases |ops|
  {
    if |ops| > 0 {
      RunKeepsConfiguration(Apply(c, ops[0]).counter, ops[1..]);
    }
  }

  lemma {:induction false} SumRemove(s: seq<int>, j: nat)
    requires j < |s|
    ensures Sum(s) == s[j] + Sum(s[..j] + s[j + 1..])
    decreases |s|
  {
    if j == 0 {
      assert s[..0] + s[1..] == s[1..];
    } else {
      var t := s[1..];
      SumRemove(t, j - 1);
      var rest := s[..j] + s[j + 1..];
      RemoveAfterHead(s, j);
      assert Sum(rest) == rest[0] + Sum(rest[1..]);
    }
  }

  lemma RemoveAfterHead(s: seq<int>, j: nat)
    requires 0 < j < |s|
    ensures var rest := s[..j] + s[j + 1..];
            |rest| > 0 && rest[0] == s[0] && rest[1..] == s[1..][..j - 1] + s[1..][j..]
  {
  }

  lemma MultisetRemove(t: seq<int>, j: nat)
    requires j < |t|
    ensures multiset(t[..j] + t[j + 1..]) == multiset(t) - multiset{t[j]}
  {
    assert t == t[..j] + [t[j]] + t[j + 1..];
  }

  lemma MemberIndex(t: seq<int>, x: int) returns (j: nat)
    requires x in multiset(t)
    ensures j < |t| && t[j] == x
  {
    assert x in t;
    j :| 0 <= j < |t| && t[j] == x;
  }

  lemma SamePermutationAfterRemoval(s: seq<int>, t: seq<int>, j: nat)
    requires multiset(s) == multiset(t)
    requires 0 < |s| && j < |t| && t[j] == s[0]
    ensures multiset(s[1..]) == multiset(t[..j] + t[j + 1..])
  {
    MultisetTail(s);
    MultisetRemove(t, j);
    var x := s[0];
    assert t[j] == x;
    assert multiset(s[1..]) == multiset(s) - multiset{x};
    assert multiset(t[..j] + t[j + 1..]) == multiset(t) - multiset{x};
  }

  lemma MultisetTail(s: seq<int>)
    requires 0 < |s|
    ensures multiset(s[1..]) == multiset(s) - multiset{s[0]}
  {
    assert s == [s[0]] + s[1..];
  }

  /** The sum does not depend on the order of the summands. */
  lemma {:induction false} SumPermutation(s: seq<int>, t: seq<int>)
    requires multiset(s) == multiset(t)
    ensures Sum(s) == Sum(t)
    decreases |s|
  {
    if |s| == 0 {
      assert |t| == |multiset(t)| == 0;
    } else {
      var j := MemberIndex(t, s[0]);
      var rest := t[..j] + t[j + 1..];
      SamePermutationAfterRemoval(s, t, j);
      SumPermutation(s[1..], rest);
      SumRemove(t, j);
    }
  }

  /** Runs whose calls carry the same byte counts in any order end with the
      same total. */
  lemma SameCountsSameTotal(c: Counter, ops1: seq<Op>, ops2: seq<Op>)
    requires multiset(Requested(ops1)) == multiset(Requested(ops2))
    ensures Total(Run(c, ops1)) == Total(Run(c, ops2))
  {
    TotalIsSumOfReturned(c, ops1);
    TotalIsSumOfReturned(c, ops2);
    ReturnedIsRequested(c, ops1);
    ReturnedIsRequested(c, ops2);
    SumPermutation(Requested(ops1), Requested(ops2));
  }

  /** Order independence of the average rate: such runs report the same
      average at any time after the start. */
  lemma AvgBytesOrderIndependent(c: Counter, ops1: seq<Op>, ops2: seq<Op>, now: int)
    requires multiset(Requested(ops1)) == multiset(Requested(ops2))
    requires now > c.start
    ensures Run(c, ops1).start == c.start && Run(c, ops2).start == c.start
    ensures AvgBytes(Run(c, ops1), now) == AvgBytes(Run(c, ops2), now)
  {
    SameCountsSameTotal(c, ops1, ops2);
    RunKeepsConfiguration(c, ops1);
    RunKeepsConfiguration(c, ops2);
    var c1 := Run(c, ops1);
    var c2 := Run(c, ops2);
    assert c1.total == c2.total && c1.start == c2.start;
    assert ElapsedSeconds(c1, now) == ElapsedSeconds(c2, now);
  }

  /** The wrapped reader reads a payload of `uploadSize` bytes from the
      counter's position: no read produces more than what is left of it. */
  ghost predicate ReaderWithinPayload(c: Counter, ops: seq<Op>)
    decreases |ops|
  {
    |ops| > 0 ==>
      && (ops[0].ReadOp? ==> ops[0].n <= c.uploadSize - c.pos)
      && ReaderWithinPayload(Apply(c, ops[0]).counter, ops[1..])
  }

  /** With a non-empty payload and such a reader, the position stays inside
      the payload after every call. */
  lemma {:induction false} PositionStaysInPayload(c: Counter, ops: seq<Op>)
    requires c.uploadSize > 0 && 0 <= c.pos < c.uploadSize
    requires ReaderWithinPayload(c, ops)
    ensures 0 <= Run(c, ops).pos < c.uploadSize
    ensures Run(c, ops).uploadSize == c.uploadSize
    decreases |ops|
  {
    if |ops| > 0 {
      PositionStaysInPayload(Apply(c, ops[0]).counter, ops[1..]);
    }
  }

  /** Throttling: snapshots are spaced strictly more than the interval
      apart, starting from the last one before the run. With every call at
      or before `until`, at most one snapshot falls in each interval. */
  lemma {:induction false} EmissionBound(c: Counter, ops: seq<Op>, until: int)
    requires c.progressIntervalMs >= 0
    requires forall i :: 0 <= i < |ops| ==> ops[i].now <= until
    ensures |Emitted(c, ops)| * (c.progressIntervalMs + 1) <= Span(c.lastProgress, until)
    decreases |ops|
  {
    if |ops| > 0 {
      var r := Apply(c, ops[0]);
      var rest := ops[1..];
      StepThrottle(c, ops[0]);
      assert forall i :: 0 <= i < |rest| ==> rest[i].now == ops[i + 1].now;
      EmissionBound(r.counter, rest, until);
      var later := |Emitted(r.counter, rest)|;
      if r.snapshot.Some? {
        assert |Emitted(c, ops)| == 1 + later;
        assert ops[0].now <= until;
        OneMoreInterval(later, c.progressIntervalMs + 1, Span(ops[0].now, until), Span(c.lastProgress, until));
      } else {
        assert |Emitted(c, ops)| == later;
      }
    }
  }

  /** What one call does to the throttle: the interval stays, and the last
      progress time moves, to the call's time, exactly when it emits. */
  lemma StepThrottle(c: Counter, op: Op)
    ensures Apply(c, op).counter.progressIntervalMs == c.progressIntervalMs
    ensures Apply(c, op).snapshot.Some? ==>
              Apply(c, op).counter.lastProgress == op.now && op.now - c.lastProgress > c.progressIntervalMs
    ensures Apply(c, op).snapshot.None? ==> Apply(c, op).counter.lastProgress == c.lastProgress
  {
  }

  lemma OneMoreInterval(later: nat, step: nat, restSpan: nat, span: nat)
    requires later * step <= restSpan && restSpan + step <= span
    ensures (1 + later) * step <= span
  {
  }

  /** The time from `from` to `until`, or 0 if `until` is not later. */
  function Span(from: int, until: int): nat {
    if until > from then until - from else 0
  }

  /** Snapshots report totals that never decrease, each between the total
      before the run and the total after it. */
  lemma {:induction false} EmittedBytesOrdered(c: Counter, ops: seq<Op>)
    ensures forall k :: 0 <= k < |Emitted(c, ops)| ==>
              Emitted(c, ops)[k].TransferProgress? &&
              Total(c) <= Emitted(c, ops)[k].bytes <= Total(Run(c, ops))
    ensures forall j, k :: 0 <= j < k < |Emitted(c, ops)| ==>
              Emitted(c, ops)[j].bytes <= Emitted(c, ops)[k].bytes
    decreases |ops|
  {
    if |ops| > 0 {
      var r := Apply(c, ops[0]);
      EmittedBytesOrdered(r.counter, ops[1..]);
      TotalMonotone(r.counter, ops[1..]);
    }
  }
}
