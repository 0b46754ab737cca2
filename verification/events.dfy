/** The progress events the measurement emits: one tagged snapshot type in
    place of the source's several JSON structs, and the arithmetic that fills
    in a download or upload snapshot. Times are integer milliseconds. */
module Events {
  import opened Wrappers
  import opened RealArith

  datatype Kind = Download | Upload

  /** The JSON `type` tag of a transfer snapshot, also the `transferType`
      string a counter must carry to emit it. */
  function KindTag(k: Kind): string {
    match k
    case Download => "download"
    case Upload => "upload"
  }

  /** A transfer snapshot's `completion` is the JSON `progress` field.
      `bandwidth` and `completion` are `None` where the source's float64
      arithmetic yields no finite number. */
  datatype Snapshot =
    | PingProgress(timestamp: int, latency: real, jitter: real, progress: real)
    | TransferProgress(timestamp: int, kind: Kind, bytes: int, elapsed: int,
                       bandwidth: Option<int>, completion: Option<real>)

  function Tag(s: Snapshot): string {
    match s
    case PingProgress(_, _, _, _) => "ping"
    case TransferProgress(_, k, _, _, _, _) => KindTag(k)
  }

  /** Go's `int(x)` for a finite float64: truncation toward zero. */
  function TruncateTowardZero(x: real): (r: int)
    ensures 0.0 <= x ==> 0 <= r && r as real <= x < r as real + 1.0
    ensures x < 0.0 ==> r <= 0 && r as real - 1.0 < x <= r as real
  {
    if x >= 0.0 then x.Floor else -((-x).Floor)
  }

  /** Bytes per second over `elapsed` milliseconds, truncated to an integer.
      With no time elapsed the source divides by zero and converts an
      infinity or NaN to int, whose value Go leaves unspecified: `None`. */
  function Bandwidth(bytes: int, elapsed: int): (r: Option<int>)
    ensures r.Some? <==> elapsed != 0
    ensures elapsed > 0 && bytes >= 0 ==>
              0 <= r.value && r.value * elapsed <= bytes * 1000 < (r.value + 1) * elapsed
  {
    if elapsed == 0 then None
    else
      var r := TruncateTowardZero(bytes as real / (elapsed as real / 1000.0));
      TruncationBounds(bytes, elapsed);
      Some(r)
  }

  lemma TruncationBounds(bytes: int, elapsed: int)
    requires elapsed != 0
    ensures var r := TruncateTowardZero(bytes as real / (elapsed as real / 1000.0));
            elapsed > 0 && bytes >= 0 ==> 0 <= r && r * elapsed <= bytes * 1000 < (r + 1) * elapsed
  {
    if elapsed > 0 && bytes >= 0 {
      var q := bytes as real / (elapsed as real / 1000.0);
      QuotientTimesDivisor(bytes, elapsed as real, q);
      var r := TruncateTowardZero(q);
      FloorBounds(bytes, elapsed, q, r);
    }
  }

  /** An integer within one of the exact quotient brackets it. */
  lemma FloorBounds(bytes: int, elapsed: int, q: real, r: int)
    requires elapsed > 0 && bytes >= 0
    requires q * elapsed as real == (bytes * 1000) as real
    requires 0.0 <= q ==> r as real <= q < r as real + 1.0
    requires q < 0.0 ==> r <= 0
    ensures 0 <= r && r * elapsed <= bytes * 1000 < (r + 1) * elapsed
  {
    NonNegativeFactor(q, elapsed as real, (bytes * 1000) as real);
    LowerBound(r, elapsed, q, bytes * 1000);
    UpperBound(r, elapsed, q, bytes * 1000);
  }

  lemma LowerBound(r: int, elapsed: int, q: real, p: int)
    requires elapsed > 0 && r as real <= q && q * elapsed as real == p as real
    ensures r * elapsed <= p
  {
    ScaleLe(r as real, q, elapsed as real);
    IntProduct(r, elapsed);
  }

  lemma UpperBound(r: int, elapsed: int, q: real, p: int)
    requires elapsed > 0 && q < r as real + 1.0 && q * elapsed as real == p as real
    ensures p < (r + 1) * elapsed
  {
    ScaleLt(q, (r + 1) as real, elapsed as real);
    IntProduct(r + 1, elapsed);
  }

  lemma NonNegativeFactor(q: real, e: real, p: real)
    requires e > 0.0 && p >= 0.0 && q * e == p
    ensures q >= 0.0
  {
    if q < 0.0 {
      ScaleLt(q, 0.0, e);
    }
  }

  lemma QuotientTimesDivisor(bytes: int, e: real, q: real)
    requires e > 0.0 && q == bytes as real / (e / 1000.0)
    ensures q * e == (bytes * 1000) as real
  {
  }

  /** The completion fraction `elapsed / duration`, capped at 1 but not
      floored at 0. A zero duration gives +Inf (capped to 1) for a positive
      `elapsed` and NaN or -Inf otherwise, which is `None`. */
  function Completion(elapsed: int, duration: int): (r: Option<real>)
    ensures r.Some? ==> r.value <= 1.0
    ensures r.None? <==> duration == 0 && elapsed <= 0
    ensures duration > 0 && elapsed >= 0 ==> 0.0 <= r.value
    ensures duration > 0 ==> (r.value == 1.0 <==> elapsed >= duration)
    ensures duration > 0 && elapsed < duration ==> r.value * duration as real == elapsed as real
    ensures duration == 0 && elapsed > 0 ==> r == Some(1.0)
    ensures duration < 0 ==> (r.value == 1.0 <==> elapsed <= duration)
    ensures duration < 0 && elapsed > duration ==> r.value * duration as real == elapsed as real
  {
    if duration == 0 then
      if elapsed > 0 then Some(1.0) else None
    else
      var q := elapsed as real / duration as real;
      Some(if q > 1.0 then 1.0 else q)
  }

  /** The fraction never decreases as time passes. */
  lemma CompletionMonotone(e1: int, e2: int, duration: int)
    requires duration > 0 && e1 <= e2
    ensures Completion(e1, duration).value <= Completion(e2, duration).value
  {
    var d := duration as real;
    assert e1 as real / d <= e2 as real / d by {
      assert e1 as real / d * d == e1 as real;
      assert e2 as real / d * d == e2 as real;
    }
  }

  /** The snapshot a download or upload progress event carries at time
      `now` for a phase started at `start` with `total` bytes so far. */
  function TransferSnapshot(kind: Kind, total: int, start: int, duration: int, now: int): (s: Snapshot)
    ensures s.TransferProgress? && s.kind == kind && Tag(s) == KindTag(kind)
    ensures s.timestamp == now && s.bytes == total && s.elapsed == now - start
    ensures s.completion.Some? ==> s.completion.value <= 1.0
    ensures duration > 0 && now >= start ==> s.completion.Some? && 0.0 <= s.completion.value <= 1.0
    ensures s.bandwidth.Some? <==> now != start
    ensures s.bandwidth == Bandwidth(total, now - start)
    ensures s.completion == Completion(now - start, duration)
  {
    var elapsed := now - start;
    TransferProgress(now, kind, total, elapsed, Bandwidth(total, elapsed), Completion(elapsed, duration))
  }
}
