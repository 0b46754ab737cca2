/** The progress events sent outside the counter's own throttle: a download
    or upload snapshot for a counter and a given duration, and a ping
    snapshot. The time of sending is the explicit `now`. */
module Progress {
  import opened Wrappers
  import opened Events
  import opened Counter

  /** `SendDownloadProgress`: a download snapshot of the counter's total,
      with the completion fraction against `durationMs`. */
  function SendDownloadProgress(c: Counter, durationMs: int, now: int): (s: Snapshot)
    ensures Tag(s) == "download" && s.TransferProgress?
    ensures s.bytes == Total(c) && s.elapsed == now - c.start && s.timestamp == now
    ensures s.bandwidth == Bandwidth(Total(c), now - c.start)
    ensures s.completion == Completion(now - c.start, durationMs)
    ensures s.completion.Some? ==> s.completion.value <= 1.0
    ensures durationMs > 0 && now >= c.start ==> s.completion.Some? && 0.0 <= s.completion.value <= 1.0
  {
    TransferSnapshot(Download, c.total, c.start, durationMs, now)
  }

  /** `SendUploadProgress`: the same for an upload. */
  function SendUploadProgress(c: Counter, durationMs: int, now: int): (s: Snapshot)
    ensures Tag(s) == "upload" && s.TransferProgress?
    ensures s.bytes == Total(c) && s.elapsed == now - c.start && s.timestamp == now
    ensures s.bandwidth == Bandwidth(Total(c), now - c.start)
    ensures s.completion == Completion(now - c.start, durationMs)
    ensures s.completion.Some? ==> s.completion.value <= 1.0
    ensures durationMs > 0 && now >= c.start ==> s.completion.Some? && 0.0 <= s.completion.value <= 1.0
  {
    TransferSnapshot(Upload, c.total, c.start, durationMs, now)
  }

  /** `SendPingProgress`: latency, jitter and progress are passed through
      as given. */
  function SendPingProgress(latency: real, jitter: real, progress: real, now: int): (s: Snapshot)
    ensures Tag(s) == "ping" && s.PingProgress?
    ensures s.latency == latency && s.jitter == jitter && s.progress == progress && s.timestamp == now
  {
    PingProgress(now, latency, jitter, progress)
  }

  /** A download snapshot sent for the counter's own duration is the one a
      `Write` emits at the same time, when one is due. */
  lemma WriteEmitsDownloadProgress(c: Counter, len: nat, now: int)
    requires Due(c, Download, now)
    ensures var r := Write(c, len, now);
            r.snapshot == Some(SendDownloadProgress(r.counter, c.duration, now))
  {
  }

  /** Likewise an upload snapshot and a `Read`. */
  lemma ReadEmitsUploadProgress(c: Counter, n: nat, err: Option<IoError>, now: int)
    requires Due(c, Upload, now)
    ensures var r := Read(c, n, err, now);
            r.snapshot == Some(SendUploadProgress(r.counter, c.duration, now))
  {
  }
}
