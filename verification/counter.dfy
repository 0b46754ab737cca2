/** The byte counter that every transfer stream of a phase reads from or
    writes to, modelled for one sequential caller. Time is an explicit
    integer number of milliseconds (`now`), and the payload reader the
    counter wraps is represented only by what one read of it returned. */
module Counter {
  import opened Wrappers
  import opened Events
  import Rates

  /** An error returned by the wrapped payload reader. */
  datatype IoError = IoError(message: string)

  datatype Counter = Counter(
    start: int,               // when the phase started
    pos: int,                 // offset within the upload payload
    total: int,               // bytes read or written so far
    mebi: bool,               // binary (1024) rather than decimal (1000) multiples
    uploadSize: int,          // payload length in bytes
    lastProgress: int,        // when the last progress snapshot was emitted
    progressIntervalMs: int,  // minimum spacing of snapshots
    transferType: string,     // "ping", "download" or "upload"
    duration: int             // expected length of the phase
  )

  const DefaultProgressIntervalMs := 100

  /** What one `Write` or `Read` returns, the counter after it, and the
      progress snapshot it emitted, if any. */
  datatype StepResult = StepResult(counter: Counter, n: int, err: Option<IoError>, snapshot: Option<Snapshot>)

  /** A new counter: everything zero or empty except the 100 ms progress
      interval. */
  function NewCounter(): (c: Counter)
    ensures c.progressIntervalMs == 100
    ensures c.total == 0 && c.pos == 0 && c.uploadSize == 0 && c.duration == 0
    ensures c.start == 0 && c.lastProgress == 0 && c.transferType == "" && !c.mebi
  {
    Counter(0, 0, 0, false, 0, 0, DefaultProgressIntervalMs, "", 0)
  }

  function SetMebi(c: Counter, mebi: bool): (r: Counter)
    ensures r.mebi == mebi && r.(mebi := c.mebi) == c
  {
    c.(mebi := mebi)
  }

  function SetTransferType(c: Counter, transferType: string): (r: Counter)
    ensures r.transferType == transferType && r.(transferType := c.transferType) == c
  {
    c.(transferType := transferType)
  }

  function SetDuration(c: Counter, duration: int): (r: Counter)
    ensures r.duration == duration && r.(duration := c.duration) == c
  {
    c.(duration := duration)
  }

  /** The payload size is given in KiB and stored in bytes. */
  function SetUploadSize(c: Counter, kib: int): (r: Counter)
    ensures r.uploadSize == kib * 1024 && r.(uploadSize := c.uploadSize) == c
  {
    c.(uploadSize := kib * 1024)
  }

  /** Stamps the start of the phase; the throttle's first interval runs
      from the same instant. */
  function Start(c: Counter, now: int): (r: Counter)
    ensures r.start == now && r.lastProgress == r.start
    ensures r.(start := c.start, lastProgress := c.lastProgress) == c
  {
    c.(start := now, lastProgress := now)
  }

  function Total(c: Counter): int {
    c.total
  }

  /** The throttle: a snapshot of `kind` is due only when strictly more than
      the interval has passed since the last one and the counter is set to
      that kind of transfer. */
  predicate Due(c: Counter, kind: Kind, now: int) {
    now - c.lastProgress > c.progressIntervalMs && c.transferType == KindTag(kind)
  }

  /** The second half of `Write` and `Read`: emit a snapshot when it is due
      and restart the interval. */
  function Emit(c: Counter, kind: Kind, now: int): (Counter, Option<Snapshot>) {
    if Due(c, kind, now) then
      (c.(lastProgress := now), Some(TransferSnapshot(kind, c.total, c.start, c.duration, now)))
    else
      (c, None)
  }

  /** A download stream hands over `len` bytes. */
  function Write(c: Counter, len: nat, now: int): (r: StepResult)
    ensures r.n == len && r.err.None?
    ensures r.counter.total == c.total + len
    ensures r.counter.(total := c.total, lastProgress := c.lastProgress) == c
    ensures r.snapshot.Some? <==> Due(c, Download, now)
    ensures r.counter.lastProgress == if r.snapshot.Some? then now else c.lastProgress
    ensures r.snapshot.Some? ==>
              var s := r.snapshot.value;
              && Tag(s) == "download" && s.bytes == r.counter.total && s.elapsed == now - c.start
              && s == TransferSnapshot(Download, r.counter.total, c.start, c.duration, now)
  {
    var (c', snapshot) := Emit(c.(total := c.total + len), Download, now);
    StepResult(c', len, None, snapshot)
  }

  /** Rewinds the payload: the position goes back to 0. Repositioning the
      wrapped reader itself is outside the model. */
  function ResetReader(c: Counter): (r: Counter)
    ensures r.pos == 0 && r.(pos := c.pos) == c
  {
    c.(pos := 0)
  }

  /** An upload stream pulls from the payload; the wrapped reader produced
      `n` bytes and `err`. Both are counted and passed on whether or not
      there was an error, and the payload rewinds exactly when the position
      reaches its end. */
  function Read(c: Counter, n: nat, err: Option<IoError>, now: int): (r: StepResult)
    ensures r.n == n && r.err == err
    ensures r.counter.total == c.total + n
    ensures r.counter.pos == if c.pos + n == c.uploadSize then 0 else c.pos + n
    ensures r.counter.(total := c.total, pos := c.pos, lastProgress := c.lastProgress) == c
    ensures r.snapshot.Some? <==> Due(c, Upload, now)
    ensures r.counter.lastProgress == if r.snapshot.Some? then now else c.lastProgress
    ensures r.snapshot.Some? ==>
              var s := r.snapshot.value;
              && Tag(s) == "upload" && s.bytes == r.counter.total && s.elapsed == now - c.start
              && s == TransferSnapshot(Upload, r.counter.total, c.start, c.duration, now)
    ensures 0 <= c.pos < c.uploadSize && n <= c.uploadSize - c.pos ==>
              0 <= r.counter.pos < c.uploadSize
  {
    var advanced := c.(total := c.total + n, pos := c.pos + n);
    var rewound := if advanced.pos == advanced.uploadSize then ResetReader(advanced) else advanced;
    var (c', snapshot) := Emit(rewound, Upload, now);
    StepResult(c', n, err, snapshot)
  }

  /** `SeekWrapper.Seek`: a reader that cannot seek pretends to, reporting
      offset 0 and no error whatever it is asked. */
  function SeekWrapperSeek(offset: int, whence: int): (r: (int, Option<IoError>))
    ensures r.0 == 0 && r.1 == None
  {
    (0, None)
  }

  /** Seconds elapsed since the start, as a real. */
  function ElapsedSeconds(c: Counter, now: int): real {
    (now - c.start) as real / 1000.0
  }

  /** Average bytes per second since the start. With no time elapsed the
      source divides by zero; a started phase has `now > start`. */
  function AvgBytes(c: Counter, now: int): (r: real)
    requires now > c.start
    ensures r * ElapsedSeconds(c, now) == c.total as real
    ensures c.total >= 0 ==> r >= 0.0
  {
    c.total as real / ElapsedSeconds(c, now)
  }

  /** `CurrentSpeed` is the same average as `AvgBytes`. */
  function CurrentSpeed(c: Counter, now: int): (r: real)
    requires now > c.start
    ensures r == AvgBytes(c, now)
  {
    c.total as real / ElapsedSeconds(c, now)
  }

  /** Average megabits per second: 125000 bytes are 10^6 bits, and with
      binary multiples 131072 bytes are 2^20 bits. */
  function AvgMbps(c: Counter, now: int): (r: real)
    requires now > c.start
    ensures !c.mebi ==> r * 1000000.0 == AvgBytes(c, now) * 8.0
    ensures c.mebi ==> r * 1048576.0 == AvgBytes(c, now) * 8.0
  {
    var base := if c.mebi then 131072.0 else 125000.0;
    AvgBytes(c, now) / base
  }

  /** `AvgHumanize`: the average rate in the unit `Rates.Humanize` picks for
      the counter's base. */
  function AvgHumanize(c: Counter, now: int): (r: Rates.Rate)
    requires now > c.start
    ensures Rates.Expresses(r, AvgBytes(c, now), c.mebi)
  {
    Rates.Humanize(AvgBytes(c, now), c.mebi)
  }

  /** A counter that was never given a transfer type emits nothing. */
  lemma NewCounterIsSilent(len: nat, n: nat, err: Option<IoError>, now: int)
    ensures Write(NewCounter(), len, now).snapshot.None?
    ensures Read(NewCounter(), n, err, now).snapshot.None?
  {
  }

  /** Right after `Start`, a download counter emits on a write exactly when
      strictly more than the interval has passed since the start. */
  lemma StartOpensInterval(c: Counter, start: int, len: nat, now: int)
    ensures Write(Start(c, start), len, now).snapshot.Some? <==>
              now > start + c.progressIntervalMs && c.transferType == KindTag(Download)
  {
  }
}
