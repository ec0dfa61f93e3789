/** The GPS time-discipline object: PPS edge statistics, the NMEA line reader,
    the single-slot invalidation reason and the time query.

    Calendar time (`struct tm _nmea_timestamp`) is modelled as seconds since the
    epoch, so `mktime` is the identity and `tm_sec += 1` adds one second.
    The NMEA library (minmea) is a parameter of type `Decoder`; the microsecond
    clock (`time_us_64`) is a parameter `now`; the UART receive FIFO is the
    sequence of bytes available when `Process` runs. */
module Gps {
  import opened Bits
  import opened Wrappers

  const REASON_SIZE: nat := 128
  const NMEA_BUFFER_SIZE: nat := 128
  /** Period after the previous PPS edge beyond which an interval is rejected. */
  const PPS_VALID_TIME_MS: nat := 1001
  /** Declared for the NMEA timeout, whose check is disabled in `process`. */
  const NMEA_VALID_TIME_MS: nat := 1100
  const US_PER_MS: nat := 1000
  const US_PER_SEC: nat := 1_000_000
  const MICROS_PER_SEC: nat := 1_000_000
  const PPS_WINDOW_US: nat := PPS_VALID_TIME_MS * US_PER_MS
  /** The largest microsecond value `getTime` hands out. */
  const MAX_USEC: nat := 999_999
  const NEWLINE: uint8 := 10

  // ---------------------------------------------------------------------------
  // External collaborators

  /** An RMC fix as minmea decodes it: its validity flag and its date and time,
      converted to seconds since the epoch. */
  datatype RmcFrame = RmcFrame(valid: bool, seconds: int)

  /** The sentence kinds `process` switches on; `Rmc(None)` is an RMC sentence
      that minmea failed to parse. */
  datatype Decoded = Rmc(frame: Option<RmcFrame>) | Gga | Gsv | Unknown

  /** minmea, applied to the whole 128-byte line buffer. */
  type Decoder = seq<uint8> -> Decoded

  /** `struct timeval`: seconds and (32-bit signed) microseconds. */
  datatype TimeVal = TimeVal(sec: int, usec: int)

  // ---------------------------------------------------------------------------
  // Discipline state and its pure transitions

  /** Every scalar field of the object; the line buffer and the reason buffer
      are arrays of the class below. */
  datatype Discipline = Discipline(
    valid: bool,
    nmeaSeconds: int,          // _nmea_timestamp
    nmeaTimestampUs: uint64,   // _nmea_timestamp_us
    ppsTimestampUs: uint64,    // _pps_timestamp_us
    ppsTimestampUsPrev: uint64,
    minMicros: uint32,
    maxMicros: uint32,
    lastMicros: uint32,
    validCount: uint32,
    validSince: int,
    timeouts: uint32)

  /** The state right after construction of the global object (fields the
      constructor does not set are zero, as for any static object). */
  const INITIAL: Discipline := Discipline(false, 0, 0, 0, 0, 0, 0, 0, 0, 0, 0)

  /** The microseconds between the previous PPS edge and an edge at `now`,
      as the unsigned 64-bit subtraction computes them. */
  function Interval(d: Discipline, now: uint64): uint64 {
    Wrap64(now - d.ppsTimestampUs)
  }

  /** The statistics the PPS handler maintains stay ordered and inside the
      acceptance window. */
  predicate StatsOrdered(d: Discipline) {
    d.minMicros <= d.maxMicros <= PPS_WINDOW_US
  }

  /** One PPS edge at time `now`. */
  function PpsStep(d: Discipline, now: uint64): (e: Discipline)
    // the timestamps shift and the calendar second advances on every edge
    ensures e.ppsTimestampUsPrev == d.ppsTimestampUs && e.ppsTimestampUs == now
    ensures e.nmeaSeconds == d.nmeaSeconds + 1
    // nothing else but the statistics changes; in particular validity does not
    ensures e.(minMicros := d.minMicros, maxMicros := d.maxMicros)
         == d.(ppsTimestampUsPrev := d.ppsTimestampUs, ppsTimestampUs := now, nmeaSeconds := d.nmeaSeconds + 1)
    // a lost edge leaves the statistics alone
    ensures Interval(d, now) > PPS_WINDOW_US ==> e.minMicros == d.minMicros && e.maxMicros == d.maxMicros
    // an accepted interval lies between the new bounds, which move only outwards
    // (the minimum may also move up from the "unset" value 0)
    ensures Interval(d, now) <= PPS_WINDOW_US ==>
              && e.minMicros <= Interval(d, now) <= e.maxMicros
              && (e.maxMicros == d.maxMicros || e.maxMicros == Interval(d, now))
              && (e.minMicros == d.minMicros || e.minMicros == Interval(d, now))
              && d.maxMicros <= e.maxMicros
              && (d.minMicros != 0 ==> e.minMicros <= d.minMicros)
    ensures StatsOrdered(d) ==> StatsOrdered(e)
  {
    var elapsed := Interval(d, now);
    var shifted := d.(ppsTimestampUsPrev := d.ppsTimestampUs, ppsTimestampUs := now,
                      nmeaSeconds := d.nmeaSeconds + 1);
    if elapsed > PPS_WINDOW_US then shifted
    else
      shifted.(minMicros := if d.minMicros == 0 || elapsed < d.minMicros then elapsed else d.minMicros,
               maxMicros := if elapsed > d.maxMicros then elapsed else d.maxMicros)
  }

  /** A run of PPS edges at the given times. */
  function PpsRun(d: Discipline, edges: seq<uint64>): Discipline
    decreases |edges|
  {
    if edges == [] then d else PpsRun(PpsStep(d, edges[0]), edges[1..])
  }

  /** Over any run of edges: the second advances once per edge, validity is
      untouched, the maximum never decreases and the statistics stay ordered
      (so the jitter `max - min` never wraps). */
  lemma {:induction false} PpsRunInvariants(d: Discipline, edges: seq<uint64>)
    ensures PpsRun(d, edges).nmeaSeconds == d.nmeaSeconds + |edges|
    ensures PpsRun(d, edges).valid == d.valid
    ensures PpsRun(d, edges).nmeaTimestampUs == d.nmeaTimestampUs
    ensures PpsRun(d, edges).maxMicros >= d.maxMicros
    ensures edges != [] ==> PpsRun(d, edges).ppsTimestampUs == edges[|edges| - 1]
    ensures StatsOrdered(d) ==> StatsOrdered(PpsRun(d, edges))
    decreases |edges|
  {
    if edges != [] {
      PpsRunInvariants(PpsStep(d, edges[0]), edges[1..]);
      if |edges| > 1 {
        assert edges[1..][|edges[1..]| - 1] == edges[|edges| - 1];
      }
    }
  }

  /** An RMC sentence that parsed and carries the valid flag. */
  predicate FixAcquired(s: Decoded) {
    s.Rmc? && s.frame.Some? && s.frame.value.valid
  }

  /** The effect of one complete sentence on the discipline state. */
  function Dispatch(d: Discipline, s: Decoded, now: uint64): (e: Discipline)
    ensures FixAcquired(s) ==>
              e == d.(nmeaSeconds := s.frame.value.seconds, nmeaTimestampUs := now, valid := true)
    ensures !FixAcquired(s) ==> e == d
    ensures e.valid ==> d.valid || FixAcquired(s)
  {
    match s
    case Rmc(frame) =>
      if frame.Some? && frame.value.valid then
        d.(nmeaSeconds := frame.value.seconds, nmeaTimestampUs := now, valid := true)
      else d
    case Gga => d
    case Gsv => d
    case Unknown => d
  }

  /** The value `tv_usec` holds right after `(uint32_t)(cur_micros - _pps_timestamp_us)`
      is stored into it. */
  function RawUsec(d: Discipline, now: uint64): int {
    Int32(Wrap32(Wrap64(now - d.ppsTimestampUs)))
  }

  /** What `getTime` reports at clock reading `now`: nothing while not valid,
      otherwise seconds and microseconds with the microseconds clamped to one second. */
  function TimeAt(d: Discipline, now: uint64): (r: Option<TimeVal>)
    ensures r.Some? <==> d.valid
    ensures r.Some? ==> 0 <= r.value.usec <= MAX_USEC
    // the last RMC arrived after the last PPS edge: whole seconds since the RMC,
    // sub-second part from the PPS edge
    ensures r.Some? && d.ppsTimestampUs <= d.nmeaTimestampUs ==>
              && r.value.sec == d.nmeaSeconds + Wrap64(now - d.nmeaTimestampUs) / US_PER_SEC
              && r.value.usec == Wrap64(now - d.ppsTimestampUs) % US_PER_SEC
    // a PPS edge came after the RMC (the edge already advanced the second):
    // the raw 32-bit difference, or 999999 when it is out of range
    ensures r.Some? && d.ppsTimestampUs > d.nmeaTimestampUs ==>
              && r.value.sec == d.nmeaSeconds
              && (0 <= RawUsec(d, now) < US_PER_SEC ==> r.value.usec == RawUsec(d, now))
              && (!(0 <= RawUsec(d, now) < US_PER_SEC) ==> r.value.usec == MAX_USEC)
  {
    if !d.valid then None
    else
      var sinceNmea := Wrap64(now - d.nmeaTimestampUs);
      var sincePps := Wrap64(now - d.ppsTimestampUs);
      var tv := if d.ppsTimestampUs > d.nmeaTimestampUs
                then TimeVal(d.nmeaSeconds, RawUsec(d, now))
                else TimeVal(d.nmeaSeconds + sinceNmea / US_PER_SEC,
                             sincePps - (sincePps / US_PER_SEC) * US_PER_SEC);
      Some(if tv.usec >= US_PER_SEC || tv.usec < 0 then tv.(usec := MAX_USEC) else tv)
  }

  /** How far a PPS interval strays from one second. */
  function Deviation(interval: int): nat {
    if interval <= MICROS_PER_SEC then MICROS_PER_SEC - interval else interval - MICROS_PER_SEC
  }

  /** The integer part of `getDispersion`, as intended: the larger deviation of
      the two interval bounds from one second, which bounds the deviation of
      every interval between them. */
  function DispersionMicros(minMicros: uint32, maxMicros: uint32): (r: nat)
    ensures r == Deviation(minMicros) || r == Deviation(maxMicros)
    ensures forall e :: minMicros <= e <= maxMicros ==> Deviation(e) <= r
  {
    if Deviation(maxMicros) >= Deviation(minMicros) then Deviation(maxMicros) else Deviation(minMicros)
  }

  /** The integer part of `getDispersion` as written: both differences are taken
      in unsigned 32-bit arithmetic before the maximum. */
  function DispersionAsWritten(minMicros: uint32, maxMicros: uint32): (r: uint32)
    ensures maxMicros <= MICROS_PER_SEC && minMicros <= MICROS_PER_SEC ==>
              r == DispersionMicros(minMicros, maxMicros)
  {
    var a := Wrap32(MICROS_PER_SEC - maxMicros);
    var b := Wrap32(MICROS_PER_SEC - minMicros);
    if a > b then a else b
  }

  /** Two accepted intervals of 0.99999 s and 1.00001 s make the written
      dispersion wrap to almost 2^32 microseconds instead of 10. */
  lemma DispersionWrapsAfterLongSecond()
    ensures var d := PpsRun(INITIAL, [5_000_000, 5_999_990, 7_000_000]);
            && d.minMicros == 999_990 && d.maxMicros == 1_000_010
            && DispersionAsWritten(d.minMicros, d.maxMicros) == TWO_32 - 10
            && DispersionMicros(d.minMicros, d.maxMicros) == 10
  {
    var d1 := PpsStep(INITIAL, 5_000_000);
    var d2 := PpsStep(d1, 5_999_990);
    var d3 := PpsStep(d2, 7_000_000);
    assert PpsRun(INITIAL, [5_000_000, 5_999_990, 7_000_000]) == d3 by {
      assert [5_000_000, 5_999_990, 7_000_000][1..] == [5_999_990, 7_000_000];
      assert [5_999_990, 7_000_000][1..] == [7_000_000];
      assert [7_000_000 as uint64][1..] == [];
    }
  }

  // ---------------------------------------------------------------------------
  // The line reader

  /** A partial line in which no `'\n'` past index 1 has been stored. */
  predicate Pending(line: seq<uint8>) {
    forall k :: 2 <= k < |line| ==> line[k] != NEWLINE
  }

  /** The 128-byte buffer holding `line` followed by zeros. */
  function Padded(line: seq<uint8>): (b: seq<uint8>)
    requires |line| <= NMEA_BUFFER_SIZE
    ensures |b| == NMEA_BUFFER_SIZE && b[..|line|] == line
  {
    line + seq(NMEA_BUFFER_SIZE - |line|, _ => 0)
  }

  /** The outcome of draining the UART into the line buffer: bytes read, the
      buffered line afterwards, and whether it ends a sentence. */
  datatype ScanResult = ScanResult(consumed: nat, line: seq<uint8>, complete: bool)

  /** A scan of the input after its first `n` bytes, counted from its start. */
  function ShiftConsumed(r: ScanResult, n: nat): ScanResult {
    r.(consumed := r.consumed + n)
  }

  /** One stored byte that does not end a sentence: it extends the line, or,
      when the line would fill the buffer, the line is dropped (the bounds guard). */
  function Append(line: seq<uint8>, b: uint8): (next: seq<uint8>)
    requires |line| < NMEA_BUFFER_SIZE
    ensures |next| < NMEA_BUFFER_SIZE
  {
    if |line| + 1 == NMEA_BUFFER_SIZE then [] else line + [b]
  }

  /** The reading loop of `process`, with the bounds guard the source lacks: a
      line that fills the 128-byte buffer without a terminator is discarded. */
  function Scan(line: seq<uint8>, input: seq<uint8>): (r: ScanResult)
    requires |line| < NMEA_BUFFER_SIZE
    ensures r.consumed <= |input|
    // without a terminator every available byte is read and the line stays in bounds
    ensures !r.complete ==> r.consumed == |input| && |r.line| < NMEA_BUFFER_SIZE
    // a sentence ends with the byte that was read last, a '\n' at index 2 or later
    ensures r.complete ==> && 0 < r.consumed && input[r.consumed - 1] == NEWLINE
                           && 3 <= |r.line| <= NMEA_BUFFER_SIZE
                           && r.line[|r.line| - 1] == NEWLINE
    decreases |input|
  {
    if input == [] then ScanResult(0, line, false)
    else if |line| > 1 && input[0] == NEWLINE then ScanResult(1, line + [input[0]], true)
    else
      var r := Scan(Append(line, input[0]), input[1..]);
      assert r.complete ==> input[r.consumed] == input[1..][r.consumed - 1];
      ShiftConsumed(r, 1)
  }

  /** Reading stops at the first '\n' past index 1: the completed sentence holds
      no earlier one, and an unfinished line holds none. */
  lemma {:induction false} ScanStopsAtFirstTerminator(line: seq<uint8>, input: seq<uint8>)
    requires |line| < NMEA_BUFFER_SIZE && Pending(line)
    ensures var r := Scan(line, input);
            Pending(if r.complete then r.line[..|r.line| - 1] else r.line)
    decreases |input|
  {
    if input != [] && !(|line| > 1 && input[0] == NEWLINE) {
      ScanStopsAtFirstTerminator(Append(line, input[0]), input[1..]);
    }
  }

  /** One step of `Scan` that stores a byte without ending or dropping the line. */
  lemma ScanUnfold(line: seq<uint8>, input: seq<uint8>)
    requires |line| + 1 < NMEA_BUFFER_SIZE && input != [] && !(|line| > 1 && input[0] == NEWLINE)
    ensures Scan(line, input) == ShiftConsumed(Scan(line + [input[0]], input[1..]), 1)
  {
    assert Append(line, input[0]) == line + [input[0]];
  }

  lemma AppendPrefix(line: seq<uint8>, input: seq<uint8>, n: nat)
    requires n < |input|
    ensures (line + [input[0]]) + input[1..][..n] == line + input[..n + 1]
  {
    assert input[..n + 1] == [input[0]] + input[1..][..n];
  }

  /** While the buffer cannot fill, the line is exactly the bytes read,
      appended to what was buffered before. */
  lemma {:induction false} ScanAppends(line: seq<uint8>, input: seq<uint8>)
    requires |line| + |input| < NMEA_BUFFER_SIZE
    ensures var r := Scan(line, input); r.line == line + input[..r.consumed]
    decreases |input|
  {
    if input == [] {
      assert input[..0] == [];
    } else if |line| > 1 && input[0] == NEWLINE {
      assert input[..1] == [input[0]];
    } else {
      ScanUnfold(line, input);
      ScanAppends(line + [input[0]], input[1..]);
      AppendPrefix(line, input, Scan(line + [input[0]], input[1..]).consumed);
    }
  }

  /** The array indices the reading loop of `process` stores into, as written:
      no bounds check, and `_buf_idx` is a `uint8_t` that wraps at 256. */
  function StoresAsWritten(idx: uint8, input: seq<uint8>): (s: seq<uint8>)
    decreases |input|
  {
    if input == [] then []
    else if idx > 1 && input[0] == NEWLINE then [idx]
    else [idx] + StoresAsWritten((idx + 1) % TWO_8, input[1..])
  }

  /** Without a terminator, the loop as written stores at consecutive indices. */
  lemma {:induction false} StoresAsWrittenConsecutive(idx: uint8, input: seq<uint8>)
    requires idx + |input| <= TWO_8
    requires forall k :: 0 <= k < |input| ==> input[k] != NEWLINE
    ensures |StoresAsWritten(idx, input)| == |input|
    ensures forall k :: 0 <= k < |input| ==> StoresAsWritten(idx, input)[k] == idx + k
    decreases |input|
  {
    if input != [] {
      var rest := StoresAsWritten((idx + 1) % TWO_8, input[1..]);
      assert StoresAsWritten(idx, input) == [idx] + rest;
      if |input| > 1 {
        assert (idx + 1) % TWO_8 == idx + 1;
        assert forall k :: 0 <= k < |input[1..]| ==> input[1..][k] == input[k + 1];
        StoresAsWrittenConsecutive(idx + 1, input[1..]);
      } else {
        assert input[1..] == [];
      }
    }
  }

  /** A garbled line of 129 bytes without a terminator makes the loop as
      written store at index 128, one past the end of the 128-byte buffer. */
  lemma AsWrittenOverrunsBuffer(input: seq<uint8>)
    requires |input| == NMEA_BUFFER_SIZE + 1
    requires forall k :: 0 <= k < |input| ==> input[k] != NEWLINE
    ensures |StoresAsWritten(0, input)| == |input|
    ensures StoresAsWritten(0, input)[NMEA_BUFFER_SIZE] == NMEA_BUFFER_SIZE
  {
    StoresAsWrittenConsecutive(0, input);
  }

  /** The same garbled line under the guarded reader is dropped: nothing
      reaches the parser and the buffer starts over. */
  lemma {:induction false} GuardedReaderDropsOverlongLine(line: seq<uint8>, input: seq<uint8>)
    requires |line| < NMEA_BUFFER_SIZE
    requires |line| + |input| == NMEA_BUFFER_SIZE
    requires forall k :: 0 <= k < |input| ==> input[k] != NEWLINE
    ensures Scan(line, input) == ScanResult(|input|, [], false)
    decreases |input|
  {
    assert input != [];
    if |input| > 1 {
      GuardedReaderDropsOverlongLine(line + [input[0]], input[1..]);
    } else {
      assert input[1..] == [];
    }
  }

  // ---------------------------------------------------------------------------
  // The invalidation reason

  /** `vsnprintf(dest, size, ...)` producing `text`: at most `size - 1`
      characters, then a terminator; the rest of `dest` is left alone. */
  function Vsnprintf(dest: seq<uint8>, size: nat, text: seq<uint8>): (r: seq<uint8>)
    requires 0 < size <= |dest|
    ensures |r| == |dest|
    ensures var n := if |text| < size - 1 then |text| else size - 1;
            && r[..n] == text[..n] && r[n] == 0 && r[n + 1..] == dest[n + 1..]
  {
    var n := if |text| < size - 1 then |text| else size - 1;
    text[..n] + [0] + dest[n + 1..]
  }

  /** The reason buffer after `invalidate(text)`: a pending reason is kept,
      otherwise the text is stored, truncated, and the last byte is zeroed. */
  function ReasonAfter(reason: seq<uint8>, text: seq<uint8>): (r: seq<uint8>)
    requires |reason| == REASON_SIZE
    ensures |r| == REASON_SIZE && r[REASON_SIZE - 1] == 0
    ensures reason[0] != 0 && reason[REASON_SIZE - 1] == 0 ==> r == reason
    ensures reason[0] == 0 ==>
              var n := if |text| < REASON_SIZE - 2 then |text| else REASON_SIZE - 2;
              r[..n] == text[..n] && r[n] == 0
  {
    if reason[0] == 0 then Vsnprintf(reason, REASON_SIZE - 1, text)[REASON_SIZE - 1 := 0]
    else reason[REASON_SIZE - 1 := 0]
  }

  /** First reason wins: a second invalidation before the mailbox is cleared
      leaves the first (non-empty) reason in place. */
  lemma FirstReasonWins(reason: seq<uint8>, first: seq<uint8>, second: seq<uint8>)
    requires |reason| == REASON_SIZE && reason[0] == 0
    requires first != [] && first[0] != 0
    ensures ReasonAfter(ReasonAfter(reason, first), second) == ReasonAfter(reason, first)
  {
    assert ReasonAfter(reason, first)[0] == first[0];
  }

  // ---------------------------------------------------------------------------
  // The object

  class GPS {
    const buf: array<uint8>
    var bufIdx: uint8
    var validCount: uint32
    var validSince: int
    var minMicros: uint32
    var maxMicros: uint32
    var lastMicros: uint32
    var timeouts: uint32
    var valid: bool
    const reason: array<uint8>
    var nmeaSeconds: int
    var nmeaTimestampUs: uint64
    var ppsTimestampUs: uint64
    var ppsTimestampUsPrev: uint64

    /** The object invariant: both buffers have their declared sizes, the line
        index is in bounds with zeros from it onwards, the pending line holds no
        terminator, the reason is terminated, the statistics are ordered and the
        counters no code updates keep their initial values. */
    ghost predicate Valid()
      reads this, buf, reason
    {
      && LineValid()
      && reason.Length == REASON_SIZE && buf != reason
      && reason[REASON_SIZE - 1] == 0
      && StatsOrdered(State())
      && validCount == 0 && validSince == 0 && timeouts == 0
    }

    /** The scalar fields as one value. */
    function State(): Discipline
      reads this
    {
      Discipline(valid, nmeaSeconds, nmeaTimestampUs, ppsTimestampUs, ppsTimestampUsPrev,
                 minMicros, maxMicros, lastMicros, validCount, validSince, timeouts)
    }

    /** The bytes of the sentence being accumulated. */
    function Line(): seq<uint8>
      reads this, buf
      requires bufIdx <= buf.Length
    {
      buf[..bufIdx]
    }

    constructor ()
      ensures Valid() && fresh(buf) && fresh(reason)
      ensures State() == INITIAL
      ensures Line() == [] && buf[..] == seq(NMEA_BUFFER_SIZE, _ => 0)
      ensures reason[0] == 0
      ensures !IsValid() && GetJitter() == 0
    {
      validCount := 0;
      minMicros := 0;
      maxMicros := 0;
      lastMicros := 0;
      timeouts := 0;
      valid := false;
      nmeaTimestampUs := 0;
      ppsTimestampUs := 0;
      // zero-initialised static storage
      validSince := 0;
      nmeaSeconds := 0;
      ppsTimestampUsPrev := 0;
      reason := new uint8[REASON_SIZE](_ => 0);
      buf := new uint8[NMEA_BUFFER_SIZE](_ => 0);
      bufIdx := 0;
    }

    function IsValid(): (r: bool)
      reads this
      ensures r == State().valid
    {
      valid
    }

    /** The spread of accepted PPS intervals; it never wraps while the
        statistics are ordered. */
    function GetJitter(): (r: uint32)
      reads this
      ensures minMicros <= maxMicros ==> r == maxMicros - minMicros
    {
      Wrap32(maxMicros - minMicros)
    }

    /** No code increments the count of validity transitions. */
    function GetValidCount(): (r: uint32)
      reads this, buf, reason
      requires Valid()
      ensures r == 0
    {
      validCount
    }

    /** No code assigns the time validity was gained. */
    function GetValidSince(): (r: int)
      reads this, buf, reason
      requires Valid()
      ensures r == 0
    {
      validSince
    }

    /** The integer part of `getDispersion`, in microseconds (corrected). */
    function GetDispersionMicros(): (r: nat)
      reads this
      ensures forall e :: minMicros <= e <= maxMicros ==> Deviation(e) <= r
      ensures r == Deviation(minMicros) || r == Deviation(maxMicros)
    {
      DispersionMicros(minMicros, maxMicros)
    }

    /** The PPS interrupt handler, run atomically at clock reading `now`. */
    method Pps(now: uint64)
      requires Valid()
      modifies this`ppsTimestampUsPrev, this`ppsTimestampUs, this`nmeaSeconds, this`minMicros, this`maxMicros
      ensures Valid()
      ensures State() == PpsStep(old(State()), now)
    {
      ppsTimestampUsPrev := ppsTimestampUs;
      ppsTimestampUs := now;
      var elapsed := Wrap64(ppsTimestampUs - ppsTimestampUsPrev);

      nmeaSeconds := nmeaSeconds + 1;

      if elapsed > PPS_WINDOW_US {
        return;
      }
      if minMicros == 0 || elapsed < minMicros {
        minMicros := elapsed;
      }
      if elapsed > maxMicros {
        maxMicros := elapsed;
      }
    }

    /** `getTime`: fills `tv` only when valid; `tv` is what the caller's
        pointer referred to before the call. */
    method GetTime(now: uint64, tv: TimeVal) returns (ok: bool, tv': TimeVal)
      ensures ok == valid
      ensures ok ==> TimeAt(State(), now) == Some(tv')
      ensures !ok ==> tv' == tv
    {
      var curMicros := now;
      if !valid {
        return false, tv;
      }
      tv' := TimeVal(nmeaSeconds, Int32(Wrap32(Wrap64(curMicros - ppsTimestampUs))));
      if ppsTimestampUs > nmeaTimestampUs {
        // the PPS handler already advanced the second
      } else {
        var usSinceNmeaLock := Wrap64(curMicros - nmeaTimestampUs);
        var secondsSinceNmeaLock := usSinceNmeaLock / US_PER_SEC;
        var usSincePpsLock := Wrap64(curMicros - ppsTimestampUs);
        var secondsSincePpsLock := usSincePpsLock / US_PER_SEC;
        var usRemainderSincePpsLock := usSincePpsLock - secondsSincePpsLock * US_PER_SEC;
        tv' := tv'.(sec := tv'.sec + secondsSinceNmeaLock);
        tv' := tv'.(usec := usRemainderSincePpsLock);
      }
      if tv'.usec >= US_PER_SEC || tv'.usec < 0 {
        tv' := tv'.(usec := MAX_USEC);
      }
      ok := true;
    }

    /** `invalidate`: keep a pending reason, otherwise store `text`; always
        drop validity and the last interval. */
    method Invalidate(text: seq<uint8>)
      requires Valid()
      modifies this, reason
      ensures Valid()
      ensures reason[..] == ReasonAfter(old(reason[..]), text)
      ensures State() == old(State()).(valid := false, lastMicros := 0)
      ensures bufIdx == old(bufIdx)
    {
      if reason[0] == 0 {
        var written := Vsnprintf(reason[..], REASON_SIZE - 1, text);
        forall k | 0 <= k < REASON_SIZE {
          reason[k] := written[k];
        }
        reason[REASON_SIZE - 1] := 0;
      }
      valid := false;
      lastMicros := 0;
    }

    /** The line buffer's own invariant: in bounds, zeros from the index on,
        and no terminator stored past index 1. */
    ghost predicate LineValid()
      reads this, buf
    {
      && buf.Length == NMEA_BUFFER_SIZE && bufIdx < NMEA_BUFFER_SIZE
      && (forall k :: bufIdx <= k < NMEA_BUFFER_SIZE ==> buf[k] == 0)
      && Pending(buf[..bufIdx])
    }

    /** One iteration of the reading loop of `process`: store `b` at the line
        index; a '\n' past index 1 ends the sentence, any other byte advances
        the index, and a line that would run past the buffer is dropped. */
    method StoreByte(b: uint8) returns (ended: bool)
      requires LineValid()
      modifies this`bufIdx, buf
      ensures buf.Length == NMEA_BUFFER_SIZE
      ensures ended == (|old(Line())| > 1 && b == NEWLINE)
      ensures ended ==> && 1 < bufIdx < NMEA_BUFFER_SIZE && buf[bufIdx] == NEWLINE
                        && buf[..] == Padded(old(Line()) + [b])
      ensures !ended ==> LineValid() && Line() == Append(old(Line()), b)
    {
      ghost var line := buf[..bufIdx];
      buf[bufIdx] := b;
      assert buf[..bufIdx + 1] == line + [b];
      if bufIdx > 1 && buf[bufIdx] == NEWLINE {
        assert buf[..] == Padded(line + [b]);
        return true;
      }
      bufIdx := bufIdx + 1;
      if bufIdx == NMEA_BUFFER_SIZE {
        forall k | 0 <= k < NMEA_BUFFER_SIZE {
          buf[k] := 0;
        }
        bufIdx := 0;
      }
      return false;
    }

    /** The reading loop of `process`: store available UART bytes (`input`)
        until a sentence ends. Reports how many bytes were read and whether the
        buffer now holds a complete sentence. */
    method ReadSentence(input: seq<uint8>) returns (consumed: nat, complete: bool)
      requires LineValid()
      modifies this`bufIdx, buf
      ensures buf.Length == NMEA_BUFFER_SIZE && bufIdx < NMEA_BUFFER_SIZE
      ensures var r := Scan(old(Line()), input);
              && consumed == r.consumed && complete == r.complete
              && (complete ==> && 1 < bufIdx && buf[bufIdx] == NEWLINE
                               && buf[..] == Padded(r.line))
              && (!complete ==> LineValid() && Line() == r.line)
    {
      ghost var r := Scan(Line(), input);
      var i := 0;
      var done := false;
      while i < |input| && !done
        invariant 0 <= i <= |input|
        invariant buf.Length == NMEA_BUFFER_SIZE
        invariant !done ==> && LineValid()
                            && r == ShiftConsumed(Scan(Line(), input[i..]), i)
        invariant done ==> && 1 < bufIdx < NMEA_BUFFER_SIZE && buf[bufIdx] == NEWLINE
                           && r == ScanResult(i, r.line, true) && buf[..] == Padded(r.line)
      {
        ghost var line := Line();
        assert input[i..][1..] == input[i + 1..];
        done := StoreByte(input[i]);
        i := i + 1;
      }
      if !done {
        assert input[i..] == [];
      }
      consumed, complete := i, done;
    }

    /** One call of `process` from the main loop: clear the reason mailbox,
        read available UART bytes (`input`) up to the end of a sentence, and
        hand a complete sentence to the decoder; `now` is the clock reading
        taken when an RMC fix is recorded. Returns how many bytes were read. */
    method Process(input: seq<uint8>, decode: Decoder, now: uint64) returns (consumed: nat)
      requires Valid()
      modifies this, buf, reason
      ensures Valid()
      ensures reason[..] == old(reason[..])[0 := 0]
      ensures var r := Scan(old(Line()), input);
              && consumed == r.consumed
              && (r.complete ==> && State() == Dispatch(old(State()), decode(Padded(r.line)), now)
                                 && Line() == [] && buf[..] == seq(NMEA_BUFFER_SIZE, _ => 0))
              && (!r.complete ==> State() == old(State()) && Line() == r.line)
    {
      ghost var state := State();
      ghost var line := Line();
      if reason[0] != 0 {
        reason[0] := 0;
      }
      assert reason[..] == old(reason[..])[0 := 0];
      assert reason[REASON_SIZE - 1] == 0;

      var complete;
      consumed, complete := ReadSentence(input);
      assert State() == state && StatsOrdered(state);

      if bufIdx > 1 && buf[bufIdx] == NEWLINE {
        assert complete && buf[..] == Padded(Scan(line, input).line);
        HandleSentence(decode(buf[..]), now);
        assert StatsOrdered(State());
        ClearLine();
      }
    }

    /** The switch on the sentence kind in `process`: only a parsed RMC fix
        with its valid flag set records the fix time and sets validity. */
    method HandleSentence(sentence: Decoded, now: uint64)
      modifies this`nmeaSeconds, this`nmeaTimestampUs, this`valid
      ensures State() == Dispatch(old(State()), sentence, now)
    {
      match sentence {
        case Rmc(frame) =>
          if frame.Some? && frame.value.valid {
            nmeaSeconds := frame.value.seconds;
            nmeaTimestampUs := now;
            valid := true;
          }
        case Gga =>
        case Gsv =>
        case Unknown =>
      }
    }

    /** `memset(&_buf, 0, sizeof(_buf)); _buf_idx = 0;` */
    method ClearLine()
      requires buf.Length == NMEA_BUFFER_SIZE
      modifies this`bufIdx, buf
      ensures LineValid() && Line() == [] && buf[..] == seq(NMEA_BUFFER_SIZE, _ => 0)
    {
      forall k | 0 <= k < NMEA_BUFFER_SIZE {
        buf[k] := 0;
      }
      bufIdx := 0;
    }
  }
}
