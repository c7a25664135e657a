/** The PPS trigger-time bookkeeping of the Raspberry Pi application: the
    newest trigger time and the interval to the one before it, both kept as
    `uint32` milliseconds, the debounce applied to each rising edge, and the
    query that reports the newest trigger in microseconds. */
module Pps {
  import opened Common

  const TWO_32: int := 0x1_0000_0000

  newtype uint32 = x: int | 0 <= x < 0x1_0000_0000
  newtype uint64 = x: int | 0 <= x < 0x1_0000_0000_0000_0000

  /** Edges closer than this to the newest trigger are ignored. */
  const DEBOUNCE_MS: uint32 := 800

  /** `a - b` on `uint32`, which wraps modulo 2^32. */
  function Sub32(a: uint32, b: uint32): (r: uint32)
    ensures (b as int + r as int) % TWO_32 == a as int
    ensures b <= a ==> r == a - b
    ensures a < b ==> r as int == a as int + TWO_32 - b as int
  {
    ((a as int - b as int) % TWO_32) as uint32
  }

  /** The `uint64` product `ms * 1000`, which cannot overflow for a `uint32`
      operand. */
  function ToMicros(ms: uint32): (r: uint64)
    ensures r as int == ms as int * 1000
    ensures r == 0 <==> ms == 0
  {
    (ms as int * 1000) as uint64
  }

  /** The two module-level variables `pps_newest_trigger_time_ms` and
      `pps_trigger_time_diff_ms`. */
  datatype PpsState = PpsState(newestMs: uint32, diffMs: uint32)

  const INITIAL: PpsState := PpsState(0, 0)

  /** `handle_pps_event` with its clock reading `nowMs`: a recorded
      predecessor gives the interval, and `nowMs` becomes the newest time. */
  function OnTrigger(s: PpsState, nowMs: uint32): (r: PpsState)
    ensures r.newestMs == nowMs
    ensures s.newestMs == 0 ==> r.diffMs == s.diffMs
    ensures s.newestMs != 0 ==> (s.newestMs as int + r.diffMs as int) % TWO_32 == nowMs as int
  {
    PpsState(nowMs, if s.newestMs != 0 then Sub32(nowMs, s.newestMs) else s.diffMs)
  }

  /** The watcher's test for an edge read at `checkMs`: there is a newest
      trigger and less than DEBOUNCE_MS has passed since it (modulo 2^32). */
  predicate Debounced(s: PpsState, checkMs: uint32)
  {
    s.newestMs > 0 && Sub32(checkMs, s.newestMs) < DEBOUNCE_MS
  }

  /** `DjiTestRsp_GetNewestPpsTriggerLocalTimeUs`: `outputGiven` is false for
      a null pointer and `current` is what the output holds before the call;
      the result is the return code and what it holds after. */
  function Query(s: PpsState, outputGiven: bool, current: uint64): (r: (ReturnCode, uint64))
    ensures !outputGiven ==> r == (InvalidParameter, current)
    ensures outputGiven && s.newestMs == 0 ==> r == (Busy, current)
    ensures outputGiven && s.newestMs != 0 ==>
      r.0 == Success && r.1 as int == s.newestMs as int * 1000
    ensures r.0 == Success <==> outputGiven && s.newestMs != 0
  {
    if !outputGiven then (InvalidParameter, current)
    else if s.newestMs == 0 then (Busy, current)
    else (Success, ToMicros(s.newestMs))
  }

  // ---- The watcher loop ----------------------------------------------------

  /** What one turn of the `poll` loop sees: a failure (EINTR or another
      error), a timeout, or readiness, with whether POLLPRI is set, whether
      the value read succeeded, the clock reading taken for the debounce
      test and the one `handle_pps_event` takes. */
  datatype PollResult =
    | PollError(interrupted: bool)
    | PollTimeout
    | PollReady(priority: bool, readOk: bool, checkMs: uint32, eventMs: uint32)

  /** A poll failure other than EINTR ends the loop. */
  predicate Fatal(p: PollResult)
  {
    p.PollError? && !p.interrupted
  }

  /** The effect of one non-fatal turn of the loop on the state. */
  function Step(s: PpsState, p: PollResult): PpsState
  {
    match p
    case PollError(_) => s
    case PollTimeout => s
    case PollReady(priority, readOk, checkMs, eventMs) =>
      if !priority || !readOk || Debounced(s, checkMs) then s else OnTrigger(s, eventMs)
  }

  /** The state after the turns `polls`, in order. */
  function RunWatch(s: PpsState, polls: seq<PollResult>): PpsState
    decreases |polls|
  {
    if polls == [] then s else Step(RunWatch(s, polls[..|polls| - 1]), polls[|polls| - 1])
  }

  /** How many turns run before the first fatal failure. */
  function UntilFatal(polls: seq<PollResult>): (n: nat)
    ensures n <= |polls|
    ensures forall j :: 0 <= j < n ==> !Fatal(polls[j])
    ensures n < |polls| ==> Fatal(polls[n])
    decreases |polls|
  {
    if polls == [] || Fatal(polls[0]) then 0 else 1 + UntilFatal(polls[1..])
  }

  /** An edge inside the debounce window changes nothing, whatever the
      second clock reading. */
  lemma DebouncedBurstIgnored(s: PpsState, checkMs: uint32, eventMs: uint32)
    requires s.newestMs > 0 && Sub32(checkMs, s.newestMs) < DEBOUNCE_MS
    ensures Step(s, PollReady(true, true, checkMs, eventMs)) == s
  {
  }

  /** `(a - b) + (b - c) == a - c` on `uint32`, when the two parts together
      do not wrap. */
  lemma {:induction false} Sub32Split(a: uint32, b: uint32, c: uint32)
    requires Sub32(a, b) as int + Sub32(b, c) as int < TWO_32
    ensures Sub32(a, c) as int == Sub32(a, b) as int + Sub32(b, c) as int
  {
    var x, y := Sub32(a, b) as int, Sub32(b, c) as int;
    assert (b as int + x) % TWO_32 == a as int;
    assert (c as int + y) % TWO_32 == b as int;
    var d := Sub32(a, c) as int;
    assert (c as int + d) % TWO_32 == a as int;
    // c + y + x is congruent to a and so is c + d; both x + y and d lie
    // in [0, 2^32).
    assert (c as int + y + x) % TWO_32 == a as int by {
      var q := (c as int + y) / TWO_32;
      assert c as int + y == q * TWO_32 + b as int;
      assert c as int + y + x == q * TWO_32 + (b as int + x);
      ModShift(q, b as int + x);
    }
    SameResidue(c as int, x + y, d, a as int);
  }

  lemma ModShift(q: int, v: int)
    ensures (q * TWO_32 + v) % TWO_32 == v % TWO_32
  {
  }

  lemma SameResidue(c: int, u: int, v: int, a: int)
    requires 0 <= u < TWO_32 && 0 <= v < TWO_32 && 0 <= c < TWO_32
    requires (c + u) % TWO_32 == a && (c + v) % TWO_32 == a
    ensures u == v
  {
  }

  /** An edge that passes the debounce test and has a predecessor stores an
      interval of at least DEBOUNCE_MS, provided the time from the
      predecessor to the second reading stays below 2^32 ms; when both
      readings agree that is always so. */
  lemma AcceptedIntervalAtLeastDebounce(s: PpsState, checkMs: uint32, eventMs: uint32)
    requires s.newestMs > 0 && !Debounced(s, checkMs)
    requires Sub32(eventMs, checkMs) as int + Sub32(checkMs, s.newestMs) as int < TWO_32
    ensures var r := Step(s, PollReady(true, true, checkMs, eventMs));
      r == OnTrigger(s, eventMs) && r.diffMs >= DEBOUNCE_MS
  {
    Sub32Split(eventMs, checkMs, s.newestMs);
  }

  /** The first accepted edge only records its time: the interval keeps its
      initial 0, and the query then reports that time. */
  lemma FirstEventKeepsInterval(checkMs: uint32, eventMs: uint32)
    ensures var r := Step(INITIAL, PollReady(true, true, checkMs, eventMs));
      && r == PpsState(eventMs, 0)
      && (eventMs != 0 ==> Query(r, true, 0) == (Success, ToMicros(eventMs)))
  {
  }

  /** A trigger recorded while the clock reads 0 looks like no trigger at
      all: the query answers BUSY and leaves its output alone, and the next
      event is taken as the first one again. */
  lemma ZeroClockLooksUntriggered(s: PpsState, current: uint64, checkMs: uint32, nextMs: uint32)
    ensures var z := OnTrigger(s, 0);
      && Query(z, true, current) == (Busy, current)
      && Step(z, PollReady(true, true, checkMs, nextMs)) == PpsState(nextMs, z.diffMs)
  {
  }

  /** Timeouts, interrupted polls, edges without POLLPRI and failed reads
      leave the state as it was and log nothing. */
  lemma {:induction false} QuietTurnsChangeNothing(s: PpsState, polls: seq<PollResult>)
    requires forall j :: 0 <= j < |polls| ==>
      !polls[j].PollReady? || !polls[j].priority || !polls[j].readOk
    ensures RunWatch(s, polls) == s
    ensures WatchLog(s, polls) == []
    decreases |polls|
  {
    if polls != [] {
      QuietTurnsChangeNothing(s, polls[..|polls| - 1]);
    }
  }

  // ---- The log line of an accepted edge ------------------------------------

  /** The two messages the watcher logs after an accepted edge. */
  datatype LogLine = IntervalLine(diffMs: uint32, timeUs: uint64) | FirstEventLine

  /** As written: the query's output decides the message; `staleUs` is
      what the uninitialised `time_us` holds when the query fails. */
  function AsWrittenLogLine(after: PpsState, staleUs: uint64): LogLine
  {
    var q := Query(after, true, staleUs);
    if q.1 > 0 then IntervalLine(after.diffMs, q.1) else FirstEventLine
  }

  /** The first edge, read at any non-zero time, is logged as an interval of
      0 ms: the "(First event)" message never appears for it. */
  lemma FirstEventLoggedAsInterval(checkMs: uint32, eventMs: uint32, staleUs: uint64)
    requires eventMs != 0
    ensures var after := Step(INITIAL, PollReady(true, true, checkMs, eventMs));
      AsWrittenLogLine(after, staleUs) == IntervalLine(0, ToMicros(eventMs))
  {
  }

  /** As intended: the first-event message when the edge had no predecessor,
      the interval and time otherwise. */
  function IntendedLogLine(before: PpsState, after: PpsState): LogLine
  {
    if before.newestMs == 0 then FirstEventLine else IntervalLine(after.diffMs, ToMicros(after.newestMs))
  }

  /** With the intended message, an accepted edge is logged as the first
      event exactly when no trigger was recorded before it, and otherwise
      with the interval from its predecessor and its time in microseconds. */
  lemma IntendedLogMarksFirstEvent(s: PpsState, eventMs: uint32)
    ensures var line := IntendedLogLine(s, OnTrigger(s, eventMs));
      && (line.FirstEventLine? <==> s.newestMs == 0)
      && (line.IntervalLine? ==>
            && (s.newestMs as int + line.diffMs as int) % TWO_32 == eventMs as int
            && line.timeUs as int == eventMs as int * 1000)
  {
  }

  /** The two messages differ only for an edge without a predecessor or one
      recorded at clock 0: for every other edge the intended line is the one
      the code prints. */
  lemma IntendedAgreesAfterFirstEvent(s: PpsState, eventMs: uint32, staleUs: uint64)
    requires s.newestMs != 0 && eventMs != 0
    ensures IntendedLogLine(s, OnTrigger(s, eventMs)) == AsWrittenLogLine(OnTrigger(s, eventMs), staleUs)
  {
  }

  /** Whether one turn of the loop accepts an edge: POLLPRI is set, the value
      is read and the edge is outside the debounce window. */
  predicate AcceptsEdge(s: PpsState, p: PollResult)
  {
    p.PollReady? && p.priority && p.readOk && !Debounced(s, p.checkMs)
  }

  /** The messages one turn of the loop logs: the intended line for an
      accepted edge, none otherwise. */
  function StepLog(s: PpsState, p: PollResult): seq<LogLine>
  {
    if AcceptsEdge(s, p) then [IntendedLogLine(s, OnTrigger(s, p.eventMs))] else []
  }

  /** The messages logged over the turns `polls`, in order. */
  function WatchLog(s: PpsState, polls: seq<PollResult>): seq<LogLine>
    decreases |polls|
  {
    if polls == [] then []
    else WatchLog(s, polls[..|polls| - 1]) + StepLog(RunWatch(s, polls[..|polls| - 1]), polls[|polls| - 1])
  }

  /** The log holds at most one message per turn, and exactly one per turn
      when every turn accepts its edge. */
  lemma {:induction false} WatchLogOnePerAcceptedEdge(s: PpsState, polls: seq<PollResult>)
    ensures |WatchLog(s, polls)| <= |polls|
    ensures (forall j :: 0 <= j < |polls| ==> AcceptsEdge(RunWatch(s, polls[..j]), polls[j])) ==>
      |WatchLog(s, polls)| == |polls|
    decreases |polls|
  {
    if polls != [] {
      var init := polls[..|polls| - 1];
      WatchLogOnePerAcceptedEdge(s, init);
      if forall j :: 0 <= j < |polls| ==> AcceptsEdge(RunWatch(s, polls[..j]), polls[j]) {
        forall j | 0 <= j < |init|
          ensures AcceptsEdge(RunWatch(s, init[..j]), init[j])
        {
          assert init[..j] == polls[..j];
          assert AcceptsEdge(RunWatch(s, polls[..j]), polls[j]);
        }
        assert AcceptsEdge(RunWatch(s, polls[..|polls| - 1]), polls[|polls| - 1]);
      }
    }
  }

  // ---- The module-level variables and the functions over them -------------

  class PpsMonitor {
    var newestTriggerTimeMs: uint32
    var triggerTimeDiffMs: uint32
    /** The messages logged after accepted edges. */
    var log: seq<LogLine>

    ghost function Model(): PpsState
      reads this
    {
      PpsState(newestTriggerTimeMs, triggerTimeDiffMs)
    }

    /** Both variables start at 0. */
    constructor ()
      ensures Model() == INITIAL && log == []
    {
      newestTriggerTimeMs := 0;
      triggerTimeDiffMs := 0;
      log := [];
    }

    /** `handle_pps_event`, the clock reading passed in. */
    method HandleEvent(timeNowMs: uint32)
      modifies this`newestTriggerTimeMs, this`triggerTimeDiffMs
      ensures Model() == OnTrigger(old(Model()), timeNowMs)
    {
      if newestTriggerTimeMs != 0 {
        triggerTimeDiffMs := Sub32(timeNowMs, newestTriggerTimeMs);
      }
      newestTriggerTimeMs := timeNowMs;
    }

    /** `get_pps_trigger_time_diff_ms`: the stored interval. */
    method GetTriggerTimeDiffMs() returns (diffMs: uint32)
      ensures diffMs == Model().diffMs
    {
      diffMs := triggerTimeDiffMs;
    }

    /** `DjiTestRsp_GetNewestPpsTriggerLocalTimeUs`; the output is returned
        as `localTimeUs`, equal to `current` whenever it is not written. */
    method GetNewestPpsTriggerLocalTimeUs(outputGiven: bool, current: uint64)
      returns (rc: ReturnCode, localTimeUs: uint64)
      ensures (rc, localTimeUs) == Query(Model(), outputGiven, current)
    {
      localTimeUs := current;
      if !outputGiven {
        rc := InvalidParameter;
        return;
      }
      if newestTriggerTimeMs == 0 {
        rc := Busy;
        return;
      }
      localTimeUs := (newestTriggerTimeMs as int * 1000) as uint64;
      rc := Success;
    }

    /** One accepted edge: record it, read back the interval and the time,
        and log the line. */
    method Accept(eventMs: uint32)
      modifies this
      ensures Model() == OnTrigger(old(Model()), eventMs)
      ensures log == old(log) + [IntendedLogLine(old(Model()), Model())]
    {
      var first := newestTriggerTimeMs == 0;
      HandleEvent(eventMs);
      var diffMs := GetTriggerTimeDiffMs();
      var rc, timeUs := GetNewestPpsTriggerLocalTimeUs(true, 0);
      var line := if first then FirstEventLine else IntervalLine(diffMs, timeUs);
      log := log + [line];
    }

    /** The `while (true)` loop of `pps_signal_watcher` over the poll
        results `polls`; it stops at a fatal poll failure or when `polls`
        runs out, and returns how many turns it completed. */
    method Watch(polls: seq<PollResult>) returns (processed: nat)
      modifies this
      ensures processed == UntilFatal(polls)
      ensures Model() == RunWatch(old(Model()), polls[..processed])
      ensures log == old(log) + WatchLog(old(Model()), polls[..processed])
    {
      processed := 0;
      while processed < |polls| && !Fatal(polls[processed])
        invariant processed <= |polls|
        invariant forall j :: 0 <= j < processed ==> !Fatal(polls[j])
        invariant Model() == RunWatch(old(Model()), polls[..processed])
        invariant log == old(log) + WatchLog(old(Model()), polls[..processed])
        decreases |polls| - processed
      {
        var p := polls[processed];
        if p.PollReady? && p.priority && p.readOk {
          var debounced := newestTriggerTimeMs > 0
                           && Sub32(p.checkMs, newestTriggerTimeMs) < DEBOUNCE_MS;
          if !debounced {
            Accept(p.eventMs);
          }
        }
        assert polls[..processed + 1][..processed] == polls[..processed];
        processed := processed + 1;
      }
      UntilFatalIsFirst(polls, processed);
    }
  }

  lemma {:induction false} UntilFatalIsFirst(polls: seq<PollResult>, n: nat)
    requires n <= |polls|
    requires forall j :: 0 <= j < n ==> !Fatal(polls[j])
    requires n == |polls| || Fatal(polls[n])
    ensures UntilFatal(polls) == n
    decreases n
  {
    if n > 0 {
      UntilFatalIsFirst(polls[1..], n - 1);
    }
  }
}
