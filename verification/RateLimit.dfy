/**
 * The per-source UDP token bucket of conpot/utils/rate_limit.py.
 *
 * `UdpRateLimiter` is the class; `TableStep` is the function it is proved against.
 * Time stamps and token counts are reals. The clock is an argument of every call.
 */
module RateLimit {
  import opened Wrappers

  const REPORT_INTERVAL: real := 60.0

  datatype Config = Config(rate: real, burst: real, maxSources: int) {
    predicate Enabled() {
      rate > 0.0 && burst > 0.0
    }
  }

  /** The fields of one `_Bucket`. */
  datatype Cell = Cell(tokens: real, updated: real, dropped: nat, reported: real)

  /** One drop line in the log: how many drops it covers, and when it was written. */
  datatype Report = Report(count: nat, at: real)

  datatype Verdict = Verdict(cell: Cell, allowed: bool, report: Option<Report>)

  function Min(a: real, b: real): real {
    if a <= b then a else b
  }

  function NewCell(cfg: Config, now: real): Cell {
    Cell(cfg.burst, now, 0, now)
  }

  function Gain(cfg: Config, elapsed: real): real {
    elapsed * cfg.rate
  }

  function Refill(cfg: Config, c: Cell, now: real): Cell {
    var elapsed := now - c.updated;
    c.(tokens := if elapsed > 0.0 then Min(cfg.burst, c.tokens + Gain(cfg, elapsed)) else c.tokens, updated := now)
  }

  function Spend(c: Cell, now: real): Verdict {
    if c.tokens >= 1.0 then
      Verdict(c.(tokens := c.tokens - 1.0), true, None)
    else if now - c.reported < REPORT_INTERVAL then
      Verdict(c.(dropped := c.dropped + 1), false, None)
    else
      Verdict(c.(dropped := 0, reported := now), false, Some(Report(c.dropped + 1, now)))
  }

  /** What one bucket does with a datagram at `now`; `None` is a source never seen. */
  function Decide(cfg: Config, prev: Option<Cell>, now: real): Verdict {
    Spend(if prev.None? then NewCell(cfg, now) else Refill(cfg, prev.value, now), now)
  }

  // ---------- One bucket over a whole run ----------

  function VerdictAt(cfg: Config, times: seq<real>, j: nat): Verdict
    requires j < |times|
    decreases j, 0
  {
    Decide(cfg, if j == 0 then None else Some(VerdictAt(cfg, times, j - 1).cell), times[j])
  }

  /** The bucket after the first `n` calls, made at `times`. */
  function BucketAfter(cfg: Config, times: seq<real>, n: nat): Option<Cell>
    requires n <= |times|
  {
    if n == 0 then None else Some(VerdictAt(cfg, times, n - 1).cell)
  }

  predicate Allowed(cfg: Config, times: seq<real>, j: nat)
    requires j < |times|
  {
    VerdictAt(cfg, times, j).allowed
  }

  /** Forward clock movement between calls `i` and `j`; backward steps count as nothing. */
  function Elapsed(times: seq<real>, i: nat, j: nat): real
    requires i <= j < |times|
    decreases j
  {
    if i == j then 0.0
    else
      var step := times[j] - times[j - 1];
      Elapsed(times, i, j - 1) + if step > 0.0 then step else 0.0
  }

  /** How many of the calls `i..j` (`j` excluded) were allowed. */
  function Granted(cfg: Config, times: seq<real>, i: nat, j: nat): nat
    requires i <= j <= |times|
    decreases j
  {
    if i == j then 0 else Granted(cfg, times, i, j - 1) + if Allowed(cfg, times, j - 1) then 1 else 0
  }

  predicate NonDecreasing(times: seq<real>) {
    forall i, j | 0 <= i < j < |times| :: times[i] <= times[j]
  }

  lemma {:induction false} ElapsedIsDifference(times: seq<real>, i: nat, j: nat)
    requires i <= j < |times| && NonDecreasing(times)
    ensures Elapsed(times, i, j) == times[j] - times[i]
    decreases j
  {
    if i < j {
      ElapsedIsDifference(times, i, j - 1);
    }
  }

  /** With one more datagram, the window from call `i` to call `j` is within burst plus rate times duration. */
  predicate Fits(cfg: Config, times: seq<real>, i: nat, j: nat)
    requires i <= j < |times|
  {
    Granted(cfg, times, i, j) as real + 1.0 <= cfg.burst + cfg.rate * Elapsed(times, i, j)
  }

  /** The greedy conformance test: every window that ends with this call has room for it. */
  ghost predicate Conforms(cfg: Config, times: seq<real>, j: nat)
    requires j < |times|
  {
    forall i: nat | i <= j :: Fits(cfg, times, i, j)
  }

  function EarnedStep(cfg: Config, times: seq<real>, j: nat): real
    requires 0 < j < |times|
  {
    var step := times[j] - times[j - 1];
    if step > 0.0 then Gain(cfg, step) else 0.0
  }

  /** Tokens refilled between calls `i` and `j` if nothing ran over; `EarnedIsProduct` is its closed form. */
  function Earned(cfg: Config, times: seq<real>, i: nat, j: nat): real
    requires i <= j < |times|
    decreases j
  {
    if i == j then 0.0 else Earned(cfg, times, i, j - 1) + EarnedStep(cfg, times, j)
  }

  lemma {:induction false} EarnedIsProduct(cfg: Config, times: seq<real>, i: nat, j: nat)
    requires i <= j < |times|
    ensures Earned(cfg, times, i, j) == cfg.rate * Elapsed(times, i, j)
    decreases j
  {
    if i < j {
      EarnedIsProduct(cfg, times, i, j - 1);
      var e, step := Elapsed(times, i, j - 1), times[j] - times[j - 1];
      if step > 0.0 {
        assert cfg.rate * (e + step) == cfg.rate * e + step * cfg.rate;
      }
    }
  }

  /** What the window that starts at call `i` still leaves at call `j`. */
  function Room(cfg: Config, times: seq<real>, i: nat, j: nat): real
    requires i <= j < |times|
  {
    cfg.burst + Earned(cfg, times, i, j) - Granted(cfg, times, i, j) as real
  }

  function TokensBefore(cfg: Config, times: seq<real>, j: nat): real
    requires j < |times|
  {
    if j == 0 then cfg.burst else Refill(cfg, VerdictAt(cfg, times, j - 1).cell, times[j]).tokens
  }

  lemma {:induction false} TokensStep(cfg: Config, times: seq<real>, j: nat)
    requires j < |times|
    ensures VerdictAt(cfg, times, j).cell.updated == times[j]
    ensures Allowed(cfg, times, j) <==> TokensBefore(cfg, times, j) >= 1.0
    ensures VerdictAt(cfg, times, j).cell.tokens ==
            TokensBefore(cfg, times, j) - if Allowed(cfg, times, j) then 1.0 else 0.0
  {
    if j > 0 {
      assert VerdictAt(cfg, times, j) == Decide(cfg, Some(VerdictAt(cfg, times, j - 1).cell), times[j]);
    }
  }

  lemma {:induction false} RefillTokens(cfg: Config, c: Cell, last: real, now: real)
    requires c.tokens <= cfg.burst && c.updated == last
    ensures Refill(cfg, c, now).tokens ==
            Min(cfg.burst, c.tokens + if now - last > 0.0 then Gain(cfg, now - last) else 0.0)
  {
  }

  /** The lazy update, read as one step of a minimum. */
  lemma {:induction false} RefillStep(cfg: Config, times: seq<real>, j: nat)
    requires 0 < j < |times| && cfg.Enabled()
    requires TokensBefore(cfg, times, j - 1) <= cfg.burst
    ensures TokensBefore(cfg, times, j) ==
            Min(cfg.burst, TokensBefore(cfg, times, j - 1) + EarnedStep(cfg, times, j)
                           - if Allowed(cfg, times, j - 1) then 1.0 else 0.0)
  {
    TokensStep(cfg, times, j - 1);
    RefillTokens(cfg, VerdictAt(cfg, times, j - 1).cell, times[j - 1], times[j]);
  }

  /** The lazy token count is the least room over all windows: a bound, and attained at the returned index. */
  lemma {:induction false} TokensAreLeastRoom(cfg: Config, times: seq<real>, j: nat) returns (w: nat)
    requires j < |times| && cfg.Enabled()
    ensures w <= j && TokensBefore(cfg, times, j) == Room(cfg, times, w, j)
    ensures forall i: nat | i <= j :: TokensBefore(cfg, times, j) <= Room(cfg, times, i, j)
  {
    if j == 0 {
      w := 0;
    } else {
      w := TokensAreLeastRoom(cfg, times, j - 1);
      assert TokensBefore(cfg, times, j - 1) <= Room(cfg, times, j - 1, j - 1);
      RefillStep(cfg, times, j);
      forall i: nat | i <= j
        ensures TokensBefore(cfg, times, j) <= Room(cfg, times, i, j)
      {
        if i < j {
          assert TokensBefore(cfg, times, j - 1) <= Room(cfg, times, i, j - 1);
        }
      }
      if TokensBefore(cfg, times, j) == cfg.burst {
        w := j;
      }
    }
  }

  lemma {:induction false} RoomForOne(cfg: Config, times: seq<real>, i: nat, j: nat)
    requires i <= j < |times|
    ensures Room(cfg, times, i, j) >= 1.0 <==> Fits(cfg, times, i, j)
  {
    EarnedIsProduct(cfg, times, i, j);
  }

  /**
   * Exactness of the token bucket, for every run and every clock: a datagram is allowed if and only if
   * it conforms. With a non-decreasing clock `Elapsed` is the time difference (`ElapsedIsDifference`).
   */
  lemma {:induction false} BucketIsConformanceTest(cfg: Config, times: seq<real>, j: nat)
    requires j < |times| && cfg.Enabled()
    ensures Allowed(cfg, times, j) <==> Conforms(cfg, times, j)
  {
    var w := TokensAreLeastRoom(cfg, times, j);
    TokensStep(cfg, times, j);
    RoomForOne(cfg, times, w, j);
    forall i: nat | i <= j && Allowed(cfg, times, j)
      ensures Fits(cfg, times, i, j)
    {
      assert TokensBefore(cfg, times, j) <= Room(cfg, times, i, j);
      RoomForOne(cfg, times, i, j);
    }
  }

  lemma {:induction false} EarnedStepIsNotNegative(cfg: Config, times: seq<real>, j: nat)
    requires 0 < j < |times| && cfg.Enabled()
    ensures EarnedStep(cfg, times, j) >= 0.0
  {
  }

  lemma {:induction false} RoomIsNeverOverdrawn(cfg: Config, times: seq<real>, i: nat, j: nat)
    requires i <= j < |times| && cfg.Enabled()
    ensures Granted(cfg, times, i, j + 1) as real <= cfg.burst + Earned(cfg, times, i, j)
    decreases j
  {
    if Allowed(cfg, times, j) {
      var _ := TokensAreLeastRoom(cfg, times, j);
      TokensStep(cfg, times, j);
      assert TokensBefore(cfg, times, j) <= Room(cfg, times, i, j);
    } else if i < j {
      RoomIsNeverOverdrawn(cfg, times, i, j - 1);
      EarnedStepIsNotNegative(cfg, times, j);
    }
  }

  /** No window, wherever it starts and ends, admits more than the burst plus what it refills. */
  lemma {:induction false} WindowBound(cfg: Config, times: seq<real>, i: nat, j: nat)
    requires i <= j < |times| && cfg.Enabled()
    ensures Granted(cfg, times, i, j + 1) as real <= cfg.burst + cfg.rate * Elapsed(times, i, j)
  {
    RoomIsNeverOverdrawn(cfg, times, i, j);
    EarnedIsProduct(cfg, times, i, j);
  }

  // ---------- Drop reports of one bucket ----------

  /** Datagrams dropped among the first `n` calls. */
  function Denied(cfg: Config, times: seq<real>, n: nat): nat
    requires n <= |times|
  {
    if n == 0 then 0 else Denied(cfg, times, n - 1) + if Allowed(cfg, times, n - 1) then 0 else 1
  }

  /** Drops that the log lines of the first `n` calls account for. */
  function Logged(cfg: Config, times: seq<real>, n: nat): nat
    requires n <= |times|
  {
    if n == 0 then 0
    else
      var r := VerdictAt(cfg, times, n - 1).report;
      Logged(cfg, times, n - 1) + if r.Some? then r.value.count else 0
  }

  /** No drop is lost or counted twice: every drop is in a log line or pending in the bucket. */
  lemma {:induction false} DropsAreLoggedOrPending(cfg: Config, times: seq<real>, n: nat)
    requires 0 < n <= |times|
    ensures Denied(cfg, times, n) == Logged(cfg, times, n) + BucketAfter(cfg, times, n).value.dropped
  {
    if n > 1 {
      DropsAreLoggedOrPending(cfg, times, n - 1);
      assert VerdictAt(cfg, times, n - 1) == Decide(cfg, Some(VerdictAt(cfg, times, n - 2).cell), times[n - 1]);
    } else {
      assert Denied(cfg, times, 0) == Logged(cfg, times, 0) == 0;
    }
  }

  /** `reported` is the time of the last log line, or of the creation before the first one. */
  lemma {:induction false} ReportedBounds(cfg: Config, times: seq<real>, j: nat)
    requires j < |times|
    ensures var r := VerdictAt(cfg, times, j);
            var reports := exists k: nat | k <= j :: VerdictAt(cfg, times, k).report.Some?;
            r.cell.reported >= times[0] + (if reports then REPORT_INTERVAL else 0.0)
    ensures forall k: nat | k <= j && VerdictAt(cfg, times, k).report.Some? ::
              times[k] <= VerdictAt(cfg, times, j).cell.reported
  {
    if j > 0 {
      ReportedBounds(cfg, times, j - 1);
      assert VerdictAt(cfg, times, j) == Decide(cfg, Some(VerdictAt(cfg, times, j - 1).cell), times[j]);
    }
  }

  /** Log lines of one bucket are at least REPORT_INTERVAL apart and after its creation, on any clock. */
  lemma {:induction false} ReportsAreSpaced(cfg: Config, times: seq<real>, i: nat, j: nat)
    requires i < j < |times|
    requires VerdictAt(cfg, times, j).report.Some?
    ensures times[j] >= times[0] + REPORT_INTERVAL
    ensures VerdictAt(cfg, times, i).report.Some? ==> times[j] >= times[i] + REPORT_INTERVAL
  {
    ReportedBounds(cfg, times, j - 1);
    assert VerdictAt(cfg, times, j) == Decide(cfg, Some(VerdictAt(cfg, times, j - 1).cell), times[j]);
  }

  /** When the last log line before call `j` was written, or the first call was made if there is none. */
  function LastLine(cfg: Config, times: seq<real>, j: nat): real
    requires 0 < |times| && j <= |times|
  {
    if j == 0 then times[0]
    else if VerdictAt(cfg, times, j - 1).report.Some? then times[j - 1]
    else LastLine(cfg, times, j - 1)
  }

  lemma {:induction false} ReportedIsLastLine(cfg: Config, times: seq<real>, j: nat)
    requires j < |times|
    ensures VerdictAt(cfg, times, j).cell.reported == LastLine(cfg, times, j + 1)
  {
    if j > 0 {
      ReportedIsLastLine(cfg, times, j - 1);
      assert VerdictAt(cfg, times, j) == Decide(cfg, Some(VerdictAt(cfg, times, j - 1).cell), times[j]);
    }
  }

  /**
   * A log line is written when it is due and only then: by a call after the first, if it is refused and 60 seconds
   * have passed since the last line, or since the first call. The line is dated by its call.
   */
  lemma {:induction false} LineIsWrittenWhenDue(cfg: Config, times: seq<real>, j: nat)
    requires j < |times|
    ensures VerdictAt(cfg, times, j).report.Some? <==>
            j > 0 && !Allowed(cfg, times, j) && times[j] - LastLine(cfg, times, j) >= 60.0
    ensures VerdictAt(cfg, times, j).report.Some? ==> VerdictAt(cfg, times, j).report.value.at == times[j]
  {
    if j > 0 {
      ReportedIsLastLine(cfg, times, j - 1);
      assert VerdictAt(cfg, times, j) == Decide(cfg, Some(VerdictAt(cfg, times, j - 1).cell), times[j]);
    }
  }
}
