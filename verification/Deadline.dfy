/** The absolute deadline of a timed message-queue call: the current time plus a number of milliseconds. When the
sum is not representable, its seconds saturate at the largest value; the nanoseconds need not. */
module Deadline {
  import opened Bytes

  /** `time_t` and `long` are 64 bits wide. */
  type int64 = x: int | -0x8000_0000_0000_0000 <= x < 0x8000_0000_0000_0000

  const MAX_SEC: int64 := 0x7FFF_FFFF_FFFF_FFFF
  const NANOS_PER_SEC := 1_000_000_000

  datatype Timespec = Timespec(sec: int64, nsec: int64) {
    predicate Normalised() {
      0 <= sec && 0 <= nsec < NANOS_PER_SEC
    }

    function Nanos(): int {
      sec as int * NANOS_PER_SEC + nsec as int
    }
  }

  const LAST := Timespec(MAX_SEC, 999_999_999)

  /** The exact deadline, in nanoseconds. */
  function Exact(now: Timespec, timeoutMs: word): int {
    now.Nanos() + timeoutMs as int * 1_000_000
  }

  predicate Representable(nanos: int) {
    0 <= nanos <= LAST.Nanos()
  }

  function Min(a: int, b: int): int {
    if a <= b then a else b
  }

  /** What the steps below compute. */
  function Deadline(now: Timespec, timeoutMs: word): (ts: Timespec)
    requires now.Normalised()
  {
    if now.sec == MAX_SEC then LAST
    else if Representable(Exact(now, timeoutMs)) then
      Timespec(Exact(now, timeoutMs) / NANOS_PER_SEC, Exact(now, timeoutMs) % NANOS_PER_SEC)
    else Timespec(MAX_SEC, Min(now.nsec as int + timeoutMs as int % 1000 * 1_000_000, 999_999_999))
  }

  /** The arithmetic of the source, step by step; the types of the variables show that nothing overflows. */
  method MsToTimespec(now: Timespec, timeoutMs: word) returns (ts: Timespec)
    requires now.Normalised()
    ensures ts == Deadline(now, timeoutMs)
  {
    ts := now;
    var addSec: int64 := timeoutMs / 1000;
    var addMs: word := timeoutMs % 1000 * 1_000_000;
    var addNsec: int64 := addMs;
    var room: int64 := MAX_SEC as int - now.sec as int;
    if room <= 0 {
      return Timespec(MAX_SEC, 999_999_999);
    }
    var safeSec: int64 := if addSec > room then room else addSec;
    var sec: int64 := ts.sec as int + safeSec as int;
    var nsec: int64 := ts.nsec as int + addNsec as int;
    ts := Timespec(sec, nsec);
    if ts.nsec >= NANOS_PER_SEC {
      if ts.sec < MAX_SEC {
        ts := Timespec(ts.sec + 1, ts.nsec - NANOS_PER_SEC);
      } else {
        ts := ts.(nsec := 999_999_999);
      }
    }
    SplitTime(now, timeoutMs, ts);
  }

  lemma SplitTime(now: Timespec, timeoutMs: word, ts: Timespec)
    requires now.Normalised() && now.sec < MAX_SEC && ts.Normalised()
    requires if Representable(Exact(now, timeoutMs)) then ts.Nanos() == Exact(now, timeoutMs)
             else ts == Timespec(MAX_SEC, Min(now.nsec as int + timeoutMs as int % 1000 * 1_000_000, 999_999_999))
    ensures ts == Deadline(now, timeoutMs)
  {
  }

  /** The deadline is a normalised time, never before now. Before the last second of time it is never after
  the exact sum; and it is the exact sum if and only if that is representable and, in the last second of
  time, it happens to be the last nanosecond. From the last second of time the deadline is the last nanosecond.
  Otherwise, for a sum that is not representable, it lies in the last second of time, with the sum of the
  nanoseconds as far as they go; so it is the last nanosecond if and only if they carry over or reach it. */
  lemma DeadlineExact(now: Timespec, timeoutMs: word)
    requires now.Normalised()
    ensures var ts, exact := Deadline(now, timeoutMs), Exact(now, timeoutMs);
            var nanos := now.nsec as int + timeoutMs as int % 1000 * 1_000_000;
            && ts.Normalised() && now.Nanos() <= ts.Nanos()
            && (now.sec < MAX_SEC ==> ts.Nanos() <= exact)
            && (ts.Nanos() == exact <==> Representable(exact) && (now.sec == MAX_SEC ==> exact == LAST.Nanos()))
            && (now.sec == MAX_SEC ==> ts == LAST)
            && (!Representable(exact) && now.sec < MAX_SEC ==>
                  ts.sec == 0x7FFF_FFFF_FFFF_FFFF && ts.nsec == if nanos < 999_999_999 then nanos else 999_999_999)
            && (!Representable(exact) ==> (ts == LAST <==> now.sec == MAX_SEC || nanos >= 999_999_999))
  {
  }

  /** In the last second of time the deadline can overshoot: one millisecond after its start becomes its end. */
  lemma LastSecondOvershoots()
    ensures var now := Timespec(MAX_SEC, 0);
            Representable(Exact(now, 1)) && Deadline(now, 1).Nanos() > Exact(now, 1)
  {
  }

  /** Before it, the deadline can saturate too early: five seconds past a time that has one second left become
  the start of the last second of time, and not its end. */
  lemma SaturatesEarly()
    ensures var now := Timespec(MAX_SEC - 1, 0);
            !Representable(Exact(now, 5000)) && Deadline(now, 5000) == Timespec(MAX_SEC, 0)
    ensures LAST.Nanos() - Timespec(MAX_SEC, 0).Nanos() == 999_999_999
  {
  }
}
