/**
 * The hourly alert cap: a queue of dispatch times trimmed from the front. The clock is read before the lock
 * is taken, so in lock order the readings may run backwards.
 */
module RateLimit {
  import opened Wrappers

  /** One hour, in nanoseconds. */
  const HOUR: int := 3600 * 1_000_000_000
  const U32_RANGE: nat := 0x1_0000_0000

  /** Drop expired times from the front, stopping at the first that is not. */
  function Trimmed(times: seq<int>, cutoff: int): seq<int> {
    if times != [] && times[0] < cutoff then Trimmed(times[1..], cutoff) else times
  }

  /** A length as the source compares it: cast to 32 bits. */
  function Length32(times: seq<int>): nat {
    |times| % U32_RANGE
  }

  predicate Grants(times: seq<int>, now: int, cap: nat) {
    cap == 0 || Length32(Trimmed(times, now - HOUR)) < cap
  }

  function TimesAfter(times: seq<int>, now: int, cap: nat): seq<int> {
    if cap == 0 then times
    else if Grants(times, now, cap) then Trimmed(times, now - HOUR) + [now]
    else Trimmed(times, now - HOUR)
  }

  class HourlyLimiter {
    var times: seq<int>

    constructor ()
      ensures times == []
    {
      times := [];
    }

    method TryAcquire(now: int, cap: nat) returns (granted: bool)
      modifies this
      ensures granted == Grants(old(times), now, cap)
      ensures times == TimesAfter(old(times), now, cap)
    {
      if cap == 0 {
        return true;
      }
      var cutoff := now - HOUR;
      while times != [] && times[0] < cutoff
        invariant Trimmed(times, cutoff) == Trimmed(old(times), cutoff)
        decreases |times|
      {
        times := times[1..];
      }
      if |times| % U32_RANGE >= cap {
        return false;
      }
      times := times + [now];
      return true;
    }
  }

  // ---------------------------------------------------------------- runs

  /** One call in lock order: its clock reading, and the cap configured at that moment (a 32-bit value). */
  datatype Call = Call(now: int, cap: nat)

  function QueueAfter(calls: seq<Call>): seq<int> {
    if calls == [] then [] else
      var k := calls[|calls| - 1];
      TimesAfter(QueueAfter(calls[..|calls| - 1]), k.now, k.cap)
  }

  /** Call `i` took a slot: it was granted under a cap. */
  predicate TookSlot(calls: seq<Call>, i: nat)
    requires i < |calls|
  {
    calls[i].cap > 0 && Grants(QueueAfter(calls[..i]), calls[i].now, calls[i].cap)
  }

  /** How many slots were taken at readings between `lo` and `hi`, over the whole history. */
  function SlotsBetween(calls: seq<Call>, lo: int, hi: int): nat {
    if calls == [] then 0 else
      var n := |calls| - 1;
      SlotsBetween(calls[..n], lo, hi) + if TookSlot(calls, n) && lo <= calls[n].now <= hi then 1 else 0
  }

  function Count(times: seq<int>, lo: int, hi: int): nat {
    if times == [] then 0 else
      (if lo <= times[0] <= hi then 1 else 0) + Count(times[1..], lo, hi)
  }

  predicate Caps32(calls: seq<Call>) {
    forall i :: 0 <= i < |calls| ==> calls[i].cap < U32_RANGE
  }

  /** In lock order no reading is more than `d` before an earlier one; zero means the readings never run backwards. */
  predicate SkewAtMost(calls: seq<Call>, d: int) {
    forall i, j :: 0 <= i < j < |calls| ==> calls[i].now - d <= calls[j].now
  }

  lemma CountPush(times: seq<int>, t: int, lo: int, hi: int)
    ensures Count(times + [t], lo, hi) == Count(times, lo, hi) + if lo <= t <= hi then 1 else 0
  {
    if times != [] {
      assert (times + [t])[1..] == times[1..] + [t];
    }
  }

  lemma CountAtMostLength(times: seq<int>, lo: int, hi: int)
    ensures Count(times, lo, hi) <= |times|
  {
  }

  lemma TrimKeepsCount(times: seq<int>, cutoff: int, lo: int, hi: int)
    requires cutoff <= lo
    ensures Count(Trimmed(times, cutoff), lo, hi) == Count(times, lo, hi)
  {
  }

  lemma TrimShortens(times: seq<int>, cutoff: int)
    ensures |Trimmed(times, cutoff)| <= |times|
  {
  }

  /** The queue never outgrows 32 bits, so the cast is harmless in every run. */
  lemma {:induction false} QueueFits32(calls: seq<Call>)
    requires Caps32(calls)
    ensures |QueueAfter(calls)| < U32_RANGE
  {
    if calls != [] {
      var k := calls[|calls| - 1];
      QueueFits32(calls[..|calls| - 1]);
      TrimShortens(QueueAfter(calls[..|calls| - 1]), k.now - HOUR);
    }
  }

  /** While no call could have trimmed past `lo`, the queue still holds every slot taken from `lo` on. */
  lemma {:induction false} QueueHoldsWindow(calls: seq<Call>, lo: int, hi: int)
    requires forall i :: 0 <= i < |calls| ==> calls[i].now - HOUR <= lo
    ensures Count(QueueAfter(calls), lo, hi) == SlotsBetween(calls, lo, hi)
  {
    if calls != [] {
      var n := |calls| - 1;
      var k, front := calls[n], calls[..n];
      QueueHoldsWindow(front, lo, hi);
      TrimKeepsCount(QueueAfter(front), k.now - HOUR, lo, hi);
      CountPush(Trimmed(QueueAfter(front), k.now - HOUR), k.now, lo, hi);
    }
  }

  /**
   * The bound: if readings run backwards by at most `d` in lock order and no cap exceeds `m`, every closed
   * window of length one hour less `d` holds at most `m` slots. With monotone readings that is the full hour.
   */
  lemma {:induction false} WindowBound(calls: seq<Call>, m: nat, d: int, lo: int)
    requires Caps32(calls) && 0 <= d <= HOUR && SkewAtMost(calls, d)
    requires forall i :: 0 <= i < |calls| ==> calls[i].cap <= m
    ensures SlotsBetween(calls, lo, lo + HOUR - d) <= m
  {
    if calls != [] {
      var n := |calls| - 1;
      WindowBound(calls[..n], m, d, lo);
      if TookSlot(calls, n) && lo <= calls[n].now <= lo + HOUR - d {
        RoomInTheWindow(calls, d, lo);
      }
    }
  }

  /** When the last call takes a slot inside a window, fewer than its cap were taken there before. */
  lemma {:induction false} RoomInTheWindow(calls: seq<Call>, d: int, lo: int)
    requires Caps32(calls) && 0 <= d <= HOUR && SkewAtMost(calls, d) && calls != []
    requires TookSlot(calls, |calls| - 1) && lo <= calls[|calls| - 1].now <= lo + HOUR - d
    ensures SlotsBetween(calls[..|calls| - 1], lo, lo + HOUR - d) < calls[|calls| - 1].cap
  {
    var n, hi := |calls| - 1, lo + HOUR - d;
    var k, front := calls[n], calls[..n];
    var queue := QueueAfter(front);
    QueueFits32(front);
    TrimShortens(queue, k.now - HOUR);
    QueueHoldsWindow(front, lo, hi);
    TrimKeepsCount(queue, k.now - HOUR, lo, hi);
    CountAtMostLength(Trimmed(queue, k.now - HOUR), lo, hi);
  }

  /** With caps of at most one the queue holds the latest granted reading and nothing else. */
  lemma {:induction false} LatestSlot(calls: seq<Call>, lo: int, hi: int)
    requires forall i :: 0 <= i < |calls| ==> calls[i].cap <= 1
    ensures |QueueAfter(calls)| <= 1
    ensures QueueAfter(calls) == [] || lo > QueueAfter(calls)[0] ==> SlotsBetween(calls, lo, hi) == 0
  {
    if calls != [] {
      var n := |calls| - 1;
      LatestSlot(calls[..n], lo, hi);
      var queue := QueueAfter(calls[..n]);
      if queue != [] {
        assert queue[1..] == [];
        assert Trimmed(queue, calls[n].now - HOUR) == if queue[0] < calls[n].now - HOUR then [] else queue;
      }
    }
  }

  /** A cap of one needs no help from the clock: whatever the skew, every closed hour holds at most one slot. */
  lemma {:induction false} OneSlotAnHour(calls: seq<Call>, lo: int)
    requires forall i :: 0 <= i < |calls| ==> calls[i].cap <= 1
    ensures SlotsBetween(calls, lo, lo + HOUR) <= 1
  {
    if calls != [] {
      var front := calls[..|calls| - 1];
      OneSlotAnHour(front, lo);
      LatestSlot(front, lo, lo + HOUR);
    }
  }

  // ---------------------------------------------------------------- monotone readings: the exact decision

  predicate Sorted(times: seq<int>) {
    forall i, j :: 0 <= i < j < |times| ==> times[i] <= times[j]
  }

  lemma TrimSorted(times: seq<int>, cutoff: int)
    requires Sorted(times)
    ensures Sorted(Trimmed(times, cutoff))
    ensures forall t :: t in Trimmed(times, cutoff) ==> t in times && cutoff <= t
  {
  }

  lemma CountAll(times: seq<int>, lo: int, hi: int)
    requires forall t :: t in times ==> lo <= t <= hi
    ensures Count(times, lo, hi) == |times|
  {
    if times != [] {
      assert times[0] in times && forall t :: t in times[1..] ==> t in times;
      CountAll(times[1..], lo, hi);
    }
  }

  lemma {:induction false} QueueIsSorted(calls: seq<Call>)
    requires SkewAtMost(calls, 0)
    ensures Sorted(QueueAfter(calls))
    ensures forall t :: t in QueueAfter(calls) ==> t <= calls[|calls| - 1].now
  {
    if calls != [] {
      var n := |calls| - 1;
      QueueIsSorted(calls[..n]);
      TrimSorted(QueueAfter(calls[..n]), calls[n].now - HOUR);
      assert calls[..n] != [] ==> calls[..n][n - 1].now <= calls[n].now;
      var kept := Trimmed(QueueAfter(calls[..n]), calls[n].now - HOUR);
      forall i | 0 <= i < |kept| ensures kept[i] <= calls[n].now {
        assert kept[i] in kept;
      }
    }
  }

  /**
   * With monotone readings, a capped call takes a slot exactly when fewer than its cap were taken in the
   * closed hour that ends at it: the trimmed queue decides like the full history.
   */
  lemma {:induction false} SlotTakenIff(calls: seq<Call>, call: Call)
    requires Caps32(calls + [call]) && SkewAtMost(calls + [call], 0) && call.cap > 0
    ensures TookSlot(calls + [call], |calls|) <==> SlotsBetween(calls, call.now - HOUR, call.now) < call.cap
  {
    var all := calls + [call];
    assert all[..|calls|] == calls && all[|calls|] == call;
    assert forall i :: 0 <= i < |calls| ==> all[i] == calls[i];
    assert forall i :: 0 <= i < |calls| ==> all[i].now - 0 <= all[|calls|].now;
    SkewOfFront(calls, call);
    QueueIsTheHour(calls, call.now);
    QueueFits32(calls);
    TrimShortens(QueueAfter(calls), call.now - HOUR);
  }

  lemma {:induction false} SkewOfFront(calls: seq<Call>, call: Call)
    requires SkewAtMost(calls + [call], 0)
    ensures SkewAtMost(calls, 0)
  {
    forall i, j | 0 <= i < j < |calls| ensures calls[i].now <= calls[j].now {
      assert (calls + [call])[i] == calls[i] && (calls + [call])[j] == calls[j];
    }
  }

  /** With monotone readings the trimmed queue holds exactly the slots of the hour that ends now. */
  lemma {:induction false} QueueIsTheHour(calls: seq<Call>, now: int)
    requires SkewAtMost(calls, 0) && forall i :: 0 <= i < |calls| ==> calls[i].now <= now
    ensures |Trimmed(QueueAfter(calls), now - HOUR)| == SlotsBetween(calls, now - HOUR, now)
  {
    var lo, queue := now - HOUR, QueueAfter(calls);
    QueueIsSorted(calls);
    TrimSorted(queue, lo);
    CountAll(Trimmed(queue, lo), lo, now);
    TrimKeepsCount(queue, lo, lo, now);
    QueueHoldsWindow(calls, lo, now);
  }

  // ---------------------------------------------------------------- the bound is exact

  function Burst(m: nat, n: nat): seq<Call> {
    if n == 0 then [] else Burst(m, n - 1) + [Call(0, m)]
  }

  lemma {:induction false} BurstIs(m: nat, n: nat)
    ensures |Burst(m, n)| == n && forall i :: 0 <= i < n ==> Burst(m, n)[i] == Call(0, m)
    ensures n > 0 ==> Burst(m, n)[..n - 1] == Burst(m, n - 1)
  {
    if n > 0 {
      BurstIs(m, n - 1);
    }
  }

  function Zeros(n: nat): seq<int> {
    seq(n, _ => 0)
  }

  lemma {:induction false} OneMoreZero(m: nat, n: nat)
    requires n < m < U32_RANGE
    ensures Grants(Zeros(n), 0, m) && TimesAfter(Zeros(n), 0, m) == Zeros(n + 1)
  {
    assert Trimmed(Zeros(n), -HOUR) == Zeros(n);
    assert Zeros(n) + [0] == Zeros(n + 1);
  }

  lemma {:induction false} BurstFillsTheQueue(m: nat, n: nat)
    requires n <= m < U32_RANGE
    ensures QueueAfter(Burst(m, n)) == Zeros(n)
  {
    BurstIs(m, n);
    if n > 0 {
      BurstFillsTheQueue(m, n - 1);
      OneMoreZero(m, n - 1);
    }
  }

  lemma {:induction false} BurstTakesAllSlots(m: nat, n: nat, hi: int)
    requires n <= m < U32_RANGE && hi >= 0
    ensures SlotsBetween(Burst(m, n), 0, hi) == n
  {
    BurstIs(m, n);
    if n > 0 {
      BurstTakesAllSlots(m, n - 1, hi);
      BurstFillsTheQueue(m, n - 1);
      OneMoreZero(m, n - 1);
      assert TookSlot(Burst(m, n), n - 1);
    }
  }

  /** `m` slots at reading 0, one an hour and an instant later, and a last one read `d` before that. */
  function LateBurst(m: nat, d: int): seq<Call> {
    Burst(m, m) + [Call(HOUR + 1, m)] + [Call(HOUR + 1 - d, m)]
  }

  lemma {:induction false} TrimAllZeros(n: nat)
    ensures Trimmed(Zeros(n), 1) == []
  {
    if n > 0 {
      assert Zeros(n)[1..] == Zeros(n - 1);
      TrimAllZeros(n - 1);
    }
  }

  /** No longer window would do: under any skew `d` and any cap of two or more, one instant more can hold `m + 1` slots. */
  lemma {:induction false} WindowBoundIsTight(m: nat, d: int)
    requires 2 <= m < U32_RANGE && 0 <= d <= HOUR
    ensures SkewAtMost(LateBurst(m, d), d)
    ensures forall i :: 0 <= i < |LateBurst(m, d)| ==> LateBurst(m, d)[i].cap == m
    ensures SlotsBetween(LateBurst(m, d), 0, HOUR - d + 1) >= m + 1
  {
    var hi := HOUR - d + 1;
    BurstIs(m, m);
    BurstFillsTheQueue(m, m);
    BurstTakesAllSlots(m, m, hi);
    var b := Burst(m, m);
    var b1 := b + [Call(HOUR + 1, m)];
    var b2 := b1 + [Call(HOUR + 1 - d, m)];
    assert b2 == LateBurst(m, d) && b1[..m] == b && b2[..m + 1] == b1;
    TrimAllZeros(m);
    assert QueueAfter(b1) == [HOUR + 1];
    assert Trimmed(QueueAfter(b1), b2[m + 1].now - HOUR) == [HOUR + 1];
    assert TookSlot(b2, m + 1);
    assert SlotsBetween(b, 0, hi) == m;
    assert SlotsBetween(b1, 0, hi) >= m;
  }

  // ---------------------------------------------------------------- what reaches the limiter

  datatype Verbosity = Simple | Verbose

  /** Quiet hours as configured for one alert: whether its category is listed, and the window test's answer. */
  datatype Quiet = Quiet(enabled: bool, listed: bool, inWindow: Option<bool>)

  datatype Alert = Alert(
    enabled: bool, hasChannels: bool, verbosity: Verbosity, quiet: Option<Quiet>,
    compromise: bool, now: int, cap: nat)

  predicate AllowsAt(a: Alert) {
    if a.verbosity.Simple? && !a.compromise then false
    else if a.compromise then true
    else match a.quiet
         case None => true
         case Some(q) => !q.enabled || !q.listed || q.inWindow.None? || !q.inWindow.value
  }

  /** `send_alert`: whether the alert is dispatched, and the queue afterwards. */
  function Send(times: seq<int>, a: Alert): (bool, seq<int>) {
    if !a.enabled || !a.hasChannels || !AllowsAt(a) then (false, times)
    else if a.compromise then (true, times)
    else (Grants(times, a.now, a.cap), TimesAfter(times, a.now, a.cap))
  }

  function SentQueue(alerts: seq<Alert>): seq<int> {
    if alerts == [] then [] else Send(SentQueue(alerts[..|alerts| - 1]), alerts[|alerts| - 1]).1
  }

  function WithoutCompromise(alerts: seq<Alert>): seq<Alert> {
    if alerts == [] then [] else
      var front := WithoutCompromise(alerts[..|alerts| - 1]);
      if alerts[|alerts| - 1].compromise then front else front + [alerts[|alerts| - 1]]
  }

  /**
   * Compromise alerts neither consume nor wait for a slot: over any history, removing every one of them changes
   * no decision about any other alert, and each is dispatched exactly when alerting is on and has a channel.
   */
  lemma {:induction false} CompromiseBypassesTheCap(alerts: seq<Alert>, next: Alert)
    ensures Send(SentQueue(alerts), next).0 == Send(SentQueue(WithoutCompromise(alerts)), next).0
    ensures next.compromise ==> (Send(SentQueue(alerts), next).0 <==> next.enabled && next.hasChannels)
  {
    CompromiseLeavesTheQueue(alerts);
  }

  lemma {:induction false} CompromiseLeavesTheQueue(alerts: seq<Alert>)
    ensures SentQueue(alerts) == SentQueue(WithoutCompromise(alerts))
  {
    if alerts != [] {
      var front, last := alerts[..|alerts| - 1], alerts[|alerts| - 1];
      CompromiseLeavesTheQueue(front);
      assert (WithoutCompromise(front) + [last])[..|WithoutCompromise(front)|] == WithoutCompromise(front);
    }
  }
}
