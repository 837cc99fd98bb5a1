/**
 * The route-announce loop: woken by a single coalescing permit or a heartbeat, resting after each announce.
 *
 * Times are in milliseconds. Every announce takes at most `longest`, and a sleep or a wake-up that is due is
 * acted on at most `slack` late; both are arbitrary. Route changes come at any time and in any number.
 */
module RouteAnnounce {
  import opened Wrappers

  const FIRST_DELAY: nat := 5_000
  const MIN_INTERVAL: nat := 10_000
  const HEARTBEAT: nat := 300_000

  datatype Limits = Limits(longest: nat, slack: nat)

  /** Where the loop is, and since (or until) when. */
  datatype Pc =
    | Boot
    | FirstAnnounce(since: nat)
    | Waiting(since: nat)
    | Announcing(since: nat)
    | Resting(until: nat)

  /** An announce: when it started, and how many route changes had happened by then. */
  datatype Start = Start(at: nat, seen: nat)

  /** `permit` is when the stored notification was given; further changes coalesce into it. */
  datatype State = State(now: nat, pc: Pc, permit: Option<nat>, changes: seq<nat>, starts: seq<Start>)

  datatype Action =
    | Pass(to: nat)
    | Change
    | Begin
    | Wake
    | Beat
    | End
    | Rested

  const START := State(0, Boot, None, [], [])

  function Max(a: nat, b: nat): nat {
    if a < b then b else a
  }

  function Min(a: nat, b: nat): nat {
    if a < b then a else b
  }

  /** The latest moment at which the loop still has not taken its next step. */
  function Deadline(l: Limits, s: State): nat {
    match s.pc
    case Boot => FIRST_DELAY + l.slack
    case FirstAnnounce(since) => since + l.longest
    case Announcing(since) => since + l.longest
    case Resting(until) => until + l.slack
    case Waiting(since) =>
      Min(since + HEARTBEAT, if s.permit.Some? then Max(since, s.permit.value) else since + HEARTBEAT) + l.slack
  }

  function Started(s: State): seq<Start> {
    s.starts + [Start(s.now, |s.changes|)]
  }

  predicate Enabled(l: Limits, s: State, action: Action) {
    match action
    case Pass(to) => s.now <= to <= Deadline(l, s)
    case Change => true
    case Begin => s.pc.Boot? && s.now >= FIRST_DELAY
    case Wake => s.pc.Waiting? && s.permit.Some?
    case Beat => s.pc.Waiting? && s.now >= s.pc.since + HEARTBEAT
    case End => s.pc.FirstAnnounce? || s.pc.Announcing?
    case Rested => s.pc.Resting? && s.now >= s.pc.until
  }

  function Step(l: Limits, s: State, action: Action): State {
    if !Enabled(l, s, action) then s else
      match action
      case Pass(to) => s.(now := to)
      case Change =>
        s.(permit := if s.permit.Some? then s.permit else Some(s.now), changes := s.changes + [s.now])
      case Begin => s.(pc := FirstAnnounce(s.now), starts := Started(s))
      case Wake => s.(pc := Announcing(s.now), permit := None, starts := Started(s))
      case Beat => s.(pc := Announcing(s.now), starts := Started(s))
      case End => s.(pc := if s.pc.FirstAnnounce? then Waiting(s.now) else Resting(s.now + MIN_INTERVAL))
      case Rested => s.(pc := Waiting(s.now))
  }

  function Exec(l: Limits, run: seq<Action>): State {
    if run == [] then START else Step(l, Exec(l, run[..|run| - 1]), run[|run| - 1])
  }

  /** How soon after a change an announce that has seen it starts. */
  function ResponseTime(l: Limits): nat {
    l.longest + MIN_INTERVAL + 2 * l.slack
  }

  // ---------------------------------------------------------------- what every step keeps

  /** How many changes some announce has started after. */
  function Seen(s: State): nat {
    if s.starts == [] then 0 else s.starts[|s.starts| - 1].seen
  }

  /** A change no announce has started after, made at `c`, has left a permit, and is still within its time. */
  predicate StillInTime(l: Limits, s: State, c: nat) {
    && s.permit.Some?
    && c <= s.now
    && match s.pc
       case Boot => true
       case FirstAnnounce(since) => since <= c
       case Announcing(since) => since <= c
       case Resting(until) => until <= c + l.longest + MIN_INTERVAL
       case Waiting(since) => since <= c + l.longest + MIN_INTERVAL + l.slack && s.permit.value <= Max(since, c)
  }

  /** From position `from` on, each announce starts at least one interval after the one before. */
  predicate Spaced(starts: seq<Start>, from: nat) {
    forall i :: from <= i < |starts| - 1 ==> starts[i].at + MIN_INTERVAL <= starts[i + 1].at
  }

  /** The next loop announce cannot start sooner than the floor after the last one. */
  predicate FloorInv(s: State) {
    if |s.starts| <= 1 then s.starts == [] <==> s.pc.Boot?
    else
      var last := s.starts[|s.starts| - 1].at;
      && (s.pc.Waiting? ==> last + MIN_INTERVAL <= s.now)
      && (s.pc.Resting? ==> last + MIN_INTERVAL <= s.pc.until)
      && !s.pc.Boot? && !s.pc.FirstAnnounce?
  }

  predicate PcInv(l: Limits, s: State) {
    && s.now <= Deadline(l, s)
    && (s.permit.Some? ==> s.permit.value <= s.now)
    && (!s.pc.Boot? && !s.pc.Resting? ==> s.pc.since <= s.now)
    && (s.pc.Announcing? || s.pc.FirstAnnounce? ==>
          s.starts != [] && s.starts[|s.starts| - 1].at == s.pc.since)
    && (s.pc.Resting? ==> s.pc.until <= s.now + MIN_INTERVAL)
    && (s.pc.FirstAnnounce? ==> |s.starts| == 1)
    && (s.pc.Announcing? || s.pc.Resting? ==> |s.starts| >= 2)
    && (s.starts != [] ==> s.starts[|s.starts| - 1].at <= s.now)
  }

  /** Each change: still waiting with a permit and time left, or some announce started after it in time. */
  predicate ChangeInv(l: Limits, s: State, k: nat)
    requires k < |s.changes|
  {
    if k < Seen(s) then exists i :: 0 <= i < |s.starts| && Answers(l, s, s.starts[i], k)
    else StillInTime(l, s, s.changes[k])
  }

  predicate Answers(l: Limits, s: State, start: Start, k: nat)
    requires k < |s.changes|
  {
    start.seen > k && s.changes[k] <= start.at <= s.changes[k] + ResponseTime(l)
  }

  ghost predicate Inv(l: Limits, s: State) {
    && PcInv(l, s)
    && FloorInv(s)
    && Spaced(s.starts, 1)
    && Seen(s) <= |s.changes|
    && forall k :: 0 <= k < |s.changes| ==> ChangeInv(l, s, k)
  }

  lemma {:induction false} StepKeepsTiming(l: Limits, s: State, action: Action)
    requires PcInv(l, s) && FloorInv(s) && Spaced(s.starts, 1) && Seen(s) <= |s.changes|
    ensures var s' := Step(l, s, action);
            PcInv(l, s') && FloorInv(s') && Spaced(s'.starts, 1) && Seen(s') <= |s'.changes|
  {
  }

  lemma {:induction false} StepKeepsChange(l: Limits, s: State, action: Action, k: nat)
    requires PcInv(l, s) && Seen(s) <= |s.changes| && k < |s.changes| && ChangeInv(l, s, k)
    ensures ChangeInv(l, Step(l, s, action), k)
  {
    var s' := Step(l, s, action);
    if k < Seen(s) {
      var i :| 0 <= i < |s.starts| && Answers(l, s, s.starts[i], k);
      assert s'.starts[i] == s.starts[i] && Answers(l, s', s'.starts[i], k);
    } else if |s'.starts| > |s.starts| {
      assert Answers(l, s', s'.starts[|s.starts|], k);
    }
  }

  lemma {:induction false} StepKeepsInv(l: Limits, s: State, action: Action)
    requires Inv(l, s)
    ensures Inv(l, Step(l, s, action))
  {
    StepKeepsTiming(l, s, action);
    var s' := Step(l, s, action);
    forall k | 0 <= k < |s'.changes| ensures ChangeInv(l, s', k) {
      if k < |s.changes| {
        StepKeepsChange(l, s, action, k);
      }
    }
  }

  lemma {:induction false} RunKeepsInv(l: Limits, run: seq<Action>)
    ensures Inv(l, Exec(l, run))
  {
    if run != [] {
      RunKeepsInv(l, run[..|run| - 1]);
      StepKeepsInv(l, Exec(l, run[..|run| - 1]), run[|run| - 1]);
    }
  }

  // ---------------------------------------------------------------- the loop's promises

  /**
   * No lost wake-ups: however changes interleave with announcing and resting, a route change either has an
   * announce that started after it, or its notification is still stored.
   */
  lemma {:induction false} NoLostWakeUp(l: Limits, run: seq<Action>, k: nat)
    requires k < |Exec(l, run).changes|
    ensures var s := Exec(l, run);
            || s.permit.Some?
            || exists i :: 0 <= i < |s.starts| && s.starts[i].seen > k && s.changes[k] <= s.starts[i].at
  {
    RunKeepsInv(l, run);
    var s := Exec(l, run);
    assert ChangeInv(l, s, k);
    if k < Seen(s) {
      var i :| 0 <= i < |s.starts| && Answers(l, s, s.starts[i], k);
      assert s.starts[i].seen > k;
    }
  }

  /** And in bounded time: one announce, one interval and two late wake-ups after a change, it has been answered. */
  lemma {:induction false} EveryChangeIsAnnouncedInTime(l: Limits, run: seq<Action>, k: nat)
    requires k < |Exec(l, run).changes|
    requires Exec(l, run).now > Exec(l, run).changes[k] + ResponseTime(l)
    ensures var s := Exec(l, run); exists i :: 0 <= i < |s.starts| && Answers(l, s, s.starts[i], k)
  {
    RunKeepsInv(l, run);
    assert ChangeInv(l, Exec(l, run), k);
  }

  /** The model never stops the clock: the loop can step now, or time can pass. */
  lemma {:induction false} TimeCanPass(l: Limits, run: seq<Action>)
    ensures var s := Exec(l, run);
            || Enabled(l, s, Pass(s.now + 1))
            || Enabled(l, s, Begin) || Enabled(l, s, Wake) || Enabled(l, s, Beat) || Enabled(l, s, End) || Enabled(l, s, Rested)
  {
    RunKeepsInv(l, run);
  }

  /** How many announces start between `lo` and `hi`. */
  function StartsBetween(starts: seq<Start>, lo: int, hi: int): nat {
    if starts == [] then 0 else
      StartsBetween(starts[..|starts| - 1], lo, hi) + if lo <= starts[|starts| - 1].at <= hi then 1 else 0
  }

  /** Announces of the loop proper start at least ten seconds apart. */
  lemma {:induction false} LoopAnnouncesAreSpaced(l: Limits, run: seq<Action>, i: nat, j: nat)
    requires 1 <= i < j < |Exec(l, run).starts|
    ensures Exec(l, run).starts[i].at + (j - i) * MIN_INTERVAL <= Exec(l, run).starts[j].at
    decreases j
  {
    RunKeepsInv(l, run);
    var starts := Exec(l, run).starts;
    assert starts[j - 1].at + MIN_INTERVAL <= starts[j].at;
    if i < j - 1 {
      LoopAnnouncesAreSpaced(l, run, i, j - 1);
    }
  }

  /** So any window, however placed, holds at most one start per ten seconds of its length, and two more. */
  lemma {:induction false} AnnounceRate(l: Limits, run: seq<Action>, lo: int, length: nat)
    ensures StartsBetween(Exec(l, run).starts, lo, lo + length) <= length / MIN_INTERVAL + 2
  {
    RunKeepsInv(l, run);
    var starts := Exec(l, run).starts;
    if starts != [] {
      FirstAndRest(starts, lo, lo + length);
      assert Spaced(starts[1..], 0);
      SpacedRate(starts[1..], lo, lo + length);
    }
  }

  /** Nothing rests after the very first announce: a change before it makes two start in one instant, as the rate allows. */
  lemma {:induction false} FirstAnnounceHasNoFloor(l: Limits)
    ensures exists run :: var starts := Exec(l, run).starts;
              |starts| == 2 && starts[0].at == starts[1].at && StartsBetween(starts, starts[0].at, starts[0].at) == 2
  {
    var r1 := [Pass(FIRST_DELAY)];
    var r2 := r1 + [Change];
    var r3 := r2 + [Begin];
    var r4 := r3 + [End];
    var r5 := r4 + [Wake];
    assert r1[..0] == [] && r2[..1] == r1 && r3[..2] == r2 && r4[..3] == r3 && r5[..4] == r4;
    assert Exec(l, []) == START;
    assert Exec(l, r1) == START.(now := FIRST_DELAY);
    assert Exec(l, r2) == State(FIRST_DELAY, Boot, Some(FIRST_DELAY), [FIRST_DELAY], []);
    assert Exec(l, r3)
        == State(FIRST_DELAY, FirstAnnounce(FIRST_DELAY), Some(FIRST_DELAY), [FIRST_DELAY], [Start(FIRST_DELAY, 1)]);
    assert Exec(l, r4) == Exec(l, r3).(pc := Waiting(FIRST_DELAY));
    var starts := Exec(l, r5).starts;
    assert starts == [Start(FIRST_DELAY, 1), Start(FIRST_DELAY, 1)];
    TwoAtOnce(starts[0], starts[1]);
  }

  lemma {:induction false} TwoAtOnce(a: Start, b: Start)
    requires a.at == b.at
    ensures StartsBetween([a, b], a.at, a.at) == 2
  {
    assert [a, b][..1] == [a] && [a][..0] == [];
    assert StartsBetween([a], a.at, a.at) == 1;
  }

  lemma {:induction false} FirstAndRest(starts: seq<Start>, lo: int, hi: int)
    requires starts != []
    ensures StartsBetween(starts, lo, hi) <= StartsBetween(starts[1..], lo, hi) + 1
  {
    if |starts| > 1 {
      var n := |starts| - 1;
      FirstAndRest(starts[..n], lo, hi);
      assert starts[..n][1..] == starts[1..][..n - 1];
    }
  }

  lemma {:induction false} SpacedRate(starts: seq<Start>, lo: int, hi: int)
    requires Spaced(starts, 0)
    ensures StartsBetween(starts, lo, hi) <= if hi < lo then 0 else (hi - lo) / MIN_INTERVAL + 1
  {
    if starts != [] {
      var n := |starts| - 1;
      var front, last := starts[..n], starts[n].at;
      assert Spaced(front, 0);
      if lo <= last <= hi {
        NothingAfter(front, last - MIN_INTERVAL, lo, hi);
        SpacedRate(front, lo, last - MIN_INTERVAL);
        assert last - MIN_INTERVAL >= lo ==> (last - MIN_INTERVAL - lo) / MIN_INTERVAL + 1 == (last - lo) / MIN_INTERVAL;
      } else {
        SpacedRate(front, lo, hi);
      }
    }
  }

  /** Beyond a time no announce reaches there is nothing to count. */
  lemma {:induction false} NothingAfter(starts: seq<Start>, bound: int, lo: int, hi: int)
    requires Spaced(starts, 0) && bound <= hi
    requires starts != [] ==> starts[|starts| - 1].at <= bound
    ensures StartsBetween(starts, lo, hi) == StartsBetween(starts, lo, bound)
  {
    if starts != [] {
      var n := |starts| - 1;
      assert n > 0 ==> starts[n - 1].at + MIN_INTERVAL <= starts[n].at;
      NothingAfter(starts[..n], bound, lo, hi);
    }
  }
}
