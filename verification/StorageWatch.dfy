/** The storage watcher: one pass a minute, alerting on what was not there on the pass before. */
module StorageWatch {

  const U64_RANGE: nat := 0x1_0000_0000_0000_0000
  const PASSES_PER_HOUR: nat := 60
  const SELF_TEST := "selftest:"

  datatype Condition =
    | ArrayDegraded(name: string)
    | ArrayDisk(name: string, device: string)
    | SmartUnreadable(device: string)
    | SmartFailing(device: string)
    | DefaultSecret
    | ConfigRepaired
    | ConfigUnreadable

  /** A disk whose self-test status was read on an hourly pass, and whether it reported a failure. */
  datatype Test = Test(device: string, failed: bool)

  /** What one pass observes; `tested` matters on hourly passes only. */
  datatype Pass = Pass(conditions: seq<Condition>, tested: seq<Test>)

  datatype Watch = Watch(ticks: nat, lastSeen: set<string>)

  function Key(c: Condition): string {
    match c
    case ArrayDegraded(name) => "array_degraded:" + name
    case ArrayDisk(name, device) => "array_disk:" + name + ":" + device
    case SmartUnreadable(device) => "smart_unreadable:" + device
    case SmartFailing(device) => "smart:" + device
    case DefaultSecret => "cluster_secret_default"
    case ConfigRepaired => "storage_config_repaired"
    case ConfigUnreadable => "storage_config_unreadable"
  }

  function TestKey(device: string): string {
    SELF_TEST + device
  }

  predicate IsTestKey(key: string) {
    SELF_TEST <= key
  }

  /** Self-test keys are a name-space of their own, one key a device. */
  lemma KeysDoNotMix(c: Condition, d: string, e: string)
    ensures !IsTestKey(Key(c)) && IsTestKey(TestKey(d))
    ensures TestKey(d) == TestKey(e) ==> d == e
  {
    assert TestKey(d)[|SELF_TEST|..] == d && TestKey(e)[|SELF_TEST|..] == e;
    assert SELF_TEST[2] == 'l' && SELF_TEST[0] == 's' && SELF_TEST[1] == 'e';
    assert Key(c)[0] != 's' || Key(c)[1] != 'e';
  }

  predicate Tested(tests: seq<Test>, device: string) {
    exists i :: 0 <= i < |tests| && tests[i].device == device
  }

  predicate Failed(tests: seq<Test>, device: string) {
    exists i :: 0 <= i < |tests| && tests[i].device == device && tests[i].failed
  }

  function Observed(conditions: seq<Condition>): set<string> {
    set c | c in conditions :: Key(c)
  }

  function FailedKeys(tests: seq<Test>): set<string> {
    set t | t in tests && t.failed :: TestKey(t.device)
  }

  function NewConditions(conditions: seq<Condition>, lastSeen: set<string>): seq<string> {
    if conditions == [] then [] else
      var front, k := NewConditions(conditions[..|conditions| - 1], lastSeen), Key(conditions[|conditions| - 1]);
      if k in lastSeen then front else front + [k]
  }

  function NewFailures(tests: seq<Test>, lastSeen: set<string>): seq<string> {
    if tests == [] then [] else
      var front, t := NewFailures(tests[..|tests| - 1], lastSeen), tests[|tests| - 1];
      if !t.failed || TestKey(t.device) in lastSeen then front else front + [TestKey(t.device)]
  }

  predicate Hourly(ticks: nat) {
    ticks % PASSES_PER_HOUR == 0
  }

  function NextTick(ticks: nat): nat {
    (ticks + 1) % U64_RANGE
  }

  /** Self-test verdicts kept from the pass before: all of them, or on an hourly pass those not re-tested. */
  function Carried(hourly: bool, lastSeen: set<string>, tests: seq<Test>): set<string> {
    set k | k in lastSeen && IsTestKey(k) && (!hourly || !Tested(tests, k[|SELF_TEST|..]))
  }

  function After(w: Watch, p: Pass): Watch {
    var hourly := Hourly(NextTick(w.ticks));
    Watch(NextTick(w.ticks),
          Carried(hourly, w.lastSeen, p.tested) + Observed(p.conditions) + if hourly then FailedKeys(p.tested) else {})
  }

  function Alerts(w: Watch, p: Pass): seq<string> {
    NewConditions(p.conditions, w.lastSeen)
    + if Hourly(NextTick(w.ticks)) then NewFailures(p.tested, w.lastSeen) else []
  }

  lemma ObservedSnoc(conditions: seq<Condition>, n: nat)
    requires n < |conditions|
    ensures conditions[..n + 1][..n] == conditions[..n]
    ensures Observed(conditions[..n + 1]) == Observed(conditions[..n]) + {Key(conditions[n])}
  {
    assert conditions[..n + 1] == conditions[..n] + [conditions[n]];
  }

  lemma FailedKeysSnoc(tests: seq<Test>, n: nat)
    requires n < |tests|
    ensures tests[..n + 1][..n] == tests[..n]
    ensures FailedKeys(tests[..n + 1]) == FailedKeys(tests[..n]) + if tests[n].failed then {TestKey(tests[n].device)} else {}
  {
    assert tests[..n + 1] == tests[..n] + [tests[n]];
  }

  class Watcher {
    var ticks: nat
    var lastSeen: set<string>

    constructor ()
      ensures ticks == 0 && lastSeen == {}
    {
      ticks, lastSeen := 0, {};
    }

    /** The array, SMART and configuration checks: what is there, and what of it is new. */
    method CheckConditions(conditions: seq<Condition>) returns (current: set<string>, alerts: seq<string>)
      ensures current == Observed(conditions)
      ensures alerts == NewConditions(conditions, lastSeen)
    {
      current, alerts := {}, [];
      for i := 0 to |conditions|
        invariant current == Observed(conditions[..i])
        invariant alerts == NewConditions(conditions[..i], lastSeen)
      {
        ObservedSnoc(conditions, i);
        var key := Key(conditions[i]);
        current := current + {key};
        if key !in lastSeen {
          alerts := alerts + [key];
        }
      }
      assert conditions[..|conditions|] == conditions;
    }

    /** The hourly self-test verdicts; only an explicit failure counts. */
    method CheckSelfTests(tests: seq<Test>) returns (current: set<string>, alerts: seq<string>)
      ensures current == FailedKeys(tests)
      ensures alerts == NewFailures(tests, lastSeen)
    {
      current, alerts := {}, [];
      for i := 0 to |tests|
        invariant current == FailedKeys(tests[..i])
        invariant alerts == NewFailures(tests[..i], lastSeen)
      {
        FailedKeysSnoc(tests, i);
        if tests[i].failed {
          var key := TestKey(tests[i].device);
          current := current + {key};
          if key !in lastSeen {
            alerts := alerts + [key];
          }
        }
      }
      assert tests[..|tests|] == tests;
    }

    method OnePass(p: Pass) returns (alerts: seq<string>)
      modifies this
      ensures Watch(ticks, lastSeen) == After(old(Watch(ticks, lastSeen)), p)
      ensures alerts == Alerts(old(Watch(ticks, lastSeen)), p)
    {
      ticks := (ticks + 1) % U64_RANGE;
      var current: set<string> := {};
      if ticks % PASSES_PER_HOUR != 0 {
        current := set k | k in lastSeen && IsTestKey(k);
      }
      var observed, raised := CheckConditions(p.conditions);
      current, alerts := current + observed, raised;
      if ticks % PASSES_PER_HOUR == 0 {
        var failed, failures := CheckSelfTests(p.tested);
        alerts := alerts + failures;
        current := current + failed + (set k | k in lastSeen && IsTestKey(k) && !Tested(p.tested, k[|SELF_TEST|..]));
      }
      lastSeen := current;
    }
  }

  // ---------------------------------------------------------------- traces

  const START := Watch(0, {})

  function WatchAfter(trace: seq<Pass>): Watch {
    if trace == [] then START else After(WatchAfter(trace[..|trace| - 1]), trace[|trace| - 1])
  }

  /** The alerts of pass `n`. */
  function AlertsOf(trace: seq<Pass>, n: nat): seq<string>
    requires n < |trace|
  {
    Alerts(WatchAfter(trace[..n]), trace[n])
  }

  function Occurrences(s: seq<string>, key: string): nat {
    if s == [] then 0 else Occurrences(s[..|s| - 1], key) + if s[|s| - 1] == key then 1 else 0
  }

  function TimesObserved(conditions: seq<Condition>, key: string): nat {
    if conditions == [] then 0 else
      TimesObserved(conditions[..|conditions| - 1], key) + if Key(conditions[|conditions| - 1]) == key then 1 else 0
  }

  lemma OccurrencesAppend(s: seq<string>, t: seq<string>, key: string)
    ensures Occurrences(s + t, key) == Occurrences(s, key) + Occurrences(t, key)
  {
    if t == [] {
      assert s + t == s;
    } else {
      assert (s + t)[..|s + t| - 1] == s + t[..|t| - 1];
    }
  }

  lemma {:induction false} NewConditionsCount(conditions: seq<Condition>, lastSeen: set<string>, key: string)
    ensures Occurrences(NewConditions(conditions, lastSeen), key)
            == if key in lastSeen then 0 else TimesObserved(conditions, key)
  {
    if conditions != [] {
      var front := conditions[..|conditions| - 1];
      var k := Key(conditions[|conditions| - 1]);
      NewConditionsCount(front, lastSeen, key);
      assert (NewConditions(front, lastSeen) + [k])[..|NewConditions(front, lastSeen)|] == NewConditions(front, lastSeen);
    }
  }

  lemma {:induction false} NewFailuresAre(tests: seq<Test>, lastSeen: set<string>, key: string)
    ensures key in NewFailures(tests, lastSeen) <==>
              key !in lastSeen && exists i :: 0 <= i < |tests| && tests[i].failed && TestKey(tests[i].device) == key
    ensures !IsTestKey(key) ==> Occurrences(NewFailures(tests, lastSeen), key) == 0
  {
    if tests != [] {
      var front, t := tests[..|tests| - 1], tests[|tests| - 1];
      NewFailuresAre(front, lastSeen, key);
      var kept := NewFailures(front, lastSeen);
      assert (kept + [TestKey(t.device)])[..|kept|] == kept;
      assert IsTestKey(TestKey(t.device));
    }
  }

  /**
   * Every condition outside the self-tests alerts once for each time it is observed on a pass, exactly when it was not
   * observed on the pass before.
   */
  lemma ConditionAlertsOnRisingEdge(trace: seq<Pass>, n: nat, c: Condition)
    requires n < |trace|
    ensures Occurrences(AlertsOf(trace, n), Key(c))
            == if n > 0 && Key(c) in Observed(trace[n - 1].conditions) then 0
               else TimesObserved(trace[n].conditions, Key(c))
  {
    KeysDoNotMix(c, "", "");
    var w := WatchAfter(trace[..n]);
    if n > 0 {
      assert trace[..n][..n - 1] == trace[..n - 1] && trace[..n][n - 1] == trace[n - 1];
      LastSeenIsObserved(WatchAfter(trace[..n - 1]), trace[n - 1], c);
    }
    NewConditionsCount(trace[n].conditions, w.lastSeen, Key(c));
    NewFailuresAre(trace[n].tested, w.lastSeen, Key(c));
    OccurrencesAppend(NewConditions(trace[n].conditions, w.lastSeen),
                      if Hourly(NextTick(w.ticks)) then NewFailures(trace[n].tested, w.lastSeen) else [], Key(c));
  }

  lemma LastSeenIsObserved(w: Watch, p: Pass, c: Condition)
    ensures Key(c) in After(w, p).lastSeen <==> Key(c) in Observed(p.conditions)
  {
    KeysDoNotMix(c, "", "");
    assert Key(c) !in FailedKeys(p.tested) by {
      forall t | t in p.tested ensures TestKey(t.device) != Key(c) {
        KeysDoNotMix(c, t.device, t.device);
      }
    }
  }

  // ---------------------------------------------------------------- self-tests

  /** The verdicts of the passes on which the device was actually tested, in order; true is a failure. */
  function Verdicts(trace: seq<Pass>, device: string): seq<bool> {
    if trace == [] then [] else
      var n := |trace| - 1;
      var earlier := Verdicts(trace[..n], device);
      if Hourly(WatchAfter(trace).ticks) && Tested(trace[n].tested, device)
      then earlier + [Failed(trace[n].tested, device)] else earlier
  }

  /** How many maximal runs of failures a list of verdicts has. */
  function FailingRuns(verdicts: seq<bool>): nat {
    if verdicts == [] then 0 else
      var n := |verdicts| - 1;
      FailingRuns(verdicts[..n]) + if verdicts[n] && (n == 0 || !verdicts[n - 1]) then 1 else 0
  }

  /** How many passes alerted for the device's self-test. */
  function TestAlerts(trace: seq<Pass>, device: string): nat {
    if trace == [] then 0 else
      var n := |trace| - 1;
      TestAlerts(trace[..n], device) + if TestKey(device) in AlertsOf(trace, n) then 1 else 0
  }

  /** One pass: whether it alerts for the device, and whether it leaves the device marked as failing. */
  lemma PassOnDevice(w: Watch, p: Pass, device: string)
    ensures var hourly := Hourly(NextTick(w.ticks));
            var key := TestKey(device);
            && (key in Alerts(w, p) <==> hourly && Failed(p.tested, device) && key !in w.lastSeen)
            && (key in After(w, p).lastSeen <==>
                  if hourly && Tested(p.tested, device) then Failed(p.tested, device) else key in w.lastSeen)
  {
    var key := TestKey(device);
    assert key[|SELF_TEST|..] == device;
    NewFailuresAre(p.tested, w.lastSeen, key);
    forall i | 0 <= i < |p.tested| && TestKey(p.tested[i].device) == key ensures p.tested[i].device == device {
      KeysDoNotMix(DefaultSecret, p.tested[i].device, device);
    }
    NewConditionsAreConditions(p.conditions, w.lastSeen, device);
    forall c | c in p.conditions ensures Key(c) != key {
      KeysDoNotMix(c, device, device);
    }
    assert key in FailedKeys(p.tested) <==> Failed(p.tested, device);
  }

  lemma {:induction false} NewConditionsAreConditions(conditions: seq<Condition>, lastSeen: set<string>, device: string)
    ensures TestKey(device) !in NewConditions(conditions, lastSeen)
  {
    if conditions != [] {
      NewConditionsAreConditions(conditions[..|conditions| - 1], lastSeen, device);
      KeysDoNotMix(conditions[|conditions| - 1], device, device);
    }
  }

  /**
   * Over every trace, a disk alerts for its self-test as often as its verdicts, taken only on passes that tested it,
   * have maximal runs of failures: the carry-forward neither repeats an alert nor swallows one.
   */
  lemma {:induction false} SelfTestAlertsCountFailingRuns(trace: seq<Pass>, device: string)
    ensures TestAlerts(trace, device) == FailingRuns(Verdicts(trace, device))
    ensures MarkedFailing(trace, device)
  {
    if trace != [] {
      var n := |trace| - 1;
      var front := trace[..n];
      SelfTestAlertsCountFailingRuns(front, device);
      PassOnDevice(WatchAfter(front), trace[n], device);
      FailingRunsSnoc(Verdicts(front, device), Failed(trace[n].tested, device));
    }
  }

  /** The device is marked as failing exactly when its latest verdict is a failure. */
  predicate MarkedFailing(trace: seq<Pass>, device: string) {
    TestKey(device) in WatchAfter(trace).lastSeen <==> EndsFailing(Verdicts(trace, device))
  }

  predicate EndsFailing(verdicts: seq<bool>) {
    verdicts != [] && verdicts[|verdicts| - 1]
  }

  lemma FailingRunsSnoc(verdicts: seq<bool>, v: bool)
    ensures FailingRuns(verdicts + [v]) == FailingRuns(verdicts) + if v && !EndsFailing(verdicts) then 1 else 0
    ensures EndsFailing(verdicts + [v]) == v
  {
    assert (verdicts + [v])[..|verdicts|] == verdicts;
  }
}
