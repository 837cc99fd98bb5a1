/** Choosing the three listening ports at start, and what is written back to the ports file. */
module Ports {
  import opened Wrappers

  const DEFAULT_API: nat := 8553
  const DEFAULT_INTER: nat := 8554
  const U16_MAX: nat := 65535

  /** The ports file; a missing or unreadable file reads as the defaults. */
  datatype Config = Config(api: nat, interNode: nat, status: nat)

  /** How the process was started. `cliPort` is the `--port` flag, possibly baked into the service unit. */
  datatype Launch = Launch(service: bool, agent: bool, cliPort: Option<nat>, selfSigned: bool)

  datatype Bound = Bound(api: nat, status: nat, interNode: Option<nat>)

  function Next(port: nat): nat {
    if port >= U16_MAX then U16_MAX else port + 1
  }

  function Reconciled(cfg: Config, baked: nat): Config {
    Config(if cfg.api == DEFAULT_API then baked else cfg.api,
           if cfg.interNode == DEFAULT_INTER then Next(baked) else cfg.interNode,
           cfg.status)
  }

  /** The file after the launch is resolved, and the api and inter-node ports preferred. */
  function Resolved(l: Launch, cfg: Config): Config {
    if l.service && l.cliPort.Some? then Reconciled(cfg, l.cliPort.value) else cfg
  }

  function ApiPort(l: Launch, cfg: Config): nat {
    if !l.service && l.cliPort.Some? then l.cliPort.value else Resolved(l, cfg).api
  }

  function InterPreferred(l: Launch, cfg: Config): nat {
    if !l.service && l.cliPort.Some? then Next(l.cliPort.value) else Resolved(l, cfg).interNode
  }

  predicate Usable(port: nat, avoid: set<nat>, busy: set<nat>) {
    port !in avoid && port !in busy
  }

  /** The first usable port of the range, other than the preferred one. */
  function Scan(lo: nat, hi: nat, preferred: nat, avoid: set<nat>, busy: set<nat>): Option<nat>
    decreases hi + 1 - lo
  {
    if lo > hi then None
    else if lo != preferred && Usable(lo, avoid, busy) then Some(lo)
    else Scan(lo + 1, hi, preferred, avoid, busy)
  }

  function Reserved(lo: nat, hi: nat, preferred: nat, avoid: set<nat>, busy: set<nat>): nat {
    if Usable(preferred, avoid, busy) then preferred else
      match Scan(lo, hi, preferred, avoid, busy)
      case Some(p) => p
      case None => preferred
  }

  function StatusPort(cfg: Config, busy: set<nat>): nat {
    Reserved(8550, 8599, cfg.status, {}, busy)
  }

  function InterPort(l: Launch, cfg: Config, busy: set<nat>): nat {
    Reserved(8554, 8599, InterPreferred(l, cfg), {ApiPort(l, cfg), StatusPort(cfg, busy)}, busy)
  }

  predicate MayPersist(l: Launch) {
    l.service || l.agent
  }

  /** One start: what is bound, and the file afterwards. */
  function Boot(l: Launch, cfg: Config, busy: set<nat>): (Bound, Config) {
    var status := StatusPort(cfg, busy);
    var file := Resolved(l, cfg);
    var file' := if MayPersist(l) && status != cfg.status then file.(status := status) else file;
    if !l.selfSigned then (Bound(ApiPort(l, cfg), status, None), file') else
      var inter := InterPort(l, cfg, busy);
      (Bound(ApiPort(l, cfg), status, Some(inter)),
       if MayPersist(l) && inter != InterPreferred(l, cfg) then file'.(interNode := inter) else file')
  }

  /** The ports file and the methods that edit it. */
  class PortsFile {
    var cfg: Config

    constructor (cfg: Config)
      ensures this.cfg == cfg
    {
      this.cfg := cfg;
    }

    /** Seed fields still at their defaults from a baked port; tells whether the file had to be rewritten. */
    method ReconcileBakedPort(baked: nat) returns (changed: bool)
      modifies this
      ensures cfg == Reconciled(old(cfg), baked)
      ensures changed <==> cfg != old(cfg)
    {
      changed := false;
      if cfg.api == DEFAULT_API && baked != DEFAULT_API {
        cfg := cfg.(api := baked);
        changed := true;
      }
      var bakedInter := Next(baked);
      if cfg.interNode == DEFAULT_INTER && bakedInter != DEFAULT_INTER {
        cfg := cfg.(interNode := bakedInter);
        changed := true;
      }
    }

    method ReserveStatusPort(preferred: nat, busy: set<nat>, mayPersist: bool) returns (port: nat)
      modifies this
      ensures port == Reserved(8550, 8599, preferred, {}, busy)
      ensures cfg == if mayPersist && port != preferred then old(cfg).(status := port) else old(cfg)
    {
      if preferred !in busy {
        return preferred;
      }
      for p := 8550 to 8600
        invariant Scan(8550, 8599, preferred, {}, busy) == Scan(p, 8599, preferred, {}, busy)
        invariant cfg == old(cfg)
      {
        if p != preferred && p !in busy {
          if mayPersist && cfg.status != p {
            cfg := cfg.(status := p);
          }
          return p;
        }
      }
      return preferred;
    }

    method ReserveInterNodePort(preferred: nat, avoid: set<nat>, busy: set<nat>, mayPersist: bool) returns (port: nat)
      modifies this
      ensures port == Reserved(8554, 8599, preferred, avoid, busy)
      ensures cfg == if mayPersist && port != preferred then old(cfg).(interNode := port) else old(cfg)
    {
      if preferred !in avoid && preferred !in busy {
        return preferred;
      }
      for p := 8554 to 8600
        invariant Scan(8554, 8599, preferred, avoid, busy) == Scan(p, 8599, preferred, avoid, busy)
        invariant cfg == old(cfg)
      {
        if p != preferred && p !in avoid && p !in busy {
          if mayPersist && cfg.interNode != p {
            cfg := cfg.(interNode := p);
          }
          return p;
        }
      }
      return preferred;
    }

    method Start(l: Launch, busy: set<nat>) returns (bound: Bound)
      modifies this
      ensures (bound, cfg) == Boot(l, old(cfg), busy)
    {
      var statusPreferred := cfg.status;
      var api, interPreferred := cfg.api, cfg.interNode;
      match l.cliPort {
        case Some(port) =>
          if l.service {
            var changed := ReconcileBakedPort(port);
            api, interPreferred := cfg.api, cfg.interNode;
          } else {
            api, interPreferred := port, Next(port);
          }
        case None =>
      }
      var status := ReserveStatusPort(statusPreferred, busy, l.service || l.agent);
      var inter: Option<nat> := None;
      if l.selfSigned {
        var port := ReserveInterNodePort(interPreferred, {api, status}, busy, l.service || l.agent);
        inter := Some(port);
      }
      bound := Bound(api, status, inter);
    }
  }

  // ---------------------------------------------------------------- choosing

  lemma {:induction false} ScanFinds(lo: nat, hi: nat, preferred: nat, avoid: set<nat>, busy: set<nat>)
    ensures var r := Scan(lo, hi, preferred, avoid, busy);
            && (r.Some? ==> lo <= r.value <= hi && r.value != preferred && Usable(r.value, avoid, busy))
            && (r.None? ==> forall p :: lo <= p <= hi && p != preferred ==> !Usable(p, avoid, busy))
    decreases hi + 1 - lo
  {
    if lo <= hi {
      ScanFinds(lo + 1, hi, preferred, avoid, busy);
    }
  }

  /**
   * The inter-node port is free and clear of the api and status ports exactly when the preferred port or some
   * port of the range is; the range is only searched when the preferred port is not.
   */
  lemma {:induction false} InterPortAvoidsClaims(l: Launch, cfg: Config, busy: set<nat>)
    ensures var avoid, preferred := {ApiPort(l, cfg), StatusPort(cfg, busy)}, InterPreferred(l, cfg);
            var inter := InterPort(l, cfg, busy);
            && (Usable(inter, avoid, busy) <==>
                  Usable(preferred, avoid, busy) || exists p :: 8554 <= p <= 8599 && Usable(p, avoid, busy))
            && (Usable(preferred, avoid, busy) ==> inter == preferred)
  {
    ScanFinds(8554, 8599, InterPreferred(l, cfg), {ApiPort(l, cfg), StatusPort(cfg, busy)}, busy);
  }

  /** The status port is chosen without regard to the api port: when the two are the same, over the inputs alone. */
  lemma {:induction false} StatusTakesApiIff(l: Launch, cfg: Config, busy: set<nat>)
    ensures var api := ApiPort(l, cfg);
            StatusPort(cfg, busy) == api <==>
              || (cfg.status == api && (api !in busy || forall p :: 8550 <= p <= 8599 ==> p in busy))
              || (cfg.status in busy && 8550 <= api <= 8599 && api !in busy && forall p :: 8550 <= p < api ==> p in busy)
  {
    var api := ApiPort(l, cfg);
    var found := Scan(8550, 8599, cfg.status, {}, busy);
    ScanFinds(8550, 8599, cfg.status, {}, busy);
    if cfg.status in busy {
      forall p | 8550 <= p <= 8599 && found.None? ensures p in busy {
        assert p == cfg.status || !Usable(p, {}, busy);
      }
      if 8550 <= api <= 8599 {
        ScanMeets(8550, 8599, cfg.status, api, busy);
      }
    }
  }

  /** A port is what a scan without claims finds exactly when it is free and nothing before it is. */
  lemma {:induction false} ScanMeets(lo: nat, hi: nat, preferred: nat, port: nat, busy: set<nat>)
    requires lo <= port <= hi && preferred in busy
    ensures Scan(lo, hi, preferred, {}, busy) == Some(port) <==> port !in busy && forall p :: lo <= p < port ==> p in busy
    decreases hi - lo
  {
    if lo == port {
      ScanFinds(lo + 1, hi, preferred, {}, busy);
    } else if lo in busy {
      ScanMeets(lo + 1, hi, preferred, port, busy);
      assert (forall p :: lo + 1 <= p < port ==> p in busy) ==> forall p :: lo <= p < port ==> p in busy;
    } else {
      assert Scan(lo, hi, preferred, {}, busy) == Some(lo);
    }
  }

  /**
   * The inter-node port differs from both others exactly when the preferred one does, or some port of the range is
   * free and unclaimed; so the three are distinct exactly when this holds and the status port has not taken the api port.
   */
  lemma {:induction false} ThreePortsDistinctIff(l: Launch, cfg: Config, busy: set<nat>)
    ensures var api, status, inter := ApiPort(l, cfg), StatusPort(cfg, busy), InterPort(l, cfg, busy);
            (api != status && inter != api && inter != status) <==>
              && api != status
              && (InterPreferred(l, cfg) !in {api, status} || exists p :: 8554 <= p <= 8599 && Usable(p, {api, status}, busy))
  {
    ScanFinds(8554, 8599, InterPreferred(l, cfg), {ApiPort(l, cfg), StatusPort(cfg, busy)}, busy);
  }

  /** A start on which it has: 8550 to 8552 are taken, so api and status both get 8553, and the file keeps it. */
  lemma {:induction false} StatusTakesApi()
    ensures var l, cfg := Launch(true, false, None, true), Config(8553, 8554, 8550);
            var (bound, file) := Boot(l, cfg, {8550, 8551, 8552});
            bound.api == 8553 && bound.status == 8553 && file.status == 8553
  {
    StatusTakesApiIff(Launch(true, false, None, true), Config(8553, 8554, 8550), {8550, 8551, 8552});
  }

  // ---------------------------------------------------------------- the file

  /** One start of a sequence, with the ports other programs hold at that moment. */
  datatype Boots = Boots(launch: Launch, busy: set<nat>)

  function FileAfter(cfg: Config, boots: seq<Boots>): Config {
    if boots == [] then cfg else
      var b := boots[|boots| - 1];
      Boot(b.launch, FileAfter(cfg, boots[..|boots| - 1]), b.busy).1
  }

  function WithoutManual(boots: seq<Boots>): seq<Boots> {
    if boots == [] then [] else
      var front := WithoutManual(boots[..|boots| - 1]);
      if MayPersist(boots[|boots| - 1].launch) then front + [boots[|boots| - 1]] else front
  }

  /** Over any sequence of starts, the file is as if the manual ones had never happened. */
  lemma {:induction false} ManualStartsLeaveNoTrace(cfg: Config, boots: seq<Boots>)
    ensures FileAfter(cfg, boots) == FileAfter(cfg, WithoutManual(boots))
  {
    if boots != [] {
      var front, last := boots[..|boots| - 1], boots[|boots| - 1];
      ManualStartsLeaveNoTrace(cfg, front);
      var kept := WithoutManual(front);
      assert (kept + [last])[..|kept|] == kept;
    }
  }

  /** Reconciling is a fixpoint. */
  lemma {:induction false} ReconcileTwice(cfg: Config, baked: nat)
    ensures Reconciled(Reconciled(cfg, baked), baked) == Reconciled(cfg, baked)
  {
  }

  /**
   * After a service start with a baked port, the next start has something left to reconcile exactly when this
   * one fell back to 8554, the value that reads as "never set".
   */
  lemma {:induction false} NextStartReconcilesIff(l: Launch, cfg: Config, busy: set<nat>)
    requires l.service && l.cliPort.Some?
    ensures var (bound, file) := Boot(l, cfg, busy);
            Reconciled(file, l.cliPort.value) != file
            <==> bound.interNode == Some(DEFAULT_INTER) && InterPreferred(l, cfg) != DEFAULT_INTER
                 && Next(l.cliPort.value) != DEFAULT_INTER
  {
  }

  // ---------------------------------------------------------------- starting again

  /**
   * The second start would move: the configured port is not usable, the scan's first port 8554 is, and so is the
   * port after the baked one, which wins when 8554 is taken for "unset".
   */
  predicate WillMove(l: Launch, cfg: Config, busy: set<nat>) {
    var claimed := {ApiPort(l, cfg), StatusPort(cfg, busy)};
    && l.service && l.cliPort.Some? && l.selfSigned
    && InterPreferred(l, cfg) != DEFAULT_INTER && !Usable(InterPreferred(l, cfg), claimed, busy)
    && Usable(DEFAULT_INTER, claimed, busy)
    && Next(l.cliPort.value) != DEFAULT_INTER && Usable(Next(l.cliPort.value), claimed, busy)
  }

  lemma {:induction false} StatusIsStable(l: Launch, cfg: Config, busy: set<nat>)
    ensures StatusPort(Boot(l, cfg, busy).1, busy) == StatusPort(cfg, busy)
    ensures ApiPort(l, Boot(l, cfg, busy).1) == ApiPort(l, cfg)
  {
    ScanFinds(8550, 8599, cfg.status, {}, busy);
  }

  /** With the same ports taken by others, a second start binds the same ports, exactly unless `WillMove`. */
  lemma {:induction false} SecondStartIsSameIff(l: Launch, cfg: Config, busy: set<nat>)
    ensures var (bound, file) := Boot(l, cfg, busy);
            && (Boot(l, file, busy).0 == bound <==> !WillMove(l, cfg, busy))
            && (!WillMove(l, cfg, busy) ==> Boot(l, file, busy).1 == file)
  {
    StatusIsStable(l, cfg, busy);
    ScanFinds(8550, 8599, cfg.status, {}, busy);
    ScanFinds(8554, 8599, InterPreferred(l, cfg), {ApiPort(l, cfg), StatusPort(cfg, busy)}, busy);
    var file := Boot(l, cfg, busy).1;
    ScanFinds(8554, 8599, InterPreferred(l, file), {ApiPort(l, cfg), StatusPort(cfg, busy)}, busy);
  }

  /** Such a start: the configured 8700 is taken, the scan lands on 8554, and the next start moves on to 9001. */
  lemma {:induction false} MoveHappens()
    ensures var l, cfg, busy := Launch(true, false, Some(9000), true), Config(9000, 8700, 8550), {8700};
            var (bound, file) := Boot(l, cfg, busy);
            && bound == Bound(9000, 8550, Some(8554)) && file == Config(9000, 8554, 8550)
            && Boot(l, file, busy).0 == Bound(9000, 8550, Some(9001))
  {
    var l, busy := Launch(true, false, Some(9000), true), {8700};
    assert Scan(8554, 8599, 8700, {9000, 8550}, busy) == Some(8554);
    assert InterPort(l, Config(9000, 8700, 8550), busy) == 8554;
  }

  /** The file after `n` identical starts. */
  function Repeated(l: Launch, cfg: Config, busy: set<nat>, n: nat): Config {
    if n == 0 then cfg else Boot(l, Repeated(l, cfg, busy, n - 1), busy).1
  }

  /** A move happens at most once: the second start never moves again. */
  lemma {:induction false} SecondStartSettles(l: Launch, cfg: Config, busy: set<nat>)
    ensures !WillMove(l, Boot(l, cfg, busy).1, busy)
  {
    StatusIsStable(l, cfg, busy);
    ScanFinds(8550, 8599, cfg.status, {}, busy);
    ScanFinds(8554, 8599, InterPreferred(l, cfg), {ApiPort(l, cfg), StatusPort(cfg, busy)}, busy);
  }

  /**
   * However often the process is restarted in unchanged surroundings, every start from the second on binds the
   * same ports; and they are the ports of the first start exactly unless that one fell back to 8554 as above.
   */
  lemma {:induction false} EveryLaterStartIsSame(l: Launch, cfg: Config, busy: set<nat>, n: nat)
    requires n >= 1
    ensures Boot(l, Repeated(l, cfg, busy, n), busy).0 == Boot(l, Repeated(l, cfg, busy, 1), busy).0
    ensures Boot(l, Repeated(l, cfg, busy, n), busy).0 == Boot(l, cfg, busy).0 <==> !WillMove(l, cfg, busy)
  {
    assert Repeated(l, cfg, busy, 1) == Boot(l, Repeated(l, cfg, busy, 0), busy).1;
    var file := Boot(l, cfg, busy).1;
    SecondStartIsSameIff(l, cfg, busy);
    if n > 1 {
      EveryLaterStartIsSame(l, cfg, busy, n - 1);
      FilesSettle(l, cfg, busy, n);
      SecondStartSettles(l, cfg, busy);
      SecondStartIsSameIff(l, file, busy);
    }
  }

  lemma {:induction false} FilesSettle(l: Launch, cfg: Config, busy: set<nat>, n: nat)
    requires n >= 2
    ensures Repeated(l, cfg, busy, n) == Repeated(l, cfg, busy, 2)
  {
    assert Repeated(l, cfg, busy, 1) == Boot(l, Repeated(l, cfg, busy, 0), busy).1;
    var file := Boot(l, cfg, busy).1;
    if n > 2 {
      FilesSettle(l, cfg, busy, n - 1);
      SecondStartSettles(l, cfg, busy);
      SecondStartIsSameIff(l, file, busy);
    }
  }
}
