/**
 * The signed-request protocol over a whole cluster: any number of nodes with their own clocks and
 * replay caches, keys no node holds, and a network that may duplicate, delay, reorder and relay.
 *
 * A run is any sequence of actions; an action that cannot happen in a state changes nothing, so a
 * claim about every sequence is a claim about every run. Signatures are ideal: a verification under
 * a node's key succeeds only on a message that node has signed. A node that restarts loses its replay
 * cache, which is process memory; its clock keeps running forward.
 */
module PeerProtocol {
  import opened Wrappers
  import opened Text
  import opened SignedRequests
  import opened NonceCache

  /** A node's own identity: its `self_id` and its public key. */
  datatype Identity = Identity(selfId: string, key: string)

  /** One entry of a node's registry of peers; `pubkey` is empty until a key is pinned. */
  datatype Peer = Peer(id: string, selfId: Option<string>, pubkey: string)

  /** A request that passed the stateless check and has not yet reached the replay cache. */
  datatype Checked = Checked(parts: Parts, ts: nat, key: string)

  /** `at` is the clock reading that decided, `boot` how often the receiver had restarted by then. */
  datatype Acceptance = Acceptance(
    node: string, ts: nat, nonce: string, dest: string, key: string, at: nat, boot: nat)

  /** `accepted` and `boot` record history: everything ever accepted, and how many restarts there were. */
  datatype Node = Node(
    clock: nat,
    registry: seq<Peer>,
    cache: Cache,
    handlers: map<nat, Checked>,
    accepted: seq<Acceptance>,
    boot: nat)

  /** One request a node really signed. */
  datatype Request = Request(signer: nat, ts: nat, nonce: string, dest: string)

  datatype State = State(nodes: seq<Node>, signed: set<(string, string)>, requests: set<Request>)

  /** What can happen: clocks move, registries change, anyone signs with its own key, headers arrive, nodes restart. */
  datatype Action =
    | Advance(b: nat, to: nat)
    | Learn(b: nat, registry: seq<Peer>)
    | Sign(a: nat, nonce: string, dest: string)
    | SignElsewhere(key: string, message: string)
    | Check(b: nat, handler: nat, parts: Parts, outcome: SigOutcome)
    | Consult(b: nat, handler: nat)
    | Restart(b: nat)

  /** The latest clock reading modelled: two windows short of the 64-bit maximum. */
  const LAST_SECOND: nat := U64_MAX - 2 * MAX_SKEW_SECS

  predicate WellFormed(net: seq<Identity>) {
    && (forall a :: 0 <= a < |net| ==> Free('\n', net[a].selfId))
    && (forall a, b :: 0 <= a < b < |net| ==> net[a].selfId != net[b].selfId)
    && (forall a, b :: 0 <= a < b < |net| ==> net[a].key != net[b].key)
  }

  predicate IsNodeKey(net: seq<Identity>, key: string) {
    exists a :: 0 <= a < |net| && net[a].key == key
  }

  /** The key pinned for a name: that of the first entry known by it, unless empty. */
  function PinnedPubkey(registry: seq<Peer>, name: string): Option<string> {
    if registry == [] then None
    else if registry[0].id == name || registry[0].selfId == Some(name) then
      if registry[0].pubkey == [] then None else Some(registry[0].pubkey)
    else PinnedPubkey(registry[1..], name)
  }

  function Start(net: seq<Identity>): State {
    State(seq(|net|, _ => Node(0, [], map[], map[], [], 0)), {}, {})
  }

  /** The stateless check at node `b`: registry lookup, then `verify_parts`. */
  function CheckAt(ourId: string, node: Node, signed: set<(string, string)>, handler: nat,
                   parts: Parts, outcome: SigOutcome): Node
  {
    match PinnedPubkey(node.registry, parts.node)
    case None => node
    case Some(key) =>
      match VerifyParts(ourId, parts, node.clock, _ => outcome)
      case Err(_) => node
      case Ok(ts) =>
        if handler in node.handlers || (key, Canonical(parts.node, ts, parts.nonce, parts.dest)) !in signed then node
        else node.(handlers := node.handlers[handler := Checked(parts, ts, key)])
  }

  /** The replay check, a separate and later clock reading. */
  function ConsultAt(node: Node, handler: nat): Node {
    if handler !in node.handlers then node else
      var k := node.handlers[handler];
      var done := node.(handlers := node.handlers - {handler},
                        cache := Presented(node.cache, k.parts.nonce, k.ts, node.clock));
      if Live(node.cache, k.parts.nonce, node.clock) then done
      else done.(accepted := node.accepted + [AcceptanceOf(node, k)])
  }

  function AcceptanceOf(node: Node, k: Checked): Acceptance {
    Acceptance(k.parts.node, k.ts, k.parts.nonce, k.parts.dest, k.key, node.clock, node.boot)
  }

  /** The process ends and starts again: cache and half-handled requests are gone. */
  function Restarted(node: Node): Node {
    node.(cache := map[], handlers := map[], boot := node.boot + 1)
  }

  function Step(net: seq<Identity>, s: State, action: Action): State
    requires |s.nodes| == |net|
    ensures |Step(net, s, action).nodes| == |net|
  {
    match action
    case Advance(b, to) =>
      if b < |net| && s.nodes[b].clock <= to <= LAST_SECOND
      then s.(nodes := s.nodes[b := s.nodes[b].(clock := to)]) else s
    case Learn(b, registry) =>
      if b < |net| then s.(nodes := s.nodes[b := s.nodes[b].(registry := registry)]) else s
    case Sign(a, nonce, dest) =>
      if a < |net| && Free('\n', nonce) then
        var ts := s.nodes[a].clock;
        s.(signed := s.signed + {(net[a].key, Canonical(net[a].selfId, ts, nonce, dest))},
           requests := s.requests + {Request(a, ts, nonce, dest)})
      else s
    case SignElsewhere(key, message) =>
      if IsNodeKey(net, key) then s else s.(signed := s.signed + {(key, message)})
    case Check(b, handler, parts, outcome) =>
      if b < |net| && Free('\n', parts.node) && Free('\n', parts.nonce)
      then s.(nodes := s.nodes[b := CheckAt(net[b].selfId, s.nodes[b], s.signed, handler, parts, outcome)]) else s
    case Consult(b, handler) =>
      if b < |net| then s.(nodes := s.nodes[b := ConsultAt(s.nodes[b], handler)]) else s
    case Restart(b) =>
      if b < |net| then s.(nodes := s.nodes[b := Restarted(s.nodes[b])]) else s
  }

  function Exec(net: seq<Identity>, run: seq<Action>): (s: State)
    ensures |s.nodes| == |net|
  {
    if run == [] then Start(net) else Step(net, Exec(net, run[..|run| - 1]), run[|run| - 1])
  }

  lemma {:induction false} ExecSnoc(net: seq<Identity>, run: seq<Action>, action: Action)
    ensures Exec(net, run + [action]) == Step(net, Exec(net, run), action)
  {
    assert (run + [action])[..|run|] == run;
  }

  // ---------------------------------------------------------------- what every step keeps

  /** The message is signed under the key, and its fields are header values. */
  predicate Backed(signed: set<(string, string)>, ourId: string, key: string,
                   node: string, ts: nat, nonce: string, dest: string)
  {
    && (key, Canonical(node, ts, nonce, dest)) in signed
    && Free('\n', node) && Free('\n', nonce)
    && dest == ourId
    && ts + MAX_SKEW_SECS <= U64_MAX
  }

  /** What was accepted since restart number `boot`. */
  function Uses(accepted: seq<Acceptance>, boot: nat): seq<Use> {
    if accepted == [] then [] else
      var front, c := Uses(accepted[..|accepted| - 1], boot), accepted[|accepted| - 1];
      if c.boot == boot then front + [Use(c.nonce, c.ts)] else front
  }

  lemma {:induction false} UsesAre(accepted: seq<Acceptance>, boot: nat, u: Use)
    ensures u in Uses(accepted, boot) <==>
              exists i :: 0 <= i < |accepted| && accepted[i].boot == boot && accepted[i].nonce == u.nonce && accepted[i].ts == u.ts
  {
    if accepted != [] {
      var n := |accepted| - 1;
      UsesAre(accepted[..n], boot, u);
      if u in Uses(accepted, boot) && u in Uses(accepted[..n], boot) {
        var i :| 0 <= i < n && accepted[..n][i].boot == boot && accepted[..n][i].nonce == u.nonce && accepted[..n][i].ts == u.ts;
        assert accepted[i] == accepted[..n][i];
      }
      forall i | 0 <= i < |accepted| && accepted[i].boot == boot && accepted[i].nonce == u.nonce && accepted[i].ts == u.ts
        ensures u in Uses(accepted, boot)
      {
        if i < n {
          assert accepted[..n][i] == accepted[i];
        }
      }
    }
  }

  /** Two acceptances of one nonce with no restart between are a whole window apart, from the first one's timestamp. */
  predicate Spaced(accepted: seq<Acceptance>) {
    forall i, j :: 0 <= i < j < |accepted| && accepted[i].nonce == accepted[j].nonce ==>
      accepted[i].ts + MAX_SKEW_SECS <= accepted[j].at || accepted[i].boot < accepted[j].boot
  }

  ghost predicate HandlersBacked(signed: set<(string, string)>, ourId: string, handlers: map<nat, Checked>) {
    forall h :: h in handlers ==>
      var k := handlers[h];
      Backed(signed, ourId, k.key, k.parts.node, k.ts, k.parts.nonce, k.parts.dest)
  }

  ghost predicate AcceptedBacked(signed: set<(string, string)>, ourId: string, n: Node) {
    forall i :: 0 <= i < |n.accepted| ==>
      var c := n.accepted[i];
      Backed(signed, ourId, c.key, c.node, c.ts, c.nonce, c.dest) && c.at <= n.clock && c.boot <= n.boot
  }

  ghost predicate NodeInv(signed: set<(string, string)>, ourId: string, n: Node) {
    && n.clock <= LAST_SECOND
    && HandlersBacked(signed, ourId, n.handlers)
    && AcceptedBacked(signed, ourId, n)
    && Agrees(n.cache, Uses(n.accepted, n.boot), n.clock)
    && Spaced(n.accepted)
  }

  /** Everything signed under node `a`'s key is one of the requests it really signed. */
  ghost predicate Genuine(net: seq<Identity>, s: State) {
    forall k, m, a :: (k, m) in s.signed && 0 <= a < |net| && net[a].key == k
      ==> exists r :: r in s.requests && SignedAs(net, a, r, m)
  }

  predicate SignedAs(net: seq<Identity>, a: nat, r: Request, message: string)
    requires a < |net|
  {
    r.signer == a && Free('\n', r.nonce) && message == Canonical(net[a].selfId, r.ts, r.nonce, r.dest)
  }

  /** Every recorded request is under its signer's key, stamped inside the modelled clock range. */
  ghost predicate Recorded(net: seq<Identity>, s: State) {
    forall r :: r in s.requests ==>
      && r.signer < |net| && r.ts <= LAST_SECOND && Free('\n', r.nonce)
      && (net[r.signer].key, Canonical(net[r.signer].selfId, r.ts, r.nonce, r.dest)) in s.signed
  }

  ghost predicate Inv(net: seq<Identity>, s: State) {
    && |s.nodes| == |net|
    && Genuine(net, s)
    && Recorded(net, s)
    && forall b :: 0 <= b < |net| ==> NodeInv(s.signed, net[b].selfId, s.nodes[b])
  }

  lemma {:induction false} CheckKeepsNodeInv(signed: set<(string, string)>, ourId: string, n: Node, handler: nat,
                          parts: Parts, outcome: SigOutcome)
    requires NodeInv(signed, ourId, n)
    requires Free('\n', parts.node) && Free('\n', parts.nonce)
    ensures NodeInv(signed, ourId, CheckAt(ourId, n, signed, handler, parts, outcome))
  {
  }

  /** A nonce the cache does not hold was last accepted a window ago, or before a restart. */
  lemma {:induction false} NotHeldIsSpaced(n: Node, nonce: string, i: nat)
    requires Agrees(n.cache, Uses(n.accepted, n.boot), n.clock) && !Live(n.cache, nonce, n.clock)
    requires i < |n.accepted| && n.accepted[i].nonce == nonce && n.accepted[i].boot <= n.boot
    ensures n.accepted[i].ts + MAX_SKEW_SECS <= n.clock || n.accepted[i].boot < n.boot
  {
    if n.accepted[i].boot == n.boot {
      UsesAre(n.accepted, n.boot, Use(nonce, n.accepted[i].ts));
      assert !UsedAndUnexpired(Uses(n.accepted, n.boot), nonce, n.clock);
    }
  }

  lemma {:induction false} UsesSnoc(n: Node, k: Checked)
    ensures Uses(n.accepted + [AcceptanceOf(n, k)], n.boot) == Uses(n.accepted, n.boot) + [Use(k.parts.nonce, k.ts)]
  {
    assert (n.accepted + [AcceptanceOf(n, k)])[..|n.accepted|] == n.accepted;
  }

  lemma {:induction false} AcceptedStaysSpaced(n: Node, c: Acceptance)
    requires Spaced(n.accepted)
    requires forall i :: 0 <= i < |n.accepted| && n.accepted[i].nonce == c.nonce ==>
               n.accepted[i].ts + MAX_SKEW_SECS <= c.at || n.accepted[i].boot < c.boot
    ensures Spaced(n.accepted + [c])
  {
  }

  lemma {:induction false} AcceptedStaysBacked(signed: set<(string, string)>, ourId: string, n: Node, k: Checked)
    requires AcceptedBacked(signed, ourId, n)
    requires Backed(signed, ourId, k.key, k.parts.node, k.ts, k.parts.nonce, k.parts.dest)
    ensures AcceptedBacked(signed, ourId, n.(accepted := n.accepted + [AcceptanceOf(n, k)]))
  {
  }

  /** The replay check lets the request through. */
  lemma {:induction false} AcceptKeepsNodeInv(signed: set<(string, string)>, ourId: string, n: Node, handler: nat)
    requires NodeInv(signed, ourId, n) && handler in n.handlers
    requires !Live(n.cache, n.handlers[handler].parts.nonce, n.clock)
    ensures NodeInv(signed, ourId, ConsultAt(n, handler))
  {
    var k := n.handlers[handler];
    PresentedAgrees(n.cache, Uses(n.accepted, n.boot), k.parts.nonce, k.ts, n.clock, n.clock);
    UsesSnoc(n, k);
    AcceptedStaysBacked(signed, ourId, n, k);
    forall i | 0 <= i < |n.accepted| && n.accepted[i].nonce == k.parts.nonce
      ensures n.accepted[i].ts + MAX_SKEW_SECS <= n.clock || n.accepted[i].boot < n.boot
    {
      NotHeldIsSpaced(n, k.parts.nonce, i);
    }
    AcceptedStaysSpaced(n, AcceptanceOf(n, k));
  }

  /** The replay check refuses the request, having purged what had expired. */
  lemma {:induction false} RefuseKeepsNodeInv(signed: set<(string, string)>, ourId: string, n: Node, handler: nat)
    requires NodeInv(signed, ourId, n) && handler in n.handlers
    requires Live(n.cache, n.handlers[handler].parts.nonce, n.clock)
    ensures NodeInv(signed, ourId, ConsultAt(n, handler))
  {
    var k := n.handlers[handler];
    PresentedAgrees(n.cache, Uses(n.accepted, n.boot), k.parts.nonce, k.ts, n.clock, n.clock);
  }

  lemma {:induction false} ConsultKeepsNodeInv(signed: set<(string, string)>, ourId: string, n: Node, handler: nat)
    requires NodeInv(signed, ourId, n)
    ensures NodeInv(signed, ourId, ConsultAt(n, handler))
  {
    if handler in n.handlers {
      if Live(n.cache, n.handlers[handler].parts.nonce, n.clock) {
        RefuseKeepsNodeInv(signed, ourId, n, handler);
      } else {
        AcceptKeepsNodeInv(signed, ourId, n, handler);
      }
    }
  }

  lemma {:induction false} NothingUsedYet(accepted: seq<Acceptance>, boot: nat)
    requires forall i :: 0 <= i < |accepted| ==> accepted[i].boot < boot
    ensures Uses(accepted, boot) == []
  {
    if accepted != [] {
      NothingUsedYet(accepted[..|accepted| - 1], boot);
    }
  }

  lemma {:induction false} RestartKeepsNodeInv(signed: set<(string, string)>, ourId: string, n: Node)
    requires NodeInv(signed, ourId, n)
    ensures NodeInv(signed, ourId, Restarted(n))
  {
    NothingUsedYet(n.accepted, n.boot + 1);
  }

  lemma {:induction false} MoreSignaturesKeepNodeInv(signed: set<(string, string)>, more: set<(string, string)>,
        ourId: string, n: Node)
    requires signed <= more && NodeInv(signed, ourId, n)
    ensures NodeInv(more, ourId, n)
  {
  }

  lemma {:induction false} SignKeepsInv(net: seq<Identity>, s: State, a: nat, nonce: string, dest: string)
    requires WellFormed(net) && Inv(net, s)
    ensures Inv(net, Step(net, s, Sign(a, nonce, dest)))
  {
    if a < |net| && Free('\n', nonce) {
      var s' := Step(net, s, Sign(a, nonce, dest));
      var r := Request(a, s.nodes[a].clock, nonce, dest);
      assert NodeInv(s.signed, net[a].selfId, s.nodes[a]);
      assert SignedAs(net, a, r, Canonical(net[a].selfId, r.ts, nonce, dest)) && r in s'.requests;
      forall b | 0 <= b < |net| ensures NodeInv(s'.signed, net[b].selfId, s'.nodes[b]) {
        MoreSignaturesKeepNodeInv(s.signed, s'.signed, net[b].selfId, s.nodes[b]);
      }
    }
  }

  lemma {:induction false} SignElsewhereKeepsInv(net: seq<Identity>, s: State, key: string, message: string)
    requires WellFormed(net) && Inv(net, s)
    ensures Inv(net, Step(net, s, SignElsewhere(key, message)))
  {
    var s' := Step(net, s, SignElsewhere(key, message));
    forall b | 0 <= b < |net| ensures NodeInv(s'.signed, net[b].selfId, s'.nodes[b]) {
      MoreSignaturesKeepNodeInv(s.signed, s'.signed, net[b].selfId, s.nodes[b]);
    }
  }

  /** Only node `b` changed, and it still has its invariant. */
  lemma {:induction false} OneNodeKeepsInv(net: seq<Identity>, s: State, b: nat, n: Node)
    requires Inv(net, s) && b < |net| && NodeInv(s.signed, net[b].selfId, n)
    ensures Inv(net, s.(nodes := s.nodes[b := n]))
  {
  }

  lemma {:induction false} ClockAndRegistryKeepNodeInv(signed: set<(string, string)>, ourId: string, n: Node, to: nat,
        registry: seq<Peer>)
    requires NodeInv(signed, ourId, n)
    ensures n.clock <= to <= LAST_SECOND ==> NodeInv(signed, ourId, n.(clock := to))
    ensures NodeInv(signed, ourId, n.(registry := registry))
  {
  }

  lemma {:induction false} StepKeepsInv(net: seq<Identity>, s: State, action: Action)
    requires WellFormed(net) && Inv(net, s)
    ensures Inv(net, Step(net, s, action))
  {
    match action
    case Advance(b, to) =>
      if b < |net| && s.nodes[b].clock <= to <= LAST_SECOND {
        ClockAndRegistryKeepNodeInv(s.signed, net[b].selfId, s.nodes[b], to, []);
        OneNodeKeepsInv(net, s, b, s.nodes[b].(clock := to));
      }
    case Learn(b, registry) =>
      if b < |net| {
        ClockAndRegistryKeepNodeInv(s.signed, net[b].selfId, s.nodes[b], 0, registry);
        OneNodeKeepsInv(net, s, b, s.nodes[b].(registry := registry));
      }
    case Sign(a, nonce, dest) => SignKeepsInv(net, s, a, nonce, dest);
    case SignElsewhere(key, message) => SignElsewhereKeepsInv(net, s, key, message);
    case Check(b, handler, parts, outcome) =>
      if b < |net| && Free('\n', parts.node) && Free('\n', parts.nonce) {
        CheckKeepsNodeInv(s.signed, net[b].selfId, s.nodes[b], handler, parts, outcome);
        OneNodeKeepsInv(net, s, b, CheckAt(net[b].selfId, s.nodes[b], s.signed, handler, parts, outcome));
      }
    case Consult(b, handler) =>
      if b < |net| {
        ConsultKeepsNodeInv(s.signed, net[b].selfId, s.nodes[b], handler);
        OneNodeKeepsInv(net, s, b, ConsultAt(s.nodes[b], handler));
      }
    case Restart(b) =>
      if b < |net| {
        RestartKeepsNodeInv(s.signed, net[b].selfId, s.nodes[b]);
        OneNodeKeepsInv(net, s, b, Restarted(s.nodes[b]));
      }
  }

  lemma {:induction false} RunKeepsInv(net: seq<Identity>, run: seq<Action>)
    requires WellFormed(net)
    ensures Inv(net, Exec(net, run))
  {
    if run != [] {
      RunKeepsInv(net, run[..|run| - 1]);
      StepKeepsInv(net, Exec(net, run[..|run| - 1]), run[|run| - 1]);
    }
  }

  // ---------------------------------------------------------------- the protocol's promises

  /**
   * Who really sent a request: in every run, an acceptance at node `b` under the key of node `a`
   * names `a`, is addressed to `b`, and is a request `a` signed with exactly that timestamp and nonce.
   */
  lemma {:induction false} AcceptedRequestsAreGenuine(net: seq<Identity>, run: seq<Action>, b: nat, i: nat, a: nat)
    requires WellFormed(net) && b < |net| && a < |net|
    requires i < |Exec(net, run).nodes[b].accepted|
    requires Exec(net, run).nodes[b].accepted[i].key == net[a].key
    ensures var c := Exec(net, run).nodes[b].accepted[i];
            && c.node == net[a].selfId
            && c.dest == net[b].selfId
            && Request(a, c.ts, c.nonce, net[b].selfId) in Exec(net, run).requests
  {
    RunKeepsInv(net, run);
    var s := Exec(net, run);
    var c := s.nodes[b].accepted[i];
    assert NodeInv(s.signed, net[b].selfId, s.nodes[b]);
    var m := Canonical(c.node, c.ts, c.nonce, c.dest);
    assert (net[a].key, m) in s.signed;
    var r :| r in s.requests && SignedAs(net, a, r, m);
    CanonicalInjective(c.node, c.ts, c.nonce, c.dest, net[a].selfId, r.ts, r.nonce, r.dest);
  }

  /**
   * At most one acceptance cluster-wide: two acceptances of one request, at any two nodes of any run,
   * are at the same node, and the later one is decided no earlier than 300 s after the timestamp, or the
   * node restarted between the two.
   */
  lemma {:induction false} AcceptedAtMostOnce(net: seq<Identity>, run: seq<Action>, b1: nat, i: nat, b2: nat, j: nat)
    requires WellFormed(net) && b1 < |net| && b2 < |net|
    requires i < |Exec(net, run).nodes[b1].accepted| && j < |Exec(net, run).nodes[b2].accepted|
    requires var c1, c2 := Exec(net, run).nodes[b1].accepted[i], Exec(net, run).nodes[b2].accepted[j];
             c1.nonce == c2.nonce && c1.dest == c2.dest
    ensures b1 == b2
    ensures i < j ==> var accepted := Exec(net, run).nodes[b1].accepted;
                      || accepted[i].ts + MAX_SKEW_SECS <= accepted[j].at
                      || accepted[i].boot < accepted[j].boot
  {
    RunKeepsInv(net, run);
    var s := Exec(net, run);
    assert NodeInv(s.signed, net[b1].selfId, s.nodes[b1]);
    assert NodeInv(s.signed, net[b2].selfId, s.nodes[b2]);
  }

  /**
   * Exactly when the replay check lets a request through, in every run: when no earlier acceptance of
   * its nonce at this node since the node last started has a timestamp less than 300 s old.
   */
  lemma {:induction false} ReplayDecision(net: seq<Identity>, run: seq<Action>, b: nat, handler: nat)
    requires WellFormed(net) && b < |net|
    requires handler in Exec(net, run).nodes[b].handlers
    ensures var before, after := Exec(net, run).nodes[b], Exec(net, run + [Consult(b, handler)]).nodes[b];
            var k := before.handlers[handler];
            if UsedWithinWindow(before, k.parts.nonce) then after.accepted == before.accepted
            else after.accepted == before.accepted + [AcceptanceOf(before, k)]
  {
    RunKeepsInv(net, run);
    var s := Exec(net, run);
    assert NodeInv(s.signed, net[b].selfId, s.nodes[b]);
    ExecSnoc(net, run, Consult(b, handler));
    CacheAnswersForAcceptances(s.nodes[b], s.nodes[b].handlers[handler].parts.nonce);
  }

  /** The nonce was accepted here since the last restart, with a timestamp less than 300 s before the clock reading. */
  predicate UsedWithinWindow(n: Node, nonce: string) {
    exists i :: 0 <= i < |n.accepted| && n.accepted[i].boot == n.boot
                && n.accepted[i].nonce == nonce && n.clock < n.accepted[i].ts + MAX_SKEW_SECS
  }

  lemma {:induction false} CacheAnswersForAcceptances(n: Node, nonce: string)
    requires Agrees(n.cache, Uses(n.accepted, n.boot), n.clock)
    ensures Live(n.cache, nonce, n.clock) <==> UsedWithinWindow(n, nonce)
  {
    var uses := Uses(n.accepted, n.boot);
    assert Live(n.cache, nonce, n.clock) <==> UsedAndUnexpired(uses, nonce, n.clock);
    if UsedAndUnexpired(uses, nonce, n.clock) {
      var u :| u in uses && u.nonce == nonce && u.ts + MAX_SKEW_SECS > n.clock;
      UsesAre(n.accepted, n.boot, u);
    } else {
      forall i | 0 <= i < |n.accepted| && n.accepted[i].boot == n.boot && n.accepted[i].nonce == nonce
        ensures n.clock >= n.accepted[i].ts + MAX_SKEW_SECS
      {
        UsesAre(n.accepted, n.boot, Use(nonce, n.accepted[i].ts));
      }
    }
  }

  /**
   * Nothing genuine is lost: in every run, a request really signed for `b` by a peer whose key `b` has
   * pinned, arriving within the window with a nonce `b` has not used within it, is accepted.
   */
  lemma {:induction false} GenuineRequestIsAccepted(net: seq<Identity>, run: seq<Action>, r: Request, b: nat,
        handler: nat, sig: string)
    requires WellFormed(net) && b < |net|
    requires r in Exec(net, run).requests && r.dest == net[b].selfId && r.signer < |net|
    requires var n := Exec(net, run).nodes[b];
             && handler !in n.handlers
             && PinnedPubkey(n.registry, net[r.signer].selfId) == Some(net[r.signer].key)
             && AbsDiff(r.ts, n.clock) <= MAX_SKEW_SECS
             && !UsedWithinWindow(n, r.nonce)
    ensures var n := Exec(net, run).nodes[b];
            Exec(net, run + Delivery(b, handler, Headers(net, r, sig))).nodes[b].accepted
            == n.accepted + [Acceptance(net[r.signer].selfId, r.ts, r.nonce, r.dest, net[r.signer].key, n.clock, n.boot)]
  {
    RunKeepsInv(net, run);
    DeliveryReachesTheCache(net, run, r, b, handler, sig);
    ReplayDecision(net, run + [Check(b, handler, Headers(net, r, sig), Verifies)], b, handler);
  }

  /** The headers its signer sends with a request. */
  function Headers(net: seq<Identity>, r: Request, sig: string): Parts
    requires r.signer < |net|
  {
    Parts(net[r.signer].selfId, Decimal(r.ts), r.nonce, r.dest, sig)
  }

  /** The two steps of handling one arriving request. */
  function Delivery(b: nat, handler: nat, parts: Parts): seq<Action> {
    [Check(b, handler, parts, Verifies), Consult(b, handler)]
  }

  /** A signature that is there, a pinned key, our own address and a timestamp in the window: the check passes. */
  lemma {:induction false} GoodHeadersPass(ourId: string, n: Node, signed: set<(string, string)>, handler: nat,
                        node: string, ts: nat, nonce: string, key: string, sig: string)
    requires handler !in n.handlers && PinnedPubkey(n.registry, node) == Some(key)
    requires ts <= U64_MAX && AbsDiff(ts, n.clock) <= MAX_SKEW_SECS
    requires (key, Canonical(node, ts, nonce, ourId)) in signed
    ensures var parts := Parts(node, Decimal(ts), nonce, ourId, sig);
            CheckAt(ourId, n, signed, handler, parts, Verifies)
            == n.(handlers := n.handlers[handler := Checked(parts, ts, key)])
  {
    ParseDecimal(ts);
    var parts := Parts(node, Decimal(ts), nonce, ourId, sig);
    assert VerifyParts(ourId, parts, n.clock, _ => Verifies) == Ok(ts);
  }

  lemma {:induction false} DeliveryReachesTheCache(net: seq<Identity>, run: seq<Action>, r: Request, b: nat,
        handler: nat, sig: string)
    requires WellFormed(net) && b < |net| && r.signer < |net| && Recorded(net, Exec(net, run))
    requires r in Exec(net, run).requests && r.dest == net[b].selfId
    requires var n := Exec(net, run).nodes[b];
             && handler !in n.handlers
             && PinnedPubkey(n.registry, net[r.signer].selfId) == Some(net[r.signer].key)
             && AbsDiff(r.ts, n.clock) <= MAX_SKEW_SECS
    ensures var s, parts := Exec(net, run), Headers(net, r, sig);
            && Exec(net, run + [Check(b, handler, parts, Verifies)])
               == s.(nodes := s.nodes[b := s.nodes[b].(handlers :=
                    s.nodes[b].handlers[handler := Checked(parts, r.ts, net[r.signer].key)])])
            && run + Delivery(b, handler, parts) == run + [Check(b, handler, parts, Verifies)] + [Consult(b, handler)]
  {
    var s, parts := Exec(net, run), Headers(net, r, sig);
    GoodHeadersPass(net[b].selfId, s.nodes[b], s.signed, handler,
                    net[r.signer].selfId, r.ts, r.nonce, net[r.signer].key, sig);
    ExecSnoc(net, run, Check(b, handler, parts, Verifies));
  }

  /**
   * The window is half-open, at every node of every run: a request whose acceptance is the latest use of
   * its nonce, delivered again when the clock reads exactly 300 s past its timestamp, still passes the
   * skew check but is no longer held by the replay cache, so it is accepted a second time.
   */
  lemma {:induction false} ReplayAtTheBoundary(net: seq<Identity>, run: seq<Action>, r: Request, b: nat, i: nat,
        handler: nat, sig: string)
    requires WellFormed(net) && b < |net| && r.signer < |net|
    requires r in Exec(net, run).requests && r.dest == net[b].selfId
    requires AtTheBoundary(net, Exec(net, run).nodes[b], r, i, handler)
    ensures var n := Exec(net, run).nodes[b];
            Exec(net, run + Delivery(b, handler, Headers(net, r, sig))).nodes[b].accepted
            == n.accepted + [LateAcceptance(net, r, n)]
  {
    GenuineRequestIsAccepted(net, run, r, b, handler, sig);
  }

  /** The request is acceptance `i`, the latest use of its nonce, and the clock reads 300 s past its timestamp. */
  predicate AtTheBoundary(net: seq<Identity>, n: Node, r: Request, i: nat, handler: nat)
    requires r.signer < |net|
  {
    && i < |n.accepted| && n.accepted[i].ts == r.ts && n.accepted[i].nonce == r.nonce
    && (forall j :: 0 <= j < |n.accepted| && n.accepted[j].nonce == r.nonce ==> n.accepted[j].ts <= r.ts)
    && n.clock == r.ts + MAX_SKEW_SECS
    && handler !in n.handlers
    && PinnedPubkey(n.registry, net[r.signer].selfId) == Some(net[r.signer].key)
  }

  function LateAcceptance(net: seq<Identity>, r: Request, n: Node): Acceptance
    requires r.signer < |net|
  {
    Acceptance(net[r.signer].selfId, r.ts, r.nonce, r.dest, net[r.signer].key, n.clock, n.boot)
  }

  /**
   * A restart inside the window forgets too: in every run, a request that has already been accepted, delivered
   * again to the restarted node while its timestamp is still in the window, is accepted once more.
   */
  lemma {:induction false} RestartForgets(net: seq<Identity>, run: seq<Action>, r: Request, b: nat, i: nat,
        handler: nat,
        sig: string)
    requires WellFormed(net) && b < |net| && r.signer < |net|
    requires r in Exec(net, run).requests && r.dest == net[b].selfId
    requires var n := Exec(net, run).nodes[b];
             && i < |n.accepted| && n.accepted[i].ts == r.ts && n.accepted[i].nonce == r.nonce
             && AbsDiff(r.ts, n.clock) <= MAX_SKEW_SECS
             && PinnedPubkey(n.registry, net[r.signer].selfId) == Some(net[r.signer].key)
    ensures var n := Exec(net, run).nodes[b];
            Exec(net, run + [Restart(b)] + Delivery(b, handler, Headers(net, r, sig))).nodes[b].accepted
            == n.accepted + [Acceptance(net[r.signer].selfId, r.ts, r.nonce, r.dest, net[r.signer].key, n.clock, n.boot + 1)]
  {
    RestartClearsTheWindow(net, run, b, r.nonce);
    GenuineRequestIsAccepted(net, run + [Restart(b)], r, b, handler, sig);
  }

  lemma {:induction false} RestartClearsTheWindow(net: seq<Identity>, run: seq<Action>, b: nat, nonce: string)
    requires WellFormed(net) && b < |net|
    ensures var s, s' := Exec(net, run), Exec(net, run + [Restart(b)]);
            && s'.nodes[b] == Restarted(s.nodes[b]) && s'.requests == s.requests
            && !UsedWithinWindow(s'.nodes[b], nonce)
  {
    RunKeepsInv(net, run);
    var s := Exec(net, run);
    ExecSnoc(net, run, Restart(b));
    assert NodeInv(s.signed, net[b].selfId, s.nodes[b]);
  }

  /** Such a run exists: one request accepted twice in the same second, with a restart between. */
  lemma {:induction false} RestartReplayHappens()
    ensures exists net, run :: WellFormed(net) && |net| == 1
              && var accepted := Exec(net, run).nodes[0].accepted;
                 |accepted| == 2 && accepted[1] == accepted[0].(boot := 1) && accepted[0].at == accepted[0].ts
  {
    var net, run, r := FirstRequest();
    GenuineRequestIsAccepted(net, run, r, 0, 0, "s");
    var first := run + Delivery(0, 0, Headers(net, r, "s"));
    DeliveryEnds(net, run, r, 0, 0, "s");
    RestartForgets(net, first, r, 0, 0, 0, "s");
    var again := first + [Restart(0)] + Delivery(0, 0, Headers(net, r, "s"));
    assert |Exec(net, again).nodes[0].accepted| == 2;
  }

  // ---------------------------------------------------------------- any number of times

  /** The run, and then `n` deliveries of the same headers. */
  function Delivered(run: seq<Action>, b: nat, handler: nat, parts: Parts, n: nat): seq<Action> {
    if n == 0 then run else Delivered(run, b, handler, parts, n - 1) + Delivery(b, handler, parts)
  }

  /** Node `b` has accepted the request `n` more times, and is still where it would accept it again. */
  predicate Again(net: seq<Identity>, s: State, s': State, r: Request, b: nat, i: nat, handler: nat, n: nat)
    requires b < |s.nodes| == |s'.nodes| && r.signer < |net|
  {
    var was, now := s.nodes[b], s'.nodes[b];
    && now.accepted == was.accepted + seq(n, _ => LateAcceptance(net, r, was))
    && AtTheBoundary(net, now, r, i, handler)
    && now.clock == was.clock && now.boot == was.boot && s'.requests == s.requests
  }

  lemma {:induction false} AgainAndAgain(net: seq<Identity>, s: State, s': State, s'': State, r: Request, b: nat,
        i: nat,
        handler: nat, n: nat)
    requires b < |s.nodes| == |s'.nodes| == |s''.nodes| && r.signer < |net|
    requires Again(net, s, s', r, b, i, handler, n) && Again(net, s', s'', r, b, i, handler, 1)
    ensures Again(net, s, s'', r, b, i, handler, n + 1)
  {
    var late := LateAcceptance(net, r, s.nodes[b]);
    assert LateAcceptance(net, r, s'.nodes[b]) == late;
    assert seq(n, _ => late) + seq(1, _ => late) == seq(n + 1, _ => late);
    AppendAssociates(s.nodes[b].accepted, seq(n, _ => late), seq(1, _ => late));
  }

  /**
   * The second does not end it: whatever was accepted at the boundary is already expired when it is recorded, so in
   * every run that same request, delivered n more times within that one second, is accepted n more times.
   */
  lemma {:induction false} ReplayAnyNumber(net: seq<Identity>, run: seq<Action>, r: Request, b: nat, i: nat,
        handler: nat,
        sig: string, n: nat)
    requires WellFormed(net) && b < |net| && r.signer < |net|
    requires r in Exec(net, run).requests && r.dest == net[b].selfId
    requires AtTheBoundary(net, Exec(net, run).nodes[b], r, i, handler)
    ensures Again(net, Exec(net, run), Exec(net, Delivered(run, b, handler, Headers(net, r, sig), n)), r, b, i, handler, n)
  {
    var s, all := Exec(net, run), run;
    NotYetAgain(net, s, r, b, i, handler);
    for k := 0 to n
      invariant all == Delivered(run, b, handler, Headers(net, r, sig), k)
      invariant Again(net, s, Exec(net, all), r, b, i, handler, k)
    {
      AgainOnceMore(net, s, all, r, b, i, handler, sig, k);
      all := all + Delivery(b, handler, Headers(net, r, sig));
    }
  }

  lemma {:induction false} NotYetAgain(net: seq<Identity>, s: State, r: Request, b: nat, i: nat, handler: nat)
    requires b < |s.nodes| && r.signer < |net| && AtTheBoundary(net, s.nodes[b], r, i, handler)
    ensures Again(net, s, s, r, b, i, handler, 0)
  {
    assert s.nodes[b].accepted + seq(0, _ => LateAcceptance(net, r, s.nodes[b])) == s.nodes[b].accepted;
  }

  lemma {:induction false} AgainOnceMore(net: seq<Identity>, s: State, before: seq<Action>, r: Request, b: nat, i: nat,
        handler: nat, sig: string, n: nat)
    requires WellFormed(net) && b < |net| == |s.nodes| && r.signer < |net| && r in s.requests && r.dest == net[b].selfId
    requires Again(net, s, Exec(net, before), r, b, i, handler, n)
    ensures Again(net, s, Exec(net, before + Delivery(b, handler, Headers(net, r, sig))), r, b, i, handler, n + 1)
  {
    ReplayOnceMore(net, before, r, b, i, handler, sig);
    AgainAndAgain(net, s, Exec(net, before), Exec(net, before + Delivery(b, handler, Headers(net, r, sig))), r, b, i, handler, n);
  }

  lemma {:induction false} ReplayOnceMore(net: seq<Identity>, run: seq<Action>, r: Request, b: nat, i: nat,
        handler: nat,
        sig: string)
    requires WellFormed(net) && b < |net| && r.signer < |net|
    requires r in Exec(net, run).requests && r.dest == net[b].selfId
    requires AtTheBoundary(net, Exec(net, run).nodes[b], r, i, handler)
    ensures Again(net, Exec(net, run), Exec(net, run + Delivery(b, handler, Headers(net, r, sig))), r, b, i, handler, 1)
  {
    var late := LateAcceptance(net, r, Exec(net, run).nodes[b]);
    assert seq(1, _ => late) == [late];
    ReplayAtTheBoundary(net, run, r, b, i, handler, sig);
    DeliveryEnds(net, run, r, b, handler, sig);
    BoundaryStays(net, Exec(net, run).nodes[b], Exec(net, run + Delivery(b, handler, Headers(net, r, sig))).nodes[b], r, i, handler);
  }

  lemma {:induction false} BoundaryStays(net: seq<Identity>, n: Node, n': Node, r: Request, i: nat, handler: nat)
    requires r.signer < |net| && AtTheBoundary(net, n, r, i, handler)
    requires n'.accepted == n.accepted + [LateAcceptance(net, r, n)]
    requires n'.handlers == n.handlers && n'.registry == n.registry && n'.clock == n.clock && n'.boot == n.boot
    ensures AtTheBoundary(net, n', r, i, handler)
  {
  }

  /** One node, one request to itself: accepted at second 0, and n more times at second 300, with no restart. */
  lemma {:induction false} ReplayHappens(n: nat)
    ensures exists net, run :: WellFormed(net) && |net| == 1
              && var accepted := Exec(net, run).nodes[0].accepted;
                 && |accepted| == n + 1 && accepted[0].at == 0
                 && forall k :: 1 <= k <= n ==> accepted[k] == accepted[0].(at := MAX_SKEW_SECS)
  {
    var net, run, r := RequestAtTheBoundary();
    ReplayAnyNumber(net, run, r, 0, 0, 0, "s", n);
    var all := Delivered(run, 0, 0, Headers(net, r, "s"), n);
    assert |Exec(net, all).nodes[0].accepted| == n + 1;
  }

  /** The request is accepted at second 0, and the clock goes on to second 300. */
  lemma {:induction false} RequestAtTheBoundary() returns (net: seq<Identity>, run: seq<Action>, r: Request)
    ensures WellFormed(net) && |net| == 1 && r.signer == 0 && r.dest == net[0].selfId
    ensures r in Exec(net, run).requests
    ensures var n := Exec(net, run).nodes[0];
            && AtTheBoundary(net, n, r, 0, 0)
            && n.accepted == [LateAcceptance(net, r, n).(at := 0)] && n.clock == MAX_SKEW_SECS
  {
    var start: seq<Action>;
    net, start, r := FirstRequest();
    GenuineRequestIsAccepted(net, start, r, 0, 0, "s");
    DeliveryEnds(net, start, r, 0, 0, "s");
    var first := start + Delivery(0, 0, Headers(net, r, "s"));
    run := first + [Advance(0, 300)];
    ExecSnoc(net, first, Advance(0, 300));
  }

  lemma {:induction false} FirstRequest() returns (net: seq<Identity>, run: seq<Action>, r: Request)
    ensures WellFormed(net) && |net| == 1
    ensures r == Request(0, 0, "n", net[0].selfId) && r in Exec(net, run).requests
    ensures var n := Exec(net, run).nodes[0];
            && n.clock == 0 && n.boot == 0 && n.handlers == map[] && n.accepted == []
            && PinnedPubkey(n.registry, net[0].selfId) == Some(net[0].key)
  {
    net, r := [Identity("a", "k")], Request(0, 0, "n", "a");
    var learn := Learn(0, [Peer("a", None, "k")]);
    run := [] + [learn] + [Sign(0, "n", "a")];
    ExecSnoc(net, [], learn);
    ExecSnoc(net, [] + [learn], Sign(0, "n", "a"));
  }

  /** After a delivery the handler is closed again, and registry, clock and requests are as before. */
  lemma {:induction false} DeliveryEnds(net: seq<Identity>, run: seq<Action>, r: Request, b: nat, handler: nat,
        sig: string)
    requires WellFormed(net) && b < |net| && r.signer < |net|
    requires r in Exec(net, run).requests && r.dest == net[b].selfId
    requires var n := Exec(net, run).nodes[b];
             && handler !in n.handlers
             && PinnedPubkey(n.registry, net[r.signer].selfId) == Some(net[r.signer].key)
             && AbsDiff(r.ts, n.clock) <= MAX_SKEW_SECS
    ensures var n, n' := Exec(net, run).nodes[b], Exec(net, run + Delivery(b, handler, Headers(net, r, sig))).nodes[b];
            n'.handlers == n.handlers && n'.registry == n.registry && n'.clock == n.clock && n'.boot == n.boot
    ensures Exec(net, run + Delivery(b, handler, Headers(net, r, sig))).requests == Exec(net, run).requests
  {
    var checked := run + [Check(b, handler, Headers(net, r, sig), Verifies)];
    var n := Exec(net, run).nodes[b];
    RunKeepsInv(net, run);
    DeliveryReachesTheCache(net, run, r, b, handler, sig);
    ExecSnoc(net, checked, Consult(b, handler));
    ConsultEnds(n, handler, Checked(Headers(net, r, sig), r.ts, net[r.signer].key));
  }

  /** The replay check closes the handler it was opened for and leaves the rest of the node alone. */
  lemma {:induction false} ConsultEnds(n: Node, handler: nat, k: Checked)
    requires handler !in n.handlers
    ensures var n' := ConsultAt(n.(handlers := n.handlers[handler := k]), handler);
            n'.handlers == n.handlers && n'.registry == n.registry && n'.clock == n.clock && n'.boot == n.boot
  {
    assert n.handlers[handler := k] - {handler} == n.handlers;
  }
}
