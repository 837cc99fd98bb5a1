/** The signed form of a peer request and the receiver's stateless check of it. */
module SignedRequests {
  import opened Wrappers
  import opened Text

  const MAX_SKEW_SECS: nat := 300
  const CANONICAL_PREFIX := "wolfstack-peer-v1"

  /** What a caller claims about itself in the headers of a request, all of it untrusted text. */
  datatype Parts = Parts(node: string, ts: string, nonce: string, dest: string, sig: string)

  /** What checking a signature over a message can yield. */
  datatype SigOutcome = KeyNotBase64 | SigNotBase64 | DoesNotVerify | Verifies

  datatype Refusal =
    | TimestampNotANumber
    | Skew(seconds: nat)
    | NoDestination
    | OtherDestination(dest: string)
    | BadSignature(outcome: SigOutcome)

  /** The message a node signs. */
  function Canonical(node: string, ts: nat, nonce: string, dest: string): string {
    CANONICAL_PREFIX + ['\n'] + (node + ['\n'] + (Decimal(ts) + ['\n'] + (nonce + ['\n'] + dest)))
  }

  /** Signing one request can never be read as signing another: header values carry no newline. */
  lemma {:induction false} CanonicalInjective(node1: string, ts1: nat, nonce1: string, dest1: string,
                           node2: string, ts2: nat, nonce2: string, dest2: string)
    requires Free('\n', node1) && Free('\n', nonce1)
    requires Free('\n', node2) && Free('\n', nonce2)
    requires Canonical(node1, ts1, nonce1, dest1) == Canonical(node2, ts2, nonce2, dest2)
    ensures node1 == node2 && ts1 == ts2 && nonce1 == nonce2 && dest1 == dest2
  {
    var r1, r2 := nonce1 + ['\n'] + dest1, nonce2 + ['\n'] + dest2;
    var q1, q2 := Decimal(ts1) + ['\n'] + r1, Decimal(ts2) + ['\n'] + r2;
    var p1, p2 := node1 + ['\n'] + q1, node2 + ['\n'] + q2;
    var prefix := CANONICAL_PREFIX + ['\n'];
    assert p1 == (prefix + p1)[|prefix|..] == (prefix + p2)[|prefix|..] == p2;
    JoinInjective('\n', node1, node2, q1, q2);
    DecimalHasNoNewline(ts1);
    DecimalHasNoNewline(ts2);
    JoinInjective('\n', Decimal(ts1), Decimal(ts2), r1, r2);
    JoinInjective('\n', nonce1, nonce2, dest1, dest2);
    assert DigitsValue(Decimal(ts1)) == DigitsValue(Decimal(ts2));
  }

  lemma {:induction false} DecimalHasNoNewline(n: nat)
    ensures Free('\n', Decimal(n))
  {
    assert !IsDigit('\n');
  }

  function AbsDiff(a: nat, b: nat): nat {
    if a < b then b - a else a - b
  }

  /**
   * The receiver's check, clock reading `now`. `outcome(m)` is what verifying the received signature
   * over `m` against the pinned key yields.
   */
  function VerifyParts(ourId: string, p: Parts, now: nat, outcome: string -> SigOutcome): Result<nat, Refusal> {
    match ParseU64(p.ts)
    case None => Err(TimestampNotANumber)
    case Some(ts) =>
      if AbsDiff(ts, now) > MAX_SKEW_SECS then Err(Skew(AbsDiff(ts, now)))
      else if p.dest != ourId then Err(if p.dest == [] then NoDestination else OtherDestination(p.dest))
      else
        var o := outcome(Canonical(p.node, ts, p.nonce, p.dest));
        if o.Verifies? then Ok(ts) else Err(BadSignature(o))
  }

  /**
   * A timestamp the skew check admits can be extended by the window in 64 bits: for every admitted
   * timestamp exactly when the receiver's clock is at least two windows short of the 64-bit maximum.
   */
  lemma {:induction false} ExpiryNeverOverflows(now: nat)
    ensures (forall ts: nat :: ts <= U64_MAX && AbsDiff(ts, now) <= MAX_SKEW_SECS ==> ts + MAX_SKEW_SECS <= U64_MAX)
       <==> (now + 2 * MAX_SKEW_SECS <= U64_MAX || now > U64_MAX + MAX_SKEW_SECS)
  {
    if now + 2 * MAX_SKEW_SECS > U64_MAX && now <= U64_MAX + MAX_SKEW_SECS {
      var ts: nat := if now + MAX_SKEW_SECS <= U64_MAX then now + MAX_SKEW_SECS else U64_MAX;
      assert AbsDiff(ts, now) <= MAX_SKEW_SECS && ts + MAX_SKEW_SECS > U64_MAX;
    }
  }
}
