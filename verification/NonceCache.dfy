/** The replay cache: which nonces a receiver still refuses, and until which second. */
module NonceCache {
  import opened Text
  import opened SignedRequests

  const PURGE_ABOVE: nat := 4096

  type Cache = map<string, nat>

  /** One acceptance: the nonce and the timestamp it came with. */
  datatype Use = Use(nonce: string, ts: nat)

  /** Addition on `u64`, which wraps in release builds. */
  function Add64(a: nat, b: nat): nat {
    (a + b) % (U64_MAX + 1)
  }

  predicate Live(c: Cache, nonce: string, now: nat) {
    nonce in c && c[nonce] > now
  }

  function Purged(c: Cache, now: nat): Cache {
    if |c| > PURGE_ABOVE then map n | n in c && c[n] > now :: c[n] else c
  }

  /** The cache after a nonce is presented. */
  function Presented(c: Cache, nonce: string, ts: nat, now: nat): Cache {
    if Live(Purged(c, now), nonce, now) then Purged(c, now)
    else Purged(c, now)[nonce := Add64(ts, MAX_SKEW_SECS)]
  }

  /** The reference answer: the full history of acceptances holds an unexpired one for this nonce. */
  ghost predicate UsedAndUnexpired(history: seq<Use>, nonce: string, now: nat) {
    exists u :: u in history && u.nonce == nonce && u.ts + MAX_SKEW_SECS > now
  }

  /** The cache agrees with the history at every time from `now` on. */
  ghost predicate Agrees(c: Cache, history: seq<Use>, now: nat) {
    forall nonce, t: nat :: t >= now ==> (Live(c, nonce, t) <==> UsedAndUnexpired(history, nonce, t))
  }

  lemma {:induction false} PurgeKeepsAnswers(c: Cache, nonce: string, now: nat, t: nat)
    requires t >= now
    ensures Live(Purged(c, now), nonce, t) <==> Live(c, nonce, t)
  {
  }

  /** Presenting a nonce keeps the agreement, although it purges and overwrites. */
  lemma {:induction false} PresentedAgrees(c: Cache, history: seq<Use>, nonce: string, ts: nat, before: nat, now: nat)
    requires before <= now && Agrees(c, history, before)
    requires ts + MAX_SKEW_SECS <= U64_MAX
    ensures Live(Purged(c, now), nonce, now) <==> UsedAndUnexpired(history, nonce, now)
    ensures Agrees(Presented(c, nonce, ts, now),
                   if Live(c, nonce, now) then history else history + [Use(nonce, ts)], now)
  {
    PurgeKeepsAnswers(c, nonce, now, now);
    var c' := Presented(c, nonce, ts, now);
    var h' := if Live(c, nonce, now) then history else history + [Use(nonce, ts)];
    forall n, t: nat | t >= now
      ensures Live(c', n, t) <==> UsedAndUnexpired(h', n, t)
    {
      PurgeKeepsAnswers(c, n, now, t);
      assert Live(c, n, t) <==> UsedAndUnexpired(history, n, t);
      if !Live(c, nonce, now) {
        assert forall u :: u in h' <==> u in history || u == Use(nonce, ts);
        if n == nonce {
          assert Live(c, n, now) <==> UsedAndUnexpired(history, n, now);
          assert UsedAndUnexpired(h', n, t) <==> ts + MAX_SKEW_SECS > t;
        }
      }
    }
  }

  /** One call of the cache: the nonce and timestamp presented, and the clock read under the lock. */
  datatype Call = Call(nonce: string, ts: nat, now: nat)

  ghost predicate Monotone(calls: seq<Call>) {
    && (forall i :: 0 <= i < |calls| ==> calls[i].ts + MAX_SKEW_SECS <= U64_MAX)
    && (forall i, j :: 0 <= i <= j < |calls| ==> calls[i].now <= calls[j].now)
  }

  function CacheAfter(calls: seq<Call>): Cache {
    if calls == [] then map[] else
      var k := calls[|calls| - 1];
      Presented(CacheAfter(calls[..|calls| - 1]), k.nonce, k.ts, k.now)
  }

  /** Everything ever accepted, decided from the full history alone. */
  ghost function HistoryAfter(calls: seq<Call>): seq<Use> {
    if calls == [] then [] else
      var k := calls[|calls| - 1];
      var h := HistoryAfter(calls[..|calls| - 1]);
      if UsedAndUnexpired(h, k.nonce, k.now) then h else h + [Use(k.nonce, k.ts)]
  }

  /** Over every monotone run the purging, overwriting cache answers like the full history. */
  lemma {:induction false} CacheRefinesHistory(calls: seq<Call>, nonce: string, now: nat)
    requires Monotone(calls)
    requires calls != [] ==> calls[|calls| - 1].now <= now
    ensures Live(CacheAfter(calls), nonce, now) <==> UsedAndUnexpired(HistoryAfter(calls), nonce, now)
  {
    CacheAgreesAfter(calls);
  }

  lemma {:induction false} CacheAgreesAfter(calls: seq<Call>)
    requires Monotone(calls)
    ensures Agrees(CacheAfter(calls), HistoryAfter(calls), if calls == [] then 0 else calls[|calls| - 1].now)
  {
    if calls != [] {
      var k := calls[|calls| - 1];
      var front := calls[..|calls| - 1];
      CacheAgreesAfter(front);
      PresentedAgrees(CacheAfter(front), HistoryAfter(front), k.nonce, k.ts,
                      if front == [] then 0 else front[|front| - 1].now, k.now);
      PurgeKeepsAnswers(CacheAfter(front), k.nonce, k.now, k.now);
    }
  }

  /** The process-wide nonce map. */
  class SeenNonces {
    var seen: Cache

    constructor ()
      ensures seen == map[]
    {
      seen := map[];
    }

    /** Refuse a nonce that is still held; otherwise hold it for one window from its timestamp. */
    method NonceFresh(nonce: string, ts: nat, now: nat) returns (accepted: bool)
      modifies this
      ensures accepted <==> !Live(old(seen), nonce, now)
      ensures seen == Presented(old(seen), nonce, ts, now)
    {
      if |seen| > PURGE_ABOVE {
        seen := map n | n in seen && seen[n] > now :: seen[n];
      }
      PurgeKeepsAnswers(old(seen), nonce, now, now);
      if nonce in seen && seen[nonce] > now {
        return false;
      }
      seen := seen[nonce := Add64(ts, MAX_SKEW_SECS)];
      return true;
    }
  }
}
