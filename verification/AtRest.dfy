/**
 * At-rest credentials: the `v2:` framing over an ideal AEAD, the legacy XOR form, and re-keying.
 *
 * The AEAD is ideal: a ciphertext opens only under the key it was sealed with, which is modelled by a
 * table of everything sealed so far, indexed by the (never repeated) nonce. Base64 and the ciphertext bytes
 * are functions about which only the laws in `Lawful` are used.
 */
module AtRest {
  import opened Wrappers
  import opened Text

  type Bytes = seq<bv8>

  const V2_PREFIX := "v2:"
  const NONCE_LEN: nat := 12
  const TAG_LEN: nat := 16

  /** Derived from the cluster secret and the per-store purpose label; distinct pairs give distinct keys. */
  datatype Key = Key(secret: string, purpose: string)

  datatype Crypto = Crypto(encode: Bytes -> string, decode: string -> Option<Bytes>, cipher: (Key, Bytes, Bytes) -> Bytes)

  ghost predicate Lawful(c: Crypto) {
    && (forall b :: c.decode(c.encode(b)) == Some(b))
    && (forall b :: Free(':', c.encode(b)))
    && c.decode("") == Some([])
    && (forall k, n, p :: |c.cipher(k, n, p)| == |p| + TAG_LEN)
  }

  function LetterOf(b: bv8): (c: char)
    ensures c != ':'
  {
    (256 + b as int) as char
  }

  function ByteOf(c: char): bv8 {
    if 256 <= c as int < 512 then (c as int - 256) as bv8 else 0
  }

  lemma {:induction false} LettersUndone(b: bv8)
    ensures ByteOf(LetterOf(b)) == b
  {
  }

  function Letters(b: Bytes): string {
    seq(|b|, i requires 0 <= i < |b| => LetterOf(b[i]))
  }

  function BytesOf(s: string): Bytes {
    seq(|s|, i requires 0 <= i < |s| => ByteOf(s[i]))
  }

  function Zeros(n: nat): Bytes {
    seq(n, _ => 0)
  }

  lemma {:induction false} LettersRoundTrip(b: Bytes)
    ensures BytesOf(Letters(b)) == b && Free(':', Letters(b))
  {
    forall i | 0 <= i < |b| ensures ByteOf(LetterOf(b[i])) == b[i] {
      LettersUndone(b[i]);
    }
  }

  /** The laws can be met: one letter a byte encodes, and a ciphertext of zeros has the right length. */
  lemma {:induction false} SomeCryptoIsLawful()
    ensures exists c :: Lawful(c)
  {
    var c := Crypto(b => Letters(b), s => Some(BytesOf(s)), (k, n, p) => Zeros(|p| + TAG_LEN));
    forall b ensures c.decode(c.encode(b)) == Some(b) && Free(':', c.encode(b)) {
      LettersRoundTrip(b);
    }
    assert Lawful(c);
  }

  datatype Sealing = Sealing(key: Key, plain: Bytes)

  /** Everything sealed so far, by nonce. */
  type Sealings = map<Bytes, Sealing>

  predicate IsV2(stored: string) {
    V2_PREFIX <= stored
  }

  predicate FreshNonce(t: Sealings, nonce: Bytes) {
    |nonce| == NONCE_LEN && nonce !in t
  }

  function Seal(c: Crypto, key: Key, nonce: Bytes, plain: Bytes): string {
    V2_PREFIX + c.encode(nonce + c.cipher(key, nonce, plain))
  }

  function Open(c: Crypto, t: Sealings, stored: string, key: Key): Option<Bytes> {
    if !IsV2(stored) then None else
      match c.decode(stored[|V2_PREFIX|..])
      case None => None
      case Some(payload) =>
        if |payload| < NONCE_LEN + TAG_LEN then None else
          var nonce, sealed := payload[..NONCE_LEN], payload[NONCE_LEN..];
          if nonce in t && t[nonce].key == key && c.cipher(key, nonce, t[nonce].plain) == sealed
          then Some(t[nonce].plain) else None
  }

  /** A sealed value opens to its plaintext under its own key and under no other. */
  lemma {:induction false} OpenSealed(c: Crypto, t: Sealings, key: Key, nonce: Bytes, plain: Bytes, tried: Key)
    requires Lawful(c) && |nonce| == NONCE_LEN && nonce in t && t[nonce] == Sealing(key, plain)
    ensures IsV2(Seal(c, key, nonce, plain))
    ensures Open(c, t, Seal(c, key, nonce, plain), tried) == if tried == key then Some(plain) else None
  {
    var payload := nonce + c.cipher(key, nonce, plain);
    assert Seal(c, key, nonce, plain)[|V2_PREFIX|..] == c.encode(payload);
    assert payload[..NONCE_LEN] == nonce && payload[NONCE_LEN..] == c.cipher(key, nonce, plain);
  }

  /** Sealing more keeps every value that opened opening to the same plaintext. */
  lemma {:induction false} OpenStays(c: Crypto, t: Sealings, more: Sealings, stored: string, key: Key)
    requires forall n :: n in t ==> n in more && more[n] == t[n]
    ensures Open(c, t, stored, key).Some? ==> Open(c, more, stored, key) == Open(c, t, stored, key)
  {
  }

  // ---------------------------------------------------------------- the legacy form

  function Xor(key: Bytes, b: Bytes): (r: Bytes)
    requires key != []
    ensures |r| == |b|
    ensures forall i :: 0 <= i < |b| ==> r[i] == b[i] ^ key[i % |key|]
  {
    seq(|b|, i requires 0 <= i < |b| => b[i] ^ key[i % |key|])
  }

  function EncodeLegacy(c: Crypto, key: Bytes, plain: Bytes): string
    requires key != []
  {
    c.encode(Xor(key, plain))
  }

  function DecodeLegacy(c: Crypto, key: Bytes, stored: string): Bytes
    requires key != []
  {
    match c.decode(stored)
    case None => []
    case Some(raw) => Xor(key, raw)
  }

  lemma {:induction false} XorTwice(b: bv8, k: bv8)
    ensures (b ^ k) ^ k == b
  {
  }

  /** The legacy form undoes itself and is never mistaken for the sealed one. */
  lemma {:induction false} LegacyRoundTrip(c: Crypto, key: Bytes, plain: Bytes)
    requires Lawful(c) && key != []
    ensures DecodeLegacy(c, key, EncodeLegacy(c, key, plain)) == plain
    ensures !IsV2(EncodeLegacy(c, key, plain))
  {
    forall i | 0 <= i < |plain| ensures Xor(key, Xor(key, plain))[i] == plain[i] {
      XorTwice(plain[i], key[i % |key|]);
    }
    assert V2_PREFIX[2] == ':';
    assert Free(':', EncodeLegacy(c, key, plain));
  }

  // ---------------------------------------------------------------- re-keying

  /**
   * One stored field: its store's purpose label, the legacy XOR key its store falls back to (if any), and
   * whether its store takes part in the rotation re-key and the start-up migration.
   */
  datatype Slot = Slot(purpose: string, legacy: Option<Bytes>, managed: bool)

  predicate WellFormed(slots: seq<Slot>) {
    forall i :: 0 <= i < |slots| ==>
      && (slots[i].legacy.Some? ==> slots[i].legacy.value != [])
      && (slots[i].managed ==> slots[i].legacy.Some?)
  }

  /** The fields on disk together with everything sealed so far. */
  datatype Disk = Disk(stored: seq<string>, sealings: Sealings)

  datatype Outcome = Rekeyed(stored: string, plain: Bytes) | Skipped | Untouched

  function ReencryptField(c: Crypto, t: Sealings, stored: string, purpose: string,
                          oldSecret: string, newSecret: string, nonce: Bytes): Outcome
  {
    if stored == "" || !IsV2(stored) then Untouched else
      match Open(c, t, stored, Key(oldSecret, purpose))
      case None => Skipped
      case Some(plain) => Rekeyed(Seal(c, Key(newSecret, purpose), nonce, plain), plain)
  }

  /** The nonces a pass draws: one a field, all fresh and different. */
  ghost predicate FreshNonces(t: Sealings, nonces: seq<Bytes>) {
    && (forall i :: 0 <= i < |nonces| ==> FreshNonce(t, nonces[i]))
    && (forall i, j :: 0 <= i < j < |nonces| ==> nonces[i] != nonces[j])
  }

  function RekeyedField(c: Crypto, slots: seq<Slot>, d: Disk, i: nat, oldSecret: string, newSecret: string,
        nonce: Bytes): (r: Disk)
    requires i < |slots| == |d.stored|
    ensures |r.stored| == |d.stored|
  {
    if !slots[i].managed then d else
      match ReencryptField(c, d.sealings, d.stored[i], slots[i].purpose, oldSecret, newSecret, nonce)
      case Rekeyed(v, plain) =>
        Disk(d.stored[i := v], d.sealings[nonce := Sealing(Key(newSecret, slots[i].purpose), plain)])
      case _ => d
  }

  /** The disk after re-keying the first `n` fields. */
  function RekeyedUpTo(c: Crypto, slots: seq<Slot>, d: Disk, oldSecret: string, newSecret: string,
                       nonces: seq<Bytes>, n: nat): (r: Disk)
    requires n <= |slots| == |d.stored| == |nonces|
    ensures |r.stored| == |d.stored|
  {
    if n == 0 then d else
      RekeyedField(c, slots, RekeyedUpTo(c, slots, d, oldSecret, newSecret, nonces, n - 1), n - 1,
                   oldSecret, newSecret, nonces[n - 1])
  }

  /** What a field opens to under a secret. */
  function Opens(c: Crypto, slots: seq<Slot>, d: Disk, i: nat, secret: string): Option<Bytes>
    requires i < |slots| == |d.stored|
  {
    Open(c, d.sealings, d.stored[i], Key(secret, slots[i].purpose))
  }

  /** The first `n` fields re-keyed loss-free: what opened under the old secret now opens under the new one. */
  ghost predicate LossFree(c: Crypto, slots: seq<Slot>, d: Disk, d': Disk, oldSecret: string, newSecret: string, n: nat)
    requires n <= |slots| == |d.stored| == |d'.stored|
  {
    && (forall i :: 0 <= i < |slots| && i < n && slots[i].managed && Opens(c, slots, d, i, oldSecret).Some? ==>
          Opens(c, slots, d', i, newSecret) == Opens(c, slots, d, i, oldSecret)
          && Opens(c, slots, d', i, oldSecret) == None)
    && (forall i :: 0 <= i < |slots| && !(i < n && slots[i].managed && Opens(c, slots, d, i, oldSecret).Some?) ==>
          d'.stored[i] == d.stored[i])
  }

  /** A pass only adds sealings, and only under the new secret, with nonces it drew. */
  ghost predicate Adds(t: Sealings, t': Sealings, newSecret: string, nonces: seq<Bytes>, n: nat)
    requires n <= |nonces|
  {
    && (forall k :: k in t ==> k in t' && t'[k] == t[k])
    && (forall k :: k in t' && k !in t ==> t'[k].key.secret == newSecret && k in nonces[..n])
  }

  /** Sealings added under another secret do not change what a field opens to under this one. */
  lemma {:induction false} OpenUnderOldUnchanged(c: Crypto, t: Sealings, t': Sealings, newSecret: string,
        nonces: seq<Bytes>, n: nat,
                              stored: string, key: Key)
    requires n <= |nonces| && Adds(t, t', newSecret, nonces, n) && key.secret != newSecret
    ensures Open(c, t', stored, key) == Open(c, t, stored, key)
  {
  }

  lemma {:induction false} RekeyedFieldEffect(c: Crypto, slots: seq<Slot>, d: Disk, i: nat, oldSecret: string,
        newSecret: string, nonce: Bytes)
    requires Lawful(c) && i < |slots| == |d.stored| && oldSecret != newSecret && FreshNonce(d.sealings, nonce)
    ensures var d' := RekeyedField(c, slots, d, i, oldSecret, newSecret, nonce);
            && Adds(d.sealings, d'.sealings, newSecret, [nonce], 1)
            && (forall j :: 0 <= j < |slots| && j != i ==> d'.stored[j] == d.stored[j])
            && (if slots[i].managed && Opens(c, slots, d, i, oldSecret).Some?
                then Opens(c, slots, d', i, newSecret) == Opens(c, slots, d, i, oldSecret)
                     && Opens(c, slots, d', i, oldSecret) == None
                else d' == d)
  {
    assert [nonce][..1] == [nonce];
    if slots[i].managed && Opens(c, slots, d, i, oldSecret).Some? {
      var d' := RekeyedField(c, slots, d, i, oldSecret, newSecret, nonce);
      var plain := Opens(c, slots, d, i, oldSecret).value;
      var key := Key(newSecret, slots[i].purpose);
      OpenSealed(c, d'.sealings, key, nonce, plain, key);
      OpenSealed(c, d'.sealings, key, nonce, plain, Key(oldSecret, slots[i].purpose));
    }
  }

  /** Stopping after any prefix of fields loses nothing. */
  lemma {:induction false} RekeyIsLossFree(c: Crypto, slots: seq<Slot>, d: Disk, oldSecret: string, newSecret: string,
                                           nonces: seq<Bytes>, n: nat)
    requires Lawful(c) && n <= |slots| == |d.stored| == |nonces| && oldSecret != newSecret
    requires FreshNonces(d.sealings, nonces)
    ensures var d' := RekeyedUpTo(c, slots, d, oldSecret, newSecret, nonces, n);
            LossFree(c, slots, d, d', oldSecret, newSecret, n) && Adds(d.sealings, d'.sealings, newSecret, nonces, n)
  {
    if n > 0 {
      RekeyIsLossFree(c, slots, d, oldSecret, newSecret, nonces, n - 1);
      var e := RekeyedUpTo(c, slots, d, oldSecret, newSecret, nonces, n - 1);
      var d' := RekeyedUpTo(c, slots, d, oldSecret, newSecret, nonces, n);
      var i := n - 1;
      assert nonces[..n] == nonces[..i] + [nonces[i]];
      assert nonces[i] !in e.sealings;
      OpenUnderOldUnchanged(c, d.sealings, e.sealings, newSecret, nonces, i, d.stored[i], Key(oldSecret, slots[i].purpose));
      RekeyedFieldEffect(c, slots, e, i, oldSecret, newSecret, nonces[i]);
      forall j | 0 <= j < i && slots[j].managed && Opens(c, slots, d, j, oldSecret).Some?
        ensures Opens(c, slots, d', j, newSecret) == Opens(c, slots, d, j, oldSecret)
        ensures Opens(c, slots, d', j, oldSecret) == None
      {
        OpenStays(c, e.sealings, d'.sealings, e.stored[j], Key(newSecret, slots[j].purpose));
        OpenUnderOldUnchanged(c, e.sealings, d'.sealings, newSecret, [nonces[i]], 1, e.stored[j], Key(oldSecret, slots[j].purpose));
      }
    }
  }

  /**
   * Rotation is resumable: a pass stopped after any prefix and run again over every field with the same two
   * secrets ends exactly as loss-free as one that was never stopped.
   */
  lemma {:induction false} RekeyResumes(c: Crypto, slots: seq<Slot>, d: Disk, oldSecret: string, newSecret: string,
                     nonces: seq<Bytes>, stop: nat, again: seq<Bytes>)
    requires Lawful(c) && stop <= |slots| == |d.stored| == |nonces| == |again| && oldSecret != newSecret
    requires FreshNonces(d.sealings, nonces)
    requires FreshNonces(RekeyedUpTo(c, slots, d, oldSecret, newSecret, nonces, stop).sealings, again)
    ensures var stopped := RekeyedUpTo(c, slots, d, oldSecret, newSecret, nonces, stop);
            LossFree(c, slots, d, RekeyedUpTo(c, slots, stopped, oldSecret, newSecret, again, |slots|),
                     oldSecret, newSecret, |slots|)
  {
    var stopped := RekeyedUpTo(c, slots, d, oldSecret, newSecret, nonces, stop);
    var done := RekeyedUpTo(c, slots, stopped, oldSecret, newSecret, again, |slots|);
    RekeyIsLossFree(c, slots, d, oldSecret, newSecret, nonces, stop);
    RekeyIsLossFree(c, slots, stopped, oldSecret, newSecret, again, |slots|);
    forall i | 0 <= i < |slots|
      ensures slots[i].managed && Opens(c, slots, d, i, oldSecret).Some? ==>
                Opens(c, slots, done, i, newSecret) == Opens(c, slots, d, i, oldSecret)
                && Opens(c, slots, done, i, oldSecret) == None
      ensures !(slots[i].managed && Opens(c, slots, d, i, oldSecret).Some?) ==> done.stored[i] == d.stored[i]
    {
      var key := Key(oldSecret, slots[i].purpose);
      OpenUnderOldUnchanged(c, d.sealings, stopped.sealings, newSecret, nonces, stop, d.stored[i], key);
      OpenUnderOldUnchanged(c, stopped.sealings, done.sealings, newSecret, again, |slots|, stopped.stored[i], key);
      OpenStays(c, stopped.sealings, done.sealings, stopped.stored[i], Key(newSecret, slots[i].purpose));
    }
  }

  /** How many of the first `n` fields the pass can open, and so re-keys. */
  function Openable(c: Crypto, slots: seq<Slot>, d: Disk, oldSecret: string, n: nat): nat
    requires n <= |slots| == |d.stored|
  {
    if n == 0 then 0 else
      Openable(c, slots, d, oldSecret, n - 1)
      + if slots[n - 1].managed && Opens(c, slots, d, n - 1, oldSecret).Some? then 1 else 0
  }

  /** When the pass reaches a field it finds it as it was, and opens it exactly if it opened before. */
  lemma {:induction false} SameVerdict(c: Crypto, slots: seq<Slot>, d: Disk, oldSecret: string, newSecret: string,
        nonces: seq<Bytes>, i: nat)
    requires Lawful(c) && i < |slots| == |d.stored| == |nonces| && oldSecret != newSecret && FreshNonces(d.sealings, nonces)
    ensures var d' := RekeyedUpTo(c, slots, d, oldSecret, newSecret, nonces, i);
            |d'.stored| == |slots| && Opens(c, slots, d', i, oldSecret) == Opens(c, slots, d, i, oldSecret)
  {
    var d' := RekeyedUpTo(c, slots, d, oldSecret, newSecret, nonces, i);
    RekeyIsLossFree(c, slots, d, oldSecret, newSecret, nonces, i);
    OpenUnderOldUnchanged(c, d.sealings, d'.sealings, newSecret, nonces, i, d.stored[i], Key(oldSecret, slots[i].purpose));
  }

  /** What a process caches when a secret is offered: the first one offered stays. */
  function Offered(cached: Option<string>, clusterSecret: string): Option<string> {
    if cached.Some? then cached else Some(clusterSecret)
  }

  /** The secret a process caches. */
  class CachedSecret {
    var secret: Option<string>

    constructor ()
      ensures secret == None
    {
      secret := None;
    }

    method Init(clusterSecret: string)
      modifies this
      ensures secret == Offered(old(secret), clusterSecret)
    {
      if secret.None? {
        secret := Some(clusterSecret);
      }
    }
  }

  /** The credential fields as the re-key pass updates them in place. */
  class CredentialStore {
    const slots: seq<Slot>
    var stored: seq<string>
    var sealings: Sealings

    constructor (slots: seq<Slot>)
      ensures this.slots == slots && stored == seq(|slots|, _ => "") && sealings == map[]
    {
      this.slots := slots;
      stored := seq(|slots|, _ => "");
      sealings := map[];
    }

    /** Re-key every field from the old secret to the new one; returns how many were re-keyed. */
    method ReencryptAtRest(c: Crypto, oldSecret: string, newSecret: string, nonces: seq<Bytes>) returns (rekeyed: nat)
      requires |stored| == |slots| == |nonces|
      requires Lawful(c) && FreshNonces(sealings, nonces)
      modifies this
      ensures |stored| == |slots|
      ensures oldSecret == newSecret ==> rekeyed == 0 && stored == old(stored) && sealings == old(sealings)
      ensures oldSecret != newSecret ==>
                && Disk(stored, sealings)
                   == RekeyedUpTo(c, slots, Disk(old(stored), old(sealings)), oldSecret, newSecret, nonces, |slots|)
                && LossFree(c, slots, Disk(old(stored), old(sealings)), Disk(stored, sealings), oldSecret, newSecret, |slots|)
                && rekeyed == Openable(c, slots, Disk(old(stored), old(sealings)), oldSecret, |slots|)
    {
      rekeyed := 0;
      if oldSecret == newSecret {
        return;
      }
      ghost var before := Disk(stored, sealings);
      for i := 0 to |slots|
        invariant |stored| == |slots|
        invariant Disk(stored, sealings) == RekeyedUpTo(c, slots, before, oldSecret, newSecret, nonces, i)
        invariant rekeyed == Openable(c, slots, before, oldSecret, i)
      {
        SameVerdict(c, slots, before, oldSecret, newSecret, nonces, i);
        if slots[i].managed {
          var outcome := ReencryptField(c, sealings, stored[i], slots[i].purpose, oldSecret, newSecret, nonces[i]);
          match outcome {
            case Rekeyed(v, plain) =>
              stored := stored[i := v];
              sealings := sealings[nonces[i] := Sealing(Key(newSecret, slots[i].purpose), plain)];
              rekeyed := rekeyed + 1;
            case Skipped =>
            case Untouched =>
          }
        }
      }
      RekeyIsLossFree(c, slots, before, oldSecret, newSecret, nonces, |slots|);
    }
  }
}
