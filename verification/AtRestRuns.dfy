/**
 * One install over time: credentials are written and read, the cluster secret on disk is rotated, the process is
 * restarted, offers the secret on disk to its cache (once at start, or again), and migrates legacy values.
 *
 * A rotation saves the new secret first and then re-keys field after field; it may be cut short anywhere in
 * between, and anything else may happen meanwhile. A run is any sequence of these; a step that cannot happen
 * changes nothing.
 */
module AtRestRuns {
  import opened Wrappers
  import opened AtRest

  /**
   * `secret` is on disk, `cached` in the process. The re-key pass from `outgoing` has reached field `next`; no pass is
   * under way once it has reached the end. The rest is history: what each field was last given, the secret it is
   * sealed under (if it is), and the fields that passes cut short never reached and nobody has written since.
   */
  datatype State = State(
    secret: string,
    cached: Option<string>,
    outgoing: string,
    next: nat,
    disk: Disk,
    last: seq<Bytes>,
    keyed: seq<Option<string>>,
    orphans: seq<bool>)

  datatype Action =
    | Write(i: nat, plain: Bytes, nonce: Bytes)
    | SaveSecret(newSecret: string)
    | RekeyNext(nonce: Bytes)
    | CutShort
    | Restart
    | Init
    | Migrate(nonces: seq<Bytes>)

  /** Whether `encrypt` succeeds: the process has a secret, and it is still the one on disk. */
  predicate CanEncrypt(s: State) {
    s.cached == Some(s.secret)
  }

  function Written(c: Crypto, slots: seq<Slot>, s: State, i: nat, plain: Bytes, nonce: Bytes): Disk
    requires WellFormed(slots) && i < |slots| == |s.disk.stored|
  {
    if CanEncrypt(s) then
      var key := Key(s.cached.value, slots[i].purpose);
      Disk(s.disk.stored[i := Seal(c, key, nonce, plain)], s.disk.sealings[nonce := Sealing(key, plain)])
    else if slots[i].legacy.Some? then
      s.disk.(stored := s.disk.stored[i := EncodeLegacy(c, slots[i].legacy.value, plain)])
    else s.disk.(stored := s.disk.stored[i := ""])
  }

  /** The migration of one field: a legacy value that decodes to something is sealed. */
  function MigratedField(c: Crypto, slots: seq<Slot>, e: Disk, i: nat, secret: string, nonce: Bytes): (r: Disk)
    requires WellFormed(slots) && i < |slots| == |e.stored|
    ensures |r.stored| == |e.stored|
  {
    if !slots[i].managed || IsV2(e.stored[i]) then e else
      var plain := DecodeLegacy(c, slots[i].legacy.value, e.stored[i]);
      if plain == [] then e else
        var key := Key(secret, slots[i].purpose);
        Disk(e.stored[i := Seal(c, key, nonce, plain)], e.sealings[nonce := Sealing(key, plain)])
  }

  /** The migration, at start-up or on request, of the first `n` fields. */
  function MigratedUpTo(c: Crypto, slots: seq<Slot>, d: Disk, secret: string, nonces: seq<Bytes>, n: nat): (r: Disk)
    requires WellFormed(slots) && n <= |slots| == |d.stored| == |nonces|
    ensures |r.stored| == |d.stored|
  {
    if n == 0 then d else
      MigratedField(c, slots, MigratedUpTo(c, slots, d, secret, nonces, n - 1), n - 1, secret, nonces[n - 1])
  }

  /** What history then says of the first `n` fields: those in the legacy form that hold something are sealed. */
  function KeyedByMigration(slots: seq<Slot>, keyed: seq<Option<string>>, last: seq<Bytes>, secret: string, n: nat):
        (r: seq<Option<string>>)
    requires n <= |slots| == |keyed| == |last|
    ensures |r| == |keyed|
  {
    if n == 0 then keyed else
      KeyedField(slots, KeyedByMigration(slots, keyed, last, secret, n - 1), last, secret, n - 1)
  }

  function KeyedField(slots: seq<Slot>, keyed: seq<Option<string>>, last: seq<Bytes>, secret: string, i: nat):
        (r: seq<Option<string>>)
    requires i < |slots| == |keyed| == |last|
    ensures |r| == |keyed|
  {
    if slots[i].managed && keyed[i].None? && last[i] != [] then keyed[i := Some(secret)] else keyed
  }

  /** `decrypt_or_legacy` with the store's own legacy decoder. */
  function Read(c: Crypto, slots: seq<Slot>, s: State, i: nat): Bytes
    requires WellFormed(slots) && i < |slots| == |s.disk.stored|
  {
    if IsV2(s.disk.stored[i]) then
      if s.cached.None? then [] else
        match Open(c, s.disk.sealings, s.disk.stored[i], Key(s.cached.value, slots[i].purpose))
        case Some(plain) => plain
        case None => []
    else if slots[i].legacy.Some? then DecodeLegacy(c, slots[i].legacy.value, s.disk.stored[i])
    else []
  }

  ghost predicate Shaped(slots: seq<Slot>, s: State) {
    |s.disk.stored| == |s.last| == |s.keyed| == |s.orphans| == |slots| && s.next <= |slots|
  }

  function Start(slots: seq<Slot>, secret: string): State {
    State(secret, None, secret, |slots|, Disk(seq(|slots|, _ => ""), map[]),
          seq(|slots|, _ => []), seq(|slots|, _ => None), seq(|slots|, _ => false))
  }

  /** The migration as a step of the process, under the secret it caches. */
  function Migrated(c: Crypto, slots: seq<Slot>, s: State, nonces: seq<Bytes>): State
    requires WellFormed(slots) && |s.disk.stored| == |s.last| == |s.keyed| == |slots| == |nonces|
  {
    s.(disk := MigratedUpTo(c, slots, s.disk, s.secret, nonces, |slots|),
       keyed := KeyedByMigration(slots, s.keyed, s.last, s.secret, |slots|))
  }

  ghost function Step(c: Crypto, slots: seq<Slot>, s: State, action: Action): (r: State)
    requires WellFormed(slots) && Shaped(slots, s)
    ensures Shaped(slots, r)
  {
    match action
    case Write(i, plain, nonce) =>
      if i < |slots| && FreshNonce(s.disk.sealings, nonce) then
        s.(disk := Written(c, slots, s, i, plain, nonce), last := s.last[i := plain],
           keyed := s.keyed[i := if CanEncrypt(s) then Some(s.secret) else None], orphans := s.orphans[i := false])
      else s
    case SaveSecret(newSecret) =>
      if s.next == |slots| && newSecret != s.secret then s.(secret := newSecret, outgoing := s.secret, next := 0) else s
    case RekeyNext(nonce) =>
      if s.next < |slots| && FreshNonce(s.disk.sealings, nonce) then
        var i := s.next;
        s.(disk := RekeyedField(c, slots, s.disk, i, s.outgoing, s.secret, nonce),
           keyed := if slots[i].managed && s.keyed[i] == Some(s.outgoing) then s.keyed[i := Some(s.secret)] else s.keyed,
           next := i + 1)
      else s
    case CutShort =>
      s.(orphans := seq(|slots|, i requires 0 <= i < |slots| => s.orphans[i] || i >= s.next), next := |slots|)
    case Restart => s.(cached := None)
    case Init => s.(cached := Offered(s.cached, s.secret))
    case Migrate(nonces) =>
      if |nonces| == |slots| && FreshNonces(s.disk.sealings, nonces) && CanEncrypt(s)
      then Migrated(c, slots, s, nonces) else s
  }

  ghost function Exec(c: Crypto, slots: seq<Slot>, secret: string, run: seq<Action>): (s: State)
    requires WellFormed(slots)
    ensures Shaped(slots, s)
  {
    if run == [] then Start(slots, secret)
    else Step(c, slots, Exec(c, slots, secret, run[..|run| - 1]), run[|run| - 1])
  }

  lemma {:induction false} ExecSnoc(c: Crypto, slots: seq<Slot>, secret: string, run: seq<Action>, action: Action)
    requires WellFormed(slots)
    ensures Exec(c, slots, secret, run + [action]) == Step(c, slots, Exec(c, slots, secret, run), action)
  {
    assert (run + [action])[..|run|] == run;
  }

  // ---------------------------------------------------------------- what every step keeps

  /** The field holds `plain`: sealed under that one secret, or in the legacy form. */
  ghost predicate SealedUnder(c: Crypto, t: Sealings, stored: string, purpose: string, secret: string, plain: Bytes) {
    && IsV2(stored)
    && forall k :: Open(c, t, stored, k) == if k == Key(secret, purpose) then Some(plain) else None
  }

  ghost predicate LegacyHolds(c: Crypto, slot: Slot, stored: string, plain: Bytes)
    requires slot.legacy.Some? ==> slot.legacy.value != []
  {
    && !IsV2(stored)
    && slot.legacy.Some?
    && DecodeLegacy(c, slot.legacy.value, stored) == plain
  }

  /** What a field holds: sealed under the secret history names, else in the legacy form, else nothing. */
  ghost predicate Holds(c: Crypto, slot: Slot, t: Sealings, stored: string, keyed: Option<string>, plain: Bytes)
    requires slot.legacy.Some? ==> slot.legacy.value != []
  {
    match keyed
    case Some(secret) => SealedUnder(c, t, stored, slot.purpose, secret, plain)
    case None => if slot.legacy.Some? then LegacyHolds(c, slot, stored, plain) else stored == ""
  }

  ghost predicate FieldHolds(c: Crypto, slots: seq<Slot>, d: Disk, keyed: seq<Option<string>>, last: seq<Bytes>, i: nat)
    requires WellFormed(slots) && |slots| == |d.stored| == |keyed| == |last| && i < |slots|
  {
    Holds(c, slots[i], d.sealings, d.stored[i], keyed[i], last[i])
  }

  ghost predicate AllHold(c: Crypto, slots: seq<Slot>, d: Disk, keyed: seq<Option<string>>, last: seq<Bytes>)
    requires WellFormed(slots) && |slots| == |d.stored| == |keyed| == |last|
  {
    forall i :: 0 <= i < |slots| ==> FieldHolds(c, slots, d, keyed, last, i)
  }

  /** Where a managed field can be sealed: under the secret on disk, or under the old one if the pass is still to come. */
  ghost predicate InOrder(slots: seq<Slot>, s: State)
    requires Shaped(slots, s)
  {
    && (s.next < |slots| ==> s.outgoing != s.secret)
    && forall i :: 0 <= i < |slots| && slots[i].managed && !s.orphans[i] ==>
        s.keyed[i] == None || s.keyed[i] == Some(s.secret) || (i >= s.next && s.keyed[i] == Some(s.outgoing))
  }

  ghost predicate Inv(c: Crypto, slots: seq<Slot>, s: State)
    requires WellFormed(slots)
  {
    Shaped(slots, s) && AllHold(c, slots, s.disk, s.keyed, s.last) && InOrder(slots, s)
  }

  /** A field left as it was keeps what it holds when something else is sealed. */
  lemma {:induction false} SealedUnderStays(c: Crypto, t: Sealings, nonce: Bytes, sealing: Sealing,
                         stored: string, purpose: string, secret: string, plain: Bytes)
    requires FreshNonce(t, nonce) && SealedUnder(c, t, stored, purpose, secret, plain)
    ensures SealedUnder(c, t[nonce := sealing], stored, purpose, secret, plain)
  {
    var t' := t[nonce := sealing];
    var own := Key(secret, purpose);
    assert Open(c, t, stored, own) == Some(plain);
    var payload := c.decode(stored[|V2_PREFIX|..]).value;
    assert payload[..NONCE_LEN] in t;
    forall k ensures Open(c, t', stored, k) == Open(c, t, stored, k) {
    }
  }

  lemma {:induction false} SealGivesSealedUnder(c: Crypto, t: Sealings, nonce: Bytes, purpose: string, secret: string,
        plain: Bytes)
    requires Lawful(c) && |nonce| == NONCE_LEN
    ensures var key := Key(secret, purpose);
            SealedUnder(c, t[nonce := Sealing(key, plain)], Seal(c, key, nonce, plain), purpose, secret, plain)
  {
    var key := Key(secret, purpose);
    var t' := t[nonce := Sealing(key, plain)];
    forall k ensures IsV2(Seal(c, key, nonce, plain))
                     && Open(c, t', Seal(c, key, nonce, plain), k) == if k == key then Some(plain) else None
    {
      OpenSealed(c, t', key, nonce, plain, k);
    }
  }

  lemma {:induction false} HoldsStays(c: Crypto, slot: Slot, t: Sealings, nonce: Bytes, sealing: Sealing,
        stored: string, keyed: Option<string>, plain: Bytes)
    requires slot.legacy.Some? ==> slot.legacy.value != []
    requires FreshNonce(t, nonce) && Holds(c, slot, t, stored, keyed, plain)
    ensures Holds(c, slot, t[nonce := sealing], stored, keyed, plain)
  {
    if keyed.Some? {
      SealedUnderStays(c, t, nonce, sealing, stored, slot.purpose, keyed.value, plain);
    }
  }

  /** Sealing one field anew leaves every other field holding what it held. */
  lemma {:induction false} SealOneKeepsAll(c: Crypto, slots: seq<Slot>, d: Disk, keyed: seq<Option<string>>,
        last: seq<Bytes>,
        i: nat, secret: string, plain: Bytes, nonce: Bytes)
    requires Lawful(c) && WellFormed(slots) && i < |slots| == |d.stored| == |keyed| == |last|
    requires FreshNonce(d.sealings, nonce) && AllHold(c, slots, d, keyed, last)
    ensures var key := Key(secret, slots[i].purpose);
            AllHold(c, slots, Disk(d.stored[i := Seal(c, key, nonce, plain)], d.sealings[nonce := Sealing(key, plain)]),
                    keyed[i := Some(secret)], last[i := plain])
  {
    var sealing := Sealing(Key(secret, slots[i].purpose), plain);
    SealGivesSealedUnder(c, d.sealings, nonce, slots[i].purpose, secret, plain);
    forall j | 0 <= j < |slots| && j != i
      ensures Holds(c, slots[j], d.sealings[nonce := sealing], d.stored[j], keyed[j], last[j])
    {
      assert FieldHolds(c, slots, d, keyed, last, j);
      HoldsStays(c, slots[j], d.sealings, nonce, sealing, d.stored[j], keyed[j], last[j]);
    }
  }

  lemma {:induction false} WriteKeepsInv(c: Crypto, slots: seq<Slot>, s: State, i: nat, plain: Bytes, nonce: Bytes)
    requires Lawful(c) && WellFormed(slots) && Inv(c, slots, s)
    ensures Inv(c, slots, Step(c, slots, s, Write(i, plain, nonce)))
  {
    if i < |slots| && FreshNonce(s.disk.sealings, nonce) {
      if CanEncrypt(s) {
        SealOneKeepsAll(c, slots, s.disk, s.keyed, s.last, i, s.secret, plain, nonce);
      } else {
        UnsealedWriteKeepsAll(c, slots, s, i, plain, nonce);
      }
    }
  }

  /** A write that cannot be encrypted falls back to the legacy form, or to nothing, and seals nothing. */
  lemma {:induction false} UnsealedWriteKeepsAll(c: Crypto, slots: seq<Slot>, s: State, i: nat, plain: Bytes,
        nonce: Bytes)
    requires Lawful(c) && WellFormed(slots) && Inv(c, slots, s) && i < |slots| && !CanEncrypt(s)
    ensures AllHold(c, slots, Written(c, slots, s, i, plain, nonce), s.keyed[i := None], s.last[i := plain])
  {
    if slots[i].legacy.Some? {
      LegacyRoundTrip(c, slots[i].legacy.value, plain);
    }
    var d, keyed, last := Written(c, slots, s, i, plain, nonce), s.keyed[i := None], s.last[i := plain];
    forall j | 0 <= j < |slots| ensures FieldHolds(c, slots, d, keyed, last, j) {
      assert FieldHolds(c, slots, s.disk, s.keyed, s.last, j);
    }
  }

  lemma {:induction false} RekeyKeepsInv(c: Crypto, slots: seq<Slot>, s: State, nonce: Bytes)
    requires Lawful(c) && WellFormed(slots) && Inv(c, slots, s) && s.next < |slots| && FreshNonce(s.disk.sealings, nonce)
    ensures Inv(c, slots, Step(c, slots, s, RekeyNext(nonce)))
  {
    var i := s.next;
    assert FieldHolds(c, slots, s.disk, s.keyed, s.last, i);
    if slots[i].managed && s.keyed[i] == Some(s.outgoing) {
      assert Open(c, s.disk.sealings, s.disk.stored[i], Key(s.outgoing, slots[i].purpose)) == Some(s.last[i]);
      SealOneKeepsAll(c, slots, s.disk, s.keyed, s.last, i, s.secret, s.last[i], nonce);
      assert s.last[i := s.last[i]] == s.last;
    } else {
      assert RekeyedField(c, slots, s.disk, i, s.outgoing, s.secret, nonce) == s.disk;
    }
  }

  lemma {:induction false} MigrationUsesNonces(c: Crypto, slots: seq<Slot>, d: Disk, secret: string,
        nonces: seq<Bytes>, n: nat)
    requires WellFormed(slots) && n <= |slots| == |d.stored| == |nonces|
    ensures SealedWith(d.sealings, MigratedUpTo(c, slots, d, secret, nonces, n).sealings, nonces, n)
    decreases n
  {
    if n > 0 {
      MigrationUsesNonces(c, slots, d, secret, nonces, n - 1);
      assert nonces[..n] == nonces[..n - 1] + [nonces[n - 1]];
    }
  }

  lemma {:induction false} MigrateKeepsHolds(c: Crypto, slots: seq<Slot>, d: Disk, keyed: seq<Option<string>>,
        last: seq<Bytes>, secret: string, nonces: seq<Bytes>, n: nat, j: nat)
    requires Lawful(c) && WellFormed(slots) && n <= |slots| == |d.stored| == |keyed| == |last| == |nonces| && j < |slots|
    requires FreshNonces(d.sealings, nonces) && FieldHolds(c, slots, d, keyed, last, j)
    ensures FieldHolds(c, slots, MigratedUpTo(c, slots, d, secret, nonces, n),
                       KeyedByMigration(slots, keyed, last, secret, n), last, j)
    decreases n
  {
    if n > 0 {
      var e := MigratedUpTo(c, slots, d, secret, nonces, n - 1);
      MigrateKeepsHolds(c, slots, d, keyed, last, secret, nonces, n - 1, j);
      MigrationUsesNonces(c, slots, d, secret, nonces, n - 1);
      NextNonceIsFresh(d.sealings, e.sealings, nonces, n - 1);
      MigrateOneKeepsHolds(c, slots, e, KeyedByMigration(slots, keyed, last, secret, n - 1), last, secret, nonces[n - 1], n - 1, j);
    }
  }

  /** What is new among the sealings used one of the first `n` nonces. */
  ghost predicate SealedWith(t: Sealings, t': Sealings, nonces: seq<Bytes>, n: nat)
    requires n <= |nonces|
  {
    forall k :: k in t' ==> k in t || k in nonces[..n]
  }

  lemma {:induction false} NextNonceIsFresh(t: Sealings, t': Sealings, nonces: seq<Bytes>, i: nat)
    requires FreshNonces(t, nonces) && i < |nonces| && SealedWith(t, t', nonces, i)
    ensures FreshNonce(t', nonces[i])
  {
  }

  /** A migration only ever seals what was not sealed. */
  lemma {:induction false} MigrationSealsTheRest(slots: seq<Slot>, keyed: seq<Option<string>>, last: seq<Bytes>,
        secret: string, n: nat, i: nat)
    requires n <= |slots| == |keyed| == |last| && i < |slots|
    ensures var after := KeyedByMigration(slots, keyed, last, secret, n)[i];
            after == keyed[i] || (keyed[i] == None && after == Some(secret))
  {
    if n > 0 {
      MigrationSealsTheRest(slots, keyed, last, secret, n - 1, i);
    }
  }

  /** One field of a migration, as it affects any field. */
  lemma {:induction false} MigrateOneKeepsHolds(c: Crypto, slots: seq<Slot>, e: Disk, keyed: seq<Option<string>>,
        last: seq<Bytes>, secret: string, nonce: Bytes, i: nat, j: nat)
    requires Lawful(c) && WellFormed(slots) && i < |slots| == |e.stored| == |keyed| == |last| && j < |slots|
    requires FreshNonce(e.sealings, nonce) && FieldHolds(c, slots, e, keyed, last, j)
    ensures FieldHolds(c, slots, MigratedField(c, slots, e, i, secret, nonce), KeyedField(slots, keyed, last, secret, i), last, j)
  {
    if j == i {
      SealGivesSealedUnder(c, e.sealings, nonce, slots[i].purpose, secret, last[i]);
    } else if MigratedField(c, slots, e, i, secret, nonce) != e {
      var plain := DecodeLegacy(c, slots[i].legacy.value, e.stored[i]);
      HoldsStays(c, slots[j], e.sealings, nonce, Sealing(Key(secret, slots[i].purpose), plain), e.stored[j], keyed[j], last[j]);
    }
  }

  lemma {:induction false} MigratedKeepsInv(c: Crypto, slots: seq<Slot>, s: State, nonces: seq<Bytes>)
    requires Lawful(c) && WellFormed(slots) && Inv(c, slots, s) && |nonces| == |slots| && FreshNonces(s.disk.sealings, nonces)
    ensures Inv(c, slots, Migrated(c, slots, s, nonces))
  {
    forall i | 0 <= i < |slots|
      ensures var after := Migrated(c, slots, s, nonces); FieldHolds(c, slots, after.disk, after.keyed, after.last, i)
    {
      MigrateKeepsHolds(c, slots, s.disk, s.keyed, s.last, s.secret, nonces, |slots|, i);
    }
    forall i | 0 <= i < |slots|
      ensures var after := Migrated(c, slots, s, nonces).keyed[i];
              after == s.keyed[i] || (s.keyed[i] == None && after == Some(s.secret))
    {
      MigrationSealsTheRest(slots, s.keyed, s.last, s.secret, |slots|, i);
    }
  }

  lemma {:induction false} StepKeepsInv(c: Crypto, slots: seq<Slot>, s: State, action: Action)
    requires Lawful(c) && WellFormed(slots) && Inv(c, slots, s)
    ensures Inv(c, slots, Step(c, slots, s, action))
  {
    match action
    case Write(i, plain, nonce) => WriteKeepsInv(c, slots, s, i, plain, nonce);
    case RekeyNext(nonce) =>
      if s.next < |slots| && FreshNonce(s.disk.sealings, nonce) {
        RekeyKeepsInv(c, slots, s, nonce);
      }
    case Migrate(nonces) =>
      if |nonces| == |slots| && FreshNonces(s.disk.sealings, nonces) && CanEncrypt(s) {
        MigratedKeepsInv(c, slots, s, nonces);
      }
    case _ =>
  }

  lemma {:induction false} RunKeepsInv(c: Crypto, slots: seq<Slot>, secret: string, run: seq<Action>)
    requires Lawful(c) && WellFormed(slots)
    ensures Inv(c, slots, Exec(c, slots, secret, run))
  {
    if run == [] {
      forall i | 0 <= i < |slots| && slots[i].legacy.Some?
        ensures DecodeLegacy(c, slots[i].legacy.value, "") == []
      {
      }
    } else {
      RunKeepsInv(c, slots, secret, run[..|run| - 1]);
      StepKeepsInv(c, slots, Exec(c, slots, secret, run[..|run| - 1]), run[|run| - 1]);
    }
  }

  // ---------------------------------------------------------------- what the install promises

  /**
   * What every field reads as, in every run with any number of rotations, finished or cut short: what it was last
   * given if it is sealed under the secret the process caches, or is unsealed and its store has a legacy form;
   * and otherwise as empty, never as garbage and never through the XOR decoder.
   */
  lemma {:induction false} EveryFieldReads(c: Crypto, slots: seq<Slot>, secret: string, run: seq<Action>, i: nat)
    requires Lawful(c) && WellFormed(slots) && i < |slots|
    ensures var s := Exec(c, slots, secret, run);
            Read(c, slots, s, i) ==
              match s.keyed[i]
              case Some(k) => if s.cached == Some(k) then s.last[i] else []
              case None => if slots[i].legacy.Some? then s.last[i] else []
  {
    RunKeepsInv(c, slots, secret, run);
    var s := Exec(c, slots, secret, run);
    assert FieldHolds(c, slots, s.disk, s.keyed, s.last, i);
    if s.keyed[i].Some? && s.cached.Some? {
      var own := Key(s.keyed[i].value, slots[i].purpose);
      var tried := Key(s.cached.value, slots[i].purpose);
      assert Open(c, s.disk.sealings, s.disk.stored[i], tried) == if tried == own then Some(s.last[i]) else None;
    }
  }

  /**
   * In every run, a managed field that the current pass has reached and no pass cut short has left behind is,
   * if sealed, sealed under the secret now on disk, holds what was last written and opens under no other key.
   */
  lemma {:induction false} SealedUnderTheDiskSecret(c: Crypto, slots: seq<Slot>, secret: string, run: seq<Action>,
        i: nat, key: Key)
    requires Lawful(c) && WellFormed(slots) && i < |slots| && slots[i].managed
    requires var s := Exec(c, slots, secret, run); !s.orphans[i] && i < s.next && IsV2(s.disk.stored[i])
    ensures var s := Exec(c, slots, secret, run);
            Open(c, s.disk.sealings, s.disk.stored[i], key)
            == if key == Key(s.secret, slots[i].purpose) then Some(s.last[i]) else None
  {
    RunKeepsInv(c, slots, secret, run);
    var s := Exec(c, slots, secret, run);
    assert FieldHolds(c, slots, s.disk, s.keyed, s.last, i);
  }

  /** Such a field reads back as last written, except that a sealed one reads as empty until the restart. */
  lemma {:induction false} ManagedFieldReadsBack(c: Crypto, slots: seq<Slot>, secret: string, run: seq<Action>, i: nat)
    requires Lawful(c) && WellFormed(slots) && i < |slots| && slots[i].managed
    requires var s := Exec(c, slots, secret, run); !s.orphans[i] && i < s.next
    ensures var s := Exec(c, slots, secret, run);
            Read(c, slots, s, i) == if IsV2(s.disk.stored[i]) && s.cached != Some(s.secret) then [] else s.last[i]
  {
    RunKeepsInv(c, slots, secret, run);
    EveryFieldReads(c, slots, secret, run, i);
    var s := Exec(c, slots, secret, run);
    assert FieldHolds(c, slots, s.disk, s.keyed, s.last, i);
  }

  /** Whatever else happens, later offers included, a process keeps the secret it has cached until it is restarted. */
  lemma {:induction false} CachedUntilRestart(c: Crypto, slots: seq<Slot>, secret: string, run: seq<Action>, n: nat)
    requires WellFormed(slots) && n <= |run| && forall i :: n <= i < |run| ==> !run[i].Restart?
    requires Exec(c, slots, secret, run[..n]).cached.Some?
    ensures Exec(c, slots, secret, run).cached == Exec(c, slots, secret, run[..n]).cached
    decreases |run|
  {
    if n == |run| {
      assert run[..n] == run;
    } else {
      var front := run[..|run| - 1];
      assert front[..n] == run[..n];
      CachedUntilRestart(c, slots, secret, front, n);
    }
  }

  /** So the first offer after a start wins: however the disk changes and whatever is offered later, it is that secret. */
  lemma {:induction false} FirstInitWins(c: Crypto, slots: seq<Slot>, secret: string, run: seq<Action>, n: nat)
    requires WellFormed(slots) && n < |run| && run[n].Init? && forall i :: n <= i < |run| ==> !run[i].Restart?
    requires Exec(c, slots, secret, run[..n]).cached == None
    ensures Exec(c, slots, secret, run).cached == Some(Exec(c, slots, secret, run[..n]).secret)
  {
    assert run[..n + 1] == run[..n] + [run[n]];
    ExecSnoc(c, slots, secret, run[..n], run[n]);
    CachedUntilRestart(c, slots, secret, run, n + 1);
  }

  /**
   * Exactly which writes take, after any run: those made while the process can encrypt, and those into a store with
   * a legacy form. Any other credential written is lost at once.
   */
  lemma {:induction false} WriteTakesIff(c: Crypto, slots: seq<Slot>, secret: string, run: seq<Action>, i: nat,
        plain: Bytes, nonce: Bytes)
    requires Lawful(c) && WellFormed(slots) && i < |slots|
    requires FreshNonce(Exec(c, slots, secret, run).disk.sealings, nonce)
    ensures Read(c, slots, Exec(c, slots, secret, run + [Write(i, plain, nonce)]), i) == plain
            <==> CanEncrypt(Exec(c, slots, secret, run)) || slots[i].legacy.Some? || plain == []
  {
    ExecSnoc(c, slots, secret, run, Write(i, plain, nonce));
    EveryFieldReads(c, slots, secret, run + [Write(i, plain, nonce)], i);
  }

  // ---------------------------------------------------------------- a rotation cut short

  function Rekeys(nonces: seq<Bytes>): seq<Action> {
    seq(|nonces|, i requires 0 <= i < |nonces| => RekeyNext(nonces[i]))
  }

  /** A start of the process as the program does it: offer the secret on disk, then migrate. */
  function Reboot(nonces: seq<Bytes>): seq<Action> {
    [Restart] + [Init] + [Migrate(nonces)]
  }

  /** A rotation that stops before field `|nonces|`. */
  function Rotation(newSecret: string, nonces: seq<Bytes>): seq<Action> {
    [SaveSecret(newSecret)] + Rekeys(nonces) + [CutShort]
  }

  /** What the pass has done to one field, and to the table of sealings, when it has reached field `n`. */
  ghost predicate Reached(slots: seq<Slot>, s: State, s': State, nonces: seq<Bytes>, i: nat)
    requires Shaped(slots, s) && Shaped(slots, s') && i < |slots|
  {
    && s'.secret == s.secret && s'.outgoing == s.outgoing && s'.last == s.last && s'.next == |nonces|
    && s'.keyed[i] == Some(if slots[i].managed && i < |nonces| then s.secret else s.outgoing)
    && forall k :: k in s'.disk.sealings ==> k in s.disk.sealings || k in nonces
  }

  lemma {:induction false} RekeyReaches(c: Crypto, slots: seq<Slot>, s: State, s': State, nonces: seq<Bytes>,
        nonce: Bytes, i: nat)
    requires WellFormed(slots) && Shaped(slots, s) && Shaped(slots, s') && i < |slots| && |nonces| < |slots|
    requires s.outgoing != s.secret && Reached(slots, s, s', nonces, i)
    requires FreshNonce(s.disk.sealings, nonce) && nonce !in nonces
    ensures Reached(slots, s, Step(c, slots, s', RekeyNext(nonce)), nonces + [nonce], i)
  {
  }

  lemma {:induction false} RekeysReach(c: Crypto, slots: seq<Slot>, secret: string, run: seq<Action>,
        nonces: seq<Bytes>, i: nat)
    requires WellFormed(slots) && i < |slots| && |nonces| <= |slots|
    requires var s := Exec(c, slots, secret, run);
             && s.next == 0 && s.outgoing != s.secret && s.keyed[i] == Some(s.outgoing)
             && FreshNonces(s.disk.sealings, nonces)
    ensures Reached(slots, Exec(c, slots, secret, run), Exec(c, slots, secret, run + Rekeys(nonces)), nonces, i)
  {
    var s := Exec(c, slots, secret, run);
    if nonces == [] {
      assert run + Rekeys(nonces) == run;
    } else {
      var n := |nonces| - 1;
      var front, nonce := nonces[..n], nonces[n];
      var before := run + Rekeys(front);
      assert nonces == front + [nonce];
      FreshLast(s.disk.sealings, front, nonce);
      RekeysReach(c, slots, secret, run, front, i);
      RekeysSnoc(run, front, nonce);
      ExecSnoc(c, slots, secret, before, RekeyNext(nonce));
      RekeyReaches(c, slots, s, Exec(c, slots, secret, before), front, nonce, i);
    }
  }

  lemma {:induction false} FreshLast(t: Sealings, nonces: seq<Bytes>, nonce: Bytes)
    requires FreshNonces(t, nonces + [nonce])
    ensures FreshNonces(t, nonces) && FreshNonce(t, nonce) && nonce !in nonces
  {
    NoncesOfParts(t, nonces, [nonce]);
    assert [nonce][0] in [nonce];
  }

  lemma {:induction false} RekeysSnoc(run: seq<Action>, nonces: seq<Bytes>, nonce: Bytes)
    ensures run + Rekeys(nonces + [nonce]) == run + Rekeys(nonces) + [RekeyNext(nonce)]
  {
    assert Rekeys(nonces + [nonce]) == Rekeys(nonces) + [RekeyNext(nonce)];
  }

  /** Cutting the pass short changes nothing a field holds. */
  lemma {:induction false} CutKeepsReached(c: Crypto, slots: seq<Slot>, s: State, s': State, nonces: seq<Bytes>, i: nat)
    requires WellFormed(slots) && Shaped(slots, s) && Shaped(slots, s') && i < |slots| && Reached(slots, s, s', nonces, i)
    ensures var cut := Step(c, slots, s', CutShort);
            && cut.secret == s.secret && cut.last == s.last
            && cut.keyed[i] == Some(if slots[i].managed && i < |nonces| then s.secret else s.outgoing)
            && forall k :: k in cut.disk.sealings ==> k in s.disk.sealings || k in nonces
  {
  }

  lemma {:induction false} RotationReaches(c: Crypto, slots: seq<Slot>, secret: string, run: seq<Action>, i: nat,
        newSecret: string, nonces: seq<Bytes>)
    requires WellFormed(slots) && i < |slots| && |nonces| <= |slots|
    requires var s := Exec(c, slots, secret, run);
             && s.next == |slots| && newSecret != s.secret && s.keyed[i] == Some(s.secret)
             && FreshNonces(s.disk.sealings, nonces)
    ensures var s, s' := Exec(c, slots, secret, run), Exec(c, slots, secret, run + Rotation(newSecret, nonces));
            && s'.secret == newSecret && s'.last == s.last
            && s'.keyed[i] == Some(if slots[i].managed && i < |nonces| then newSecret else s.secret)
            && forall k :: k in s'.disk.sealings ==> k in s.disk.sealings || k in nonces
  {
    var saved := run + [SaveSecret(newSecret)];
    var rekeyed := saved + Rekeys(nonces);
    assert rekeyed + [CutShort] == run + Rotation(newSecret, nonces);
    ExecSnoc(c, slots, secret, run, SaveSecret(newSecret));
    RekeysReach(c, slots, secret, saved, nonces, i);
    ExecSnoc(c, slots, secret, rekeyed, CutShort);
    CutKeepsReached(c, slots, Exec(c, slots, secret, saved), Exec(c, slots, secret, rekeyed), nonces, i);
  }

  /**
   * Exactly what a rotation keeps. After any run with no pass under way, let a sealed credential be rotated and the
   * pass stopped before field `|nonces|` (or finished, when that is the last): after the restart it reads back if
   * and only if its store takes part in the pass and the pass had reached it.
   */
  lemma {:induction false} RotationKeepsExactly(c: Crypto, slots: seq<Slot>, secret: string, run: seq<Action>, i: nat,
        newSecret: string, nonces: seq<Bytes>, rebootNonces: seq<Bytes>)
    requires Lawful(c) && WellFormed(slots) && i < |slots| && |nonces| <= |slots|
    requires var s := Exec(c, slots, secret, run);
             && s.next == |slots| && newSecret != s.secret && s.last[i] != [] && s.keyed[i] == Some(s.secret)
             && FreshNonces(s.disk.sealings, nonces)
    ensures var s := Exec(c, slots, secret, run);
            var s' := Exec(c, slots, secret, run + Rotation(newSecret, nonces) + Reboot(rebootNonces));
            && s'.last == s.last
            && Read(c, slots, s', i) == if slots[i].managed && i < |nonces| then s.last[i] else []
  {
    var stopped := run + Rotation(newSecret, nonces);
    RotationReaches(c, slots, secret, run, i, newSecret, nonces);
    RebootCaches(c, slots, secret, stopped, rebootNonces, i);
    EveryFieldReads(c, slots, secret, stopped + Reboot(rebootNonces), i);
  }

  /** After a start the process caches the secret on disk, and no sealed field has changed. */
  lemma {:induction false} RebootCaches(c: Crypto, slots: seq<Slot>, secret: string, run: seq<Action>,
        nonces: seq<Bytes>, i: nat)
    requires WellFormed(slots) && i < |slots|
    ensures var s, s' := Exec(c, slots, secret, run), Exec(c, slots, secret, run + Reboot(nonces));
            && s'.cached == Some(s.secret) && s'.secret == s.secret && s'.last == s.last && s'.next == s.next
            && (s.keyed[i].Some? ==> s'.keyed[i] == s.keyed[i])
  {
    var stopped := run + [Restart];
    var started := stopped + [Init];
    assert run + Reboot(nonces) == started + [Migrate(nonces)];
    ExecSnoc(c, slots, secret, run, Restart);
    ExecSnoc(c, slots, secret, stopped, Init);
    ExecSnoc(c, slots, secret, started, Migrate(nonces));
    var s := Exec(c, slots, secret, run);
    MigrationSealsTheRest(slots, s.keyed, s.last, s.secret, |slots|, i);
  }

  lemma {:induction false} NoncesOfParts(t: Sealings, a: seq<Bytes>, b: seq<Bytes>)
    requires FreshNonces(t, a + b)
    ensures FreshNonces(t, a) && FreshNonces(t, b) && forall k :: k in b ==> k !in a
  {
    assert forall i :: 0 <= i < |a| ==> (a + b)[i] == a[i];
    assert forall i :: 0 <= i < |b| ==> (a + b)[|a| + i] == b[i];
  }

  // ---------------------------------------------------------------- such runs exist

  function Nonce(x: bv8): Bytes {
    seq(NONCE_LEN, _ => x)
  }

  lemma {:induction false} NoncesDiffer(x: bv8, y: bv8)
    requires x != y
    ensures Nonce(x) != Nonce(y)
  {
    assert Nonce(x)[0] == x && Nonce(y)[0] == y;
  }

  /** The first start of an empty install: there is nothing to migrate. */
  lemma {:induction false} FreshInstall(c: Crypto, slot: Slot)
    requires Lawful(c) && WellFormed([slot])
    ensures Exec(c, [slot], "a", Reboot([Nonce(0)])) == Start([slot], "a").(cached := Some("a"))
  {
    var slots, r1 := [slot], [] + [Restart];
    var r2 := r1 + [Init];
    ExecSnoc(c, slots, "a", [], Restart);
    ExecSnoc(c, slots, "a", r1, Init);
    ExecSnoc(c, slots, "a", r2, Migrate([Nonce(0)]));
    assert r2 + [Migrate([Nonce(0)])] == Reboot([Nonce(0)]);
    var s := Start(slots, "a").(cached := Some("a"));
    assert Exec(c, slots, "a", r2) == s;
    assert MigratedUpTo(c, slots, s.disk, "a", [Nonce(0)], 1) == s.disk;
    assert KeyedByMigration(slots, s.keyed, s.last, "a", 1) == s.keyed;
  }

  lemma {:induction false} OneWritten(c: Crypto, slot: Slot)
    requires Lawful(c) && WellFormed([slot])
    ensures var s := Exec(c, [slot], "a", Reboot([Nonce(0)]) + [Write(0, [1], Nonce(1))]);
            && s.secret == "a" && s.next == 1 && s.last == [[1]] && s.keyed == [Some("a")]
            && forall k :: k in s.disk.sealings ==> k == Nonce(1)
  {
    FreshInstall(c, slot);
    ExecSnoc(c, [slot], "a", Reboot([Nonce(0)]), Write(0, [1], Nonce(1)));
  }

  /**
   * An install with one store: a credential is written, the secret is rotated, and the process starts again. With
   * the store outside the pass, or the pass cut short at once, the credential is gone; otherwise it is kept.
   */
  lemma {:induction false} OneCredential(c: Crypto, slot: Slot, finished: bool)
    requires Lawful(c) && WellFormed([slot])
    ensures var rekeys := if finished then [Nonce(2)] else [];
            var run := Reboot([Nonce(0)]) + [Write(0, [1], Nonce(1))] + Rotation("b", rekeys) + Reboot([Nonce(3)]);
            var s := Exec(c, [slot], "a", run);
            s.last[0] == [1] && Read(c, [slot], s, 0) == if slot.managed && finished then [1] else []
  {
    var rekeys := if finished then [Nonce(2)] else [];
    NoncesDiffer(1, 2);
    OneWritten(c, slot);
    RotationKeepsExactly(c, [slot], "a", Reboot([Nonce(0)]) + [Write(0, [1], Nonce(1))], 0, "b", rekeys, [Nonce(3)]);
  }

  /** The same install, written to between a rotation and the restart: without a legacy form nothing is kept at all. */
  lemma {:induction false} OneStaleWrite(c: Crypto, slot: Slot)
    requires Lawful(c) && WellFormed([slot])
    ensures var run := Reboot([Nonce(0)]) + [SaveSecret("b")] + [Write(0, [1], Nonce(1))];
            Read(c, [slot], Exec(c, [slot], "a", run), 0) == [1] <==> slot.legacy.Some?
  {
    var saved := Reboot([Nonce(0)]) + [SaveSecret("b")];
    FreshInstall(c, slot);
    ExecSnoc(c, [slot], "a", Reboot([Nonce(0)]), SaveSecret("b"));
    WriteTakesIff(c, [slot], "a", saved, 0, [1], Nonce(1));
  }
}
