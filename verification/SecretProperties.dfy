/** What protecting a config promises: it can be undone, repeating it is idle, and nothing else changes. */
module SecretProperties {
  import opened Bits
  import opened Wrappers
  import opened ByteText
  import opened Model
  import opened Secrets

  // ----- one value -----

  lemma SealedOpens(store: Store, v: string)
    requires Lawful(store) && !IsProtected(v)
    requires Seal(store, v).Ok?
    ensures Seal(store, v).value.Some?
    ensures var w := Seal(store, v).value.value; IsProtected(w) && Open(store, w) == Ok(Some(v))
  {
    var blob := store.protect(BytesOf(v)).value;
    var w := ENC + Base64.EncodeStandard(blob);
    assert w[|ENC|..] == Base64.EncodeStandard(blob);
    Base64.Base64RoundTrip(blob);
    TextRoundTrip(v);
  }

  /** `g` turns whatever `f` makes of `v` back into `v`. */
  ghost predicate Undoes(f: Rewrite, g: Rewrite, v: string) {
    f(v).Ok? ==> var w := Update(v, f(v).value); g(w).Ok? && Update(w, g(w).value) == v
  }

  /** `g` leaves alone whatever `f` makes of `v`. */
  ghost predicate Settles(f: Rewrite, g: Rewrite, v: string) {
    f(v).Ok? ==> g(Update(v, f(v).value)) == Ok(None)
  }

  lemma OpeningUndoesSealing(store: Store, v: string)
    requires Lawful(store) && !IsProtected(v)
    ensures Undoes(Sealing(store), Opening(store), v) && Undoes(SealingKeys(store), Opening(store), v)
  {
    if Seal(store, v).Ok? { SealedOpens(store, v); }
  }

  lemma SealingSettles(store: Store, v: string)
    ensures Settles(Sealing(store), Sealing(store), v) && Settles(SealingKeys(store), SealingKeys(store), v)
  {
    if !IsProtected(v) && IsByteText(v) && store.protect(BytesOf(v)).Ok? {
      assert IsProtected(ENC + Base64.EncodeStandard(store.protect(BytesOf(v)).value));
    }
  }

  // ----- one parameter map -----

  lemma {:induction false} RewriteSucceeds(f: Rewrite, params: map<string, string>, keys: seq<string>,
                                           out: map<string, string>)
    requires forall k :: Touched(params, keys, k) ==> f(params[k]).Ok?
    ensures RewriteParams(f, params, keys, out).Ok?
    decreases |keys|
  {
    if keys != [] {
      var key := keys[0];
      assert key in params ==> Touched(params, keys, key);
      assert forall k :: Touched(params, keys[1..], k) ==> Touched(params, keys, k);
      RewriteSucceeds(f, params, keys[1..], if key in params
                      && f(params[key]).value.Some? then out[key := f(params[key]).value.value] else out);
    }
  }

  lemma ParamsUndone(f: Rewrite, g: Rewrite, params: map<string, string>, keys: seq<string>)
    requires RewriteParams(f, params, keys, params).Ok?
    requires forall k :: Touched(params, keys, k) ==> Undoes(f, g, params[k])
    ensures var m := RewriteParams(f, params, keys, params).value; RewriteParams(g, m, keys, m) == Ok(params)
  {
    var m := RewriteParams(f, params, keys, params).value;
    forall k ensures k in m <==> k in params
             ensures Touched(params, keys, k) ==> f(params[k]).Ok? && m[k] == Update(params[k], f(params[k]).value)
             ensures k in params && k !in keys ==> m[k] == params[k] {
      RewriteLookup(f, params, keys, params, k);
    }
    forall k | Touched(m, keys, k) ensures g(m[k]).Ok? {
      assert Touched(params, keys, k);
    }
    RewriteSucceeds(g, m, keys, m);
    var back := RewriteParams(g, m, keys, m).value;
    forall k ensures (k in back <==> k in params) && (k in params ==> back[k] == params[k]) {
      RewriteLookup(g, m, keys, m, k);
      assert Touched(m, keys, k) ==> Touched(params, keys, k);
    }
    assert back == params;
  }

  lemma ParamsSettled(f: Rewrite, g: Rewrite, params: map<string, string>, keys: seq<string>)
    requires RewriteParams(f, params, keys, params).Ok?
    requires forall k :: Touched(params, keys, k) ==> Settles(f, g, params[k])
    ensures var m := RewriteParams(f, params, keys, params).value; RewriteParams(g, m, keys, m) == Ok(m)
  {
    var m := RewriteParams(f, params, keys, params).value;
    forall k | Touched(m, keys, k) ensures g(m[k]) == Ok(None) {
      RewriteLookup(f, params, keys, params, k);
      assert Touched(params, keys, k);
    }
    RewriteIdle(g, m, keys);
  }

  lemma {:induction false} RewriteIdle(g: Rewrite, m: map<string, string>, keys: seq<string>)
    requires forall k :: Touched(m, keys, k) ==> g(m[k]) == Ok(None)
    ensures RewriteParams(g, m, keys, m) == Ok(m)
    decreases |keys|
  {
    if keys != [] {
      assert keys[0] in m ==> Touched(m, keys, keys[0]);
      assert forall k :: Touched(m, keys[1..], k) ==> Touched(m, keys, k);
      RewriteIdle(g, m, keys[1..]);
    }
  }

  // ----- all servers -----

  ghost predicate SecretsUndone(f: Rewrite, g: Rewrite, servers: seq<ServerProfile>) {
    forall i, k :: 0 <= i < |servers| && Touched(servers[i].params, SECRET_KEYS, k) ==>
      Undoes(f, g, servers[i].params[k])
  }

  lemma ServerUndone(f: Rewrite, g: Rewrite, s: ServerProfile)
    requires RewriteServer(f, s).Ok?
    requires forall k :: Touched(s.params, SECRET_KEYS, k) ==> Undoes(f, g, s.params[k])
    ensures RewriteServer(g, RewriteServer(f, s).value) == Ok(s)
  {
    ParamsUndone(f, g, s.params, SECRET_KEYS);
  }

  lemma {:induction false} ServersUndone(f: Rewrite, g: Rewrite, servers: seq<ServerProfile>)
    requires RewriteServers(f, servers).Ok? && SecretsUndone(f, g, servers)
    ensures RewriteServers(g, RewriteServers(f, servers).value) == Ok(servers)
  {
    if servers != [] {
      var s, rest := servers[0], servers[1..];
      ServerUndone(f, g, s);
      assert forall i :: 0 <= i < |rest| ==> rest[i] == servers[i + 1];
      ServersUndone(f, g, rest);
      var done := [RewriteServer(f, s).value] + RewriteServers(f, rest).value;
      assert done[0] == RewriteServer(f, s).value && done[1..] == RewriteServers(f, rest).value;
      assert servers == [s] + rest;
    }
  }

  lemma {:induction false} ServersSettled(f: Rewrite, servers: seq<ServerProfile>)
    requires RewriteServers(f, servers).Ok? && forall v :: Settles(f, f, v)
    ensures var done := RewriteServers(f, servers).value; RewriteServers(f, done) == Ok(done)
  {
    if servers != [] {
      var s, rest := servers[0], servers[1..];
      ParamsSettled(f, f, s.params, SECRET_KEYS);
      ServersSettled(f, rest);
      var done := [RewriteServer(f, s).value] + RewriteServers(f, rest).value;
      assert done[0] == RewriteServer(f, s).value && done[1..] == RewriteServers(f, rest).value;
    }
  }

  // ----- the config -----

  /** No secret already looks sealed. */
  ghost predicate PlainSecrets(servers: seq<ServerProfile>, wg: Option<LocalWg>) {
    && (forall i, k :: 0 <= i < |servers| && Touched(servers[i].params, SECRET_KEYS, k) ==>
        !IsProtected(servers[i].params[k]))
    && (wg.Some? ==>
          && !IsProtected(wg.value.serverPrivate)
          && !IsProtected(wg.value.clientPrivate)
          && !IsProtected(wg.value.presharedKey))
  }

  lemma WgUndone(store: Store, wg: Option<LocalWg>)
    requires Lawful(store) && PlainSecrets([], wg)
    requires RewriteWg(SealingKeys(store), wg).Ok?
    ensures RewriteWg(Opening(store), RewriteWg(SealingKeys(store), wg).value) == Ok(wg)
  {
    if wg.Some? {
      var lw := wg.value;
      OpeningUndoesSealing(store, lw.serverPrivate);
      OpeningUndoesSealing(store, lw.clientPrivate);
      OpeningUndoesSealing(store, lw.presharedKey);
      assert lw == lw.(serverPrivate := lw.serverPrivate, clientPrivate := lw.clientPrivate,
                       presharedKey := lw.presharedKey);
    }
  }

  /** Unprotecting a protected config restores it exactly. */
  lemma UnprotectUndoesProtect(store: Store, servers: seq<ServerProfile>, wg: Option<LocalWg>)
    requires Lawful(store) && PlainSecrets(servers, wg)
    ensures var p := Protected(store, servers, wg);
            p.error.None? ==> Unprotected(store, p.servers, p.localWg) == Secured(servers, wg, None)
  {
    if Protected(store, servers, wg).error.None? {
      forall v | !IsProtected(v) ensures Undoes(Sealing(store), Opening(store), v) {
        OpeningUndoesSealing(store, v);
      }
      ServersUndone(Sealing(store), Opening(store), servers);
      WgUndone(store, wg);
    }
  }

  /** Protecting twice is protecting once. */
  lemma ProtectIsIdempotent(store: Store, servers: seq<ServerProfile>, wg: Option<LocalWg>)
    requires Protected(store, servers, wg).error.None?
    ensures var p := Protected(store, servers, wg); Protected(store, p.servers, p.localWg) == p
  {
    forall v ensures Settles(Sealing(store), Sealing(store), v) && Settles(SealingKeys(store), SealingKeys(store), v) {
      SealingSettles(store, v);
    }
    ServersSettled(Sealing(store), servers);
    WgSettled(store, wg);
  }

  lemma WgSettled(store: Store, wg: Option<LocalWg>)
    requires RewriteWg(SealingKeys(store), wg).Ok?
    ensures var w := RewriteWg(SealingKeys(store), wg).value; RewriteWg(SealingKeys(store), w) == Ok(w)
  {
    if wg.Some? {
      SealingSettles(store, wg.value.serverPrivate);
      SealingSettles(store, wg.value.clientPrivate);
      SealingSettles(store, wg.value.presharedKey);
    }
  }

  // ----- what stays -----

  /** The same server but for the values of its secret parameters. */
  ghost predicate OnlySecretsDiffer(before: ServerProfile, after: ServerProfile) {
    && after == before.(params := after.params)
    && forall k :: (k in after.params <==> k in before.params)
         && (k in before.params && !IsSecretKey(k) ==> after.params[k] == before.params[k])
  }

  lemma {:induction false} ServersKeepTheRest(f: Rewrite, servers: seq<ServerProfile>, i: nat)
    requires RewriteServers(f, servers).Ok? && i < |servers|
    ensures OnlySecretsDiffer(servers[i], RewriteServers(f, servers).value[i])
  {
    if i > 0 {
      ServersKeepTheRest(f, servers[1..], i - 1);
    } else {
      var s := servers[0];
      forall k ensures var m := RewriteServer(f, s).value.params;
                       (k in m <==> k in s.params) && (k in s.params && !IsSecretKey(k) ==> m[k] == s.params[k]) {
        SecretKeys(k);
        RewriteLookup(f, s.params, SECRET_KEYS, s.params, k);
      }
    }
  }

  /** Whatever happens, errors included, nothing but secret values changes. */
  lemma NothingElseChanges(f: Rewrite, g: Rewrite, servers: seq<ServerProfile>, wg: Option<LocalWg>)
    ensures var r := RewriteConfig(f, g, servers, wg);
            && |r.servers| == |servers|
            && (forall i :: 0 <= i < |servers| ==> OnlySecretsDiffer(servers[i], r.servers[i]))
            && (r.localWg.Some? <==> wg.Some?)
            && (wg.Some? ==> r.localWg.value == wg.value.(serverPrivate := r.localWg.value.serverPrivate,
                                                          clientPrivate := r.localWg.value.clientPrivate,
                                                          presharedKey := r.localWg.value.presharedKey))
  {
    if RewriteServers(f, servers).Ok? {
      forall i | 0 <= i < |servers| ensures OnlySecretsDiffer(servers[i], RewriteServers(f, servers).value[i]) {
        ServersKeepTheRest(f, servers, i);
      }
    }
  }

  // ----- when it succeeds -----

  lemma {:induction false} ParamsSucceedIff(f: Rewrite, params: map<string, string>, keys: seq<string>,
                                            out: map<string, string>)
    ensures RewriteParams(f, params, keys, out).Ok? <==> forall k :: Touched(params, keys, k) ==> f(params[k]).Ok?
  {
    if RewriteParams(f, params, keys, out).Ok? {
      forall k | Touched(params, keys, k) ensures f(params[k]).Ok? {
        RewriteLookup(f, params, keys, out, k);
      }
    } else if forall k :: Touched(params, keys, k) ==> f(params[k]).Ok? {
      RewriteSucceeds(f, params, keys, out);
    }
  }

  ghost predicate ServerRewritable(f: Rewrite, s: ServerProfile) {
    forall k :: IsSecretKey(k) && k in s.params ==> f(s.params[k]).Ok?
  }

  lemma ServerSucceedsIff(f: Rewrite, s: ServerProfile)
    ensures RewriteServer(f, s).Ok? <==> ServerRewritable(f, s)
  {
    ParamsSucceedIff(f, s.params, SECRET_KEYS, s.params);
    forall k ensures Touched(s.params, SECRET_KEYS, k) <==> IsSecretKey(k) && k in s.params {
      SecretKeys(k);
    }
  }

  lemma {:induction false} ServersSucceedIff(f: Rewrite, servers: seq<ServerProfile>)
    ensures RewriteServers(f, servers).Ok? <==> forall i :: 0 <= i < |servers| ==> ServerRewritable(f, servers[i])
  {
    if servers != [] {
      ServerSucceedsIff(f, servers[0]);
      ServersSucceedIff(f, servers[1..]);
      assert forall i :: 0 < i < |servers| ==> servers[i] == servers[1..][i - 1];
    }
  }

  /** Every secret of every server, and each WireGuard key, meets its condition. */
  ghost predicate EverySecret(servers: seq<ServerProfile>, wg: Option<LocalWg>, value: string -> bool,
                              key: string -> bool) {
    && (forall i, k :: 0 <= i < |servers| && IsSecretKey(k) && k in servers[i].params ==> value(servers[i].params[k]))
    && (wg.Some? ==> key(wg.value.serverPrivate) && key(wg.value.clientPrivate) && key(wg.value.presharedKey))
  }

  /** A rewrite succeeds exactly when it does on every secret there is. */
  lemma RewriteSucceedsIff(f: Rewrite, g: Rewrite, servers: seq<ServerProfile>, wg: Option<LocalWg>,
                           value: string -> bool, key: string -> bool)
    requires forall v :: (f(v).Ok? <==> value(v)) && (g(v).Ok? <==> key(v))
    ensures RewriteConfig(f, g, servers, wg).error.None? <==> EverySecret(servers, wg, value, key)
  {
    ServersSucceedIff(f, servers);
  }

  /** The value is sealed already, or the store takes its bytes. */
  predicate Sealable(store: Store, v: string) {
    "enc:" <= v || (IsByteText(v) && store.protect(BytesOf(v)).Ok?)
  }

  /** The value is plain, or Base64 behind the prefix that the store opens. */
  predicate Openable(store: Store, v: string) {
    "enc:" <= v ==>
      var blob := Base64.DecodeLoose(v[4..]);
      blob.Some? && store.unprotect(blob.value).Ok?
  }

  /** Protection succeeds exactly when every secret can be sealed, and an empty WireGuard key need not. */
  lemma ProtectSucceedsIff(store: Store, servers: seq<ServerProfile>, wg: Option<LocalWg>)
    ensures Protected(store, servers, wg).error.None? <==>
              EverySecret(servers, wg, v => Sealable(store, v), v => v == "" || Sealable(store, v))
  {
    RewriteSucceedsIff(Sealing(store), SealingKeys(store), servers, wg,
                       v => Sealable(store, v), v => v == "" || Sealable(store, v));
  }

  /** Unprotection succeeds exactly when every secret can be opened. */
  lemma UnprotectSucceedsIff(store: Store, servers: seq<ServerProfile>, wg: Option<LocalWg>)
    ensures Unprotected(store, servers, wg).error.None? <==>
              EverySecret(servers, wg, v => Openable(store, v), v => Openable(store, v))
  {
    RewriteSucceedsIff(Opening(store), Opening(store), servers, wg, v => Openable(store, v), v => Openable(store, v));
  }

  // ----- errors -----

  /** Some secret of the server is rewritten to another text. */
  predicate HoldsChange(f: Rewrite, s: ServerProfile) {
    exists j :: 0 <= j < |SECRET_KEYS| && SECRET_KEYS[j] in s.params && Changes(f, s.params[SECRET_KEYS[j]])
  }

  predicate Changes(f: Rewrite, v: string) {
    f(v).Ok? && Update(v, f(v).value) != v
  }

  ghost predicate SomeChange(f: Rewrite, servers: seq<ServerProfile>) {
    exists i :: 0 <= i < |servers| && HoldsChange(f, servers[i])
  }

  lemma SomeChangeCons(f: Rewrite, s: ServerProfile, rest: seq<ServerProfile>)
    ensures SomeChange(f, [s] + rest) <==> HoldsChange(f, s) || SomeChange(f, rest)
  {
    var all := [s] + rest;
    assert all[0] == s && forall i :: 0 <= i < |rest| ==> all[i + 1] == rest[i];
    if SomeChange(f, rest) {
      var i :| 0 <= i < |rest| && HoldsChange(f, rest[i]);
      assert HoldsChange(f, all[i + 1]);
    }
    assert forall i :: 1 <= i < |all| ==> all[i] == rest[i - 1];
  }

  lemma ServerChangesIff(f: Rewrite, s: ServerProfile)
    requires RewriteServer(f, s).Ok?
    ensures RewriteServer(f, s).value != s <==> HoldsChange(f, s)
  {
    var m := RewriteServer(f, s).value.params;
    if HoldsChange(f, s) {
      var j :| 0 <= j < |SECRET_KEYS| && SECRET_KEYS[j] in s.params && Changes(f, s.params[SECRET_KEYS[j]]);
      RewriteLookup(f, s.params, SECRET_KEYS, s.params, SECRET_KEYS[j]);
      assert m[SECRET_KEYS[j]] != s.params[SECRET_KEYS[j]];
    } else {
      forall k ensures (k in m <==> k in s.params) && (k in s.params ==> m[k] == s.params[k]) {
        RewriteLookup(f, s.params, SECRET_KEYS, s.params, k);
        if Touched(s.params, SECRET_KEYS, k) {
          var j :| 0 <= j < |SECRET_KEYS| && SECRET_KEYS[j] == k;
          assert !Changes(f, s.params[SECRET_KEYS[j]]);
        }
      }
      assert m == s.params;
    }
  }

  lemma {:induction false} ServersChangeIff(f: Rewrite, servers: seq<ServerProfile>)
    requires RewriteServers(f, servers).Ok?
    ensures RewriteServers(f, servers).value != servers <==> SomeChange(f, servers)
  {
    if servers != [] {
      var s, rest := servers[0], servers[1..];
      ServersChangeIff(f, rest);
      ServerChangesIff(f, s);
      SomeChangeCons(f, s, rest);
      var done := RewriteServers(f, servers).value;
      assert servers == [s] + rest;
      assert done[1..] == RewriteServers(f, rest).value && done[0] == RewriteServer(f, s).value;
    }
  }

  /**
   A failed rewrite leaves the config as it was exactly when the servers were what failed, or none
   of their secrets came out different: an error among the WireGuard keys comes after the servers
   have been rewritten.
   */
  lemma FailedRewriteIsAtomicIff(f: Rewrite, g: Rewrite, servers: seq<ServerProfile>, wg: Option<LocalWg>)
    requires RewriteConfig(f, g, servers, wg).error.Some?
    ensures var r := RewriteConfig(f, g, servers, wg);
            r.servers == servers && r.localWg == wg <==> RewriteServers(f, servers).Err? || !SomeChange(f, servers)
  {
    if RewriteServers(f, servers).Ok? {
      ServersChangeIff(f, servers);
    }
  }

  predicate HoldsPlainSecret(s: ServerProfile) {
    exists j :: 0 <= j < |SECRET_KEYS| && SECRET_KEYS[j] in s.params && !IsProtected(s.params[SECRET_KEYS[j]])
  }

  ghost predicate SomePlainSecret(servers: seq<ServerProfile>) {
    exists i :: 0 <= i < |servers| && HoldsPlainSecret(servers[i])
  }

  lemma SealingChangesPlain(store: Store, v: string)
    requires Seal(store, v).Ok?
    ensures Changes(Sealing(store), v) <==> !IsProtected(v)
  {
    if !IsProtected(v) {
      assert IsProtected(ENC + Base64.EncodeStandard(store.protect(BytesOf(v)).value));
    }
  }

  lemma {:induction false} SealedValuesOk(f: Rewrite, servers: seq<ServerProfile>, i: nat, k: string)
    requires RewriteServers(f, servers).Ok? && i < |servers| && Touched(servers[i].params, SECRET_KEYS, k)
    ensures f(servers[i].params[k]).Ok?
  {
    if i > 0 {
      SealedValuesOk(f, servers[1..], i - 1, k);
    } else {
      RewriteLookup(f, servers[0].params, SECRET_KEYS, servers[0].params, k);
    }
  }

  lemma PlainSecretIsChange(store: Store, servers: seq<ServerProfile>, i: nat)
    requires RewriteServers(Sealing(store), servers).Ok? && i < |servers|
    ensures HoldsPlainSecret(servers[i]) <==> HoldsChange(Sealing(store), servers[i])
  {
    forall j | 0 <= j < |SECRET_KEYS| && SECRET_KEYS[j] in servers[i].params
      ensures Changes(Sealing(store), servers[i].params[SECRET_KEYS[j]]) <==>
                !IsProtected(servers[i].params[SECRET_KEYS[j]])
    {
      SealedValuesOk(Sealing(store), servers, i, SECRET_KEYS[j]);
      SealingChangesPlain(store, servers[i].params[SECRET_KEYS[j]]);
    }
  }

  /** For protection: the servers were what failed, or none of them held a plain secret. */
  lemma FailedProtectIsAtomicIff(store: Store, servers: seq<ServerProfile>, wg: Option<LocalWg>)
    requires Protected(store, servers, wg).error.Some?
    ensures var r := Protected(store, servers, wg);
            r.servers == servers && r.localWg == wg
            <==> RewriteServers(Sealing(store), servers).Err? || !SomePlainSecret(servers)
  {
    FailedRewriteIsAtomicIff(Sealing(store), SealingKeys(store), servers, wg);
    if RewriteServers(Sealing(store), servers).Ok? {
      forall i | 0 <= i < |servers| ensures HoldsPlainSecret(servers[i]) <==> HoldsChange(Sealing(store), servers[i]) {
        PlainSecretIsChange(store, servers, i);
      }
    }
  }

  /** For unprotection: the servers were what failed, or none of their secrets opens to another text. */
  lemma FailedUnprotectIsAtomicIff(store: Store, servers: seq<ServerProfile>, wg: Option<LocalWg>)
    requires Unprotected(store, servers, wg).error.Some?
    ensures var r := Unprotected(store, servers, wg);
            r.servers == servers && r.localWg == wg
            <==> RewriteServers(Opening(store), servers).Err? || !SomeChange(Opening(store), servers)
  {
    FailedRewriteIsAtomicIff(Opening(store), Opening(store), servers, wg);
  }

  /** A store that refuses everything but the empty text, both ways. */
  function Refusing(): Store {
    var onlyEmpty := (x: seq<byte>) => if x == [] then Ok([]) else Err(StoreFailed(""));
    Store(onlyEmpty, onlyEmpty)
  }

  function WithPassword(password: string): ServerProfile {
    ServerProfile("n", Trojan, "a", 1, map["password" := password], [])
  }

  function WithKey(key: string): Option<LocalWg> {
    Some(LocalWg(key, "", "", "", "", 1, "", "", 0, None, ""))
  }

  lemma OneSecretIsRewritten(f: Rewrite, password: string)
    requires Changes(f, password)
    ensures RewriteServers(f, [WithPassword(password)]).Ok? && SomeChange(f, [WithPassword(password)])
  {
    var s := WithPassword(password);
    assert SECRET_KEYS[0] in s.params && Changes(f, s.params[SECRET_KEYS[0]]);
    assert HoldsChange(f, [s][0]);
    assert forall k :: Touched(s.params, SECRET_KEYS, k) ==> f(s.params[k]).Ok?;
    RewriteSucceeds(f, s.params, SECRET_KEYS, s.params);
    assert [s][1..] == [] && RewriteServers(f, []) == Ok([]);
  }

  lemma WgFails(g: Rewrite, key: string)
    requires g(key).Err?
    ensures RewriteWg(g, WithKey(key)).Err?
  {
    assert RewriteKey(g, key).Err?;
  }

  /** So the promise that an error changes nothing does not hold: one server, one key the store refuses. */
  lemma FailedProtectCanChangeServers()
    ensures var r := Protected(Refusing(), [WithPassword("")], WithKey("k"));
            r.error.Some? && r.servers != [WithPassword("")]
  {
    var f := Sealing(Refusing());
    assert BytesOf("") == [] && BytesOf("k")[0] == 'k' as int;
    SealingChangesPlain(Refusing(), "");
    OneSecretIsRewritten(f, "");
    WgFails(SealingKeys(Refusing()), "k");
    ServersChangeIff(f, [WithPassword("")]);
  }

  lemma OnlyEmptyOpens()
    ensures Open(Refusing(), "enc:") == Ok(Some("")) && Open(Refusing(), "enc:!") == Err(BadBase64)
  {
    assert "enc:"[|ENC|..] == "" && "enc:!"[|ENC|..] == "!" && TextOf([]) == "";
    assert Base64.DecodeLoose("!") == None;
  }

  /** Nor does it for unprotection: one server opens, one key does not decode. */
  lemma FailedUnprotectCanChangeServers()
    ensures var r := Unprotected(Refusing(), [WithPassword("enc:")], WithKey("enc:!"));
            r.error.Some? && r.servers != [WithPassword("enc:")]
  {
    var f := Opening(Refusing());
    OnlyEmptyOpens();
    OneSecretIsRewritten(f, "enc:");
    WgFails(f, "enc:!");
    ServersChangeIff(f, [WithPassword("enc:")]);
  }
}
