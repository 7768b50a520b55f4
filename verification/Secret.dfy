/** Encrypting the secrets of a config in place: `crates/core/src/secret.rs`. */
module Secrets {
  import opened Bits
  import opened Wrappers
  import opened Sequences
  import opened ByteText
  import opened Model
  import Base64

  datatype SecretError = StoreFailed(text: string) | BadBase64 | NotText

  /** The operating system's store: two functions that may fail. */
  datatype Store = Store(protect: seq<byte> -> Result<seq<byte>, SecretError>,
                         unprotect: seq<byte> -> Result<seq<byte>, SecretError>)

  /** What a store promises: it opens whatever it sealed. */
  ghost predicate Lawful(store: Store) {
    forall x, blob :: store.protect(x) == Ok(blob) ==> store.unprotect(blob) == Ok(x)
  }

  const ENC := "enc:"

  const SECRET_KEYS := ["password", "username", "uuid", "private_key", "preshared_key", "auth", "obfs-password"]

  predicate IsProtected(v: string) {
    ENC <= v
  }

  /** What becomes of one value: left alone, replaced, or an error. */
  type Rewrite = string -> Result<Option<string>, SecretError>

  /** Sealing a value. Every string of the source is byte text, so `NotText` never arises there. */
  function Seal(store: Store, v: string): Result<Option<string>, SecretError> {
    if IsProtected(v) then Ok(None)
    else if !IsByteText(v) then Err(NotText)
    else
      var blob :- store.protect(BytesOf(v));
      Ok(Some(ENC + Base64.EncodeStandard(blob)))
  }

  /** The WireGuard keys are sealed the same way, but an empty one is left alone. */
  function SealKey(store: Store, v: string): Result<Option<string>, SecretError> {
    if v == "" then Ok(None) else Seal(store, v)
  }

  function Open(store: Store, v: string): Result<Option<string>, SecretError> {
    if !IsProtected(v) then Ok(None)
    else
      match Base64.DecodeLoose(v[|ENC|..])
      case None => Err(BadBase64)
      case Some(blob) =>
        var plain :- store.unprotect(blob);
        Ok(Some(TextOf(plain)))
  }

  function Sealing(store: Store): Rewrite {
    v => Seal(store, v)
  }

  function SealingKeys(store: Store): Rewrite {
    v => SealKey(store, v)
  }

  function Opening(store: Store): Rewrite {
    v => Open(store, v)
  }

  // ----- the reference: rewriting where the values are -----

  function Update(v: string, change: Option<string>): string {
    match change
    case None => v
    case Some(w) => w
  }

  /** The parameters `out` after rewriting the values that `params` has for `keys`. */
  function RewriteParams(f: Rewrite, params: map<string, string>, keys: seq<string>, out: map<string,
                         string>): Result<map<string, string>, SecretError> {
    if keys == [] then Ok(out)
    else if keys[0] !in params then RewriteParams(f, params, keys[1..], out)
    else
      var change :- f(params[keys[0]]);
      RewriteParams(f, params, keys[1..], if change.Some? then out[keys[0] := change.value] else out)
  }

  function RewriteServer(f: Rewrite, s: ServerProfile): Result<ServerProfile, SecretError> {
    var params :- RewriteParams(f, s.params, SECRET_KEYS, s.params);
    Ok(s.(params := params))
  }

  function RewriteServers(f: Rewrite, servers: seq<ServerProfile>): (r: Result<seq<ServerProfile>, SecretError>)
    ensures r.Ok? ==> |r.value| == |servers|
  {
    if servers == [] then Ok([])
    else
      var first :- RewriteServer(f, servers[0]);
      var rest :- RewriteServers(f, servers[1..]);
      Ok([first] + rest)
  }

  function RewriteKey(f: Rewrite, v: string): Result<string, SecretError> {
    var change :- f(v);
    Ok(Update(v, change))
  }

  function RewriteWg(f: Rewrite, wg: Option<LocalWg>): Result<Option<LocalWg>, SecretError> {
    match wg
    case None => Ok(None)
    case Some(lw) =>
      var server :- RewriteKey(f, lw.serverPrivate);
      var client :- RewriteKey(f, lw.clientPrivate);
      var shared :- RewriteKey(f, lw.presharedKey);
      Ok(Some(lw.(serverPrivate := server, clientPrivate := client, presharedKey := shared)))
  }

  datatype Secured = Secured(servers: seq<ServerProfile>, localWg: Option<LocalWg>, error: Option<SecretError>)

  /** Servers first, then the WireGuard keys: an error in the second phase leaves the first one done. */
  function RewriteConfig(f: Rewrite, g: Rewrite, servers: seq<ServerProfile>, wg: Option<LocalWg>): Secured {
    match RewriteServers(f, servers)
    case Err(e) => Secured(servers, wg, Some(e))
    case Ok(done) =>
      match RewriteWg(g, wg)
      case Err(e) => Secured(done, wg, Some(e))
      case Ok(keys) => Secured(done, keys, None)
  }

  function Protected(store: Store, servers: seq<ServerProfile>, wg: Option<LocalWg>): Secured {
    RewriteConfig(Sealing(store), SealingKeys(store), servers, wg)
  }

  function Unprotected(store: Store, servers: seq<ServerProfile>, wg: Option<LocalWg>): Secured {
    RewriteConfig(Opening(store), Opening(store), servers, wg)
  }

  predicate Touched(params: map<string, string>, keys: seq<string>, k: string) {
    k in keys && k in params
  }

  /** What the rewritten map holds under one key. */
  lemma {:induction false} RewriteLookup(f: Rewrite, params: map<string, string>, keys: seq<string>,
                                         out: map<string, string>, k: string)
    requires RewriteParams(f, params, keys, out).Ok?
    ensures Touched(params, keys, k) ==> f(params[k]).Ok?
    ensures var m := RewriteParams(f, params, keys, out).value;
            if Touched(params, keys, k) && f(params[k]).value.Some? then k in m && m[k] == f(params[k]).value.value
            else (k in m <==> k in out) && (k in out ==> m[k] == out[k])
    decreases |keys|
  {
    if keys != [] {
      var key := keys[0];
      var next := if key in params && f(params[key]).value.Some? then out[key := f(params[key]).value.value] else out;
      RewriteLookup(f, params, keys[1..], next, k);
    }
  }

  // ----- what has to come out -----

  /** The parameters that hold secrets. */
  predicate IsSecretKey(k: string) {
    || k == "password" || k == "username" || k == "uuid" || k == "private_key" || k == "preshared_key"
    || k == "auth" || k == "obfs-password"
  }

  /** Sealed text stays; plain text becomes the prefix and the Base64 of what the store made of its bytes. */
  predicate IsSealed(store: Store, before: string, after: string) {
    if "enc:" <= before then after == before
    else
      && IsByteText(before)
      && (match store.protect(BytesOf(before))
          case Ok(blob) => after == "enc:" + Base64.EncodeStandard(blob)
          case Err(_) => false)
  }

  predicate IsSealedKey(store: Store, before: string, after: string) {
    if before == "" then after == "" else IsSealed(store, before, after)
  }

  /** Plain text stays; sealed text becomes what the store opens the bytes behind the prefix to. */
  predicate IsOpened(store: Store, before: string, after: string) {
    if !("enc:" <= before) then after == before
    else
      match Base64.DecodeLoose(before[4..])
      case None => false
      case Some(blob) =>
        match store.unprotect(blob)
        case Ok(plain) => after == TextOf(plain)
        case Err(_) => false
  }

  /** Every secret of every server, and each WireGuard key, went through the given relation. */
  ghost predicate AllSecrets(servers: seq<ServerProfile>, wg: Option<LocalWg>,
                             servers': seq<ServerProfile>, wg': Option<LocalWg>,
                             value: (string, string) -> bool, key: (string, string) -> bool) {
    && |servers'| == |servers|
    && (forall i :: 0 <= i < |servers| ==> servers'[i].params.Keys == servers[i].params.Keys)
    && (forall i, k :: 0 <= i < |servers| && IsSecretKey(k) && k in servers[i].params ==>
          value(servers[i].params[k], servers'[i].params[k]))
    && (wg'.Some? <==> wg.Some?)
    && (wg.Some? ==>
          && key(wg.value.serverPrivate, wg'.value.serverPrivate)
          && key(wg.value.clientPrivate, wg'.value.clientPrivate)
          && key(wg.value.presharedKey, wg'.value.presharedKey))
  }

  /** No secret is left in plain text; an empty WireGuard key is none. */
  ghost predicate NoPlainSecret(servers: seq<ServerProfile>, wg: Option<LocalWg>) {
    && (forall i, k :: 0 <= i < |servers| && IsSecretKey(k) && k in servers[i].params ==>
          "enc:" <= servers[i].params[k])
    && (wg.Some? ==>
          && (wg.value.serverPrivate == "" || "enc:" <= wg.value.serverPrivate)
          && (wg.value.clientPrivate == "" || "enc:" <= wg.value.clientPrivate)
          && (wg.value.presharedKey == "" || "enc:" <= wg.value.presharedKey))
  }

  lemma SecretKeys(k: string)
    ensures k in SECRET_KEYS <==> IsSecretKey(k)
  {
    assert k in SECRET_KEYS <==> exists i :: 0 <= i < |SECRET_KEYS| && SECRET_KEYS[i] == k;
  }

  lemma {:induction false} ServerValue(f: Rewrite, servers: seq<ServerProfile>, i: nat, k: string)
    requires RewriteServers(f, servers).Ok? && i < |servers| && IsSecretKey(k) && k in servers[i].params
    ensures f(servers[i].params[k]).Ok?
    ensures var params := RewriteServers(f, servers).value[i].params;
            k in params && params[k] == Update(servers[i].params[k], f(servers[i].params[k]).value)
  {
    if i > 0 {
      ServerValue(f, servers[1..], i - 1, k);
    } else {
      SecretKeys(k);
      RewriteLookup(f, servers[0].params, SECRET_KEYS, servers[0].params, k);
    }
  }

  lemma {:induction false} ServerKeys(f: Rewrite, servers: seq<ServerProfile>, i: nat)
    requires RewriteServers(f, servers).Ok? && i < |servers|
    ensures RewriteServers(f, servers).value[i].params.Keys == servers[i].params.Keys
  {
    if i > 0 {
      ServerKeys(f, servers[1..], i - 1);
    } else {
      forall k ensures k in RewriteServers(f, servers).value[0].params <==> k in servers[0].params {
        RewriteLookup(f, servers[0].params, SECRET_KEYS, servers[0].params, k);
      }
    }
  }

  /** What a rewrite does to one value is what happens to every secret. */
  lemma EachSecret(f: Rewrite, g: Rewrite, servers: seq<ServerProfile>, wg: Option<LocalWg>,
                   value: (string, string) -> bool, key: (string, string) -> bool)
    requires forall v :: f(v).Ok? ==> value(v, Update(v, f(v).value))
    requires forall v :: g(v).Ok? ==> key(v, Update(v, g(v).value))
    ensures var r := RewriteConfig(f, g, servers, wg);
            r.error.None? ==> AllSecrets(servers, wg, r.servers, r.localWg, value, key)
  {
    if RewriteConfig(f, g, servers, wg).error.None? {
      forall i | 0 <= i < |servers|
        ensures RewriteServers(f, servers).value[i].params.Keys == servers[i].params.Keys
      {
        ServerKeys(f, servers, i);
      }
      forall i, k | 0 <= i < |servers| && IsSecretKey(k) && k in servers[i].params
        ensures var params := RewriteServers(f, servers).value[i].params;
                k in params && value(servers[i].params[k], params[k])
      {
        ServerValue(f, servers, i, k);
      }
    }
  }

  lemma SealedHidesAll(store: Store, servers: seq<ServerProfile>, wg: Option<LocalWg>,
                       servers': seq<ServerProfile>, wg': Option<LocalWg>)
    requires AllSecrets(servers, wg, servers', wg', (v, w) => IsSealed(store, v, w), (v, w) => IsSealedKey(store, v, w))
    ensures NoPlainSecret(servers', wg')
  {
    forall i, k | 0 <= i < |servers'| && IsSecretKey(k) && k in servers'[i].params
      ensures "enc:" <= servers'[i].params[k]
    {
      assert k in servers'[i].params.Keys;
      assert IsSealed(store, servers[i].params[k], servers'[i].params[k]);
    }
  }

  // ----- collecting the changes, then applying them -----

  datatype Change = Change(server: nat, key: string, value: string)

  function CollectServer(f: Rewrite, i: nat, params: map<string, string>, keys: seq<string>): (r: Result<seq<Change>,
      SecretError>)
    ensures r.Ok? ==> forall k :: 0 <= k < |r.value| ==> r.value[k].server == i
  {
    if keys == [] then Ok([])
    else if keys[0] !in params then CollectServer(f, i, params, keys[1..])
    else
      var change :- f(params[keys[0]]);
      var rest :- CollectServer(f, i, params, keys[1..]);
      Ok((if change.Some? then [Change(i, keys[0], change.value)] else []) + rest)
  }

  function CollectFrom(f: Rewrite, servers: seq<ServerProfile>, i: nat): (r: Result<seq<Change>, SecretError>)
    requires i <= |servers|
    ensures r.Ok? ==> forall k :: 0 <= k < |r.value| ==> i <= r.value[k].server < |servers|
    decreases |servers| - i
  {
    if i == |servers| then Ok([])
    else
      var first :- CollectServer(f, i, servers[i].params, SECRET_KEYS);
      var rest :- CollectFrom(f, servers, i + 1);
      Ok(first + rest)
  }

  function ApplyOne(servers: seq<ServerProfile>, c: Change): seq<ServerProfile>
    requires c.server < |servers|
  {
    var s := servers[c.server];
    servers[c.server := s.(params := s.params[c.key := c.value])]
  }

  /** `apply`. */
  function ApplyAll(servers: seq<ServerProfile>, changes: seq<Change>): (r: seq<ServerProfile>)
    requires forall k :: 0 <= k < |changes| ==> changes[k].server < |servers|
    ensures |r| == |servers|
    decreases |changes|
  {
    if changes == [] then servers else ApplyAll(ApplyOne(servers, changes[0]), changes[1..])
  }

  lemma {:induction false} ApplyConcat(servers: seq<ServerProfile>, a: seq<Change>, b: seq<Change>)
    requires forall k :: 0 <= k < |a| ==> a[k].server < |servers|
    requires forall k :: 0 <= k < |b| ==> b[k].server < |servers|
    ensures forall k :: 0 <= k < |a + b| ==> (a + b)[k].server < |servers|
    ensures ApplyAll(servers, a + b) == ApplyAll(ApplyAll(servers, a), b)
    decreases |a|
  {
    if a == [] {
      assert a + b == b;
    } else {
      ApplyConcat(ApplyOne(servers, a[0]), a[1..], b);
      assert (a + b)[1..] == a[1..] + b;
    }
  }

  lemma {:induction false} ApplyServer(f: Rewrite, servers: seq<ServerProfile>, i: nat, params: map<string, string>,
                                       keys: seq<string>)
    requires i < |servers|
    ensures match CollectServer(f, i, params, keys)
            case Err(e) => RewriteParams(f, params, keys, servers[i].params) == Err(e)
            case Ok(changes) =>
              && RewriteParams(f, params, keys, servers[i].params).Ok?
              && ApplyAll(servers, changes) ==
                   servers[i := servers[i].(params := RewriteParams(f, params, keys, servers[i].params).value)]
    decreases |keys|
  {
    if keys == [] {
      assert servers[i := servers[i].(params := servers[i].params)] == servers;
    } else if keys[0] !in params || f(params[keys[0]]).Err? || f(params[keys[0]]).value.None? {
      ApplyServer(f, servers, i, params, keys[1..]);
      var rest := CollectServer(f, i, params, keys[1..]);
      assert rest.Ok? ==> [] + rest.value == rest.value;
    } else {
      var c := Change(i, keys[0], f(params[keys[0]]).value.value);
      var next := ApplyOne(servers, c);
      ApplyServer(f, next, i, params, keys[1..]);
      var rest := CollectServer(f, i, params, keys[1..]);
      if rest.Ok? {
        assert ([c] + rest.value)[0] == c && ([c] + rest.value)[1..] == rest.value;
        var last := next[i].(params := RewriteParams(f, params, keys[1..], next[i].params).value);
        assert next[i := last] == servers[i := last];
      }
    }
  }

  /** Collecting every change first and applying them afterwards rewrites the values where they are. */
  lemma {:induction false} CollectedIsRewritten(f: Rewrite, servers: seq<ServerProfile>, i: nat,
                                                state: seq<ServerProfile>)
    requires i <= |servers| == |state| && state[i..] == servers[i..]
    ensures match CollectFrom(f, servers, i)
            case Err(e) => RewriteServers(f, servers[i..]) == Err(e)
            case Ok(changes) =>
              && RewriteServers(f, servers[i..]).Ok?
              && ApplyAll(state, changes) == state[..i] + RewriteServers(f, servers[i..]).value
    decreases |servers| - i
  {
    if i == |servers| {
      assert state[..i] + [] == state;
    } else {
      assert servers[i..][0] == servers[i] == state[i..][0] == state[i]
        && servers[i..][1..] == servers[i + 1..] == state[i + 1..];
      ApplyServer(f, state, i, servers[i].params, SECRET_KEYS);
      var first := CollectServer(f, i, servers[i].params, SECRET_KEYS);
      if first.Ok? {
        var done := RewriteServer(f, servers[i]).value;
        var next := state[i := done];
        CollectedIsRewritten(f, servers, i + 1, next);
        CollectNext(f, servers, i, state, done);
      }
    }
  }

  lemma {:induction false} CollectNext(f: Rewrite, servers: seq<ServerProfile>, i: nat, state: seq<ServerProfile>,
                                       done: ServerProfile)
    requires i < |servers| == |state|
    requires var first := CollectServer(f, i, servers[i].params, SECRET_KEYS);
             first.Ok? && ApplyAll(state, first.value) == state[i := done]
    requires CollectFrom(f, servers, i + 1).Ok? ==> RewriteServers(f, servers[i + 1..]).Ok?
    requires var rest := CollectFrom(f, servers, i + 1);
             rest.Ok? ==>
               ApplyAll(state[i := done], rest.value)
               == state[i := done][..i + 1] + RewriteServers(f, servers[i + 1..]).value
    ensures var all := CollectFrom(f, servers, i);
            all.Ok? ==> ApplyAll(state, all.value) == state[..i] + ([done] + RewriteServers(f, servers[i + 1..]).value)
  {
    var first, rest := CollectServer(f, i, servers[i].params, SECRET_KEYS), CollectFrom(f, servers, i + 1);
    if rest.Ok? {
      ApplyConcat(state, first.value, rest.value);
      UpdateThenRest(state, i, done, RewriteServers(f, servers[i + 1..]).value);
    }
  }

  // ----- the loops of the source -----

  /** The result of a collector that already holds `before`. */
  function Resume(before: seq<Change>, r: Result<seq<Change>, SecretError>): Result<seq<Change>, SecretError> {
    match r
    case Err(e) => Err(e)
    case Ok(rest) => Ok(before + rest)
  }

  lemma ResumeNil(r: Result<seq<Change>, SecretError>)
    ensures Resume([], r) == r
  {
    if r.Ok? { assert [] + r.value == r.value; }
  }

  lemma ResumeResume(a: seq<Change>, b: seq<Change>, r: Result<seq<Change>, SecretError>)
    ensures Resume(a, Resume(b, r)) == Resume(a + b, r)
  {
    if r.Ok? { assert a + (b + r.value) == (a + b) + r.value; }
  }

  method GatherServer(f: Rewrite, i: nat, params: map<string, string>) returns (r: Result<seq<Change>, SecretError>)
    ensures r == CollectServer(f, i, params, SECRET_KEYS)
  {
    var changes: seq<Change> := [];
    var k := 0;
    ResumeNil(CollectServer(f, i, params, SECRET_KEYS));
    assert SECRET_KEYS[0..] == SECRET_KEYS;
    while k < |SECRET_KEYS|
      invariant 0 <= k <= |SECRET_KEYS|
      invariant Resume(changes, CollectServer(f, i, params, SECRET_KEYS[k..])) ==
                  CollectServer(f, i, params, SECRET_KEYS)
    {
      var key := SECRET_KEYS[k];
      ghost var tail := CollectServer(f, i, params, SECRET_KEYS[k + 1..]);
      assert SECRET_KEYS[k..][0] == key && SECRET_KEYS[k..][1..] == SECRET_KEYS[k + 1..];
      if key in params {
        var change :- f(params[key]);
        ResumeNil(tail);
        if change.Some? {
          ResumeResume(changes, [Change(i, key, change.value)], tail);
          changes := changes + [Change(i, key, change.value)];
        }
      }
      k := k + 1;
    }
    assert SECRET_KEYS[k..] == [] && changes + [] == changes;
    r := Ok(changes);
  }

  method Gather(f: Rewrite, servers: seq<ServerProfile>) returns (r: Result<seq<Change>, SecretError>)
    ensures r == CollectFrom(f, servers, 0)
  {
    var changes: seq<Change> := [];
    var i := 0;
    ResumeNil(CollectFrom(f, servers, 0));
    while i < |servers|
      invariant 0 <= i <= |servers|
      invariant Resume(changes, CollectFrom(f, servers, i)) == CollectFrom(f, servers, 0)
    {
      var first :- GatherServer(f, i, servers[i].params);
      ResumeResume(changes, first, CollectFrom(f, servers, i + 1));
      changes := changes + first;
      i := i + 1;
    }
    assert changes + [] == changes;
    r := Ok(changes);
  }

  method Apply(cfg: AppConfig, changes: seq<Change>)
    requires forall k :: 0 <= k < |changes| ==> changes[k].server < |cfg.servers|
    modifies cfg`servers
    ensures cfg.servers == ApplyAll(old(cfg.servers), changes)
  {
    var k := 0;
    ghost var before := cfg.servers;
    assert changes[0..] == changes;
    while k < |changes|
      invariant 0 <= k <= |changes| && |cfg.servers| == |before|
      invariant ApplyAll(cfg.servers, changes[k..]) == ApplyAll(before, changes)
    {
      var c := changes[k];
      assert changes[k..][0] == c && changes[k..][1..] == changes[k + 1..];
      var s := cfg.servers[c.server];
      cfg.servers := cfg.servers[c.server := s.(params := s.params[c.key := c.value])];
      k := k + 1;
    }
    assert changes[k..] == [];
  }

  /** The common body of protecting and unprotecting. */
  method RewriteInPlace(cfg: AppConfig, f: Rewrite, g: Rewrite) returns (error: Option<SecretError>)
    modifies cfg`servers, cfg`localWg
    ensures Secured(cfg.servers, cfg.localWg, error) == RewriteConfig(f, g, old(cfg.servers), old(cfg.localWg))
  {
    var gathered := Gather(f, cfg.servers);
    CollectedIsRewritten(f, cfg.servers, 0, cfg.servers);
    assert cfg.servers[0..] == cfg.servers;
    if gathered.Err? { return Some(gathered.error); }
    ghost var done := RewriteServers(f, cfg.servers).value;
    assert cfg.servers[..0] + done == done;
    Apply(cfg, gathered.value);
    var keys := RewriteWg(g, cfg.localWg);
    if keys.Err? { return Some(keys.error); }
    cfg.localWg := keys.value;
    error := None;
  }

  /** `protect_config`. */
  method ProtectConfig(cfg: AppConfig, store: Store) returns (error: Option<SecretError>)
    modifies cfg`servers, cfg`localWg
    ensures Secured(cfg.servers, cfg.localWg, error) == Protected(store, old(cfg.servers), old(cfg.localWg))
    ensures error.None? ==>
              AllSecrets(old(cfg.servers), old(cfg.localWg), cfg.servers, cfg.localWg,
                         (v, w) => IsSealed(store, v, w), (v, w) => IsSealedKey(store, v, w))
    ensures error.None? ==> NoPlainSecret(cfg.servers, cfg.localWg)
  {
    ghost var before, keys := cfg.servers, cfg.localWg;
    EachSecret(Sealing(store), SealingKeys(store), cfg.servers, cfg.localWg,
               (v, w) => IsSealed(store, v, w), (v, w) => IsSealedKey(store, v, w));
    error := RewriteInPlace(cfg, Sealing(store), SealingKeys(store));
    if error.None? { SealedHidesAll(store, before, keys, cfg.servers, cfg.localWg); }
  }

  /** `unprotect_config`. */
  method UnprotectConfig(cfg: AppConfig, store: Store) returns (error: Option<SecretError>)
    modifies cfg`servers, cfg`localWg
    ensures Secured(cfg.servers, cfg.localWg, error) == Unprotected(store, old(cfg.servers), old(cfg.localWg))
    ensures error.None? ==>
              AllSecrets(old(cfg.servers), old(cfg.localWg), cfg.servers, cfg.localWg,
                         (v, w) => IsOpened(store, v, w), (v, w) => IsOpened(store, v, w))
  {
    EachSecret(Opening(store), Opening(store), cfg.servers, cfg.localWg,
               (v, w) => IsOpened(store, v, w), (v, w) => IsOpened(store, v, w));
    error := RewriteInPlace(cfg, Opening(store), Opening(store));
  }
}
