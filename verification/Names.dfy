/** Unique node names and subscription tags: `crates/cli/src/lib.rs`. */
module UniqueNames {
  import opened Sequences
  import opened Numerals
  import opened Model
  import opened Routing

  // ----- the first free numbered name -----

  /** The candidates for a stem: the stem itself, then `stem (2)`, `stem (3)`, and so on. */
  function Numbered(stem: string, n: nat): string {
    if n <= 1 then stem else stem + " (" + Decimal(n) + ")"
  }

  lemma NumberedInjective(stem: string, m: nat, n: nat)
    requires 1 <= m && 1 <= n && Numbered(stem, m) == Numbered(stem, n)
    ensures m == n
  {
    if m > 1 && n > 1 {
      var s, k := Numbered(stem, m), |stem| + 2;
      assert s[k..|s| - 1] == Decimal(m);
      assert s[k..|s| - 1] == Decimal(n);
      DecimalInjective(m, n);
    } else {
      assert |Numbered(stem, m)| == |stem|;
    }
  }

  ghost predicate AllTaken(stem: string, used: set<string>, n: nat) {
    forall j :: 1 <= j < n ==> Numbered(stem, j) in used
  }

  /** Distinct candidates that are all taken cannot outnumber the names in use. */
  lemma {:induction false} Pigeonhole(stem: string, used: set<string>, n: nat)
    requires 1 <= n && AllTaken(stem, used, n)
    ensures n - 1 <= |used|
  {
    if n > 1 {
      var last := Numbered(stem, n - 1);
      forall j | 1 <= j < n - 1 ensures Numbered(stem, j) in used - {last} {
        if Numbered(stem, j) == last { NumberedInjective(stem, j, n - 1); }
      }
      Pigeonhole(stem, used - {last}, n - 1);
    }
  }

  /** The least number from `n` on whose candidate is free; the pigeonhole makes the search end. */
  function FreeNumber(stem: string, used: set<string>, n: nat): (r: nat)
    requires 1 <= n && AllTaken(stem, used, n)
    ensures n <= r && Numbered(stem, r) !in used && AllTaken(stem, used, r)
    decreases |used| + 1 - n
  {
    if Numbered(stem, n) !in used then n
    else
      Pigeonhole(stem, used, n + 1);
      FreeNumber(stem, used, n + 1)
  }

  function FreeName(stem: string, used: set<string>): (name: string)
    ensures name !in used
  {
    Numbered(stem, FreeNumber(stem, used, 1))
  }

  /** The search does not depend on where it stands among taken candidates. */
  lemma {:induction false} FreeNumberFrom(stem: string, used: set<string>, n: nat)
    requires 1 <= n && AllTaken(stem, used, n)
    ensures FreeNumber(stem, used, n) == FreeNumber(stem, used, 1)
  {
    var a, b := FreeNumber(stem, used, n), FreeNumber(stem, used, 1);
    assert !(a < b) && !(b < a);
  }

  // ----- node names -----

  /** The stem of a renamed node: name, middle dot, endpoint. */
  function Stem(s: ServerProfile): string {
    s.name + " \U{00B7} " + s.address + ":" + Decimal(s.port)
  }

  function DistinctName(s: ServerProfile, used: set<string>): (name: string)
    ensures name !in used
    ensures name == s.name <==> s.name !in used
  {
    if s.name !in used then s.name else FreeName(Stem(s), used)
  }

  /** `ensure_distinct_node_names`, given the names already in use. */
  function DistinctServers(servers: seq<ServerProfile>, used: set<string>): (r: seq<ServerProfile>)
    ensures |r| == |servers|
  {
    if servers == [] then []
    else
      var name := DistinctName(servers[0], used);
      [servers[0].(name := name)] + DistinctServers(servers[1..], used + {name})
  }

  function NamesOf(servers: seq<ServerProfile>): set<string> {
    set i | 0 <= i < |servers| :: servers[i].name
  }

  lemma NamesOfCons(s: ServerProfile, rest: seq<ServerProfile>)
    ensures NamesOf([s] + rest) == {s.name} + NamesOf(rest)
  {
    var all := [s] + rest;
    assert all[0] == s && forall i :: 0 <= i < |rest| ==> all[i + 1] == rest[i];
    assert forall i :: 1 <= i < |all| ==> all[i] == rest[i - 1];
  }

  /** Every server keeps everything but its name, and gets the name that is free when its turn comes. */
  lemma {:induction false} EachServer(servers: seq<ServerProfile>, used: set<string>, i: nat)
    requires i < |servers|
    ensures var r := DistinctServers(servers, used);
            r[i] == servers[i].(name := DistinctName(servers[i], used + NamesOf(r[..i])))
    decreases i
  {
    var r := DistinctServers(servers, used);
    if i == 0 {
      assert used + NamesOf(r[..0]) == used;
    } else {
      var name := DistinctName(servers[0], used);
      var rest := DistinctServers(servers[1..], used + {name});
      EachServer(servers[1..], used + {name}, i - 1);
      NamesOfCons(r[0], rest[..i - 1]);
      assert r[..i] == [r[0]] + rest[..i - 1];
      assert (used + {name}) + NamesOf(rest[..i - 1]) == used + NamesOf(r[..i]);
    }
  }

  lemma NameAmong(servers: seq<ServerProfile>, name: string)
    ensures name in NamesOf(servers) <==> exists j :: 0 <= j < |servers| && servers[j].name == name
  {
  }

  /** The final names are pairwise distinct, and none was in use before. */
  lemma {:induction false} NamesAreDistinct(servers: seq<ServerProfile>, used: set<string>)
    ensures DistinctNames(DistinctServers(servers, used))
    ensures forall i :: 0 <= i < |servers| ==> DistinctServers(servers, used)[i].name !in used
  {
    var r := DistinctServers(servers, used);
    forall i | 0 <= i < |r| ensures r[i].name !in used + NamesOf(r[..i]) {
      EachServer(servers, used, i);
    }
    forall i, j | 0 <= i < j < |r| ensures r[i].name != r[j].name {
      NameAmong(r[..j], r[i].name);
      assert r[..j][i] == r[i];
    }
  }

  /** A node keeps its name exactly when no earlier final name equals it, and everything else in any case. */
  lemma KeepsNameIff(servers: seq<ServerProfile>, i: nat)
    requires i < |servers|
    ensures var r := DistinctServers(servers, {});
            && r[i] == servers[i].(name := r[i].name)
            && (r[i].name == servers[i].name <==> servers[i].name !in NamesOf(r[..i]))
  {
    EachServer(servers, {}, i);
    var earlier := NamesOf(DistinctServers(servers, {})[..i]);
    assert {} + earlier == earlier;
  }

  /** Distinct names that are free stay as they are, ... */
  lemma {:induction false} DistinctStays(servers: seq<ServerProfile>, used: set<string>)
    requires DistinctNames(servers)
    requires forall i :: 0 <= i < |servers| ==> servers[i].name !in used
    ensures DistinctServers(servers, used) == servers
  {
    if servers != [] {
      var s, rest := servers[0], servers[1..];
      assert forall i :: 0 <= i < |rest| ==> rest[i] == servers[i + 1];
      DistinctStays(rest, used + {s.name});
      assert DistinctName(s, used) == s.name && s.(name := s.name) == s;
      assert DistinctServers(servers, used) == [s] + rest;
    }
  }

  /** ... so a second run changes nothing. */
  lemma SecondRunIsIdle(servers: seq<ServerProfile>)
    ensures DistinctServers(DistinctServers(servers, {}), {}) == DistinctServers(servers, {})
  {
    NamesAreDistinct(servers, {});
    DistinctStays(DistinctServers(servers, {}), {});
  }

  /** The first node with a name, which the comment above the function says keeps it. */
  predicate FirstWithName(servers: seq<ServerProfile>, i: nat)
    requires i < |servers|
  {
    forall j :: 0 <= j < i ==> servers[j].name != servers[i].name
  }

  function Plain(name: string, address: string, port: Port): ServerProfile {
    ServerProfile(name, Trojan, address, port, map[], [])
  }

  /** It does not: an earlier duplicate may be renamed to that very name. */
  lemma FirstHolderCanLoseName()
    ensures var servers := [Plain("x", "a", 1), Plain("x", "a", 1), Plain("x \U{00B7} a:1", "b", 2)];
            && FirstWithName(servers, 2)
            && DistinctServers(servers, {})[2].name != servers[2].name
  {
    var servers := [Plain("x", "a", 1), Plain("x", "a", 1), Plain("x \U{00B7} a:1", "b", 2)];
    assert Decimal(1) == "1";
    assert Stem(servers[1]) == "x \U{00B7} a:1";
    var r := DistinctServers(servers, {});
    EachServer(servers, {}, 0);
    assert {} + NamesOf(r[..0]) == {};
    EachServer(servers, {}, 1);
    NamesOfCons(r[0], []);
    assert r[..1] == [r[0]] + [] && NamesOf([]) == {};
    var used := {} + NamesOf(r[..1]);
    assert used == {"x"};
    assert Numbered(Stem(servers[1]), 1) !in used;
    assert r[1].name == servers[2].name;
    NameAmong(r[..2], servers[2].name);
    assert r[..2][1] == r[1];
    KeepsNameIff(servers, 2);
  }

  /** The names settled for the first `j` servers, which the later ones cannot change. */
  function Settled(servers: seq<ServerProfile>, j: nat): set<string>
    requires j <= |servers|
  {
    NamesOf(DistinctServers(servers[..j], {}))
  }

  lemma {:induction false} PrefixSettles(servers: seq<ServerProfile>, used: set<string>, j: nat)
    requires j <= |servers|
    ensures DistinctServers(servers, used)[..j] == DistinctServers(servers[..j], used)
  {
    if j > 0 {
      var name := DistinctName(servers[0], used);
      PrefixSettles(servers[1..], used + {name}, j - 1);
      assert servers[..j][0] == servers[0] && servers[..j][1..] == servers[1..][..j - 1];
    }
  }

  /** Server `j` is renamed, and `name` is the first candidate that is free when its turn comes. */
  ghost predicate TakesName(servers: seq<ServerProfile>, j: nat, name: string)
    requires j < |servers|
  {
    var used, stem := Settled(servers, j), Stem(servers[j]);
    && servers[j].name in used && name !in used
    && exists k: nat :: 1 <= k && name == Numbered(stem, k) && AllTaken(stem, used, k)
  }

  lemma FreeNameIff(stem: string, used: set<string>, name: string)
    ensures FreeName(stem, used) == name <==>
              name !in used && exists k: nat :: 1 <= k && name == Numbered(stem, k) && AllTaken(stem, used, k)
  {
    var n := FreeNumber(stem, used, 1);
    if name !in used && exists k: nat :: 1 <= k && name == Numbered(stem, k) && AllTaken(stem, used, k) {
      var k: nat :| 1 <= k && name == Numbered(stem, k) && AllTaken(stem, used, k);
      assert !(k < n) && !(n < k);
    }
  }

  lemma FinalNameIff(servers: seq<ServerProfile>, j: nat, name: string)
    requires j < |servers| && servers[j].name != name
    ensures DistinctServers(servers, {})[j].name == name <==> TakesName(servers, j, name)
  {
    EachServer(servers, {}, j);
    PrefixSettles(servers, {}, j);
    assert {} + Settled(servers, j) == Settled(servers, j);
    FreeNameIff(Stem(servers[j]), Settled(servers, j), name);
  }

  /** The first node with a name keeps it exactly when no earlier node is renamed to it. */
  lemma FirstHolderKeepsNameIff(servers: seq<ServerProfile>, i: nat)
    requires i < |servers| && FirstWithName(servers, i)
    ensures DistinctServers(servers, {})[i] == servers[i] <==>
              forall j :: 0 <= j < i ==> !TakesName(servers, j, servers[i].name)
  {
    var r, name := DistinctServers(servers, {}), servers[i].name;
    KeepsNameIff(servers, i);
    NameAmong(r[..i], name);
    forall j | 0 <= j < i ensures r[..i][j].name == name <==> TakesName(servers, j, name) {
      FinalNameIff(servers, j, name);
    }
  }

  /** The `n`-th form of a renamed node: name, middle dot, address, port, and a number from the second on. */
  function EndpointName(s: ServerProfile, n: nat): string {
    s.name + " \U{00B7} " + s.address + ":" + Decimal(s.port) + (if n == 1 then "" else " (" + Decimal(n) + ")")
  }

  lemma EndpointNameIsCandidate(s: ServerProfile, n: nat)
    requires 1 <= n
    ensures EndpointName(s, n) == Numbered(Stem(s), n)
  {
    assert n > 1 ==> EndpointName(s, n) == Stem(s) + (" (" + Decimal(n) + ")");
  }

  ghost predicate NameTaken(servers: seq<ServerProfile>, i: nat, name: string) {
    exists j :: 0 <= j < i <= |servers| && servers[j].name == name
  }

  /** A renamed node gets the first of these forms that is no earlier final name. */
  lemma RenamedToEndpoint(servers: seq<ServerProfile>, i: nat)
    requires i < |servers| && DistinctServers(servers, {})[i].name != servers[i].name
    ensures var r := DistinctServers(servers, {});
            exists n: nat :: 1 <= n && r[i].name == EndpointName(servers[i], n)
              && forall m: nat :: 1 <= m < n ==> NameTaken(r, i, EndpointName(servers[i], m))
  {
    var r, stem := DistinctServers(servers, {}), Stem(servers[i]);
    EachServer(servers, {}, i);
    var used := {} + NamesOf(r[..i]);
    var n := FreeNumber(stem, used, 1);
    EndpointNameIsCandidate(servers[i], n);
    forall m: nat | 1 <= m < n ensures NameTaken(r, i, EndpointName(servers[i], m)) {
      EndpointNameIsCandidate(servers[i], m);
      assert Numbered(stem, m) in used;
      TakenAmong(r, i, Numbered(stem, m));
    }
  }

  lemma TakenAmong(servers: seq<ServerProfile>, i: nat, name: string)
    requires i <= |servers| && name in NamesOf(servers[..i])
    ensures NameTaken(servers, i, name)
  {
    NameAmong(servers[..i], name);
    var j :| 0 <= j < i && servers[..i][j].name == name;
    assert servers[j].name == name;
  }

  /** The inner loop: try the stem, then its numbered forms. */
  method FirstFree(stem: string, used: set<string>) returns (name: string)
    ensures name == FreeName(stem, used)
  {
    name := stem;
    var n := 2;
    while name in used
      invariant 2 <= n && name == Numbered(stem, n - 1) && AllTaken(stem, used, n - 1)
      decreases |used| + 2 - n
    {
      Pigeonhole(stem, used, n);
      name := stem + " (" + Decimal(n) + ")";
      n := n + 1;
    }
    FreeNumberFrom(stem, used, n - 1);
  }

  method EnsureDistinctNodeNames(cfg: AppConfig)
    modifies cfg`servers
    ensures cfg.servers == DistinctServers(old(cfg.servers), {})
  {
    var used: set<string> := {};
    var i := 0;
    ghost var before := cfg.servers;
    assert before[0..] == before && before[..0] + DistinctServers(before, {}) == DistinctServers(before, {});
    while i < |cfg.servers|
      invariant 0 <= i <= |cfg.servers| == |before|
      invariant cfg.servers[i..] == before[i..]
      invariant cfg.servers[..i] + DistinctServers(before[i..], used) == DistinctServers(before, {})
    {
      var s := cfg.servers[i];
      var name := s.name;
      if name in used {
        name := FirstFree(Stem(s), used);
      }
      ReplaceNext(cfg.servers, i, before, s.(name := name), DistinctServers(before[i + 1..], used + {name}));
      cfg.servers := cfg.servers[i := s.(name := name)];
      used := used + {name};
      i := i + 1;
    }
    assert cfg.servers[..i] == cfg.servers && before[i..] == [] && cfg.servers + [] == cfg.servers;
  }
}
