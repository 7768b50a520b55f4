/**
 The caching, single-flight resolver of `crates/net/src/dns/mod.rs`.

 A caller's pass through the cache and a leader's publication are the two lock sections; any
 number of tasks interleave them under a monotone clock. The upstream queries (A and AAAA) are
 inputs. A history of leader flights is kept beside the cache to say what the cache promises.
 */
module Dns {
  import opened Wrappers
  import opened Cidr

  /** Nanoseconds of the monotone clock. */
  type Instant = nat

  const SECOND := 1_000_000_000
  const POSITIVE_TTL := 300 * SECOND
  const NEGATIVE_TTL := 3 * SECOND

  /** `io::Result<Vec<IpAddr>>`: `None` is any resolver error. */
  type Answer = Option<seq<IpAddr>>

  datatype CacheState = Ready(ips: seq<IpAddr>, expires: Instant) | InFlight

  /** A query that gave at least one address. */
  predicate Yields(a: Answer) {
    a.Some? && a.value != []
  }

  /** `r` holds the addresses of both queries, A before AAAA, and is an error when neither gave one. */
  predicate Merges(r: Answer, a: Answer, aaaa: Answer) {
    && (r.None? <==> !Yields(a) && !Yields(aaaa))
    && (Yields(a) && Yields(aaaa) ==> r == Some(a.value + aaaa.value))
    && (Yields(a) && !Yields(aaaa) ==> r == a)
    && (!Yields(a) && Yields(aaaa) ==> r == aaaa)
  }

  /** `resolve_uncached`: both record types in order; an error when neither yields an address. */
  function Combine(a: Answer, aaaa: Answer): (r: Answer)
    ensures Merges(r, a, aaaa)
    ensures r.Some? ==> r.value != []
  {
    var fromA, fromAaaa := if a.Some? then a.value else [], if aaaa.Some? then aaaa.value else [];
    var ips := fromA + fromAaaa;
    assert fromA == [] ==> ips == fromAaaa;
    assert fromAaaa == [] ==> ips == fromA;
    if ips == [] then None else Some(ips)
  }

  /** `cache_result`: an empty cached vector is a negative answer. */
  function CacheResult(ips: seq<IpAddr>): Answer {
    if ips == [] then None else Some(ips)
  }

  function Ttl(r: Answer): (ttl: Instant)
    ensures NEGATIVE_TTL <= ttl <= POSITIVE_TTL
  {
    if r.Some? then POSITIVE_TTL else NEGATIVE_TTL
  }

  datatype Publication = Publication(at: Instant, answer: Answer)

  /** One real resolve by a leader; `published` is `None` while it runs. */
  datatype Flight = Flight(start: Instant, published: Option<Publication>)

  datatype State = State(
    cache: map<string, CacheState>,
    running: multiset<string>,
    flights: map<string, seq<Flight>>,
    now: Instant
  )

  const Initial := State(map[], multiset{}, map[], 0)

  datatype Event =
    | Check(name: string, at: Instant)
    | Publish(name: string, at: Instant, a: Answer, aaaa: Answer)

  /** What a pass through the cache tells the caller to do. */
  datatype Outcome = Hit(answer: Answer) | Wait | Lead | Published(answer: Answer)

  function FlightsOf(s: State, name: string): seq<Flight> {
    if name in s.flights then s.flights[name] else []
  }

  /** Time does not go back, and only a running leader publishes. */
  predicate Enabled(s: State, e: Event) {
    s.now <= e.at && (e.Publish? ==> s.running[e.name] > 0)
  }

  function Look(cache: map<string, CacheState>, name: string, at: Instant): Outcome {
    if name in cache && cache[name].Ready? && cache[name].expires > at then Hit(CacheResult(cache[name].ips))
    else if name in cache && cache[name].InFlight? then Wait
    else Lead
  }

  function Stored(answer: Answer, at: Instant): CacheState {
    Ready(if answer.Some? then answer.value else [], at + Ttl(answer))
  }

  function Landed(fs: seq<Flight>, p: Publication): seq<Flight> {
    if fs == [] then [] else fs[..|fs| - 1] + [fs[|fs| - 1].(published := Some(p))]
  }

  function Step(s: State, e: Event): (State, Outcome) {
    match e
    case Check(name, at) =>
      var outcome := Look(s.cache, name, at);
      if outcome.Lead? then
        (State(s.cache[name := InFlight], s.running + multiset{name},
               s.flights[name := FlightsOf(s, name) + [Flight(at, None)]], at), Lead)
      else (s.(now := at), outcome)
    case Publish(name, at, a, aaaa) =>
      var answer := Combine(a, aaaa);
      (State(s.cache[name := Stored(answer, at)], s.running - multiset{name},
             s.flights[name := Landed(FlightsOf(s, name), Publication(at, answer))], at), Published(answer))
  }

  // ----- the invariant -----

  /** Every flight but the last has landed; the next starts only after its answer has expired. */
  ghost predicate Spaced(fs: seq<Flight>) {
    forall i :: 0 <= i < |fs| - 1 ==>
      && fs[i].published.Some?
      && fs[i].start <= fs[i].published.value.at
      && fs[i].published.value.at + Ttl(fs[i].published.value.answer) <= fs[i + 1].start
  }

  ghost predicate NameInv(s: State, name: string) {
    var fs := FlightsOf(s, name);
    && Spaced(fs)
    && s.running[name] == (if name in s.cache && s.cache[name].InFlight? then 1 else 0)
    && (fs == [] <==> name !in s.cache)
    && (fs != [] ==>
          var last := fs[|fs| - 1];
          && last.start <= s.now
          && (s.cache[name].InFlight? <==> last.published.None?)
          && (last.published.Some? ==>
                && last.start <= last.published.value.at <= s.now
                && s.cache[name] == Stored(last.published.value.answer, last.published.value.at)
                && (last.published.value.answer.Some? ==> last.published.value.answer.value != [])))
  }

  ghost predicate Inv(s: State) {
    forall name :: NameInv(s, name)
  }

  lemma CheckKeepsName(s: State, name: string, at: Instant)
    requires NameInv(s, name) && s.now <= at
    ensures NameInv(Step(s, Check(name, at)).0, name)
  {
  }

  lemma PublishKeepsName(s: State, e: Event)
    requires e.Publish? && NameInv(s, e.name) && Enabled(s, e)
    ensures NameInv(Step(s, e).0, e.name)
  {
    var fs := FlightsOf(s, e.name);
    var gs := Landed(fs, Publication(e.at, Combine(e.a, e.aaaa)));
    assert forall i :: 0 <= i < |fs| - 1 ==> gs[i] == fs[i];
  }

  lemma NameInvFrame(s: State, t: State, name: string)
    requires NameInv(s, name) && s.now <= t.now
    requires FlightsOf(t, name) == FlightsOf(s, name) && t.running[name] == s.running[name]
    requires (name in t.cache <==> name in s.cache) && (name in s.cache ==> t.cache[name] == s.cache[name])
    ensures NameInv(t, name)
  {
  }

  lemma StepKeepsOtherName(s: State, e: Event, name: string)
    requires NameInv(s, name) && Enabled(s, e) && name != e.name
    ensures NameInv(Step(s, e).0, name)
  {
    NameInvFrame(s, Step(s, e).0, name);
  }

  lemma StepKeepsInv(s: State, e: Event)
    requires Inv(s) && Enabled(s, e)
    ensures Inv(Step(s, e).0)
  {
    forall name ensures NameInv(Step(s, e).0, name) {
      assert NameInv(s, name);
      if name != e.name {
        StepKeepsOtherName(s, e, name);
      } else if e.Check? {
        CheckKeepsName(s, e.name, e.at);
      } else {
        PublishKeepsName(s, e);
      }
    }
  }

  ghost predicate Run(trace: seq<State>, events: seq<Event>) {
    && |trace| == |events| + 1
    && trace[0] == Initial
    && (forall i :: 0 <= i < |events| ==> Enabled(trace[i], events[i]) && Step(trace[i], events[i]).0 == trace[i + 1])
  }

  lemma {:induction false} RunKeepsInv(trace: seq<State>, events: seq<Event>, i: nat)
    requires Run(trace, events) && i < |trace|
    ensures Inv(trace[i])
  {
    if i > 0 {
      RunKeepsInv(trace, events, i - 1);
      StepKeepsInv(trace[i - 1], events[i - 1]);
    }
  }

  // ----- what the resolver promises -----

  /** A name is in flight exactly while one leader runs for it, and never two. */
  lemma OneLeaderPerName(trace: seq<State>, events: seq<Event>, i: nat, name: string)
    requires Run(trace, events) && i < |trace|
    ensures trace[i].running[name] <= 1
    ensures trace[i].running[name] == 1 <==> name in trace[i].cache && trace[i].cache[name] == InFlight
  {
    RunKeepsInv(trace, events, i);
    assert NameInv(trace[i], name);
  }

  /** Publication `j` of the run is where the cached answer for the name comes from. */
  ghost predicate ComesFrom(e: Event, name: string, p: Publication) {
    e.Publish? && e.name == name && e.at == p.at && Merges(p.answer, e.a, e.aaaa)
  }

  /** Every landed flight landed with the answers of some publication of the run. */
  lemma {:induction false} LandedByPublication(trace: seq<State>, events: seq<Event>, i: nat, name: string)
    requires Run(trace, events) && i < |trace|
    requires var fs := FlightsOf(trace[i], name); fs != [] && fs[|fs| - 1].published.Some?
    ensures var fs := FlightsOf(trace[i], name);
            exists j :: 0 <= j < i && ComesFrom(events[j], name, fs[|fs| - 1].published.value)
  {
    var e := events[i - 1];
    assert trace[i] == Step(trace[i - 1], e).0;
    if e.Publish? && e.name == name {
      assert ComesFrom(events[i - 1], name, Publication(e.at, Combine(e.a, e.aaaa)));
    } else {
      LandedByPublication(trace, events, i - 1, name);
    }
  }

  /**
   An answer served from the cache holds the addresses that the queries of some earlier leader for
   that name returned, and is still fresh.
   */
  lemma HitIsFresh(trace: seq<State>, events: seq<Event>, i: nat)
    requires Run(trace, events) && i < |events| && events[i].Check?
    requires Step(trace[i], events[i]).1.Hit?
    ensures var fs := FlightsOf(trace[i], events[i].name);
            && fs != [] && fs[|fs| - 1].published.Some?
            && var p := fs[|fs| - 1].published.value;
            && Step(trace[i], events[i]).1.answer == p.answer
            && (exists j :: 0 <= j < i && ComesFrom(events[j], events[i].name, p))
            && p.at <= events[i].at < p.at + (if p.answer.Some? then 300 else 3) * SECOND
  {
    RunKeepsInv(trace, events, i);
    assert NameInv(trace[i], events[i].name);
    LandedByPublication(trace, events, i, events[i].name);
  }

  /** Until it expires a published answer is what every caller gets, whatever else happens. */
  lemma {:induction false} AnswerHoldsUntilExpiry(trace: seq<State>, events: seq<Event>, i: nat, j: nat)
    requires Run(trace, events) && i < j < |events|
    requires events[i].Publish? && events[j].Check? && events[j].name == events[i].name
    requires var found := Yields(events[i].a) || Yields(events[i].aaaa);
             events[j].at < events[i].at + (if found then 300 else 3) * SECOND
    ensures var outcome := Step(trace[j], events[j]).1;
            outcome.Hit? && Merges(outcome.answer, events[i].a, events[i].aaaa)
  {
    var name, r := events[i].name, Combine(events[i].a, events[i].aaaa);
    var k := i + 1;
    while k < j
      invariant i < k <= j
      invariant name in trace[k].cache && trace[k].cache[name] == Stored(r, events[i].at)
    {
      RunKeepsInv(trace, events, k);
      assert NameInv(trace[k], name);
      TimeIsMonotone(trace, events, k, j);
      assert trace[k + 1] == Step(trace[k], events[k]).0;
      k := k + 1;
    }
  }

  lemma {:induction false} TimeIsMonotone(trace: seq<State>, events: seq<Event>, i: nat, j: nat)
    requires Run(trace, events) && i <= j < |events|
    ensures events[i].at <= events[j].at
  {
    if i < j {
      TimeIsMonotone(trace, events, i, j - 1);
      assert trace[j] == Step(trace[j - 1], events[j - 1]).0;
    }
  }

  lemma {:induction false} StartsSpread(fs: seq<Flight>, i: nat, j: nat)
    requires Spaced(fs) && i <= j < |fs|
    ensures fs[i].start + (j - i) * NEGATIVE_TTL <= fs[j].start
  {
    if i < j { StartsSpread(fs, i, j - 1); }
  }

  /** The flights for one name that begin within a window. */
  ghost function StartsIn(fs: seq<Flight>, from: Instant, window: nat): set<nat> {
    set i: nat | i < |fs| && from <= fs[i].start <= from + window
  }

  lemma {:induction false} RangeSize(lo: nat, n: nat, s: set<nat>)
    requires forall i :: i in s ==> lo <= i < lo + n
    ensures |s| <= n
  {
    if n == 0 {
      assert s == {};
    } else {
      RangeSize(lo, n - 1, s - {lo + n - 1});
    }
  }

  lemma {:induction false} WindowBound(fs: seq<Flight>, from: Instant, window: nat, first: nat)
    requires Spaced(fs) && first <= |fs|
    requires forall i :: i in StartsIn(fs, from, window) ==> first <= i
    ensures |StartsIn(fs, from, window)| <= window / NEGATIVE_TTL + 1
    decreases |fs| - first
  {
    var s := StartsIn(fs, from, window);
    if first == |fs| {
      assert s == {};
    } else if first in s {
      forall i | i in s ensures i < first + (window / NEGATIVE_TTL + 1) {
        StartsSpread(fs, first, i);
      }
      RangeSize(first, window / NEGATIVE_TTL + 1, s);
    } else {
      WindowBound(fs, from, window, first + 1);
    }
  }

  /** Any window of T sees at most T / 3 s + 1 real resolves of one name. */
  lemma ResolveRate(trace: seq<State>, events: seq<Event>, i: nat, name: string, from: Instant, window: nat)
    requires Run(trace, events) && i < |trace|
    ensures |StartsIn(FlightsOf(trace[i], name), from, window)| <= window / NEGATIVE_TTL + 1
  {
    RunKeepsInv(trace, events, i);
    assert NameInv(trace[i], name);
    WindowBound(FlightsOf(trace[i], name), from, window, 0);
  }

  /** Leaders for one name never overlap, and the next waits for the last answer's TTL to run out. */
  lemma LeadersDoNotOverlap(trace: seq<State>, events: seq<Event>, i: nat, name: string, k: nat)
    requires Run(trace, events) && i < |trace|
    requires k + 1 < |FlightsOf(trace[i], name)|
    ensures var fs := FlightsOf(trace[i], name);
            && fs[k].published.Some?
            && fs[k].start <= fs[k].published.value.at
            && fs[k].published.value.at + Ttl(fs[k].published.value.answer) <= fs[k + 1].start
  {
    RunKeepsInv(trace, events, i);
    assert NameInv(trace[i], name);
  }

  /** What a publication leaves in the cache. */
  lemma StoredMeaning(answer: Answer, at: Instant)
    ensures Stored(answer, at) ==
            if answer.Some? then Ready(answer.value, at + 300 * SECOND) else Ready([], at + 3 * SECOND)
  {
  }

  // ----- the mutable resolver -----

  class DnsResolver {
    var cache: map<string, CacheState>
    ghost var running: multiset<string>
    ghost var flights: map<string, seq<Flight>>
    ghost var now: Instant

    ghost function View(): State
      reads this
    {
      State(cache, running, flights, now)
    }

    ghost predicate Valid()
      reads this
    {
      Inv(View())
    }

    constructor ()
      ensures Valid() && View() == Initial
    {
      cache, running, flights, now := map[], multiset{}, map[], 0;
    }

    /** The locked part of `resolve`: answer, wait, or take the lead. */
    method CheckCache(name: string, at: Instant) returns (outcome: Outcome)
      requires Valid() && now <= at
      modifies this
      ensures Valid() && (View(), outcome) == Step(old(View()), Check(name, at))
      ensures outcome == Wait <==> name in old(cache) && old(cache)[name] == InFlight
      ensures outcome == Lead <==> name !in old(cache) || (old(cache)[name].Ready? && old(cache)[name].expires <= at)
      ensures name in old(cache) && old(cache)[name].Ready? && old(cache)[name].expires > at ==>
                var ips := old(cache)[name].ips; outcome == Hit(if ips == [] then None else Some(ips))
      ensures cache == if outcome == Lead then old(cache)[name := InFlight] else old(cache)
    {
      StepKeepsInv(View(), Check(name, at));
      now := at;
      if name in cache {
        match cache[name] {
          case Ready(ips, expires) =>
            if expires > at { return Hit(CacheResult(ips)); }
          case InFlight =>
            return Wait;
        }
      }
      flights := flights[name := FlightsOf(View(), name) + [Flight(at, None)]];
      running := running + multiset{name};
      cache := cache[name := InFlight];
      return Lead;
    }

    /** `resolve_leader` after its queries returned: store the answer with its TTL. */
    method PublishAnswer(name: string, at: Instant, a: Answer, aaaa: Answer) returns (answer: Answer)
      requires Valid() && now <= at && running[name] > 0
      modifies this
      ensures Valid() && (View(), Published(answer)) == Step(old(View()), Publish(name, at, a, aaaa))
      ensures Merges(answer, a, aaaa)
      ensures cache == old(cache)[name := if answer.Some? then Ready(answer.value, at + 300 * SECOND)
                                          else Ready([], at + 3 * SECOND)]
    {
      StepKeepsInv(View(), Publish(name, at, a, aaaa));
      answer := Combine(a, aaaa);
      StoredMeaning(answer, at);
      flights := flights[name := Landed(FlightsOf(View(), name), Publication(at, answer))];
      running := running - multiset{name};
      now := at;
      var (ips, ttl) := if answer.Some? then (answer.value, POSITIVE_TTL) else ([], NEGATIVE_TTL);
      assert Ready(ips, at + ttl) == Stored(answer, at);
      cache := cache[name := Ready(ips, at + ttl)];
    }
  }
}
