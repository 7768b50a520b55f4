/** Unique subscription tags: `ensure_distinct_sub_tags` in `crates/cli/src/lib.rs`. */
module SubscriptionTags {
  import opened Wrappers
  import opened Sequences
  import opened Ascii
  import opened Numerals
  import opened Model
  import opened UriParsing
  import opened UniqueNames

  /** `sub_host`: what stands between the first `://` (and the next one) and the first slash. */
  function SubHost(url: string): string {
    match FindScheme(url)
    case None => Cut(url, '/').0
    case Some(i) =>
      var rest := url[i + 3..];
      Cut(match FindScheme(rest) case Some(j) => rest[..j] case None => rest, '/').0
  }

  /** For a URL with a path, that is its authority. */
  lemma SubHostOfUrl(scheme: string, host: string, path: string)
    requires ':' !in scheme && '/' !in host && (host == "" || host[|host| - 1] != ':')
    ensures SubHost(scheme + "://" + (host + ['/'] + path)) == host
  {
    var rest := host + ['/'] + path;
    LinkOpens(scheme, rest);
    var next := FindScheme(rest);
    var piece := if next.Some? then rest[..next.value] else rest;
    assert next.Some? ==> next.value > |host|;
    assert piece == host + ['/'] + piece[|host| + 1..];
    FindFirst(host, '/', piece[|host| + 1..]);
  }

  /** Without a path, too, and without a scheme. */
  lemma SubHostOfBareUrl(scheme: string, host: string, path: string)
    requires ':' !in scheme && '/' !in host
    ensures SubHost(scheme + "://" + host) == host == SubHost(host)
    ensures FindScheme(host + ['/'] + path).None? ==> SubHost(host + ['/'] + path) == host
  {
    LinkOpens(scheme, host);
    FindNone(host, '/');
    FindFirst(host, '/', path);
    assert (host + ['/'] + path)[..|host|] == host;
  }

  /** The tag a subscription asks for: its own unless blank, else the host of its URL. */
  function BaseTag(s: Subscription): string {
    if s.tag.Some? && Trim(s.tag.value) != "" then s.tag.value else SubHost(s.url)
  }

  function DistinctSubs(subs: seq<Subscription>, used: set<string>): (r: seq<Subscription>)
    ensures |r| == |subs|
    ensures forall i :: 0 <= i < |r| ==> r[i] == subs[i].(tag := r[i].tag) && r[i].tag.Some?
  {
    if subs == [] then []
    else
      var tag := FreeName(BaseTag(subs[0]), used);
      [subs[0].(tag := Some(tag))] + DistinctSubs(subs[1..], used + {tag})
  }

  ghost predicate DistinctTags(subs: seq<Subscription>) {
    forall i, j :: 0 <= i < j < |subs| ==> subs[i].tag != subs[j].tag
  }

  ghost predicate TagsAvoid(subs: seq<Subscription>, used: set<string>) {
    forall i :: 0 <= i < |subs| ==> subs[i].tag.Some? && subs[i].tag.value !in used
  }

  /** Every subscription ends with a tag of its own. */
  lemma {:induction false} TagsAreDistinct(subs: seq<Subscription>, used: set<string>)
    ensures DistinctTags(DistinctSubs(subs, used)) && TagsAvoid(DistinctSubs(subs, used), used)
  {
    if subs != [] {
      var tag := FreeName(BaseTag(subs[0]), used);
      var rest := DistinctSubs(subs[1..], used + {tag});
      TagsAreDistinct(subs[1..], used + {tag});
      var r := DistinctSubs(subs, used);
      assert forall i :: 1 <= i < |r| ==> r[i] == rest[i - 1];
    }
  }

  /** The tag a subscription was given is the tag it asks for next time. */
  lemma BaseOfGivenTag(s: Subscription, n: nat)
    ensures BaseTag(s.(tag := Some(Numbered(BaseTag(s), n)))) == Numbered(BaseTag(s), n)
  {
    var tag := Numbered(BaseTag(s), n);
    if n > 1 {
      assert tag[|BaseTag(s)| + 1] == '(';
      TrimOfNonBlank(tag, |BaseTag(s)| + 1);
    }
  }

  lemma FreeStays(stem: string, used: set<string>)
    requires stem !in used
    ensures FreeName(stem, used) == stem
  {
  }

  /** Free and distinct tags that their subscriptions ask for stay as they are, ... */
  lemma {:induction false} SettledStays(subs: seq<Subscription>, used: set<string>)
    requires DistinctTags(subs) && TagsAvoid(subs, used)
    requires forall i :: 0 <= i < |subs| ==> subs[i].tag == Some(BaseTag(subs[i]))
    ensures DistinctSubs(subs, used) == subs
  {
    if subs != [] {
      var s, rest := subs[0], subs[1..];
      assert forall i :: 0 <= i < |rest| ==> rest[i] == subs[i + 1];
      FreeStays(BaseTag(s), used);
      SettledStays(rest, used + {BaseTag(s)});
      assert DistinctSubs(subs, used) == [s] + rest;
    }
  }

  lemma {:induction false} GivenTagsAreBases(subs: seq<Subscription>, used: set<string>)
    ensures forall i :: 0 <= i < |subs| ==>
              DistinctSubs(subs, used)[i].tag == Some(BaseTag(DistinctSubs(subs, used)[i]))
  {
    if subs != [] {
      var base := BaseTag(subs[0]);
      BaseOfGivenTag(subs[0], FreeNumber(base, used, 1));
      var tag := FreeName(base, used);
      GivenTagsAreBases(subs[1..], used + {tag});
      var r, rest := DistinctSubs(subs, used), DistinctSubs(subs[1..], used + {tag});
      assert forall i :: 1 <= i < |r| ==> r[i] == rest[i - 1];
    }
  }

  /** ... so a second run changes nothing, blank tags and hostless URLs included. */
  lemma SecondRunIsIdle(subs: seq<Subscription>)
    ensures DistinctSubs(DistinctSubs(subs, {}), {}) == DistinctSubs(subs, {})
  {
    TagsAreDistinct(subs, {});
    GivenTagsAreBases(subs, {});
    SettledStays(DistinctSubs(subs, {}), {});
  }

  function TagsOf(subs: seq<Subscription>): set<string> {
    set i | 0 <= i < |subs| && subs[i].tag.Some? :: subs[i].tag.value
  }

  /** Subscription `i` gets the first free number of what it asks for, after the tags settled before it. */
  lemma {:induction false} EachTag(subs: seq<Subscription>, used: set<string>, i: nat)
    requires i < |subs|
    ensures var r := DistinctSubs(subs, used);
            r[i].tag == Some(FreeName(BaseTag(subs[i]), used + TagsOf(r[..i])))
    decreases i
  {
    var r := DistinctSubs(subs, used);
    if i == 0 {
      assert used + TagsOf(r[..0]) == used;
    } else {
      var tag := FreeName(BaseTag(subs[0]), used);
      var rest := DistinctSubs(subs[1..], used + {tag});
      EachTag(subs[1..], used + {tag}, i - 1);
      assert r[..i] == [r[0]] + rest[..i - 1];
      TagsOfCons(r[0], rest[..i - 1]);
      assert (used + {tag}) + TagsOf(rest[..i - 1]) == used + TagsOf(r[..i]);
    }
  }

  lemma TagsOfCons(s: Subscription, rest: seq<Subscription>)
    requires s.tag.Some?
    ensures TagsOf([s] + rest) == {s.tag.value} + TagsOf(rest)
  {
    var all := [s] + rest;
    assert all[0] == s && forall i :: 0 <= i < |rest| ==> all[i + 1] == rest[i];
    assert forall i :: 1 <= i < |all| ==> all[i] == rest[i - 1];
  }

  /** A subscription asks for its own tag, or, where that is missing or blank, for the host of its URL. */
  ghost predicate AsksFor(s: Subscription, base: string) {
    if s.tag.Some? && !Blank(s.tag.value) then base == s.tag.value else base == SubHost(s.url)
  }

  /** The `n`-th form of a tag. */
  function TagForm(base: string, n: nat): string {
    base + (if n == 1 then "" else " (" + Decimal(n) + ")")
  }

  lemma TagFormIsCandidate(base: string, n: nat)
    requires 1 <= n
    ensures TagForm(base, n) == Numbered(base, n)
  {
    assert n > 1 ==> TagForm(base, n) == base + (" (" + Decimal(n) + ")");
  }

  ghost predicate TagTaken(subs: seq<Subscription>, i: nat, tag: string) {
    exists j :: 0 <= j < i <= |subs| && subs[j].tag == Some(tag)
  }

  /** It gets that, or, where earlier subscriptions have it, that with the first free number. */
  lemma TagAsAsked(subs: seq<Subscription>, i: nat)
    requires i < |subs|
    ensures var r := DistinctSubs(subs, {});
            exists base, n: nat :: AsksFor(subs[i], base) && 1 <= n && r[i].tag == Some(TagForm(base, n))
              && forall m: nat :: 1 <= m < n ==> TagTaken(r, i, TagForm(base, m))
  {
    var r, base := DistinctSubs(subs, {}), BaseTag(subs[i]);
    EachTag(subs, {}, i);
    AsksForBase(subs[i]);
    var used := {} + TagsOf(r[..i]);
    var n := FreeNumber(base, used, 1);
    TagFormIsCandidate(base, n);
    forall m: nat | 1 <= m < n ensures TagTaken(r, i, TagForm(base, m)) {
      TagFormIsCandidate(base, m);
      assert Numbered(base, m) in used;
      TagAmong(r, i, Numbered(base, m));
    }
  }

  lemma TagAmong(subs: seq<Subscription>, i: nat, tag: string)
    requires i <= |subs| && tag in TagsOf(subs[..i])
    ensures TagTaken(subs, i, tag)
  {
    var j :| 0 <= j < i && subs[..i][j].tag == Some(tag);
    assert subs[j].tag == Some(tag);
  }

  lemma AsksForBase(s: Subscription)
    ensures AsksFor(s, BaseTag(s))
  {
    if s.tag.Some? {
      if Blank(s.tag.value) {
        TrimOfBlank(s.tag.value);
      } else {
        var i :| 0 <= i < |s.tag.value| && !IsSpace(s.tag.value[i]);
        TrimOfNonBlank(s.tag.value, i);
      }
    }
  }

  /** The loop before element `i`: what is done, followed by what is left to do, is the reference list. */
  ghost predicate Partway(subs: seq<Subscription>, i: nat, before: seq<Subscription>, used: set<string>) {
    && i <= |subs| == |before| && subs[i..] == before[i..]
    && subs[..i] + DistinctSubs(before[i..], used) == DistinctSubs(before, {})
  }

  lemma Start(subs: seq<Subscription>)
    ensures Partway(subs, 0, subs, {})
  {
    assert subs[0..] == subs && subs[..0] + DistinctSubs(subs, {}) == DistinctSubs(subs, {});
  }

  lemma End(subs: seq<Subscription>, before: seq<Subscription>, used: set<string>)
    requires Partway(subs, |subs|, before, used)
    ensures subs == DistinctSubs(before, {}) && subs[..|subs|] == subs && before[..|subs|] == before
  {
    assert before[|subs|..] == [] && subs[..|subs|] + [] == subs;
  }

  /** One turn of the loop. */
  lemma TagTurn(subs: seq<Subscription>, i: nat, before: seq<Subscription>, used: set<string>, tag: string)
    requires Partway(subs, i, before, used) && i < |subs| && tag == FreeName(BaseTag(subs[i]), used)
    ensures var next := subs[i := subs[i].(tag := Some(tag))];
            && Partway(next, i + 1, before, used + {tag})
            && (next[..i + 1] != before[..i + 1] <==> subs[..i] != before[..i] || next != subs)
            && (next != subs <==> subs[i].tag != Some(tag))
  {
    var tagged := subs[i].(tag := Some(tag));
    ReplaceNext(subs, i, before, tagged, DistinctSubs(before[i + 1..], used + {tag}));
    SnocEqual(subs[..i], before[..i], tagged, subs[i]);
    assert subs[i := tagged][i] == tagged;
    assert subs[i := subs[i]] == subs;
  }

  /** The body of the loop: choose a tag for one subscription and store it if it is new. */
  method Retag(cfg: AppConfig, i: nat, used: set<string>, ghost before: seq<Subscription>) returns (tag: string,
      changed: bool)
    requires i < |cfg.subscriptions| && Partway(cfg.subscriptions, i, before, used)
    modifies cfg`subscriptions
    ensures Partway(cfg.subscriptions, i + 1, before, used + {tag})
    ensures cfg.subscriptions[..i + 1] != before[..i + 1] <==> old(cfg.subscriptions)[..i] != before[..i] || changed
  {
    var sub := cfg.subscriptions[i];
    tag := FirstFree(BaseTag(sub), used);
    TagTurn(cfg.subscriptions, i, before, used, tag);
    changed := sub.tag != Some(tag);
    if changed {
      cfg.subscriptions := cfg.subscriptions[i := sub.(tag := Some(tag))];
    }
  }

  method EnsureDistinctSubTags(cfg: AppConfig) returns (changed: bool)
    modifies cfg`subscriptions
    ensures cfg.subscriptions == DistinctSubs(old(cfg.subscriptions), {})
    ensures changed <==> cfg.subscriptions != old(cfg.subscriptions)
  {
    var used: set<string> := {};
    changed := false;
    var i := 0;
    ghost var before := cfg.subscriptions;
    Start(before);
    while i < |cfg.subscriptions|
      invariant Partway(cfg.subscriptions, i, before, used)
      invariant changed <==> cfg.subscriptions[..i] != before[..i]
    {
      var tag, one := Retag(cfg, i, used, before);
      used := used + {tag};
      changed := changed || one;
      i := i + 1;
    }
    End(cfg.subscriptions, before, used);
  }
}
