/** The domain index of one geosite category: `crates/core/src/geo/geosite.rs`. */
module DomainIndex {
  import opened Wrappers
  import opened Ascii
  import opened DomainRules

  const TYPE_PLAIN := 0
  const TYPE_REGEX := 1
  const TYPE_DOMAIN := 2
  const TYPE_FULL := 3

  /** What a `DomainSet` holds. */
  datatype Index = Index(full: set<string>, suffix: set<string>, keyword: seq<string>, skippedRegex: nat) {
    /** `add`. */
    function Add(dtype: nat, value: string): Index {
      var v := Lower(TrimEnd(value, '.'));
      if v == [] then this
      else if dtype == TYPE_FULL then this.(full := full + {v})
      else if dtype == TYPE_DOMAIN then this.(suffix := suffix + {v})
      else if dtype == TYPE_PLAIN then this.(keyword := keyword + [v])
      else if dtype == TYPE_REGEX then this.(skippedRegex := skippedRegex + 1)
      else this
    }

    /** `matches`, with the suffix walk replaced by what it is meant to find. */
    predicate Matches(host: string) {
      var h := HostName(host);
      || h in full
      || (exists d :: d in suffix && UnderDomain(h, d))
      || (exists i :: 0 <= i < |keyword| && Contains(h, keyword[i]))
    }
  }

  const EmptyIndex := Index({}, {}, [], 0)

  /** One `Domain` entry of the database. */
  datatype Entry = Entry(dtype: nat, value: string)

  function AddAll(index: Index, entries: seq<Entry>): Index
    decreases entries
  {
    if entries == [] then index
    else AddAll(index.Add(entries[0].dtype, entries[0].value), entries[1..])
  }

  /** The entry read as a rule of the routing engine; regex and unknown types have none. */
  function AsRule(e: Entry): Option<DomainRule> {
    if e.dtype == TYPE_FULL then Some(Full(e.value))
    else if e.dtype == TYPE_DOMAIN then Some(Suffix(e.value))
    else if e.dtype == TYPE_PLAIN then Some(Keyword(e.value))
    else None
  }

  predicate RuleMatches(e: Entry, host: string) {
    AsRule(e).Some? && AsRule(e).value.Matches(host)
  }

  /**
   The values on which index and rule mean the same: the dots each of them trims are absent. A
   `Full` value of nothing but dots matches no host in either reading.
   */
  predicate Clean(e: Entry) {
    var v := e.value;
    if e.dtype == TYPE_FULL then v != [] && (v[|v| - 1] != '.' || TrimEnd(v, '.') == [])
    else if e.dtype == TYPE_DOMAIN then v != [] && v[0] != '.' && v[|v| - 1] != '.'
    else if e.dtype == TYPE_PLAIN then v != [] && v[|v| - 1] != '.'
    else true
  }

  lemma AddKeywordMeansRule(index: Index, v: string, host: string)
    requires Clean(Entry(TYPE_PLAIN, v))
    ensures index.Add(TYPE_PLAIN, v).Matches(host) <==> index.Matches(host) || Contains(HostName(host), Lower(v))
  {
    var more := index.Add(TYPE_PLAIN, v);
    assert more.keyword == index.keyword + [Lower(v)];
    assert more.keyword[|index.keyword|] == Lower(v);
    assert forall i :: 0 <= i < |index.keyword| ==> more.keyword[i] == index.keyword[i];
  }

  lemma AddFullMeansRule(index: Index, v: string, host: string)
    requires Clean(Entry(TYPE_FULL, v))
    ensures index.Add(TYPE_FULL, v).Matches(host) <==> index.Matches(host) || HostName(host) == Lower(v)
  {
    LowerLast(v);
    LowerLast(TrimEnd(host, '.'));
  }

  lemma AddSuffixMeansRule(index: Index, v: string, host: string)
    requires Clean(Entry(TYPE_DOMAIN, v))
    ensures index.Add(TYPE_DOMAIN, v).Matches(host) <==>
              index.Matches(host) || UnderDomain(HostName(host), Lower(TrimStart(v, '.')))
  {
    assert index.Add(TYPE_DOMAIN, v) == index.(suffix := index.suffix + {Lower(v)});
  }

  /** Adding one clean entry adds exactly the hosts its rule matches. */
  lemma AddMeansRule(index: Index, e: Entry, host: string)
    requires Clean(e)
    ensures index.Add(e.dtype, e.value).Matches(host) <==> index.Matches(host) || RuleMatches(e, host)
  {
    if e.dtype == TYPE_PLAIN {
      AddKeywordMeansRule(index, e.value, host);
    } else if e.dtype == TYPE_FULL {
      AddFullMeansRule(index, e.value, host);
    } else if e.dtype == TYPE_DOMAIN {
      AddSuffixMeansRule(index, e.value, host);
    }
  }

  /** The index built by any sequence of adds agrees with a linear scan of the rules. */
  lemma {:induction false} IndexAgreesWithRules(index: Index, entries: seq<Entry>, host: string)
    requires forall i :: 0 <= i < |entries| ==> Clean(entries[i])
    ensures AddAll(index, entries).Matches(host) <==>
              index.Matches(host) || exists i :: 0 <= i < |entries| && RuleMatches(entries[i], host)
    decreases entries
  {
    if entries != [] {
      var e, rest := entries[0], entries[1..];
      AddMeansRule(index, e, host);
      IndexAgreesWithRules(index.Add(e.dtype, e.value), rest, host);
      assert forall i :: 0 <= i < |rest| ==> rest[i] == entries[i + 1];
      if exists i :: 0 <= i < |entries| && RuleMatches(entries[i], host) {
        var i :| 0 <= i < |entries| && RuleMatches(entries[i], host);
        if i > 0 { assert rest[i - 1] == entries[i]; }
      }
    }
  }

  /** How many entries are regular expressions, not counting values of nothing but dots. */
  function RegexCount(entries: seq<Entry>): nat
    decreases entries
  {
    if entries == [] then 0
    else (if entries[0].dtype == 1 && TrimEnd(entries[0].value, '.') != [] then 1 else 0) + RegexCount(entries[1..])
  }

  /** The index counts the regular expressions it does not match. */
  lemma {:induction false} SkippedAreCounted(index: Index, entries: seq<Entry>)
    ensures AddAll(index, entries).skippedRegex == index.skippedRegex + RegexCount(entries)
    decreases entries
  {
    if entries != [] {
      SkippedAreCounted(index.Add(entries[0].dtype, entries[0].value), entries[1..]);
    }
  }

  /** An unclean `Full` value: the index drops dots that the rule keeps. */
  lemma UncleanFull(v: string) returns (host: string)
    requires !Clean(Entry(TYPE_FULL, v))
    ensures EmptyIndex.Add(TYPE_FULL, v).Matches(host) != RuleMatches(Entry(TYPE_FULL, v), host)
  {
    host := TrimEnd(v, '.');
    assert TrimEnd(host, '.') == host;
  }

  lemma OneSuffix(v: string, host: string)
    requires TrimEnd(v, '.') != []
    ensures EmptyIndex.Add(TYPE_DOMAIN, v).Matches(host) <==> UnderDomain(HostName(host), Lower(TrimEnd(v, '.')))
  {
    var d := Lower(TrimEnd(v, '.'));
    assert EmptyIndex.Add(TYPE_DOMAIN, v) == Index({}, {d}, [], 0);
  }

  lemma LowerLast(s: string)
    ensures s != [] ==> (Lower(s)[|s| - 1] == '.' <==> s[|s| - 1] == '.')
  {
  }

  lemma NotUnderDotted(h: string, d: string)
    requires h != [] && h[|h| - 1] != '.' && (d == [] || d[|d| - 1] == '.')
    ensures !UnderDomain(h, d)
  {
    assert ("." + d)[|d|] == '.';
  }

  lemma {:induction false} SuffixWithTrailingDot(v: string)
    requires TrimEnd(v, '.') != [] && v[|v| - 1] == '.'
    ensures EmptyIndex.Add(TYPE_DOMAIN, v).Matches(TrimEnd(v, '.'))
    ensures !RuleMatches(Entry(TYPE_DOMAIN, v), TrimEnd(v, '.'))
  {
    var t, d := TrimEnd(v, '.'), TrimStart(v, '.');
    assert TrimEnd(t, '.') == t;
    OneSuffix(v, t);
    assert d != [] ==> d[|d| - 1] == '.';
    LowerLast(d);
    LowerLast(t);
    NotUnderDotted(Lower(t), Lower(d));
  }

  lemma NotUnderLonger(h: string, d: string)
    requires |h| < |d|
    ensures !UnderDomain(h, d)
  {
  }

  lemma LeadingDotTrimmed(v: string) returns (d: string)
    requires v != [] && v[0] == '.' && v[|v| - 1] != '.'
    ensures d == TrimStart(v, '.') && |d| < |v| && HostName(d) == Lower(d) && TrimEnd(v, '.') == v
  {
    d := TrimStart(v, '.');
    assert d != [] && d[|d| - 1] == v[|v| - 1];
  }

  lemma SuffixWithLeadingDot(v: string) returns (d: string)
    requires v != [] && v[0] == '.' && v[|v| - 1] != '.'
    ensures !EmptyIndex.Add(TYPE_DOMAIN, v).Matches(d)
    ensures RuleMatches(Entry(TYPE_DOMAIN, v), d)
  {
    d := LeadingDotTrimmed(v);
    OneSuffix(v, d);
    NotUnderLonger(Lower(d), Lower(v));
  }

  lemma UncleanSuffix(v: string) returns (host: string)
    requires !Clean(Entry(TYPE_DOMAIN, v))
    ensures EmptyIndex.Add(TYPE_DOMAIN, v).Matches(host) != RuleMatches(Entry(TYPE_DOMAIN, v), host)
  {
    if TrimEnd(v, '.') == [] {
      assert TrimStart(v, '.') == [];
      host := "";
    } else if v[|v| - 1] == '.' {
      SuffixWithTrailingDot(v);
      host := TrimEnd(v, '.');
    } else {
      host := SuffixWithLeadingDot(v);
    }
  }

  lemma UncleanKeyword(v: string) returns (host: string)
    requires !Clean(Entry(TYPE_PLAIN, v))
    ensures EmptyIndex.Add(TYPE_PLAIN, v).Matches(host) != RuleMatches(Entry(TYPE_PLAIN, v), host)
  {
    var t := TrimEnd(v, '.');
    var more := EmptyIndex.Add(TYPE_PLAIN, v);
    if t != [] {
      host := t;
      assert TrimEnd(host, '.') == host;
      assert OccursAt(Lower(t), Lower(t), 0);
      assert more.keyword[0] == Lower(t);
    } else {
      host := "a" + v + "a";
      assert TrimEnd(host, '.') == host;
      assert OccursAt(Lower(host), Lower(v), 1);
    }
  }

  /** Index and rule agree on every host exactly for the clean entries. */
  lemma AgreesIffClean(e: Entry)
    ensures Clean(e) <==> forall host :: EmptyIndex.Add(e.dtype, e.value).Matches(host) <==> RuleMatches(e, host)
  {
    if Clean(e) {
      forall host ensures EmptyIndex.Add(e.dtype, e.value).Matches(host) <==> RuleMatches(e, host) {
        AddMeansRule(EmptyIndex, e, host);
      }
    } else if e.dtype == TYPE_FULL {
      var host := UncleanFull(e.value);
    } else if e.dtype == TYPE_DOMAIN {
      var host := UncleanSuffix(e.value);
    } else {
      var host := UncleanKeyword(e.value);
    }
  }

  // ----- the mutable set -----

  class DomainSet {
    var full: set<string>
    var suffix: set<string>
    var keyword: seq<string>
    var skippedRegex: nat

    function View(): Index
      reads this
    {
      Index(full, suffix, keyword, skippedRegex)
    }

    constructor ()
      ensures View() == EmptyIndex
    {
      full, suffix, keyword, skippedRegex := {}, {}, [], 0;
    }

    method Add(dtype: nat, value: string)
      modifies this
      ensures View() == old(View()).Add(dtype, value)
    {
      var v := Lower(TrimEnd(value, '.'));
      if v == [] { return; }
      if dtype == TYPE_FULL {
        full := full + {v};
      } else if dtype == TYPE_DOMAIN {
        suffix := suffix + {v};
      } else if dtype == TYPE_PLAIN {
        keyword := keyword + [v];
      } else if dtype == TYPE_REGEX {
        skippedRegex := skippedRegex + 1;
      }
    }

    /** The dot-by-dot walk over the host's parents finds every suffix entry it lies under. */
    method WalkParents(h: string) returns (matched: bool)
      requires h !in suffix
      ensures matched <==> exists d :: d in suffix && UnderDomain(h, d)
    {
      var rest := h;
      var pos := Find(rest, '.');
      while pos.Some?
        invariant |rest| <= |h| && rest == h[|h| - |rest|..]
        invariant pos == Find(rest, '.')
        invariant forall d :: d in suffix && UnderDomain(h, d) ==> |d| < |rest|
        decreases |rest|
      {
        ParentIsNext(h, rest, pos.value);
        rest := rest[pos.value + 1..];
        if rest in suffix { return true; }
        pos := Find(rest, '.');
      }
      NoParentLeft(h, rest);
      return false;
    }

    method AnyKeyword(h: string) returns (matched: bool)
      ensures matched <==> exists i :: 0 <= i < |keyword| && Contains(h, keyword[i])
    {
      var i := 0;
      while i < |keyword|
        invariant 0 <= i <= |keyword|
        invariant forall j :: 0 <= j < i ==> !Contains(h, keyword[j])
      {
        var found := HasSubstring(h, keyword[i]);
        if found { return true; }
        i := i + 1;
      }
      return false;
    }

    method Matches(host: string) returns (matched: bool)
      ensures matched <==> View().Matches(host)
    {
      var h := HostName(host);
      if h in full { return true; }
      if suffix != {} {
        if h in suffix { return true; }
        var under := WalkParents(h);
        if under { return true; }
      }
      matched := AnyKeyword(h);
    }
  }

  /** `str::contains`. */
  method HasSubstring(s: string, sub: string) returns (found: bool)
    ensures found <==> Contains(s, sub)
  {
    var i := 0;
    while i + |sub| <= |s|
      invariant forall j :: OccursAt(s, sub, j) ==> i <= j
    {
      if s[i..i + |sub|] == sub {
        assert OccursAt(s, sub, i);
        return true;
      }
      i := i + 1;
    }
    return false;
  }

  lemma DotAbove(h: string, d: string)
    requires UnderDomain(h, d)
    ensures d == h || (|d| < |h| && h[|h| - |d| - 1] == '.' && d == h[|h| - |d|..])
  {
    if d != h {
      assert ("." + d)[0] == '.' && d == ("." + d)[1..];
    }
  }

  lemma TailOfTail(h: string, rest: string, k: nat)
    requires |rest| <= |h| && rest == h[|h| - |rest|..] && k <= |rest|
    ensures rest[k..] == h[|h| - (|rest| - k)..]
    ensures k < |rest| ==> rest[k] == h[|h| - |rest| + k]
  {
  }

  lemma ParentNotLonger(h: string, rest: string, pos: nat, d: string)
    requires |rest| <= |h| && rest == h[|h| - |rest|..]
    requires Find(rest, '.') == Some(pos) && UnderDomain(h, d) && |d| < |rest|
    ensures |d| < |rest| - pos - 1 || d == rest[pos + 1..]
  {
    DotAbove(h, d);
    var at := |rest| - |d| - 1;
    TailOfTail(h, rest, at);
    assert rest[at] == '.';
    TailOfTail(h, rest, pos + 1);
  }

  /** Of the domains above `h` shorter than `rest`, the longest is what follows `rest`'s first dot. */
  lemma ParentIsNext(h: string, rest: string, pos: nat)
    requires |rest| <= |h| && rest == h[|h| - |rest|..]
    requires Find(rest, '.') == Some(pos)
    ensures rest[pos + 1..] == h[|h| - (|rest| - pos - 1)..]
    ensures UnderDomain(h, rest[pos + 1..])
    ensures forall d :: UnderDomain(h, d) && |d| < |rest| ==> |d| < |rest| - pos - 1 || d == rest[pos + 1..]
  {
    TailOfTail(h, rest, pos);
    TailOfTail(h, rest, pos + 1);
    assert "." + rest[pos + 1..] == rest[pos..];
    forall d | UnderDomain(h, d) && |d| < |rest| ensures |d| < |rest| - pos - 1 || d == rest[pos + 1..] {
      ParentNotLonger(h, rest, pos, d);
    }
  }

  lemma NoParentLeft(h: string, rest: string)
    requires |rest| <= |h| && rest == h[|h| - |rest|..] && Find(rest, '.').None?
    ensures forall d :: UnderDomain(h, d) ==> |d| >= |rest|
  {
    assert forall j :: |h| - |rest| <= j < |h| ==> h[j] == rest[j - (|h| - |rest|)];
    forall d | UnderDomain(h, d) ensures |d| >= |rest| {
      DotAbove(h, d);
    }
  }
}
