/** Domain criteria of routing rules: `crates/core/src/routing/domain.rs`. */
module DomainRules {
  import opened Ascii

  /** The host as every matcher sees it: no trailing dots, lower case. */
  function HostName(host: string): string {
    Lower(TrimEnd(host, '.'))
  }

  /** `h` is the domain `d` or lies below it. */
  predicate UnderDomain(h: string, d: string) {
    h == d || EndsWith(h, "." + d)
  }

  datatype DomainRule = Full(full: string) | Suffix(suffix: string) | Keyword(keyword: string) {
    predicate Matches(host: string) {
      var h := HostName(host);
      match this
      case Full(d) => h == Lower(d)
      case Suffix(d) => UnderDomain(h, Lower(TrimStart(d, '.')))
      case Keyword(k) => Contains(h, Lower(k))
    }
  }

  // ----- what the three kinds mean -----

  lemma {:induction false} LowerSlice(s: string, i: nat, j: nat)
    requires i <= j <= |s|
    ensures Lower(s[i..j]) == Lower(s)[i..j]
  {
    assert forall k :: 0 <= k < j - i ==> Lower(s[i..j])[k] == Lower(s)[i..j][k];
  }

  /** A full name matches itself, ignoring case and dots behind the host. */
  lemma FullMeaning(d: string, host: string)
    ensures Full(d).Matches(host) <==> EqIgnoreCase(TrimEnd(host, '.'), d)
  {
  }

  ghost predicate HoldsAt(h: string, k: string, i: nat) {
    i + |k| <= |h| && EqIgnoreCase(h[i..i + |k|], k)
  }

  lemma {:induction false} OccursIff(h: string, k: string, i: nat)
    ensures OccursAt(Lower(h), Lower(k), i) <==> HoldsAt(h, k, i)
  {
    if i + |k| <= |h| { LowerSlice(h, i, i + |k|); }
  }

  ghost predicate HoldsSomewhere(h: string, k: string) {
    exists i: nat :: HoldsAt(h, k, i)
  }

  lemma {:induction false} ContainsIff(h: string, k: string)
    ensures Contains(Lower(h), Lower(k)) <==> HoldsSomewhere(h, k)
  {
    if Contains(Lower(h), Lower(k)) {
      var i :| 0 <= i <= |h| - |k| && OccursAt(Lower(h), Lower(k), i);
      OccursIff(h, k, i);
    }
    if HoldsSomewhere(h, k) {
      var i: nat :| HoldsAt(h, k, i);
      OccursIff(h, k, i);
    }
  }

  /** A keyword matches the hosts that hold it somewhere, ignoring case. */
  lemma {:induction false} KeywordMeaning(k: string, host: string)
    ensures Keyword(k).Matches(host) <==> HoldsSomewhere(TrimEnd(host, '.'), k)
  {
    ContainsIff(TrimEnd(host, '.'), k);
  }

  lemma {:induction false} DottedEnd(h: string, t: string)
    ensures EndsWith(h, "." + t) <==> |t| < |h| && h[|h| - |t| - 1] == '.' && h[|h| - |t|..] == t
  {
    var dotted := "." + t;
    if |t| < |h| {
      var end := h[|h| - |t| - 1..];
      assert end == [end[0]] + h[|h| - |t|..];
      assert dotted[0] == '.' && dotted[1..] == t;
      assert end == dotted ==> end[1..] == t;
    }
  }

  lemma {:induction false} LowerDot(h: string, i: nat)
    requires i < |h|
    ensures Lower(h)[i] == '.' <==> h[i] == '.'
  {
  }

  /** `h` is the domain `t` or has it behind a dot, ignoring case. */
  predicate AtOrBelow(h: string, t: string) {
    || EqIgnoreCase(h, t)
    || (|t| < |h| && h[|h| - |t| - 1] == '.' && EqIgnoreCase(h[|h| - |t|..], t))
  }

  lemma {:induction false} UnderDomainIff(h: string, t: string)
    ensures UnderDomain(Lower(h), Lower(t)) <==> AtOrBelow(h, t)
  {
    DottedEnd(Lower(h), Lower(t));
    if |t| < |h| {
      LowerDot(h, |h| - |t| - 1);
      LowerSlice(h, |h| - |t|, |h|);
    }
  }

  /** A suffix, leading dots aside, matches its domain and every host with more labels in front. */
  lemma {:induction false} SuffixMeaning(d: string, host: string)
    ensures Suffix(d).Matches(host) <==> AtOrBelow(TrimEnd(host, '.'), TrimStart(d, '.'))
  {
    UnderDomainIff(TrimEnd(host, '.'), TrimStart(d, '.'));
  }
}
