/** String operations the source takes from the Rust standard library. */
module Ascii {
  import opened Wrappers

  function LowerChar(c: char): (l: char)
    ensures c != '.' <==> l != '.'
  {
    if 'A' <= c <= 'Z' then (c as int + 32) as char else c
  }

  /** `to_ascii_lowercase`. */
  function Lower(s: string): (r: string)
    ensures |r| == |s|
    ensures forall i :: 0 <= i < |s| ==> r[i] == LowerChar(s[i])
  {
    if s == [] then [] else Lower(s[..|s| - 1]) + [LowerChar(s[|s| - 1])]
  }

  /** `eq_ignore_ascii_case`. */
  predicate EqIgnoreCase(a: string, b: string) {
    Lower(a) == Lower(b)
  }

  /** The same character, or the two cases of one ASCII letter. */
  predicate SameButCase(c: char, d: char) {
    || c == d
    || ('A' <= c <= 'Z' && d as int == c as int + 32)
    || ('A' <= d <= 'Z' && c as int == d as int + 32)
  }

  lemma EqIgnoreCaseIff(a: string, b: string)
    ensures EqIgnoreCase(a, b) <==> |a| == |b| && forall i :: 0 <= i < |a| ==> SameButCase(a[i], b[i])
  {
    if EqIgnoreCase(a, b) {
      assert forall i :: 0 <= i < |a| ==> Lower(a)[i] == Lower(b)[i];
    }
  }

  /** `trim_end_matches(c)`. */
  function TrimEnd(s: string, c: char): (r: string)
    ensures r <= s
    ensures r == [] || r[|r| - 1] != c
    ensures s == [] || s[|s| - 1] != c ==> r == s
    ensures forall i :: |r| <= i < |s| ==> s[i] == c
  {
    if s != [] && s[|s| - 1] == c then TrimEnd(s[..|s| - 1], c) else s
  }

  /** `trim_start_matches(c)`. */
  function TrimStart(s: string, c: char): (r: string)
    ensures |r| <= |s| && r == s[|s| - |r|..]
    ensures r == [] || r[0] != c
    ensures s == [] || s[0] != c ==> r == s
    ensures forall i :: 0 <= i < |s| - |r| ==> s[i] == c
  {
    if s != [] && s[0] == c then
      var r := TrimStart(s[1..], c);
      assert forall i :: 1 <= i < |s| - |r| ==> s[i] == s[1..][i - 1];
      r
    else s
  }

  predicate IsSpace(c: char) {
    9 <= c as int <= 13 || c == ' '
  }

  /** `trim`, for ASCII white space. */
  function Trim(s: string): string
    decreases |s|
  {
    if s != [] && IsSpace(s[0]) then Trim(s[1..])
    else if s != [] && IsSpace(s[|s| - 1]) then Trim(s[..|s| - 1])
    else s
  }

  lemma TrimOfNonBlank(s: string, i: nat)
    requires i < |s| && !IsSpace(s[i])
    ensures Trim(s) != ""
    decreases |s|
  {
    if IsSpace(s[0]) {
      TrimOfNonBlank(s[1..], i - 1);
    } else if IsSpace(s[|s| - 1]) {
      TrimOfNonBlank(s[..|s| - 1], i);
    }
  }

  predicate Blank(s: string) {
    forall i :: 0 <= i < |s| ==> IsSpace(s[i])
  }

  lemma TrimOfBlank(s: string)
    requires Blank(s)
    ensures Trim(s) == ""
    decreases |s|
  {
    if s != "" { TrimOfBlank(s[1..]); }
  }

  lemma {:induction false} TrimStartBlank(a: string, s: string)
    requires Blank(a)
    ensures Trim(a + s) == Trim(s)
  {
    if a == "" {
      assert a + s == s;
    } else {
      assert (a + s)[1..] == a[1..] + s;
      TrimStartBlank(a[1..], s);
    }
  }

  lemma {:induction false} TrimEndBlank(s: string, b: string)
    requires Blank(b)
    ensures Trim(s + b) == Trim(s)
    decreases |s| + |b|
  {
    if b == "" {
      assert s + b == s;
    } else if Blank(s) {
      TrimOfBlank(s);
      TrimOfBlank(s + b);
    } else if IsSpace(s[0]) {
      assert (s + b)[1..] == s[1..] + b;
      TrimEndBlank(s[1..], b);
    } else {
      assert (s + b)[..|s + b| - 1] == s + b[..|b| - 1];
      TrimEndBlank(s, b[..|b| - 1]);
    }
  }

  /** Trimming drops white space at both ends. */
  lemma TrimPadded(a: string, s: string, b: string)
    requires Blank(a) && Blank(b)
    ensures Trim(a + s + b) == Trim(s)
  {
    TrimEndBlank(a + s, b);
    TrimStartBlank(a, s);
  }

  predicate EndsWith(s: string, suffix: string) {
    |suffix| <= |s| && s[|s| - |suffix|..] == suffix
  }

  predicate OccursAt(s: string, sub: string, i: int) {
    0 <= i <= |s| - |sub| && s[i..i + |sub|] == sub
  }

  predicate Contains(s: string, sub: string) {
    exists i :: 0 <= i <= |s| - |sub| && OccursAt(s, sub, i)
  }

  /** `find(c)`: the first position of a character. */
  function Find(s: string, c: char): (r: Option<nat>)
    ensures r.None? ==> forall i :: 0 <= i < |s| ==> s[i] != c
    ensures r.Some? ==> r.value < |s| && s[r.value] == c && forall i :: 0 <= i < r.value ==> s[i] != c
  {
    if s == [] then None
    else if s[0] == c then Some(0)
    else
      match Find(s[1..], c)
      case None => None
      case Some(i) => Some(i + 1)
  }

  /** `rfind(c)`: the last position of a character. */
  function RFind(s: string, c: char): (r: Option<nat>)
    ensures r.None? ==> forall i :: 0 <= i < |s| ==> s[i] != c
    ensures r.Some? ==> r.value < |s| && s[r.value] == c && forall i :: r.value < i < |s| ==> s[i] != c
  {
    if s == [] then None
    else
      var last := |s| - 1;
      if s[last] == c then Some(last) else RFind(s[..last], c)
  }

  lemma LowerConcat(a: string, b: string)
    ensures Lower(a + b) == Lower(a) + Lower(b)
  {
  }

  /** The first occurrence of `c` in a string that spells it out. */
  lemma {:induction false} FindFirst(a: string, c: char, b: string)
    requires c !in a
    ensures Find(a + [c] + b, c) == Some(|a|)
  {
    if a != [] {
      FindFirst(a[1..], c, b);
      assert (a + [c] + b)[1..] == a[1..] + [c] + b;
    }
  }

  /** The last occurrence of `c` in a string that spells it out. */
  lemma {:induction false} FindLast(a: string, c: char, b: string)
    requires c !in b
    ensures RFind(a + [c] + b, c) == Some(|a|)
  {
    var s := a + [c] + b;
    if b != [] {
      var n := |b| - 1;
      FindLast(a, c, b[..n]);
      assert s[..|s| - 1] == a + [c] + b[..n];
      assert s[|s| - 1] == b[n];
    }
  }

  lemma FindNone(s: string, c: char)
    requires c !in s
    ensures Find(s, c) == None && RFind(s, c) == None
  {
  }
}
