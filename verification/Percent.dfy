/** Percent-encoding (section 2.1 of RFC 3986): `pct` of the command line, `percent_decode` of the core. */
module Percent {
  import opened Wrappers
  import opened Sequences
  import opened ByteText

  /** `hex_val`. */
  function HexVal(c: char): (r: Option<nat>)
    ensures r.Some? ==> r.value < 16
  {
    if '0' <= c <= '9' then Some(c as int - '0' as int)
    else if 'a' <= c <= 'f' then Some(c as int - 'a' as int + 10)
    else if 'A' <= c <= 'F' then Some(c as int - 'A' as int + 10)
    else None
  }

  /** `{:X}` of one nibble. */
  function HexDigit(v: nat): (c: char)
    requires v < 16
    ensures HexVal(c) == Some(v)
    ensures Unreserved(c)
  {
    if v < 10 then ('0' as int + v) as char else ('A' as int + v - 10) as char
  }

  predicate Unreserved(c: char) {
    || 'A' <= c <= 'Z' || 'a' <= c <= 'z' || '0' <= c <= '9'
    || c == '-' || c == '_' || c == '.' || c == '~'
  }

  function PctByte(c: char): (s: string)
    requires c as int < 256
    ensures |s| > 0
  {
    if Unreserved(c) then [c] else ['%', HexDigit(c as int / 16), HexDigit(c as int % 16)]
  }

  /** `pct`: every byte but the unreserved ones is escaped. */
  function Pct(s: string): string
    requires IsByteText(s)
  {
    if s == [] then [] else PctByte(s[0]) + Pct(s[1..])
  }

  /** An escape needs a percent sign and two hexadecimal digits after it. */
  predicate IsEscape(s: string) {
    |s| > 2 && s[0] == '%' && HexVal(s[1]).Some? && HexVal(s[2]).Some?
  }

  /** `percent_decode`: anything that is not an escape stays, a plus sign included. */
  function PercentDecode(s: string): string {
    if s == [] then []
    else if IsEscape(s) then [(HexVal(s[1]).value * 16 + HexVal(s[2]).value) as char] + PercentDecode(s[3..])
    else [s[0]] + PercentDecode(s[1..])
  }

  lemma DecodePctByte(c: char, rest: string)
    requires c as int < 256
    ensures PercentDecode(PctByte(c) + rest) == [c] + PercentDecode(rest)
  {
    var s := PctByte(c) + rest;
    if Unreserved(c) {
      assert !IsEscape(s) && s[1..] == rest;
    } else {
      assert s[1] == HexDigit(c as int / 16) && s[2] == HexDigit(c as int % 16);
      assert s[3..] == rest;
    }
  }

  /** Decoding undoes encoding for every byte string. */
  lemma {:induction false} PctRoundTrip(s: string)
    requires IsByteText(s)
    ensures PercentDecode(Pct(s)) == s
  {
    if s != [] {
      PctRoundTrip(s[1..]);
      DecodePctByte(s[0], Pct(s[1..]));
      assert s == [s[0]] + s[1..];
    }
  }

  /** An encoded value holds none of the characters that delimit the parts of a link. */
  lemma {:induction false} PctIsInert(s: string)
    requires IsByteText(s)
    ensures forall i :: 0 <= i < |Pct(s)| ==> Unreserved(Pct(s)[i]) || Pct(s)[i] == '%'
    ensures Pct(s) == [] <==> s == []
  {
    if s != [] { PctIsInert(s[1..]); }
  }

  const UPPER_HEX := "0123456789ABCDEF"
  const LOWER_HEX := "0123456789abcdef"

  /** An escape: a percent sign and the two digits of `v`, each in either case. */
  predicate Escapes(s: string, v: nat) {
    && v < 256 && |s| == 3 && s[0] == '%'
    && (s[1] == UPPER_HEX[v / 16] || s[1] == LOWER_HEX[v / 16])
    && (s[2] == UPPER_HEX[v % 16] || s[2] == LOWER_HEX[v % 16])
  }

  lemma HexDigits(v: nat)
    requires v < 16
    ensures HexVal(UPPER_HEX[v]) == HexVal(LOWER_HEX[v]) == Some(v)
    ensures HexDigit(v) == UPPER_HEX[v]
  {
  }

  lemma HexValIff(c: char, v: nat)
    requires v < 16
    ensures HexVal(c) == Some(v) <==> c == UPPER_HEX[v] || c == LOWER_HEX[v]
  {
    HexDigits(v);
  }

  /** Decoding replaces an escape by its byte, digits in either case, ... */
  lemma EscapeIsReplaced(s: string, v: nat)
    requires |s| >= 3 && Escapes(s[..3], v)
    ensures PercentDecode(s) == [v as char] + PercentDecode(s[3..])
  {
    HexValIff(s[1], v / 16);
    HexValIff(s[2], v % 16);
  }

  lemma NibblesOf(h: nat, l: nat)
    requires h < 16 && l < 16
    ensures (16 * h + l) / 16 == h && (16 * h + l) % 16 == l
  {
  }

  lemma {:induction false} EscapeHasValue(s: string) returns (v: nat)
    requires IsEscape(s)
    ensures Escapes(s[..3], v)
  {
    var h, l := HexVal(s[1]).value, HexVal(s[2]).value;
    HexValIff(s[1], h);
    HexValIff(s[2], l);
    NibblesOf(h, l);
    v := 16 * h + l;
  }

  /** ... and keeps every character that starts none. */
  lemma {:induction false} OtherCharacterStays(s: string)
    requires s != [] && (|s| < 3 || forall v :: !Escapes(s[..3], v))
    ensures PercentDecode(s) == [s[0]] + PercentDecode(s[1..])
  {
    if IsEscape(s) {
      var v := EscapeHasValue(s);
    }
  }

  /** Letters, digits and -._~ stand for themselves, and every other byte is an upper-case escape. */
  lemma EncodedCharacter(c: char)
    requires c as int < 256
    ensures var plain := 'A' <= c <= 'Z' || 'a' <= c <= 'z' || '0' <= c <= '9' || c in "-._~";
            Pct([c]) == if plain then [c] else ['%', UPPER_HEX[c as int / 16], UPPER_HEX[c as int % 16]]
  {
    HexDigits(c as int / 16);
    HexDigits(c as int % 16);
    assert [c][1..] == [] && PctByte(c) + [] == PctByte(c);
  }

  /** Text without a percent sign decodes to itself. */
  lemma {:induction false} DecodePlain(s: string)
    requires '%' !in s
    ensures PercentDecode(s) == s
  {
    if s != [] {
      assert '%' !in s[1..];
      DecodePlain(s[1..]);
      assert s == [s[0]] + s[1..];
    }
  }

  /** Decoding never lengthens. */
  lemma {:induction false} DecodeIsNoLonger(s: string)
    ensures |PercentDecode(s)| <= |s|
  {
    if s != [] { DecodeIsNoLonger(if IsEscape(s) then s[3..] else s[1..]); }
  }

  lemma EscapeIsLocal(a: string, c: char, b: string)
    requires a != [] && HexVal(c).None?
    ensures var s := a + ([c] + b);
            && s[0] == a[0] && s[1..] == a[1..] + ([c] + b)
            && (IsEscape(s) <==> IsEscape(a))
            && (IsEscape(a) ==> s[1] == a[1] && s[2] == a[2] && s[3..] == a[3..] + ([c] + b))
  {
    var s := a + ([c] + b);
    assert |a| == 1 ==> s[1] == c;
    assert |a| == 2 ==> s[2] == c;
  }

  /** A character that no escape can hold is decoded on its own, whatever stands around it. */
  lemma {:induction false} DecodeAround(a: string, c: char, b: string)
    requires c != '%' && HexVal(c).None?
    ensures PercentDecode(a + ([c] + b)) == PercentDecode(a) + ([c] + PercentDecode(b))
    decreases |a|
  {
    var tail := [c] + PercentDecode(b);
    if a == [] {
      assert a + ([c] + b) == [c] + b && ([c] + b)[1..] == b;
      assert [] + tail == tail;
    } else {
      EscapeIsLocal(a, c, b);
      if IsEscape(a) {
        DecodeAround(a[3..], c, b);
        Regroup([(HexVal(a[1]).value * 16 + HexVal(a[2]).value) as char], PercentDecode(a[3..]), tail);
      } else {
        DecodeAround(a[1..], c, b);
        Regroup([a[0]], PercentDecode(a[1..]), tail);
      }
    }
  }

  // ----- the loops of the source -----

  method EncodeText(s: string) returns (out: string)
    requires IsByteText(s)
    ensures out == Pct(s)
  {
    out := "";
    var i := 0;
    assert s[0..] == s && out + Pct(s) == Pct(s);
    while i < |s|
      invariant 0 <= i <= |s|
      invariant Pct(s) == out + Pct(s[i..])
    {
      assert s[i..][1..] == s[i + 1..];
      Regroup(out, PctByte(s[i]), Pct(s[i + 1..]));
      if Unreserved(s[i]) {
        out := out + [s[i]];
      } else {
        out := out + ['%', HexDigit(s[i] as int / 16), HexDigit(s[i] as int % 16)];
      }
      i := i + 1;
    }
    assert s[i..] == [] && out + [] == out;
  }

  method DecodeText(s: string) returns (out: string)
    ensures out == PercentDecode(s)
  {
    out := "";
    var i := 0;
    assert s[0..] == s && out + PercentDecode(s) == PercentDecode(s);
    while i < |s|
      invariant 0 <= i <= |s|
      invariant PercentDecode(s) == out + PercentDecode(s[i..])
    {
      if s[i] == '%' && i + 2 < |s| {
        var h, l := HexVal(s[i + 1]), HexVal(s[i + 2]);
        if h.Some? && l.Some? {
          var c := (h.value * 16 + l.value) as char;
          assert s[i..][3..] == s[i + 3..];
          Regroup(out, [c], PercentDecode(s[i + 3..]));
          out := out + [c];
          i := i + 3;
          continue;
        }
      }
      assert s[i..][1..] == s[i + 1..];
      Regroup(out, [s[i]], PercentDecode(s[i + 1..]));
      out := out + [s[i]];
      i := i + 1;
    }
    assert s[i..] == [] && out + [] == out;
  }
}
