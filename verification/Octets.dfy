/** Comparing the first bits of two addresses byte by byte, as the kernel driver does. */
module OctetPrefix {
  import opened Bits
  import opened Cidr

  /** The whole bytes of the prefix are equal, and so are the high bits of the byte it ends in. */
  predicate BytesMatch(a: seq<byte>, b: seq<byte>, prefix: nat)
    requires |a| == |b| && prefix <= 8 * |a|
  {
    var full, rem := prefix / 8, prefix % 8;
    && a[..full] == b[..full]
    && (rem != 0 ==> And(a[full], MaxShl(8, 8 - rem)) == And(b[full], MaxShl(8, 8 - rem)))
  }

  lemma SplitQuotient(head: nat, low: nat, d: nat, top: nat, w: nat)
    requires 0 < d && low < w == d * top
    ensures (head * w + low) / d == head * top + low / d
    ensures 0 <= low / d < top
  {
    var q := head * top + low / d;
    DivNonNegative(low, d);
    ClearRemainder(low, d);
    Distribute(d, top, head, low / d);
    assert head * w + low == d * q + low % d;
    QuotientUnique(head * w + low, d, q, low % d);
    if low / d >= top { MulMonotone(d, top, low / d); }
  }

  /** Splitting off the leading byte of a quotient by a power of two. */
  lemma HeadQuotient(octets: seq<byte>, k: nat, top: nat) returns (tail: nat)
    requires octets != [] && k <= 8 * (|octets| - 1) && top == Pow2(8 * (|octets| - 1) - k)
    ensures tail == Value(octets[1..]) / Pow2(k)
    ensures Value(octets) / Pow2(k) == octets[0] * top + tail && tail < top
  {
    var m := 8 * (|octets| - 1);
    Pow2Add(k, m - k);
    ValueBound(octets[1..]);
    SplitQuotient(octets[0], Value(octets[1..]), Pow2(k), top, Pow2(m));
    tail := Value(octets[1..]) / Pow2(k);
  }

  lemma HeadsAndTails(x: nat, y: nat, p: nat, q: nat, k: nat)
    requires p < k && q < k
    ensures x * k + p == y * k + q <==> x == y && p == q
  {
    if x * k + p == y * k + q {
      QuotientUnique(x * k + p, k, x, p);
      QuotientUnique(y * k + q, k, y, q);
    }
  }

  /** When the prefix ends inside the first byte only that byte counts. */
  lemma FirstByteQuotient(octets: seq<byte>, prefix: nat)
    requires octets != [] && prefix < 8
    ensures Value(octets) / Pow2(8 * |octets| - prefix) == octets[0] / Pow2(8 - prefix)
  {
    var m := 8 * (|octets| - 1);
    ValueBound(octets[1..]);
    FirstByteOf(octets[0], Value(octets[1..]), Pow2(m), Pow2(8 - prefix));
    Pow2Add(m, 8 - prefix);
    assert m + (8 - prefix) == 8 * |octets| - prefix;
  }

  lemma FirstByteOf(head: nat, low: nat, m: nat, d: nat)
    requires low < m && 0 < d
    ensures 0 < m * d
    ensures (head * m + low) / (m * d) == head / d
  {
    DivModSplit(head * m + low, m, d);
    QuotientUnique(head * m + low, m, head, low);
  }

  lemma {:induction false} FirstByteMatch(a: seq<byte>, b: seq<byte>, prefix: nat)
    requires |a| == |b| > 0 && prefix < 8
    ensures BytesMatch(a, b, prefix) <==> SamePrefix(8 * |a|, Value(a), Value(b), prefix)
  {
    FirstByteQuotient(a, prefix);
    FirstByteQuotient(b, prefix);
    OneByteMatch(a[0], b[0], prefix);
  }

  lemma {:induction false} OneByteMatch(x: byte, y: byte, prefix: nat)
    requires prefix < 8
    ensures prefix == 0 || And(x, MaxShl(8, 8 - prefix)) == And(y, MaxShl(8, 8 - prefix)) <==>
              x / Pow2(8 - prefix) == y / Pow2(8 - prefix)
  {
    Pow2Words();
    if prefix != 0 { MaskMatchIsSamePrefix(8, x, y, prefix); }
  }

  lemma BytesMatchTail(a: seq<byte>, b: seq<byte>, prefix: nat)
    requires |a| == |b| > 0 && 8 <= prefix <= 8 * |a|
    ensures BytesMatch(a, b, prefix) <==> a[0] == b[0] && BytesMatch(a[1..], b[1..], prefix - 8)
  {
    var full := prefix / 8;
    assert (prefix - 8) / 8 == full - 1 && (prefix - 8) % 8 == prefix % 8;
    assert a[..full] == [a[0]] + a[1..][..full - 1];
    assert b[..full] == [b[0]] + b[1..][..full - 1];
    assert a[..full] == b[..full] <==> a[0] == b[0] && a[1..][..full - 1] == b[1..][..full - 1] by {
      assert a[..full][0] == a[0] && b[..full][0] == b[0];
      assert a[..full][1..] == a[1..][..full - 1] && b[..full][1..] == b[1..][..full - 1];
    }
  }

  lemma SamePrefixTail(a: seq<byte>, b: seq<byte>, prefix: nat)
    requires |a| == |b| > 0 && 8 <= prefix <= 8 * |a|
    ensures SamePrefix(8 * |a|, Value(a), Value(b), prefix) <==>
              a[0] == b[0] && SamePrefix(8 * |a[1..]|, Value(a[1..]), Value(b[1..]), prefix - 8)
  {
    QuotientTail(a, b, 8 * |a| - prefix);
    assert 8 * |a[1..]| - (prefix - 8) == 8 * |a| - prefix;
  }

  lemma QuotientTail(a: seq<byte>, b: seq<byte>, k: nat)
    requires |a| == |b| > 0 && k <= 8 * (|a| - 1)
    ensures Value(a) / Pow2(k) == Value(b) / Pow2(k) <==>
              a[0] == b[0] && Value(a[1..]) / Pow2(k) == Value(b[1..]) / Pow2(k)
  {
    var top := Pow2(8 * (|a| - 1) - k);
    var p := HeadQuotient(a, k, top);
    var q := HeadQuotient(b, k, top);
    HeadsAndTails(a[0], b[0], p, q, top);
  }

  /** The byte-wise comparison decides whether the big-endian words share their first bits. */
  lemma {:induction false} BytesMatchIsSamePrefix(a: seq<byte>, b: seq<byte>, prefix: nat)
    requires |a| == |b| && prefix <= 8 * |a|
    ensures BytesMatch(a, b, prefix) <==> SamePrefix(8 * |a|, Value(a), Value(b), prefix)
  {
    if a == [] {
      assert Pow2(0) == 1;
    } else if prefix < 8 {
      FirstByteMatch(a, b, prefix);
    } else {
      BytesMatchTail(a, b, prefix);
      SamePrefixTail(a, b, prefix);
      BytesMatchIsSamePrefix(a[1..], b[1..], prefix - 8);
    }
  }
}
