/** Addresses and subnets: `crates/core/src/split/cidr.rs`. */
module Cidr {
  import opened Bits

  type u32 = n: int | 0 <= n < 0x1_0000_0000
  type u128 = n: int | 0 <= n < 0x1_0000_0000_0000_0000_0000_0000_0000_0000

  datatype IpAddr = V4(v4: u32) | V6(v6: u128) {
    function Width(): (w: nat) {
      if V4? then 32 else 128
    }

    function Word(): nat {
      if V4? then v4 else v6
    }
  }

  datatype IpCidr = IpCidr(base: IpAddr, prefix: byte) {
    predicate Valid() {
      prefix <= base.Width()
    }
  }

  /** The mask of `v4_match` (w = 32) and `v6_match` (w = 128). */
  function WordMask(w: nat, prefix: nat): nat {
    if prefix == 0 then 0
    else if prefix >= w then Pow2(w) - 1
    else MaxShl(w, w - prefix)
  }

  predicate Contains(c: IpCidr, ip: IpAddr) {
    match (c.base, ip)
    case (V4(base), V4(addr)) => And(base, WordMask(32, c.prefix)) == And(addr, WordMask(32, c.prefix))
    case (V6(base), V6(addr)) => And(base, WordMask(128, c.prefix)) == And(addr, WordMask(128, c.prefix))
    case _ => false
  }

  predicate AnyContains(cidrs: seq<IpCidr>, ip: IpAddr) {
    exists i :: 0 <= i < |cidrs| && Contains(cidrs[i], ip)
  }

  // ----- the arithmetic meaning of a prefix -----

  /** `a` and `b` agree on their first `prefix` bits. */
  predicate SamePrefix(w: nat, a: nat, b: nat, prefix: nat)
    requires prefix <= w
  {
    a / Pow2(w - prefix) == b / Pow2(w - prefix)
  }

  lemma WordBounds(ip: IpAddr)
    ensures ip.Word() < Pow2(ip.Width())
  {
    Pow2Words();
  }

  lemma ClearRemainder(x: nat, k: nat)
    requires 0 < k
    ensures x - x % k == k * (x / k)
  {
  }

  lemma WordMaskIsHighBits(w: nat, prefix: nat)
    requires prefix <= w
    ensures WordMask(w, prefix) == Pow2(w) - Pow2(w - prefix)
  {
    MaxShlIsHighBits(w, w - prefix);
  }

  lemma MaskedQuotient(x: nat, w: nat, prefix: nat)
    requires prefix <= w && x < Pow2(w)
    ensures And(x, WordMask(w, prefix)) == Pow2(w - prefix) * (x / Pow2(w - prefix))
  {
    WordMaskIsHighBits(w, prefix);
    AndHighBits(x, w, w - prefix);
    ClearRemainder(x, Pow2(w - prefix));
  }

  lemma EqualMultiples(k: nat, x: nat, y: nat)
    requires 0 < k
    ensures k * x == k * y <==> x == y
  {
    if x < y { MulMonotone(k, x + 1, y); } else if y < x { MulMonotone(k, y + 1, x); }
  }

  lemma MaskMatchIsSamePrefix(w: nat, a: nat, b: nat, prefix: nat)
    requires prefix <= w && a < Pow2(w) && b < Pow2(w)
    ensures And(a, WordMask(w, prefix)) == And(b, WordMask(w, prefix)) <==> SamePrefix(w, a, b, prefix)
  {
    MaskedQuotient(a, w, prefix);
    MaskedQuotient(b, w, prefix);
    EqualMultiples(Pow2(w - prefix), a / Pow2(w - prefix), b / Pow2(w - prefix));
  }

  /** `IpCidr::contains` on every subnet it can hold: same family and same leading bits. */
  lemma ContainsIsSamePrefix(c: IpCidr, ip: IpAddr)
    requires c.Valid()
    ensures Contains(c, ip) <==>
              c.base.V4? == ip.V4? && SamePrefix(ip.Width(), c.base.Word(), ip.Word(), c.prefix)
  {
    if c.base.V4? == ip.V4? {
      WordBounds(c.base);
      WordBounds(ip);
      MaskMatchIsSamePrefix(ip.Width(), c.base.Word(), ip.Word(), c.prefix);
    }
  }

  // ----- addresses as octets -----

  /** The big-endian value of a string of octets. */
  function Value(octets: seq<byte>): nat {
    if octets == [] then 0 else octets[0] * Pow2(8 * (|octets| - 1)) + Value(octets[1..])
  }

  /** `Ipv4Addr::octets` (n = 4) and `Ipv6Addr::octets` (n = 16). */
  function Octets(x: nat, n: nat): (o: seq<byte>)
    ensures |o| == n
  {
    if n == 0 then [] else Octets(x / 256, n - 1) + [x % 256]
  }

  lemma {:induction false} ValueBound(octets: seq<byte>)
    ensures Value(octets) < Pow2(8 * |octets|)
  {
    if octets != [] {
      ValueBound(octets[1..]);
      Pow2Words();
      var k := Pow2(8 * (|octets| - 1));
      Pow2Add(8, 8 * (|octets| - 1));
      MulMonotone(k, octets[0], 255);
    }
  }

  lemma ShiftOctet(head: nat, k: nat, rest: nat, last: nat)
    ensures head * (256 * k) + (256 * rest + last) == 256 * (head * k + rest) + last
  {
  }

  lemma {:induction false} ValueAppend(octets: seq<byte>, last: byte)
    ensures Value(octets + [last]) == 256 * Value(octets) + last
  {
    var all := octets + [last];
    if octets == [] {
      assert all[1..] == [];
      assert Pow2(0) == 1;
    } else {
      ValueAppend(octets[1..], last);
      assert all[1..] == octets[1..] + [last];
      Pow2Words();
      Pow2Add(8, 8 * (|octets| - 1));
      assert 8 + 8 * (|octets| - 1) == 8 * (|all| - 1);
      ShiftOctet(octets[0], Pow2(8 * (|octets| - 1)), Value(octets[1..]), last);
    }
  }

  lemma {:induction false} ValueOfOctets(x: nat, n: nat)
    requires x < Pow2(8 * n)
    ensures Value(Octets(x, n)) == x
  {
    if n > 0 {
      Pow2Words();
      Pow2Add(8, 8 * (n - 1));
      assert 8 + 8 * (n - 1) == 8 * n;
      assert x / 256 < Pow2(8 * (n - 1));
      ValueOfOctets(x / 256, n - 1);
      ValueAppend(Octets(x / 256, n - 1), x % 256);
    }
  }
}
