/**
 The FakeIP allocator of `crates/net/src/fakeip.rs`: two maps and a round-robin cursor, proved to
 hold exactly the most recent `count - 1` fresh allocations.
 */
module FakeIp {
  import opened Bits
  import opened Wrappers
  import opened Sequences
  import opened Cidr

  datatype RangeError = NotACidr | NotIpv4 | TooWide | TooSmall

  /** `1u32 << (32 - prefix)`, and 1 for a single address. */
  function BlockSize(prefix: byte): u32 {
    if prefix >= 32 then 1 else Pow2(32 - prefix) % 0x1_0000_0000
  }

  /** `FakeIp::new` on the result of `IpCidr::parse`: base address and size of the range. */
  function Range(cidr: Option<IpCidr>): Result<(u32, u32), RangeError> {
    Pow2Words();
    if cidr.None? then Err(NotACidr)
    else if cidr.value.base.V6? then Err(NotIpv4)
    else
      var prefix := cidr.value.prefix;
      if prefix == 0 then Err(TooWide)
      else
        var count := BlockSize(prefix);
        if count < 3 then Err(TooSmall)
        else
          AndWord(cidr.value.base.v4, prefix);
          Ok((And(cidr.value.base.v4, MaxShl(32, 32 - prefix)), count))
  }

  lemma {:induction false} AndWord(x: u32, prefix: byte)
    requires prefix < 32
    ensures And(x, MaxShl(32, 32 - prefix)) == x - x % Pow2(32 - prefix) < 0x1_0000_0000
  {
    Pow2Words();
    MaxShlIsHighBits(32, 32 - prefix);
    AndHighBits(x, 32, 32 - prefix);
  }

  lemma {:induction false} BlockSizes(prefix: byte)
    requires 1 <= prefix < 32
    ensures BlockSize(prefix) == Pow2(32 - prefix)
    ensures BlockSize(prefix) >= 3 <==> prefix <= 30
  {
    Pow2Words();
    Pow2Monotone(32 - prefix, 31);
    BlockIsLarge(32 - prefix);
  }

  lemma {:induction false} BlockIsLarge(bits: nat)
    requires 1 <= bits
    ensures Pow2(bits) >= 3 <==> bits >= 2
  {
    assert Pow2(1) == 2 && Pow2(2) == 4;
    if bits >= 2 { Pow2Monotone(2, bits); }
  }

  lemma AlignedBlock(x: nat, n: nat, m: nat)
    requires 0 < n && x < n * m
    ensures (x - x % n) % n == 0
    ensures x - x % n <= x < x - x % n + n <= n * m
  {
    var q := x / n;
    ClearRemainder(x, n);
    QuotientUnique(x - x % n, n, q, 0);
    if q >= m { MulMonotone(n, m, q); }
    MulMonotone(n, q + 1, m);
  }

  lemma RangeOfPrefix(x: u32, prefix: byte)
    requires 1 <= prefix <= 30
    ensures var n := Pow2(32 - prefix); Range(Some(IpCidr(V4(x), prefix))) == Ok((x - x % n, n)) && 3 <= n
  {
    BlockSizes(prefix);
    AndWord(x, prefix);
    var c := IpCidr(V4(x), prefix);
    assert Range(Some(c)) == Ok((And(x, MaxShl(32, 32 - prefix)), BlockSize(prefix)));
  }

  lemma {:induction false} AcceptedPrefix(c: IpCidr)
    requires c.Valid()
    ensures Range(Some(c)).Ok? <==> c.base.V4? && 1 <= c.prefix <= 30
  {
    if c.base.V4? && 1 <= c.prefix <= 31 { BlockSizes(c.prefix); }
  }

  lemma {:induction false} RangeIsAligned(x: u32, prefix: byte)
    requires 1 <= prefix <= 30
    ensures var n := Pow2(32 - prefix);
            (x - x % n) % n == 0 && x - x % n <= x < x - x % n + n <= 0x1_0000_0000
  {
    Pow2Words();
    Pow2Add(32 - prefix, prefix);
    AlignedBlock(x, Pow2(32 - prefix), Pow2(prefix));
  }

  /**
   Exactly the IPv4 prefixes 1..30 are accepted, and then the range is the whole subnet: aligned,
   inside the 32-bit space, and around the given address.
   */
  lemma {:induction false} AcceptedRanges(c: IpCidr)
    requires c.Valid()
    ensures Range(Some(c)).Ok? <==> c.base.V4? && 1 <= c.prefix <= 30
    ensures c.base.V6? ==> Range(Some(c)) == Err(NotIpv4)
    ensures c.base.V4? && c.prefix == 0 ==> Range(Some(c)) == Err(TooWide)
    ensures c.base.V4? && c.prefix > 30 ==> Range(Some(c)) == Err(TooSmall)
    ensures Range(Some(c)).Ok? ==>
              var (base, count) := Range(Some(c)).value;
              && count == Pow2(32 - c.prefix) >= 3
              && base % count == 0
              && base <= c.base.v4 < base + count <= 0x1_0000_0000
  {
    AcceptedPrefix(c);
    if c.base.V4? && 1 <= c.prefix <= 30 {
      RangeOfPrefix(c.base.v4, c.prefix);
      RangeIsAligned(c.base.v4, c.prefix);
    }
  }

  // ----- the allocator as a value -----

  datatype State = State(base: int, count: int, cursor: int, domToIp: map<string, int>, ipToDom: map<int, string>) {
    predicate InSpace() {
      0 <= base && 3 <= count && base + count <= 0x1_0000_0000
    }

    function DomainOf(ip: IpAddr): Option<string> {
      if ip.V4? && ip.v4 in ipToDom then Some(ipToDom[ip.v4]) else None
    }

    /** `wrapping_sub` in 32 bits. */
    predicate RangeContains(ip: IpAddr) {
      ip.V4? && (ip.v4 - base) % 0x1_0000_0000 < count
    }
  }

  /** The address of the `k`-th fresh allocation, counting from 0: slots 1 .. count-1, round-robin. */
  function Slot(base: int, count: int, k: nat): (ip: int)
    requires 3 <= count
    ensures base < ip < base + count
  {
    if k < count - 1 then base + 1 + k else Slot(base, count, k - (count - 1))
  }

  lemma {:induction false} SlotIsRoundRobin(base: int, count: int, k: nat)
    requires 3 <= count
    ensures Slot(base, count, k) == base + 1 + k % (count - 1)
  {
    var m := count - 1;
    if k >= m {
      SlotIsRoundRobin(base, count, k - m);
      ClearRemainder(k - m, m);
      QuotientUnique(k, m, (k - m) / m + 1, (k - m) % m);
    }
  }

  lemma {:induction false} SlotNext(base: int, count: int, k: nat)
    requires 3 <= count
    ensures Slot(base, count, k + 1) ==
            if Slot(base, count, k) + 1 >= base + count then base + 1 else Slot(base, count, k) + 1
  {
    if k >= count - 1 { SlotNext(base, count, k - (count - 1)); }
  }

  lemma {:induction false} SlotsDiffer(base: int, count: int, i: nat, j: nat)
    requires 3 <= count && i < j < i + count - 1
    ensures Slot(base, count, i) != Slot(base, count, j)
  {
    if i >= count - 1 { SlotsDiffer(base, count, i - (count - 1), j - (count - 1)); }
  }

  /** The first of `n` fresh allocations that is still bound. */
  function Oldest(count: int, n: nat): (k: nat)
    requires 3 <= count
    ensures k <= n
  {
    if n > count - 1 then n - (count - 1) else 0
  }

  /** The last `min(n, count - 1)` freshly allocated domains, oldest first ... */
  function Live(count: int, issued: seq<string>): seq<string>
    requires 3 <= count
  {
    issued[Oldest(count, |issued|)..]
  }

  /** The addresses of the allocations numbered `lo` to `n - 1` ... */
  function Slots(base: int, count: int, lo: nat, n: nat): (slots: seq<int>)
    requires 3 <= count && lo <= n
    ensures |slots| == n - lo
  {
    if lo == n then [] else Slots(base, count, lo, n - 1) + [Slot(base, count, n - 1)]
  }

  /** ... and of those still bound. */
  function LiveSlots(base: int, count: int, n: nat): (slots: seq<int>)
    requires 3 <= count
    ensures |slots| == n - Oldest(count, n)
  {
    Slots(base, count, Oldest(count, n), n)
  }

  lemma {:induction false} SlotAt(base: int, count: int, lo: nat, n: nat, i: nat)
    requires 3 <= count && lo + i < n
    ensures Slots(base, count, lo, n)[i] == Slot(base, count, lo + i)
  {
    if lo + i < n - 1 { SlotAt(base, count, lo, n - 1, i); }
  }

  lemma {:induction false} SlotsDropFirst(base: int, count: int, lo: nat, n: nat)
    requires 3 <= count && lo < n
    ensures Slots(base, count, lo, n)[1..] == Slots(base, count, lo + 1, n)
    ensures Slots(base, count, lo, n)[0] == Slot(base, count, lo)
  {
    if lo + 1 < n { SlotsDropFirst(base, count, lo, n - 1); }
  }

  /** The map from each key to the value beside it. */
  function Zip<K, V>(ks: seq<K>, vs: seq<V>): map<K, V>
    requires |ks| == |vs|
  {
    if ks == [] then map[]
    else
      var n := |ks| - 1;
      Zip(ks[..n], vs[..n])[ks[n] := vs[n]]
  }

  /** The two maps hold exactly the sliding window of the allocation history. */
  ghost predicate HoldsWindow(s: State, issued: seq<string>)
    requires 3 <= s.count
  {
    && Distinct(Live(s.count, issued))
    && s.domToIp == Zip(Live(s.count, issued), LiveSlots(s.base, s.count, |issued|))
    && s.ipToDom == Zip(LiveSlots(s.base, s.count, |issued|), Live(s.count, issued))
  }

  /** ... and the cursor stands at the next slot. */
  ghost predicate Refines(s: State, issued: seq<string>) {
    && s.InSpace()
    && s.base + s.cursor == Slot(s.base, s.count, |issued|)
    && HoldsWindow(s, issued)
  }

  /** `allocate`: the new state and the address handed out. */
  function Allocated(s: State, domain: string): (State, int)
  {
    if domain in s.domToIp then (s, s.domToIp[domain])
    else
      var ip := s.base + s.cursor;
      var next := if s.cursor + 1 >= s.count then 1 else s.cursor + 1;
      var doms := if ip in s.ipToDom && s.ipToDom[ip] != domain then s.domToIp - {s.ipToDom[ip]} else s.domToIp;
      (State(s.base, s.count, next, doms[domain := ip], s.ipToDom[ip := domain]), ip)
  }

  lemma ZipAppend<K, V>(ks: seq<K>, vs: seq<V>, k: K, v: V)
    requires |ks| == |vs|
    ensures Zip(ks + [k], vs + [v]) == Zip(ks, vs)[k := v]
  {
    assert (ks + [k])[..|ks|] == ks && (vs + [v])[..|vs|] == vs;
  }

  lemma {:induction false} ZipEntries<K, V>(ks: seq<K>, vs: seq<V>)
    requires |ks| == |vs| && Distinct(ks)
    ensures forall i :: 0 <= i < |ks| ==> ks[i] in Zip(ks, vs) && Zip(ks, vs)[ks[i]] == vs[i]
    ensures forall k :: k in Zip(ks, vs) ==> k in ks
  {
    if ks != [] {
      var n := |ks| - 1;
      ZipEntries(ks[..n], vs[..n]);
      assert forall i :: 0 <= i < n ==> ks[..n][i] == ks[i];
      assert ks == ks[..n] + [ks[n]];
    }
  }

  lemma ZipEntry<K, V>(ks: seq<K>, vs: seq<V>, i: nat)
    requires |ks| == |vs| && Distinct(ks) && i < |ks|
    ensures ks[i] in Zip(ks, vs) && Zip(ks, vs)[ks[i]] == vs[i]
  {
    ZipEntries(ks, vs);
  }

  lemma ZipKey<K, V>(ks: seq<K>, vs: seq<V>, k: K) returns (i: nat)
    requires |ks| == |vs| && Distinct(ks) && k in Zip(ks, vs)
    ensures i < |ks| && ks[i] == k && Zip(ks, vs)[k] == vs[i]
  {
    ZipEntries(ks, vs);
    i :| 0 <= i < |ks| && ks[i] == k;
  }

  lemma {:induction false} ZipDropFirst<K, V>(ks: seq<K>, vs: seq<V>)
    requires |ks| == |vs| && Distinct(ks) && ks != []
    ensures Zip(ks[1..], vs[1..]) == Zip(ks, vs) - {ks[0]}
  {
    var n := |ks| - 1;
    if n > 0 {
      ZipDropFirst(ks[..n], vs[..n]);
      assert ks[1..][..n - 1] == ks[..n][1..] && vs[1..][..n - 1] == vs[..n][1..];
      assert ks[n] != ks[0];
    }
  }

  /** How the window moves: it grows until it is full, and then drops its oldest entry. */
  lemma {:induction false} WindowMoves(base: int, count: int, issued: seq<string>, domain: string)
    requires 3 <= count
    ensures var n := |issued|;
            var live, slots, slot := Live(count, issued), LiveSlots(base, count, n), Slot(base, count, n);
            var live', slots' := Live(count, issued + [domain]), LiveSlots(base, count, n + 1);
            if n < count - 1 then
              live' == live + [domain] && slots' == slots + [slot]
            else
              slots != [] && slots[0] == slot && live' == live[1..] + [domain] && slots' == slots[1..] + [slot]
  {
    var n, lo := |issued|, Oldest(count, |issued|);
    if n >= count - 1 {
      SlotsDropFirst(base, count, lo, n);
    }
  }

  lemma DistinctAppend<K>(ks: seq<K>, k: K)
    requires Distinct(ks) && k !in ks
    ensures Distinct(ks + [k])
  {
  }

  lemma {:induction false} SlotIsNew(base: int, count: int, lo: nat, n: nat, k: nat)
    requires 3 <= count && lo <= n <= k < lo + count - 1
    ensures Slot(base, count, k) !in Slots(base, count, lo, n)
  {
    if lo < n {
      SlotIsNew(base, count, lo, n - 1, k);
      SlotsDiffer(base, count, n - 1, k);
    }
  }

  lemma {:induction false} SlotsDistinct(base: int, count: int, lo: nat, n: nat)
    requires 3 <= count && lo <= n < lo + count
    ensures Distinct(Slots(base, count, lo, n))
  {
    if lo < n {
      SlotsDistinct(base, count, lo, n - 1);
      SlotIsNew(base, count, lo, n - 1, n - 1);
      DistinctAppend(Slots(base, count, lo, n - 1), Slot(base, count, n - 1));
    }
  }

  /** The maps after a fresh allocation while some slot is free ... */
  lemma MapsGrow(s: State, live: seq<string>, slots: seq<int>, domain: string)
    requires |live| == |slots| && Distinct(live) && Distinct(slots)
    requires s.domToIp == Zip(live, slots) && s.ipToDom == Zip(slots, live)
    requires domain !in s.domToIp && s.base + s.cursor !in slots
    ensures var t, ip := Allocated(s, domain).0, s.base + s.cursor;
            && t.domToIp == Zip(live + [domain], slots + [ip])
            && t.ipToDom == Zip(slots + [ip], live + [domain])
            && Distinct(live + [domain])
  {
    assert domain !in live by { ZipEntries(live, slots); }
    assert s.base + s.cursor !in s.ipToDom by { ZipEntries(slots, live); }
    DistinctAppend(live, domain);
    ZipAppend(live, slots, domain, s.base + s.cursor);
    ZipAppend(slots, live, s.base + s.cursor, domain);
  }

  /** Replacing the oldest entry of a full window, seen from the keys' side. */
  lemma ZipReplaceOldest<K, V>(ks: seq<K>, vs: seq<V>, k: K, v: V)
    requires |ks| == |vs| && Distinct(ks) && ks != []
    ensures Zip(ks[1..] + [k], vs[1..] + [v]) == (Zip(ks, vs) - {ks[0]})[k := v]
  {
    ZipDropFirst(ks, vs);
    ZipAppend(ks[1..], vs[1..], k, v);
  }

  /** ... and when the oldest binding has to go. */
  lemma {:induction false} MapsEvict(s: State, live: seq<string>, slots: seq<int>, domain: string)
    requires |live| == |slots| > 0 && Distinct(live) && Distinct(slots)
    requires s.domToIp == Zip(live, slots) && s.ipToDom == Zip(slots, live)
    requires domain !in s.domToIp && s.base + s.cursor == slots[0]
    ensures var t, ip := Allocated(s, domain).0, s.base + s.cursor;
            && t.domToIp == Zip(live[1..] + [domain], slots[1..] + [ip])
            && t.ipToDom == Zip(slots[1..] + [ip], live[1..] + [domain])
            && Distinct(live[1..] + [domain])
  {
    var ip := s.base + s.cursor;
    assert domain !in live by { ZipEntries(live, slots); }
    assert live[0] in live && live[0] != domain;
    DistinctAppend(live[1..], domain);
    ZipEntry(slots, live, 0);
    var t := Allocated(s, domain).0;
    assert t.domToIp == (s.domToIp - {live[0]})[domain := ip];
    assert t.ipToDom == (s.ipToDom - {ip})[ip := domain];
    ZipReplaceOldest(live, slots, domain, ip);
    ZipReplaceOldest(slots, live, ip, domain);
  }

  lemma CursorMoves(s: State, n: nat, domain: string)
    requires s.InSpace() && s.base + s.cursor == Slot(s.base, s.count, n) && domain !in s.domToIp
    ensures var t := Allocated(s, domain).0;
            t.base == s.base && t.count == s.count && t.base + t.cursor == Slot(s.base, s.count, n + 1)
  {
    SlotNext(s.base, s.count, n);
  }

  lemma {:induction false} GrowingAllocation(s: State, issued: seq<string>, domain: string)
    requires Refines(s, issued) && domain !in s.domToIp && |issued| < s.count - 1
    ensures Allocated(s, domain).0.count == s.count && HoldsWindow(Allocated(s, domain).0, issued + [domain])
  {
    WindowMoves(s.base, s.count, issued, domain);
    SlotsDistinct(s.base, s.count, 0, |issued|);
    SlotIsNew(s.base, s.count, 0, |issued|, |issued|);
    MapsGrow(s, Live(s.count, issued), LiveSlots(s.base, s.count, |issued|), domain);
  }

  lemma {:induction false} EvictedWindow(t: State, issued: seq<string>, domain: string)
    requires 3 <= t.count && |issued| >= t.count - 1
    requires var live, slots := Live(t.count, issued)[1..] + [domain], LiveSlots(t.base, t.count, |issued|)[1..] +
               [Slot(t.base, t.count, |issued|)];
             t.domToIp == Zip(live, slots) && t.ipToDom == Zip(slots, live) && Distinct(live)
    ensures HoldsWindow(t, issued + [domain])
  {
    WindowMoves(t.base, t.count, issued, domain);
  }

  lemma {:induction false} EvictingAllocation(s: State, issued: seq<string>, domain: string)
    requires Refines(s, issued) && domain !in s.domToIp && |issued| >= s.count - 1
    ensures Allocated(s, domain).0.count == s.count && HoldsWindow(Allocated(s, domain).0, issued + [domain])
  {
    WindowMoves(s.base, s.count, issued, domain);
    SlotsDistinct(s.base, s.count, Oldest(s.count, |issued|), |issued|);
    MapsEvict(s, Live(s.count, issued), LiveSlots(s.base, s.count, |issued|), domain);
    EvictedWindow(Allocated(s, domain).0, issued, domain);
  }

  lemma {:induction false} WindowAfter(s: State, issued: seq<string>, domain: string)
    requires Refines(s, issued) && domain !in s.domToIp
    ensures Allocated(s, domain).0.count == s.count && HoldsWindow(Allocated(s, domain).0, issued + [domain])
  {
    if |issued| < s.count - 1 {
      GrowingAllocation(s, issued, domain);
    } else {
      EvictingAllocation(s, issued, domain);
    }
  }

  /** A fresh allocation moves the window by one entry. */
  lemma {:induction false} FreshAllocation(s: State, issued: seq<string>, domain: string)
    requires Refines(s, issued) && domain !in s.domToIp
    ensures Refines(Allocated(s, domain).0, issued + [domain])
    ensures Allocated(s, domain).1 == Slot(s.base, s.count, |issued|)
  {
    CursorMoves(s, |issued|, domain);
    WindowAfter(s, issued, domain);
  }

  // ----- what the window gives its users -----

  lemma ZipInverse<K, V>(ks: seq<K>, vs: seq<V>, k: K, v: V)
    requires |ks| == |vs| && Distinct(ks) && Distinct(vs)
    ensures (k in Zip(ks, vs) && Zip(ks, vs)[k] == v) <==> (v in Zip(vs, ks) && Zip(vs, ks)[v] == k)
  {
    ZipEntries(ks, vs);
    ZipEntries(vs, ks);
    if k in ks { var i :| 0 <= i < |ks| && ks[i] == k; }
    if v in vs { var i :| 0 <= i < |vs| && vs[i] == v; }
  }

  /** The two maps are mutual inverses. */
  lemma MapsAreInverse(s: State, issued: seq<string>, domain: string, ip: int)
    requires Refines(s, issued)
    ensures (domain in s.domToIp && s.domToIp[domain] == ip) <==> (ip in s.ipToDom && s.ipToDom[ip] == domain)
  {
    SlotsDistinct(s.base, s.count, Oldest(s.count, |issued|), |issued|);
    ZipInverse(Live(s.count, issued), LiveSlots(s.base, s.count, |issued|), domain, ip);
  }

  lemma LiveEntry(s: State, issued: seq<string>, k: nat)
    requires Refines(s, issued) && Oldest(s.count, |issued|) <= k < |issued|
    ensures var ip := Slot(s.base, s.count, k);
            && issued[k] in s.domToIp && s.domToIp[issued[k]] == ip
            && ip in s.ipToDom && s.ipToDom[ip] == issued[k]
  {
    var i, live, slots := k - Oldest(s.count, |issued|), Live(s.count, issued), LiveSlots(s.base, s.count, |issued|);
    SlotsDistinct(s.base, s.count, Oldest(s.count, |issued|), |issued|);
    SlotAt(s.base, s.count, Oldest(s.count, |issued|), |issued|, i);
    assert live[i] == issued[k] && slots[i] == Slot(s.base, s.count, k);
    ZipEntry(live, slots, i);
    ZipEntry(slots, live, i);
  }

  /** A binding lives on through the next `count - 2` fresh allocations ... */
  lemma BindingSurvives(s: State, issued: seq<string>, k: nat)
    requires Refines(s, issued) && k < |issued| <= k + s.count - 1
    ensures var ip := Slot(s.base, s.count, k);
            && issued[k] in s.domToIp && s.domToIp[issued[k]] == ip
            && ip in s.ipToDom && s.ipToDom[ip] == issued[k]
  {
    LiveEntry(s, issued, k);
  }

  /** ... and no further: then its address stands for a later domain. */
  lemma BindingEvicted(s: State, issued: seq<string>, k: nat)
    requires Refines(s, issued) && k + s.count - 1 < |issued|
    ensures var ip := Slot(s.base, s.count, k);
            ip in s.ipToDom && exists j :: k < j < |issued| && s.ipToDom[ip] == issued[j]
  {
    var j := LatestUse(s.base, s.count, k, |issued|);
    LiveEntry(s, issued, j);
  }

  /** The last of `n` allocations to use the slot of the `k`-th. */
  lemma {:induction false} LatestUse(base: int, count: int, k: nat, n: nat) returns (j: nat)
    requires 3 <= count && k + count - 1 < n
    ensures k < j < n && n - (count - 1) <= j && Slot(base, count, j) == Slot(base, count, k)
    decreases n - k
  {
    var m := count - 1;
    if k + m + m < n { j := LatestUse(base, count, k + m, n); } else { j := k + m; }
  }

  /** Issued addresses lie in the range and are never its network address; nothing wraps around. */
  lemma IssuedAddressesInRange(s: State, issued: seq<string>, domain: string)
    requires Refines(s, issued) && domain in s.domToIp
    ensures s.base < s.domToIp[domain] < s.base + s.count <= 0x1_0000_0000
    ensures s.RangeContains(V4(s.domToIp[domain]))
  {
    var live, slots := Live(s.count, issued), LiveSlots(s.base, s.count, |issued|);
    var i := ZipKey(live, slots, domain);
    SlotAt(s.base, s.count, Oldest(s.count, |issued|), |issued|, i);
    assert s.domToIp[domain] == slots[i];
    RangeContainsIsInterval(s, slots[i]);
  }

  lemma RangeContainsIsInterval(s: State, ip: u32)
    requires s.InSpace()
    ensures s.RangeContains(V4(ip)) <==> s.base <= ip < s.base + s.count
  {
    if ip < s.base {
      QuotientUnique(ip - s.base, 0x1_0000_0000, -1, ip - s.base + 0x1_0000_0000);
    } else {
      QuotientUnique(ip - s.base, 0x1_0000_0000, 0, ip - s.base);
    }
  }

  // ----- the mutable allocator -----

  class FakeIp {
    const base: int
    const count: int
    var cursor: int
    var domToIp: map<string, int>
    var ipToDom: map<int, string>
    ghost var issued: seq<string>

    ghost function View(): State
      reads this
    {
      State(base, count, cursor, domToIp, ipToDom)
    }

    ghost predicate Valid()
      reads this
    {
      Refines(View(), issued)
    }

    constructor (cidr: IpCidr)
      requires cidr.Valid() && Range(Some(cidr)).Ok?
      ensures Valid() && issued == [] && (base, count) == Range(Some(cidr)).value
    {
      AcceptedRanges(cidr);
      var (b, c) := Range(Some(cidr)).value;
      base, count, cursor := b, c, 1;
      domToIp, ipToDom, issued := map[], map[], [];
    }

    /** Hand out the next slot, and take it from whichever domain held it. */
    method Bind(domain: string) returns (ip: int)
      requires domain !in domToIp
      modifies `cursor, `domToIp, `ipToDom
      ensures (View(), ip) == Allocated(old(View()), domain)
    {
      var offset := cursor;
      cursor := cursor + 1;
      if cursor >= count {
        cursor := 1;
      }
      ip := base + offset;
      if ip in ipToDom {
        var evicted := ipToDom[ip];
        ipToDom := ipToDom[ip := domain];
        if evicted != domain {
          domToIp := domToIp - {evicted};
        }
      } else {
        ipToDom := ipToDom[ip := domain];
      }
      domToIp := domToIp[domain := ip];
    }

    method Allocate(domain: string) returns (ip: int)
      requires Valid()
      modifies this
      ensures Valid()
      ensures domain in domToIp && domToIp[domain] == ip && ip in ipToDom && ipToDom[ip] == domain
      ensures domain in old(domToIp) ==> View() == old(View()) && issued == old(issued)
      ensures domain !in old(domToIp) ==> issued == old(issued) + [domain] && ip == Slot(base, count, |old(issued)|)
    {
      if domain in domToIp {
        ip := domToIp[domain];
        MapsAreInverse(View(), issued, domain, ip);
      } else {
        FreshAllocation(View(), issued, domain);
        ip := Bind(domain);
        issued := issued + [domain];
      }
    }
  }
}
