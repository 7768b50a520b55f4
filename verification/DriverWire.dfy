/**
 The driver config on the wire: `encode_config` in `crates/platform-windows/src/wfp/ipc.rs` and
 `JammParseConfig` in `wfp-driver/src/driver.c`.
 */
module DriverWire {
  import opened Bits
  import opened Wrappers
  import opened Sequences
  import opened ByteText
  import opened Ascii
  import opened Cidr
  import opened SplitConfiguration
  import opened SplitDecision
  import opened Driver
  import opened DriverAgreement

  const MAGIC: seq<byte> := ['J' as int, 'V' as int, 'P' as int, '1' as int]
  const VERSION := 2

  // ----- the encoder -----

  /** `push_u16`, after the source's narrowing cast. */
  function PushU16(v: nat): (b: seq<byte>)
    ensures |b| == 2
  {
    [v % 256, v / 256 % 256]
  }

  /** `push_u32`. */
  function PushU32(v: nat): (b: seq<byte>)
    ensures |b| == 4
  {
    [v % 256, v / 256 % 256, v / 0x1_0000 % 256, v / 0x100_0000 % 256]
  }

  function PushStr(s: string): seq<byte>
    requires IsByteText(s)
  {
    PushU16(|s|) + BytesOf(s)
  }

  function PushIp(ip: IpAddr): seq<byte> {
    match ip
    case V4(a) => [4] + (Octets(a, 4) + Zeros(12))
    case V6(a) => [6] + Octets(a, 16)
  }

  function PushCidr(c: IpCidr): seq<byte> {
    PushIp(c.base) + [c.prefix]
  }

  function PushCidrItems(list: seq<IpCidr>): seq<byte> {
    if list == [] then [] else PushCidr(list[0]) + PushCidrItems(list[1..])
  }

  function PushCidrs(list: seq<IpCidr>): seq<byte> {
    PushU16(|list|) + PushCidrItems(list)
  }

  function PushIps(list: seq<IpAddr>): seq<byte> {
    if list == [] then [] else PushIp(list[0]) + PushIps(list[1..])
  }

  ghost predicate TextApps(apps: seq<AppEntry>) {
    forall a :: a in apps ==> IsByteText(a.value)
  }

  ghost predicate AsciiApps(apps: seq<AppEntry>) {
    forall a :: a in apps ==> IsAscii(a.value)
  }

  function PushApp(a: AppEntry): seq<byte>
    requires IsByteText(a.value)
  {
    [if a.byName then 1 else 0] + PushStr(a.value)
  }

  function PushApps(apps: seq<AppEntry>): seq<byte>
    requires TextApps(apps)
  {
    if apps == [] then []
    else PushApp(apps[0]) + PushApps(apps[1..])
  }

  /** The lists of a config, from the apps on. */
  function PushLists(d: DriverConfig): seq<byte>
    requires TextApps(d.apps)
  {
    (PushU16(|d.apps|) + PushApps(d.apps)) +
    (PushCidrs(d.bypass) +
     (PushCidrs(d.forceDirect) + (PushCidrs(d.forceTunnel) + (PushU16(|d.endpoints|) + PushIps(d.endpoints)))))
  }

  /** `encode_config`. */
  function EncodeConfig(d: DriverConfig): seq<byte>
    requires TextApps(d.apps)
  {
    MAGIC + (PushU16(VERSION) +
    ([if d.mode.Inclusive? then 0 else 1, if d.killSwitch then 1 else 0] +
    (PushU16(d.redirectPort) + (PushU32(d.redirectPid) + PushLists(d)))))
  }

  // ----- the driver's reader -----

  /** What a `JAMM_READER` has left; `None` once it has failed, and it stays so. */
  type Input = Option<seq<byte>>

  /** `JammTake`. */
  function Take(r: Input, n: nat): (Option<seq<byte>>, Input) {
    if r.None? || |r.value| < n then (None, None) else (Some(r.value[..n]), Some(r.value[n..]))
  }

  function U8(r: Input): (byte, Input) {
    var (b, rest) := Take(r, 1);
    (if b.Some? then b.value[0] else 0, rest)
  }

  /** Little-endian words; or-ing a shifted byte into empty bits is adding it. */
  function Word16(b0: nat, b1: nat): nat {
    b0 + b1 * 0x100
  }

  function Word32(b0: nat, b1: nat, b2: nat, b3: nat): nat {
    b0 + b1 * 0x100 + b2 * 0x1_0000 + b3 * 0x100_0000
  }

  function U16(r: Input): (v: (nat, Input))
    ensures v.0 < 0x1_0000
  {
    var (b, rest) := Take(r, 2);
    (if b.Some? then Word16(b.value[0], b.value[1]) else 0, rest)
  }

  function U32(r: Input): (nat, Input) {
    var (b, rest) := Take(r, 4);
    (if b.Some? then Word32(b.value[0], b.value[1], b.value[2], b.value[3]) else 0, rest)
  }

  /** `JammReadIp`: an unknown family fails the reader. */
  function ReadIp(r: Input): (v: (JammIp, Input))
    ensures WellFormed(v.0)
  {
    var (family, r1) := U8(r);
    var (b, r2) := Take(r1, 16);
    if b.Some? && (family == 4 || family == 6) then (JammIp(family, b.value), r2) else (JammIp(0, Zeros(16)), None)
  }

  /**
   The kernel's conversion from UTF-8 to lower-case 16-bit units, which may refuse. Which units it
   makes of other text is its own business; ASCII becomes its lower case.
   */
  type Decode = seq<byte> -> Option<string>

  ghost predicate LowersAscii(decode: Decode) {
    forall b :: IsAscii(TextOf(b)) ==> decode(b) == Some(Lower(TextOf(b)))
  }

  /** How many of `n` 16-bit units are kept once their length in bytes is narrowed to a `USHORT`. */
  function KeptUnits(n: nat): (k: nat)
    ensures k < 0x8000 && k <= n
    ensures k == n <==> n < 0x8000
  {
    2 * n % 0x1_0000 / 2
  }

  /** `JammReadStr`. */
  function ReadStr(decode: Decode, r: Input): (v: (string, Input))
    ensures |v.0| < 0x8000
  {
    var (len, r1) := U16(r);
    var (b, r2) := Take(r1, len);
    if b.None? || len == 0 then ("", r2)
    else
      match decode(b.value)
      case None => ("", None)
      case Some(units) => if units == "" then ("", None) else (units[..KeptUnits(|units|)], r2)
  }

  function ReadCidr(r: Input): (v: (JammCidr, Input))
    ensures WellFormed(v.0.ip)
  {
    var (ip, r1) := ReadIp(r);
    var (prefix, r2) := U8(r1);
    (JammCidr(ip, prefix), r2)
  }

  /** A counted loop over one kind of item; it stops where the reader fails. */
  function ReadMany<T>(read: Input -> (T, Input), r: Input, n: nat): (v: (seq<T>, Input))
    ensures |v.0| <= n
    decreases n
  {
    if n == 0 then ([], r)
    else
      var (x, r1) := read(r);
      if r1.None? then ([x], None)
      else
        var (more, rest) := ReadMany(read, r1, n - 1);
        ([x] + more, rest)
  }

  function ReadCidrs(r: Input): (v: (seq<JammCidr>, Input))
    ensures |v.0| < 0x1_0000
  {
    var (n, r1) := U16(r);
    ReadMany(ReadCidr, r1, n)
  }

  function ReadApp(decode: Decode, r: Input): (JammApp, Input) {
    var (byName, r1) := U8(r);
    var (value, r2) := ReadStr(decode, r1);
    (JammApp(byName != 0, value), r2)
  }

  function AppReader(decode: Decode): Input -> (JammApp, Input) {
    r => ReadApp(decode, r)
  }

  datatype Status = Success(cfg: JammConfig, redirectPort: nat, redirectPid: nat) | InvalidParameter | RevisionMismatch

  datatype Lists = Lists(apps: seq<JammApp>, bypass: seq<JammCidr>, direct: seq<JammCidr>, tunnel: seq<JammCidr>,
                         endpoints: seq<JammIp>)

  /** The lists, and what is left after them. */
  function ReadLists(decode: Decode, r: Input): (Lists, Input) {
    var (nApps, r5) := U16(r);
    var (apps, r6) := ReadMany(AppReader(decode), r5, nApps);
    var (bypass, r7) := ReadCidrs(r6);
    var (direct, r8) := ReadCidrs(r7);
    var (tunnel, r9) := ReadCidrs(r8);
    var (nEp, r10) := U16(r9);
    var (endpoints, r11) := ReadMany(ReadIp, r10, nEp);
    (Lists(apps, bypass, direct, tunnel, endpoints), r11)
  }

  /** The one check of the reader at the end. */
  function ParseLists(decode: Decode, r: Input): Option<Lists> {
    var (lists, rest) := ReadLists(decode, r);
    if rest.None? then None else Some(lists)
  }

  function ParseFields(decode: Decode, r: Input): Status {
    var (mode, r1) := U8(r);
    var (killSwitch, r2) := U8(r1);
    var (port, r3) := U16(r2);
    var (pid, r4) := U32(r3);
    match ParseLists(decode, r4)
    case None => InvalidParameter
    case Some(l) => Success(JammConfig(mode, killSwitch != 0, l.apps, l.bypass, l.direct, l.tunnel, l.endpoints),
                            port, pid)
  }

  /** `JammParseConfig`. */
  function ParseBytes(decode: Decode, buf: seq<byte>): Status {
    var (magic, r1) := Take(Some(buf), 4);
    if magic != Some(MAGIC) then InvalidParameter
    else
      var (version, r2) := U16(r1);
      if version != VERSION then RevisionMismatch else ParseFields(decode, r2)
  }

  // ----- round trips -----

  lemma TakeFront(a: seq<byte>, rest: seq<byte>)
    ensures Take(Some(a + rest), |a|) == (Some(a), Some(rest))
  {
    assert (a + rest)[..|a|] == a && (a + rest)[|a|..] == rest;
  }

  lemma ReadU8(b: byte, rest: seq<byte>)
    ensures U8(Some([b] + rest)) == (b, Some(rest))
  {
    TakeFront([b], rest);
  }

  lemma WordsOfBytes(v: nat)
    ensures v < 0x1_0000 ==> Word16(v % 256, v / 256 % 256) == v
    ensures v < 0x1_0000_0000 ==> Word32(v % 256, v / 256 % 256, v / 0x1_0000 % 256, v / 0x100_0000 % 256) == v
  {
    DivModSplit(v, 256, 256);
    DivModSplit(v, 0x1_0000, 256);
    DivModSplit(v, 0x100_0000, 256);
  }

  lemma ReadU16(v: nat, rest: seq<byte>)
    requires v < 0x1_0000
    ensures U16(Some(PushU16(v) + rest)) == (v, Some(rest))
  {
    TakeFront(PushU16(v), rest);
    WordsOfBytes(v);
  }

  lemma ReadU32(v: nat, rest: seq<byte>)
    requires v < 0x1_0000_0000
    ensures U32(Some(PushU32(v) + rest)) == (v, Some(rest))
  {
    TakeFront(PushU32(v), rest);
    WordsOfBytes(v);
  }

  lemma ReadPushedIp(ip: IpAddr, rest: seq<byte>)
    ensures ReadIp(Some(PushIp(ip) + rest)) == (ToJamm(ip), Some(rest))
  {
    var j := ToJamm(ip);
    assert PushIp(ip) + rest == [j.family] + (j.addr + rest);
    ReadU8(j.family, j.addr + rest);
    TakeFront(j.addr, rest);
  }

  lemma AsciiDecodes(decode: Decode, s: string)
    requires LowersAscii(decode) && IsAscii(s)
    ensures decode(BytesOf(s)) == Some(Lower(s))
  {
    TextRoundTrip(s);
  }

  lemma ReadUnits(decode: Decode, b: seq<byte>, units: string, rest: seq<byte>)
    requires 0 < |b| < 0x1_0000 && decode(b) == Some(units) && units != ""
    ensures ReadStr(decode, Some((PushU16(|b|) + b) + rest)) == (units[..KeptUnits(|units|)], Some(rest))
  {
    Regroup(PushU16(|b|), b, rest);
    ReadU16(|b|, b + rest);
    TakeFront(b, rest);
  }

  lemma ReadEmptyStr(decode: Decode, rest: seq<byte>)
    ensures ReadStr(decode, Some((PushU16(0) + []) + rest)) == ("", Some(rest))
  {
    Regroup(PushU16(0), [], rest);
    ReadU16(0, [] + rest);
    TakeFront([], rest);
  }

  /** An ASCII value arrives in lower case and cut to the units that are kept. */
  lemma ReadPushedStr(decode: Decode, s: string, rest: seq<byte>)
    requires LowersAscii(decode) && IsAscii(s) && |s| < 0x1_0000
    ensures ReadStr(decode, Some(PushStr(s) + rest)) == (Lower(s)[..KeptUnits(|s|)], Some(rest))
  {
    if s == "" {
      assert BytesOf(s) == [] && Lower(s) == "";
      ReadEmptyStr(decode, rest);
    } else {
      AsciiDecodes(decode, s);
      ReadUnits(decode, BytesOf(s), Lower(s), rest);
    }
  }

  lemma ReadShortStr(decode: Decode, s: string, rest: seq<byte>)
    requires LowersAscii(decode) && IsAscii(s) && |s| < 0x8000
    ensures ReadStr(decode, Some(PushStr(s) + rest)) == (Lower(s), Some(rest))
  {
    ReadPushedStr(decode, s, rest);
    assert Lower(s)[..|s|] == Lower(s);
  }

  lemma ReadPushedApp(decode: Decode, a: AppEntry, rest: seq<byte>)
    requires LowersAscii(decode) && IsAscii(a.value) && |a.value| < 0x8000
    ensures AppReader(decode)(Some(PushApp(a) + rest)) == (JammApp(a.byName, Lower(a.value)), Some(rest))
  {
    var flag: byte := if a.byName then 1 else 0;
    var tail := PushStr(a.value) + rest;
    Regroup([flag], PushStr(a.value), rest);
    ReadU8(flag, tail);
    ReadShortStr(decode, a.value, rest);
    ReadFlagged(decode, flag, tail, Lower(a.value), rest);
  }

  lemma ReadFlagged(decode: Decode, flag: byte, tail: seq<byte>, value: string, rest: seq<byte>)
    requires U8(Some([flag] + tail)) == (flag, Some(tail)) && ReadStr(decode, Some(tail)) == (value, Some(rest))
    ensures ReadApp(decode, Some([flag] + tail)) == (JammApp(flag != 0, value), Some(rest))
  {
  }

  lemma ReadPushedCidr(c: IpCidr, rest: seq<byte>)
    ensures ReadCidr(Some(PushCidr(c) + rest)) == (CidrToJamm(c), Some(rest))
  {
    Regroup(PushIp(c.base), [c.prefix], rest);
    ReadPushedIp(c.base, [c.prefix] + rest);
    ReadU8(c.prefix, rest);
  }

  lemma {:induction false} ReadPushedCidrItems(list: seq<IpCidr>, rest: seq<byte>)
    ensures ReadMany(ReadCidr, Some(PushCidrItems(list) + rest), |list|) == (CidrsToJamm(list), Some(rest))
    decreases |list|
  {
    if list == [] {
      assert [] + rest == rest;
    } else {
      var tail := PushCidrItems(list[1..]) + rest;
      Regroup(PushCidr(list[0]), PushCidrItems(list[1..]), rest);
      ReadPushedCidr(list[0], tail);
      ReadPushedCidrItems(list[1..], rest);
      assert CidrsToJamm(list) == [CidrToJamm(list[0])] + CidrsToJamm(list[1..]);
    }
  }

  lemma ReadPushedCidrs(list: seq<IpCidr>, rest: seq<byte>)
    requires |list| < 0x1_0000
    ensures ReadCidrs(Some(PushCidrs(list) + rest)) == (CidrsToJamm(list), Some(rest))
  {
    Regroup(PushU16(|list|), PushCidrItems(list), rest);
    ReadU16(|list|, PushCidrItems(list) + rest);
    ReadPushedCidrItems(list, rest);
  }

  lemma {:induction false} ReadPushedIps(list: seq<IpAddr>, rest: seq<byte>)
    ensures ReadMany(ReadIp, Some(PushIps(list) + rest), |list|) == (Ips(list), Some(rest))
    decreases |list|
  {
    if list == [] {
      assert [] + rest == rest;
    } else {
      var tail := PushIps(list[1..]) + rest;
      Regroup(PushIp(list[0]), PushIps(list[1..]), rest);
      ReadPushedIp(list[0], tail);
      ReadPushedIps(list[1..], rest);
      assert Ips(list) == [ToJamm(list[0])] + Ips(list[1..]);
    }
  }

  lemma AppsCons(apps: seq<AppEntry>)
    requires apps != []
    ensures Apps(apps) == [JammApp(apps[0].byName, Lower(apps[0].value))] + Apps(apps[1..])
  {
  }

  lemma {:induction false} ReadPushedApps(decode: Decode, apps: seq<AppEntry>, rest: seq<byte>)
    requires LowersAscii(decode) && AsciiApps(apps) && ShortValues(apps)
    ensures ReadMany(AppReader(decode), Some(PushApps(apps) + rest), |apps|) == (Apps(apps), Some(rest))
    decreases |apps|
  {
    if apps == [] {
      assert [] + rest == rest;
    } else {
      var tail := PushApps(apps[1..]) + rest;
      Regroup(PushApp(apps[0]), PushApps(apps[1..]), rest);
      ReadPushedApp(decode, apps[0], tail);
      ReadPushedApps(decode, apps[1..], rest);
      AppsCons(apps);
    }
  }

  // ----- the whole config -----

  ghost predicate ShortValues(apps: seq<AppEntry>) {
    forall a :: a in apps ==> |a.value| < 0x8000
  }

  /** Every count fits the sixteen bits it is written in, and every value's length in bytes of UTF-16 does. */
  ghost predicate Fits(d: DriverConfig) {
    && |d.apps| < 0x1_0000 && |d.bypass| < 0x1_0000 && |d.forceDirect| < 0x1_0000
    && |d.forceTunnel| < 0x1_0000 && |d.endpoints| < 0x1_0000
    && ShortValues(d.apps)
  }

  lemma ReadPushedTail(tunnel: seq<IpCidr>, endpoints: seq<IpAddr>)
    requires |tunnel| < 0x1_0000 && |endpoints| < 0x1_0000
    ensures var (t, r1) := ReadCidrs(Some(PushCidrs(tunnel) + (PushU16(|endpoints|) + PushIps(endpoints))));
            var (n, r2) := U16(r1);
            && t == CidrsToJamm(tunnel) && n == |endpoints|
            && ReadMany(ReadIp, r2, n) == (Ips(endpoints), Some([]))
  {
    ReadPushedCidrs(tunnel, PushU16(|endpoints|) + PushIps(endpoints));
    ReadU16(|endpoints|, PushIps(endpoints));
    ReadPushedIps(endpoints, []);
    assert PushIps(endpoints) + [] == PushIps(endpoints);
  }

  lemma ReadPushedLists(decode: Decode, d: DriverConfig)
    requires LowersAscii(decode) && AsciiApps(d.apps) && Fits(d)
    ensures ReadLists(decode, Some(PushLists(d))) ==
              (Lists(Apps(d.apps), CidrsToJamm(d.bypass), CidrsToJamm(d.forceDirect), CidrsToJamm(d.forceTunnel),
                     Ips(d.endpoints)), Some([]))
  {
    var r9 := PushU16(|d.endpoints|) + PushIps(d.endpoints);
    var r8 := PushCidrs(d.forceTunnel) + r9;
    var r7 := PushCidrs(d.forceDirect) + r8;
    var r6 := PushCidrs(d.bypass) + r7;
    Regroup(PushU16(|d.apps|), PushApps(d.apps), r6);
    ReadU16(|d.apps|, PushApps(d.apps) + r6);
    ReadPushedApps(decode, d.apps, r6);
    ReadPushedCidrs(d.bypass, r7);
    ReadPushedCidrs(d.forceDirect, r8);
    ReadPushedTail(d.forceTunnel, d.endpoints);
  }

  lemma TwoBytes(a: byte, b: byte, rest: seq<byte>)
    ensures [a, b] + rest == [a] + ([b] + rest)
  {
  }

  lemma HeaderRoundTrip(decode: Decode, d: DriverConfig)
    requires TextApps(d.apps) && d.redirectPort < 0x1_0000 && d.redirectPid < 0x1_0000_0000
    ensures ParseBytes(decode, EncodeConfig(d)) ==
            match ParseLists(decode, Some(PushLists(d)))
            case None => InvalidParameter
            case Some(l) => Success(JammConfig(if d.mode.Inclusive? then 0
                                               else 1, d.killSwitch, l.apps, l.bypass, l.direct, l.tunnel, l.endpoints),
                                    d.redirectPort, d.redirectPid)
  {
    var mode: byte, kill: byte := if d.mode.Inclusive? then 0 else 1, if d.killSwitch then 1 else 0;
    var r4 := PushU32(d.redirectPid) + PushLists(d);
    var r3 := PushU16(d.redirectPort) + r4;
    var r2 := [mode, kill] + r3;
    TakeFront(MAGIC, PushU16(VERSION) + r2);
    ReadU16(VERSION, r2);
    TwoBytes(mode, kill, r3);
    ReadU8(mode, [kill] + r3);
    ReadU8(kill, r3);
    ReadU16(d.redirectPort, r4);
    ReadU32(d.redirectPid, PushLists(d));
  }

  /** Sixteen-bit counts cannot yield a longer list, nor sixteen bits of bytes a longer value. */
  ghost predicate Short(cfg: JammConfig) {
    && |cfg.apps| < 0x1_0000 && |cfg.bypass| < 0x1_0000 && |cfg.forceDirect| < 0x1_0000
    && |cfg.forceTunnel| < 0x1_0000 && |cfg.endpoints| < 0x1_0000
    && forall a :: a in cfg.apps ==> |a.value| < 0x8000
  }

  lemma {:induction false} ReadAppsAreShort(decode: Decode, r: Input, n: nat)
    ensures forall a :: a in ReadMany(AppReader(decode), r, n).0 ==> |a.value| < 0x8000
    decreases n
  {
    if n > 0 && ReadApp(decode, r).1.Some? { ReadAppsAreShort(decode, ReadApp(decode, r).1, n - 1); }
  }

  lemma ParsedListsAreShort(decode: Decode, r: Input)
    ensures ParseLists(decode, r).Some? ==> forall a :: a in ParseLists(decode, r).value.apps ==> |a.value| < 0x8000
  {
    var (nApps, r1) := U16(r);
    ReadAppsAreShort(decode, r1, nApps);
  }

  lemma ParsedConfigIsShort(decode: Decode, buf: seq<byte>)
    ensures ParseBytes(decode, buf).Success? ==> Short(ParseBytes(decode, buf).cfg)
  {
    forall r: Input ensures ParseLists(decode, r).Some? ==> forall a :: a in ParseLists(decode, r).value.apps ==>
      |a.value| < 0x8000 {
      ParsedListsAreShort(decode, r);
    }
  }

  lemma ShortConfigFits(d: DriverConfig)
    requires Short(Load(d))
    ensures Fits(d)
  {
    forall a | a in d.apps ensures |a.value| < 0x8000 {
      var i :| 0 <= i < |d.apps| && d.apps[i] == a;
      assert Load(d).apps[i] in Load(d).apps && Load(d).apps[i].value == Lower(a.value);
    }
  }

  /**
   The driver reads back what user mode encoded exactly when every count is below 2^16 and every
   value below 2^15 characters: the length of a value is narrowed twice, once in the encoder and
   once, in bytes of UTF-16, in the driver.
   */
  lemma WireRoundTripIff(decode: Decode, d: DriverConfig)
    requires LowersAscii(decode) && AsciiApps(d.apps) && d.redirectPort < 0x1_0000 && d.redirectPid < 0x1_0000_0000
    ensures ParseBytes(decode, EncodeConfig(d)) == Success(Load(d), d.redirectPort, d.redirectPid) <==> Fits(d)
  {
    if Fits(d) {
      HeaderRoundTrip(decode, d);
      ReadPushedLists(decode, d);
    } else {
      ParsedConfigIsShort(decode, EncodeConfig(d));
      if Short(Load(d)) { ShortConfigFits(d); }
    }
  }

  /** From a split config through the wire into the kernel: the driver decides what user mode decides. */
  lemma SentConfigDecidesAlike(decode: Decode, parseIp: IpParser, cfg: SplitConfig, port: nat, pid: nat,
                               path: string, ntPath: string, ip: IpAddr)
    requires LowersAscii(decode)
    requires FromSplitConfig(parseIp, cfg, port, pid).Some? && port < 0x1_0000 && pid < 0x1_0000_0000
    requires forall i :: 0 <= i < |cfg.apps| ==> cfg.apps[i].ProcessName? && CleanName(cfg.apps[i].name)
    requires EqIgnoreCase(FileName(path), FileName(ntPath))
    requires var d := FromSplitConfig(parseIp, cfg, port, pid).value; AsciiApps(d.apps) && Fits(d)
    ensures var sent := ParseBytes(decode, EncodeConfig(FromSplitConfig(parseIp, cfg, port, pid).value));
            && sent.Success? && Loaded(sent.cfg)
            && AsAction(Ladder(sent.cfg, Lower(ntPath), ToJamm(ip))) ==
                 Decide(parseIp, ConnApp(Some(path), None), ip, cfg, true)
  {
    WireRoundTripIff(decode, FromSplitConfig(parseIp, cfg, port, pid).value);
    DriverAgreesWithDecide(parseIp, cfg, port, pid, path, ntPath, ip);
  }

  lemma KeptOfPadded(n: nat)
    requires n < 0x8000
    ensures KeptUnits(n + 0x8000) == n
  {
  }

  /** A value with 2^15 characters of padding arrives as the name in front of it. */
  lemma LongValueIsCut(decode: Decode, name: string, padding: string, rest: seq<byte>)
    requires LowersAscii(decode) && IsAscii(name) && IsAscii(padding) && |name| < 0x8000 == |padding|
    ensures ReadStr(decode, Some(PushStr(name + padding) + rest)) == (Lower(name), Some(rest))
  {
    ReadPushedStr(decode, name + padding, rest);
    LowerConcat(name, padding);
    KeptOfPadded(|name|);
    assert (Lower(name) + Lower(padding))[..|name|] == Lower(name);
  }

  // ----- the reader as the driver runs it -----

  /** What a loop ends with when it has already read `done`. */
  function Joined<T>(done: seq<T>, v: (seq<T>, Input)): (seq<T>, Input) {
    (done + v.0, v.1)
  }

  lemma NoneRead<T>(read: Input -> (T, Input), r: Input, n: nat)
    ensures Joined([], ReadMany(read, r, n)) == ReadMany(read, r, n)
  {
    var v := ReadMany(read, r, n);
    assert [] + v.0 == v.0;
  }

  lemma AllRead<T>(read: Input -> (T, Input), done: seq<T>, r: Input)
    ensures Joined(done, ReadMany(read, r, 0)) == (done, r)
  {
    assert done + [] == done;
  }

  /** One turn of a loop, after `done` and before `left` more. */
  lemma Turn<T>(read: Input -> (T, Input), done: seq<T>, r: Input, left: nat)
    ensures var (x, r1) := read(r);
            Joined(done, ReadMany(read, r, left + 1)) == if r1.None? then (done + [x], None)
              else Joined(done + [x], ReadMany(read, r1, left))
  {
    var (x, r1) := read(r);
    if r1.Some? { Regroup(done, [x], ReadMany(read, r1, left).0); }
  }

  class JammReader {
    const buf: seq<byte>
    const decode: Decode
    var pos: nat
    var ok: bool

    predicate Valid()
      reads this
    {
      pos <= |buf|
    }

    function Left(): Input
      requires Valid()
      reads this
    {
      if ok then Some(buf[pos..]) else None
    }

    constructor (buf: seq<byte>, decode: Decode)
      ensures Valid() && Left() == Some(buf) && this.decode == decode
    {
      this.buf := buf;
      this.decode := decode;
      pos, ok := 0, true;
    }

    method TakeBytes(n: nat) returns (b: Option<seq<byte>>)
      requires Valid()
      modifies this
      ensures Valid() && (b, Left()) == Take(old(Left()), n)
    {
      if !ok || |buf| - pos < n {
        ok := false;
        return None;
      }
      b := Some(buf[pos..pos + n]);
      assert buf[pos..][..n] == buf[pos..pos + n] && buf[pos..][n..] == buf[pos + n..];
      pos := pos + n;
    }

    method TakeU8() returns (v: byte)
      requires Valid()
      modifies this
      ensures Valid() && (v, Left()) == U8(old(Left()))
    {
      var b := TakeBytes(1);
      v := if b.Some? then b.value[0] else 0;
    }

    method TakeU16() returns (v: nat)
      requires Valid()
      modifies this
      ensures Valid() && (v, Left()) == U16(old(Left()))
    {
      var b := TakeBytes(2);
      v := if b.Some? then Word16(b.value[0], b.value[1]) else 0;
    }

    method TakeU32() returns (v: nat)
      requires Valid()
      modifies this
      ensures Valid() && (v, Left()) == U32(old(Left()))
    {
      var b := TakeBytes(4);
      v := if b.Some? then Word32(b.value[0], b.value[1], b.value[2], b.value[3]) else 0;
    }

    method TakeIp() returns (ip: JammIp)
      requires Valid()
      modifies this
      ensures Valid() && (ip, Left()) == ReadIp(old(Left()))
    {
      var family := TakeU8();
      var b := TakeBytes(16);
      if b.Some? && (family == 4 || family == 6) {
        ip := JammIp(family, b.value);
      } else {
        ip := JammIp(0, Zeros(16));
        ok := false;
      }
    }

    method TakeStr() returns (s: string)
      requires Valid()
      modifies this
      ensures Valid() && (s, Left()) == ReadStr(decode, old(Left()))
    {
      var len := TakeU16();
      var b := TakeBytes(len);
      if b.None? || len == 0 { return ""; }
      var units := decode(b.value);
      if units.None? || units.value == "" {
        ok := false;
        return "";
      }
      s := units.value[..KeptUnits(|units.value|)];
    }

    method TakeCidr() returns (c: JammCidr)
      requires Valid()
      modifies this
      ensures Valid() && (c, Left()) == ReadCidr(old(Left()))
    {
      var ip := TakeIp();
      var prefix := TakeU8();
      c := JammCidr(ip, prefix);
    }

    /** One turn of the loop below, after `done` and before `left` more. */
    method TakeNextCidr(ghost done: seq<JammCidr>, ghost left: nat) returns (item: JammCidr)
      requires Valid()
      modifies this
      ensures Valid()
      ensures Joined(done, ReadMany(ReadCidr, old(Left()), left + 1)) == if ok then
                Joined(done + [item], ReadMany(ReadCidr, Left(), left)) else (done + [item], None)
    {
      Turn(ReadCidr, done, Left(), left);
      item := TakeCidr();
    }

    /** The loop of `JammReadCidrList`. */
    method TakeCidrItems(n: nat) returns (list: seq<JammCidr>)
      requires Valid()
      modifies this
      ensures Valid() && (list, Left()) == ReadMany(ReadCidr, old(Left()), n)
    {
      list := [];
      ghost var all := ReadMany(ReadCidr, Left(), n);
      NoneRead(ReadCidr, Left(), n);
      var left := n;
      while left > 0
        invariant 0 <= left <= n && Valid()
        invariant Joined(list, ReadMany(ReadCidr, Left(), left)) == all
      {
        left := left - 1;
        var item := TakeNextCidr(list, left);
        list := list + [item];
        if !ok { return; }
      }
      AllRead(ReadCidr, list, Left());
    }

    method TakeApp() returns (app: JammApp)
      requires Valid()
      modifies this
      ensures Valid() && (app, Left()) == AppReader(decode)(old(Left()))
    {
      var byName := TakeU8();
      var value := TakeStr();
      app := JammApp(byName != 0, value);
    }

    /** One turn of the loop below, after `done` and before `left` more. */
    method TakeNextApp(ghost done: seq<JammApp>, ghost left: nat) returns (item: JammApp)
      requires Valid()
      modifies this
      ensures Valid()
      ensures Joined(done, ReadMany(AppReader(decode), old(Left()), left + 1)) == if ok then
                Joined(done + [item], ReadMany(AppReader(decode), Left(), left)) else (done + [item], None)
    {
      Turn(AppReader(decode), done, Left(), left);
      item := TakeApp();
    }

    /** The loop over the apps in `JammParseConfig`. */
    method TakeApps(n: nat) returns (list: seq<JammApp>)
      requires Valid()
      modifies this
      ensures Valid() && (list, Left()) == ReadMany(AppReader(decode), old(Left()), n)
    {
      list := [];
      ghost var all := ReadMany(AppReader(decode), Left(), n);
      NoneRead(AppReader(decode), Left(), n);
      var left := n;
      while left > 0
        invariant 0 <= left <= n && Valid()
        invariant Joined(list, ReadMany(AppReader(decode), Left(), left)) == all
      {
        left := left - 1;
        var item := TakeNextApp(list, left);
        list := list + [item];
        if !ok { return; }
      }
      AllRead(AppReader(decode), list, Left());
    }

    /** One turn of the loop below, after `done` and before `left` more. */
    method TakeNextIp(ghost done: seq<JammIp>, ghost left: nat) returns (item: JammIp)
      requires Valid()
      modifies this
      ensures Valid()
      ensures Joined(done, ReadMany(ReadIp, old(Left()), left + 1)) == if ok then
                Joined(done + [item], ReadMany(ReadIp, Left(), left)) else (done + [item], None)
    {
      Turn(ReadIp, done, Left(), left);
      item := TakeIp();
    }

    /** The loop over the endpoints in `JammParseConfig`. */
    method TakeIps(n: nat) returns (list: seq<JammIp>)
      requires Valid()
      modifies this
      ensures Valid() && (list, Left()) == ReadMany(ReadIp, old(Left()), n)
    {
      list := [];
      ghost var all := ReadMany(ReadIp, Left(), n);
      NoneRead(ReadIp, Left(), n);
      var left := n;
      while left > 0
        invariant 0 <= left <= n && Valid()
        invariant Joined(list, ReadMany(ReadIp, Left(), left)) == all
      {
        left := left - 1;
        var item := TakeNextIp(list, left);
        list := list + [item];
        if !ok { return; }
      }
      AllRead(ReadIp, list, Left());
    }

    method TakeCidrList() returns (list: seq<JammCidr>)
      requires Valid()
      modifies this
      ensures Valid() && (list, Left()) == ReadCidrs(old(Left()))
    {
      var n := TakeU16();
      list := TakeCidrItems(n);
    }

    method ParseConfig() returns (status: Status)
      requires Valid() && ok
      modifies this
      ensures status == ParseBytes(decode, old(Left()).value)
    {
      var magic := TakeBytes(4);
      if magic != Some(MAGIC) { return InvalidParameter; }
      var version := TakeU16();
      if version != VERSION { return RevisionMismatch; }
      var mode := TakeU8();
      var killSwitch := TakeU8();
      var port := TakeU16();
      var pid := TakeU32();
      var nApps := TakeU16();
      var apps := TakeApps(nApps);
      var bypass := TakeCidrList();
      var direct := TakeCidrList();
      var tunnel := TakeCidrList();
      var nEp := TakeU16();
      var endpoints := TakeIps(nEp);
      if !ok { return InvalidParameter; }
      status := Success(JammConfig(mode, killSwitch != 0, apps, bypass, direct, tunnel, endpoints), port, pid);
    }
  }
}
