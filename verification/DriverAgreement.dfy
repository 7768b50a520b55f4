/** The kernel ladder decides what the user-mode ladder decides. */
module DriverAgreement {
  import opened Bits
  import opened Wrappers
  import opened Ascii
  import opened Cidr
  import opened OctetPrefix
  import opened SplitConfiguration
  import opened SplitDecision
  import opened Driver

  // ----- addresses and subnets -----

  /** How an address travels to the driver. */
  function ToJamm(ip: IpAddr): (j: JammIp)
    ensures WellFormed(j)
  {
    match ip
    case V4(a) => JammIp(4, Octets(a, 4) + Zeros(12))
    case V6(a) => JammIp(6, Octets(a, 16))
  }

  function CidrToJamm(c: IpCidr): JammCidr {
    JammCidr(ToJamm(c.base), c.prefix)
  }

  function CidrsToJamm(list: seq<IpCidr>): (r: seq<JammCidr>)
    ensures |r| == |list| && forall i :: 0 <= i < |list| ==> r[i] == CidrToJamm(list[i])
    ensures WellFormedList(r)
  {
    seq(|list|, i requires 0 <= i < |list| => CidrToJamm(list[i]))
  }

  lemma OctetsInjective(x: nat, y: nat, n: nat)
    requires x < Pow2(8 * n) && y < Pow2(8 * n) && Octets(x, n) == Octets(y, n)
    ensures x == y
  {
    ValueOfOctets(x, n);
    ValueOfOctets(y, n);
  }

  lemma ToJammInjective(a: IpAddr, b: IpAddr)
    ensures ToJamm(a) == ToJamm(b) <==> a == b
  {
    Pow2Words();
    if ToJamm(a) == ToJamm(b) {
      if a.V4? {
        assert Octets(a.v4, 4) == ToJamm(a).addr[..4] && Octets(b.v4, 4) == ToJamm(b).addr[..4];
        OctetsInjective(a.v4, b.v4, 4);
      } else {
        OctetsInjective(a.v6, b.v6, 16);
      }
    }
  }

  /** The leading octets the driver compares, as many as the family has. */
  function Significant(ip: IpAddr): (o: seq<byte>)
    ensures |o| == ip.Width() / 8
  {
    Octets(ip.Word(), ip.Width() / 8)
  }

  lemma CidrHitIsBytesMatch(c: IpCidr, ip: IpAddr)
    requires c.Valid()
    ensures CidrHit(CidrToJamm(c), ToJamm(ip)) <==>
              c.base.V4? == ip.V4? && BytesMatch(Significant(c.base), Significant(ip), c.prefix)
  {
    if c.base.V4? == ip.V4? {
      var full := c.prefix / 8;
      assert ToJamm(c.base).addr[..full] == Significant(c.base)[..full];
      assert ToJamm(ip).addr[..full] == Significant(ip)[..full];
      if c.prefix % 8 != 0 {
        assert ToJamm(c.base).addr[full] == Significant(c.base)[full];
        assert ToJamm(ip).addr[full] == Significant(ip)[full];
      }
    }
  }

  lemma SignificantValue(ip: IpAddr)
    ensures Value(Significant(ip)) == ip.Word()
  {
    WordBounds(ip);
    ValueOfOctets(ip.Word(), ip.Width() / 8);
  }

  lemma CidrHitIsSamePrefix(c: IpCidr, ip: IpAddr)
    requires c.Valid()
    ensures CidrHit(CidrToJamm(c), ToJamm(ip)) <==>
              c.base.V4? == ip.V4? && SamePrefix(ip.Width(), c.base.Word(), ip.Word(), c.prefix)
  {
    CidrHitIsBytesMatch(c, ip);
    if c.base.V4? == ip.V4? {
      BytesMatchIsSamePrefix(Significant(c.base), Significant(ip), c.prefix);
      SignificantValue(c.base);
      SignificantValue(ip);
      assert 8 * |Significant(ip)| == ip.Width();
    }
  }

  /**
   Three forms of one test: the driver's bytes and remainder mask, the Rust word mask, and equal
   quotients by the block size.
   */
  lemma CidrFormsAgree(c: IpCidr, ip: IpAddr)
    requires c.Valid()
    ensures CidrHit(CidrToJamm(c), ToJamm(ip)) <==> Cidr.Contains(c, ip)
    ensures Cidr.Contains(c, ip) <==> c.base.V4? == ip.V4? && SamePrefix(ip.Width(), c.base.Word(), ip.Word(), c.prefix)
  {
    ContainsIsSamePrefix(c, ip);
    CidrHitIsSamePrefix(c, ip);
  }

  /** A prefix longer than the address, which only a foreign config can hold, is cut to the whole address. */
  lemma OverlongPrefixIsCut(c: JammCidr, ip: JammIp)
    requires WellFormed(c.ip) && WellFormed(ip) && c.prefix >= if ip.family == 4 then 32 else 128
    ensures CidrHit(c, ip) <==>
              c.ip.family == ip.family && forall i :: 0 <= i < (if ip.family == 4 then 4 else 16) ==>
                c.ip.addr[i] == ip.addr[i]
  {
    var n := if ip.family == 4 then 4 else 16;
    assert c.ip.addr[..n] == ip.addr[..n] <==> forall i :: 0 <= i < n ==> c.ip.addr[i] == ip.addr[i] by {
      assert forall i :: 0 <= i < n ==> c.ip.addr[..n][i] == c.ip.addr[i] && ip.addr[..n][i] == ip.addr[i];
    }
  }

  lemma ListsAgree(list: seq<IpCidr>, ip: IpAddr)
    requires forall i :: 0 <= i < |list| ==> list[i].Valid()
    ensures ListHit(CidrsToJamm(list), ToJamm(ip)) <==> AnyContains(list, ip)
  {
    forall i | 0 <= i < |list| ensures CidrHit(CidrsToJamm(list)[i], ToJamm(ip)) <==> Cidr.Contains(list[i], ip) {
      CidrFormsAgree(list[i], ip);
    }
  }

  // ----- the built-in bypass list -----

  lemma {:induction false} OctetsOf4(a: byte, b: byte, c: byte, d: byte)
    ensures Octets(((a * 256 + b) * 256 + c) * 256 + d, 4) == [a, b, c, d]
  {
    assert Octets(a, 1) == [a] by { assert Octets(a / 256, 0) == []; }
    assert Octets(a * 256 + b, 2) == [a, b];
    assert Octets((a * 256 + b) * 256 + c, 3) == [a, b, c];
  }

  /** `x` followed by `zeros` zero octets. */
  function Padded(x: nat, zeros: nat): nat {
    if zeros == 0 then x else 256 * Padded(x, zeros - 1)
  }

  lemma {:induction false} OctetsOfShifted(y: nat, n: nat)
    ensures Octets(256 * y, n + 1) == Octets(y, n) + [0]
  {
  }

  lemma {:induction false} OctetsOfPadded(x: nat, n: nat, zeros: nat)
    ensures Octets(Padded(x, zeros), n + zeros) == Octets(x, n) + Zeros(zeros)
  {
    if zeros == 0 {
      assert Octets(x, n) + Zeros(0) == Octets(x, n);
    } else {
      OctetsOfPadded(x, n, zeros - 1);
      OctetsOfShifted(Padded(x, zeros - 1), n + zeros - 1);
      assert Octets(x, n) + Zeros(zeros - 1) + [0] == Octets(x, n) + Zeros(zeros);
    }
  }

  lemma {:induction false} OctetsOfZero(n: nat)
    ensures Octets(0, n) == Zeros(n)
  {
    if n > 0 {
      OctetsOfZero(n - 1);
      assert Zeros(n - 1) + [0] == Zeros(n);
    }
  }

  lemma {:induction false} V4Entry(a: byte, b: byte, c: byte, d: byte, prefix: byte)
    ensures CidrToJamm(IpCidr(V4(((a * 256 + b) * 256 + c) * 256 + d), prefix)) ==
            JammCidr(JammIp(4, [a, b, c, d] + Zeros(12)), prefix)
  {
    OctetsOf4(a, b, c, d);
  }

  lemma LanEntries()
    ensures BUILTIN_BYPASS[0] == CidrToJamm(ALWAYS_BYPASS[0])
    ensures BUILTIN_BYPASS[1] == CidrToJamm(ALWAYS_BYPASS[1])
    ensures BUILTIN_BYPASS[2] == CidrToJamm(ALWAYS_BYPASS[2])
  {
    V4Entry(10, 0, 0, 0, 8);
    V4Entry(172, 16, 0, 0, 12);
    V4Entry(192, 168, 0, 0, 16);
    assert [10] + Zeros(15) == [10, 0, 0, 0] + Zeros(12);
    assert [172, 16] + Zeros(14) == [172, 16, 0, 0] + Zeros(12);
    assert [192, 168] + Zeros(14) == [192, 168, 0, 0] + Zeros(12);
  }

  lemma LoopbackEntries()
    ensures BUILTIN_BYPASS[3] == CidrToJamm(ALWAYS_BYPASS[3])
    ensures BUILTIN_BYPASS[4] == CidrToJamm(ALWAYS_BYPASS[4])
  {
    V4Entry(127, 0, 0, 0, 8);
    V4Entry(169, 254, 0, 0, 16);
    assert [127] + Zeros(15) == [127, 0, 0, 0] + Zeros(12);
    assert [169, 254] + Zeros(14) == [169, 254, 0, 0] + Zeros(12);
  }

  lemma GroupEntries()
    ensures BUILTIN_BYPASS[5] == CidrToJamm(ALWAYS_BYPASS[5])
    ensures BUILTIN_BYPASS[6] == CidrToJamm(ALWAYS_BYPASS[6])
  {
    V4Entry(224, 0, 0, 0, 4);
    V4Entry(255, 255, 255, 255, 32);
    assert [224] + Zeros(15) == [224, 0, 0, 0] + Zeros(12);
  }

  lemma {:induction false} PaddedIsShift(x: nat, zeros: nat)
    ensures Padded(x, zeros) == x * Pow2(8 * zeros)
  {
    if zeros > 0 {
      PaddedIsShift(x, zeros - 1);
      Pow2Words();
      Pow2Add(8, 8 * (zeros - 1));
      assert 8 + 8 * (zeros - 1) == 8 * zeros;
      Distribute(256, Pow2(8 * (zeros - 1)), x, 0);
    }
  }

  lemma Pow2Of112()
    ensures Pow2(112) == 0x1_0000_0000_0000_0000_0000_0000_0000
  {
    Pow2Square(7, 0x80);
    Pow2Square(14, 0x4000);
    Pow2Square(28, 0x1000_0000);
    Pow2Square(56, 0x100_0000_0000_0000);
  }

  lemma {:induction false} OctetsOf2(a: byte, b: byte)
    ensures Octets(a * 256 + b, 2) == [a, b]
  {
    assert Octets(a, 1) == [a] by { assert Octets(a / 256, 0) == []; }
  }

  lemma {:induction false} ShiftedGroup(x: nat)
    ensures Octets(x * 0x1_0000_0000_0000_0000_0000_0000_0000, 16) == Octets(x, 2) + Zeros(14)
  {
    OctetsOfPadded(x, 2, 14);
    PaddedIsShift(x, 14);
    Pow2Of112();
  }

  lemma {:induction false} V6Octets(a: byte, b: byte)
    ensures Octets((a * 256 + b) * 0x1_0000_0000_0000_0000_0000_0000_0000, 16) == [a, b] + Zeros(14)
  {
    OctetsOf2(a, b);
    ShiftedGroup(a * 256 + b);
  }

  lemma {:induction false} V6Entry(a: byte, b: byte, prefix: byte)
    ensures CidrToJamm(IpCidr(V6((a * 256 + b) * 0x1_0000_0000_0000_0000_0000_0000_0000), prefix)) ==
            JammCidr(JammIp(6, [a, b] + Zeros(14)), prefix)
  {
    V6Octets(a, b);
  }

  lemma LoopbackV6()
    ensures BUILTIN_BYPASS[7] == CidrToJamm(ALWAYS_BYPASS[7])
  {
    assert Octets(1, 16) == Octets(0, 15) + [1];
    OctetsOfZero(15);
  }

  lemma LinkLocalV6()
    ensures BUILTIN_BYPASS[8] == CidrToJamm(ALWAYS_BYPASS[8])
  {
    V6Entry(0xFE, 0x80, 10);
  }

  lemma UniqueLocalV6()
    ensures BUILTIN_BYPASS[9] == CidrToJamm(ALWAYS_BYPASS[9])
  {
    V6Entry(0xFC, 0, 7);
    assert [0xFC, 0] + Zeros(14) == [0xFC] + Zeros(15);
  }

  lemma MulticastV6()
    ensures BUILTIN_BYPASS[10] == CidrToJamm(ALWAYS_BYPASS[10])
  {
    V6Entry(0xFF, 0, 8);
    assert [0xFF, 0] + Zeros(14) == [0xFF] + Zeros(15);
  }

  lemma BuiltinEntry(i: nat)
    requires i < 11
    ensures BUILTIN_BYPASS[i] == CidrToJamm(ALWAYS_BYPASS[i]) && ALWAYS_BYPASS[i].Valid()
  {
    if i < 3 {
      LanEntries();
    } else if i < 7 {
      LoopbackEntries();
      GroupEntries();
    } else if i == 7 {
      LoopbackV6();
    } else if i == 8 {
      LinkLocalV6();
    } else if i == 9 {
      UniqueLocalV6();
    } else {
      MulticastV6();
    }
  }

  /** The byte literals in the driver are the subnets of `ALWAYS_BYPASS_CIDRS`. */
  lemma BuiltinBypassAgrees(ip: IpAddr)
    ensures ListHit(BUILTIN_BYPASS, ToJamm(ip)) <==> AnyContains(ALWAYS_BYPASS, ip)
  {
    forall i | 0 <= i < 11 ensures CidrHit(BUILTIN_BYPASS[i], ToJamm(ip)) <==> Cidr.Contains(ALWAYS_BYPASS[i], ip) {
      BuiltinEntry(i);
      CidrFormsAgree(ALWAYS_BYPASS[i], ip);
    }
  }

  // ----- application names -----

  /** A process name that no path separator splits. */
  predicate CleanName(n: string) {
    n != [] && SeparatorFree(n)
  }

  lemma LowerKeepsSeparators(s: string)
    ensures forall i :: 0 <= i < |s| ==> (IsSeparator(Lower(s)[i]) <==> IsSeparator(s[i]))
  {
  }

  /** A separator-free tail of length `k` lies after any separator `a` places from the end. */
  lemma TailAfterSeparator(path: string, a: nat, k: nat)
    requires a <= |path| && k <= |path| && (forall i :: |path| - k <= i < |path| ==> !IsSeparator(path[i]))
    requires a == |path| || IsSeparator(path[|path| - a - 1])
    ensures k <= a
  {
  }

  lemma TailIsSeparatorFree(path: string, f: string)
    requires EndsWith(path, f) && SeparatorFree(f)
    ensures forall i :: |path| - |f| <= i < |path| ==> !IsSeparator(path[i])
  {
    forall i | |path| - |f| <= i < |path| ensures !IsSeparator(path[i]) {
      assert path[i] == f[i - (|path| - |f|)];
    }
  }

  lemma {:induction false} SameTail(path: string, f: string, k: nat)
    requires EndsWith(path, f) && SeparatorFree(f) && (|f| == |path| || IsSeparator(path[|path| - |f| - 1]))
    requires k <= |path| && (forall i :: |path| - k <= i < |path| ==> !IsSeparator(path[i]))
    requires k == |path| || IsSeparator(path[|path| - k - 1])
    ensures f == path[|path| - k..]
  {
    TailIsSeparatorFree(path, f);
    TailAfterSeparator(path, |f|, k);
    TailAfterSeparator(path, k, |f|);
  }

  lemma {:induction false} FileNameUnique(path: string, k: nat)
    requires k <= |path| && (forall i :: |path| - k <= i < |path| ==> !IsSeparator(path[i]))
    requires k == |path| || IsSeparator(path[|path| - k - 1])
    ensures FileName(path) == path[|path| - k..]
  {
    FileNameShape(path);
    SameTail(path, FileName(path), k);
  }

  lemma {:induction false} LowerSuffix(s: string, k: nat)
    requires k <= |s|
    ensures Lower(s[|s| - k..]) == Lower(s)[|s| - k..]
  {
    var tail := s[|s| - k..];
    assert forall i :: 0 <= i < k ==> Lower(tail)[i] == Lower(s)[|s| - k + i];
  }

  lemma HitGivesFileName(n: string, path: string)
    requires CleanName(n) && AppHit(JammApp(true, Lower(n)), Lower(path))
    ensures EqIgnoreCase(FileName(path), n)
  {
    var v, app := Lower(n), Lower(path);
    assert |n| <= |path| && app[|path| - |n|..] == v;
    assert forall i :: 0 <= i < |v| ==> v[i] == app[|path| - |n| + i];
    LowerKeepsSeparators(n);
    LowerKeepsSeparators(path);
    FileNameUnique(path, |n|);
    LowerSuffix(path, |n|);
  }

  lemma FileNameGivesHit(n: string, path: string)
    requires CleanName(n) && EqIgnoreCase(FileName(path), n)
    ensures AppHit(JammApp(true, Lower(n)), Lower(path))
  {
    var f, v, app := FileName(path), Lower(n), Lower(path);
    assert |f| == |v| == |n|;
    FileNameShape(path);
    LowerSuffix(path, |f|);
    if |f| == |path| {
      assert f == path[0..] == path;
    } else {
      LowerKeepsSeparators(path);
      NameAfterSeparator(v, app);
    }
  }

  lemma NameAfterSeparator(v: string, app: string)
    requires v != [] && |v| < |app| && app[|app| - |v|..] == v && IsSeparator(app[|app| - |v| - 1])
    ensures AppHit(JammApp(true, v), app)
  {
  }

  /** The value alone, or a separator and then the value, ends the path exactly when its file name is the value. */
  lemma NameHitIsFileName(n: string, path: string)
    requires CleanName(n)
    ensures AppHit(JammApp(true, Lower(n)), Lower(path)) <==> EqIgnoreCase(FileName(path), n)
  {
    if AppHit(JammApp(true, Lower(n)), Lower(path)) { HitGivesFileName(n, path); }
    if EqIgnoreCase(FileName(path), n) { FileNameGivesHit(n, path); }
  }

  /** Driver and user mode agree on a process name for every path exactly when the name is clean. */
  lemma NamesAgreeIffClean(n: string)
    ensures CleanName(n) <==>
              forall path :: AppHit(JammApp(true, Lower(n)), Lower(path)) <==>
                ProcessName(n).Matches(ConnApp(Some(path), None))
  {
    if CleanName(n) {
      forall path ensures AppHit(JammApp(true, Lower(n)), Lower(path)) <==>
        ProcessName(n).Matches(ConnApp(Some(path), None)) {
        NameHitIsFileName(n, path);
      }
    } else if n == [] {
      assert FileName("/") == "";
      assert !AppHit(JammApp(true, Lower(n)), Lower("/"));
    } else {
      LowerKeepsSeparators(n);
      FileNameShape(n);
      LowerKeepsSeparators(FileName(n));
      assert AppHit(JammApp(true, Lower(n)), Lower(n));
      assert !EqIgnoreCase(FileName(n), n);
    }
  }

  /**
   A path matcher with a drive letter is compared by its tail only, since the kernel sees a device
   path: every executable user mode selects is selected, and so is the same path on another drive.
   */
  lemma PathHitIsTail(drive: char, tail: string, ntPath: string)
    requires tail != []
    ensures AppHit(JammApp(false, Lower([drive, ':'] + tail)), Lower(ntPath)) <==> EndsWith(Lower(ntPath), Lower(tail))
  {
    LowerConcat([drive, ':'], tail);
    assert Lower([drive, ':'] + tail)[1] == ':';
    assert Lower([drive, ':'] + tail)[2..] == Lower(tail);
  }

  /** A path matcher without a drive letter is compared as it is, and one of nothing else selects nothing. */
  lemma PathWithoutDrive(path: string, ntPath: string)
    requires |path| < 2 || path[1] != ':'
    ensures AppHit(JammApp(false, Lower(path)), Lower(ntPath)) <==> path != "" && EndsWith(Lower(ntPath), Lower(path))
    ensures forall drive: char :: !AppHit(JammApp(false, Lower([drive, ':'])), Lower(ntPath))
  {
    if |path| >= 2 { assert Lower(path)[1] == LowerChar(path[1]) != ':'; }
    forall drive: char ensures Lower([drive, ':'])[1] == ':' && Lower([drive, ':'])[2..] == "" {
    }
  }

  lemma PathHitCoversPath(drive: char, tail: string, exe: string, device: string)
    requires tail != [] && |exe| >= 2 && ExePath([drive, ':'] + tail).Matches(ConnApp(Some(exe), None))
    ensures AppHit(JammApp(false, Lower([drive, ':'] + tail)), Lower(device + exe[2..]))
  {
    PathHitIsTail(drive, tail, device + exe[2..]);
    LowerConcat([drive, ':'], tail);
    LowerConcat(exe[..2], exe[2..]);
    assert exe == exe[..2] + exe[2..];
    assert Lower(exe[2..]) == Lower(exe)[2..] == Lower(tail);
    LowerConcat(device, exe[2..]);
  }

  /** The same path on any other drive is selected too, and user mode does not select it. */
  lemma PathHitOtherDrive(drive: char, other: char, tail: string, device: string)
    requires tail != [] && LowerChar(other) != LowerChar(drive)
    ensures AppHit(JammApp(false, Lower([drive, ':'] + tail)), Lower(device + tail))
    ensures !ExePath([drive, ':'] + tail).Matches(ConnApp(Some([other, ':'] + tail), None))
  {
    PathHitIsTail(drive, tail, device + tail);
    LowerConcat(device, tail);
    assert Lower([other, ':'] + tail)[0] != Lower([drive, ':'] + tail)[0];
  }

  /** So every path matcher with a drive letter selects some image in the driver only. */
  lemma PathOverSelects(drive: char, tail: string, device: string)
    requires tail != []
    ensures exists exe :: |exe| >= 2 && AppHit(JammApp(false, Lower([drive, ':'] + tail)), Lower(device + exe[2..]))
                          && !ExePath([drive, ':'] + tail).Matches(ConnApp(Some(exe), None))
  {
    var other := if LowerChar(drive) == 'c' then 'd' else 'c';
    var exe := [other, ':'] + tail;
    PathHitOtherDrive(drive, other, tail, device);
    assert exe[2..] == tail;
  }

  // ----- the driver config -----

  datatype AppEntry = AppEntry(byName: bool, value: string)

  datatype DriverConfig = DriverConfig(
    mode: SplitMode,
    killSwitch: bool,
    redirectPort: nat,
    redirectPid: nat,
    apps: seq<AppEntry>,
    bypass: seq<IpCidr>,
    forceDirect: seq<IpCidr>,
    forceTunnel: seq<IpCidr>,
    endpoints: seq<IpAddr>
  )

  function ParseCidrs(parseIp: IpParser, list: seq<string>): (r: Option<seq<IpCidr>>)
    ensures r.Some? ==> forall i :: 0 <= i < |r.value| ==> r.value[i].Valid()
  {
    if list == [] then Some([])
    else
      var first, rest := ParseCidr(parseIp, list[0]), ParseCidrs(parseIp, list[1..]);
      if first.None? || rest.None? then None else Some([first.value] + rest.value)
  }

  function EndpointIps(parseIp: IpParser, list: seq<string>): seq<IpAddr> {
    if list == [] then []
    else
      (if EndpointIp(parseIp, list[0]).Some? then [EndpointIp(parseIp, list[0]).value] else [])
      + EndpointIps(parseIp, list[1..])
  }

  function EntryOf(m: AppMatcher): AppEntry {
    match m
    case ExePath(p) => AppEntry(false, p)
    case ProcessName(n) => AppEntry(true, n)
  }

  function Entries(apps: seq<AppMatcher>): (r: seq<AppEntry>)
    ensures |r| == |apps| && forall i :: 0 <= i < |apps| ==> r[i] == EntryOf(apps[i])
  {
    seq(|apps|, i requires 0 <= i < |apps| => EntryOf(apps[i]))
  }

  /** `DriverConfig::from_split_config`: an unparsable subnet rejects the whole config. */
  function FromSplitConfig(parseIp: IpParser, cfg: SplitConfig, port: nat, pid: nat): Option<DriverConfig> {
    var direct, tunnel := ParseCidrs(parseIp, cfg.forceDirect), ParseCidrs(parseIp, cfg.forceTunnel);
    if direct.None? || tunnel.None? then None
    else Some(DriverConfig(cfg.mode, cfg.killSwitch, port, pid, Entries(cfg.apps), ALWAYS_BYPASS,
                           direct.value, tunnel.value, EndpointIps(parseIp, cfg.serverEndpoints)))
  }

  lemma {:induction false} AllSubnetsParse(parseIp: IpParser, list: seq<string>)
    ensures ParseCidrs(parseIp, list).Some? <==>
              forall i :: 0 <= i < |list| ==> ParseCidr(parseIp, list[i]).Some?
    ensures ParseCidrs(parseIp, list).Some? ==>
              && |ParseCidrs(parseIp, list).value| == |list|
              && forall i :: 0 <= i < |list| ==> ParseCidr(parseIp, list[i]) == Some(ParseCidrs(parseIp, list).value[i])
  {
    if list != [] {
      AllSubnetsParse(parseIp, list[1..]);
      assert forall i :: 0 < i < |list| ==> list[i] == list[1..][i - 1];
    }
  }

  /**
   A split config goes to the driver exactly when every subnet in it parses, where user mode would skip
   the others; and then with its mode, kill switch, matchers and subnets in order, and redirect target.
   */
  lemma SentWhenAllParse(parseIp: IpParser, cfg: SplitConfig, port: nat, pid: nat)
    ensures FromSplitConfig(parseIp, cfg, port, pid).Some? <==>
              && (forall i :: 0 <= i < |cfg.forceDirect| ==> ParseCidr(parseIp, cfg.forceDirect[i]).Some?)
              && (forall i :: 0 <= i < |cfg.forceTunnel| ==> ParseCidr(parseIp, cfg.forceTunnel[i]).Some?)
    ensures FromSplitConfig(parseIp, cfg, port, pid).Some? ==>
              var d := FromSplitConfig(parseIp, cfg, port, pid).value;
              && d.mode == cfg.mode && d.killSwitch == cfg.killSwitch && d.redirectPort == port && d.redirectPid == pid
              && |d.apps| == |cfg.apps|
              && (forall i :: 0 <= i < |d.apps| ==>
                    match cfg.apps[i]
                    case ExePath(p) => d.apps[i] == AppEntry(false, p)
                    case ProcessName(n) => d.apps[i] == AppEntry(true, n))
              && |d.forceDirect| == |cfg.forceDirect| && |d.forceTunnel| == |cfg.forceTunnel|
              && (forall i :: 0 <= i < |d.forceDirect| ==>
                    ParseCidr(parseIp, cfg.forceDirect[i]) == Some(d.forceDirect[i]))
              && (forall i :: 0 <= i < |d.forceTunnel| ==>
                    ParseCidr(parseIp, cfg.forceTunnel[i]) == Some(d.forceTunnel[i]))
  {
    AllSubnetsParse(parseIp, cfg.forceDirect);
    AllSubnetsParse(parseIp, cfg.forceTunnel);
  }

  function Apps(apps: seq<AppEntry>): (r: seq<JammApp>)
    ensures |r| == |apps| && forall i :: 0 <= i < |apps| ==> r[i] == JammApp(apps[i].byName, Lower(apps[i].value))
  {
    seq(|apps|, i requires 0 <= i < |apps| => JammApp(apps[i].byName, Lower(apps[i].value)))
  }

  function Ips(ips: seq<IpAddr>): (r: seq<JammIp>)
    ensures |r| == |ips| && forall i :: 0 <= i < |ips| ==> r[i] == ToJamm(ips[i])
  {
    seq(|ips|, i requires 0 <= i < |ips| => ToJamm(ips[i]))
  }

  /** What the driver holds after reading that config: values in lower case, addresses in 16 bytes. */
  function Load(d: DriverConfig): (cfg: JammConfig)
    ensures Loaded(cfg)
  {
    JammConfig(if d.mode.Inclusive? then 0 else 1, d.killSwitch, Apps(d.apps),
               CidrsToJamm(d.bypass), CidrsToJamm(d.forceDirect), CidrsToJamm(d.forceTunnel), Ips(d.endpoints))
  }

  lemma AnyContainsCons(first: IpCidr, rest: seq<IpCidr>, ip: IpAddr)
    ensures AnyContains([first] + rest, ip) <==> Cidr.Contains(first, ip) || AnyContains(rest, ip)
  {
    var all := [first] + rest;
    assert all[0] == first;
    assert forall i :: 0 <= i < |rest| ==> all[i + 1] == rest[i];
    if AnyContains(rest, ip) {
      var i :| 0 <= i < |rest| && Cidr.Contains(rest[i], ip);
      assert Cidr.Contains(all[i + 1], ip);
    }
  }

  lemma {:induction false} ParsedListAgrees(parseIp: IpParser, list: seq<string>, ip: IpAddr)
    requires ParseCidrs(parseIp, list).Some?
    ensures AnyContains(ParseCidrs(parseIp, list).value, ip) <==> CidrsContain(parseIp, list, ip)
  {
    if list != [] {
      var first, rest := ParseCidr(parseIp, list[0]).value, ParseCidrs(parseIp, list[1..]).value;
      ParsedListAgrees(parseIp, list[1..], ip);
      assert ParseCidrs(parseIp, list).value == [first] + rest;
      AnyContainsCons(first, rest, ip);
      assert CidrsContain(parseIp, list, ip) <==> Cidr.Contains(first, ip) || CidrsContain(parseIp, list[1..], ip) by {
        assert forall i :: 0 <= i < |list[1..]| ==> list[1..][i] == list[i + 1];
      }
    }
  }

  lemma {:induction false} EndpointsAgree(parseIp: IpParser, list: seq<string>, ip: IpAddr)
    ensures ip in EndpointIps(parseIp, list) <==> IsEndpoint(parseIp, list, ip)
  {
    if list != [] {
      EndpointsAgree(parseIp, list[1..], ip);
      assert forall i :: 0 <= i < |list[1..]| ==> list[1..][i] == list[i + 1];
    }
  }

  lemma EndpointListAgrees(ips: seq<IpAddr>, ip: IpAddr)
    ensures ToJamm(ip) in Ips(ips) <==> ip in ips
  {
    forall i | 0 <= i < |ips| ensures Ips(ips)[i] == ToJamm(ip) <==> ips[i] == ip {
      ToJammInjective(ips[i], ip);
    }
  }

  lemma EntryAgrees(m: AppMatcher, path: string, ntPath: string)
    requires m.ProcessName? && CleanName(m.name) && EqIgnoreCase(FileName(path), FileName(ntPath))
    ensures AppHit(JammApp(true, Lower(m.name)), Lower(ntPath)) <==> m.Matches(ConnApp(Some(path), None))
  {
    NameHitIsFileName(m.name, ntPath);
  }

  lemma SelectionAgrees(apps: seq<AppMatcher>, path: string, ntPath: string)
    requires forall i :: 0 <= i < |apps| ==> apps[i].ProcessName? && CleanName(apps[i].name)
    requires EqIgnoreCase(FileName(path), FileName(ntPath))
    ensures (exists i :: 0 <= i < |apps| && AppHit(Apps(Entries(apps))[i], Lower(ntPath))) <==>
              AnyAppMatches(apps, ConnApp(Some(path), None))
  {
    forall i | 0 <= i < |apps|
      ensures AppHit(Apps(Entries(apps))[i], Lower(ntPath)) <==> apps[i].Matches(ConnApp(Some(path), None))
    {
      EntryAgrees(apps[i], path, ntPath);
    }
  }

  function AsAction(d: JammDecision): Action {
    match d
    case JammDirect => GoDirect
    case JammTunnel => GoTunnel
    case JammBlock => GoBlock
  }

  /**
   For a config whose apps are clean process names, the driver decides for every image and
   destination what user mode decides with the tunnel up. The driver sees the image under its
   device path, with the same file name.
   */
  lemma DriverAgreesWithDecide(parseIp: IpParser, cfg: SplitConfig, port: nat, pid: nat, path: string, ntPath: string,
                               ip: IpAddr)
    requires FromSplitConfig(parseIp, cfg, port, pid).Some?
    requires forall i :: 0 <= i < |cfg.apps| ==> cfg.apps[i].ProcessName? && CleanName(cfg.apps[i].name)
    requires EqIgnoreCase(FileName(path), FileName(ntPath))
    ensures AsAction(Ladder(Load(FromSplitConfig(parseIp, cfg, port, pid).value), Lower(ntPath), ToJamm(ip))) ==
            Decide(parseIp, ConnApp(Some(path), None), ip, cfg, true)
  {
    var d := FromSplitConfig(parseIp, cfg, port, pid).value;
    EndpointsAgree(parseIp, cfg.serverEndpoints, ip);
    EndpointListAgrees(d.endpoints, ip);
    BuiltinBypassAgrees(ip);
    forall i | 0 <= i < |ALWAYS_BYPASS| ensures ALWAYS_BYPASS[i].Valid() { BuiltinEntry(i); }
    ListsAgree(d.bypass, ip);
    ListsAgree(d.forceDirect, ip);
    ListsAgree(d.forceTunnel, ip);
    ParsedListAgrees(parseIp, cfg.forceDirect, ip);
    ParsedListAgrees(parseIp, cfg.forceTunnel, ip);
    SelectionAgrees(cfg.apps, path, ntPath);
  }
}
