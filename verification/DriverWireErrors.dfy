/** What the driver's parser refuses: cut and foreign configs, `JammParseConfig` in `wfp-driver/src/driver.c`. */
module DriverWireErrors {
  import opened Bits
  import opened Wrappers
  import opened Sequences
  import opened ByteText
  import opened Driver
  import opened DriverAgreement
  import opened DriverWire

  // ----- more bytes behind a value do not change how it is read -----

  /** What was read from `ys`, with `zs` still left behind the rest. */
  function Behind<T>(v: (T, Input), zs: seq<byte>): (T, Input) {
    (v.0, if v.1.Some? then Some(v.1.value + zs) else None)
  }

  ghost predicate Steady<T(!new)>(read: Input -> (T, Input)) {
    && read(None).1 == None
    && forall ys, zs :: read(Some(ys)).1.Some? ==> read(Some(ys + zs)) == Behind(read(Some(ys)), zs)
  }

  lemma TakeSteady(ys: seq<byte>, zs: seq<byte>, n: nat)
    requires n <= |ys|
    ensures Take(Some(ys + zs), n) == (Some(ys[..n]), Some(ys[n..] + zs))
  {
    assert (ys + zs)[..n] == ys[..n] && (ys + zs)[n..] == ys[n..] + zs;
  }

  lemma U8Steady(ys: seq<byte>, zs: seq<byte>)
    requires U8(Some(ys)).1.Some?
    ensures U8(Some(ys + zs)) == Behind(U8(Some(ys)), zs)
  {
    TakeSteady(ys, zs, 1);
  }

  lemma U16Steady(ys: seq<byte>, zs: seq<byte>)
    requires U16(Some(ys)).1.Some?
    ensures U16(Some(ys + zs)) == Behind(U16(Some(ys)), zs)
  {
    TakeSteady(ys, zs, 2);
  }

  lemma U32Steady(ys: seq<byte>, zs: seq<byte>)
    requires U32(Some(ys)).1.Some?
    ensures U32(Some(ys + zs)) == Behind(U32(Some(ys)), zs)
  {
    TakeSteady(ys, zs, 4);
  }

  lemma IpSteady(ys: seq<byte>, zs: seq<byte>)
    requires ReadIp(Some(ys)).1.Some?
    ensures ReadIp(Some(ys + zs)) == Behind(ReadIp(Some(ys)), zs)
  {
    var (family, r) := U8(Some(ys));
    U8Steady(ys, zs);
    TakeSteady(r.value, zs, 16);
  }

  lemma StrSteady(decode: Decode, ys: seq<byte>, zs: seq<byte>)
    requires ReadStr(decode, Some(ys)).1.Some?
    ensures ReadStr(decode, Some(ys + zs)) == Behind(ReadStr(decode, Some(ys)), zs)
  {
    var (len, r) := U16(Some(ys));
    U16Steady(ys, zs);
    TakeSteady(r.value, zs, len);
  }

  lemma CidrSteady(ys: seq<byte>, zs: seq<byte>)
    requires ReadCidr(Some(ys)).1.Some?
    ensures ReadCidr(Some(ys + zs)) == Behind(ReadCidr(Some(ys)), zs)
  {
    IpSteady(ys, zs);
    U8Steady(ReadIp(Some(ys)).1.value, zs);
  }

  lemma AppSteady(decode: Decode, ys: seq<byte>, zs: seq<byte>)
    requires ReadApp(decode, Some(ys)).1.Some?
    ensures ReadApp(decode, Some(ys + zs)) == Behind(ReadApp(decode, Some(ys)), zs)
  {
    U8Steady(ys, zs);
    StrSteady(decode, U8(Some(ys)).1.value, zs);
  }

  lemma ItemsSteady(decode: Decode)
    ensures Steady(ReadIp) && Steady(ReadCidr) && Steady(AppReader(decode))
  {
    forall ys, zs | ReadIp(Some(ys)).1.Some? ensures ReadIp(Some(ys + zs)) == Behind(ReadIp(Some(ys)), zs) {
      IpSteady(ys, zs);
    }
    forall ys, zs | ReadCidr(Some(ys)).1.Some? ensures ReadCidr(Some(ys + zs)) == Behind(ReadCidr(Some(ys)), zs) {
      CidrSteady(ys, zs);
    }
    forall ys, zs | ReadApp(decode, Some(ys)).1.Some?
      ensures ReadApp(decode, Some(ys + zs)) == Behind(ReadApp(decode, Some(ys)), zs)
    {
      AppSteady(decode, ys, zs);
    }
  }

  lemma {:induction false} ManySteady<T(!new)>(read: Input -> (T, Input), ys: seq<byte>, zs: seq<byte>, n: nat)
    requires Steady(read) && ReadMany(read, Some(ys), n).1.Some?
    ensures ReadMany(read, Some(ys + zs), n) == Behind(ReadMany(read, Some(ys), n), zs)
    decreases n
  {
    if n > 0 {
      var (_, r1) := read(Some(ys));
      assert read(Some(ys + zs)) == Behind(read(Some(ys)), zs);
      ManySteady(read, r1.value, zs, n - 1);
    }
  }

  /** A reader that has failed stays failed, however many items are asked of it. */
  lemma FailedStays<T(!new)>(read: Input -> (T, Input), n: nat)
    requires Steady(read)
    ensures n > 0 ==> ReadMany(read, None, n).1 == None
  {
  }

  lemma CidrsSteady(ys: seq<byte>, zs: seq<byte>)
    requires Steady(ReadCidr) && ReadCidrs(Some(ys)).1.Some?
    ensures ReadCidrs(Some(ys + zs)) == Behind(ReadCidrs(Some(ys)), zs)
  {
    var (n, r1) := U16(Some(ys));
    FailedStays(ReadCidr, n);
    U16Steady(ys, zs);
    ManySteady(ReadCidr, r1.value, zs, n);
  }

  lemma FailedCidrs()
    ensures ReadCidrs(None).1 == None
  {
  }

  lemma AppsSteady(decode: Decode, ys: seq<byte>, zs: seq<byte>)
    requires Steady(AppReader(decode))
    requires var (n, r1) := U16(Some(ys)); ReadMany(AppReader(decode), r1, n).1.Some?
    ensures var (n, r1) := U16(Some(ys));
            var (m, r2) := U16(Some(ys + zs));
            m == n && ReadMany(AppReader(decode), r2, n) == Behind(ReadMany(AppReader(decode), r1, n), zs)
  {
    var (n, r1) := U16(Some(ys));
    FailedStays(AppReader(decode), n);
    U16Steady(ys, zs);
    ManySteady(AppReader(decode), r1.value, zs, n);
  }

  lemma EndpointsSteady(ys: seq<byte>, zs: seq<byte>)
    requires Steady(ReadIp)
    requires var (n, r1) := U16(Some(ys)); ReadMany(ReadIp, r1, n).1.Some?
    ensures var (n, r1) := U16(Some(ys));
            var (m, r2) := U16(Some(ys + zs));
            m == n && ReadMany(ReadIp, r2, n) == Behind(ReadMany(ReadIp, r1, n), zs)
  {
    var (n, r1) := U16(Some(ys));
    FailedStays(ReadIp, n);
    U16Steady(ys, zs);
    ManySteady(ReadIp, r1.value, zs, n);
  }

  lemma ListsSteady(decode: Decode, ys: seq<byte>, zs: seq<byte>)
    requires ReadLists(decode, Some(ys)).1.Some?
    ensures ReadLists(decode, Some(ys + zs)) == Behind(ReadLists(decode, Some(ys)), zs)
  {
    ItemsSteady(decode);
    FailedCidrs();
    var (n, r5) := U16(Some(ys));
    var (apps, r6) := ReadMany(AppReader(decode), r5, n);
    var (bypass, r7) := ReadCidrs(r6);
    var (direct, r8) := ReadCidrs(r7);
    var (tunnel, r9) := ReadCidrs(r8);
    AppsSteady(decode, ys, zs);
    CidrsSteady(r6.value, zs);
    CidrsSteady(r7.value, zs);
    CidrsSteady(r8.value, zs);
    EndpointsSteady(r9.value, zs);
  }

  // ----- whole configs -----

  /** What follows the version: two flags, port and process, then the lists. */
  function AfterFields(r: Input): Input {
    U32(U16(U8(U8(r).1).1).1).1
  }

  /** What the parser leaves of a config after its last list. */
  function Leftover(decode: Decode, buf: seq<byte>): Input {
    ReadLists(decode, AfterFields(U16(Take(Some(buf), 4).1).1)).1
  }

  lemma HeaderSteady(ys: seq<byte>, zs: seq<byte>)
    requires AfterFields(Some(ys)).Some?
    ensures AfterFields(Some(ys + zs)) == Some(AfterFields(Some(ys)).value + zs)
    ensures var (mode, r1) := U8(Some(ys));
            var (kill, r2) := U8(r1);
            var (mode', s1) := U8(Some(ys + zs));
            var (kill', s2) := U8(s1);
            mode' == mode && kill' == kill && U16(s2).0 == U16(r2).0 && U32(U16(s2).1).0 == U32(U16(r2).1).0
  {
    var r1 := U8(Some(ys)).1;
    var r2 := U8(r1).1;
    var r3 := U16(r2).1;
    U8Steady(ys, zs);
    U8Steady(r1.value, zs);
    U16Steady(r2.value, zs);
    U32Steady(r3.value, zs);
  }

  lemma FailedLists(decode: Decode)
    ensures ReadLists(decode, None).1 == None
  {
    FailedCidrs();
  }

  lemma FieldsSteady(decode: Decode, ys: seq<byte>, zs: seq<byte>)
    requires ParseFields(decode, Some(ys)).Success?
    ensures ParseFields(decode, Some(ys + zs)) == ParseFields(decode, Some(ys))
    ensures ReadLists(decode, AfterFields(Some(ys))).1.Some?
    ensures ReadLists(decode, AfterFields(Some(ys + zs))).1 ==
            Some(ReadLists(decode, AfterFields(Some(ys))).1.value + zs)
  {
    FailedLists(decode);
    HeaderSteady(ys, zs);
    ListsSteady(decode, AfterFields(Some(ys)).value, zs);
  }

  /** Bytes behind an accepted config are ignored. */
  lemma TrailingBytesIgnored(decode: Decode, buf: seq<byte>, extra: seq<byte>)
    requires ParseBytes(decode, buf).Success?
    ensures ParseBytes(decode, buf + extra) == ParseBytes(decode, buf)
    ensures Leftover(decode, buf).Some? && Leftover(decode, buf + extra) == Some(Leftover(decode, buf).value + extra)
  {
    var r1 := Take(Some(buf), 4).1;
    TakeSteady(buf, extra, 4);
    U16Steady(r1.value, extra);
    FieldsSteady(decode, U16(r1).1.value, extra);
  }

  lemma NothingLeft(decode: Decode, d: DriverConfig)
    requires LowersAscii(decode) && AsciiApps(d.apps) && Fits(d)
    ensures Leftover(decode, EncodeConfig(d)) == Some([])
  {
    var mode: byte, kill: byte := if d.mode.Inclusive? then 0 else 1, if d.killSwitch then 1 else 0;
    var r4 := PushU32(d.redirectPid) + PushLists(d);
    var r3 := PushU16(d.redirectPort) + r4;
    var r2 := [mode, kill] + r3;
    TakeFront(MAGIC, PushU16(VERSION) + r2);
    TakeFront(PushU16(VERSION), r2);
    TwoBytes(mode, kill, r3);
    ReadU8(mode, [kill] + r3);
    ReadU8(kill, r3);
    TakeFront(PushU16(d.redirectPort), r4);
    TakeFront(PushU32(d.redirectPid), PushLists(d));
    ReadPushedLists(decode, d);
  }

  lemma {:induction false} CutIsRejected(decode: Decode, whole: seq<byte>, n: nat)
    requires n < |whole| && Leftover(decode, whole) == Some([])
    ensures !ParseBytes(decode, whole[..n]).Success?
  {
    assert whole[..n] + whole[n..] == whole;
    if ParseBytes(decode, whole[..n]).Success? { TrailingBytesIgnored(decode, whole[..n], whole[n..]); }
  }

  /** No config that was cut short is accepted, wherever it was cut. */
  lemma TruncatedIsRejected(decode: Decode, d: DriverConfig, n: nat)
    requires LowersAscii(decode) && AsciiApps(d.apps) && Fits(d)
    requires n < |EncodeConfig(d)|
    ensures !ParseBytes(decode, EncodeConfig(d)[..n]).Success?
  {
    NothingLeft(decode, d);
    CutIsRejected(decode, EncodeConfig(d), n);
  }

  // ----- foreign configs -----

  /** Another magic number is refused as such, and then another version as such. */
  lemma HeaderDecides(decode: Decode, buf: seq<byte>)
    ensures var magic := |buf| >= 4 && buf[..4] == [0x4A, 0x56, 0x50, 0x31];
            var version := |buf| >= 6 && buf[4] == 2 && buf[5] == 0;
            && (ParseBytes(decode, buf) == RevisionMismatch <==> magic && !version)
            && (ParseBytes(decode, buf).Success? ==> magic && version)
  {
  }

  ghost predicate KnownFamily(ip: JammIp) {
    (ip.family == 4 || ip.family == 6) && WellFormed(ip)
  }

  lemma {:induction false} EndpointsKnown(r: Input, n: nat)
    ensures ReadMany(ReadIp, r, n).1.Some? ==> forall i :: i in ReadMany(ReadIp, r, n).0 ==> KnownFamily(i)
    decreases n
  {
    if n > 0 && ReadIp(r).1.Some? { EndpointsKnown(ReadIp(r).1, n - 1); }
  }

  lemma {:induction false} SubnetsKnown(r: Input, n: nat)
    ensures ReadMany(ReadCidr, r, n).1.Some? ==> forall c :: c in ReadMany(ReadCidr, r, n).0 ==> KnownFamily(c.ip)
    decreases n
  {
    if n > 0 && ReadCidr(r).1.Some? { SubnetsKnown(ReadCidr(r).1, n - 1); }
  }

  lemma CidrsKnown(r: Input)
    ensures ReadCidrs(r).1.Some? ==> r.Some? && forall c :: c in ReadCidrs(r).0 ==> KnownFamily(c.ip)
  {
    SubnetsKnown(U16(r).1, U16(r).0);
  }

  /** Every address in an accepted config is of a known family, so a foreign one fails the whole config. */
  lemma AcceptedAddressesKnown(decode: Decode, buf: seq<byte>)
    requires ParseBytes(decode, buf).Success?
    ensures var cfg := ParseBytes(decode, buf).cfg;
            && (forall c :: c in cfg.bypass + cfg.forceDirect + cfg.forceTunnel ==> KnownFamily(c.ip))
            && (forall e :: e in cfg.endpoints ==> KnownFamily(e))
  {
    ListsKnown(decode, AfterFields(U16(Take(Some(buf), 4).1).1));
  }

  lemma ListsKnown(decode: Decode, r: Input)
    requires ReadLists(decode, r).1.Some?
    ensures var l := ReadLists(decode, r).0;
            && (forall c :: c in l.bypass + l.direct + l.tunnel ==> KnownFamily(c.ip))
            && (forall e :: e in l.endpoints ==> KnownFamily(e))
  {
    FailedCidrs();
    var (n, r5) := U16(r);
    var r6 := ReadMany(AppReader(decode), r5, n).1;
    var r7 := ReadCidrs(r6).1;
    var r8 := ReadCidrs(r7).1;
    var r9 := ReadCidrs(r8).1;
    CidrsKnown(r6);
    CidrsKnown(r7);
    CidrsKnown(r8);
    EndpointsKnown(U16(r9).1, U16(r9).0);
  }

  // ----- values that are no text -----

  /** The kernel refuses the bytes of a value, or makes nothing of them. */
  predicate Unreadable(decode: Decode, a: AppEntry) {
    IsByteText(a.value) && a.value != "" &&
    match decode(BytesOf(a.value))
    case None => true
    case Some(units) => units == ""
  }

  lemma ReadAnyStr(decode: Decode, s: string, rest: seq<byte>)
    requires IsByteText(s) && |s| < 0x1_0000
    ensures ReadStr(decode, Some(PushStr(s) + rest)).1 ==
            if Unreadable(decode, AppEntry(true, s)) then None else Some(rest)
  {
    var b := BytesOf(s);
    Regroup(PushU16(|s|), b, rest);
    ReadU16(|s|, b + rest);
    TakeFront(b, rest);
  }

  lemma ReadAnyApp(decode: Decode, a: AppEntry, rest: seq<byte>)
    requires IsByteText(a.value) && |a.value| < 0x1_0000
    ensures AppReader(decode)(Some(PushApp(a) + rest)).1 == if Unreadable(decode, a) then None else Some(rest)
  {
    var flag: byte := if a.byName then 1 else 0;
    Regroup([flag], PushStr(a.value), rest);
    ReadU8(flag, PushStr(a.value) + rest);
    ReadAnyStr(decode, a.value, rest);
  }

  lemma {:induction false} UnreadableFails(decode: Decode, apps: seq<AppEntry>, rest: seq<byte>)
    requires TextApps(apps) && forall a :: a in apps ==> |a.value| < 0x1_0000
    ensures ReadMany(AppReader(decode), Some(PushApps(apps) + rest), |apps|).1 ==
            if exists a :: a in apps && Unreadable(decode, a) then None else Some(rest)
    decreases |apps|
  {
    if apps == [] {
      assert PushApps(apps) + rest == rest;
    } else {
      var tail := PushApps(apps[1..]) + rest;
      Regroup(PushApp(apps[0]), PushApps(apps[1..]), rest);
      ReadAnyApp(decode, apps[0], tail);
      assert forall a :: a in apps <==> a == apps[0] || a in apps[1..];
      UnreadableFails(decode, apps[1..], rest);
    }
  }

  lemma FailedAppsFail(decode: Decode, r: Input)
    requires ReadMany(AppReader(decode), U16(r).1, U16(r).0).1 == None
    ensures ParseLists(decode, r) == None
  {
    FailedCidrs();
  }

  /** One value the kernel cannot read as text fails the whole config. */
  lemma UnreadableValueIsRejected(decode: Decode, d: DriverConfig)
    requires TextApps(d.apps) && |d.apps| < 0x1_0000 && d.redirectPort < 0x1_0000 && d.redirectPid < 0x1_0000_0000
    requires forall a :: a in d.apps ==> |a.value| < 0x1_0000
    requires exists a :: a in d.apps && Unreadable(decode, a)
    ensures ParseBytes(decode, EncodeConfig(d)) == InvalidParameter
  {
    var rest := PushCidrs(d.bypass) + (PushCidrs(d.forceDirect) +
      (PushCidrs(d.forceTunnel) + (PushU16(|d.endpoints|) + PushIps(d.endpoints))));
    Regroup(PushU16(|d.apps|), PushApps(d.apps), rest);
    ReadU16(|d.apps|, PushApps(d.apps) + rest);
    UnreadableFails(decode, d.apps, rest);
    FailedAppsFail(decode, Some(PushLists(d)));
    HeaderRoundTrip(decode, d);
  }
}
