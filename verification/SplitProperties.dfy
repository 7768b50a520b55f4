/** What the entries and switches of a split configuration do to the decision. */
module SplitProperties {
  import opened Wrappers
  import opened Ascii
  import opened Numerals
  import opened Cidr
  import opened SplitConfiguration
  import opened SplitDecision

  // ----- subnets as they are written -----

  lemma SlashSplits(text: string, suffix: string)
    requires '/' !in text
    ensures var s := text + "/" + suffix;
            Find(s, '/') == Some(|text|) && s[..|text|] == text && s[|text| + 1..] == suffix
  {
    FindFirst(text, '/', suffix);
    assert text + "/" + suffix == text + ['/'] + suffix;
  }

  /** An address and a decimal prefix make that very subnet, unless the prefix is longer than the address. */
  lemma WrittenSubnet(parseIp: IpParser, text: string, base: IpAddr, p: nat)
    requires '/' !in text && parseIp(text) == Some(base)
    ensures ParseCidr(parseIp, text + "/" + Decimal(p)) == if p <= base.Width() then Some(IpCidr(base, p)) else None
    ensures ParseCidr(parseIp, text) == Some(IpCidr(base, base.Width()))
  {
    SlashSplits(text, Decimal(p));
    DigitsOfDecimal(p);
    assert Decimal(p)[0] != '+';
    FindNone(text, '/');
  }

  /** Text before the slash that is no address, or a prefix that is no numeral, is no subnet. */
  lemma UnwrittenSubnet(parseIp: IpParser, text: string, suffix: string)
    requires '/' !in text
    requires || parseIp(text).None? || suffix == ""
             || exists i :: 0 <= i < |suffix| && !IsDigit(suffix[i]) && (i > 0 || suffix[i] != '+')
    ensures ParseCidr(parseIp, text + "/" + suffix) == None
    ensures parseIp(text).None? ==> ParseCidr(parseIp, text) == None
  {
    SlashSplits(text, suffix);
    FindNone(text, '/');
    if parseIp(text).Some? { NotANumeral(suffix, 255); }
  }

  // ----- what one entry does -----

  /** The address is of the family of `base` and shares its first `p` bits. */
  predicate Covers(base: IpAddr, p: nat, ip: IpAddr)
    requires p <= base.Width()
  {
    base.V4? == ip.V4? && SamePrefix(ip.Width(), base.Word(), ip.Word(), p)
  }

  predicate EntryContains(parseIp: IpParser, entry: string, ip: IpAddr) {
    ParseCidr(parseIp, entry).Some? && Cidr.Contains(ParseCidr(parseIp, entry).value, ip)
  }

  lemma EntryAmong(parseIp: IpParser, before: seq<string>, entry: string, after: seq<string>, ip: IpAddr)
    ensures CidrsContain(parseIp, before + ([entry] + after), ip) <==>
              EntryContains(parseIp, entry, ip) || CidrsContain(parseIp, before + after, ip)
  {
    var with, without, n := before + ([entry] + after), before + after, |before|;
    assert with[n] == entry;
    assert forall i :: 0 <= i < n ==> with[i] == without[i];
    assert forall i :: n < i < |with| ==> with[i] == without[i - 1];
    assert forall i :: n <= i < |without| ==> without[i] == with[i + 1];
  }

  lemma WrittenEntryCovers(parseIp: IpParser, text: string, base: IpAddr, p: nat, ip: IpAddr)
    requires '/' !in text && parseIp(text) == Some(base) && p <= base.Width()
    ensures EntryContains(parseIp, text + "/" + Decimal(p), ip) <==> Covers(base, p, ip)
  {
    WrittenSubnet(parseIp, text, base, p);
    ContainsIsSamePrefix(IpCidr(base, p), ip);
  }

  /** A subnet among those always sent directly takes the addresses it covers, and no others. */
  lemma DirectEntryTakesEffect(parseIp: IpParser, cfg: SplitConfig, before: seq<string>, after: seq<string>,
                               text: string, base: IpAddr, p: nat, app: ConnApp, ip: IpAddr, up: bool)
    requires '/' !in text && parseIp(text) == Some(base) && p <= base.Width()
    ensures var entry := text + "/" + Decimal(p);
            Decide(parseIp, app, ip, cfg.(forceDirect := before + ([entry] + after)), up) ==
              if Covers(base, p, ip) then GoDirect
              else Decide(parseIp, app, ip, cfg.(forceDirect := before + after), up)
  {
    WrittenEntryCovers(parseIp, text, base, p, ip);
    EntryAmong(parseIp, before, text + "/" + Decimal(p), after, ip);
  }

  /** A list ahead of the one for the tunnel has the address. */
  predicate SentDirectly(parseIp: IpParser, cfg: SplitConfig, ip: IpAddr) {
    || IsEndpoint(parseIp, cfg.serverEndpoints, ip)
    || AnyContains(ALWAYS_BYPASS, ip)
    || CidrsContain(parseIp, cfg.forceDirect, ip)
  }

  /** What becomes of traffic meant for the tunnel. */
  function ThroughTunnel(cfg: SplitConfig, up: bool): Action {
    if up then GoTunnel else if cfg.killSwitch then GoBlock else GoDirect
  }

  /** A subnet among those always tunnelled takes the addresses it covers and no earlier list has, and no others. */
  lemma TunnelEntryTakesEffect(parseIp: IpParser, cfg: SplitConfig, before: seq<string>, after: seq<string>,
                               text: string, base: IpAddr, p: nat, app: ConnApp, ip: IpAddr, up: bool)
    requires '/' !in text && parseIp(text) == Some(base) && p <= base.Width()
    ensures var entry := text + "/" + Decimal(p);
            Decide(parseIp, app, ip, cfg.(forceTunnel := before + ([entry] + after)), up) ==
              if SentDirectly(parseIp, cfg, ip) then GoDirect
              else if Covers(base, p, ip) then ThroughTunnel(cfg, up)
              else Decide(parseIp, app, ip, cfg.(forceTunnel := before + after), up)
  {
    WrittenEntryCovers(parseIp, text, base, p, ip);
    EntryAmong(parseIp, before, text + "/" + Decimal(p), after, ip);
  }

  lemma PortIsCut(parseIp: IpParser, text: string, port: nat)
    requires parseIp(text + ":" + Decimal(port)).None?
    ensures EndpointIp(parseIp, text + ":" + Decimal(port)) == parseIp(text)
  {
    FindLast(text, ':', Decimal(port));
    assert text + ":" + Decimal(port) == text + [':'] + Decimal(port);
    assert (text + [':'] + Decimal(port))[..|text|] == text;
  }

  /** A server endpoint, with or without its port, is always reached directly, and nothing else because of it. */
  lemma EndpointTakesEffect(parseIp: IpParser, cfg: SplitConfig, before: seq<string>, after: seq<string>,
                            text: string, server: IpAddr, port: nat, app: ConnApp, ip: IpAddr, up: bool)
    requires parseIp(text) == Some(server) && parseIp(text + ":" + Decimal(port)).None?
    ensures forall entry :: entry == text || entry == text + ":" + Decimal(port) ==>
              Decide(parseIp, app, ip, cfg.(serverEndpoints := before + ([entry] + after)), up) ==
                if ip == server then GoDirect
                else Decide(parseIp, app, ip, cfg.(serverEndpoints := before + after), up)
  {
    PortIsCut(parseIp, text, port);
    forall entry | entry == text || entry == text + ":" + Decimal(port)
      ensures IsEndpoint(parseIp, before + ([entry] + after), ip) <==>
                ip == server || IsEndpoint(parseIp, before + after, ip)
    {
      EndpointAmong(parseIp, before, entry, after, ip);
    }
  }

  lemma EndpointAmong(parseIp: IpParser, before: seq<string>, entry: string, after: seq<string>, ip: IpAddr)
    ensures IsEndpoint(parseIp, before + ([entry] + after), ip) <==>
              EndpointIp(parseIp, entry) == Some(ip) || IsEndpoint(parseIp, before + after, ip)
  {
    var with, without, n := before + ([entry] + after), before + after, |before|;
    assert with[n] == entry;
    assert forall i :: 0 <= i < n ==> with[i] == without[i];
    assert forall i :: n < i < |with| ==> with[i] == without[i - 1];
    assert forall i :: n <= i < |without| ==> without[i] == with[i + 1];
  }

  // ----- modes, apps and the kill switch -----

  /** An address on no list goes by its application: tunnelled if selected, or, in the other mode, if not. */
  lemma AppsDecideLast(parseIp: IpParser, cfg: SplitConfig, app: ConnApp, ip: IpAddr, up: bool)
    requires !SentDirectly(parseIp, cfg, ip) && !CidrsContain(parseIp, cfg.forceTunnel, ip)
    ensures Decide(parseIp, app, ip, cfg, up) ==
              if cfg.mode == Inclusive <==> exists i :: 0 <= i < |cfg.apps| && cfg.apps[i].Matches(app)
              then ThroughTunnel(cfg, up) else GoDirect
  {
  }

  /**
   Losing the tunnel changes nothing but what would have used it: that is blocked with the kill switch
   on and goes out directly with it off.
   */
  lemma TunnelLoss(parseIp: IpParser, cfg: SplitConfig, app: ConnApp, ip: IpAddr)
    ensures Decide(parseIp, app, ip, cfg, true) != GoBlock
    ensures Decide(parseIp, app, ip, cfg, false) ==
              if Decide(parseIp, app, ip, cfg, true) == GoTunnel && cfg.killSwitch then GoBlock else GoDirect
  {
  }

  /** A matcher by name reads the process name, and the file name of the path only where there is none. */
  lemma NameMatcherReads(n: string, path: Option<string>, name: string)
    ensures ProcessName(n).Matches(ConnApp(path, Some(name))) <==> EqIgnoreCase(name, n)
    ensures path.Some? ==>
              (ProcessName(n).Matches(ConnApp(path, None)) <==> EqIgnoreCase(FileName(path.value), n))
    ensures !ProcessName(n).Matches(UNKNOWN_APP) && !ExePath(n).Matches(UNKNOWN_APP)
    ensures ExePath(n).Matches(ConnApp(path, Some(name))) <==> path.Some? && EqIgnoreCase(path.value, n)
  {
  }
}
