/** Encoded geo databases parse back to themselves. */
module GeoRoundTrip {
  import opened ByteText
  import opened Wrappers
  import opened Ascii
  import opened Cidr
  import opened DomainIndex
  import opened GeoData
  import opened Protobuf
  import opened GeoParsing

  // ----- sizes -----

  /** Field numbers and varint values fit their words; lengths follow from the whole message's. */
  predicate NumbersFit(f: Field) {
    && 1 <= f.num && Tag(f.num, 7) < U64
    && (f.VarintField? ==> f.value < U64)
    && (f.Fixed64Field? ==> |f.data| == 8)
    && (f.Fixed32Field? ==> |f.data| == 4)
  }

  lemma {:induction false} SmallMessageFits(fields: seq<Field>)
    requires forall i :: 0 <= i < |fields| ==> NumbersFit(fields[i])
    requires |Encode(fields)| < U64
    ensures AllWellFormed(fields)
    ensures forall i :: 0 <= i < |fields| && fields[i].LenField? ==> |fields[i].data| < U64
  {
    if fields != [] {
      SmallMessageFits(fields[1..]);
      assert forall i :: 0 < i < |fields| ==> fields[i] == fields[1..][i - 1];
    }
  }

  // ----- the encoders -----

  datatype Site = Site(code: string, entries: seq<Entry>)
  datatype Country = Country(code: string, cidrs: seq<IpCidr>)

  predicate EntryFits(e: Entry) {
    e.dtype < U64 && IsByteText(e.value)
  }

  predicate SiteFits(s: Site) {
    IsByteText(s.code) && forall i :: 0 <= i < |s.entries| ==> EntryFits(s.entries[i])
  }

  /** `domain_msg`. */
  function DomainFields(e: Entry): seq<Field>
    requires EntryFits(e)
  {
    [VarintField(1, e.dtype), LenField(2, BytesOf(e.value))]
  }

  function EntryFields(entries: seq<Entry>): seq<Field>
    requires forall i :: 0 <= i < |entries| ==> EntryFits(entries[i])
  {
    if entries == [] then []
    else [LenField(2, Encode(DomainFields(entries[0])))] + EntryFields(entries[1..])
  }

  /** `geosite_entry`. */
  function SiteFields(s: Site): seq<Field>
    requires SiteFits(s)
  {
    [LenField(1, BytesOf(s.code))] + EntryFields(s.entries)
  }

  /** `list`. */
  function SiteListFields(sites: seq<Site>): seq<Field>
    requires forall i :: 0 <= i < |sites| ==> SiteFits(sites[i])
  {
    if sites == [] then []
    else [LenField(1, Encode(SiteFields(sites[0])))] + SiteListFields(sites[1..])
  }

  /** The database a list describes: per lower-cased code the last entry wins, nameless ones are dropped. */
  function SiteDbOf(sites: seq<Site>, db: GeoSiteDb): GeoSiteDb
    decreases |sites|
  {
    if sites == [] then db
    else
      var s := sites[0];
      SiteDbOf(sites[1..], if s.code == "" then db else db[Lower(s.code) := AddAll(EmptyIndex, s.entries)])
  }

  // ----- geosite -----

  lemma DomainParses(e: Entry)
    requires EntryFits(e) && |Encode(DomainFields(e))| < U64
    ensures DomainMessage(Encode(DomainFields(e))) == Ok(e)
  {
    var fields := DomainFields(e);
    SmallMessageFits(fields);
    ParseEncoded(fields, Entry(TYPE_PLAIN, ""), DomainStep);
    TextRoundTrip(e.value);
    FoldTwo(fields[0], fields[1], Entry(TYPE_PLAIN, ""), DomainStep);
  }

  lemma {:induction false} EntryFieldsFit(entries: seq<Entry>)
    requires forall i :: 0 <= i < |entries| ==> EntryFits(entries[i])
    ensures forall i :: 0 <= i < |EntryFields(entries)| ==> NumbersFit(EntryFields(entries)[i])
  {
    if entries != [] { EntryFieldsFit(entries[1..]); }
  }

  lemma {:induction false} EntriesFold(entries: seq<Entry>, code: string, index: Index)
    requires forall i :: 0 <= i < |entries| ==> EntryFits(entries[i])
    requires AllWellFormed(EntryFields(entries))
    ensures Fold(EntryFields(entries), (code, index), SiteStep) == Ok((code, AddAll(index, entries)))
    decreases entries
  {
    if entries != [] {
      var e, fields := entries[0], EntryFields(entries);
      assert fields[1..] == EntryFields(entries[1..]);
      assert WellFormed(fields[0]);
      DomainParses(e);
      assert forall i :: 0 <= i < |fields[1..]| ==> fields[1..][i] == fields[i + 1];
      EntriesFold(entries[1..], code, index.Add(e.dtype, e.value));
    }
  }

  lemma SiteParses(s: Site)
    requires SiteFits(s) && |Encode(SiteFields(s))| < U64
    ensures SiteMessage(Encode(SiteFields(s))) == Ok((Lower(s.code), AddAll(EmptyIndex, s.entries)))
  {
    var fields := SiteFields(s);
    EntryFieldsFit(s.entries);
    SmallMessageFits(fields);
    ParseEncoded(fields, ("", EmptyIndex), SiteStep);
    TextRoundTrip(s.code);
    assert fields[1..] == EntryFields(s.entries);
    assert forall i :: 0 <= i < |fields[1..]| ==> fields[1..][i] == fields[i + 1];
    EntriesFold(s.entries, Lower(s.code), EmptyIndex);
  }

  lemma {:induction false} SiteListFieldsFit(sites: seq<Site>)
    requires forall i :: 0 <= i < |sites| ==> SiteFits(sites[i])
    ensures forall i :: 0 <= i < |SiteListFields(sites)| ==> NumbersFit(SiteListFields(sites)[i])
  {
    if sites != [] { SiteListFieldsFit(sites[1..]); }
  }

  lemma {:induction false} SitesFold(sites: seq<Site>, db: GeoSiteDb)
    requires forall i :: 0 <= i < |sites| ==> SiteFits(sites[i])
    requires AllWellFormed(SiteListFields(sites))
    ensures Fold(SiteListFields(sites), db, SiteDbStep) == Ok(SiteDbOf(sites, db))
    decreases sites
  {
    if sites != [] {
      var s, fields := sites[0], SiteListFields(sites);
      assert fields[1..] == SiteListFields(sites[1..]);
      assert WellFormed(fields[0]);
      SiteParses(s);
      assert forall i :: 0 <= i < |fields[1..]| ==> fields[1..][i] == fields[i + 1];
      SitesFold(sites[1..], if s.code == "" then db else db[Lower(s.code) := AddAll(EmptyIndex, s.entries)]);
    }
  }

  /** Every encoded geosite list parses back to the database it describes. */
  lemma GeositeRoundTrip(sites: seq<Site>)
    requires forall i :: 0 <= i < |sites| ==> SiteFits(sites[i])
    requires |Encode(SiteListFields(sites))| < U64
    ensures SiteDbMessage(Encode(SiteListFields(sites))) == Ok(SiteDbOf(sites, map[]))
  {
    SiteListFieldsFit(sites);
    SmallMessageFits(SiteListFields(sites));
    var empty: GeoSiteDb := map[];
    ParseEncoded(SiteListFields(sites), empty, SiteDbStep);
    SitesFold(sites, map[]);
  }

  // ----- geosite queries -----

  /** The entry of the list that a lower-case code ends up naming. */
  ghost predicate LastNamed(sites: seq<Site>, code: string, i: nat) {
    && i < |sites| && sites[i].code != "" && Lower(sites[i].code) == code
    && (forall j :: i < j < |sites| ==> sites[j].code == "" || Lower(sites[j].code) != code)
  }

  function LastIndex(sites: seq<Site>, code: string): (r: Option<nat>)
    ensures r.Some? ==> r.value < |sites|
  {
    if sites == [] then None
    else
      match LastIndex(sites[1..], code)
      case Some(i) => Some(i + 1)
      case None => if sites[0].code != "" && Lower(sites[0].code) == code then Some(0) else None
  }

  lemma {:induction false} LastIndexIsLastNamed(sites: seq<Site>, code: string)
    ensures match LastIndex(sites, code)
            case Some(i) => LastNamed(sites, code, i)
            case None => forall j :: 0 <= j < |sites| ==> sites[j].code == "" || Lower(sites[j].code) != code
  {
    if sites != [] {
      LastIndexIsLastNamed(sites[1..], code);
      assert forall j :: 0 < j < |sites| ==> sites[j] == sites[1..][j - 1];
    }
  }

  lemma {:induction false} LastEntryWins(sites: seq<Site>, db: GeoSiteDb, code: string)
    ensures match LastIndex(sites, code)
            case Some(i) =>
              && code in SiteDbOf(sites, db)
              && SiteDbOf(sites, db)[code] == AddAll(EmptyIndex, sites[i].entries)
            case None =>
              && (code in SiteDbOf(sites, db) <==> code in db)
              && (code in db ==> SiteDbOf(sites, db)[code] == db[code])
    decreases |sites|
  {
    if sites != [] {
      var s := sites[0];
      LastEntryWins(sites[1..], if s.code == "" then db else db[Lower(s.code) := AddAll(EmptyIndex, s.entries)], code);
    }
  }

  ghost predicate SomeEntryMatches(entries: seq<Entry>, host: string) {
    exists k :: 0 <= k < |entries| && RuleMatches(entries[k], host)
  }

  /** Some entry of the last site under that code, read as a routing rule, matches the host. */
  ghost predicate LastSiteMatches(sites: seq<Site>, code: string, host: string) {
    exists i: nat :: LastNamed(sites, code, i) && SomeEntryMatches(sites[i].entries, host)
  }

  lemma CategoryMatchesRules(sites: seq<Site>, category: string, host: string)
    requires forall i, k :: 0 <= i < |sites| && 0 <= k < |sites[i].entries| ==> Clean(sites[i].entries[k])
    ensures SiteMatches(SiteDbOf(sites, map[]), category, host) <==> LastSiteMatches(sites, Lower(category), host)
  {
    var code := Lower(category);
    LastEntryWins(sites, map[], code);
    LastIndexIsLastNamed(sites, code);
    var last := LastIndex(sites, code);
    if last.Some? {
      CategoryOfSite(sites[last.value], host);
      assert forall j: nat :: LastNamed(sites, code, j) ==> j == last.value;
    }
  }

  /**
   From file to query: a host is in a category of the parsed file exactly when some entry of the
   last site under that code, read as a routing rule, matches it.
   */
  lemma ParsedCategoryMatchesRules(sites: seq<Site>, category: string, host: string)
    requires forall i :: 0 <= i < |sites| ==> SiteFits(sites[i])
    requires forall i, k :: 0 <= i < |sites| && 0 <= k < |sites[i].entries| ==> Clean(sites[i].entries[k])
    requires |Encode(SiteListFields(sites))| < U64
    ensures SiteDbMessage(Encode(SiteListFields(sites))).Ok?
    ensures SiteMatches(SiteDbMessage(Encode(SiteListFields(sites))).value, category, host)
            <==> LastSiteMatches(sites, Lower(category), host)
  {
    GeositeRoundTrip(sites);
    CategoryMatchesRules(sites, category, host);
  }

  lemma CategoryOfSite(s: Site, host: string)
    requires forall k :: 0 <= k < |s.entries| ==> Clean(s.entries[k])
    ensures AddAll(EmptyIndex, s.entries).Matches(host) <==> SomeEntryMatches(s.entries, host)
  {
    IndexAgreesWithRules(EmptyIndex, s.entries, host);
  }

  // ----- geoip -----

  /** `cidr_msg`. */
  function CidrFields(c: IpCidr): seq<Field> {
    [LenField(1, Octets(c.base.Word(), c.base.Width() / 8)), VarintField(2, c.prefix)]
  }

  function CidrListFields(cidrs: seq<IpCidr>): seq<Field> {
    if cidrs == [] then [] else [LenField(2, Encode(CidrFields(cidrs[0])))] + CidrListFields(cidrs[1..])
  }

  predicate CountryFits(c: Country) {
    IsByteText(c.code) && forall i :: 0 <= i < |c.cidrs| ==> c.cidrs[i].Valid()
  }

  /** `geoip_entry`. */
  function CountryFields(c: Country): seq<Field>
    requires CountryFits(c)
  {
    [LenField(1, BytesOf(c.code))] + CidrListFields(c.cidrs)
  }

  function CountryListFields(countries: seq<Country>): seq<Field>
    requires forall i :: 0 <= i < |countries| ==> CountryFits(countries[i])
  {
    if countries == [] then []
    else [LenField(1, Encode(CountryFields(countries[0])))] + CountryListFields(countries[1..])
  }

  function WithCountry(c: Country, db: GeoIpDb): GeoIpDb {
    if c.code == "" then db else db[Lower(c.code) := c.cidrs]
  }

  function GeoIpDbOf(countries: seq<Country>, db: GeoIpDb): GeoIpDb
    decreases |countries|
  {
    if countries == [] then db else GeoIpDbOf(countries[1..], WithCountry(countries[0], db))
  }

  lemma FinishedCidr(c: IpCidr)
    requires c.Valid()
    ensures FinishCidr(RawCidr(Some(Octets(c.base.Word(), c.base.Width() / 8)), Some(c.prefix))) == Some(c)
  {
    WordBounds(c.base);
    ValueOfOctets(c.base.Word(), c.base.Width() / 8);
  }

  lemma FoldTwo<A>(f: Field, g: Field, acc: A, step: (A, Field) -> Result<A, GeoError>)
    requires step(acc, f).Ok?
    ensures Fold([f, g], acc, step) == step(step(acc, f).value, g)
  {
    assert [f, g][1..] == [g] && [g][1..] == [];
    var mid := step(acc, f).value;
    if step(mid, g).Ok? { assert Fold([g][1..], step(mid, g).value, step) == Ok(step(mid, g).value); }
  }

  lemma CidrParses(c: IpCidr)
    requires c.Valid() && |Encode(CidrFields(c))| < U64
    ensures CidrMessage(Encode(CidrFields(c))) == Ok(Some(c))
  {
    SmallMessageFits(CidrFields(c));
    ParseEncoded(CidrFields(c), RawCidr(None, None), CidrStep);
    FoldTwo(CidrFields(c)[0], CidrFields(c)[1], RawCidr(None, None), CidrStep);
    FinishedCidr(c);
  }

  lemma {:induction false} CidrListFieldsFit(cidrs: seq<IpCidr>)
    ensures forall i :: 0 <= i < |CidrListFields(cidrs)| ==> NumbersFit(CidrListFields(cidrs)[i])
  {
    if cidrs != [] { CidrListFieldsFit(cidrs[1..]); }
  }

  lemma CidrFieldStep(c: IpCidr, code: string, acc: seq<IpCidr>)
    requires c.Valid() && |Encode(CidrFields(c))| < U64
    ensures CountryStep((code, acc), LenField(2, Encode(CidrFields(c)))) == Ok((code, acc + [c]))
  {
    CidrParses(c);
  }

  function AppendAll(acc: seq<IpCidr>, cidrs: seq<IpCidr>): seq<IpCidr>
    decreases |cidrs|
  {
    if cidrs == [] then acc else AppendAll(acc + [cidrs[0]], cidrs[1..])
  }

  lemma {:induction false} AppendAllIsConcat(acc: seq<IpCidr>, cidrs: seq<IpCidr>)
    ensures AppendAll(acc, cidrs) == acc + cidrs
    decreases |cidrs|
  {
    if cidrs == [] {
      assert acc + cidrs == acc;
    } else {
      AppendAllIsConcat(acc + [cidrs[0]], cidrs[1..]);
      assert acc + cidrs == (acc + [cidrs[0]]) + cidrs[1..];
    }
  }

  lemma {:induction false} CidrsFold(cidrs: seq<IpCidr>, code: string, acc: seq<IpCidr>)
    requires forall i :: 0 <= i < |cidrs| ==> cidrs[i].Valid()
    requires AllWellFormed(CidrListFields(cidrs))
    ensures Fold(CidrListFields(cidrs), (code, acc), CountryStep) == Ok((code, AppendAll(acc, cidrs)))
    decreases |cidrs|
  {
    if cidrs != [] {
      var c, fields := cidrs[0], CidrListFields(cidrs);
      assert fields[1..] == CidrListFields(cidrs[1..]);
      assert WellFormed(fields[0]);
      CidrFieldStep(c, code, acc);
      assert AllWellFormed(fields[1..]) by {
        assert forall i :: 0 <= i < |fields[1..]| ==> fields[1..][i] == fields[i + 1];
      }
      CidrsFold(cidrs[1..], code, acc + [c]);
    }
  }

  lemma CountryParses(c: Country)
    requires CountryFits(c) && |Encode(CountryFields(c))| < U64
    ensures CountryMessage(Encode(CountryFields(c))) == Ok((Lower(c.code), c.cidrs))
  {
    var fields := CountryFields(c);
    CidrListFieldsFit(c.cidrs);
    SmallMessageFits(fields);
    var start: (string, seq<IpCidr>) := ("", []);
    ParseEncoded(fields, start, CountryStep);
    TextRoundTrip(c.code);
    assert fields[1..] == CidrListFields(c.cidrs);
    assert forall i :: 0 <= i < |fields[1..]| ==> fields[1..][i] == fields[i + 1];
    CidrsFold(c.cidrs, Lower(c.code), []);
    AppendAllIsConcat([], c.cidrs);
    assert [] + c.cidrs == c.cidrs;
  }

  lemma {:induction false} CountryListFieldsFit(countries: seq<Country>)
    requires forall i :: 0 <= i < |countries| ==> CountryFits(countries[i])
    ensures forall i :: 0 <= i < |CountryListFields(countries)| ==> NumbersFit(CountryListFields(countries)[i])
  {
    if countries != [] { CountryListFieldsFit(countries[1..]); }
  }

  lemma {:induction false} CountriesFold(countries: seq<Country>, db: GeoIpDb)
    requires forall i :: 0 <= i < |countries| ==> CountryFits(countries[i])
    requires AllWellFormed(CountryListFields(countries))
    ensures Fold(CountryListFields(countries), db, GeoIpDbStep) == Ok(GeoIpDbOf(countries, db))
    decreases countries
  {
    if countries != [] {
      var c, fields := countries[0], CountryListFields(countries);
      assert fields[1..] == CountryListFields(countries[1..]);
      assert WellFormed(fields[0]);
      CountryParses(c);
      assert forall i :: 0 <= i < |fields[1..]| ==> fields[1..][i] == fields[i + 1];
      CountriesFold(countries[1..], WithCountry(c, db));
    }
  }

  /** Every encoded geoip list parses back to the database it describes. */
  lemma GeoipRoundTrip(countries: seq<Country>)
    requires forall i :: 0 <= i < |countries| ==> CountryFits(countries[i])
    requires |Encode(CountryListFields(countries))| < U64
    ensures GeoIpDbMessage(Encode(CountryListFields(countries))) == Ok(GeoIpDbOf(countries, map[]))
  {
    CountryListFieldsFit(countries);
    SmallMessageFits(CountryListFields(countries));
    var empty: GeoIpDb := map[];
    ParseEncoded(CountryListFields(countries), empty, GeoIpDbStep);
    CountriesFold(countries, map[]);
  }

  // ----- geoip queries -----

  /** The entry of the list that a lower-case code ends up naming. */
  ghost predicate LastCountry(countries: seq<Country>, code: string, i: nat) {
    && i < |countries| && countries[i].code != "" && Lower(countries[i].code) == code
    && (forall j :: i < j < |countries| ==> countries[j].code == "" || Lower(countries[j].code) != code)
  }

  lemma LastCountryTail(countries: seq<Country>, code: string, i: nat)
    requires 0 < i < |countries|
    ensures LastCountry(countries, code, i) <==> LastCountry(countries[1..], code, i - 1)
  {
    var rest := countries[1..];
    assert rest[i - 1] == countries[i];
    assert forall j :: 0 <= j < |rest| ==> rest[j] == countries[j + 1];
    assert forall j :: 0 < j < |countries| ==> countries[j] == rest[j - 1];
  }

  lemma {:induction false} FirstCountryLast(countries: seq<Country>, code: string)
    requires countries != []
    ensures LastCountry(countries, code, 0) <==>
              && countries[0].code != "" && Lower(countries[0].code) == code
              && forall i: nat :: !LastCountry(countries[1..], code, i)
  {
    var rest := countries[1..];
    assert forall j :: 0 <= j < |rest| ==> rest[j] == countries[j + 1];
    assert forall j :: 0 < j < |countries| ==> countries[j] == rest[j - 1];
    if exists j :: 0 <= j < |rest| && rest[j].code != "" && Lower(rest[j].code) == code {
      var i := LastNamedCountry(rest, code);
    }
  }

  lemma {:induction false} LastNamedCountry(countries: seq<Country>, code: string) returns (i: nat)
    requires exists j :: 0 <= j < |countries| && countries[j].code != "" && Lower(countries[j].code) == code
    ensures LastCountry(countries, code, i)
  {
    i := |countries| - 1;
    while countries[i].code == "" || Lower(countries[i].code) != code
      invariant i < |countries|
      invariant forall j :: i < j < |countries| ==> countries[j].code == "" || Lower(countries[j].code) != code
      decreases i
    {
      i := i - 1;
    }
  }

  /** `r` holds the subnets of the last country with that code, or what `db` held where there is none. */
  ghost predicate LastWins(countries: seq<Country>, db: GeoIpDb, r: GeoIpDb, code: string) {
    && (forall i: nat :: LastCountry(countries, code, i) ==> code in r && r[code] == countries[i].cidrs)
    && ((forall i: nat :: !LastCountry(countries, code, i)) ==>
          (code in r <==> code in db) && (code in db ==> r[code] == db[code]))
  }

  lemma {:induction false} LastIsFirst(countries: seq<Country>, db: GeoIpDb, r: GeoIpDb, code: string)
    requires countries != [] && LastWins(countries[1..], WithCountry(countries[0], db), r, code)
    requires LastCountry(countries, code, 0)
    ensures code in r && r[code] == countries[0].cidrs
  {
    FirstCountryLast(countries, code);
  }

  lemma {:induction false} LastIsLater(countries: seq<Country>, db: GeoIpDb, r: GeoIpDb, code: string, i: nat)
    requires countries != [] && LastWins(countries[1..], WithCountry(countries[0], db), r, code)
    requires LastCountry(countries, code, i) && i > 0
    ensures code in r && r[code] == countries[i].cidrs
  {
    LastCountryTail(countries, code, i);
    assert countries[1..][i - 1] == countries[i];
  }

  lemma {:induction false} LastIsNone(countries: seq<Country>, db: GeoIpDb, r: GeoIpDb, code: string)
    requires countries != [] && LastWins(countries[1..], WithCountry(countries[0], db), r, code)
    requires forall i: nat :: !LastCountry(countries, code, i)
    ensures (code in r <==> code in db) && (code in db ==> r[code] == db[code])
  {
    forall i: nat ensures !LastCountry(countries[1..], code, i) {
      if i + 1 < |countries| { LastCountryTail(countries, code, i + 1); }
    }
    FirstCountryLast(countries, code);
  }

  lemma {:induction false} LastWinsCons(countries: seq<Country>, db: GeoIpDb, r: GeoIpDb, code: string)
    requires countries != [] && LastWins(countries[1..], WithCountry(countries[0], db), r, code)
    ensures LastWins(countries, db, r, code)
  {
    forall i: nat | LastCountry(countries, code, i) ensures code in r && r[code] == countries[i].cidrs {
      if i == 0 { LastIsFirst(countries, db, r, code); } else { LastIsLater(countries, db, r, code, i); }
    }
    if forall i: nat :: !LastCountry(countries, code, i) { LastIsNone(countries, db, r, code); }
  }

  /** Under each code stand the subnets of the last country with that code, and nothing else. */
  lemma {:induction false} LastCountryWins(countries: seq<Country>, db: GeoIpDb, code: string)
    ensures LastWins(countries, db, GeoIpDbOf(countries, db), code)
    decreases |countries|
  {
    if countries != [] {
      LastCountryWins(countries[1..], WithCountry(countries[0], db), code);
      LastWinsCons(countries, db, GeoIpDbOf(countries, db), code);
    }
  }

  /** Some subnet of the last country under that code shares its leading bits with the address. */
  ghost predicate LastCountryHolds(countries: seq<Country>, code: string, ip: IpAddr) {
    exists i: nat :: LastCountry(countries, code, i) && SomeSubnetHolds(countries[i].cidrs, ip)
  }

  ghost predicate SomeSubnetHolds(cidrs: seq<IpCidr>, ip: IpAddr) {
    exists k :: 0 <= k < |cidrs| && cidrs[k].Valid() && cidrs[k].base.V4? == ip.V4?
      && SamePrefix(ip.Width(), cidrs[k].base.Word(), ip.Word(), cidrs[k].prefix)
  }

  lemma SubnetsHoldIff(cidrs: seq<IpCidr>, ip: IpAddr)
    requires forall k :: 0 <= k < |cidrs| ==> cidrs[k].Valid()
    ensures AnyContains(cidrs, ip) <==> SomeSubnetHolds(cidrs, ip)
  {
    forall k | 0 <= k < |cidrs|
      ensures Cidr.Contains(cidrs[k], ip) <==>
                cidrs[k].base.V4? == ip.V4?
                && SamePrefix(ip.Width(), cidrs[k].base.Word(), ip.Word(), cidrs[k].prefix)
    {
      ContainsIsSamePrefix(cidrs[k], ip);
    }
  }

  /**
   From file to query: an address is in a country of the parsed file exactly when it shares the leading
   bits of some subnet of the last country under that code.
   */
  lemma ParsedCountryHoldsSubnets(countries: seq<Country>, country: string, ip: IpAddr)
    requires forall i :: 0 <= i < |countries| ==> CountryFits(countries[i])
    requires |Encode(CountryListFields(countries))| < U64
    ensures GeoIpDbMessage(Encode(CountryListFields(countries))).Ok?
    ensures IpMatches(GeoIpDbMessage(Encode(CountryListFields(countries))).value, country, ip)
            <==> LastCountryHolds(countries, Lower(country), ip)
  {
    GeoipRoundTrip(countries);
    CountryHoldsSubnets(countries, country, ip);
  }

  lemma CountryHoldsSubnets(countries: seq<Country>, country: string, ip: IpAddr)
    requires forall i :: 0 <= i < |countries| ==> CountryFits(countries[i])
    ensures IpMatches(GeoIpDbOf(countries, map[]), country, ip) <==> LastCountryHolds(countries, Lower(country), ip)
  {
    var code := Lower(country);
    LastCountryWins(countries, map[], code);
    forall i: nat | i < |countries|
      ensures AnyContains(countries[i].cidrs, ip) <==> SomeSubnetHolds(countries[i].cidrs, ip)
    {
      SubnetsHoldIff(countries[i].cidrs, ip);
    }
  }
}
