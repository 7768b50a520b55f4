/** Fields the geo parsers do not know change nothing, at any level of either file. */
module UnknownFields {
  import opened Bits
  import opened Wrappers
  import opened Cidr
  import opened DomainIndex
  import opened GeoData
  import opened Protobuf
  import opened GeoParsing

  predicate UnknownToDomain(f: Field) {
    !(f.VarintField? && f.num == 1) && !(f.LenField? && f.num == 2)
  }

  predicate UnknownToCidr(f: Field) {
    !(f.LenField? && f.num == 1) && !(f.VarintField? && f.num == 2)
  }

  predicate UnknownToEntry(f: Field) {
    !(f.LenField? && (f.num == 1 || f.num == 2))
  }

  predicate UnknownToList(f: Field) {
    !(f.LenField? && f.num == 1)
  }

  /** A place in a message: the fields before it and the fields after it. */
  datatype Place = Place(before: seq<Field>, after: seq<Field>) {
    predicate Fits() {
      AllWellFormed(before) && AllWellFormed(after)
    }

    /** The message with a field put in there, and without it. */
    function With(f: Field): Bytes {
      Encode(before + ([f] + after))
    }

    function Without(): Bytes {
      Encode(before + after)
    }
  }

  // ----- one level -----

  /** Unknown fields at the level of the list, ... */
  lemma UnknownInList(p: Place, unknown: Field)
    requires p.Fits() && WellFormed(unknown) && UnknownToList(unknown)
    ensures SiteDbMessage(p.With(unknown)) == SiteDbMessage(p.Without())
    ensures GeoIpDbMessage(p.With(unknown)) == GeoIpDbMessage(p.Without())
  {
    var noSites: GeoSiteDb := map[];
    var noCountries: GeoIpDb := map[];
    UnknownFieldIgnored(p.before, unknown, p.after, noSites, SiteDbStep);
    UnknownFieldIgnored(p.before, unknown, p.after, noCountries, GeoIpDbStep);
  }

  /** ... inside one site or country, ... */
  lemma UnknownInEntry(p: Place, unknown: Field)
    requires p.Fits() && WellFormed(unknown) && UnknownToEntry(unknown)
    ensures SiteMessage(p.With(unknown)) == SiteMessage(p.Without())
    ensures CountryMessage(p.With(unknown)) == CountryMessage(p.Without())
  {
    UnknownFieldIgnored(p.before, unknown, p.after, ("", EmptyIndex), SiteStep);
    var start: (string, seq<IpCidr>) := ("", []);
    UnknownFieldIgnored(p.before, unknown, p.after, start, CountryStep);
  }

  /** ... inside one domain, ... */
  lemma UnknownInDomain(p: Place, unknown: Field)
    requires p.Fits() && WellFormed(unknown) && UnknownToDomain(unknown)
    ensures DomainMessage(p.With(unknown)) == DomainMessage(p.Without())
  {
    UnknownFieldIgnored(p.before, unknown, p.after, Entry(TYPE_PLAIN, ""), DomainStep);
  }

  /** ... or inside one subnet do not change what is parsed. */
  lemma UnknownInCidr(p: Place, unknown: Field)
    requires p.Fits() && WellFormed(unknown) && UnknownToCidr(unknown)
    ensures CidrMessage(p.With(unknown)) == CidrMessage(p.Without())
  {
    UnknownFieldIgnored(p.before, unknown, p.after, RawCidr(None, None), CidrStep);
  }

  /** Which subnets are kept: four octets with a prefix up to 32, or sixteen with one up to 128. */
  lemma KeptCidrIff(c: RawCidr)
    ensures FinishCidr(c).Some? <==>
              && c.ip.Some? && c.prefix.Some?
              && ((|c.ip.value| == 4 && c.prefix.value <= 32) || (|c.ip.value| == 16 && c.prefix.value <= 128))
    ensures FinishCidr(c).Some? ==>
              var kept := FinishCidr(c).value;
              && kept.prefix == c.prefix.value && kept.base.V4? == (|c.ip.value| == 4)
              && Octets(kept.base.Word(), |c.ip.value|) == c.ip.value
  {
    if FinishCidr(c).Some? { OctetsOfValue(c.ip.value); }
  }

  lemma {:induction false} OctetsNext(x: nat, last: byte, n: nat)
    ensures Octets(256 * x + last, n + 1) == Octets(x, n) + [last]
  {
    QuotientUnique(256 * x + last, 256, x, last);
  }

  lemma {:induction false} OctetsOfValue(octets: Bytes)
    ensures Octets(Value(octets), |octets|) == octets
  {
    if octets != [] {
      var front, last := octets[..|octets| - 1], octets[|octets| - 1];
      OctetsOfValue(front);
      ValueAppend(front, last);
      OctetsNext(Value(front), last, |front|);
      assert octets == front + [last];
    }
  }

  /** A subnet that is not kept is skipped, and the rest of its country stays. */
  lemma MalformedCidrSkipped(p: Place, cidr: Bytes)
    requires p.Fits() && |cidr| < U64 && CidrMessage(cidr) == Ok(None)
    ensures CountryMessage(p.With(LenField(2, cidr))) == CountryMessage(p.Without())
  {
    var start: (string, seq<IpCidr>) := ("", []);
    UnknownFieldIgnored(p.before, LenField(2, cidr), p.after, start, CountryStep);
  }

  // ----- from a level to the one above -----

  lemma SiteParsesAlike(d: Bytes, d': Bytes, p: Place)
    requires |d| < U64 && |d'| < U64 && DomainMessage(d) == DomainMessage(d') && p.Fits()
    ensures SiteMessage(p.With(LenField(2, d))) == SiteMessage(p.With(LenField(2, d')))
  {
    FieldReplaced(p.before, LenField(2, d), LenField(2, d'), p.after, ("", EmptyIndex), SiteStep);
  }

  lemma CountryParsesAlike(c: Bytes, c': Bytes, p: Place)
    requires |c| < U64 && |c'| < U64 && CidrMessage(c) == CidrMessage(c') && p.Fits()
    ensures CountryMessage(p.With(LenField(2, c))) == CountryMessage(p.With(LenField(2, c')))
  {
    var start: (string, seq<IpCidr>) := ("", []);
    FieldReplaced(p.before, LenField(2, c), LenField(2, c'), p.after, start, CountryStep);
  }

  lemma SiteListParsesAlike(site: Bytes, site': Bytes, p: Place)
    requires |site| < U64 && |site'| < U64 && SiteMessage(site) == SiteMessage(site') && p.Fits()
    ensures SiteDbMessage(p.With(LenField(1, site))) == SiteDbMessage(p.With(LenField(1, site')))
  {
    var noSites: GeoSiteDb := map[];
    FieldReplaced(p.before, LenField(1, site), LenField(1, site'), p.after, noSites, SiteDbStep);
  }

  lemma CountryListParsesAlike(country: Bytes, country': Bytes, p: Place)
    requires |country| < U64 && |country'| < U64 && CountryMessage(country) == CountryMessage(country') && p.Fits()
    ensures GeoIpDbMessage(p.With(LenField(1, country))) == GeoIpDbMessage(p.With(LenField(1, country')))
  {
    var noCountries: GeoIpDb := map[];
    FieldReplaced(p.before, LenField(1, country), LenField(1, country'), p.after, noCountries, GeoIpDbStep);
  }

  // ----- deep inside a file -----

  /** An unknown field inside a site inside a geosite list changes nothing, ... */
  lemma UnknownInSiteOfList(unknown: Field, inSite: Place, inList: Place)
    requires WellFormed(unknown) && UnknownToEntry(unknown) && inSite.Fits() && inList.Fits()
    requires |inSite.With(unknown)| < U64 && |inSite.Without()| < U64
    ensures SiteDbMessage(inList.With(LenField(1, inSite.With(unknown)))) ==
            SiteDbMessage(inList.With(LenField(1, inSite.Without())))
  {
    UnknownInEntry(inSite, unknown);
    SiteListParsesAlike(inSite.With(unknown), inSite.Without(), inList);
  }

  /** ... nor does one inside a domain inside a site, ... */
  lemma UnknownInDomainOfList(d: Bytes, d': Bytes, unknown: Field, inDomain: Place, inSite: Place, inList: Place)
    requires WellFormed(unknown) && UnknownToDomain(unknown) && inDomain.Fits() && inSite.Fits() && inList.Fits()
    requires d == inDomain.With(unknown) && d' == inDomain.Without() && |d| < U64 && |d'| < U64
    requires |inSite.With(LenField(2, d))| < U64 && |inSite.With(LenField(2, d'))| < U64
    ensures SiteDbMessage(inList.With(LenField(1, inSite.With(LenField(2, d))))) ==
            SiteDbMessage(inList.With(LenField(1, inSite.With(LenField(2, d')))))
  {
    UnknownInDomain(inDomain, unknown);
    SiteParsesAlike(d, d', inSite);
    SiteListParsesAlike(inSite.With(LenField(2, d)), inSite.With(LenField(2, d')), inList);
  }

  /** ... one inside a country inside a geoip list, ... */
  lemma UnknownInCountryOfList(unknown: Field, inCountry: Place, inList: Place)
    requires WellFormed(unknown) && UnknownToEntry(unknown) && inCountry.Fits() && inList.Fits()
    requires |inCountry.With(unknown)| < U64 && |inCountry.Without()| < U64
    ensures GeoIpDbMessage(inList.With(LenField(1, inCountry.With(unknown)))) ==
            GeoIpDbMessage(inList.With(LenField(1, inCountry.Without())))
  {
    UnknownInEntry(inCountry, unknown);
    CountryListParsesAlike(inCountry.With(unknown), inCountry.Without(), inList);
  }

  /** ... or one inside a subnet inside a country. */
  lemma UnknownInCidrOfList(c: Bytes, c': Bytes, unknown: Field, inCidr: Place, inCountry: Place, inList: Place)
    requires WellFormed(unknown) && UnknownToCidr(unknown) && inCidr.Fits() && inCountry.Fits() && inList.Fits()
    requires c == inCidr.With(unknown) && c' == inCidr.Without() && |c| < U64 && |c'| < U64
    requires |inCountry.With(LenField(2, c))| < U64 && |inCountry.With(LenField(2, c'))| < U64
    ensures GeoIpDbMessage(inList.With(LenField(1, inCountry.With(LenField(2, c))))) ==
            GeoIpDbMessage(inList.With(LenField(1, inCountry.With(LenField(2, c')))))
  {
    UnknownInCidr(inCidr, unknown);
    CountryParsesAlike(c, c', inCountry);
    CountryListParsesAlike(inCountry.With(LenField(2, c)), inCountry.With(LenField(2, c')), inList);
  }
}
