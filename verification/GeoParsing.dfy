/** The geosite and geoip file parsers: `crates/core/src/geo/{geosite,geoip}.rs`. */
module GeoParsing {
  import opened Bits
  import opened ByteText
  import opened Wrappers
  import opened Ascii
  import opened Cidr
  import opened DomainIndex
  import opened GeoData
  import opened Protobuf

  // ----- what each message means, field by field -----

  function DomainStep(e: Entry, f: Field): Result<Entry, GeoError> {
    match f
    case VarintField(1, v) => Ok(e.(dtype := v))
    case LenField(2, data) => Ok(e.(value := TextOf(data)))
    case _ => Ok(e)
  }

  function DomainMessage(bytes: Bytes): Result<Entry, GeoError> {
    ParseMessage(bytes, 0, Entry(TYPE_PLAIN, ""), DomainStep)
  }

  function SiteStep(acc: (string, Index), f: Field): Result<(string, Index), GeoError> {
    match f
    case LenField(1, data) => Ok((Lower(TextOf(data)), acc.1))
    case LenField(2, data) =>
      var e :- DomainMessage(data);
      Ok((acc.0, acc.1.Add(e.dtype, e.value)))
    case _ => Ok(acc)
  }

  function SiteMessage(bytes: Bytes): Result<(string, Index), GeoError> {
    ParseMessage(bytes, 0, ("", EmptyIndex), SiteStep)
  }

  function SiteDbStep(db: GeoSiteDb, f: Field): Result<GeoSiteDb, GeoError> {
    match f
    case LenField(1, data) =>
      var site :- SiteMessage(data);
      Ok(if site.0 == "" then db else db[site.0 := site.1])
    case _ => Ok(db)
  }

  function SiteDbMessage(bytes: Bytes): Result<GeoSiteDb, GeoError> {
    ParseMessage(bytes, 0, map[], SiteDbStep)
  }

  datatype RawCidr = RawCidr(ip: Option<Bytes>, prefix: Option<nat>)

  function CidrStep(c: RawCidr, f: Field): Result<RawCidr, GeoError> {
    match f
    case LenField(1, data) => Ok(c.(ip := Some(data)))
    case VarintField(2, v) => Ok(c.(prefix := Some(v)))
    case _ => Ok(c)
  }

  /** `None` for a wrong address length or a missing or too long prefix; the entry is then skipped. */
  function FinishCidr(c: RawCidr): (r: Option<IpCidr>)
    ensures r.Some? ==> r.value.Valid()
  {
    if c.ip.None? || c.prefix.None? then None
    else if |c.ip.value| == 4 then
      V4Value(c.ip.value);
      if c.prefix.value <= 32 then Some(IpCidr(V4(Value(c.ip.value)), c.prefix.value)) else None
    else if |c.ip.value| == 16 then
      V6Value(c.ip.value);
      if c.prefix.value <= 128 then Some(IpCidr(V6(Value(c.ip.value)), c.prefix.value)) else None
    else None
  }

  lemma V4Value(octets: Bytes)
    requires |octets| == 4
    ensures Value(octets) < 0x1_0000_0000
  {
    Pow2Words();
    ValueBound(octets);
  }

  lemma V6Value(octets: Bytes)
    requires |octets| == 16
    ensures Value(octets) < 0x1_0000_0000_0000_0000_0000_0000_0000_0000
  {
    Pow2Words();
    ValueBound(octets);
  }

  function CidrMessage(bytes: Bytes): Result<Option<IpCidr>, GeoError> {
    var raw :- ParseMessage(bytes, 0, RawCidr(None, None), CidrStep);
    Ok(FinishCidr(raw))
  }

  function CountryStep(acc: (string, seq<IpCidr>), f: Field): Result<(string, seq<IpCidr>), GeoError> {
    match f
    case LenField(1, data) => Ok((Lower(TextOf(data)), acc.1))
    case LenField(2, data) =>
      var c :- CidrMessage(data);
      Ok((acc.0, if c.Some? then acc.1 + [c.value] else acc.1))
    case _ => Ok(acc)
  }

  function CountryMessage(bytes: Bytes): Result<(string, seq<IpCidr>), GeoError> {
    ParseMessage(bytes, 0, ("", []), CountryStep)
  }

  function GeoIpDbStep(db: GeoIpDb, f: Field): Result<GeoIpDb, GeoError> {
    match f
    case LenField(1, data) =>
      var country :- CountryMessage(data);
      Ok(if country.0 == "" then db else db[country.0 := country.1])
    case _ => Ok(db)
  }

  function GeoIpDbMessage(bytes: Bytes): Result<GeoIpDb, GeoError> {
    ParseMessage(bytes, 0, map[], GeoIpDbStep)
  }

  // ----- the parsers of the source -----

  method ParseDomain(bytes: Bytes) returns (r: Result<Entry, GeoError>)
    ensures r == DomainMessage(bytes)
  {
    var dtype: nat, value := TYPE_PLAIN, "";
    var reader := new Reader(bytes);
    while !reader.Eof()
      invariant reader.Valid() && reader.buf == bytes && fresh(reader)
      invariant DomainMessage(bytes) == ParseMessage(bytes, reader.pos, Entry(dtype, value), DomainStep)
      decreases |bytes| - reader.pos
    {
      var tag :- reader.TakeTag();
      var (field, wire) := tag;
      if field == 1 && wire == WIRE_VARINT {
        dtype :- reader.TakeVarint();
      } else if field == 2 && wire == WIRE_LEN {
        var data :- reader.TakeBytes();
        value := TextOf(data);
      } else {
        var _ :- reader.Skip(wire, field);
      }
    }
    return Ok(Entry(dtype, value));
  }

  method ParseGeosite(bytes: Bytes) returns (r: Result<(string, DomainSet), GeoError>)
    ensures match SiteMessage(bytes)
            case Err(e) => r == Err(e)
            case Ok((code, index)) => r.Ok? && r.value.0 == code && fresh(r.value.1) && r.value.1.View() == index
  {
    var code := "";
    var domains := new DomainSet();
    var reader := new Reader(bytes);
    while !reader.Eof()
      invariant reader.Valid() && reader.buf == bytes && fresh(reader) && fresh(domains)
      invariant SiteMessage(bytes) == ParseMessage(bytes, reader.pos, (code, domains.View()), SiteStep)
      decreases |bytes| - reader.pos
    {
      var tag :- reader.TakeTag();
      var (field, wire) := tag;
      if field == 1 && wire == WIRE_LEN {
        var data :- reader.TakeBytes();
        code := Lower(TextOf(data));
      } else if field == 2 && wire == WIRE_LEN {
        var data :- reader.TakeBytes();
        var entry :- ParseDomain(data);
        domains.Add(entry.dtype, entry.value);
      } else {
        var _ :- reader.Skip(wire, field);
      }
    }
    return Ok((code, domains));
  }

  /** The finished set is moved into the map: from here on it is a value. */
  method ParseGeositeDb(bytes: Bytes) returns (r: Result<GeoSiteDb, GeoError>)
    ensures r == SiteDbMessage(bytes)
  {
    var categories: GeoSiteDb := map[];
    var reader := new Reader(bytes);
    while !reader.Eof()
      invariant reader.Valid() && reader.buf == bytes && fresh(reader)
      invariant SiteDbMessage(bytes) == ParseMessage(bytes, reader.pos, categories, SiteDbStep)
      decreases |bytes| - reader.pos
    {
      var tag :- reader.TakeTag();
      var (field, wire) := tag;
      if field == 1 && wire == WIRE_LEN {
        var data :- reader.TakeBytes();
        var site :- ParseGeosite(data);
        var (code, domains) := site;
        if code != "" { categories := categories[code := domains.View()]; }
      } else {
        var _ :- reader.Skip(wire, field);
      }
    }
    return Ok(categories);
  }

  method ParseCidr(bytes: Bytes) returns (r: Result<Option<IpCidr>, GeoError>)
    ensures r == CidrMessage(bytes)
  {
    var ip: Option<Bytes>, prefix: Option<nat> := None, None;
    var reader := new Reader(bytes);
    while !reader.Eof()
      invariant reader.Valid() && reader.buf == bytes && fresh(reader)
      invariant ParseMessage(bytes, 0, RawCidr(None, None), CidrStep) ==
                ParseMessage(bytes, reader.pos, RawCidr(ip, prefix), CidrStep)
      decreases |bytes| - reader.pos
    {
      var tag :- reader.TakeTag();
      var (field, wire) := tag;
      if field == 1 && wire == WIRE_LEN {
        var data :- reader.TakeBytes();
        ip := Some(data);
      } else if field == 2 && wire == WIRE_VARINT {
        var v :- reader.TakeVarint();
        prefix := Some(v);
      } else {
        var _ :- reader.Skip(wire, field);
      }
    }
    return Ok(FinishCidr(RawCidr(ip, prefix)));
  }

  method ParseGeoip(bytes: Bytes) returns (r: Result<(string, seq<IpCidr>), GeoError>)
    ensures r == CountryMessage(bytes)
  {
    var code, cidrs: seq<IpCidr> := "", [];
    var reader := new Reader(bytes);
    while !reader.Eof()
      invariant reader.Valid() && reader.buf == bytes && fresh(reader)
      invariant CountryMessage(bytes) == ParseMessage(bytes, reader.pos, (code, cidrs), CountryStep)
      decreases |bytes| - reader.pos
    {
      var tag :- reader.TakeTag();
      var (field, wire) := tag;
      if field == 1 && wire == WIRE_LEN {
        var data :- reader.TakeBytes();
        code := Lower(TextOf(data));
      } else if field == 2 && wire == WIRE_LEN {
        var data :- reader.TakeBytes();
        var cidr :- ParseCidr(data);
        if cidr.Some? { cidrs := cidrs + [cidr.value]; }
      } else {
        var _ :- reader.Skip(wire, field);
      }
    }
    return Ok((code, cidrs));
  }

  method ParseGeoipDb(bytes: Bytes) returns (r: Result<GeoIpDb, GeoError>)
    ensures r == GeoIpDbMessage(bytes)
  {
    var countries: GeoIpDb := map[];
    var reader := new Reader(bytes);
    while !reader.Eof()
      invariant reader.Valid() && reader.buf == bytes && fresh(reader)
      invariant GeoIpDbMessage(bytes) == ParseMessage(bytes, reader.pos, countries, GeoIpDbStep)
      decreases |bytes| - reader.pos
    {
      var tag :- reader.TakeTag();
      var (field, wire) := tag;
      if field == 1 && wire == WIRE_LEN {
        var data :- reader.TakeBytes();
        var country :- ParseGeoip(data);
        var (code, cidrs) := country;
        if code != "" { countries := countries[code := cidrs]; }
      } else {
        var _ :- reader.Skip(wire, field);
      }
    }
    return Ok(countries);
  }
}
