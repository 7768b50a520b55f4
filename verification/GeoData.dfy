/** The parsed geosite and geoip databases, as the routing engine queries them. */
module GeoData {
  import opened Ascii
  import opened Cidr
  import opened DomainIndex

  /** Category to domain index, country to subnets; keys are lower-case. */
  type GeoSiteDb = map<string, Index>
  type GeoIpDb = map<string, seq<IpCidr>>

  predicate SiteMatches(db: GeoSiteDb, category: string, host: string) {
    Lower(category) in db && db[Lower(category)].Matches(host)
  }

  predicate IpMatches(db: GeoIpDb, country: string, ip: IpAddr) {
    Lower(country) in db && AnyContains(db[Lower(country)], ip)
  }
}
