# JammVPN: a verified model of its routing, state and codecs

JammVPN decides for each connection whether it goes out directly, through a proxy node, or not at
all. This project models the engines behind that decision and the state and formats they rest on,
and proves their properties in Dafny 4.11. `dafny verify dfyconfig.toml` checks everything.

- **Shared state.** `Netstack.dfy` takes each lock section of the userspace netstack as one step
  and proves an inductive invariant over every interleaving; `Dns.dfy` does so for the caching,
  single-flight resolver. Both also have the mutable object, proved to make those steps.
- **FakeIP.** `FakeIp.dfy` proves that the allocator's two maps and cursor hold exactly the last
  `count - 1` fresh allocations, with the range arithmetic in 32 bits.
- **Routing.** `Engine.dfy` proves the first-match scan with lazy DNS against a declarative
  outcome; `EngineProperties.dfy` relates two runs, FakeIP and plain domains, and three
  implementations; `BuildEngine.dfy` and `LoadedConfig.dfy` carry this up to the loaded config.
- **Split tunnelling.** `SplitProperties.dfy` says what each written entry, mode and switch does to
  the decision; `Cidr.dfy`, `Octets.dfy`, `Driver.dfy` and `DriverAgreement.dfy` prove that the C
  driver decides the same; `DriverWire.dfy` includes the bytes between, and `DriverWireErrors.dfy`
  what the driver refuses.
- **Geo databases.** `Geosite.dfy` proves the suffix index against a rule scan; `Protobuf.dfy`,
  `GeoParsing.dfy`, `GeoRoundTrip.dfy` and `UnknownFields.dfy` prove the readers against the
  encoders, and `ProtobufReading.dfy` on arbitrary bytes.
- **Links, names, secrets.** `Percent.dfy`, `Base64.dfy`, `Uri.dfy`, `Link.dfy`,
  `LinkRoundTrip.dfy`, `SsRoundTrip.dfy` and `VlessLink.dfy` prove what a printed share link parses
  back to, `LinkForms.dfy` what the links without a printer parse to; `Names.dfy` and `SubTags.dfy`
  the deduplication of names and tags; `Secret.dfy` and `SecretProperties.dfy` the encryption of
  secrets in place; `VlessStrip.dfy` the header stripper.

The remaining files hold shared notions: bits, octets, numerals, text, and the data model.

Two statements in the source's comments do not hold of its code, and the model follows the code.
The comment at `crates/cli/src/lib.rs:190-196` says the first node with a name keeps it; it can lose
it to an earlier node renamed to the same text (`UniqueNames.FirstHolderCanLoseName`, and exactly
when in `UniqueNames.FirstHolderKeepsNameIff`). The comments at `crates/core/src/secret.rs:73-74`
and `:115` call protection and unprotection atomic; an error among the WireGuard keys comes after
the servers have been rewritten (`SecretProperties.FailedProtectCanChangeServers` and
`SecretProperties.FailedUnprotectCanChangeServers`, each beside its exact condition).

Text is modelled as bytes, one `char` per byte. The clock, the DNS answers, TCP state changes, the
transport under a stream, the secret store, the textual address parser and the iteration order of a
sorted map are inputs or parameters over which the theorems quantify.

## Model

| member | source | states |
|---|---|---|
| Netstack.RunsNeverPanic | crates/net/src/netstack.rs:232-517 | In every interleaving of packet injection, driver turns, relay accesses and relay ends, with socket slots reused freely and TCP states changing arbitrarily, no lock section asks the socket set for a freed handle or one of the wrong kind. |
| Netstack.SocketsHaveOneOwner | crates/net/src/netstack.rs:123-130 | In every reachable state the socket set is the disjoint union of live TCP relays' handles, abandoned handles and UDP flow handles, and `tcp_seen` is the set of keys of live TCP relays. |
| Netstack.SocketsAreAccountedFor | crates/net/src/netstack.rs:123-130 | In every reachable state the number of sockets is the number of seen TCP keys plus abandoned handles plus UDP flows: nothing leaks and nothing is listed twice. |
| Netstack.StepKeepsInv | crates/net/src/netstack.rs:234-517 | Each lock section, enabled in a state where sockets, tables, abandoned list and relays agree, succeeds and leaves them agreeing. |
| Netstack.PanicsIff | crates/net/src/netstack.rs:232-517 | A lock section panics exactly when it asks for a handle that is free or holds a socket of the other kind. |
| Netstack.OnlyClosedLeaves | crates/net/src/netstack.rs:246-419 | No connection is dropped: a TCP socket leaves the set exactly when a driver turn finds it abandoned and Closed or its relay ends on a Closed socket. |
| Netstack.RelayKeepsItsSocket | crates/net/src/netstack.rs:378-517 | Whatever else runs, a relay keeps its socket, the socket's kind and its table entry until that relay's own last section. |
| Netstack.DriverDrains | crates/net/src/netstack.rs:246-259 | Once no relay is live and every abandoned socket polls as Closed, one driver turn leaves the socket set, the tables and the abandoned list empty. |
| Netstack.ReapMeaning | crates/net/src/netstack.rs:251-258 | Retaining over the abandoned list removes exactly the Closed orphans from the socket set and keeps exactly the others, without a missing-handle panic. |
| Netstack.DriveMeaning | crates/net/src/netstack.rs:240-259 | A driver turn keeps every other socket in its polled state and changes nothing but sockets and abandoned list. |
| Netstack.Stack.DemuxAndEnqueue | crates/net/src/netstack.rs:292-352 | Injecting a packet adds a listening TCP socket, its key and its relay for a SYN of an unseen flow, a UDP socket, its table entry and its relay for a datagram of an unknown one, if the bind succeeds, and otherwise changes nothing. |
| Netstack.Stack.RunDriver | crates/net/src/netstack.rs:240-259 | The driver's locked part frees exactly the abandoned sockets that are Closed after the poll, unlists exactly those, and touches no table and no relay. |
| Netstack.Stack.Retain | crates/net/src/netstack.rs:251-258 | The retain loop over the mutable fields computes the reaping that ReapMeaning characterises. |
| Netstack.Stack.TouchTcp | crates/net/src/netstack.rs:355-376 | Any access of a live relay to its TCP socket finds it and changes nothing but its state. |
| Netstack.Stack.FinishTcp | crates/net/src/netstack.rs:402-421 | The end of a TCP relay frees its key; a Closed socket is removed, any other stays, with the state close leaves if connected and Closed by abort if not, and its handle goes to the end of the abandoned list. |
| Netstack.Stack.FinishUdp | crates/net/src/netstack.rs:511-516 | The end of a UDP relay removes its flow, its socket and its relay and nothing else. |
| Dns.OneLeaderPerName | crates/net/src/dns/mod.rs:77-128 | Over every interleaving under a monotone clock, a name is in flight exactly while one leader runs for it, and never two run at once. |
| Dns.LeadersDoNotOverlap | crates/net/src/dns/mod.rs:109-128 | Leaders for one name never overlap, and the next starts no earlier than the last publication time plus its TTL. |
| Dns.ResolveRate | crates/net/src/dns/mod.rs:26-29 | Any window of T holds at most T / 3 s + 1 real resolves of one name. |
| Dns.HitIsFresh | crates/net/src/dns/mod.rs:77-104 | Every answer served from the cache holds the A and AAAA addresses that the last leader's queries for that name returned, and is younger than 300 s, or 3 s if they returned none. |
| Dns.AnswerHoldsUntilExpiry | crates/net/src/dns/mod.rs:77-128 | For 300 s after publication, or 3 s if no address was found, every caller gets the addresses of those two queries, A first, whatever other names, leaders and callers do in between. |
| Dns.StepKeepsInv | crates/net/src/dns/mod.rs:77-128 | Each pass through the cache and each publication keeps the cache, the running leaders and the flight history in step, for every name at once. |
| Dns.DnsResolver.CheckCache | crates/net/src/dns/mod.rs:77-104 | The locked pass on the mutable cache waits exactly on an entry in flight, leads exactly when there is none or it has expired, and otherwise answers from it; only a lead changes the cache. |
| Dns.DnsResolver.PublishAnswer | crates/net/src/dns/mod.rs:109-128 | The answer is the A addresses followed by the AAAA addresses, an error exactly when neither query gave any, and the entry is overwritten with it for 300 s or 3 s. |
| FakeIp.AcceptedRanges | crates/net/src/fakeip.rs:40-71 | A subnet is accepted exactly when it is IPv4 with a prefix of 1 to 30, and refused as not IPv4, too wide or too small otherwise; then the range is the whole aligned subnet around the address and stays inside 32 bits. |
| FakeIp.SlotIsRoundRobin | crates/net/src/fakeip.rs:81-86 | The k-th fresh allocation, from 0, gets base + 1 + k mod (count - 1). |
| FakeIp.FreshAllocation | crates/net/src/fakeip.rs:75-95 | A fresh allocation moves the window by one: both maps hold exactly the last min(n, count - 1) fresh allocations before and after, and the next slot is handed out. |
| FakeIp.MapsAreInverse | crates/net/src/fakeip.rs:30-34 | In every reachable state the domain and address maps are mutual inverses. |
| FakeIp.BindingSurvives | crates/net/src/fakeip.rs:75-102 | A binding is intact in both maps through the next count - 2 fresh allocations. |
| FakeIp.BindingEvicted | crates/net/src/fakeip.rs:75-102 | After count - 1 more fresh allocations the address stands for a domain allocated later. |
| FakeIp.IssuedAddressesInRange | crates/net/src/fakeip.rs:75-111 | Every bound address lies strictly above the network address and inside the range, and no sum overflows 32 bits. |
| FakeIp.RangeContainsIsInterval | crates/net/src/fakeip.rs:105-110 | The wrapping-subtraction test holds exactly for the addresses from base to base + count - 1. |
| FakeIp.FakeIp.Allocate | crates/net/src/fakeip.rs:75-95 | Allocating on the mutable maps and cursor returns an address bound to the domain both ways: the old one and no change for a known domain, else the next slot appended to the allocation history. |
| RoutingEngine.Route | crates/net/src/engine.rs:328-413 | Routing carries out the action of the first rule that fires for the destination after FakeIP reversal, else Block if DNS failed under an address-only Block rule, else the default; the resolver is asked at most once, for that name, exactly when the address is unknown and a rule with IP criteria passes its others before any match. |
| RoutingEngine.MatchedRuleDecides | crates/net/src/engine.rs:460-487 | The first matching rule decides: its own node if it names one, else the default node, or a refusal where no outbound is stored under the name; the default stands by as fallback exactly for another named node. |
| RoutingEngine.ScanIsOutcome | crates/net/src/engine.rs:350-403 | The rule-by-rule scan with its pending block yields the declarative outcome, stated with quantifiers over the rule list. |
| RoutingEngine.OutcomeUnique | crates/net/src/engine.rs:350-403 | The declarative outcome determines the action. |
| RoutingEngine.ReachesMeansNeeded | crates/net/src/engine.rs:358-390 | The scan gets to a resolve exactly when some rule with IP criteria passes its other criteria and no earlier rule fires. |
| RoutingEngine.ScanRules | crates/net/src/engine.rs:350-403 | The loop over mutable action, pending block and lazily resolved addresses computes the scan and records at most one query. |
| EngineProperties.FiresIff | crates/net/src/engine.rs:410-449 | A rule fires exactly when each kind of criterion it has holds: a domain rule or a geosite category for the host, a port, a subnet or a geoip country for some known address, and no process. |
| EngineProperties.LiteralForms | crates/net/src/engine.rs:496-505 | A literal address is recognised with a trailing dot, in brackets, and with both. |
| EngineProperties.DnsFailureNeverOpensBlock | crates/net/src/engine.rs:352-403 | For a non-literal name, if some DNS answer leads to Block, a failing resolver leads to Block or to a later rule that fires by name alone, never to another default. |
| EngineProperties.FakeAddressRoutesAsDomain | crates/net/src/engine.rs:336-347 | A fake address issued for a non-literal domain, as a socket address or written out, routes with the same decision, target, node and fallback as the domain itself while fewer than count - 1 fresh allocations followed. |
| EngineProperties.StaleFakeAddressRoutesAsSuccessor | crates/net/src/engine.rs:336-347 | Past that the address is routed by the name of one domain allocated later, and, when that is no literal, with the same decision, target, node and fallback. |
| EngineProperties.OtherTargetsUnaffected | crates/net/src/engine.rs:336-347 | Every destination whose known address is not bound by the allocator is routed as if there were no FakeIP, to its own target. |
| EngineProperties.ResolveTarget | crates/net/src/engine.rs:282-309 | The synchronous loop decides what the scan decides when no address is ever resolved. |
| EngineProperties.SyncAgreesWithRoute | crates/net/src/engine.rs:282-413 | Without FakeIP, `route` and `resolve_target` give the same decision for every rule list whenever there is no resolver or the address is known. |
| EngineProperties.SyncAgreesIffDnsDown | crates/net/src/engine.rs:282-413 | Without FakeIP and with DNS down, for every rule list and non-literal name, they agree exactly when some rule fires by name alone, or no address-only Block stays unconfirmed, or the default refuses. |
| EngineProperties.SyncFailsOpen | crates/net/src/engine.rs:282-413 | So they part, for one: under a single address-only Block rule over a Direct default, one refuses and the other connects directly. |
| EngineProperties.EvaluateAgreesWithRoute | crates/core/src/routing/engine.rs:6-13 | On geo-free rules both engine scans act on what the native `evaluate` returns. |
| EngineProperties.MatchesSplits | crates/core/src/routing/rule.rs:67-116 | The native matcher holds exactly when the address-blind matcher and the address check both hold. |
| Routing.EvaluateIsFirstMatch | crates/core/src/routing/engine.rs:6-13 | `evaluate` returns the action of the first matching rule, and the default when none matches. |
| BuildEngine.FromConfig | crates/net/src/engine.rs:200-252 | The loop that fills the outbound map yields the reference engine, which LastConvertibleWins and BuiltEngineHolds describe. |
| BuildEngine.LastConvertibleWins | crates/net/src/engine.rs:200-206 | Under each name stands the outbound of the last convertible profile with that name, and nothing under any other. |
| BuildEngine.BuildSucceedsIff | crates/cli/src/lib.rs:1855-1900 | An engine is built exactly when the node named first (the selected one, the configured default, the proxy node) exists, if any is named, and no rule needs a geo file that is not loaded. |
| BuildEngine.BuiltEngineHolds | crates/cli/src/lib.rs:1855-1900 | It holds that default node, the given rules, databases and services, and a default action that goes to the proxy when a node is selected or the settings say so. |
| BuildEngine.SelectedNodeNoSilentDirect | crates/cli/src/lib.rs:1855-1900 | With a node selected, a connection is direct exactly when the first rule that fires says Direct; what no rule matches uses the outbound stored under the node's name or is refused; no fallback is direct. |
| BuildEngine.OutboundOfProfile | crates/net/src/engine.rs:200-252 | With distinct names the outbound stored under a profile's name is the one made from that very profile, and is there exactly when the profile converts. |
| BuildEngine.SelectedNodeIsItsProfile | crates/cli/src/lib.rs:1855-1900 | With distinct names the selected node's outbound comes from the profile that bears the name. |
| BuildEngine.UnmatchedFollowsSettings | crates/cli/src/lib.rs:1855-1900 | Without a selected node, unmatched traffic is direct exactly when the settings do not send it to the proxy and no Block stayed unconfirmed. |
| LoadedConfig.LoadedNodeIsItsProfile | crates/cli/src/lib.rs:187-213 | After the names are made unique, for every server list the selected node's outbound is made from the one loaded profile of that name, which differs from the configured one in name only. |
| Cidr.ContainsIsSamePrefix | crates/core/src/split/cidr.rs:56-85 | The integer mask comparison holds exactly when families agree and base and address have the same quotient by 2^(w-p), at widths 32 and 128 and for every valid prefix. |
| OctetPrefix.BytesMatchIsSamePrefix | wfp-driver/src/driver.c:211-224 | The comparison of whole bytes and one masked byte holds exactly when the big-endian words have the same quotient by 2^(w-p), for any length. |
| DriverAgreement.CidrFormsAgree | wfp-driver/src/driver.c:211-224 | The driver's byte-wise subnet test and the Rust mask test agree for every valid subnet and address of either family. |
| DriverAgreement.OverlongPrefixIsCut | wfp-driver/src/driver.c:211-224 | A prefix longer than the address, which only a foreign config can hold, compares the whole address. |
| DriverAgreement.BuiltinBypassAgrees | wfp-driver/src/driver.c:292-304 | The driver's built-in list and the Rust always-bypass list contain the same addresses. |
| SplitProperties.WrittenSubnet | crates/core/src/split/cidr.rs:15-34 | Text of an address, a slash and a decimal prefix parses to that very subnet, unless the prefix exceeds the width; the bare address to a subnet of itself. |
| SplitProperties.UnwrittenSubnet | crates/core/src/split/cidr.rs:15-34 | Text that is no address before the slash or no numeral after it is no subnet. |
| SplitProperties.DirectEntryTakesEffect | crates/core/src/split/engine.rs:47-94 | A subnet written anywhere in the always-direct list sends exactly the addresses it covers directly and leaves every other decision as it was. |
| SplitProperties.TunnelEntryTakesEffect | crates/core/src/split/engine.rs:47-94 | A subnet written anywhere in the always-tunnel list tunnels exactly the addresses it covers that no earlier list has, and leaves every other decision as it was. |
| SplitProperties.EndpointTakesEffect | crates/core/src/split/engine.rs:47-108 | A server endpoint, with or without a port, is reached directly, and no other address because of it. |
| SplitProperties.AppsDecideLast | crates/core/src/split/engine.rs:66-94 | An address on no list is tunnelled exactly when its application is selected, or, in the exclusive mode, when it is not. |
| SplitProperties.TunnelLoss | crates/core/src/split/engine.rs:87-94 | With the tunnel down exactly what would have been tunnelled is blocked by the kill switch, or goes out directly without it. |
| SplitProperties.NameMatcherReads | crates/core/src/split/config.rs:42-62 | A name matcher compares the process name, and the file name of the path only where there is none; a path matcher only the path. |
| Ascii.EqIgnoreCaseIff | crates/core/src/split/config.rs:42-62 | Texts are equal ignoring case exactly when they have the same length and differ at most in the case of ASCII letters. |
| SplitConfiguration.FileNameShape | crates/core/src/split/config.rs:64-66 | The file name is the tail of the path that holds no slash and no backslash and has the whole path or one of them before it. |
| DriverAgreement.NameHitIsFileName | wfp-driver/src/driver.c:260-287 | For a non-empty name without separators, being the whole path or ending it after a separator is the same as being its file name, ignoring case. |
| DriverAgreement.NamesAgreeIffClean | crates/core/src/split/config.rs:42-62 | Driver and user mode agree on a process name for every path exactly when the name is non-empty and free of separators. |
| DriverAgreement.PathHitIsTail | wfp-driver/src/driver.c:275-284 | A path matcher with a drive letter selects in the driver exactly the images whose path ends with the rest of it. |
| DriverAgreement.PathWithoutDrive | wfp-driver/src/driver.c:275-284 | A path matcher without a drive letter selects the images that end with all of it, and one of a drive letter alone selects none. |
| DriverAgreement.PathHitCoversPath | wfp-driver/src/driver.c:275-284 | Every image a path matcher selects in user mode is selected in the driver under its device path. |
| DriverAgreement.PathHitOtherDrive | wfp-driver/src/driver.c:275-284 | The same path on any other drive is selected by the driver and not by user mode. |
| DriverAgreement.PathOverSelects | wfp-driver/src/driver.c:275-284 | So every path matcher with a drive letter and a non-empty rest selects some image in the driver only. |
| Driver.JammIpInList | wfp-driver/src/driver.c:226-231 | The list loop finds a hit exactly when some entry contains the address. |
| Driver.JammAppSelected | wfp-driver/src/driver.c:260-287 | The loop over the apps selects exactly when some entry hits. |
| Driver.JammDecide | wfp-driver/src/driver.c:307-330 | The chain of loops and branches computes the driver's ladder. |
| DriverAgreement.DriverAgreesWithDecide | crates/core/src/split/engine.rs:47-94 | For a config of clean process names the driver's ladder decides for every image and destination what `decide` decides with the tunnel up. |
| DriverAgreement.SentWhenAllParse | crates/platform-windows/src/wfp/ipc.rs:107-147 | A split config goes to the driver exactly when every subnet in it parses, and then with its mode, kill switch, redirect target, matchers by name or by path, and subnets in order. |
| DriverWire.WireRoundTripIff | crates/platform-windows/src/wfp/ipc.rs:201-225 | For ASCII values, the driver reads back the encoded config exactly when every list is shorter than 2^16 and every app value shorter than 2^15: lengths are narrowed without a check, in the encoder and again, in bytes of UTF-16, in the driver. |
| DriverWire.LongValueIsCut | wfp-driver/src/driver.c:85-116 | A value padded with 2^15 characters arrives in the driver as the name in front of the padding, in lower case. |
| DriverWire.SentConfigDecidesAlike | wfp-driver/src/driver.c:134-183 | A split config of clean ASCII process names that meets that condition, encoded, parsed by the driver and run down its ladder, gives the decision of user mode for every image and destination. |
| DriverWireErrors.TruncatedIsRejected | wfp-driver/src/driver.c:134-183 | An encoded config that was cut short anywhere is not accepted. |
| DriverWireErrors.TrailingBytesIgnored | wfp-driver/src/driver.c:134-183 | Bytes behind an accepted config change nothing. |
| DriverWireErrors.HeaderDecides | wfp-driver/src/driver.c:134-143 | A foreign magic number or version is refused, the latter with its own status. |
| DriverWireErrors.AcceptedAddressesKnown | wfp-driver/src/driver.c:60-183 | Every address in an accepted config is IPv4 or IPv6 in sixteen bytes. |
| DriverWireErrors.UnreadableValueIsRejected | wfp-driver/src/driver.c:85-183 | One value that the kernel cannot convert to text fails the whole config. |
| DriverWire.JammReader.ParseConfig | wfp-driver/src/driver.c:134-183 | The driver's parser, with its advancing reader, sticky failure flag, counted loops and narrowed text lengths, returns on any bytes and for any text conversion the status and config of the reference reader, never reading past the buffer. |
| DomainIndex.IndexAgreesWithRules | crates/core/src/geo/geosite.rs:36-88 | After any sequence of additions of clean entries to any index, a host matches exactly when it matched before or some entry read as a routing rule matches it; regex entries never do. |
| DomainIndex.AgreesIffClean | crates/core/src/geo/geosite.rs:72-88 | Index and rule agree on every host exactly for clean entries: those without the leading or trailing dots that only one of them trims (a full name of dots alone matches nothing either way). |
| DomainIndex.SkippedAreCounted | crates/core/src/geo/geosite.rs:72-88 | The index counts exactly the regular expressions it was given and does not match. |
| DomainRules.FullMeaning | crates/core/src/routing/domain.rs:18-28 | A full-name rule matches the hosts that equal it, ignoring case and trailing dots. |
| DomainRules.SuffixMeaning | crates/core/src/routing/domain.rs:18-28 | A suffix rule, its leading dots aside, matches its domain and every host that has it behind a dot, ignoring case and trailing dots. |
| DomainRules.KeywordMeaning | crates/core/src/routing/domain.rs:18-28 | A keyword rule matches the hosts that hold it somewhere, ignoring case. |
| DomainIndex.DomainSet.Add | crates/core/src/geo/geosite.rs:72-88 | Adding to the mutable sets is the index addition. |
| DomainIndex.DomainSet.WalkParents | crates/core/src/geo/geosite.rs:45-53 | The dot-by-dot walk finds a suffix exactly when the host is one of the stored domains or lies below one. |
| DomainIndex.DomainSet.Matches | crates/core/src/geo/geosite.rs:36-56 | The matcher over the mutable sets decides what the index predicate says. |
| Protobuf.ReadVarintOfVarint | crates/core/src/geo/protobuf.rs:32-50 | Reading inverts writing for every 64-bit value anywhere in a buffer and consumes exactly its bytes. |
| Protobuf.ReadFieldOfField | crates/core/src/geo/protobuf.rs:55-96 | Any well-formed field of any wire type reads back and is consumed exactly. |
| Protobuf.ParseOfEncode | crates/core/src/geo/protobuf.rs:55-105 | Parsing an encoded message folds the parser's step over exactly its fields, in order, for every step function. |
| Protobuf.UnknownFieldIgnored | crates/core/src/geo/protobuf.rs:83-96 | A well-formed field the step ignores can be inserted anywhere without changing the result. |
| ProtobufReading.ReadVarintMeaning | crates/core/src/geo/protobuf.rs:32-50 | On any bytes, a varint is up to ten bytes to the first without a continuation bit, read as a number modulo 2^64; it is cut short if the bytes run out before, and malformed if ten continue and another follows. |
| ProtobufReading.ReadFieldIff | crates/core/src/geo/protobuf.rs:55-105 | On any bytes, a field is read exactly where its tag and value are spelt; field number 0 and other wire types are refused. |
| ProtobufReading.AcceptedIsCanonical | crates/core/src/geo/protobuf.rs:55-105 | Whatever message any of the parsers accepts, it gives the same result on the canonical encoding of some well-formed fields. |
| Protobuf.Reader.TakeVarint | crates/core/src/geo/protobuf.rs:32-50 | The shifting loop over a mutable position computes the varint reader on any bytes, errors included, and stays in bounds. |
| Protobuf.Reader.TakeBytes | crates/core/src/geo/protobuf.rs:66-75 | Taking a length-delimited slice stays in bounds and moves the position past it, or fails. |
| Protobuf.Reader.Skip | crates/core/src/geo/protobuf.rs:83-105 | Skipping a value of any wire type moves the position where reading it would, or fails alike. |
| GeoParsing.ParseGeositeDb | crates/core/src/geo/geosite.rs:99-114 | The database loop over a mutable map parses any bytes as the fold of its step says, and terminates. |
| GeoParsing.ParseGeosite | crates/core/src/geo/geosite.rs:145-161 | The field loop over code and set parses any bytes as the fold of its step says. |
| GeoParsing.ParseDomain | crates/core/src/geo/geosite.rs:164-177 | The field loop over type and value parses any bytes as the fold of its step says. |
| GeoParsing.ParseGeoipDb | crates/core/src/geo/geoip.rs:24-39 | The country loop over a mutable map parses any bytes as the fold of its step says. |
| GeoParsing.ParseGeoip | crates/core/src/geo/geoip.rs:72-89 | The field loop over code and subnets parses any bytes as the fold of its step says. |
| GeoParsing.ParseCidr | crates/core/src/geo/geoip.rs:93-124 | The field loop over address and prefix parses any bytes as the fold of its step says, skipping what is no subnet. |
| GeoRoundTrip.GeositeRoundTrip | crates/core/src/geo/geosite.rs:99-177 | Every encoded geosite list parses back to the database it describes. |
| GeoRoundTrip.LastEntryWins | crates/core/src/geo/geosite.rs:99-114 | That database holds, under each lower-cased code, the index of the last entry of that code. |
| GeoRoundTrip.ParsedCategoryMatchesRules | crates/core/src/geo/geosite.rs:99-127 | From file to query: a host is in a category of the parsed file exactly when some entry of the last site of that code, read as a routing rule, matches it. |
| GeoRoundTrip.GeoipRoundTrip | crates/core/src/geo/geoip.rs:24-124 | Every encoded geoip list parses back to the database it describes, subnets exact. |
| GeoRoundTrip.LastCountryWins | crates/core/src/geo/geoip.rs:24-39 | That database holds, under each lower-cased code, the subnets of the last country of that code. |
| GeoRoundTrip.ParsedCountryHoldsSubnets | crates/core/src/geo/geoip.rs:24-52 | From file to query: an address is in a country of the parsed file exactly when it shares the leading bits of some subnet of the last country of that code. |
| UnknownFields.UnknownInList | crates/core/src/geo/geosite.rs:99-114 | Unknown fields between the entries of either list change nothing. |
| UnknownFields.UnknownInEntry | crates/core/src/geo/geosite.rs:145-161 | Unknown fields inside a site or a country change nothing. |
| UnknownFields.UnknownInDomain | crates/core/src/geo/geosite.rs:164-177 | Unknown fields inside a domain change nothing. |
| UnknownFields.UnknownInCidr | crates/core/src/geo/geoip.rs:93-124 | Unknown fields inside a subnet change nothing. |
| UnknownFields.KeptCidrIff | crates/core/src/geo/geoip.rs:93-124 | A subnet is kept exactly when it has four octets and a prefix up to 32 or sixteen and one up to 128, with those octets and that prefix. |
| UnknownFields.MalformedCidrSkipped | crates/core/src/geo/geoip.rs:72-124 | A subnet that is not kept is skipped and changes nothing else in its country. |
| UnknownFields.UnknownInSiteOfList | crates/core/src/geo/geosite.rs:99-161 | An unknown field inside a site of a geosite list changes nothing. |
| UnknownFields.UnknownInDomainOfList | crates/core/src/geo/geosite.rs:99-177 | An unknown field inside a domain inside a site of a geosite list changes nothing. |
| UnknownFields.UnknownInCountryOfList | crates/core/src/geo/geoip.rs:24-89 | An unknown field inside a country of a geoip list changes nothing. |
| UnknownFields.UnknownInCidrOfList | crates/core/src/geo/geoip.rs:24-124 | An unknown field inside a subnet inside a country of a geoip list changes nothing. |
| Percent.PctRoundTrip | crates/core/src/util.rs:5-30 | Decoding undoes percent-encoding for every byte string. |
| Percent.PctIsInert | crates/cli/src/lib.rs:655-665 | An encoded value consists of unreserved characters and percent signs, and is empty only for the empty value. |
| Percent.EncodedCharacter | crates/cli/src/lib.rs:655-665 | Letters, digits and -._~ stand for themselves, every other byte becomes an upper-case escape. |
| Percent.EscapeIsReplaced | crates/core/src/util.rs:5-21 | An escape with hexadecimal digits in either case decodes to its byte. |
| Percent.OtherCharacterStays | crates/core/src/util.rs:5-21 | A character that starts no escape stays, a stray percent sign included. |
| Percent.DecodeText | crates/core/src/util.rs:5-21 | The index loop with its three-byte escapes computes the decoder on any text. |
| Percent.EncodeText | crates/cli/src/lib.rs:655-665 | The pushing loop computes the encoder. |
| Base64.DecodeOfEncode | crates/core/src/base64.rs:25-77 | Decoding undoes encoding whatever the wrapping 32-bit accumulator held before, padding included. |
| Base64.Base64RoundTrip | crates/core/src/base64.rs:25-77 | Decoding the standard encoding of any bytes gives the bytes. |
| Base64.DecodesIff | crates/core/src/base64.rs:25-47 | A text is refused exactly when it holds a character outside both alphabets, padding and white space. |
| Base64.DecodesAsCanonical | crates/core/src/base64.rs:25-47 | Padding, white space and the URL-safe aliases make no difference to the bytes. |
| Base64.Decode | crates/core/src/base64.rs:25-47 | The loop over accumulator, bit count and output computes the decoder on any text, rejected characters included. |
| Base64.Encode | crates/core/src/base64.rs:56-77 | The loop over three-byte chunks computes the encoder. |
| UriParsing.UriRoundTrip | crates/core/src/parse/uri.rs:28-102 | A link of scheme, user info, host, port, query and fragment parses back to those parts when the host is plain and the parts hold none of the delimiters after them. |
| UriParsing.UriOfParts | crates/core/src/parse/uri.rs:28-58 | A link with any endpoint free of # ? @ parses to its parts with the host and port the endpoint splits into, or fails as that does. |
| UriParsing.EndpointForms | crates/core/src/parse/uri.rs:62-92 | A host in brackets may hold colons, a port may be missing, an unclosed bracket is malformed, and a port alone has no host. |
| UriParsing.BadPortRejected | crates/core/src/parse/uri.rs:62-92 | A port that is no 16-bit numeral fails the endpoint and is reported. |
| UriParsing.QueryByPieces | crates/core/src/parse/uri.rs:94-102 | A query is read piece by piece between ampersands: an empty piece gives nothing, a piece without an equals sign an empty value, any other its decoded key and value. |
| UriParsing.SplitJoin | crates/core/src/parse/uri.rs:94-102 | Splitting a query undoes joining when no piece holds an ampersand. |
| LinkRoundTrip.QueryRoundTrip | crates/core/src/parse/uri.rs:94-102 | A printed query parses to exactly the shown keys and values, in order. |
| LinkRoundTrip.Hysteria2RoundTrip | crates/cli/src/lib.rs:679-711 | Parsing the printed hysteria2 link gives the profile without empty parameters and tags, and with the endpoint as name when it had none, for any key order. |
| LinkRoundTrip.Hysteria2LinkIsExact | crates/core/src/parse/link.rs:64-78 | The link gives back the very profile exactly when its host is plain, its name and every parameter are non-empty and it has no tags. |
| LinkRoundTrip.Hysteria2HostIff | crates/core/src/parse/uri.rs:65-92 | The host comes back exactly when it is non-empty, free of # ? @ and does not start with a bracket. |
| ShareLink.CollectTransports | crates/core/src/parse/link.rs:150-163 | The loop that inserts transport parameters computes the fold over the query pieces. |
| SsRoundTrip.SsLinkRoundTrip | crates/core/src/parse/link.rs:123-200 | Parsing the printed ss link gives method and password split at the first colon, endpoint, name, and the non-empty security, sni, alpn and fp; the printed `type` is dropped. |
| SsRoundTrip.SsCredentials | crates/core/src/parse/link.rs:189-200 | Method and password come back exactly when the method holds no colon. |
| SsRoundTrip.SsHostIff | crates/core/src/parse/link.rs:189-200 | The host of an ss link comes back exactly when it is plain and holds no slash. |
| SsRoundTrip.SsLinkIsExact | crates/cli/src/lib.rs:611-641 | The ss link gives back the very profile exactly when its host comes back and it has a name, no tags, no colon in the method and no parameter but credentials and the four non-empty transport ones. |
| VlessLink.VlessRoundTrip | crates/cli/src/lib.rs:566-607 | Parsing the printed vless link gives endpoint, name, the twelve known non-empty parameters and the percent-decoded uuid exactly when the uuid, printed unencoded, holds no # and no ?. |
| VlessLink.VlessLinkIsExact | crates/core/src/parse/link.rs:34-47 | It gives back the very profile exactly when nothing is dropped, the host is plain, and the uuid holds no #, no ? and no escape. |
| LinkForms.TrojanLink | crates/core/src/parse/link.rs:49-62 | A trojan link, its scheme in any case, gives password, endpoint, name and the other non-empty parameters. |
| LinkForms.TuicLink | crates/core/src/parse/link.rs:80-105 | A tuic link gives uuid and password around the first colon of its user info, and the rest likewise. |
| LinkForms.ProxyLink | crates/core/src/parse/link.rs:107-121 | A socks or http link gives user name and password around the first colon, and the rest likewise. |
| LinkForms.OpenProxyLink | crates/core/src/parse/link.rs:107-121 | Without user info it gives no credentials. |
| LinkForms.EitherHysteria2Link | crates/core/src/parse/link.rs:64-78 | A hysteria2 link under either of its schemes gives authentication if it has any, and the rest likewise. |
| LinkForms.OtherSchemeReported | crates/core/src/parse/link.rs:21-32 | Any other scheme is reported as unknown, in lower case. |
| LinkForms.MissingPartsReported | crates/core/src/parse/link.rs:34-121 | A missing credential is reported by its name where one is needed, before a missing port. |
| LinkForms.PercentSsLink | crates/core/src/parse/link.rs:187-200 | An ss link with percent-encoded in place of Base64 credentials gives the same profile. |
| LinkForms.WholeSsLink | crates/core/src/parse/link.rs:123-150 | The old ss form, Base64 around credentials and endpoint together, gives method, password, endpoint and name. |
| LinkForms.KeptTransport | crates/core/src/parse/link.rs:155-168 | Of the query of an ss link exactly the transport keys are kept, allowInsecure under the name allow_insecure. |
| LinkForms.LinkIsTrimmedFirst | crates/core/src/parse/link.rs:14-20 | White space around a link does not matter, and white space alone is an empty input. |
| UniqueNames.Pigeonhole | crates/cli/src/lib.rs:206-210 | Distinct numbered candidates that are all taken cannot outnumber the names in use, so the search for a free one ends. |
| UniqueNames.FirstFree | crates/cli/src/lib.rs:205-210 | The inner loop ends for every stem and every set of used names, with the first candidate that is free. |
| UniqueNames.NamesAreDistinct | crates/cli/src/lib.rs:197-213 | The final names are pairwise distinct and avoid those already in use. |
| UniqueNames.KeepsNameIff | crates/cli/src/lib.rs:197-213 | A node keeps its name exactly when no earlier final name equals it, and everything else in any case. |
| UniqueNames.SecondRunIsIdle | crates/cli/src/lib.rs:197-213 | A second run changes nothing. |
| UniqueNames.FirstHolderCanLoseName | crates/cli/src/lib.rs:190-196 | The first node with a name need not keep it, against the comment: an earlier duplicate can be renamed to that name. |
| UniqueNames.FirstHolderKeepsNameIff | crates/cli/src/lib.rs:190-213 | It keeps it exactly when no earlier node both finds its own name among those settled before it and has this name as its first free candidate. |
| UniqueNames.RenamedToEndpoint | crates/cli/src/lib.rs:203-211 | A renamed node is called by its name, a middle dot, its address and port, with the first number from 2 on that makes it free if that is taken. |
| UniqueNames.EnsureDistinctNodeNames | crates/cli/src/lib.rs:197-213 | Renaming the servers of the config in place with a growing used set yields the reference list. |
| SubscriptionTags.SubHostOfUrl | crates/net/src/subscription.rs:95-98 | For a URL with a path the host is what stands between `://` and the first slash. |
| SubscriptionTags.SubHostOfBareUrl | crates/net/src/subscription.rs:95-98 | Without a path it is everything after `://`, and without a scheme everything before the first slash. |
| SubscriptionTags.TagAsAsked | crates/cli/src/lib.rs:752-775 | A subscription gets its own tag, or the host of its URL where that is missing or blank, with the first free number from 2 on if earlier ones have it. |
| SubscriptionTags.TagsAreDistinct | crates/cli/src/lib.rs:752-775 | Every subscription ends with a tag, and the tags are pairwise distinct. |
| SubscriptionTags.SecondRunIsIdle | crates/cli/src/lib.rs:748-775 | A second run changes nothing, also for blank tags and URLs without a host. |
| SubscriptionTags.EnsureDistinctSubTags | crates/cli/src/lib.rs:752-775 | Retagging in place yields the reference list and reports a change exactly when there was one. |
| VlessStrip.DeliversPayloadPrefix | crates/net/src/outbound.rs:721-761 | Under every schedule of short reads, pendings and failures, what is delivered is a prefix of the stream after its first 2 + (second byte) bytes, and the header buffer holds only header bytes. |
| VlessStrip.EndMeansWholePayload | crates/net/src/outbound.rs:721-761 | A read that finds the end of the stream has delivered exactly the stream minus its header. |
| VlessStrip.CutsDoNotMatter | crates/net/src/outbound.rs:721-761 | Two runs over the same stream that reach its end deliver the same bytes, however each was fragmented. |
| VlessStrip.TruncatedIffShort | crates/net/src/outbound.rs:742-750 | At the end of the stream a read fails as truncated exactly when the stream is shorter than its header. |
| VlessStrip.RepliesFollowTransport | crates/net/src/outbound.rs:721-761 | A poll takes arrivals up to the outcome that decides its reply, fails exactly on a fault of the transport, and waits on a wait. |
| VlessStrip.ArrivalsAreAnswered | crates/net/src/outbound.rs:721-761 | While bytes keep arriving a poll comes to an answer, after at most one more arrival than bytes are left. |
| VlessStrip.PollDelivers | crates/net/src/outbound.rs:721-761 | What one poll returns is what comes next in the payload. |
| VlessStrip.VlessRespStrip.PollRead | crates/net/src/outbound.rs:721-761 | The poll loop over header buffer, addon length and done flag, with its 64-byte scratch reads, does what the reference poll says from any state it can be in. |
| SecretProperties.UnprotectUndoesProtect | crates/core/src/secret.rs:79-160 | For a store that opens what it sealed and secrets that do not start with enc:, unprotecting a protected config restores it exactly. |
| SecretProperties.ProtectIsIdempotent | crates/core/src/secret.rs:72-112 | Protecting a protected config changes nothing. |
| SecretProperties.ProtectSucceedsIff | crates/core/src/secret.rs:72-112 | Protection succeeds exactly when the store takes every secret that is not sealed, an empty WireGuard key aside. |
| SecretProperties.UnprotectSucceedsIff | crates/core/src/secret.rs:114-160 | Unprotection succeeds exactly when every sealed secret is Base64 that the store opens. |
| SecretProperties.NothingElseChanges | crates/core/src/secret.rs:79-167 | Whatever the rewrite and whether or not it fails, only secret parameter values and the three WireGuard keys can change. |
| SecretProperties.FailedProtectIsAtomicIff | crates/core/src/secret.rs:73-112 | A failed protection leaves the config unchanged exactly when the servers were what failed or none of them held a plain secret. |
| SecretProperties.FailedProtectCanChangeServers | crates/core/src/secret.rs:73-112 | So the promised atomicity does not hold: a WireGuard key the store refuses leaves the servers already rewritten. |
| SecretProperties.FailedUnprotectIsAtomicIff | crates/core/src/secret.rs:114-160 | A failed unprotection leaves the config unchanged exactly when the servers were what failed or none of their secrets opens to another text. |
| SecretProperties.FailedUnprotectCanChangeServers | crates/core/src/secret.rs:114-160 | Nor does it hold there: a WireGuard key that does not decode leaves the servers already opened. |
| Secrets.CollectedIsRewritten | crates/core/src/secret.rs:79-92 | Collecting all changes first and applying them by index and key afterwards is rewriting each value where it is; an error is met by both or by neither. |
| Secrets.Apply | crates/core/src/secret.rs:163-167 | The applying loop overwrites exactly the listed parameters in the config. |
| Secrets.ProtectConfig | crates/core/src/secret.rs:79-112 | When protection succeeds on the mutable config, each of the seven secret parameters of each server and each non-empty WireGuard key is the enc: prefix and the Base64 of what the store made of it, or as before if sealed already, and none is left in plain text; otherwise servers, keys and error are those of the reference. |
| Secrets.UnprotectConfig | crates/core/src/secret.rs:120-160 | When unprotection succeeds, each of them that carried the prefix is what the store opens it to, and every other is as before; otherwise servers, keys and error are those of the reference. |

## Left out

- DNS leader cancellation and the wake-up race of `Notify`: leaders finish, waiters may look at the cache again at any time.
- Dropping the netstack, which aborts its tasks: no step follows it.
- smoltcp internals, packet contents, timeouts and byte counting: TCP states change arbitrarily and only the socket bookkeeping is tracked.
- DriverWire.WireRoundTripIff: assumes ASCII app values; how the kernel converts and folds other text is an arbitrary function.
- UTF-8 validation, its lossy decoding, and Unicode case folding and white space: text is bytes, folding and trimming are ASCII, so the UTF-8 error branches are absent.
- The textual IP address parser: an arbitrary function, the same on both sides of every comparison.
- The always-bypass list as text: it is given parsed.
- Kernel allocation failures, WFP registration, redirect contexts, and the Rust-side decoder of the driver config.
- DriverAgreement.DriverAgreesWithDecide: covers process-name matchers; a path matcher is compared by its tail in the driver, and its two one-way relations are separate lemmas. The tunnel is up, since the ladder in the driver has no kill switch; the image path is given in lower case, as the classifier passes it.
- RoutingEngine.Route: the connecting process is unknown there, as in the source, so process criteria never hold.
- SsRoundTrip.SsLinkRoundTrip: assumes a plain host without a slash, which SsHostIff shows to be what comes back.
- VlessLink.VlessRoundTrip: assumes a plain host; VlessLinkIsExact does not.
- LinkRoundTrip.Hysteria2RoundTrip: assumes a plain host, which Hysteria2HostIff shows to be what comes back, and keys the query syntax leaves alone.
- UriParsing.UriRoundTrip: assumes a plain host; UriOfParts takes any endpoint, and which hosts fail is stated by LinkRoundTrip.Hysteria2HostIff.
- LinkForms.TrojanLink, TuicLink, ProxyLink, OpenProxyLink, EitherHysteria2Link, PercentSsLink, WholeSsLink: assume a plain host and, for the query, keys that its syntax leaves alone; the source has no printer for these links, so each is given in the form its parser documents.
- SecretProperties.UnprotectUndoesProtect: the store is a pair of functions, so sealing the same text twice gives the same blob.
- Subscription, Xray, sing-box, Clash and AWG importers and the JSON parser: field copying with no printer to pair with.
- The SOCKS, Trojan and VLESS address codecs, chunked decoding, rule reordering and version comparison: they would only add easier members.
- Connecting, retrying, health checks, the user interface, the updater and storage: I/O.
