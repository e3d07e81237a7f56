# checkproxy in Dafny

A model of the `checkproxy` Go package. The package is an HTTP middleware that accepts
requests only through proxies the application trusts. It has two pieces:

- `CheckIPInNetworkList` decides whether a client address lies in a list of
  trust entries. Each entry is a CIDR block (`10.0.0.1/24`) or a bare
  address (`127.0.0.1`). An entry that reads as neither never matches.
- `CheckProxies(useProxy, trustedProxies)` decides, per request, whether to
  forward the request to the wrapped handler or to answer it itself. The
  decision depends on:
  - whether a proxy is expected;
  - whether an `X-Forwarded-For` header is present;
  - whether the host of the connection's remote address is trusted.

The model is pure. The decision is a function from
`(useProxy, trustedProxies, forwardedFor, remoteAddr)` to an `Outcome`,
which is either `Forward` or `Reject(status, body)`. An absent header is
the empty string, as Go's `Header.Get` reports it.

The parts of Go's `net` package that the core relies on are modelled as
well, since what an entry matches depends on them:

- `ParseIP` and `ParseCIDR`;
- `IPNet.Contains` and `IP.Equal`;
- `SplitHostPort`, and `JoinHostPort` as its inverse.

Files:

| file | module | contents |
|---|---|---|
| `wrappers.dfy` | `Wrappers` | `Option` and `Result` |
| `strings.dfy` | `Strings` | digits, numerals, `IndexOf`/`LastIndexOf`, `Split`/`Join` and their round trips |
| `bytes.dfy` | `Bytes` | conversions between `bv8` octets and numbers |
| `ip.dfy` | `NetIP` | addresses, subnets, masks and `Contains`; containment proved to mean prefix-bit agreement (section 3.1 of RFC 4632, section 2.3 of RFC 4291) |
| `ipparse.dfy` | `IPParse` | `ParseIP`, `ParseCIDR`, canonical formatting and the parse/format round trips |
| `ipv6text.dfy` | `IPv6Text` | which address any accepted IPv6 spelling denotes, group by group, with and without `::` |
| `hostport.dfy` | `HostPort` | `SplitHostPort` and `JoinHostPort` |
| `checkproxy.dfy` | `CheckProxy` | trust entries, `CheckIPInNetworkList`, the `CheckProxies` decision and their lemmas |
| `checkproxy_cases.dfy` | `CheckProxyCases` | the concrete cases of `checkproxy_test.go`, stated about the model |

Addresses follow Go's rules:

- IPv4 text must have exactly four decimal fields, each at most 255 and
  without a leading zero. These are the IPv4 rules of Go 1.17 and later
  releases.
- IPv6 text is groups of one to four hexadecimal digits, in either case.
  The four-digit limit is that of the releases whose `net.ParseIP` is built
  on `net/netip` (a package that first shipped in Go 1.18); earlier
  releases accept longer groups. At most one `::`
  may appear, and it must stand for at least one zero group.
- Which form is tried depends on whether the first separator is `.` or `:`.
- Every `ParseCIDR` failure has kind `"CIDR address"`. Because of that, the
  bare-address fallback at checkproxy.go:26-30 runs after every CIDR
  failure. `CheckProxy.TrustedEntry` proves the resulting three-way reading
  of an entry.

## Code and tests

The model follows `checkproxy.go` where its tests disagree with it:

- The tests call `CheckProxy`, but the package defines `CheckProxies`.
- The tests at checkproxy_test.go:121-136 and 138-153 expect status 400
  with the body "Untrusted proxy". Their remote addresses are `asdasjd` and
  `10.0.0.1`, and neither splits into host and port. In that case the code
  answers status 500 with no body (checkproxy.go:68-72).
- `CheckProxyCases.EnabledWithMalformedRemoteAddr` and
  `CheckProxyCases.EnabledWithPortlessRemoteAddr` prove the code's answer.

## Model

| member | source | states |
|---|---|---|
| CheckProxy.CheckIPInNetworkList | checkproxy.go:15-44 | A candidate that does not parse as an address is in no list; a parsed candidate is in the list exactly when some entry of the list matches it |
| CheckProxy.ScanNetworks | checkproxy.go:22-43 | The scan that stops at the first matching entry returns true exactly when some entry anywhere in the list matches |
| CheckProxy.EntryMatches | checkproxy.go:33-41 | A subnet entry matches a candidate exactly when they share a family and their first prefix-length bits agree; a bare-address entry matches exactly the equal address; an invalid entry matches nothing (`CheckProxy.CIDREntryMatchesPrefix` and `CheckProxy.AddressEntryMatchesItself` restate this in terms of the entry's text) |
| CheckProxy.TrustedEntry | checkproxy.go:23-31 | An entry is a subnet exactly when it parses as CIDR (and is that subnet), a bare address exactly when it parses as an address (and is that address), and invalid otherwise; every reading is well formed |
| CheckProxy.AddressIsNotCIDR | checkproxy.go:25-29 | No text parses both as an address and as CIDR, so the CIDR reading and the bare-address fallback never compete |
| CheckProxy.EmptyListTrustsNothing | checkproxy.go:22-43 | The empty list trusts no candidate |
| CheckProxy.SameEntriesSameAnswer | checkproxy.go:22-43 | Two lists holding the same entries give the same answer, whatever their order and repetitions |
| CheckProxy.ConcatenatedLists | checkproxy.go:22-43 | A list made of two parts trusts a candidate exactly when one of the parts does |
| CheckProxy.InvalidEntryIsInert | checkproxy.go:25-41 | An entry that reads as neither form can be removed from anywhere in the list without changing any answer: it never matches and never cuts the scan short |
| CheckProxy.OnlyInvalidEntries | checkproxy.go:22-43 | A list of entries none of which reads as a block or an address trusts nothing |
| CheckProxy.CIDREntryMatchesPrefix | checkproxy.go:25-36 | A CIDR entry `a/n` trusts exactly the candidates of the family of `a` whose first `n` bits are those of `a` |
| CheckProxy.AddressEntryMatchesItself | checkproxy.go:27-40 | A bare-address entry trusts exactly the candidates that parse to the same address |
| CheckProxy.CIDRTextMatches | checkproxy.go:25-36 | For any addresses `a`, `c` and prefix `n`: the entry written `a/n` trusts `c` written out iff they share a family and their first `n` bits |
| CheckProxy.AddressTextMatches | checkproxy.go:27-40 | For any addresses `a` and `c`: the entry `a` written out trusts `c` written out iff `a == c` |
| CheckProxy.PrefixTooLongIsInvalid | checkproxy.go:25-31 | An address followed by a prefix length greater than its width reads as neither form |
| CheckProxy.NoSeparatorIsInvalid | checkproxy.go:25-31 | Text holding no `.` and no `:` reads as neither form |
| CheckProxy.CheckProxies | checkproxy.go:48-84 | A request is forwarded only when the header's presence agrees with `useProxy` and, when a proxy is expected, the connection's host is trusted; every rejection is 400 with a message or 500 with an empty body |
| CheckProxy.NoProxyExpected | checkproxy.go:53-59 | Without a proxy configured, a request is forwarded iff it has no header, and is rejected with 400 "Detected proxy: ..." otherwise |
| CheckProxy.ProxyExpectedHeaderMissing | checkproxy.go:60-66 | With a proxy configured, a request without the header gets 400 "Expected a proxy: X-Forwarded-For empty" |
| CheckProxy.UnsplittableRemoteAddr | checkproxy.go:67-72 | With a proxy configured and the header present, a remote address that does not split into host and port gives 500 with an empty body; a colon-less address is such an address |
| CheckProxy.ForwardedIffTrusted | checkproxy.go:73-80 | With a proxy configured, the header present and the remote address split, the request is forwarded iff its host is trusted, and is rejected with 400 "Untrusted proxy" otherwise |
| CheckProxy.HeaderValueIgnored | checkproxy.go:51-66 | Only whether the header is present matters, not its value |
| CheckProxy.RemotePortIgnored | checkproxy.go:68-74 | Two connections from the same host on different ports get the same decision |
| CheckProxy.ListedProxyForwarded | checkproxy.go:68-80 | A request with the header, from any port of an address listed in its dotted-decimal or full eight-group form, is forwarded when a proxy is expected |
| CheckProxy.HandlerAnswersIffForwarded | checkproxy.go:53-80 | For every request, the client gets the wrapped handler's response, whatever that response is, exactly when the decision is to forward |
| CheckProxy.RejectIgnoresHandler | checkproxy.go:53-79 | On a rejection the client gets the rejection's status and body, whatever the wrapped handler would have answered |
| NetIP.Contains | checkproxy.go:34 | A subnet never contains an address of the other family; within its family it contains an address exactly when their first prefix-length bits agree (the byte loop is tied to that meaning by `NetIP.MaskedEqualIffPrefixAgree`) |
| NetIP.MaskedEqualIffPrefixAgree | checkproxy.go:34 | Go's byte-wise masked comparison holds exactly when the first prefix-length bits of network and candidate agree |
| NetIP.MaskByteAgree | checkproxy.go:34 | Two bytes agree under a mask of `k` leading ones iff their first `k` bits agree |
| NetIP.MaskKeepsPrefix | checkproxy.go:25 | Masking an address to `ones` bits keeps its first `ones` bits |
| NetIP.NetworkOfContains | checkproxy.go:25-34 | The subnet `a/ones` contains exactly the addresses of the family of `a` that agree with `a` on the first `ones` bits, whatever the bits of `a` past the prefix |
| IPParse.ParseCIDR | checkproxy.go:25-28 | Every failure has kind "CIDR address" and carries the text; text without `/` fails; a success is a well-formed address together with the subnet it masks to |
| IPParse.ParseIP | checkproxy.go:16 | Text with neither `.` nor `:` is no address; an accepted text gives a well-formed address, IPv4 when its first separator is `.` and IPv6 when it is `:` (which address is pinned down by `IPParse.IPv4Canonical` for dotted-decimal text, and by `IPv6Text.FullText` and `IPv6Text.CompressedText` for every IPv6 spelling) |
| IPv6Text.FullText | checkproxy.go:16 | Any text of eight groups of one to four hexadecimal digits, in either case, joined by single colons, is the IPv6 address whose k-th 16-bit group has the value of the k-th group of the text |
| IPv6Text.CompressedText | checkproxy.go:16 | Any text `gl::gr`, where the groups on the two sides number at most seven, is the IPv6 address whose leading groups are `gl`, whose trailing groups are `gr` and whose groups in between are zero; this covers `::1`, `2001:db8::` and `FFFF::` |
| IPv6Text.LoopbackText | checkproxy.go:16 | The text `::1` is fifteen zero bytes followed by a one |
| IPParse.ParseFormattedIP | checkproxy.go:16 | Parsing the text of any address gives the address back |
| IPParse.IPv4RoundTrip | checkproxy.go:16 | Parsing the dotted-decimal text of an IPv4 address gives the address back |
| IPParse.IPv4Canonical | checkproxy.go:16 | Accepted IPv4 text is exactly the canonical text of the address it parses to |
| IPParse.OctetCanonical | checkproxy.go:16 | An accepted dotted-decimal field is the shortest numeral of its value |
| IPParse.IPv6RoundTrip | checkproxy.go:16 | Parsing the full hexadecimal text of an IPv6 address gives the address back |
| IPParse.ParsedAddrText | checkproxy.go:29 | Text that parses as an address holds only hexadecimal digits, dots and colons, and therefore no `/` and no brackets |
| IPParse.CIDRFromParts | checkproxy.go:25 | For any text `t` that parses as an address and any non-empty decimal numeral `p` (leading zeros allowed) no greater than the address width, `t/p` parses as that address and the subnet it masks to at that length |
| IPParse.CIDRParts | checkproxy.go:25 | Every accepted CIDR text is an address without `/`, a `/` and a non-empty decimal numeral no greater than the address width, and the subnet is the address masked to that length |
| IPParse.CIDRRoundTrip | checkproxy.go:25 | For any address `a` and prefix `n` within its width, `ParseCIDR` of `a/n` gives `a` and the subnet `a` masked to `n` bits |
| HostPort.SplitHostPort | checkproxy.go:68 | Text without a colon fails with "missing port"; a success is `host:port` with a colon-free host or `[host]:port`, with no brackets in the host and no colon or bracket in the port |
| HostPort.SplitJoinHostPort | checkproxy.go:68 | Splitting a joined host and port gives them back |
| CheckProxyCases.LoopbackIsTrusted | checkproxy_test.go:18 | `127.0.0.1` is trusted by the list `10.0.0.1/24`, `10.1.0.1`, `127.0.0.1` |
| CheckProxyCases.ZeroAddressIsNotTrusted | checkproxy_test.go:19 | `0.0.0.0` is not trusted by that list |
| CheckProxyCases.SubnetMemberIsTrusted | checkproxy_test.go:20 | `10.0.0.1` is trusted by that list through `10.0.0.1/24` |
| CheckProxyCases.NotAnIPIsNotTrusted | checkproxy_test.go:21 | `not an ip` is not trusted by that list |
| CheckProxyCases.BrokenListTrustsNothing | checkproxy_test.go:34-38 | `127.0.0.1` is not trusted by `not an address`, `10.0.0.0/100` |
| CheckProxyCases.DisabledWithForwarded | checkproxy_test.go:41-55 | No proxy expected and the header present: 400 "Detected proxy: ..." |
| CheckProxyCases.DisabledWithoutForwarded | checkproxy_test.go:57-70 | No proxy expected and no header: forwarded |
| CheckProxyCases.EnabledWithoutForwarded | checkproxy_test.go:72-85 | Proxy expected and no header: 400 "Expected a proxy: ..." |
| CheckProxyCases.EnabledWithTrustedProxy | checkproxy_test.go:87-102 | Proxy expected, header present and the connection from `10.0.0.1:10101` with `10.0.0.1` listed: forwarded |
| CheckProxyCases.EnabledWithUntrustedProxy | checkproxy_test.go:104-119 | The same request with only `10.0.0.2` listed: 400 "Untrusted proxy" |
| CheckProxyCases.EnabledWithMalformedRemoteAddr | checkproxy.go:68-72 | The remote address `asdasjd` gives 500 with an empty body, where checkproxy_test.go:121-136 expects 400 |
| CheckProxyCases.EnabledWithPortlessRemoteAddr | checkproxy.go:68-72 | The remote address `10.0.0.1` (no port) gives 500 with an empty body, where checkproxy_test.go:138-153 expects 400 |

## Left out

- HTTP plumbing is not modelled. This covers `http.Handler`, `ResponseWriter`, `HandlerFunc`, header canonicalisation and the closures of checkproxy.go:9, 48-50 and 81-83. The header is its value as a string, and the response is an `Outcome`.
- The unused `xRealIP` variable (checkproxy.go:10) is left out because it takes no part in any decision.
- The source of Go's `net` package is not part of this model. `ParseIP`, `ParseCIDR`, `IPNet.Contains`, `IP.Equal` and `SplitHostPort` are modelled from the behaviour Go documents for them, with the differences listed below.
- CheckProxy.CheckIPInNetworkList, CheckProxy.EntryMatches and NetIP.Contains: Go turns IPv4-mapped IPv6 addresses into IPv4 ones before comparing; the model keeps the two families apart. The mapped form still parses here when written in hex (`::ffff:a00:1`). The model then differs from Go in both directions:
  - It is more permissive. The entry `::/0` trusts the candidate `::ffff:a00:1` here. Go's `IPNet.Contains` first turns the candidate into the 4-byte 10.0.0.1, which does not match the 16-byte network `::`, so Go does not trust it.
  - It is stricter. Go reads the entry `::ffff:0:0/96` as 0.0.0.0 with an all-zero mask, so it trusts every IPv4 candidate; the model trusts no IPv4 candidate there. Likewise, in Go the entry `::ffff:a00:1` trusts the candidate `10.0.0.1` through `IP.Equal`, and the entry `10.0.0.0/8` trusts the candidate `::ffff:a00:1`; the model trusts neither.
- CheckProxy.AddressEntryMatchesItself, CheckProxy.AddressTextMatches and CheckProxy.CIDRTextMatches: their "exactly" statements hold of the model but not of Go for IPv4-mapped addresses. For `a` = `0:0:0:0:0:ffff:a00:1` and `c` = 10.0.0.1, Go's `IP.Equal` is true, so Go trusts `c` under the entry `a`; `AddressTextMatches` says the model does not.
- CheckProxy.CIDREntryMatchesPrefix: its "exactly the candidates of the family of `a` whose first `n` bits agree" holds of the model but not of Go when the entry or the candidate is an IPv4-mapped IPv6 address, for the reasons given under CheckProxy.CheckIPInNetworkList.
- IPParse.ParseIP does not read IPv6 text that ends in a dotted quad (`::ffff:1.2.3.4`), which Go accepts. Such text parses to no address here.
- IPParse.ParseIP does not follow older releases in two respects. Releases before Go 1.17 accept leading zeros in IPv4 fields (`010.0.0.1`). Releases whose `ParseIP` is not built on `net/netip` accept IPv6 groups of more than four digits whose value fits in 16 bits (`00001::`). The model rejects both.
- IPParse.ParseIP rejects IPv6 zones (`fe80::1%eth0`). Go's `ParseIP` rejects them too.
- IPParse.FormatIP writes IPv6 addresses in full, uncompressed form rather than Go's shortest form. It serves only as the inverse the round-trip lemmas need.
- IPParse.ParseCIDR accepts leading zeros in the prefix length (`10.0.0.0/024`), as Go's decimal reader does. It does not model the reader's cut-off for very long numerals, which fail in both cases anyway.
- Concurrency and shared state are not modelled. The middleware keeps no state between requests, and the model is a pure function of its inputs.
