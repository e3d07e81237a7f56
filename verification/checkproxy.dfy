/** The proxy check: whether an address lies in a list of trusted networks
    (CheckIPInNetworkList), and the per-request decision of the CheckProxies
    middleware, which either forwards the request to the wrapped handler or
    rejects it with a status code and a body. */
module CheckProxy {
  import opened Wrappers
  import opened NetIP
  import opened IPParse
  import opened HostPort

  // ---------------------------------------------------------------------
  // Trust-list entries

  /** How one trust-list entry is read: a CIDR block, a bare address, or
      neither, in which case it never matches. */
  datatype Entry = Subnet(net: IPNet) | Single(ip: Addr) | Invalid {
    predicate Valid() {
      match this
      case Subnet(n) => n.Valid()
      case Single(a) => a.Valid()
      case Invalid => true
    }
  }

  /** An entry is read as CIDR first; on a failure of kind "CIDR address" it
      is read again as a bare address. Since every CIDR failure has that
      kind and no address text holds a '/', the entry is a subnet exactly
      when it parses as CIDR and a bare address exactly when it parses as
      an address. */
  function TrustedEntry(network: string): (e: Entry)
    ensures e.Valid()
    ensures e.Subnet? <==> ParseCIDR(network).Ok?
    ensures e.Subnet? ==> e.net == ParseCIDR(network).value.1
    ensures e.Single? <==> ParseIP(network).Some?
    ensures e.Single? ==> e.ip == ParseIP(network).value
  {
    AddressIsNotCIDR(network);
    match ParseCIDR(network)
    case Ok((_, subnet)) => Subnet(subnet)
    case Err(err) =>
      if err.kind == CIDRAddress then
        match ParseIP(network)
        case Some(ip) => Single(ip)
        case None => Invalid
      else Invalid
  }

  /** A subnet entry matches the addresses it contains, a bare address only
      itself. */
  function EntryMatches(e: Entry, ip: Addr): (r: bool)
    requires e.Valid() && ip.Valid()
    ensures e.Subnet? ==> (r <==> e.net.ip.family == ip.family && PrefixAgree(e.net.ip, ip, e.net.prefix))
    ensures e.Single? ==> (r <==> e.ip == ip)
    ensures e.Invalid? ==> !r
  {
    match e
    case Subnet(n) => Contains(n, ip)
    case Single(a) => a == ip
    case Invalid => false
  }

  predicate Matches(ip: Addr, network: string)
    requires ip.Valid()
  {
    EntryMatches(TrustedEntry(network), ip)
  }

  /** Some entry of the list matches the address. */
  ghost predicate InNetworkList(ip: Addr, networks: seq<string>)
    requires ip.Valid()
  {
    exists i :: 0 <= i < |networks| && Matches(ip, networks[i])
  }

  /** The scan over the list, stopping at the first entry that matches. */
  function ScanNetworks(ip: Addr, networks: seq<string>): (r: bool)
    requires ip.Valid()
    ensures r <==> InNetworkList(ip, networks)
  {
    if |networks| == 0 then false
    else if Matches(ip, networks[0]) then true
    else
      var rest := ScanNetworks(ip, networks[1..]);
      assert InNetworkList(ip, networks[1..]) ==> InNetworkList(ip, networks) by {
        if InNetworkList(ip, networks[1..]) {
          var i :| 0 <= i < |networks[1..]| && Matches(ip, networks[1..][i]);
          assert networks[1..][i] == networks[i + 1];
        }
      }
      rest
  }

  /** CheckIPInNetworkList: an address that does not parse is never in the
      list; one that does is in it exactly when some entry matches it. */
  function CheckIPInNetworkList(clientIP: string, networkList: seq<string>): (r: bool)
    ensures ParseIP(clientIP).None? ==> !r
    ensures r <==> ParseIP(clientIP).Some? && InNetworkList(ParseIP(clientIP).value, networkList)
  {
    match ParseIP(clientIP)
    case None => false
    case Some(ip) => ScanNetworks(ip, networkList)
  }

  // ---------------------------------------------------------------------
  // The middleware's decision

  /** What the middleware does with one request: hand it to the wrapped
      handler, or answer it itself with a status code and a body. */
  datatype Outcome = Forward | Reject(status: nat, body: string)

  const StatusBadRequest: nat := 400
  const StatusInternalServerError: nat := 500

  const DetectedProxy := "Detected proxy: but application is not configured to use one"
  const ExpectedProxy := "Expected a proxy: X-Forwarded-For empty"
  const UntrustedProxy := "Untrusted proxy"

  /** The connection comes from a trusted proxy: its remote address splits
      into host and port, and the host is an address some entry matches. */
  ghost predicate OriginTrusted(remoteAddr: string, trustedProxies: seq<string>) {
    && SplitHostPort(remoteAddr).Ok?
    && var host := SplitHostPort(remoteAddr).value.0;
    && ParseIP(host).Some?
    && InNetworkList(ParseIP(host).value, trustedProxies)
  }

  /** The decision CheckProxies(useProxy, trustedProxies) makes for a
      request whose X-Forwarded-For header is `forwardedFor` (empty when
      absent) and whose connection comes from `remoteAddr`. A request is
      forwarded only when the header's presence matches the configuration
      and, when a proxy is expected, the connection comes from a trusted
      one. */
  function CheckProxies(useProxy: bool, trustedProxies: seq<string>, forwardedFor: string, remoteAddr: string)
    : (r: Outcome)
    ensures r == Forward ==> (forwardedFor != "" <==> useProxy)
    ensures r == Forward && useProxy ==> OriginTrusted(remoteAddr, trustedProxies)
    ensures r.Reject? ==> r.status == StatusBadRequest || r.status == StatusInternalServerError
    ensures r.Reject? ==> (r.body == "" <==> r.status == StatusInternalServerError)
  {
    if !useProxy then
      if forwardedFor != "" then Reject(StatusBadRequest, DetectedProxy) else Forward
    else if forwardedFor == "" then Reject(StatusBadRequest, ExpectedProxy)
    else
      match SplitHostPort(remoteAddr)
      case Err(_) => Reject(StatusInternalServerError, "")
      case Ok((ip, _)) =>
        if !CheckIPInNetworkList(ip, trustedProxies) then Reject(StatusBadRequest, UntrustedProxy)
        else Forward
  }

  /** A response as the client sees it. */
  datatype Response = Response(status: nat, body: string)

  /** The response to a request: the wrapped handler's on Forward, the
      rejection's otherwise. */
  function Serve(outcome: Outcome, handler: Response): (r: Response)
    ensures outcome == Forward ==> r == handler
  {
    match outcome
    case Forward => handler
    case Reject(status, body) => Response(status, body)
  }

  // ---------------------------------------------------------------------
  // Lemmas about the trust list

  /** No address text reads as CIDR notation. */
  lemma AddressIsNotCIDR(s: string)
    ensures ParseIP(s).Some? ==> ParseCIDR(s).Err?
  {
    if ParseIP(s).Some? {
      ParsedAddrText(s);
    }
  }

  lemma EmptyListTrustsNothing(clientIP: string)
    ensures !CheckIPInNetworkList(clientIP, [])
  {
  }

  /** Only which entries the list holds matters: not their order, nor how
      often each is repeated. */
  lemma SameEntriesSameAnswer(clientIP: string, l1: seq<string>, l2: seq<string>)
    requires forall s :: s in l1 <==> s in l2
    ensures CheckIPInNetworkList(clientIP, l1) == CheckIPInNetworkList(clientIP, l2)
  {
    if ParseIP(clientIP).Some? {
      var ip := ParseIP(clientIP).value;
      if InNetworkList(ip, l1) {
        var i :| 0 <= i < |l1| && Matches(ip, l1[i]);
        assert l1[i] in l2;
        var j :| 0 <= j < |l2| && l2[j] == l1[i];
      }
      if InNetworkList(ip, l2) {
        var i :| 0 <= i < |l2| && Matches(ip, l2[i]);
        assert l2[i] in l1;
        var j :| 0 <= j < |l1| && l1[j] == l2[i];
      }
    }
  }

  /** The list is trusted as a whole when either part is. */
  lemma ConcatenatedLists(clientIP: string, l1: seq<string>, l2: seq<string>)
    ensures CheckIPInNetworkList(clientIP, l1 + l2)
         == (CheckIPInNetworkList(clientIP, l1) || CheckIPInNetworkList(clientIP, l2))
  {
    if ParseIP(clientIP).Some? {
      var ip := ParseIP(clientIP).value;
      var l := l1 + l2;
      if InNetworkList(ip, l) {
        var i :| 0 <= i < |l| && Matches(ip, l[i]);
        if i < |l1| {
          assert l[i] == l1[i];
        } else {
          assert l[i] == l2[i - |l1|];
        }
      }
      if InNetworkList(ip, l1) {
        var i :| 0 <= i < |l1| && Matches(ip, l1[i]);
        assert l[i] == l1[i];
      }
      if InNetworkList(ip, l2) {
        var i :| 0 <= i < |l2| && Matches(ip, l2[i]);
        assert l[i + |l1|] == l2[i];
      }
    }
  }

  /** An entry that is neither CIDR nor an address is as good as absent:
      it neither matches nor stops the scan. */
  lemma InvalidEntryIsInert(clientIP: string, l1: seq<string>, e: string, l2: seq<string>)
    requires TrustedEntry(e) == Invalid
    ensures CheckIPInNetworkList(clientIP, l1 + [e] + l2) == CheckIPInNetworkList(clientIP, l1 + l2)
  {
    ConcatenatedLists(clientIP, l1 + [e], l2);
    ConcatenatedLists(clientIP, l1, [e]);
    ConcatenatedLists(clientIP, l1, l2);
    if ParseIP(clientIP).Some? {
      assert !Matches(ParseIP(clientIP).value, e);
      assert !InNetworkList(ParseIP(clientIP).value, [e]);
    }
  }

  /** A CIDR entry `a/n` trusts exactly the addresses of the family of `a`
      whose first `n` bits are those of `a`. */
  lemma CIDREntryMatchesPrefix(clientIP: string, network: string)
    requires ParseCIDR(network).Ok?
    ensures var (a, n) := ParseCIDR(network).value;
            CheckIPInNetworkList(clientIP, [network])
            <==> && ParseIP(clientIP).Some?
                 && ParseIP(clientIP).value.family == a.family
                 && PrefixAgree(a, ParseIP(clientIP).value, n.prefix)
  {
    var (a, n) := ParseCIDR(network).value;
    if ParseIP(clientIP).Some? {
      var ip := ParseIP(clientIP).value;
      NetworkOfContains(a, n.prefix, ip);
      assert InNetworkList(ip, [network]) <==> Matches(ip, network) by {
        assert [network][0] == network;
      }
    }
  }

  /** A bare-address entry trusts exactly the address it names. */
  lemma AddressEntryMatchesItself(clientIP: string, network: string)
    requires ParseIP(network).Some?
    ensures CheckIPInNetworkList(clientIP, [network]) <==> ParseIP(clientIP) == ParseIP(network)
  {
    if ParseIP(clientIP).Some? {
      var ip := ParseIP(clientIP).value;
      assert InNetworkList(ip, [network]) <==> Matches(ip, network) by {
        assert [network][0] == network;
      }
    }
  }

  /** In terms of addresses: the subnet written `a/n` holds the address `c`
      written out exactly when both are of one family and agree on the first
      `n` bits. */
  lemma CIDRTextMatches(a: Addr, n: nat, c: Addr)
    requires a.Valid() && n <= BitLen(a.family) && c.Valid()
    ensures CheckIPInNetworkList(FormatIP(c), [FormatIP(a) + "/" + FormatDecimal(n)])
            <==> a.family == c.family && PrefixAgree(a, c, n)
  {
    CIDRRoundTrip(a, n);
    ParseFormattedIP(c);
    CIDREntryMatchesPrefix(FormatIP(c), FormatIP(a) + "/" + FormatDecimal(n));
  }

  /** In terms of addresses: the address `a` written out trusts exactly the
      address `c` written out when they are equal. */
  lemma AddressTextMatches(a: Addr, c: Addr)
    requires a.Valid() && c.Valid()
    ensures CheckIPInNetworkList(FormatIP(c), [FormatIP(a)]) <==> a == c
  {
    ParseFormattedIP(a);
    ParseFormattedIP(c);
    AddressEntryMatchesItself(FormatIP(c), FormatIP(a));
  }

  /** A list none of whose entries reads as a block or an address trusts
      nothing. */
  lemma OnlyInvalidEntries(clientIP: string, networks: seq<string>)
    requires forall i :: 0 <= i < |networks| ==> TrustedEntry(networks[i]) == Invalid
    ensures !CheckIPInNetworkList(clientIP, networks)
  {
  }

  /** A CIDR entry whose prefix length exceeds the address width reads as
      neither form, so it never matches. */
  lemma PrefixTooLongIsInvalid(addr: string, prefix: string)
    requires ParseIP(addr).Some?
    requires |prefix| > 0 && Strings.AllDigits(prefix)
    requires Strings.DecimalValue(prefix) > BitLen(ParseIP(addr).value.family)
    ensures TrustedEntry(addr + "/" + prefix) == Invalid
  {
    var s := addr + "/" + prefix;
    ParsedAddrText(addr);
    Strings.FirstSplit(addr, '/', prefix);
    assert ParseCIDR(s).Err?;
    if ParseIP(s).Some? {
      ParsedAddrText(s);
      assert false;
    }
  }

  /** Text without a separator is no address and no CIDR block. */
  lemma NoSeparatorIsInvalid(network: string)
    requires '.' !in network && ':' !in network
    ensures TrustedEntry(network) == Invalid
  {
    var i := Strings.IndexOf(network, '/');
    if 0 <= i {
      var addr := network[..i];
      assert '.' !in addr && ':' !in addr by {
        forall j | 0 <= j < |addr| ensures addr[j] == network[j] {}
      }
      assert ParseIP(addr).None?;
    }
  }

  // ---------------------------------------------------------------------
  // Lemmas about the decision

  /** Without a proxy configured, a request is forwarded exactly when it
      carries no X-Forwarded-For header, and rejected as a detected proxy
      otherwise. */
  lemma NoProxyExpected(trustedProxies: seq<string>, forwardedFor: string, remoteAddr: string)
    ensures CheckProxies(false, trustedProxies, forwardedFor, remoteAddr) == Forward <==> forwardedFor == ""
    ensures forwardedFor != "" ==>
              CheckProxies(false, trustedProxies, forwardedFor, remoteAddr) == Reject(StatusBadRequest, DetectedProxy)
  {
  }

  /** With a proxy configured, a request without the header is rejected. */
  lemma ProxyExpectedHeaderMissing(trustedProxies: seq<string>, remoteAddr: string)
    ensures CheckProxies(true, trustedProxies, "", remoteAddr) == Reject(StatusBadRequest, ExpectedProxy)
  {
  }

  /** With a proxy configured and the header present, a remote address that
      does not split into host and port, one without a colon in particular,
      gives status 500 with no body. */
  lemma UnsplittableRemoteAddr(trustedProxies: seq<string>, forwardedFor: string, remoteAddr: string)
    requires forwardedFor != ""
    requires SplitHostPort(remoteAddr).Err? || ':' !in remoteAddr
    ensures CheckProxies(true, trustedProxies, forwardedFor, remoteAddr) == Reject(StatusInternalServerError, "")
  {
  }

  /** With a proxy configured, the header present and the remote address
      split, the request is forwarded exactly when the connection comes
      from a trusted proxy, and rejected as untrusted otherwise. */
  lemma ForwardedIffTrusted(trustedProxies: seq<string>, forwardedFor: string, remoteAddr: string)
    requires forwardedFor != "" && SplitHostPort(remoteAddr).Ok?
    ensures CheckProxies(true, trustedProxies, forwardedFor, remoteAddr) == Forward
            <==> OriginTrusted(remoteAddr, trustedProxies)
    ensures !OriginTrusted(remoteAddr, trustedProxies) ==>
              CheckProxies(true, trustedProxies, forwardedFor, remoteAddr) == Reject(StatusBadRequest, UntrustedProxy)
  {
  }

  /** The header's content plays no part: only whether it is present. */
  lemma HeaderValueIgnored(useProxy: bool, trustedProxies: seq<string>, f1: string, f2: string, remoteAddr: string)
    requires (f1 == "") == (f2 == "")
    ensures CheckProxies(useProxy, trustedProxies, f1, remoteAddr)
         == CheckProxies(useProxy, trustedProxies, f2, remoteAddr)
  {
  }

  /** The remote port plays no part: only the host. */
  lemma RemotePortIgnored(useProxy: bool, trustedProxies: seq<string>, forwardedFor: string,
                          host: string, p1: string, p2: string)
    requires '[' !in host && ']' !in host
    requires ':' !in p1 && '[' !in p1 && ']' !in p1
    requires ':' !in p2 && '[' !in p2 && ']' !in p2
    ensures CheckProxies(useProxy, trustedProxies, forwardedFor, JoinHostPort(host, p1))
         == CheckProxies(useProxy, trustedProxies, forwardedFor, JoinHostPort(host, p2))
  {
    SplitJoinHostPort(host, p1);
    SplitJoinHostPort(host, p2);
  }

  /** A request through a proxy whose address is on the list, connecting
      from any port, is forwarded. */
  lemma ListedProxyForwarded(a: Addr, trustedProxies: seq<string>, forwardedFor: string, port: string)
    requires a.Valid() && FormatIP(a) in trustedProxies && forwardedFor != ""
    requires ':' !in port && '[' !in port && ']' !in port
    ensures CheckProxies(true, trustedProxies, forwardedFor, JoinHostPort(FormatIP(a), port)) == Forward
  {
    var t := FormatIP(a);
    ParseFormattedIP(a);
    ParsedAddrText(t);
    SplitJoinHostPort(t, port);
    var i :| 0 <= i < |trustedProxies| && trustedProxies[i] == t;
    assert Matches(a, trustedProxies[i]);
  }

  /** The wrapped handler's response reaches the client, whatever that
      response is, exactly when the decision is to forward the request. */
  lemma HandlerAnswersIffForwarded(useProxy: bool, trustedProxies: seq<string>, forwardedFor: string, remoteAddr: string)
    ensures var outcome := CheckProxies(useProxy, trustedProxies, forwardedFor, remoteAddr);
            (forall h :: Serve(outcome, h) == h) <==> outcome == Forward
  {
    var outcome := CheckProxies(useProxy, trustedProxies, forwardedFor, remoteAddr);
    if outcome.Reject? {
      var other := Response(outcome.status + 1, outcome.body);
      assert Serve(outcome, other) != other;
    }
  }

  /** A rejected request gets the same answer whatever the wrapped handler
      would have written: the handler is not run. */
  lemma RejectIgnoresHandler(outcome: Outcome, h1: Response, h2: Response)
    requires outcome.Reject?
    ensures Serve(outcome, h1) == Serve(outcome, h2)
    ensures Serve(outcome, h1) == Response(outcome.status, outcome.body)
  {
  }
}
