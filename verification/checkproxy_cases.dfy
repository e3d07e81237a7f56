/** The concrete cases of the repository's tests, stated about the model.
    Two of them (an unsplittable remote address) come out as status 500 with
    no body, which is what the code does; the tests expect 400 and
    "Untrusted proxy". */
module CheckProxyCases {
  import opened Wrappers
  import opened NetIP
  import opened IPParse
  import opened HostPort
  import opened CheckProxy

  function V4(a: bv8, b: bv8, c: bv8, d: bv8): (r: Addr)
    ensures r.Valid() && r.family == IPv4
  {
    Addr(IPv4, [a, b, c, d])
  }

  lemma Loopback()
    ensures ParseIP("127.0.0.1") == Some(V4(127, 0, 0, 1))
  {
    assert FormatDecimal(127) == "127" && FormatDecimal(0) == "0" && FormatDecimal(1) == "1";
    assert FormatIP(V4(127, 0, 0, 1)) == "127.0.0.1";
    ParseFormattedIP(V4(127, 0, 0, 1));
  }

  lemma ZeroAddress()
    ensures ParseIP("0.0.0.0") == Some(V4(0, 0, 0, 0))
  {
    assert FormatDecimal(0) == "0";
    assert FormatIP(V4(0, 0, 0, 0)) == "0.0.0.0";
    ParseFormattedIP(V4(0, 0, 0, 0));
  }

  lemma TenDotOne()
    ensures ParseIP("10.0.0.1") == Some(V4(10, 0, 0, 1))
  {
    assert FormatDecimal(10) == "10" && FormatDecimal(0) == "0" && FormatDecimal(1) == "1";
    assert FormatIP(V4(10, 0, 0, 1)) == "10.0.0.1";
    ParseFormattedIP(V4(10, 0, 0, 1));
  }

  lemma TenDotTwo()
    ensures ParseIP("10.0.0.2") == Some(V4(10, 0, 0, 2))
  {
    assert FormatDecimal(10) == "10" && FormatDecimal(0) == "0" && FormatDecimal(2) == "2";
    assert FormatIP(V4(10, 0, 0, 2)) == "10.0.0.2";
    ParseFormattedIP(V4(10, 0, 0, 2));
  }

  lemma TenOneDotOne()
    ensures ParseIP("10.1.0.1") == Some(V4(10, 1, 0, 1))
  {
    assert FormatDecimal(10) == "10" && FormatDecimal(0) == "0" && FormatDecimal(1) == "1";
    assert FormatIP(V4(10, 1, 0, 1)) == "10.1.0.1";
    ParseFormattedIP(V4(10, 1, 0, 1));
  }

  lemma TenNetwork()
    ensures ParseIP("10.0.0.0") == Some(V4(10, 0, 0, 0))
  {
    assert FormatDecimal(10) == "10" && FormatDecimal(0) == "0";
    assert FormatIP(V4(10, 0, 0, 0)) == "10.0.0.0";
    ParseFormattedIP(V4(10, 0, 0, 0));
  }

  lemma TenBlock()
    ensures ParseCIDR("10.0.0.1/24") == Ok((V4(10, 0, 0, 1), NetworkOf(V4(10, 0, 0, 1), 24)))
  {
    assert FormatDecimal(10) == "10" && FormatDecimal(0) == "0" && FormatDecimal(1) == "1";
    assert FormatDecimal(24) == "24";
    assert FormatIP(V4(10, 0, 0, 1)) + "/" + FormatDecimal(24) == "10.0.0.1/24";
    CIDRRoundTrip(V4(10, 0, 0, 1), 24);
  }

  const NetworkList: seq<string> := ["10.0.0.1/24", "10.1.0.1", "127.0.0.1"]

  /** checkproxy_test.go:18: a listed bare address is trusted. */
  lemma LoopbackIsTrusted()
    ensures CheckIPInNetworkList("127.0.0.1", NetworkList)
  {
    Loopback();
    assert Matches(V4(127, 0, 0, 1), NetworkList[2]);
  }

  /** checkproxy_test.go:20: an address inside a listed block is trusted. */
  lemma SubnetMemberIsTrusted()
    ensures CheckIPInNetworkList("10.0.0.1", NetworkList)
  {
    TenDotOne();
    TenBlock();
    NetworkOfContains(V4(10, 0, 0, 1), 24, V4(10, 0, 0, 1));
    assert Matches(V4(10, 0, 0, 1), NetworkList[0]);
  }

  lemma ZeroOutsideTenBlock()
    ensures !CheckIPInNetworkList("0.0.0.0", ["10.0.0.1/24"])
  {
    ZeroAddress();
    TenBlock();
    CIDREntryMatchesPrefix("0.0.0.0", "10.0.0.1/24");
    assert ByteBit(10, 4) && !ByteBit(0, 4);
    assert Bit(V4(10, 0, 0, 1), 4) != Bit(V4(0, 0, 0, 0), 4);
  }

  /** checkproxy_test.go:19: 0.0.0.0 matches no entry. */
  lemma ZeroAddressIsNotTrusted()
    ensures !CheckIPInNetworkList("0.0.0.0", NetworkList)
  {
    var tail := ["10.1.0.1", "127.0.0.1"];
    assert !CheckIPInNetworkList("0.0.0.0", ["10.1.0.1"]) by {
      ZeroAddress();
      TenOneDotOne();
      AddressEntryMatchesItself("0.0.0.0", "10.1.0.1");
    }
    assert !CheckIPInNetworkList("0.0.0.0", ["127.0.0.1"]) by {
      ZeroAddress();
      Loopback();
      AddressEntryMatchesItself("0.0.0.0", "127.0.0.1");
    }
    assert !CheckIPInNetworkList("0.0.0.0", tail) by {
      ConcatenatedLists("0.0.0.0", ["10.1.0.1"], ["127.0.0.1"]);
      assert ["10.1.0.1"] + ["127.0.0.1"] == tail;
    }
    ZeroOutsideTenBlock();
    ConcatenatedLists("0.0.0.0", ["10.0.0.1/24"], tail);
    assert ["10.0.0.1/24"] + tail == NetworkList;
  }

  /** checkproxy_test.go:21: text that is no address is never trusted. */
  lemma NotAnIPIsNotTrusted()
    ensures !CheckIPInNetworkList("not an ip", NetworkList)
  {
    assert '.' !in "not an ip" && ':' !in "not an ip";
  }

  /** checkproxy_test.go:34-38: a list of entries that read as neither
      form trusts nothing; 100 exceeds the 32 bits of an IPv4 address. */
  lemma BrokenListTrustsNothing()
    ensures !CheckIPInNetworkList("127.0.0.1", ["not an address", "10.0.0.0/100"])
  {
    NotAnAddressIsInvalid();
    OverlongPrefixIsInvalid();
    InvalidPair("127.0.0.1", "not an address", "10.0.0.0/100");
  }

  lemma InvalidPair(clientIP: string, a: string, b: string)
    requires TrustedEntry(a) == Invalid && TrustedEntry(b) == Invalid
    ensures !CheckIPInNetworkList(clientIP, [a, b])
  {
    OnlyInvalidEntries(clientIP, [a, b]);
  }

  /** A word without '.' or ':' is neither a CIDR block nor an address. */
  lemma NotAnAddressIsInvalid()
    ensures TrustedEntry("not an address") == Invalid
  {
    NoSeparatorIsInvalid("not an address");
  }

  /** A prefix length beyond 32 bits makes an IPv4 block unusable. */
  lemma OverlongPrefixIsInvalid()
    ensures TrustedEntry("10.0.0.0/100") == Invalid
  {
    assert TrustedEntry("10.0.0.0" + "/" + "100") == Invalid by {
      TenNetwork();
      IPParse.DecimalValueShort("100");
      PrefixTooLongIsInvalid("10.0.0.0", "100");
    }
    OverlongPrefixText();
  }

  /** The entry of the broken list, as the address and prefix parts that
      PrefixTooLongIsInvalid takes. */
  lemma OverlongPrefixText()
    ensures "10.0.0.0" + "/" + "100" == "10.0.0.0/100"
  {
  }

  /** checkproxy_test.go:41-55. */
  lemma DisabledWithForwarded()
    ensures CheckProxies(false, [""], "100.100.100.100", "") == Reject(400, DetectedProxy)
  {
  }

  /** checkproxy_test.go:57-70. */
  lemma DisabledWithoutForwarded()
    ensures CheckProxies(false, [""], "", "") == Forward
  {
  }

  /** checkproxy_test.go:72-85. */
  lemma EnabledWithoutForwarded()
    ensures CheckProxies(true, [""], "", "") == Reject(400, ExpectedProxy)
  {
  }

  lemma RemoteAddrSplits()
    ensures SplitHostPort("10.0.0.1:10101") == Ok(("10.0.0.1", "10101"))
  {
    assert ':' !in "10.0.0.1" && '[' !in "10.0.0.1" && ']' !in "10.0.0.1";
    assert ':' !in "10101" && '[' !in "10101" && ']' !in "10101";
    assert JoinHostPort("10.0.0.1", "10101") == "10.0.0.1:10101";
    SplitJoinHostPort("10.0.0.1", "10101");
  }

  /** checkproxy_test.go:87-102. */
  lemma EnabledWithTrustedProxy()
    ensures CheckProxies(true, ["10.0.0.1"], "100.100.100.100", "10.0.0.1:10101") == Forward
  {
    TenDotOne();
    RemoteAddrSplits();
    AddressEntryMatchesItself("10.0.0.1", "10.0.0.1");
  }

  /** checkproxy_test.go:104-119. */
  lemma EnabledWithUntrustedProxy()
    ensures CheckProxies(true, ["10.0.0.2"], "100.100.100.100", "10.0.0.1:10101") == Reject(400, UntrustedProxy)
  {
    TenDotOne();
    TenDotTwo();
    RemoteAddrSplits();
    AddressEntryMatchesItself("10.0.0.1", "10.0.0.2");
  }

  /** checkproxy_test.go:121-136: the code answers 500 with no body where
      the test expects 400 and "Untrusted proxy". */
  lemma EnabledWithMalformedRemoteAddr()
    ensures CheckProxies(true, ["10.0.0.2"], "100.100.100.100", "asdasjd") == Reject(500, "")
  {
  }

  /** checkproxy_test.go:138-153: a remote address without a port is not
      split, so again 500 with no body rather than the tests' 400. */
  lemma EnabledWithPortlessRemoteAddr()
    ensures CheckProxies(true, ["10.0.0.2"], "100.100.100.100", "10.0.0.1") == Reject(500, "")
  {
  }
}
