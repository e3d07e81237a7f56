/** Text forms of addresses and subnets, as Go's net.ParseIP and
    net.ParseCIDR read them: dotted-decimal IPv4, colon-separated
    hexadecimal IPv6 with at most one "::", and CIDR notation
    `<address>/<prefix length>`. */
module IPParse {
  import opened Wrappers
  import opened Strings
  import opened NetIP
  import opened Bytes

  // ---------------------------------------------------------------------
  // IPv4

  /** One dotted-decimal field: one to three digits with no leading zero,
      worth at most 255. */
  function ParseOctet(t: string): (r: Option<nat>)
    ensures r.Some? ==> r.value < 256
  {
    if 1 <= |t| <= 3 && AllDigits(t) && (|t| == 1 || t[0] != '0') && DecimalValue(t) <= 255
    then Some(DecimalValue(t))
    else None
  }

  /** The shortest decimal numeral of a number below 1000. */
  function FormatDecimal(v: nat): (t: string)
    requires v < 1000
    ensures 1 <= |t| <= 3 && AllDigits(t)
  {
    if v < 10 then [DigitChar(v)]
    else if v < 100 then [DigitChar(v / 10), DigitChar(v % 10)]
    else [DigitChar(v / 100), DigitChar(v / 10 % 10), DigitChar(v % 10)]
  }

  /** Four dotted-decimal fields, and nothing else. */
  function ParseIPv4(s: string): (r: Option<Addr>)
    ensures r.Some? ==> r.value.Valid() && r.value.family == IPv4
  {
    var f := Split(s, '.');
    if |f| == 4 && ParseOctet(f[0]).Some? && ParseOctet(f[1]).Some?
       && ParseOctet(f[2]).Some? && ParseOctet(f[3]).Some?
    then Some(Addr(IPv4, [ParseOctet(f[0]).value as bv8, ParseOctet(f[1]).value as bv8,
                          ParseOctet(f[2]).value as bv8, ParseOctet(f[3]).value as bv8]))
    else None
  }

  function OctetFields(a: Addr): (f: seq<string>)
    requires a.Valid() && a.family == IPv4
    ensures |f| == 4
  {
    [FormatDecimal(a.bytes[0] as int), FormatDecimal(a.bytes[1] as int),
     FormatDecimal(a.bytes[2] as int), FormatDecimal(a.bytes[3] as int)]
  }

  /** The dotted-decimal text of an IPv4 address. */
  function FormatIPv4(a: Addr): (r: string)
    requires a.Valid() && a.family == IPv4
  {
    Join(OctetFields(a), '.')
  }

  // ---------------------------------------------------------------------
  // IPv6

  /** One colon-separated group: one to four hexadecimal digits, stored as
      two bytes, high byte first. */
  function ParseHextet(t: string): (r: Option<seq<bv8>>)
    ensures r.Some? ==> |r.value| == 2
  {
    if 1 <= |t| <= 4 && AllHexDigits(t) then
      var v := HexValue(t);
      HexValueBound(t);
      Some([(v / 256) as bv8, (v % 256) as bv8])
    else None
  }

  /** The bytes of a run of groups, or None when one group is malformed. */
  function ParseGroups(groups: seq<string>): (r: Option<seq<bv8>>)
    ensures r.Some? ==> |r.value| == 2 * |groups|
  {
    if |groups| == 0 then Some([])
    else
      match (ParseHextet(groups[0]), ParseGroups(groups[1..]))
      case (Some(h), Some(t)) => Some(h + t)
      case _ => None
  }

  /** The groups on one side of a "::": none at all, or groups separated
      by single colons. */
  function ParseGroupText(t: string): (r: Option<seq<bv8>>)
    ensures r.Some? ==> |r.value| % 2 == 0
  {
    if |t| == 0 then Some([]) else ParseGroups(Split(t, ':'))
  }

  /** Index of the first "::" in `s`, or -1 when there is none. */
  function EllipsisIndex(s: string): (r: int)
    ensures r < 0 ==> r == -1 && NoEllipsis(s)
    ensures 0 <= r ==> r + 1 < |s| && s[r] == ':' && s[r + 1] == ':'
  {
    if |s| < 2 then -1
    else if s[0] == ':' && s[1] == ':' then 0
    else
      var k := EllipsisIndex(s[1..]);
      if k < 0 then -1 else k + 1
  }

  predicate NoEllipsis(s: string) {
    forall k :: 0 <= k < |s| - 1 ==> !(s[k] == ':' && s[k + 1] == ':')
  }

  function Zeros(n: nat): (z: seq<bv8>)
    ensures |z| == n && forall i :: 0 <= i < n ==> z[i] == 0
  {
    seq(n, _ => 0)
  }

  /** Eight groups, or fewer with a single "::" standing for at least one
      group of zeros. */
  function ParseIPv6(s: string): (r: Option<Addr>)
    ensures r.Some? ==> r.value.Valid() && r.value.family == IPv6
  {
    var k := EllipsisIndex(s);
    if k < 0 then
      match ParseGroups(Split(s, ':'))
      case Some(b) => if |b| == 16 then Some(Addr(IPv6, b)) else None
      case None => None
    else
      match (ParseGroupText(s[..k]), ParseGroupText(s[k + 2..]))
      case (Some(l), Some(r)) =>
        if |l| + |r| <= 14 then Some(Addr(IPv6, l + Zeros(16 - |l| - |r|) + r)) else None
      case _ => None
  }

  /** Four lower-case hexadecimal digits for a pair of bytes. */
  function Hex4(hi: bv8, lo: bv8): (t: string)
    ensures |t| == 4 && AllHexDigits(t)
  {
    [HexDigitChar(hi as int / 16), HexDigitChar(hi as int % 16),
     HexDigitChar(lo as int / 16), HexDigitChar(lo as int % 16)]
  }

  function FormatGroups(b: seq<bv8>): (g: seq<string>)
    requires |b| % 2 == 0
    ensures 2 * |g| == |b|
    ensures forall k :: 0 <= k < |g| ==> |g[k]| == 4 && AllHexDigits(g[k])
  {
    if |b| == 0 then [] else [Hex4(b[0], b[1])] + FormatGroups(b[2..])
  }

  /** The full, uncompressed text of an IPv6 address: eight groups of four
      hexadecimal digits. */
  function FormatIPv6(a: Addr): (r: string)
    requires a.Valid() && a.family == IPv6
  {
    Join(FormatGroups(a.bytes), ':')
  }

  // ---------------------------------------------------------------------
  // Either family, and CIDR notation

  /** The first '.' or ':' of the text, which decides the family. */
  function FirstSeparator(s: string): (r: Option<char>)
    ensures r.Some? ==> r.value == '.' || r.value == ':'
    ensures r.None? <==> '.' !in s && ':' !in s
  {
    if |s| == 0 then None
    else if s[0] == '.' || s[0] == ':' then Some(s[0])
    else FirstSeparator(s[1..])
  }

  /** Go's net.ParseIP: the text is read as IPv4 when its first separator is
      a dot, as IPv6 when it is a colon; None stands for Go's nil IP. */
  function ParseIP(s: string): (r: Option<Addr>)
    ensures r.Some? ==> r.value.Valid()
    ensures FirstSeparator(s).None? ==> r.None?
    ensures r.Some? && r.value.family == IPv4 ==> FirstSeparator(s) == Some('.')
    ensures r.Some? && r.value.family == IPv6 ==> FirstSeparator(s) == Some(':')
  {
    match FirstSeparator(s)
    case None => None
    case Some(c) => if c == '.' then ParseIPv4(s) else ParseIPv6(s)
  }

  /** The text of an address: dotted decimal or full hexadecimal. */
  function FormatIP(a: Addr): (r: string)
    requires a.Valid()
  {
    match a.family
    case IPv4 => FormatIPv4(a)
    case IPv6 => FormatIPv6(a)
  }

  /** Go's net.ParseError: the kind of text expected, and the text. */
  datatype ParseError = ParseError(kind: string, text: string)

  const CIDRAddress := "CIDR address"

  /** Go's net.ParseCIDR: the address before the first '/', and the subnet
      it names with the decimal prefix length after it. Every failure is a
      ParseError of kind "CIDR address". */
  function ParseCIDR(s: string): (r: Result<(Addr, IPNet), ParseError>)
    ensures r.Err? ==> r.error == ParseError(CIDRAddress, s)
    ensures '/' !in s ==> r.Err?
    ensures r.Ok? ==> var (ip, n) := r.value;
              ip.Valid() && n.Valid() && n.ip.family == ip.family && n == NetworkOf(ip, n.prefix)
  {
    var i := IndexOf(s, '/');
    if i < 0 then Err(ParseError(CIDRAddress, s))
    else
      var addr, mask := s[..i], s[i + 1..];
      match ParseIP(addr)
      case None => Err(ParseError(CIDRAddress, s))
      case Some(ip) =>
        if |mask| == 0 || !AllDigits(mask) || DecimalValue(mask) > BitLen(ip.family)
        then Err(ParseError(CIDRAddress, s))
        else Ok((ip, NetworkOf(ip, DecimalValue(mask))))
  }

  // ---------------------------------------------------------------------
  // Lemmas

  lemma {:induction false} HexValueBound(t: string)
    requires AllHexDigits(t) && |t| <= 4
    ensures HexValue(t) < 65536
  {
    if |t| > 0 {
      HexValueBound(t[..|t| - 1]);
      if |t| == 1 {
        assert HexValue(t[..0]) == 0;
      } else if |t| == 2 {
        HexValueBound1(t[..1]);
      } else if |t| == 3 {
        HexValueBound2(t[..2]);
      } else {
        HexValueBound3(t[..3]);
      }
    }
  }

  lemma HexValueBound1(t: string)
    requires AllHexDigits(t) && |t| == 1
    ensures HexValue(t) < 16
  {
  }

  lemma HexValueBound2(t: string)
    requires AllHexDigits(t) && |t| == 2
    ensures HexValue(t) < 256
  {
    HexValueBound1(t[..1]);
  }

  lemma HexValueBound3(t: string)
    requires AllHexDigits(t) && |t| == 3
    ensures HexValue(t) < 4096
  {
    HexValueBound2(t[..2]);
  }

  /** Decimal values of numerals of one to three digits, digit by digit. */
  lemma DecimalValueShort(t: string)
    requires AllDigits(t) && 1 <= |t| <= 3
    ensures |t| == 1 ==> DecimalValue(t) == DigitValue(t[0])
    ensures |t| == 2 ==> DecimalValue(t) == 10 * DigitValue(t[0]) + DigitValue(t[1])
    ensures |t| == 3 ==> DecimalValue(t) == 100 * DigitValue(t[0]) + 10 * DigitValue(t[1]) + DigitValue(t[2])
  {
  }

  lemma OctetRoundTrip(v: nat)
    requires v < 256
    ensures ParseOctet(FormatDecimal(v)) == Some(v)
  {
    DecimalValueShort(FormatDecimal(v));
  }

  /** Only the shortest numeral of a value is accepted. */
  lemma OctetCanonical(t: string)
    requires ParseOctet(t).Some?
    ensures FormatDecimal(ParseOctet(t).value) == t
  {
    DecimalValueShort(t);
    var v := ParseOctet(t).value;
    if |t| == 1 {
      DigitRoundTrip(t[0]);
      assert FormatDecimal(v) == [t[0]];
    } else if |t| == 2 {
      DigitRoundTrip(t[0]);
      DigitRoundTrip(t[1]);
      DivMod10(DigitValue(t[0]), DigitValue(t[1]));
      assert FormatDecimal(v) == [t[0], t[1]];
    } else {
      DigitRoundTrip(t[0]);
      DigitRoundTrip(t[1]);
      DigitRoundTrip(t[2]);
      var hi := 10 * DigitValue(t[0]) + DigitValue(t[1]);
      DivMod10(hi, DigitValue(t[2]));
      DivMod10(DigitValue(t[0]), DigitValue(t[1]));
      assert v / 100 == DigitValue(t[0]) by {
        assert v == 100 * DigitValue(t[0]) + (10 * DigitValue(t[1]) + DigitValue(t[2]));
      }
      assert FormatDecimal(v) == [t[0], t[1], t[2]];
    }
  }

  lemma DigitRoundTrip(c: char)
    requires IsDigit(c)
    ensures DigitChar(DigitValue(c)) == c
  {
  }

  lemma DivMod10(a: nat, b: nat)
    requires b < 10
    ensures (10 * a + b) / 10 == a && (10 * a + b) % 10 == b
  {
  }

  lemma OctetFieldsSplit(a: Addr)
    requires a.Valid() && a.family == IPv4
    ensures Split(FormatIPv4(a), '.') == OctetFields(a)
    ensures forall k :: 0 <= k < 4 ==> ParseOctet(OctetFields(a)[k]) == Some(a.bytes[k] as int)
  {
    var f := OctetFields(a);
    forall k | 0 <= k < 4 ensures '.' !in f[k] && ParseOctet(f[k]) == Some(a.bytes[k] as int) {
      OctetRoundTrip(a.bytes[k] as int);
      assert !IsDigit('.');
    }
    SplitJoin(f, '.');
  }

  /** Reading the dotted-decimal text of an address gives the address back. */
  lemma IPv4RoundTrip(a: Addr)
    requires a.Valid() && a.family == IPv4
    ensures ParseIPv4(FormatIPv4(a)) == Some(a)
  {
    OctetFieldsSplit(a);
    ParseIPv4Fields(FormatIPv4(a), a.bytes);
  }

  /** Four fields each holding the value of one byte read as those bytes. */
  lemma ParseIPv4Fields(s: string, b: seq<bv8>)
    requires |b| == 4 && |Split(s, '.')| == 4
    requires forall k :: 0 <= k < 4 ==> ParseOctet(Split(s, '.')[k]) == Some(b[k] as int)
    ensures ParseIPv4(s) == Some(Addr(IPv4, b))
  {
    var f := Split(s, '.');
    var c := [ParseOctet(f[0]).value as bv8, ParseOctet(f[1]).value as bv8,
              ParseOctet(f[2]).value as bv8, ParseOctet(f[3]).value as bv8];
    forall k | 0 <= k < 4 ensures c[k] == b[k] {
      IntOfByte(b[k]);
    }
    assert c == b;
  }

  /** The IPv4 parser accepts only the canonical dotted-decimal text of the
      address it returns. */
  lemma IPv4Canonical(s: string)
    requires ParseIPv4(s).Some?
    ensures FormatIPv4(ParseIPv4(s).value) == s
  {
    var f := Split(s, '.');
    var a := ParseIPv4(s).value;
    forall k | 0 <= k < 4 ensures FormatDecimal(a.bytes[k] as int) == f[k] {
      OctetCanonical(f[k]);
      ByteValue(ParseOctet(f[k]).value);
    }
    assert OctetFields(a) == f;
    JoinSplit(s, '.');
  }

  predicate DottedChar(c: char) {
    IsDigit(c) || c == '.'
  }

  predicate ColonHexChar(c: char) {
    IsHexDigit(c) || c == ':'
  }

  /** Accepted IPv4 text holds only digits and dots. */
  lemma IPv4TextChars(s: string)
    requires ParseIPv4(s).Some?
    ensures forall i :: 0 <= i < |s| ==> DottedChar(s[i])
  {
    var f := Split(s, '.');
    forall k, i | 0 <= k < |f| && 0 <= i < |f[k]| ensures DottedChar(f[k][i]) {
      assert ParseOctet(f[k]).Some?;
    }
    JoinKeepsClass(f, '.', DottedChar);
    JoinSplit(s, '.');
  }

  lemma {:induction false} GroupsAreHex(groups: seq<string>)
    requires ParseGroups(groups).Some?
    ensures forall k, i :: 0 <= k < |groups| && 0 <= i < |groups[k]| ==> IsHexDigit(groups[k][i])
  {
    if |groups| > 0 {
      GroupsAreHex(groups[1..]);
      forall k, i | 0 <= k < |groups| && 0 <= i < |groups[k]| ensures IsHexDigit(groups[k][i]) {
        if k > 0 {
          assert groups[k] == groups[1..][k - 1];
        }
      }
    }
  }

  lemma GroupTextChars(t: string)
    requires ParseGroupText(t).Some?
    ensures forall i :: 0 <= i < |t| ==> ColonHexChar(t[i])
  {
    if |t| > 0 {
      var f := Split(t, ':');
      GroupsAreHex(f);
      JoinKeepsClass(f, ':', ColonHexChar);
      JoinSplit(t, ':');
    }
  }

  /** Accepted IPv6 text holds only hexadecimal digits and colons. */
  lemma IPv6TextChars(s: string)
    requires ParseIPv6(s).Some?
    ensures forall i :: 0 <= i < |s| ==> ColonHexChar(s[i])
  {
    var k := EllipsisIndex(s);
    if k < 0 {
      PlainGroupsChars(s);
    } else {
      assert ParseGroupText(s[..k]).Some? && ParseGroupText(s[k + 2..]).Some?;
      EllipsisChars(s, k);
    }
  }

  lemma PlainGroupsChars(s: string)
    requires ParseGroups(Split(s, ':')).Some?
    ensures forall i :: 0 <= i < |s| ==> ColonHexChar(s[i])
  {
    if |s| > 0 {
      assert ParseGroupText(s) == ParseGroups(Split(s, ':'));
      GroupTextChars(s);
    }
  }

  lemma EllipsisChars(s: string, k: nat)
    requires k + 2 <= |s| && s[k] == ':' && s[k + 1] == ':'
    requires ParseGroupText(s[..k]).Some? && ParseGroupText(s[k + 2..]).Some?
    ensures forall i :: 0 <= i < |s| ==> ColonHexChar(s[i])
  {
    var l, r := s[..k], s[k + 2..];
    GroupTextChars(l);
    GroupTextChars(r);
    assert s == l + "::" + r;
    ConcatClass(l, "::", r, ColonHexChar);
  }

  lemma ConcatClass(a: string, b: string, c: string, p: char -> bool)
    requires forall i :: 0 <= i < |a| ==> p(a[i])
    requires forall i :: 0 <= i < |b| ==> p(b[i])
    requires forall i :: 0 <= i < |c| ==> p(c[i])
    ensures forall i :: 0 <= i < |a + b + c| ==> p((a + b + c)[i])
  {
  }

  /** Text that parses as an address holds only hexadecimal digits, dots
      and colons: no '/', so it never reads as CIDR notation, and no
      brackets. */
  lemma ParsedAddrText(s: string)
    requires ParseIP(s).Some?
    ensures forall i :: 0 <= i < |s| ==> IsHexDigit(s[i]) || s[i] == '.' || s[i] == ':'
    ensures '/' !in s && '[' !in s && ']' !in s
  {
    if ParseIP(s).value.family == IPv4 {
      IPv4TextChars(s);
    } else {
      IPv6TextChars(s);
    }
  }

  lemma HexValueFour(t: string)
    requires AllHexDigits(t) && |t| == 4
    ensures HexValue(t) == 4096 * HexDigitValue(t[0]) + 256 * HexDigitValue(t[1])
                           + 16 * HexDigitValue(t[2]) + HexDigitValue(t[3])
  {
    assert t[..3][..2] == t[..2];
    assert t[..2][..1] == t[..1];
    assert t[..1][..0] == [];
    assert HexValue(t[..1]) == HexDigitValue(t[0]);
    assert HexValue(t[..2]) == 16 * HexDigitValue(t[0]) + HexDigitValue(t[1]);
    assert HexValue(t[..3]) == 16 * HexValue(t[..2]) + HexDigitValue(t[2]);
    assert HexValue(t) == 16 * HexValue(t[..3]) + HexDigitValue(t[3]);
  }

  lemma Hex4Value(hi: bv8, lo: bv8)
    ensures HexValue(Hex4(hi, lo)) == 256 * (hi as int) + lo as int
  {
    var h, l := hi as int, lo as int;
    HexValueFour(Hex4(hi, lo));
    assert 16 * (h / 16) + h % 16 == h;
    assert 16 * (l / 16) + l % 16 == l;
  }

  lemma HextetRoundTrip(hi: bv8, lo: bv8)
    ensures ParseHextet(Hex4(hi, lo)) == Some([hi, lo])
  {
    var v := HexValue(Hex4(hi, lo));
    Hex4Value(hi, lo);
    assert v / 256 == hi as int && v % 256 == lo as int;
    IntOfByte(hi);
    IntOfByte(lo);
  }

  lemma {:induction false} GroupsRoundTrip(b: seq<bv8>)
    requires |b| % 2 == 0
    ensures ParseGroups(FormatGroups(b)) == Some(b)
  {
    if |b| > 0 {
      GroupsRoundTrip(b[2..]);
      HextetRoundTrip(b[0], b[1]);
      var g := FormatGroups(b);
      assert g[1..] == FormatGroups(b[2..]);
      assert [b[0], b[1]] + b[2..] == b;
    }
  }

  /** Joining non-empty groups free of colons with single colons never
      produces a "::". */
  lemma {:induction false} JoinHasNoEllipsis(g: seq<string>)
    requires |g| >= 1
    requires forall k :: 0 <= k < |g| ==> |g[k]| >= 1 && ':' !in g[k]
    ensures NoEllipsis(Join(g, ':'))
  {
    if |g| > 1 {
      JoinHasNoEllipsis(g[1..]);
      var rest := Join(g[1..], ':');
      var s := Join(g, ':');
      assert s == g[0] + [':'] + rest;
      assert |rest| >= 1 && rest[0] != ':' by {
        assert g[1..][0] == g[1];
        assert |g[1..]| == 1 ==> rest == g[1];
        assert |g[1..]| > 1 ==> rest == g[1] + [':'] + Join(g[2..], ':') by {
          assert g[1..][1..] == g[2..];
        }
        assert rest[0] == g[1][0];
      }
      forall k | 0 <= k < |s| - 1 ensures !(s[k] == ':' && s[k + 1] == ':') {
        if k < |g[0]| {
          assert s[k] == g[0][k];
        } else {
          assert s[k + 1] == rest[k - |g[0]|];
          if k > |g[0]| {
            assert s[k] == rest[k - |g[0]| - 1];
          }
        }
      }
    }
  }

  /** Reading the full hexadecimal text of an address gives the address
      back. */
  lemma IPv6RoundTrip(a: Addr)
    requires a.Valid() && a.family == IPv6
    ensures ParseIPv6(FormatIPv6(a)) == Some(a)
  {
    var g := FormatGroups(a.bytes);
    forall k | 0 <= k < |g| ensures |g[k]| >= 1 && ':' !in g[k] {
      assert !IsHexDigit(':');
    }
    JoinHasNoEllipsis(g);
    SplitJoin(g, ':');
    GroupsRoundTrip(a.bytes);
  }

  /** The first separator of a text is the first dot or colon after a
      stretch that holds neither. */
  lemma {:induction false} FirstSeparatorAfter(u: string, c: char, w: string)
    requires '.' !in u && ':' !in u
    requires c == '.' || c == ':'
    ensures FirstSeparator(u + [c] + w) == Some(c)
  {
    if |u| > 0 {
      FirstSeparatorAfter(u[1..], c, w);
      assert (u + [c] + w)[1..] == u[1..] + [c] + w;
    }
  }

  /** Reading the text of an address gives the address back. */
  lemma ParseFormattedIP(a: Addr)
    requires a.Valid()
    ensures ParseIP(FormatIP(a)) == Some(a)
  {
    match a.family
    case IPv4 =>
      var f := OctetFields(a);
      assert '.' !in f[0] && ':' !in f[0] by { assert !IsDigit('.') && !IsDigit(':'); }
      assert FormatIPv4(a) == f[0] + ['.'] + Join(f[1..], '.');
      FirstSeparatorAfter(f[0], '.', Join(f[1..], '.'));
      IPv4RoundTrip(a);
    case IPv6 =>
      var g := FormatGroups(a.bytes);
      assert '.' !in g[0] && ':' !in g[0] by { assert !IsHexDigit('.') && !IsHexDigit(':'); }
      assert FormatIPv6(a) == g[0] + [':'] + Join(g[1..], ':');
      FirstSeparatorAfter(g[0], ':', Join(g[1..], ':'));
      IPv6RoundTrip(a);
  }

  /** An address, a '/' and a decimal prefix length no wider than the
      address read as that address and the subnet it masks to. Leading
      zeros in the prefix length are accepted. */
  lemma CIDRFromParts(t: string, p: string)
    requires ParseIP(t).Some?
    requires |p| > 0 && AllDigits(p) && DecimalValue(p) <= BitLen(ParseIP(t).value.family)
    ensures ParseCIDR(t + "/" + p) == Ok((ParseIP(t).value, NetworkOf(ParseIP(t).value, DecimalValue(p))))
  {
    ParsedAddrText(t);
    FirstSplit(t, '/', p);
  }

  /** Conversely, every text ParseCIDR accepts is an address, a '/' and a
      decimal prefix length no wider than the address, and the subnet is
      the address masked to that length. */
  lemma CIDRParts(s: string) returns (t: string, p: string)
    requires ParseCIDR(s).Ok?
    ensures s == t + "/" + p && '/' !in t
    ensures ParseIP(t) == Some(ParseCIDR(s).value.0)
    ensures |p| > 0 && AllDigits(p) && DecimalValue(p) <= BitLen(ParseCIDR(s).value.0.family)
    ensures ParseCIDR(s).value.1 == NetworkOf(ParseCIDR(s).value.0, DecimalValue(p))
  {
    var i := IndexOf(s, '/');
    t, p := s[..i], s[i + 1..];
    assert s == t + "/" + p;
  }

  /** Reading the CIDR text `a/n` gives the address and the subnet with its
      network address masked to the first `n` bits. */
  lemma CIDRRoundTrip(a: Addr, n: nat)
    requires a.Valid() && n <= BitLen(a.family)
    ensures ParseCIDR(FormatIP(a) + "/" + FormatDecimal(n)) == Ok((a, NetworkOf(a, n)))
  {
    ParseFormattedIP(a);
    OctetRoundTrip(n);
    CIDRFromParts(FormatIP(a), FormatDecimal(n));
  }
}
