/** What IPv6 text means, group by group: any spelling Go's net.ParseIP
    accepts, with groups of one to four hexadecimal digits in either case
    and with or without a "::", denotes the address whose 16-bit groups
    have the values the text writes, and zeros where the "::" stands. */
module IPv6Text {
  import opened Wrappers
  import opened Strings
  import opened NetIP
  import opened Bytes
  import opened IPParse

  /** One group as text may write it: one to four hexadecimal digits, in
      either case, leading zeros optional. */
  predicate IsGroup(t: string) {
    1 <= |t| <= 4 && AllHexDigits(t)
  }

  predicate AllGroups(g: seq<string>) {
    forall k :: 0 <= k < |g| ==> IsGroup(g[k])
  }

  /** The 16-bit value of group `k` of a byte sequence, high byte first. */
  function GroupValue(b: seq<bv8>, k: nat): (r: nat)
    requires 2 * k + 1 < |b|
  {
    256 * (b[2 * k] as int) + b[2 * k + 1] as int
  }

  /** Groups `at`, `at + 1`, ... of `b` have the values the texts `g` write. */
  predicate GroupsAt(b: seq<bv8>, at: nat, g: seq<string>)
    requires AllGroups(g)
  {
    2 * (at + |g|) <= |b| &&
    forall k :: 0 <= k < |g| ==> GroupValue(b, at + k) == HexValue(g[k])
  }

  /** The groups joined by single colons, and nothing at all for no groups:
      one side of a "::". */
  function GroupsText(g: seq<string>): (r: string)
  {
    if |g| == 0 then "" else Join(g, ':')
  }

  /** One group reads as two bytes whose 16-bit value is the group's. */
  lemma HextetValue(t: string)
    requires IsGroup(t)
    ensures ParseHextet(t).Some?
    ensures GroupValue(ParseHextet(t).value, 0) == HexValue(t)
  {
    var v := HexValue(t);
    HexValueBound(t);
    ByteValue(v / 256);
    ByteValue(v % 256);
  }

  /** A run of groups reads as bytes holding the groups' values in order. */
  lemma {:induction false} GroupsValues(g: seq<string>)
    requires AllGroups(g)
    ensures ParseGroups(g).Some?
    ensures GroupsAt(ParseGroups(g).value, 0, g)
  {
    if |g| > 0 {
      GroupsValues(g[1..]);
      HextetValue(g[0]);
      var h, t := ParseHextet(g[0]).value, ParseGroups(g[1..]).value;
      var b := ParseGroups(g).value;
      assert b == h + t;
      forall k | 0 <= k < |g| ensures GroupValue(b, k) == HexValue(g[k]) {
        if k > 0 {
          assert g[1..][k - 1] == g[k];
          assert GroupValue(b, k) == GroupValue(t, k - 1);
        }
      }
    }
  }

  /** Joined groups hold neither '.' nor ':' before the first colon. */
  lemma LeadingGroupSeparator(g: seq<string>, w: string)
    requires |g| >= 1 && AllGroups(g)
    requires |g| == 1 ==> |w| >= 1 && w[0] == ':'
    ensures FirstSeparator(Join(g, ':') + w) == Some(':')
  {
    assert '.' !in g[0] && ':' !in g[0] by {
      assert !IsHexDigit('.') && !IsHexDigit(':');
    }
    if |g| == 1 {
      assert Join(g, ':') + w == g[0] + [':'] + w[1..];
      FirstSeparatorAfter(g[0], ':', w[1..]);
    } else {
      assert Join(g, ':') + w == g[0] + [':'] + (Join(g[1..], ':') + w);
      FirstSeparatorAfter(g[0], ':', Join(g[1..], ':') + w);
    }
  }

  /** The first "::" is the one with none before it. */
  lemma {:induction false} EllipsisIndexAt(s: string, k: nat)
    requires k + 1 < |s| && s[k] == ':' && s[k + 1] == ':'
    requires forall j :: 0 <= j < k ==> !(s[j] == ':' && s[j + 1] == ':')
    ensures EllipsisIndex(s) == k
  {
    if k > 0 {
      assert !(s[0] == ':' && s[1] == ':');
      forall j | 0 <= j < k - 1 ensures !(s[1..][j] == ':' && s[1..][j + 1] == ':') {
        assert s[1..][j] == s[j + 1] && s[1..][j + 1] == s[j + 2];
      }
      EllipsisIndexAt(s[1..], k - 1);
    }
  }

  /** Groups and no colon of their own never hold a "::" and never end in
      a colon, so the first "::" after them is where they stop. */
  lemma EllipsisAfterGroups(g: seq<string>, w: string)
    requires AllGroups(g)
    ensures EllipsisIndex(GroupsText(g) + "::" + w) == |GroupsText(g)|
  {
    var l := GroupsText(g);
    var s := l + "::" + w;
    if |g| > 0 {
      forall k | 0 <= k < |g| ensures |g[k]| >= 1 && ':' !in g[k] {
        assert !IsHexDigit(':');
      }
      JoinHasNoEllipsis(g);
      JoinLast(g, ':');
      assert l[|l| - 1] != ':' by { assert IsHexDigit(g[|g| - 1][|g[|g| - 1]| - 1]); }
      forall j | 0 <= j < |l| ensures !(s[j] == ':' && s[j + 1] == ':') {
        assert s[j] == l[j];
        if j + 1 < |l| {
          assert s[j + 1] == l[j + 1];
        }
      }
    }
    EllipsisIndexAt(s, |l|);
  }

  /** One side of a "::" reads as the bytes of its groups. */
  lemma GroupTextValues(g: seq<string>)
    requires AllGroups(g)
    ensures ParseGroupText(GroupsText(g)).Some?
    ensures |ParseGroupText(GroupsText(g)).value| == 2 * |g|
    ensures GroupsAt(ParseGroupText(GroupsText(g)).value, 0, g)
  {
    GroupsValues(g);
    if |g| > 0 {
      forall k | 0 <= k < |g| ensures ':' !in g[k] {
        assert !IsHexDigit(':');
      }
      SplitJoin(g, ':');
      JoinLast(g, ':');
    }
  }

  /** The bytes a "::" text reads as: the left side, zeros, the right side. */
  function Padded(lb: seq<bv8>, rb: seq<bv8>): (r: seq<bv8>)
    requires |lb| + |rb| <= 16
  {
    lb + Zeros(16 - |lb| - |rb|) + rb
  }

  /** Text with a "::" is read as IPv6, whether or not groups come first. */
  lemma CompressedIsIPv6(t: string, gl: seq<string>, r: string)
    requires AllGroups(gl)
    requires t == GroupsText(gl) + "::" + r
    ensures FirstSeparator(t) == Some(':')
  {
    if |gl| == 0 {
      assert t[0] == ':';
    } else {
      LeadingGroupSeparator(gl, "::" + r);
      assert t == Join(gl, ':') + ("::" + r);
    }
  }

  /** Text with a "::" reads as the padded bytes of its two sides. */
  lemma CompressedBytes(t: string, gl: seq<string>, gr: seq<string>)
    requires AllGroups(gl) && AllGroups(gr) && |gl| + |gr| <= 7
    requires t == GroupsText(gl) + "::" + GroupsText(gr)
    ensures ParseGroupText(GroupsText(gl)).Some? && |ParseGroupText(GroupsText(gl)).value| == 2 * |gl|
    ensures ParseGroupText(GroupsText(gr)).Some? && |ParseGroupText(GroupsText(gr)).value| == 2 * |gr|
    ensures ParseIPv6(t) == Some(Addr(IPv6, Padded(ParseGroupText(GroupsText(gl)).value,
                                                   ParseGroupText(GroupsText(gr)).value)))
  {
    var l, r := GroupsText(gl), GroupsText(gr);
    EllipsisAfterGroups(gl, r);
    assert t[..|l|] == l && t[|l| + 2..] == r;
    GroupTextValues(gl);
    GroupTextValues(gr);
  }

  /** Padding keeps the groups of each side and puts zero groups between. */
  lemma PaddedGroups(lb: seq<bv8>, rb: seq<bv8>, gl: seq<string>, gr: seq<string>)
    requires AllGroups(gl) && AllGroups(gr) && |gl| + |gr| <= 7
    requires |lb| == 2 * |gl| && GroupsAt(lb, 0, gl)
    requires |rb| == 2 * |gr| && GroupsAt(rb, 0, gr)
    ensures GroupsAt(Padded(lb, rb), 0, gl)
    ensures GroupsAt(Padded(lb, rb), 8 - |gr|, gr)
    ensures forall k :: |gl| <= k < 8 - |gr| ==> GroupValue(Padded(lb, rb), k) == 0
  {
    var b := Padded(lb, rb);
    forall k | 0 <= k < |gl| ensures GroupValue(b, k) == HexValue(gl[k]) {
      assert GroupValue(b, k) == GroupValue(lb, k);
    }
    forall k | 0 <= k < |gr| ensures GroupValue(b, 8 - |gr| + k) == HexValue(gr[k]) {
      assert GroupValue(b, 8 - |gr| + k) == GroupValue(rb, k);
    }
  }

  /** Text with a "::" between `gl` and `gr`, standing for at least one
      group, is the address whose leading groups are `gl`, whose trailing
      groups are `gr` and whose groups between them are zero. Covers the
      usual spellings `::1`, `2001:db8::` and `FFFF::`. */
  lemma CompressedText(t: string, gl: seq<string>, gr: seq<string>)
    requires AllGroups(gl) && AllGroups(gr) && |gl| + |gr| <= 7
    requires t == GroupsText(gl) + "::" + GroupsText(gr)
    ensures ParseIP(t).Some? && ParseIP(t).value.family == IPv6
    ensures GroupsAt(ParseIP(t).value.bytes, 0, gl)
    ensures GroupsAt(ParseIP(t).value.bytes, 8 - |gr|, gr)
    ensures forall k :: |gl| <= k < 8 - |gr| ==> GroupValue(ParseIP(t).value.bytes, k) == 0
  {
    CompressedIsIPv6(t, gl, GroupsText(gr));
    CompressedBytes(t, gl, gr);
    GroupTextValues(gl);
    GroupTextValues(gr);
    PaddedGroups(ParseGroupText(GroupsText(gl)).value, ParseGroupText(GroupsText(gr)).value, gl, gr);
  }

  /** Text of eight groups and no "::" is the address whose groups are
      those eight, whatever their case and leading zeros. */
  lemma FullText(t: string, g: seq<string>)
    requires AllGroups(g) && |g| == 8
    requires t == Join(g, ':')
    ensures ParseIP(t).Some? && ParseIP(t).value.family == IPv6
    ensures GroupsAt(ParseIP(t).value.bytes, 0, g)
  {
    LeadingGroupSeparator(g, "");
    assert t + "" == t;
    forall k | 0 <= k < |g| ensures |g[k]| >= 1 && ':' !in g[k] {
      assert !IsHexDigit(':');
    }
    JoinHasNoEllipsis(g);
    SplitJoin(g, ':');
    GroupsValues(g);
  }

  /** A group's value fixes both of its bytes. */
  lemma GroupBytes(b: seq<bv8>, k: nat)
    requires 2 * k + 1 < |b|
    ensures b[2 * k] as int == GroupValue(b, k) / 256
    ensures b[2 * k + 1] as int == GroupValue(b, k) % 256
  {
  }

  /** The loopback address written the usual way, `::1`, is fifteen zero
      bytes and a one. */
  lemma LoopbackText()
    ensures ParseIP("::1") == Some(Addr(IPv6, Zeros(15) + [1]))
  {
    var one := ["1"];
    assert IsGroup(one[0]) && HexValue(one[0]) == 1 by {
      assert one[0][..0] == [];
    }
    assert GroupsText([]) + "::" + GroupsText(one) == "::1";
    CompressedText("::1", [], one);
    var b := ParseIP("::1").value.bytes;
    forall i | 0 <= i < 16 ensures b[i] == (Zeros(15) + [1])[i] {
      GroupBytes(b, i / 2);
      IntOfByte(b[i]);
      if i < 14 {
        assert GroupValue(b, i / 2) == 0;
      } else {
        assert GroupValue(b, 8 - |one| + 0) == 1;
      }
    }
    assert b == Zeros(15) + [1];
  }
}
