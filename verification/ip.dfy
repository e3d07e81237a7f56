/** IP addresses and subnets as Go's net package represents them: the
    address bytes in network order, a subnet as a masked network address
    with a prefix length, and containment computed byte by byte under the
    mask. The containment test is proved to mean what CIDR notation says
    (section 3.1 of RFC 4632; section 2.3 of RFC 4291 for IPv6): the first
    prefix-length bits of the two addresses agree. */
module NetIP {

  datatype Family = IPv4 | IPv6

  /** Width of an address of the family, in bits. */
  function BitLen(f: Family): (r: nat) {
    match f
    case IPv4 => 32
    case IPv6 => 128
  }

  function ByteLen(f: Family): (n: nat)
    ensures 8 * n == BitLen(f)
  {
    match f
    case IPv4 => 4
    case IPv6 => 16
  }

  /** An address of one family. Go keeps every parsed address in a 16-byte
      slice with IPv4 in the IPv4-mapped form; here the family is explicit
      and an IPv4 address holds its four bytes. */
  datatype Addr = Addr(family: Family, bytes: seq<bv8>) {
    predicate Valid() {
      |bytes| == ByteLen(family)
    }
  }

  /** A subnet: the network address (already masked) and the prefix length,
      from which Go's IPNet.Mask is CIDRMask(prefix, BitLen). */
  datatype IPNet = IPNet(ip: Addr, prefix: nat) {
    predicate Valid() {
      ip.Valid() && prefix <= BitLen(ip.family)
    }
  }

  // ---------------------------------------------------------------------
  // Bits of a byte, most significant first

  /** The single-bit mask selecting bit `j` of a byte, bit 0 being the most
      significant. */
  function BitOf(j: nat): (r: bv8)
    requires j < 8
  {
    match j
    case 0 => 0x80
    case 1 => 0x40
    case 2 => 0x20
    case 3 => 0x10
    case 4 => 0x08
    case 5 => 0x04
    case 6 => 0x02
    case _ => 0x01
  }

  function ByteBit(x: bv8, j: nat): (r: bool)
    requires j < 8
  {
    x & BitOf(j) != 0
  }

  /** Bit `i` of an address, counting from the most significant bit of its
      first byte. */
  function Bit(a: Addr, i: nat): (r: bool)
    requires a.Valid() && i < BitLen(a.family)
  {
    ByteBit(a.bytes[i / 8], i % 8)
  }

  /** The first `n` bits of `a` and `b` agree: `b` lies in the prefix `a/n`. */
  ghost predicate PrefixAgree(a: Addr, b: Addr, n: nat)
    requires a.Valid() && b.Valid() && a.family == b.family && n <= BitLen(a.family)
  {
    forall i :: 0 <= i < n ==> Bit(a, i) == Bit(b, i)
  }

  // ---------------------------------------------------------------------
  // Masks, as Go's CIDRMask, IP.Mask and IPNet.Contains compute them

  /** A byte with its `k` leading bits set: Go's `^byte(0xff >> k)`. */
  function MaskByte(k: nat): (r: bv8)
    requires k <= 8
  {
    !(0xFF >> k)
  }

  /** How many of the `ones` leading mask bits fall in byte `i`. */
  function MaskWidth(ones: nat, i: nat): (w: nat)
    ensures w <= 8
  {
    if ones >= 8 * (i + 1) then 8 else if ones <= 8 * i then 0 else ones - 8 * i
  }

  /** The mask of `ones` leading one bits for an address of family `f`. */
  function CIDRMask(ones: nat, f: Family): (m: seq<bv8>)
    ensures |m| == ByteLen(f)
    ensures forall i :: 0 <= i < |m| ==> m[i] == MaskByte(MaskWidth(ones, i))
  {
    seq(ByteLen(f), i requires 0 <= i => MaskByte(MaskWidth(ones, i)))
  }

  /** The address with every bit outside the mask cleared. */
  function Mask(a: Addr, m: seq<bv8>): (r: Addr)
    requires |m| == |a.bytes|
    ensures r.family == a.family && |r.bytes| == |a.bytes|
    ensures forall i :: 0 <= i < |m| ==> r.bytes[i] == a.bytes[i] & m[i]
  {
    Addr(a.family, seq(|m|, i requires 0 <= i < |m| => a.bytes[i] & m[i]))
  }

  /** The subnet `a/ones` with its network address masked, as Go's ParseCIDR
      builds it. */
  function NetworkOf(a: Addr, ones: nat): (n: IPNet)
    requires a.Valid() && ones <= BitLen(a.family)
    ensures n.Valid() && n.prefix == ones && n.ip.family == a.family
  {
    IPNet(Mask(a, CIDRMask(ones, a.family)), ones)
  }

  /** Go's IPNet.Contains: an address of another family is never contained;
      otherwise the test is MaskedEqual, which means that the first
      prefix-length bits of network and address agree. */
  function Contains(n: IPNet, a: Addr): (r: bool)
    requires n.Valid() && a.Valid()
    ensures r ==> n.ip.family == a.family
    ensures n.ip.family == a.family ==> (r <==> PrefixAgree(n.ip, a, n.prefix))
  {
    if n.ip.family != a.family then false
    else
      MaskedEqualIffPrefixAgree(n, a);
      MaskedEqual(n, a)
  }

  /** The loop of IPNet.Contains: every byte agrees with the network under
      the mask. */
  function MaskedEqual(n: IPNet, a: Addr): (r: bool)
    requires n.Valid() && a.Valid() && n.ip.family == a.family
  {
    var m := CIDRMask(n.prefix, n.ip.family);
    forall i :: 0 <= i < |m| ==> n.ip.bytes[i] & m[i] == a.bytes[i] & m[i]
  }

  // ---------------------------------------------------------------------
  // Byte-level lemmas

  lemma MaskByteStep(k: nat)
    requires k < 8
    ensures MaskByte(k + 1) == MaskByte(k) | BitOf(k)
    ensures MaskByte(k) & BitOf(k) == 0
  {
  }

  lemma DisjointMasksSplit(x: bv8, y: bv8, m: bv8, b: bv8)
    requires m & b == 0
    ensures x & (m | b) == y & (m | b) ==> x & m == y & m && x & b == y & b
  {
  }

  lemma DisjointMasksJoin(x: bv8, y: bv8, m: bv8, b: bv8)
    ensures x & m == y & m && x & b == y & b ==> x & (m | b) == y & (m | b)
  {
  }

  lemma SingleBitAgree(x: bv8, y: bv8, j: nat)
    requires j < 8
    ensures x & BitOf(j) == y & BitOf(j) <==> ByteBit(x, j) == ByteBit(y, j)
  {
  }

  /** Two bytes agree under a mask of `k` leading ones exactly when their
      first `k` bits agree. */
  lemma {:induction false} MaskByteAgree(x: bv8, y: bv8, k: nat)
    requires k <= 8
    ensures (x & MaskByte(k) == y & MaskByte(k))
        <==> (forall j :: 0 <= j < k ==> ByteBit(x, j) == ByteBit(y, j))
  {
    if k == 0 {
      assert MaskByte(0) == 0;
    } else {
      var m, b := MaskByte(k - 1), BitOf(k - 1);
      MaskByteAgree(x, y, k - 1);
      MaskByteStep(k - 1);
      SingleBitAgree(x, y, k - 1);
      if x & MaskByte(k) == y & MaskByte(k) {
        DisjointMasksSplit(x, y, m, b);
        forall j | 0 <= j < k ensures ByteBit(x, j) == ByteBit(y, j) {
          if j < k - 1 {
            assert ByteBit(x, j) == ByteBit(y, j);
          }
        }
      } else {
        DisjointMasksJoin(x, y, m, b);
      }
    }
  }

  /** Bit `8 * i + j` lies below the prefix exactly when bit `j` of byte
      `i` is set in the mask. */
  lemma MaskWidthCoversBit(ones: nat, i: nat, j: nat)
    requires j < 8
    ensures 8 * i + j < ones <==> j < MaskWidth(ones, i)
  {
  }

  lemma BitPosition(i: nat, j: nat)
    requires j < 8
    ensures (8 * i + j) / 8 == i && (8 * i + j) % 8 == j
  {
  }

  // ---------------------------------------------------------------------
  // Containment means prefix agreement

  /** Go's byte-wise masked comparison holds exactly when the first
      `prefix` bits of the network address and the candidate agree. */
  lemma MaskedEqualIffPrefixAgree(n: IPNet, a: Addr)
    requires n.Valid() && a.Valid() && n.ip.family == a.family
    ensures MaskedEqual(n, a) <==> PrefixAgree(n.ip, a, n.prefix)
  {
    if MaskedEqual(n, a) {
      ContainedAgrees(n, a);
    }
    if PrefixAgree(n.ip, a, n.prefix) {
      AgreeingContained(n, a);
    }
  }

  lemma ContainedAgrees(n: IPNet, a: Addr)
    requires n.Valid() && a.Valid() && n.ip.family == a.family && MaskedEqual(n, a)
    ensures PrefixAgree(n.ip, a, n.prefix)
  {
    var m := CIDRMask(n.prefix, n.ip.family);
    forall t | 0 <= t < n.prefix ensures Bit(n.ip, t) == Bit(a, t) {
      var i, j := t / 8, t % 8;
      assert t == 8 * i + j;
      MaskWidthCoversBit(n.prefix, i, j);
      assert n.ip.bytes[i] & m[i] == a.bytes[i] & m[i];
      MaskByteAgree(n.ip.bytes[i], a.bytes[i], MaskWidth(n.prefix, i));
    }
  }

  lemma AgreeingContained(n: IPNet, a: Addr)
    requires n.Valid() && a.Valid() && n.ip.family == a.family
    requires PrefixAgree(n.ip, a, n.prefix)
    ensures MaskedEqual(n, a)
  {
    var m := CIDRMask(n.prefix, n.ip.family);
    forall i | 0 <= i < |m| ensures n.ip.bytes[i] & m[i] == a.bytes[i] & m[i] {
      ByteAgrees(n, a, i);
    }
  }

  lemma ByteAgrees(n: IPNet, a: Addr, i: nat)
    requires n.Valid() && a.Valid() && n.ip.family == a.family
    requires PrefixAgree(n.ip, a, n.prefix)
    requires i < ByteLen(a.family)
    ensures n.ip.bytes[i] & MaskByte(MaskWidth(n.prefix, i)) == a.bytes[i] & MaskByte(MaskWidth(n.prefix, i))
  {
    var w := MaskWidth(n.prefix, i);
    forall j | 0 <= j < w ensures ByteBit(n.ip.bytes[i], j) == ByteBit(a.bytes[i], j) {
      MaskWidthCoversBit(n.prefix, i, j);
      BitPosition(i, j);
      assert Bit(n.ip, 8 * i + j) == Bit(a, 8 * i + j);
    }
    MaskByteAgree(n.ip.bytes[i], a.bytes[i], w);
  }

  /** Masking keeps the first `ones` bits of the address. */
  lemma MaskKeepsPrefix(a: Addr, ones: nat)
    requires a.Valid() && ones <= BitLen(a.family)
    ensures PrefixAgree(NetworkOf(a, ones).ip, a, ones)
  {
    var n := NetworkOf(a, ones);
    var m := CIDRMask(ones, a.family);
    forall i | 0 <= i < |m| ensures n.ip.bytes[i] & m[i] == a.bytes[i] & m[i] {
      assert n.ip.bytes[i] == a.bytes[i] & m[i];
    }
    MaskedEqualIffPrefixAgree(n, a);
  }

  /** The subnet written `a/ones` contains exactly the addresses of the same
      family whose first `ones` bits are those of `a`, whatever bits of `a`
      lie past the prefix. */
  lemma NetworkOfContains(a: Addr, ones: nat, c: Addr)
    requires a.Valid() && ones <= BitLen(a.family) && c.Valid()
    ensures Contains(NetworkOf(a, ones), c) <==> a.family == c.family && PrefixAgree(a, c, ones)
  {
    if a.family == c.family {
      MaskKeepsPrefix(a, ones);
    }
  }
}
