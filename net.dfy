/**
 * The parts of Go's `net` package the gateway relies on: an IP address is a
 * `net.IP` byte slice of 4 (IPv4) or 16 (IPv6) bytes, an address with a port
 * is a `net.TCPAddr` / `net.UDPAddr`, and a CIDR prefix is a `net.IPNet` as
 * `net.ParseCIDR` builds it.  Containment is stated twice: the way
 * `IPNet.Contains` computes it (mask every byte and compare) and as a plain
 * bit-prefix match; `ContainsIsPrefixMatch` proves the two agree.
 */
module Net {
  import opened Options

  type IP = seq<bv8>

  /** An address with a port: `*net.TCPAddr` or `*net.UDPAddr`. */
  datatype Endpoint = Endpoint(ip: IP, port: nat)

  /** `netAddrSetPort`: the same address with another port. */
  function WithPort(e: Endpoint, port: nat): (r: Endpoint)
    ensures r.ip == e.ip && r.port == port
  {
    e.(port := port)
  }

  /** The 16-byte IPv4-mapped form ::ffff:a.b.c.d. */
  predicate IsV4Mapped(ip: IP)
  {
    |ip| == 16 && (forall i :: 0 <= i < 10 ==> ip[i] == 0) && ip[10] == 0xff && ip[11] == 0xff
  }

  /** `IP.To4`: the 4-byte form of an IPv4 address, None for an IPv6 one. */
  function To4(ip: IP): (r: Option<IP>)
    ensures r.Some? <==> |ip| == 4 || IsV4Mapped(ip)
    ensures r.Some? ==> |r.value| == 4 && r.value == ip[|ip| - 4..]
  {
    if |ip| == 4 then Some(ip)
    else if IsV4Mapped(ip) then Some(ip[12..])
    else None
  }

  /** The form `IPNet.Contains` compares: IPv4 addresses as 4 bytes. */
  function Canonical(ip: IP): IP
  {
    match To4(ip)
    case Some(v) => v
    case None => ip
  }

  /**
   * A CIDR prefix: the (already masked) network number and the prefix
   * length `ones`; its mask is `CIDRMask(ones, 8 * |network|)`.
   */
  datatype Cidr = Cidr(network: IP, ones: nat)

  /**
   * The nets the model covers: a 4-byte network for an IPv4 prefix, a
   * 16-byte one that is not IPv4-mapped for an IPv6 prefix, and a prefix
   * length within the address width.  `ParseCIDR` also yields IPv4-mapped
   * 16-byte networks from IPv6 text such as `::ffff:0:0/96`, which Go's
   * `IPNet.Contains` compares in 4-byte form under the mask's last four
   * bytes; such a net holds nothing here.  No table entry is one.
   */
  predicate ValidCidr(c: Cidr)
  {
    (|c.network| == 4 || (|c.network| == 16 && !IsV4Mapped(c.network)))
    && c.ones <= 8 * |c.network|
  }

  /** A byte whose `r` leading bits are set. */
  function LeadingOnes(r: nat): bv8
    requires r <= 8
  {
    if r == 0 then 0x00 else if r == 1 then 0x80 else if r == 2 then 0xC0
    else if r == 3 then 0xE0 else if r == 4 then 0xF0 else if r == 5 then 0xF8
    else if r == 6 then 0xFC else if r == 7 then 0xFE else 0xFF
  }

  /** How many of the bits of byte `i` a prefix of length `ones` covers. */
  function Covered(ones: nat, i: nat): (r: nat)
    ensures r <= 8
  {
    if ones >= 8 * i + 8 then 8 else if ones <= 8 * i then 0 else ones - 8 * i
  }

  /** Byte `i` of `CIDRMask(ones, _)`. */
  function MaskByte(ones: nat, i: nat): bv8
  {
    LeadingOnes(Covered(ones, i))
  }

  /** The masked comparison of `IPNet.Contains` on an address already in canonical form. */
  predicate MaskedEqual(c: Cidr, x: IP)
  {
    ValidCidr(c) && |x| == |c.network|
    && forall i :: 0 <= i < |x| ==> x[i] & MaskByte(c.ones, i) == c.network[i] & MaskByte(c.ones, i)
  }

  /** `IPNet.Contains`: every byte of the address, masked, equals the masked network byte. */
  predicate Contains(c: Cidr, ip: IP)
  {
    MaskedEqual(c, Canonical(ip))
  }

  /** The byte with only bit `j` set (bit 0 is the most significant). */
  function BitMask(j: nat): bv8
    requires j < 8
  {
    if j == 0 then 0x80 else if j == 1 then 0x40 else if j == 2 then 0x20
    else if j == 3 then 0x10 else if j == 4 then 0x08 else if j == 5 then 0x04
    else if j == 6 then 0x02 else 0x01
  }

  /** Bit `j` of a byte. */
  predicate ByteBit(b: bv8, j: nat)
    requires j < 8
  {
    b & BitMask(j) != 0
  }

  /** Bit `k` of an address, counted from the most significant bit of its first byte. */
  predicate Bit(s: IP, k: nat)
    requires k < 8 * |s|
  {
    ByteBit(s[k / 8], k % 8)
  }

  /** The first `ones` bits of an address in canonical form are those of the network. */
  predicate PrefixEqual(c: Cidr, x: IP)
  {
    ValidCidr(c) && |x| == |c.network|
    && forall k :: 0 <= k < c.ones ==> Bit(x, k) == Bit(c.network, k)
  }

  /** Reference definition of containment: a bit-prefix match. */
  predicate InPrefix(c: Cidr, ip: IP)
  {
    PrefixEqual(c, Canonical(ip))
  }

  /** A mask of `r` leading ones keeps bit `j` exactly when `j < r`. */
  lemma LeadingOnesBit(r: nat, j: nat)
    requires r <= 8 && j < 8
    ensures LeadingOnes(r) & BitMask(j) == if j < r then BitMask(j) else 0
  {
  }

  /** Two bytes equal under a mask of `r` leading ones agree on their first `r` bits. */
  lemma MaskedEqualBits(a: bv8, b: bv8, r: nat)
    requires r <= 8 && a & LeadingOnes(r) == b & LeadingOnes(r)
    ensures forall j :: 0 <= j < r ==> ByteBit(a, j) == ByteBit(b, j)
  {
    forall j | 0 <= j < r ensures ByteBit(a, j) == ByteBit(b, j) {
      LeadingOnesBit(r, j);
      var m, l := BitMask(j), LeadingOnes(r);
      assert a & m == (a & l) & m == (b & l) & m == b & m;
    }
  }

  /** A byte has the same bit `j` as another exactly when masking both with that bit agrees. */
  lemma SameBit(a: bv8, b: bv8, j: nat)
    requires j < 8 && ByteBit(a, j) == ByteBit(b, j)
    ensures a & BitMask(j) == b & BitMask(j)
  {
    var m := BitMask(j);
    assert m == 0x80 || m == 0x40 || m == 0x20 || m == 0x10 || m == 0x08 || m == 0x04 || m == 0x02 || m == 0x01;
  }

  /** A mask of `r` leading ones is the mask of `r - 1` with bit `r - 1` added. */
  lemma LeadingOnesStep(r: nat)
    requires 0 < r <= 8
    ensures LeadingOnes(r) == LeadingOnes(r - 1) | BitMask(r - 1)
  {
  }

  /** Masking distributes over the union of two masks. */
  lemma MaskUnion(a: bv8, l: bv8, m: bv8)
    ensures a & (l | m) == (a & l) | (a & m)
  {
  }

  /** Two bytes that agree on their first `r` bits are equal under a mask of `r` leading ones. */
  lemma {:induction false} BitsMaskedEqual(a: bv8, b: bv8, r: nat)
    requires r <= 8 && forall j :: 0 <= j < r ==> ByteBit(a, j) == ByteBit(b, j)
    ensures a & LeadingOnes(r) == b & LeadingOnes(r)
  {
    if r > 0 {
      BitsMaskedEqual(a, b, r - 1);
      SameBit(a, b, r - 1);
      var l, m := LeadingOnes(r - 1), BitMask(r - 1);
      LeadingOnesStep(r);
      MaskUnion(a, l, m);
      MaskUnion(b, l, m);
    }
  }

  /** Bit `8 * i + j` of an address is bit `j` of its byte `i`. */
  lemma BitOfByte(s: IP, i: nat, j: nat)
    requires i < |s| && j < 8
    ensures 8 * i + j < 8 * |s| && Bit(s, 8 * i + j) == ByteBit(s[i], j)
  {
    assert (8 * i + j) / 8 == i && (8 * i + j) % 8 == j;
  }

  /** Bit `j` of byte `i` lies under a prefix of `ones` bits exactly when `8 * i + j < ones`. */
  lemma CoveredBits(ones: nat, i: nat, j: nat)
    requires j < 8
    ensures j < Covered(ones, i) <==> 8 * i + j < ones
  {
  }

  /** Bit `k` of an address is bit `k % 8` of byte `k / 8`. */
  lemma SplitBitIndex(k: nat)
    ensures k == 8 * (k / 8) + k % 8 && k % 8 < 8
  {
  }

  /** Masked equality gives a bit-prefix match. */
  lemma ContainsImpliesPrefix(c: Cidr, x: IP)
    requires MaskedEqual(c, x)
    ensures PrefixEqual(c, x)
  {
    var n := c.network;
    forall k | 0 <= k < c.ones ensures Bit(x, k) == Bit(n, k) {
      var i, j := k / 8, k % 8;
      SplitBitIndex(k);
      CoveredBits(c.ones, i, j);
      BitOfByte(x, i, j);
      BitOfByte(n, i, j);
      MaskedEqualBits(x[i], n[i], Covered(c.ones, i));
    }
  }

  /** A bit-prefix match gives masked equality. */
  lemma PrefixImpliesContains(c: Cidr, x: IP)
    requires PrefixEqual(c, x)
    ensures MaskedEqual(c, x)
  {
    var n := c.network;
    forall i | 0 <= i < |x| ensures x[i] & MaskByte(c.ones, i) == n[i] & MaskByte(c.ones, i) {
      forall j | 0 <= j < Covered(c.ones, i) ensures ByteBit(x[i], j) == ByteBit(n[i], j) {
        CoveredBits(c.ones, i, j);
        BitOfByte(x, i, j);
        BitOfByte(n, i, j);
      }
      BitsMaskedEqual(x[i], n[i], Covered(c.ones, i));
    }
  }

  /** `IPNet.Contains` is exactly a bit-prefix match. */
  lemma ContainsIsPrefixMatch(c: Cidr, ip: IP)
    ensures Contains(c, ip) <==> InPrefix(c, ip)
  {
    var x := Canonical(ip);
    if Contains(c, ip) {
      ContainsImpliesPrefix(c, x);
    }
    if InPrefix(c, ip) {
      PrefixImpliesContains(c, x);
    }
  }
}
