/**
 * The gateway's routing policy (main.go:105-129, used by fwd.go:153 and
 * fwd.go:158): a deny list of reserved prefixes that may never be used as a
 * spoofed source, and a catch-all allow list that the forwarding decision
 * never consults.
 */
module Routing {
  import opened Options
  import opened Net

  /** The IPv4 prefixes appended to `State.RoutingDeny`; 10.0.0.0/8 is commented out in the source. */
  const DenyV4: seq<Cidr> := [
    Cidr([0, 0, 0, 0], 8),                                                   // 0.0.0.0/8
    Cidr([127, 0, 0, 0], 8),                                                 // 127.0.0.0/8
    Cidr([169, 254, 0, 0], 16),                                              // 169.254.0.0/16
    Cidr([224, 0, 0, 0], 4),                                                 // 224.0.0.0/4
    Cidr([240, 0, 0, 0], 4),                                                 // 240.0.0.0/4
    Cidr([255, 255, 255, 255], 32)                                           // 255.255.255.255/32
  ]

  /** `n` zero bytes. */
  function Zeros(n: nat): (z: IP)
    ensures |z| == n && forall i :: 0 <= i < n ==> z[i] == 0
  {
    seq(n, _ => 0)
  }

  /** The IPv6 prefixes appended to `State.RoutingDeny`, after the IPv4 ones. */
  const DenyV6: seq<Cidr> := [
    Cidr(Zeros(16), 128),                                                    // ::/128
    Cidr(Zeros(15) + [1], 128),                                              // ::1/128
    Cidr(Zeros(16), 96),                                                     // ::/96
    Cidr(Zeros(8) + [0xff, 0xff] + Zeros(6), 96),                            // ::ffff:0:0:0/96
    Cidr([0, 0x64, 0xff, 0x9b] + Zeros(12), 96),                             // 64:ff9b::/96
    Cidr([0xfc] + Zeros(15), 7),                                             // fc00::/7
    Cidr([0xfe, 0x80] + Zeros(14), 10),                                      // fe80::/10
    Cidr([0xff] + Zeros(15), 8),                                             // ff00::/8
    Cidr([0xfe, 0xc0] + Zeros(14), 10)                                       // fec0::/10
  ]

  /** The whole deny list, in the order main.go appends it. */
  const DenyTable: seq<Cidr> := DenyV4 + DenyV6

  /** The prefixes appended to `State.RoutingAllow`. */
  const AllowTable: seq<Cidr> := [
    Cidr([0, 0, 0, 0], 0),                                                   // 0.0.0.0/0
    Cidr(Zeros(16), 0)                                                       // ::/0
  ]

  /** `IPNetContains`: some net of the list contains the address. */
  function IPNetContains(nets: seq<Cidr>, ip: IP): (r: bool)
    ensures r <==> exists i :: 0 <= i < |nets| && Contains(nets[i], ip)
  {
    if nets == [] then false
    else if Contains(nets[0], ip) then true
    else
      var rest := IPNetContains(nets[1..], ip);
      assert forall i :: 1 <= i < |nets| ==> nets[i] == nets[1..][i - 1];
      rest
  }

  /** Reference definition: the address lies in one of the prefixes, bit for bit. */
  ghost predicate InSomePrefix(nets: seq<Cidr>, ip: IP)
  {
    exists i :: 0 <= i < |nets| && InPrefix(nets[i], ip)
  }

  /**
   * The test the forwarding decision makes: an address may be spoofed
   * exactly when no deny prefix holds it, whatever the allow list says.
   */
  lemma SpoofableIffNoDenyPrefix(deny: seq<Cidr>, ip: IP)
    ensures !IPNetContains(deny, ip) <==> !InSomePrefix(deny, ip)
  {
    forall i | 0 <= i < |deny| ensures Contains(deny[i], ip) <==> InPrefix(deny[i], ip) {
      ContainsIsPrefixMatch(deny[i], ip);
    }
  }

  /** The reserved IPv4 ranges of the deny table. */
  predicate ReservedV4(v: IP)
    requires |v| == 4
  {
    v[0] == 0 || v[0] == 127 || (v[0] == 169 && v[1] == 254) || v[0] >= 224
  }

  /** The deny list splits into its IPv4 and IPv6 parts. */
  lemma IPNetContainsConcat(a: seq<Cidr>, b: seq<Cidr>, ip: IP)
    ensures IPNetContains(a + b, ip) <==> IPNetContains(a, ip) || IPNetContains(b, ip)
  {
    if IPNetContains(a + b, ip) {
      var i :| 0 <= i < |a + b| && Contains((a + b)[i], ip);
      if i < |a| {
        assert (a + b)[i] == a[i];
      } else {
        assert (a + b)[i] == b[i - |a|];
      }
    }
    if IPNetContains(a, ip) {
      var i :| 0 <= i < |a| && Contains(a[i], ip);
      assert (a + b)[i] == a[i];
    }
    if IPNetContains(b, ip) {
      var i :| 0 <= i < |b| && Contains(b[i], ip);
      assert (a + b)[|a| + i] == b[i];
    }
  }

  /** No net of one width holds an address of the other. */
  lemma WidthMismatch(nets: seq<Cidr>, ip: IP)
    requires forall i :: 0 <= i < |nets| ==> |nets[i].network| != |Canonical(ip)|
    ensures !IPNetContains(nets, ip)
  {
  }

  /** The mask bytes of the IPv4 deny prefixes. */
  lemma V4Masks()
    ensures MaskByte(4, 0) == 0xF0 && MaskByte(4, 1) == 0 && MaskByte(4, 2) == 0 && MaskByte(4, 3) == 0
    ensures MaskByte(8, 0) == 0xFF && MaskByte(8, 1) == 0 && MaskByte(8, 2) == 0 && MaskByte(8, 3) == 0
    ensures MaskByte(16, 0) == 0xFF && MaskByte(16, 1) == 0xFF && MaskByte(16, 2) == 0 && MaskByte(16, 3) == 0
    ensures MaskByte(32, 0) == 0xFF && MaskByte(32, 1) == 0xFF && MaskByte(32, 2) == 0xFF && MaskByte(32, 3) == 0xFF
  {
  }

  /** 0.0.0.0/8 holds exactly the addresses with `v[0] == 0`. */
  lemma DenyThisNetwork(v: IP)
    requires |v| == 4
    ensures MaskedEqual(DenyV4[0], v) <==> v[0] == 0
  {
    var c := Cidr([0, 0, 0, 0], 8);
    assert DenyV4[0] == c;
    V4Masks();
    if v[0] == 0 {
      assert forall i :: 0 <= i < 4 ==> v[i] & MaskByte(c.ones, i) == c.network[i] & MaskByte(c.ones, i);
    }
  }

  /** 127.0.0.0/8 holds exactly the addresses with `v[0] == 127`. */
  lemma DenyLoopback(v: IP)
    requires |v| == 4
    ensures MaskedEqual(DenyV4[1], v) <==> v[0] == 127
  {
    var c := Cidr([127, 0, 0, 0], 8);
    assert DenyV4[1] == c;
    V4Masks();
    if v[0] == 127 {
      assert forall i :: 0 <= i < 4 ==> v[i] & MaskByte(c.ones, i) == c.network[i] & MaskByte(c.ones, i);
    }
  }

  /** 169.254.0.0/16 holds exactly the addresses with `v[0] == 169 && v[1] == 254`. */
  lemma DenyLinkLocal(v: IP)
    requires |v| == 4
    ensures MaskedEqual(DenyV4[2], v) <==> v[0] == 169 && v[1] == 254
  {
    var c := Cidr([169, 254, 0, 0], 16);
    assert DenyV4[2] == c;
    V4Masks();
    if v[0] == 169 && v[1] == 254 {
      assert forall i :: 0 <= i < 4 ==> v[i] & MaskByte(c.ones, i) == c.network[i] & MaskByte(c.ones, i);
    }
  }

  /** 224.0.0.0/4 holds exactly the addresses with `224 <= v[0] < 240`. */
  lemma DenyMulticast(v: IP)
    requires |v| == 4
    ensures MaskedEqual(DenyV4[3], v) <==> 224 <= v[0] < 240
  {
    var c := Cidr([224, 0, 0, 0], 4);
    assert DenyV4[3] == c;
    V4Masks();
    if 224 <= v[0] < 240 {
      assert forall i :: 0 <= i < 4 ==> v[i] & MaskByte(c.ones, i) == c.network[i] & MaskByte(c.ones, i);
    }
  }

  /** 240.0.0.0/4 holds exactly the addresses with `240 <= v[0]`. */
  lemma DenyReserved(v: IP)
    requires |v| == 4
    ensures MaskedEqual(DenyV4[4], v) <==> 240 <= v[0]
  {
    var c := Cidr([240, 0, 0, 0], 4);
    assert DenyV4[4] == c;
    V4Masks();
    if 240 <= v[0] {
      assert forall i :: 0 <= i < 4 ==> v[i] & MaskByte(c.ones, i) == c.network[i] & MaskByte(c.ones, i);
    }
  }

  /** 255.255.255.255/32 holds exactly the addresses with `v == [255, 255, 255, 255]`. */
  lemma DenyBroadcast(v: IP)
    requires |v| == 4
    ensures MaskedEqual(DenyV4[5], v) <==> v == [255, 255, 255, 255]
  {
    var c := Cidr([255, 255, 255, 255], 32);
    assert DenyV4[5] == c;
    V4Masks();
    if v == [255, 255, 255, 255] {
      assert forall i :: 0 <= i < 4 ==> v[i] & MaskByte(c.ones, i) == c.network[i] & MaskByte(c.ones, i);
    }
    assert v == [v[0], v[1], v[2], v[3]];
  }

  /** The IPv4 part of the deny list holds exactly the reserved IPv4 ranges. */
  lemma DenyV4Contains(v: IP)
    requires |v| == 4
    ensures IPNetContains(DenyV4, v) <==> ReservedV4(v)
  {
    var d := DenyV4;
    assert Canonical(v) == v;
    if ReservedV4(v) {
      if v[0] == 0 {
        DenyThisNetwork(v);
        assert Contains(d[0], v);
      } else if v[0] == 127 {
        DenyLoopback(v);
        assert Contains(d[1], v);
      } else if v[0] == 169 {
        DenyLinkLocal(v);
        assert Contains(d[2], v);
      } else if v[0] < 240 {
        DenyMulticast(v);
        assert Contains(d[3], v);
      } else {
        DenyReserved(v);
        assert Contains(d[4], v);
      }
    } else {
      forall i | 0 <= i < |d| ensures !Contains(d[i], v) {
        if i == 0 {
          DenyThisNetwork(v);
        } else if i == 1 {
          DenyLoopback(v);
        } else if i == 2 {
          DenyLinkLocal(v);
        } else if i == 3 {
          DenyMulticast(v);
        } else if i == 4 {
          DenyReserved(v);
        } else {
          DenyBroadcast(v);
        }
      }
    }
  }

  /**
   * An IPv4 address (4-byte or IPv4-mapped) is denied exactly when it lies in
   * 0.0.0.0/8, 127.0.0.0/8, 169.254.0.0/16 or 224.0.0.0/3 (the union of
   * 224.0.0.0/4, 240.0.0.0/4 and 255.255.255.255/32).
   */
  lemma DeniedIPv4(ip: IP)
    requires To4(ip).Some?
    ensures !IPNetContains(DenyV6, ip)
    ensures IPNetContains(DenyTable, ip) <==> ReservedV4(To4(ip).value)
  {
    var v := To4(ip).value;
    assert Canonical(ip) == v && Canonical(v) == v;
    IPNetContainsConcat(DenyV4, DenyV6, ip);
    DenyV6Widths();
    WidthMismatch(DenyV6, ip);
    DenyV4Contains(v);
    SameCanonicalForm(DenyV4, ip, v);
  }

  /** Every IPv4 deny entry is 4 bytes wide. */
  lemma DenyV4Widths()
    ensures forall i :: 0 <= i < |DenyV4| ==> |DenyV4[i].network| == 4
  {
  }

  /** Every IPv6 deny entry is 16 bytes wide. */
  lemma DenyV6Widths()
    ensures forall i :: 0 <= i < |DenyV6| ==> |DenyV6[i].network| == 16
  {
    forall i | 0 <= i < |DenyV6| ensures |DenyV6[i].network| == 16 {
      DenyV6Valid(i);
    }
  }

  /** Containment looks only at the canonical form of an address. */
  lemma SameCanonicalForm(nets: seq<Cidr>, a: IP, b: IP)
    requires Canonical(a) == Canonical(b)
    ensures IPNetContains(nets, a) == IPNetContains(nets, b)
  {
    assert forall i :: 0 <= i < |nets| ==> (Contains(nets[i], a) <==> Contains(nets[i], b));
  }

  /** Bytes `lo` to `hi - 1` of `v` are zero. */
  predicate ZeroOn(v: IP, lo: nat, hi: nat)
    requires hi <= |v|
  {
    forall i :: lo <= i < hi ==> v[i] == 0
  }

  /** Bytes `lo` to `hi - 1` of `v` and `n` are equal. */
  predicate AgreeOn(v: IP, n: IP, lo: nat, hi: nat)
    requires hi <= |v| && hi <= |n|
  {
    forall i :: lo <= i < hi ==> v[i] == n[i]
  }

  lemma AgreeOnSplit(v: IP, n: IP, lo: nat, mid: nat, hi: nat)
    requires lo <= mid <= hi <= |v| && hi <= |n|
    ensures AgreeOn(v, n, lo, hi) <==> AgreeOn(v, n, lo, mid) && AgreeOn(v, n, mid, hi)
  {
  }

  lemma AgreeOnZeros(v: IP, n: IP, lo: nat, hi: nat)
    requires hi <= |v| && hi <= |n| && ZeroOn(n, lo, hi)
    ensures AgreeOn(v, n, lo, hi) <==> ZeroOn(v, lo, hi)
  {
  }

  /** The reserved IPv6 ranges of the deny table. */
  predicate ReservedV6(v: IP)
    requires |v| == 16
  {
    ZeroOn(v, 0, 12)                                                        // ::/96, ::/128, ::1/128
    || (ZeroOn(v, 0, 8) && v[8] == 0xff && v[9] == 0xff
        && v[10] == 0 && v[11] == 0)                                        // ::ffff:0:0:0/96
    || (v[0] == 0 && v[1] == 0x64 && v[2] == 0xff && v[3] == 0x9b
        && ZeroOn(v, 4, 12))                                                // 64:ff9b::/96
    || v[0] & 0xfe == 0xfc                                                  // fc00::/7
    || (v[0] == 0xfe && v[1] & 0x80 == 0x80)                                // fe80::/10, fec0::/10
    || v[0] == 0xff                                                         // ff00::/8
  }

  /** The mask of a prefix of `8 * q + r` bits: `q` full bytes, then `r` leading ones, then zeros. */
  lemma MaskShape(q: nat, r: nat, i: nat)
    requires r < 8
    ensures MaskByte(8 * q + r, i) == if i < q then 0xFF else if i == q then LeadingOnes(r) else 0
  {
  }

  /** The bytes a prefix covers are equal in every address the masked comparison accepts. */
  lemma MaskedEqualCoveredBytes(c: Cidr, v: IP, q: nat, r: nat)
    requires ValidCidr(c) && |v| == |c.network| && c.ones == 8 * q + r && r < 8
    requires MaskedEqual(c, v)
    ensures forall i :: 0 <= i < q ==> v[i] == c.network[i]
    ensures r == 0 || v[q] & LeadingOnes(r) == c.network[q] & LeadingOnes(r)
  {
    var n := c.network;
    forall i | 0 <= i < q ensures v[i] == n[i] {
      MaskShape(q, r, i);
      assert v[i] & MaskByte(c.ones, i) == n[i] & MaskByte(c.ones, i);
    }
    if r != 0 {
      MaskShape(q, r, q);
      assert v[q] & MaskByte(c.ones, q) == n[q] & MaskByte(c.ones, q);
    }
  }

  /** An address equal to the network on the bytes the prefix covers passes the masked comparison. */
  lemma CoveredBytesMaskedEqual(c: Cidr, v: IP, q: nat, r: nat)
    requires ValidCidr(c) && |v| == |c.network| && c.ones == 8 * q + r && r < 8
    requires forall i :: 0 <= i < q ==> v[i] == c.network[i]
    requires r == 0 || v[q] & LeadingOnes(r) == c.network[q] & LeadingOnes(r)
    ensures MaskedEqual(c, v)
  {
    var n := c.network;
    forall i | 0 <= i < |v| ensures v[i] & MaskByte(c.ones, i) == n[i] & MaskByte(c.ones, i) {
      MaskShape(q, r, i);
      if i < q {
        assert v[i] == n[i];
      } else if i == q && r == 0 {
        assert LeadingOnes(r) == 0;
      }
    }
  }

  /**
   * `IPNet.Contains` for a valid net of `8 * q + r` bits, stated on whole
   * bytes: the `q` bytes the prefix covers entirely are equal, and so are the
   * leading `r` bits of the next byte.
   */
  lemma MaskedEqualByBytes(c: Cidr, v: IP, q: nat, r: nat)
    requires ValidCidr(c) && |v| == |c.network| && c.ones == 8 * q + r && r < 8
    ensures MaskedEqual(c, v) <==>
      && q <= |v| && AgreeOn(v, c.network, 0, q)
      && (r == 0 || v[q] & LeadingOnes(r) == c.network[q] & LeadingOnes(r))
  {
    if MaskedEqual(c, v) {
      MaskedEqualCoveredBytes(c, v, q, r);
    }
    if && (forall i :: 0 <= i < q ==> v[i] == c.network[i])
       && (r == 0 || v[q] & LeadingOnes(r) == c.network[q] & LeadingOnes(r))
    {
      CoveredBytesMaskedEqual(c, v, q, r);
    }
  }

  /** Every IPv6 deny prefix is a valid net: 16 bytes, not IPv4-mapped. */
  lemma DenyV6Valid(k: nat)
    requires k < |DenyV6|
    ensures ValidCidr(DenyV6[k]) && |DenyV6[k].network| == 16
  {
    assert !IsV4Mapped(DenyV6[k].network) by {
      assert DenyV6[k].network[10] == 0;
    }
  }

  /** ::/128 holds exactly the addresses this condition describes. */
  lemma DenyUnspecified(v: IP)
    requires |v| == 16
    ensures MaskedEqual(DenyV6[0], v) <==> ZeroOn(v, 0, 16)
  {
    var c := DenyV6[0];
    DenyV6Valid(0);
    MaskedEqualByBytes(c, v, 16, 0);
    AgreeOnZeros(v, c.network, 0, 16);
  }

  /** ::1/128 holds exactly the addresses this condition describes. */
  lemma DenyLoopbackV6(v: IP)
    requires |v| == 16
    ensures MaskedEqual(DenyV6[1], v) <==> ZeroOn(v, 0, 15) && v[15] == 1
  {
    var c := DenyV6[1];
    DenyV6Valid(1);
    assert c.network[15] == 1;
    MaskedEqualByBytes(c, v, 16, 0);
    AgreeOnSplit(v, c.network, 0, 15, 16);
    AgreeOnZeros(v, c.network, 0, 15);
  }

  /** ::/96 holds exactly the addresses this condition describes. */
  lemma DenyV4Compatible(v: IP)
    requires |v| == 16
    ensures MaskedEqual(DenyV6[2], v) <==> ZeroOn(v, 0, 12)
  {
    var c := DenyV6[2];
    DenyV6Valid(2);
    MaskedEqualByBytes(c, v, 12, 0);
    AgreeOnZeros(v, c.network, 0, 12);
  }

  /** ::ffff:0:0:0/96 holds exactly the addresses this condition describes. */
  lemma DenyV4Translated(v: IP)
    requires |v| == 16
    ensures MaskedEqual(DenyV6[3], v) <==> ZeroOn(v, 0, 8) && v[8] == 0xff && v[9] == 0xff && v[10] == 0 && v[11] == 0
  {
    var c := DenyV6[3];
    DenyV6Valid(3);
    assert ZeroOn(c.network, 0, 8);
    assert c.network[8] == 0xff && c.network[9] == 0xff && c.network[10] == 0 && c.network[11] == 0;
    MaskedEqualByBytes(c, v, 12, 0);
    AgreeOnSplit(v, c.network, 0, 8, 12);
    AgreeOnZeros(v, c.network, 0, 8);
  }

  /** 64:ff9b::/96 holds exactly the addresses this condition describes. */
  lemma DenyNat64(v: IP)
    requires |v| == 16
    ensures MaskedEqual(DenyV6[4], v) <==> v[0] == 0 && v[1] == 0x64 && v[2] == 0xff && v[3] == 0x9b && ZeroOn(v, 4, 12)
  {
    var c := DenyV6[4];
    DenyV6Valid(4);
    assert ZeroOn(c.network, 4, 12);
    MaskedEqualByBytes(c, v, 12, 0);
    AgreeOnSplit(v, c.network, 0, 4, 12);
    AgreeOnZeros(v, c.network, 4, 12);
  }

  /** fc00::/7 holds exactly the addresses this condition describes. */
  lemma DenyUniqueLocal(v: IP)
    requires |v| == 16
    ensures MaskedEqual(DenyV6[5], v) <==> v[0] & 0xfe == 0xfc
  {
    var c := DenyV6[5];
    DenyV6Valid(5);
    assert c.ones == 7 && c.network[0] == 0xfc;
    MaskedEqualByBytes(c, v, 0, 7);
  }

  /** fe80::/10 holds exactly the addresses this condition describes. */
  lemma DenyLinkLocalV6(v: IP)
    requires |v| == 16
    ensures MaskedEqual(DenyV6[6], v) <==> v[0] == 0xfe && v[1] & 0xc0 == 0x80
  {
    var c := DenyV6[6];
    DenyV6Valid(6);
    assert c.ones == 10 && c.network[0] == 0xfe && c.network[1] == 0x80;
    MaskedEqualByBytes(c, v, 1, 2);
  }

  /** ff00::/8 holds exactly the addresses this condition describes. */
  lemma DenyMulticastV6(v: IP)
    requires |v| == 16
    ensures MaskedEqual(DenyV6[7], v) <==> v[0] == 0xff
  {
    var c := DenyV6[7];
    DenyV6Valid(7);
    assert c.ones == 8 && c.network[0] == 0xff;
    MaskedEqualByBytes(c, v, 1, 0);
  }

  /** fec0::/10 holds exactly the addresses this condition describes. */
  lemma DenySiteLocal(v: IP)
    requires |v| == 16
    ensures MaskedEqual(DenyV6[8], v) <==> v[0] == 0xfe && v[1] & 0xc0 == 0xc0
  {
    var c := DenyV6[8];
    DenyV6Valid(8);
    assert c.ones == 10 && c.network[0] == 0xfe && c.network[1] == 0xc0;
    MaskedEqualByBytes(c, v, 1, 2);
  }

  /** Every reserved IPv6 address lies in some IPv6 deny prefix. */
  lemma ReservedInDenyV6(v: IP)
    requires |v| == 16 && !IsV4Mapped(v) && ReservedV6(v)
    ensures IPNetContains(DenyV6, v)
  {
    var d := DenyV6;
    assert Canonical(v) == v;
    if v[0] & 0xfe == 0xfc {
      DenyUniqueLocal(v);
      assert Contains(d[5], v);
    } else if v[0] == 0xff {
      DenyMulticastV6(v);
      assert Contains(d[7], v);
    } else if v[0] == 0xfe && v[1] & 0xc0 == 0x80 {
      DenyLinkLocalV6(v);
      assert Contains(d[6], v);
    } else if v[0] == 0xfe {
      DenySiteLocal(v);
      assert Contains(d[8], v);
    } else if v[1] == 0x64 {
      DenyNat64(v);
      assert Contains(d[4], v);
    } else if v[8] == 0xff {
      DenyV4Translated(v);
      assert Contains(d[3], v);
    } else {
      DenyV4Compatible(v);
      assert Contains(d[2], v);
    }
  }

  /** Every address an IPv6 deny prefix holds is reserved. */
  lemma DenyV6OnlyReserved(v: IP, k: nat)
    requires |v| == 16 && k < |DenyV6| && MaskedEqual(DenyV6[k], v)
    ensures ReservedV6(v)
  {
    if k == 0 {
      DenyUnspecified(v);
    } else if k == 1 {
      DenyLoopbackV6(v);
    } else if k == 2 {
      DenyV4Compatible(v);
    } else if k == 3 {
      DenyV4Translated(v);
    } else if k == 4 {
      DenyNat64(v);
    } else if k == 5 {
      DenyUniqueLocal(v);
    } else if k == 6 {
      DenyLinkLocalV6(v);
    } else if k == 7 {
      DenyMulticastV6(v);
    } else {
      DenySiteLocal(v);
    }
  }

  /** The IPv6 part of the deny list holds exactly the reserved IPv6 ranges. */
  lemma DenyV6Contains(v: IP)
    requires |v| == 16 && !IsV4Mapped(v)
    ensures IPNetContains(DenyV6, v) <==> ReservedV6(v)
  {
    assert Canonical(v) == v;
    if IPNetContains(DenyV6, v) {
      var k :| 0 <= k < |DenyV6| && Contains(DenyV6[k], v);
      DenyV6OnlyReserved(v, k);
    }
    if ReservedV6(v) {
      ReservedInDenyV6(v);
    }
  }

  /** An IPv6 address that is not IPv4-mapped is denied exactly when it lies in a reserved IPv6 range. */
  lemma DeniedIPv6(ip: IP)
    requires |ip| == 16 && !IsV4Mapped(ip)
    ensures IPNetContains(DenyTable, ip) <==> ReservedV6(ip)
  {
    assert Canonical(ip) == ip;
    IPNetContainsConcat(DenyV4, DenyV6, ip);
    DenyV4Widths();
    WidthMismatch(DenyV4, ip);
    DenyV6Contains(ip);
  }

  /** A prefix of length 0 holds every address of its width. */
  lemma EmptyPrefixHoldsAll(c: Cidr, x: IP)
    requires ValidCidr(c) && c.ones == 0 && |x| == |c.network|
    ensures MaskedEqual(c, x)
  {
    forall i | 0 <= i < |x| ensures x[i] & MaskByte(c.ones, i) == c.network[i] & MaskByte(c.ones, i) {
      assert MaskByte(c.ones, i) == 0;
    }
  }

  /** The allow list holds every IPv4 and every IPv6 address. */
  lemma AllowCoversEverything(ip: IP)
    requires |ip| == 4 || |ip| == 16
    ensures IPNetContains(AllowTable, ip)
  {
    var x := Canonical(ip);
    var k := if |x| == 4 then 0 else 1;
    var c := AllowTable[k];
    assert |c.network| == |x| && c.ones == 0;
    assert ValidCidr(c);
    EmptyPrefixHoldsAll(c, x);
    assert Contains(AllowTable[k], ip);
  }

  /**
   * 10.0.0.0/8 is not denied (its entry is commented out), so every address
   * in it, 10.1.2.3 among them, may be spoofed.
   */
  lemma TenNetIsSpoofable(ip: IP)
    requires To4(ip).Some? && To4(ip).value[0] == 10
    ensures !InSomePrefix(DenyTable, ip)
  {
    DeniedIPv4(ip);
    SpoofableIffNoDenyPrefix(DenyTable, ip);
  }
}
