/** Outer-header removal for GTP-U over IPv4: the packet
    [Ethernet][IPv4][UDP][GTPv1][inner IPv4 ...] loses its four outer headers
    and gains a fresh Ethernet header, all in place in the packet buffer. */
module GtpDecap {
  import opened Mbufs

  // sizeof(struct rte_ether_hdr): two MAC addresses and the ethertype
  const ETHER_HDR_LEN: nat := 14
  // sizeof(struct rte_ipv4_hdr): the header without options
  const IPV4_HDR_LEN: nat := 20
  // sizeof(struct rte_udp_hdr)
  const UDP_HDR_LEN: nat := 8
  // sizeof(gtpv1_t): the mandatory GTPv1-U header (section 5.1 of 3GPP TS 29.281)
  const GTPV1_HDR_LEN: nat := 8
  // outer_hdr_len in packet_handler
  const OUTER_HDR_LEN: nat := ETHER_HDR_LEN + IPV4_HDR_LEN + UDP_HDR_LEN + GTPV1_HDR_LEN
  // RTE_ETHER_ADDR_LEN
  const ETHER_ADDR_LEN: nat := 6
  // RTE_ETHER_TYPE_IPV4
  const ETHER_TYPE_IPV4: nat := 0x0800
  // The destination MAC the handler writes: byte j holds j.
  const PLACEHOLDER_MAC: seq<byte> := [0, 1, 2, 3, 4, 5]
  // How far the packet start moves forward: the outer headers go, a new Ethernet header comes.
  const DATA_START_SHIFT: nat := OUTER_HDR_LEN - ETHER_HDR_LEN

  /** An Ethernet header on the wire: destination MAC, source MAC, then the
      ethertype in network (big-endian) byte order. */
  function EthernetHeader(dst: seq<byte>, src: seq<byte>, etherType: nat): (h: seq<byte>)
    requires |dst| == ETHER_ADDR_LEN && |src| == ETHER_ADDR_LEN && etherType < 0x1_0000
    ensures |h| == ETHER_HDR_LEN
  {
    dst + src + [etherType / 0x100, etherType % 0x100]
  }

  // Readers of an Ethernet frame's fields.
  function DstMacOf(frame: seq<byte>): seq<byte>
    requires |frame| >= ETHER_HDR_LEN
  {
    frame[..ETHER_ADDR_LEN]
  }

  function SrcMacOf(frame: seq<byte>): seq<byte>
    requires |frame| >= ETHER_HDR_LEN
  {
    frame[ETHER_ADDR_LEN .. 2 * ETHER_ADDR_LEN]
  }

  function EtherTypeOf(frame: seq<byte>): nat
    requires |frame| >= ETHER_HDR_LEN
  {
    (frame[12] as int) * 0x100 + frame[13] as int
  }

  function PayloadOf(frame: seq<byte>): seq<byte>
    requires |frame| >= ETHER_HDR_LEN
  {
    frame[ETHER_HDR_LEN..]
  }

  /** Reading the fields of a frame that starts with an encoded Ethernet
      header gives back what was encoded. */
  lemma EthernetHeaderRoundTrip(dst: seq<byte>, src: seq<byte>, etherType: nat, payload: seq<byte>)
    requires |dst| == ETHER_ADDR_LEN && |src| == ETHER_ADDR_LEN && etherType < 0x1_0000
    ensures var frame := EthernetHeader(dst, src, etherType) + payload;
            DstMacOf(frame) == dst && SrcMacOf(frame) == src &&
            EtherTypeOf(frame) == etherType && PayloadOf(frame) == payload
  {
  }

  /** The packet after GTP/IPv4 outer-header removal, as a function of the
      packet before it: a new Ethernet header whose destination is the
      placeholder MAC, whose source MAC was never written (those six buffer
      bytes are the first six bytes of the old GTP header) and whose
      ethertype is IPv4, followed by everything after the outer headers. */
  function DecapView(v: seq<byte>): (r: seq<byte>)
    requires |v| >= OUTER_HDR_LEN
    ensures |r| == |v| - OUTER_HDR_LEN + ETHER_HDR_LEN
  {
    EthernetHeader(PLACEHOLDER_MAC,
                   v[DATA_START_SHIFT + ETHER_ADDR_LEN .. DATA_START_SHIFT + 2 * ETHER_ADDR_LEN],
                   ETHER_TYPE_IPV4)
    + v[OUTER_HDR_LEN..]
  }

  /** What the decapsulated packet looks like to a reader of Ethernet
      frames: it is 36 bytes shorter, goes to the placeholder MAC, carries
      IPv4, and its payload is the original packet after its 50 bytes of
      outer headers. */
  lemma DecapViewFields(v: seq<byte>)
    requires |v| >= OUTER_HDR_LEN
    ensures |DecapView(v)| == |v| - 36
    ensures DstMacOf(DecapView(v)) == [0, 1, 2, 3, 4, 5]
    ensures SrcMacOf(DecapView(v)) == v[42..48]
    ensures EtherTypeOf(DecapView(v)) == 0x0800
    ensures PayloadOf(DecapView(v)) == v[50..]
  {
  }

  /** A GTP-U over IPv4 packet as it arrives on the wire. */
  function GtpIp4Frame(eth: seq<byte>, ipv4: seq<byte>, udp: seq<byte>, gtp: seq<byte>, inner: seq<byte>): (f: seq<byte>)
    requires |eth| == ETHER_HDR_LEN && |ipv4| == IPV4_HDR_LEN && |udp| == UDP_HDR_LEN && |gtp| == GTPV1_HDR_LEN
    ensures |f| == OUTER_HDR_LEN + |inner|
  {
    eth + ipv4 + udp + gtp + inner
  }

  /** Decapsulating an encapsulated packet recovers the inner packet byte
      for byte, behind an Ethernet header addressed to the placeholder MAC
      whose source MAC is the first six bytes of the GTP header. */
  lemma DecapRecoversInner(eth: seq<byte>, ipv4: seq<byte>, udp: seq<byte>, gtp: seq<byte>, inner: seq<byte>)
    requires |eth| == ETHER_HDR_LEN && |ipv4| == IPV4_HDR_LEN && |udp| == UDP_HDR_LEN && |gtp| == GTPV1_HDR_LEN
    ensures DecapView(GtpIp4Frame(eth, ipv4, udp, gtp, inner))
         == EthernetHeader(PLACEHOLDER_MAC, gtp[..ETHER_ADDR_LEN], ETHER_TYPE_IPV4) + inner
  {
  }

  /** The buffer offsets the handler writes once the new Ethernet header
      starts at `start`: the destination MAC and the ethertype. */
  predicate WrittenByDecap(start: nat, i: nat) {
    start <= i < start + ETHER_ADDR_LEN || i == start + 12 || i == start + 13
  }

  /** The whole effect of GTP/IPv4 outer-header removal on a buffer: the
      packet start moves forward by 36 bytes, its length drops by 36, the
      packet reads as DecapView of the old packet, and no byte of the data
      room other than the eight written ones changes. */
  ghost predicate Decapsulated(room: seq<byte>, off: nat, len: nat, room': seq<byte>, off': nat, len': nat)
    requires off + len <= |room| && len >= OUTER_HDR_LEN
  {
    && off' == off + DATA_START_SHIFT
    && len' == len - DATA_START_SHIFT
    && |room'| == |room|
    && room'[off' .. off' + len'] == DecapView(room[off .. off + len])
    && forall i :: 0 <= i < |room| && !WrittenByDecap(off', i) ==> room'[i] == room[i]
  }

  /** The eight writes of the handler, on a buffer whose packet start has
      moved forward by 36 bytes, leave it Decapsulated. */
  lemma WritesDecapsulate(room: seq<byte>, off: nat, len: nat, room': seq<byte>)
    requires off + len <= |room| && len >= OUTER_HDR_LEN && |room'| == |room|
    requires forall i :: off + DATA_START_SHIFT <= i < off + DATA_START_SHIFT + ETHER_ADDR_LEN
                         ==> room'[i] == i - (off + DATA_START_SHIFT)
    requires room'[off + DATA_START_SHIFT + 12] == 0x08 && room'[off + DATA_START_SHIFT + 13] == 0x00
    requires forall i :: 0 <= i < |room| && !WrittenByDecap(off + DATA_START_SHIFT, i) ==> room'[i] == room[i]
    ensures Decapsulated(room, off, len, room', off + DATA_START_SHIFT, len - DATA_START_SHIFT)
  {
    var h := off + DATA_START_SHIFT;
    var v, w := room[off .. off + len], room'[h .. h + len - DATA_START_SHIFT];
    var src := v[DATA_START_SHIFT + ETHER_ADDR_LEN .. DATA_START_SHIFT + 2 * ETHER_ADDR_LEN];
    var hdr := EthernetHeader(PLACEHOLDER_MAC, src, ETHER_TYPE_IPV4);
    var r := DecapView(v);
    assert r == hdr + v[OUTER_HDR_LEN..];
    forall k | 0 <= k < |w|
      ensures w[k] == r[k]
    {
      assert w[k] == room'[h + k];
      if k < ETHER_ADDR_LEN {
        assert r[k] == hdr[k] == PLACEHOLDER_MAC[k];
      } else if k < 2 * ETHER_ADDR_LEN {
        assert r[k] == hdr[k] == src[k - ETHER_ADDR_LEN];
        assert r[k] == room[h + k];
      } else if k < ETHER_HDR_LEN {
        assert r[k] == hdr[k];
        assert hdr[12] == 0x08 && hdr[13] == 0x00;
      } else {
        assert r[k] == v[OUTER_HDR_LEN + k - ETHER_HDR_LEN];
        assert r[k] == room[h + k];
      }
    }
  }

  /** The OUTER_HEADER_REMOVAL_GTP_IP4 branch of packet_handler: strip the
      outer headers with rte_pktmbuf_adj, open a new Ethernet header with
      rte_pktmbuf_prepend, write its ethertype and its destination MAC. */
  method RemoveGtpIp4OuterHeader(pkt: Mbuf)
    requires pkt.Valid() && pkt.dataLen >= OUTER_HDR_LEN
    modifies pkt, pkt.data
    ensures pkt.Valid() && pkt.data == old(pkt.data)
    ensures Decapsulated(old(pkt.data[..]), old(pkt.dataOff), old(pkt.dataLen),
                         pkt.data[..], pkt.dataOff, pkt.dataLen)
  {
    ghost var room := pkt.data[..];
    var _ := pkt.Adj(OUTER_HDR_LEN);
    var _ := pkt.Prepend(ETHER_HDR_LEN);
    var h := pkt.dataOff;
    // ether_type = rte_cpu_to_be_16(RTE_ETHER_TYPE_IPV4)
    pkt.data[h + 12] := ETHER_TYPE_IPV4 / 0x100;
    pkt.data[h + 13] := ETHER_TYPE_IPV4 % 0x100;
    for j := 0 to ETHER_ADDR_LEN
      invariant pkt.Valid() && pkt.data == old(pkt.data) && pkt.data.Length == |room|
      invariant pkt.dataOff == h && pkt.dataLen == old(pkt.dataLen) - DATA_START_SHIFT
      invariant forall i :: h <= i < h + j ==> pkt.data[i] == i - h
      invariant pkt.data[h + 12] == 0x08 && pkt.data[h + 13] == 0x00
      invariant forall i :: 0 <= i < |room| && !WrittenByDecap(h, i) ==> pkt.data[i] == room[i]
    {
      pkt.data[h + j] := j;
    }
    WritesDecapsulate(room, old(pkt.dataOff), old(pkt.dataLen), pkt.data[..]);
  }
}
