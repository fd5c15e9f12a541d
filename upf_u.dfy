/** The per-packet handler of the UPF user plane (upf_u.c): decide the
    direction, find the PDR and its FAR, apply the outer-header removal
    and dispatch on the FAR's action. */
module UpfU {
  import opened Ints
  import opened Mbufs
  import opened Rules
  import opened GtpDecap

  // The UPF's own IPv4 address; packets sent to it are downlink.
  const SELF_IP: uint32 := 0

  /** The verdict the handler leaves for the packet framework in
      meta->action (ONVM_NF_ACTION_DROP, _NEXT, _TONF, _OUT). */
  datatype NfAction = ActionDrop | ActionNext | ActionToNf | ActionOut

  /** struct onvm_pkt_meta: the per-packet metadata the handler writes. */
  class PktMeta {
    var action: NfAction

    constructor (action: NfAction)
      ensures this.action == action
    {
      this.action := action;
    }
  }

  /** Which diagnostic the FAR action switch emits. */
  datatype ActionNote = DropNoted | ForwardNoted | UnspecNoted

  /** The exit the handler takes. The C function returns 0 on every one of
      them; this records which branch was taken and with which rules. */
  datatype Exit =
    | NoPdr
    | NoFar(pdrId: uint16)
    | Dispatched(pdrId: uint16, farId: uint32, removal: OuterHeaderRemoval, note: ActionNote)

  /** Step 1: a packet addressed to the UPF itself is downlink. */
  predicate IsDownlink(dstAddr: uint32): (b: bool)
    ensures b <==> dstAddr == 0
  {
    dstAddr == SELF_IP
  }

  /** The FAR action switch: DROP and FORWARD have their own message; BUFFER,
      NOTIFY_CP and DUPLICATE fall through to the default message. */
  function NoteFor(action: ApplyAction): (r: ActionNote)
    ensures r == DropNoted <==> action == FarDrop
    ensures r == ForwardNoted <==> action == FarForward
    ensures r == UnspecNoted <==> action in {FarBuffer, FarNotifyCp, FarDuplicate, OtherAction}
  {
    match action
    case FarDrop => DropNoted
    case FarForward => ForwardNoted
    case _ => UnspecNoted
  }

  /** Step 2: the PDR the handler resolves for a packet. */
  function ResolvePdr(dstAddr: uint32, teid: uint32, table: SessionTable): (r: Option<Pdr>)
    ensures r.Some? ==> !IsDownlink(dstAddr) && teid in table && IsActive(r.value)
    ensures r.Some? ==> exists i :: 0 <= i < |table[teid].pdrList| && table[teid].pdrList[i] == r.value
                          && forall j :: 0 <= j < i ==> !IsActive(table[teid].pdrList[j])
    ensures r.None? <==> IsDownlink(dstAddr) || teid !in table
                         || forall j :: 0 <= j < |table[teid].pdrList| ==> !IsActive(table[teid].pdrList[j])
  {
    if IsDownlink(dstAddr) then GetPdrByUeIpAddress(dstAddr)
    else match PdrSlotByTeid(table, teid)
      case None => None
      case Some(i) => Some(table[teid].pdrList[i])
  }

  /** The exit the handler takes for a packet, given its destination
      address, its TEID and the session table. */
  function HandlerExit(dstAddr: uint32, teid: uint32, table: SessionTable): (e: Exit)
    ensures e.NoPdr? <==> ResolvePdr(dstAddr, teid, table).None?
    ensures e.NoFar? <==> ResolvePdr(dstAddr, teid, table).Some? && ResolvePdr(dstAddr, teid, table).value.far.None?
    ensures !e.NoPdr? ==> e.pdrId == ResolvePdr(dstAddr, teid, table).value.id
    ensures e.Dispatched? ==>
              var pdr := ResolvePdr(dstAddr, teid, table).value;
              e.removal == pdr.outerHeaderRemoval && e.farId == pdr.far.value.id
              && e.note == NoteFor(pdr.far.value.applyAction)
  {
    match ResolvePdr(dstAddr, teid, table)
    case None => NoPdr
    case Some(pdr) =>
      match pdr.far
      case None => NoFar(pdr.id)
      case Some(far) => Dispatched(pdr.id, far.id, pdr.outerHeaderRemoval, NoteFor(far.applyAction))
  }

  /** The exits on which the packet is decapsulated. */
  predicate StripsGtpIp4(e: Exit) {
    e.Dispatched? && e.removal == GtpIp4
  }

  /** packet_handler. `dstAddr` is the destination of the parsed IPv4 header
      and `teid` what the GTP-U parser reads from the packet; the handler
      only consults the TEID for uplink packets. */
  method PacketHandler(pkt: Mbuf, meta: PktMeta, dstAddr: uint32, teid: uint32, table: SessionTable)
    returns (ret: int, exit: Exit)
    requires pkt.Valid()
    requires StripsGtpIp4(HandlerExit(dstAddr, teid, table)) ==> pkt.dataLen >= OUTER_HDR_LEN
    modifies pkt, pkt.data, meta
    ensures ret == 0 && meta.action == ActionDrop
    ensures exit == HandlerExit(dstAddr, teid, table)
    ensures pkt.Valid() && pkt.data == old(pkt.data)
    ensures StripsGtpIp4(exit) ==>
              Decapsulated(old(pkt.data[..]), old(pkt.dataOff), old(pkt.dataLen),
                           pkt.data[..], pkt.dataOff, pkt.dataLen)
    ensures !StripsGtpIp4(exit) ==>
              pkt.data[..] == old(pkt.data[..]) && pkt.dataOff == old(pkt.dataOff) && pkt.dataLen == old(pkt.dataLen)
  {
    meta.action := ActionDrop;

    var pdr: Option<Pdr>;
    if IsDownlink(dstAddr) {
      pdr := GetPdrByUeIpAddress(dstAddr);
    } else {
      var slot := GetPdrByTeid(table, teid);
      pdr := if slot.Some? then Some(table[teid].pdrList[slot.value]) else None;
    }

    if pdr.None? {
      return 0, NoPdr;
    }

    var far := pdr.value.far;
    if far.None? {
      meta.action := ActionDrop;
      return 0, NoFar(pdr.value.id);
    }

    match pdr.value.outerHeaderRemoval {
      case GtpIp4 =>
        RemoveGtpIp4OuterHeader(pkt);
      case _ =>
        // every other kind only reports "unknown"
    }

    var note := NoteFor(far.value.applyAction);
    return 0, Dispatched(pdr.value.id, far.value.id, pdr.value.outerHeaderRemoval, note);
  }

  /** A downlink packet never finds a PDR, since the UE-address lookup is a
      stub; so it always leaves by the "no PDR" exit, untouched. */
  lemma DownlinkNeverMatches(dstAddr: uint32, teid: uint32, table: SessionTable)
    requires IsDownlink(dstAddr)
    ensures HandlerExit(dstAddr, teid, table) == NoPdr
  {
  }

  /** The handler leaves by the "no PDR" exit exactly when the packet is
      downlink, or no session has the TEID as its SEID, or none of that
      session's slots is active. */
  lemma NoPdrExactly(dstAddr: uint32, teid: uint32, table: SessionTable)
    ensures HandlerExit(dstAddr, teid, table) == NoPdr
        <==> IsDownlink(dstAddr) || teid !in table
             || forall j :: 0 <= j < |table[teid].pdrList| ==> !IsActive(table[teid].pdrList[j])
  {
  }

  /** For an uplink packet whose session has active slots, the handler acts
      on the first active slot: the exit names that slot's PDR, and it
      depends on nothing but that slot. */
  lemma UplinkUsesFirstActiveSlot(dstAddr: uint32, teid: uint32, table: SessionTable, i: nat)
    requires !IsDownlink(dstAddr) && teid in table
    requires i < |table[teid].pdrList| && IsActive(table[teid].pdrList[i])
    requires forall j :: 0 <= j < i ==> !IsActive(table[teid].pdrList[j])
    ensures var pdr := table[teid].pdrList[i];
            HandlerExit(dstAddr, teid, table)
              == match pdr.far
                 case None => NoFar(pdr.id)
                 case Some(far) => Dispatched(pdr.id, far.id, pdr.outerHeaderRemoval, NoteFor(far.applyAction))
  {
  }

  /** Only a matched PDR with GTP/IPv4 removal and a FAR changes the packet;
      which action the FAR names never matters to the bytes. */
  lemma OnlyGtpIp4RemovalTouchesPacket(dstAddr: uint32, teid: uint32, table: SessionTable)
    ensures StripsGtpIp4(HandlerExit(dstAddr, teid, table))
        <==> (var pdr := ResolvePdr(dstAddr, teid, table);
              pdr.Some? && pdr.value.far.Some? && pdr.value.outerHeaderRemoval == GtpIp4)
  {
  }

  /** An uplink session scenario: session 1001 has one active PDR (id 1,
      GTP/IPv4 removal) pointing at FAR 1 with action FORWARD. A packet with
      TEID 1001 is decapsulated and reaches the FORWARD branch. */
  lemma ForwardScenario(dstAddr: uint32, rest: seq<Pdr>)
    requires !IsDownlink(dstAddr)
    ensures var far := Far(1, FarForward);
            var table := map[1001 := Session(1001, [Pdr(1, 1, GtpIp4, Some(far))] + rest)];
            HandlerExit(dstAddr, 1001, table) == Dispatched(1, 1, GtpIp4, ForwardNoted)
  {
  }

  /** A client of the handler: it calls it on a 64-byte packet of arbitrary
      contents in a 128-byte data room, with 16 bytes of headroom, against
      the table of the scenario above. */
  method ForwardScenarioClient(dstAddr: uint32)
    requires !IsDownlink(dstAddr)
  {
    var room := new byte[128];
    var pkt := new Mbuf(room, 16, 64);
    var meta := new PktMeta(ActionNext);
    var far := Far(1, FarForward);
    var table := map[1001 := Session(1001, [Pdr(1, 1, GtpIp4, Some(far)), Pdr(2, 1, Unlisted, None)])];
    ForwardScenario(dstAddr, [Pdr(2, 1, Unlisted, None)]);
    ghost var before := pkt.View();
    var ret, exit := PacketHandler(pkt, meta, dstAddr, 1001, table);
    assert ret == 0 && meta.action == ActionDrop;
    assert exit == Dispatched(1, 1, GtpIp4, ForwardNoted);
    assert pkt.dataOff == 52 && pkt.dataLen == 28;
    assert pkt.View() == DecapView(before);
    DecapViewFields(before);
    assert EtherTypeOf(pkt.View()) == ETHER_TYPE_IPV4;
  }
}
