/** The rule model the data plane reads: sessions holding a fixed number of
    PDR slots (reused, never compacted, so each slot has an `active` flag),
    each PDR naming at most one FAR, and the lookups upf_u.c performs on it. */
module Rules {
  import opened Ints

  datatype Option<T> = None | Some(value: T)

  /** The outer-header-removal kinds the handler's switch names; `Unlisted`
      is every value that reaches its `default` label (including "none"). */
  datatype OuterHeaderRemoval =
    | GtpIp4 | GtpIp6 | UdpIp4 | UdpIp6 | Ip4 | Ip6 | Gtp | STag | SCTag
    | Unlisted

  /** A FAR's apply_action as the handler's switch sees it; `OtherAction`
      is every value without a case label of its own. */
  datatype ApplyAction = FarDrop | FarForward | FarBuffer | FarNotifyCp | FarDuplicate | OtherAction

  datatype Far = Far(id: uint32, applyAction: ApplyAction)

  /** A PDR slot. `far` is the FAR pointer, None standing for NULL. */
  datatype Pdr = Pdr(id: uint16, active: uint8, outerHeaderRemoval: OuterHeaderRemoval, far: Option<Far>)

  /** A session and its pdr_list: the sequence has one element per slot,
      MAX_PDR_RULE of them. */
  datatype Session = Session(seid: uint64, pdrList: seq<Pdr>)

  /** The session table, keyed by SEID, as UpfSessionFindBySeid reads it. */
  type SessionTable = map<uint64, Session>

  /** A slot is in use exactly when its flag equals 1. */
  predicate IsActive(p: Pdr) {
    p.active == 1
  }

  /** Every session is stored under its own SEID. */
  predicate TableWellFormed(table: SessionTable) {
    forall k :: k in table ==> table[k].seid == k
  }

  /** UpfSessionFindBySeid. */
  function FindBySeid(table: SessionTable, seid: uint64): (r: Option<Session>)
    ensures r.Some? <==> seid in table
    ensures r.Some? ==> r.value == table[seid]
    ensures TableWellFormed(table) && r.Some? ==> r.value.seid == seid
  {
    if seid in table then Some(table[seid]) else None
  }

  /** GetPdrByUeIpAddress: the downlink lookup is a stub that finds no PDR
      for any address. */
  function GetPdrByUeIpAddress(addr: uint32): (r: Option<Pdr>)
    ensures r == None
  {
    None
  }

  /** GetFarById: a stub that finds no FAR for any id. */
  function GetFarById(id: uint16): (r: Option<Far>)
    ensures r == None
  {
    None
  }

  /** The first slot, in slot order, that is active; None when no slot is. */
  function FirstActiveSlot(slots: seq<Pdr>): (r: Option<nat>)
    ensures r.Some? ==> r.value < |slots| && IsActive(slots[r.value])
    ensures r.Some? ==> forall j :: 0 <= j < r.value ==> !IsActive(slots[j])
    ensures r.None? <==> forall j :: 0 <= j < |slots| ==> !IsActive(slots[j])
  {
    if |slots| == 0 then None
    else if IsActive(slots[0]) then Some(0)
    else match FirstActiveSlot(slots[1..])
      case None => None
      case Some(k) => Some(k + 1)
  }

  /** What GetPdrByTeid finds: the TEID is used, unchanged, as the SEID of
      the session to search. */
  function PdrSlotByTeid(table: SessionTable, teid: uint32): Option<nat>
  {
    match FindBySeid(table, teid)
    case None => None
    case Some(session) => FirstActiveSlot(session.pdrList)
  }

  /** GetPdrByTeid: look the session up by the TEID and scan its slots in
      order, returning the index of the first active one. */
  method GetPdrByTeid(table: SessionTable, teid: uint32) returns (r: Option<nat>)
    ensures r.Some? ==> teid in table && r.value < |table[teid].pdrList|
    ensures r.Some? ==> IsActive(table[teid].pdrList[r.value])
    ensures r.Some? ==> forall j :: 0 <= j < r.value ==> !IsActive(table[teid].pdrList[j])
    ensures r.None? <==> teid !in table || forall j :: 0 <= j < |table[teid].pdrList| ==> !IsActive(table[teid].pdrList[j])
    ensures r == PdrSlotByTeid(table, teid)
  {
    var session := FindBySeid(table, teid);
    if session.None? {
      return None;
    }
    var slots := session.value.pdrList;
    var i := 0;
    while i < |slots|
      invariant 0 <= i <= |slots|
      invariant forall j :: 0 <= j < i ==> !IsActive(slots[j])
    {
      if slots[i].active == 1 {
        return Some(i);
      }
      i := i + 1;
    }
    return None;
  }

  /** The first-active rule is deterministic: with slots
      [inactive, active(id 2), active(id 5)] the PDR found is the one with id 2. */
  lemma FirstActiveExample(far: Option<Far>, ohr: OuterHeaderRemoval)
    ensures var slots := [Pdr(1, 0, ohr, far), Pdr(2, 1, ohr, far), Pdr(5, 1, ohr, far)];
            FirstActiveSlot(slots) == Some(1) && slots[1].id == 2
  {
  }

  /** Slots after the first active one never influence the result: the
      scan stops at the first active slot. */
  lemma {:induction false} FirstActiveIgnoresLaterSlots(slots: seq<Pdr>, more: seq<Pdr>)
    requires FirstActiveSlot(slots).Some?
    ensures FirstActiveSlot(slots + more) == FirstActiveSlot(slots)
  {
    if !IsActive(slots[0]) {
      assert (slots + more)[1..] == slots[1..] + more;
      FirstActiveIgnoresLaterSlots(slots[1..], more);
    }
  }
}
