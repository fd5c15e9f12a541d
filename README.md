# UPF user-plane packet handler, modelled in Dafny

This project models the per-packet path of the 5G User Plane Function's
data-plane network function (`5gc/upf_u/upf_u.c`). For every packet the
packet framework delivers, `packet_handler` works in four steps:

1. It classifies the packet. A packet whose IPv4 destination is the UPF's own
   address (`SELF_IP`, 0) is downlink. Every other packet is uplink.
2. It resolves a Packet Detection Rule (PDR).
   - Downlink goes through `GetPdrByUeIpAddress`, a stub that finds nothing.
   - Uplink reads the GTP-U TEID and uses it unchanged as the session's SEID.
     `GetPdrByTeid` then returns the first slot of that session's `pdr_list`
     whose `active` flag is 1.
3. It stops early when there is no PDR, or when the PDR has no Forwarding
   Action Rule (FAR).
4. It applies the PDR's outer-header removal, then switches on the FAR's
   action.
   - Only GTP/IPv4 removal does anything. It strips the Ethernet, IPv4, UDP
     and GTPv1 headers (50 bytes) from the front of the buffer. It then
     prepends a new 14-byte Ethernet header with ethertype IPv4 (0x0800,
     big-endian) and destination MAC 00:01:02:03:04:05.
   - The action switch only writes diagnostics.
   - `meta->action` is DROP on every path, and the function returns 0.

Files:

- `ints.dfy` (module `Ints`): the C unsigned integer widths.
- `mbuf.dfy` (module `Mbufs`): the packet buffer (`rte_mbuf`). It is a class
  over a byte array with a data offset and a data length. `Adj` and
  `Prepend` follow `rte_pktmbuf_adj` and `rte_pktmbuf_prepend`, including
  their failure cases.
- `rules.dfy` (module `Rules`): the PDR, FAR and session datatypes and the
  session table (a map from SEID to session). It also holds the two stub
  lookups, the first-active-slot specification and `GetPdrByTeid` as a loop
  over the slots.
- `gtp.dfy` (module `GtpDecap`): the header sizes and the Ethernet header
  encoding and field readers. `DecapView` specifies the decapsulated packet.
  `RemoveGtpIp4OuterHeader` performs the in-place edit, including the
  destination-MAC `for` loop.
- `upf_u.dfy` (module `UpfU`): `PacketHandler`, with `HandlerExit` as its
  specification, and the lemmas about it. `ForwardScenarioClient` is a client
  of `PacketHandler` that calls it on a 64-byte packet of arbitrary contents.

`PacketHandler` also returns an `Exit` value. It records which exit the C
function took: no PDR, no FAR, or dispatched, together with the removal kind
and the action branch. The C function itself returns 0 on all of them, and
the model returns 0 as well.

## Model

| member | source | states |
|---|---|---|
| `Mbufs.Mbuf.Adj` | 5gc/upf_u/upf_u.c:140 | Removing n bytes succeeds exactly when the packet holds at least n bytes. On success the data start moves forward by n, the length drops by n and the packet reads as its old bytes from n on. On failure nothing changes. |
| `Mbufs.Mbuf.Prepend` | 5gc/upf_u/upf_u.c:143-145 | Opening n bytes succeeds exactly when the headroom is at least n. On success the data start moves back by n, the length grows by n, and the old packet follows the n new bytes unchanged. On failure nothing changes. |
| `Rules.FindBySeid` | 5gc/upf_u/upf_u.c:68-71 | Finds a session exactly when the SEID is a key of the table, and then returns that key's session. In a table where every session is stored under its own SEID, the session found has the SEID looked up. |
| `Rules.GetPdrByUeIpAddress` | 5gc/upf_u/upf_u.c:63-65 | The downlink lookup finds no PDR, for every address. |
| `Rules.GetFarById` | 5gc/upf_u/upf_u.c:81 | The FAR lookup finds no FAR, for every id. |
| `Rules.FirstActiveSlot` | 5gc/upf_u/upf_u.c:72-78 | A returned index is in range and its slot is active, and every earlier slot is inactive. No index is returned exactly when no slot is active. |
| `Rules.GetPdrByTeid` | 5gc/upf_u/upf_u.c:67-79 | Returns a slot only if a session is keyed by the TEID itself. The slot is in range and active, and every earlier slot is inactive. Returns none exactly when there is no such session or none of its slots is active. Agrees with `PdrSlotByTeid`. |
| `Rules.FirstActiveExample` | 5gc/upf_u/upf_u.c:73-77 | With slots [inactive, active id 2, active id 5], the PDR found is the one with id 2. |
| `Rules.FirstActiveIgnoresLaterSlots` | 5gc/upf_u/upf_u.c:73-77 | Once some slot is active, appending further slots never changes the slot found, because the scan stops at the first active slot. |
| `GtpDecap.EthernetHeader` | 5gc/upf_u/upf_u.c:143-151 | The Ethernet header the handler builds is 14 bytes long. |
| `GtpDecap.EthernetHeaderRoundTrip` | 5gc/upf_u/upf_u.c:147-151 | Reading the destination MAC, source MAC, ethertype (big-endian) and payload of an encoded header plus payload gives back what was encoded. |
| `GtpDecap.DecapView` | 5gc/upf_u/upf_u.c:135-151 | The decapsulated packet is 50 − 14 = 36 bytes shorter than the original. |
| `GtpDecap.DecapViewFields` | 5gc/upf_u/upf_u.c:137-151 | After decapsulation the length is L − 36 and the destination MAC is 0..5. The source MAC is the untouched old bytes 42..47, the ethertype is 0x0800 and the payload is the old packet from byte 50 on. |
| `GtpDecap.GtpIp4Frame` | 5gc/upf_u/upf_u.c:137-139 | An encapsulated packet is the inner packet plus 14 + 20 + 8 + 8 = 50 bytes of outer headers. |
| `GtpDecap.DecapRecoversInner` | 5gc/upf_u/upf_u.c:135-152 | Decapsulating Ethernet + IPv4 + UDP + GTPv1 + inner gives back the inner packet byte for byte. It sits behind an Ethernet header to the placeholder MAC, with ethertype IPv4, whose source MAC is the first six bytes of the GTP header. |
| `GtpDecap.RemoveGtpIp4OuterHeader` | 5gc/upf_u/upf_u.c:135-152 | On a packet of at least 50 bytes, the data start moves forward by 36 and the length drops by 36. The packet then reads as `DecapView` of the old packet. No byte of the data room changes except the six MAC bytes and the two ethertype bytes. |
| `UpfU.IsDownlink` | 5gc/upf_u/upf_u.c:106 | A packet is downlink exactly when its IPv4 destination is `SELF_IP`, which is 0. |
| `UpfU.ResolvePdr` | 5gc/upf_u/upf_u.c:105-116 | A PDR is resolved only for an uplink packet whose TEID is a session's key. It is an active slot of that session with no active slot before it. No PDR is resolved exactly when the packet is downlink, no session has the TEID as its key, or none of its slots is active. |
| `UpfU.HandlerExit` | 5gc/upf_u/upf_u.c:105-131 | The "no PDR" exit is taken exactly when no PDR is resolved. The "no FAR" exit is taken exactly when the resolved PDR has no FAR. Both the "no FAR" and "dispatched" exits carry the resolved PDR's id. "Dispatched" also carries its removal kind, its FAR's id and the FAR action's branch. |
| `UpfU.NoteFor` | 5gc/upf_u/upf_u.c:165-184 | DROP and FORWARD each select their own branch. BUFFER, NOTIFY_CP, DUPLICATE and every other value fall through to the default "unspecified" branch. |
| `UpfU.PacketHandler` | 5gc/upf_u/upf_u.c:83-187 | Returns 0 and leaves `meta->action` at DROP on every path. The exit taken is `HandlerExit` of the destination, the TEID and the table. The buffer is decapsulated exactly on a matched PDR with a FAR and GTP/IPv4 removal. On every other path the buffer bytes, data start and length are unchanged. |
| `UpfU.DownlinkNeverMatches` | 5gc/upf_u/upf_u.c:106-122 | A downlink packet always takes the "no PDR" exit. |
| `UpfU.NoPdrExactly` | 5gc/upf_u/upf_u.c:105-122 | The "no PDR" exit is taken exactly when the packet is downlink, or no session has the TEID as its SEID, or none of that session's slots is active. |
| `UpfU.UplinkUsesFirstActiveSlot` | 5gc/upf_u/upf_u.c:110-131 | For an uplink packet whose session's first active slot is i, the exit depends on slot i alone. It is "no FAR" with slot i's PDR id when that PDR has no FAR. Otherwise it is "dispatched" with slot i's PDR, its FAR and its removal kind. |
| `UpfU.OnlyGtpIp4RemovalTouchesPacket` | 5gc/upf_u/upf_u.c:118-163 | The packet is decapsulated exactly when a PDR is found, it has a FAR and its removal kind is GTP/IPv4. The FAR's action plays no part. |
| `UpfU.ForwardScenario` | 5gc/upf_u/upf_u.c:105-173 | Take an uplink packet with TEID 1001, where session 1001's first slot is an active PDR (id 1, GTP/IPv4 removal) with FAR 1 (FORWARD). It is decapsulated and reaches the FORWARD branch. |

## Notes

- `packet_handler` never checks the results of `rte_pktmbuf_adj` or `rte_pktmbuf_prepend` (upf_u.c:140-145).
- `meta->action` stays DROP on every path. A FAR action only selects a diagnostic message (upf_u.c:86, 165-184).

## Left out

- `main` (upf_u.c:189-221): framework initialisation, signal handling, the run loop and `PfcpSessionTableNFInit` are process lifecycle and foreign calls.
- All `printf` and `onvm_pkt_print_ipv4` output. The `Exit` value records which branch printed, not what it printed.
- `onvm_pkt_ipv4_hdr`, `onvm_pkt_udp_hdr` and `get_teid_gtp_packet` are outside this core. The IPv4 destination address and the TEID are inputs of `PacketHandler`.
- `get_teid_gtp_packet` is passed `pkt` and `meta` (upf_u.c:113). The model assumes it changes neither. The DROP-on-every-path and untouched-buffer guarantees of `UpfU.PacketHandler` rest on that.
- The fallback `rte_pktmbuf_mtod_offset(pkt, ..., 16)` and the null check after it (upf_u.c:91-98): the fallback pointer is never null, so the early return is dead. The destination address input stands for whichever header the handler ends up reading.
- `UpfSessionFindBySeid` is outside this core. The session table is a map from SEID to session, and its concurrency contract with the control plane is not modelled.
- `MAX_PDR_RULE` is defined in `upf.h`, which is not part of this model. The length of a session's `pdrList` is the slot capacity.
- The numeric codes of the outer-header-removal kinds and FAR actions are defined in headers that are not part of this model. `Unlisted` and `OtherAction` stand for every value that reaches a `default` label.
- `pkt_len` and chained (multi-segment) mbufs are not modelled. The buffer is one segment, and `data_len` is its length.
- GtpDecap.RemoveGtpIp4OuterHeader: requires at least 50 bytes of packet data, and `UpfU.PacketHandler` requires the same on the GTP/IPv4 path. Below that, `rte_pktmbuf_adj` fails silently, and the handler goes on to write the new Ethernet header in front of the unchanged packet (or through a null pointer when the headroom is under 14 bytes). The model does not cover those cases.
- `5gc/upf_c/lib/utlt_debug.c` is not part of this model. It is logging plumbing: the log-level global, formatting into a static buffer and the bridge to the Go logger.
