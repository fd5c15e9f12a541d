/** The DPDK packet buffer (rte_mbuf) as the packet handler sees it: one
    contiguous data room, a data-start offset into it and a data length.
    Only the single-segment case is modelled. */
module Mbufs {
  import opened Ints

  // A byte of the data room is a uint8_t.
  type byte = uint8

  class Mbuf {
    // buf_addr .. buf_addr + buf_len: the whole data room, headroom included
    var data: array<byte>
    // data_off: where the packet starts inside the data room
    var dataOff: nat
    // data_len: how many bytes the packet occupies from data_off on
    var dataLen: nat

    /** buf_len, data_off and data_len are 16-bit fields in DPDK, and the
        packet lies inside the data room. */
    ghost predicate Valid()
      reads this
    {
      data.Length < 0x1_0000 && dataOff + dataLen <= data.Length
    }

    /** The bytes of the packet, rte_pktmbuf_mtod(m) .. + data_len. */
    function View(): (v: seq<byte>)
      reads this, data
      requires Valid()
      ensures |v| == dataLen
      ensures forall k :: 0 <= k < dataLen ==> v[k] == data[dataOff + k]
    {
      data[dataOff .. dataOff + dataLen]
    }

    /** The I/O framework hands over a received packet that occupies
        `len` bytes of `room` from offset `off` on. */
    constructor (room: array<byte>, off: nat, len: nat)
      requires room.Length < 0x1_0000 && off + len <= room.Length
      ensures Valid() && data == room && dataOff == off && dataLen == len
    {
      data, dataOff, dataLen := room, off, len;
    }

    /** rte_pktmbuf_adj: remove `len` bytes from the front of the packet.
        It fails, changing nothing, when the packet is shorter than `len`. */
    method Adj(len: nat) returns (ok: bool)
      requires Valid()
      modifies this
      ensures Valid() && data == old(data)
      ensures ok <==> len <= old(dataLen)
      ensures ok ==> dataOff == old(dataOff) + len && dataLen == old(dataLen) - len
      ensures !ok ==> dataOff == old(dataOff) && dataLen == old(dataLen)
      ensures ok ==> View() == old(View())[len..]
    {
      ok := len <= dataLen;
      if ok {
        dataOff, dataLen := dataOff + len, dataLen - len;
      }
    }

    /** rte_pktmbuf_prepend: open `len` bytes in front of the packet, taken
        from the headroom. It fails, changing nothing, when the headroom
        (data_off) is smaller than `len`. The new bytes keep whatever the
        data room held there. */
    method Prepend(len: nat) returns (ok: bool)
      requires Valid()
      modifies this
      ensures Valid() && data == old(data)
      ensures ok <==> len <= old(dataOff)
      ensures ok ==> dataOff == old(dataOff) - len && dataLen == old(dataLen) + len
      ensures !ok ==> dataOff == old(dataOff) && dataLen == old(dataLen)
      ensures ok ==> View() == data[dataOff .. old(dataOff)] + old(View())
    {
      ok := len <= dataOff;
      if ok {
        dataOff, dataLen := dataOff - len, dataLen + len;
      }
    }
  }
}
