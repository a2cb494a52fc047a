// Frames around the datagrams: how awdl-airdrop-adv.py wraps them and how
// awdl-mdns-respond.py finds the mDNS message in a frame it receives.

module MdnsFrameSpec {
  import opened Bytes
  import opened Wrappers
  import opened ChecksumSpec

  const APPLE_OUI: seq<byte> := [0x00, 0x17, 0xf2]
  const AWDL_PROTO: seq<byte> := [0x08, 0x00]
  const AWDL_MAGIC: seq<byte> := [0x03, 0x04]
  const ETH_P_IPV6: seq<byte> := [0x86, 0xdd]
  const GROUP_MAC: seq<byte> := [0x33, 0x33, 0x00, 0x00, 0x00, 0xfb]

  function SnapHeader(seqNo: nat): (h: seq<byte>)
    requires seqNo < 0x1_0000
    ensures |h| == 16
  {
    [0xaa, 0xaa, 0x03] + APPLE_OUI + AWDL_PROTO + AWDL_MAGIC + LE16(seqNo) + [0, 0] + ETH_P_IPV6
  }

  // wrap: None where packing the sequence number or the length fails.
  function Wrap(mac: seq<byte>, payload: seq<byte>, seqNo: nat, snap: bool): (r: Option<seq<byte>>)
    requires |mac| == 6
  {
    if !snap then Some(GROUP_MAC + mac + ETH_P_IPV6 + payload)
    else if seqNo >= 0x1_0000 || 16 + |payload| >= 0x1_0000 then None
    else Some(GROUP_MAC + mac + BE16(16 + |payload|) + SnapHeader(seqNo) + payload)
  }

  // The Ethernet type or length.
  function EtherType(frame: seq<byte>): nat
    requires |frame| >= 14
  {
    FromBE16(frame[12..14])
  }

  predicate Plain(frame: seq<byte>) {
    |frame| >= 14 && EtherType(frame) == 0x86dd
  }

  // The two bytes of AWDL header after the sequence number and the header's own magic are not
  // looked at.
  predicate Snap(frame: seq<byte>) {
    && |frame| >= 30 && EtherType(frame) <= 1500
    && frame[14..17] == [0xaa, 0xaa, 0x03] && frame[17..22] == APPLE_OUI + AWDL_PROTO
    && frame[28..30] == ETH_P_IPV6
  }

  // An IPv6 header whose next header is UDP, with the mDNS port as destination.
  predicate CarriesMdns(frame: seq<byte>, off: nat) {
    |frame| >= off + 48 && frame[off + 6] == 17 && FromBE16(frame[off + 42..off + 44]) == MDNS_PORT
  }

  // The sender and the message of an mDNS frame in either encapsulation.
  function Received(frame: seq<byte>): Option<(seq<byte>, seq<byte>)> {
    if Plain(frame) && CarriesMdns(frame, 14) then Some((frame[6..12], frame[62..]))
    else if Snap(frame) && CarriesMdns(frame, 30) then Some((frame[6..12], frame[78..]))
    else None
  }

  lemma DatagramCarriesMdns(head: seq<byte>, src: seq<byte>, dst: seq<byte>, dns: seq<byte>)
    requires |src| == 16 && |dst| == 16 && 8 + |dns| < 0x1_0000
    ensures var f := head + Datagram(src, dst, dns);
            CarriesMdns(f, |head|) && f[|head| + 48..] == dns
  {
    hide Checksum, Pseudo, OnesSum;
    var d := Datagram(src, dst, dns);
    var f := head + d;
    var length := 8 + |dns|;
    var ck := Checksum(Pseudo(src, dst, length) + UdpHeader(length, 0) + dns);
    HeaderFields(src, dst, length, Sent(ck), dns);
    assert f[|head|..|head| + |d|] == d;
    SliceOf(f, |head|, d, 42, 44);
    SliceOf(f, |head|, d, 48, |d|);
    SliceOf(f, |head|, d, 6, 7);
  }

  lemma WrapHeader(mac: seq<byte>, payload: seq<byte>, seqNo: nat)
    requires |mac| == 6 && seqNo < 0x1_0000 && 16 + |payload| < 0x1_0000
    ensures var f := GROUP_MAC + mac + BE16(16 + |payload|) + SnapHeader(seqNo) + payload;
            && EtherType(f) == 16 + |payload| && f[6..12] == mac
            && f[14..17] == [0xaa, 0xaa, 0x03] && f[17..22] == APPLE_OUI + AWDL_PROTO && f[28..30] == ETH_P_IPV6
            && f[20] == 0x08
  {
    var f := GROUP_MAC + mac + BE16(16 + |payload|) + SnapHeader(seqNo) + payload;
    var h := SnapHeader(seqNo);
    assert f[12..14] == BE16(16 + |payload|);
    assert f[14..30] == h;
    assert h[..3] == [0xaa, 0xaa, 0x03] && h[3..8] == APPLE_OUI + AWDL_PROTO && h[14..16] == ETH_P_IPV6;
    SliceOf(f, 14, h, 0, 3);
    SliceOf(f, 14, h, 3, 8);
    SliceOf(f, 14, h, 14, 16);
    SliceOf(f, 14, h, 6, 7);
  }

  // A plain frame is always understood.
  lemma PlainRecovered(mac: seq<byte>, src: seq<byte>, dst: seq<byte>, dns: seq<byte>, seqNo: nat)
    requires |mac| == 6 && |src| == 16 && |dst| == 16 && 8 + |dns| < 0x1_0000
    ensures var f := Wrap(mac, Datagram(src, dst, dns), seqNo, false);
            f.Some? && Received(f.value) == Some((mac, dns))
  {
    hide Datagram, CarriesMdns;
    var head := GROUP_MAC + mac + ETH_P_IPV6;
    DatagramCarriesMdns(head, src, dst, dns);
    var f := head + Datagram(src, dst, dns);
    assert f[12..14] == ETH_P_IPV6 && f[6..12] == mac;
  }

  // A SNAP frame is understood exactly when its length is one an 802.3 length field may hold;
  // above that the receiver takes the length for a type and drops the frame.
  lemma SnapRecovered(mac: seq<byte>, src: seq<byte>, dst: seq<byte>, dns: seq<byte>, seqNo: nat)
    requires |mac| == 6 && |src| == 16 && |dst| == 16 && 64 + |dns| < 0x1_0000 && seqNo < 0x1_0000
    ensures var f := Wrap(mac, Datagram(src, dst, dns), seqNo, true);
            f.Some? && Received(f.value) == if 64 + |dns| <= 1500 then Some((mac, dns)) else None
  {
    hide Datagram, SnapHeader, EtherType;
    var d := Datagram(src, dst, dns);
    var head := GROUP_MAC + mac + BE16(16 + |d|) + SnapHeader(seqNo);
    WrapHeader(mac, d, seqNo);
    DatagramCarriesMdns(head, src, dst, dns);
    assert |head| == 30;
  }
}

module MdnsFrames {
  import opened Bytes
  import opened Wrappers
  import opened ChecksumSpec
  import opened MdnsFrameSpec

  method MdnsPayload(frame: seq<byte>) returns (r: Option<(seq<byte>, seq<byte>)>)
    ensures r == Received(frame)
  {
    if |frame| < 14 {
      return None;
    }
    var src := Slice(frame, 6, 12);
    var etype := FromBE16(frame[12..14]);
    var off := 14;
    if etype == 0x86dd {
    } else if etype <= 1500 && Slice(frame, 14, 17) == [0xaa, 0xaa, 0x03] {
      if Slice(frame, 17, 22) != APPLE_OUI + AWDL_PROTO || Slice(frame, 28, 30) != ETH_P_IPV6 {
        return None;
      }
      off := 30;
    } else {
      return None;
    }
    var ip6 := Slice(frame, off, off + 40);
    if |ip6| < 40 || ip6[6] != 17 {
      return None;
    }
    var udp := Slice(frame, off + 40, off + 48);
    if |frame| >= off + 48 {
      SliceOf(frame, off + 40, udp, 2, 4);
    }
    if |udp| < 8 || FromBE16(udp[2..4]) != MDNS_PORT {
      return None;
    }
    return Some((src, frame[off + 48..]));
  }
}
