// The announcement datagrams of awdl-airdrop-adv.py and the frames awdl-mdns-respond.py
// accepts: the UDP checksum over IPv6, and Apple's SNAP encapsulation.

module ChecksumSpec {
  import opened Arithmetic
  import opened Bytes

  // RFC 1071: an odd byte at the end is followed by a zero.
  function Padded(data: seq<byte>): (p: seq<byte>)
    ensures |p| % 2 == 0
  {
    if |data| % 2 == 1 then data + [0] else data
  }

  function Word(b: seq<byte>): (w: nat)
    requires |b| >= 2
    ensures w < 0x1_0000
  {
    FromBE16(b[..2])
  }

  // The plain sum of the big-endian words.
  function WordSum(b: seq<byte>): nat
    requires |b| % 2 == 0
  {
    if b == [] then 0 else Word(b) + WordSum(b[2..])
  }

  // Ones'-complement addition: the carry goes around (RFC 1071, section 1).
  function OnesAdd(a: nat, b: nat): (c: nat)
    requires a < 0x1_0000 && b < 0x1_0000
    ensures c < 0x1_0000
  {
    if a + b < 0x1_0000 then a + b else a + b - 0x1_0000 + 1
  }

  function OnesSumFrom(acc: nat, b: seq<byte>): (s: nat)
    requires acc < 0x1_0000 && |b| % 2 == 0
    ensures s < 0x1_0000
    decreases |b|
  {
    if b == [] then acc else OnesSumFrom(OnesAdd(acc, Word(b)), b[2..])
  }

  function OnesSum(data: seq<byte>): (s: nat)
    ensures s < 0x1_0000
  {
    OnesSumFrom(0, Padded(data))
  }

  // The 16-bit representative of a sum modulo 0xffff: zero only for zero.
  function Folded(s: nat): (f: nat)
    ensures f < 0x1_0000
  {
    if s == 0 then 0 else (s - 1) % 0xffff + 1
  }

  // Adding the high half to the low half keeps the representative.
  lemma FoldStep(s: nat)
    ensures Folded(s % 0x1_0000 + s / 0x1_0000) == Folded(s)
  {
    var hi := s / 0x1_0000;
    var t := s % 0x1_0000 + hi;
    assert s == t + hi * 0xffff;
    if s > 0 {
      DivModUnique(s - 1, 0xffff, (t - 1) / 0xffff + hi, (t - 1) % 0xffff);
    }
  }

  lemma FoldedAdd(a: nat, w: nat)
    requires w < 0x1_0000
    ensures OnesAdd(Folded(a), w) == Folded(a + w)
  {
  }

  // Adding with the carry going around is adding first and folding afterwards.
  lemma {:induction false} OnesSumIsFolded(a: nat, b: seq<byte>)
    requires |b| % 2 == 0
    ensures OnesSumFrom(Folded(a), b) == Folded(a + WordSum(b))
    decreases |b|
  {
    if b != [] {
      FoldedAdd(a, Word(b));
      OnesSumIsFolded(a + Word(b), b[2..]);
    }
  }

  lemma {:induction false} WordSumConcat(a: seq<byte>, b: seq<byte>)
    requires |a| % 2 == 0 && |b| % 2 == 0
    ensures WordSum(a + b) == WordSum(a) + WordSum(b)
    decreases |a|
  {
    if a == [] {
      assert a + b == b;
    } else {
      assert (a + b)[2..] == a[2..] + b && (a + b)[..2] == a[..2];
      WordSumConcat(a[2..], b);
    }
  }

  // What csum16 returns.
  function Checksum(data: seq<byte>): (ck: nat)
    ensures ck < 0x1_0000
  {
    0xffff - OnesSum(data)
  }

  // ---- the datagram ----

  const MDNS_PORT: nat := 5353

  function BE32(x: nat): (b: seq<byte>)
    requires x < 0x1_0000_0000
    ensures |b| == 4
  {
    BE16(x / 0x1_0000) + BE16(x % 0x1_0000)
  }

  // The pseudo-header of section 8.1 of RFC 8200.
  function Pseudo(src: seq<byte>, dst: seq<byte>, length: nat): (p: seq<byte>)
    requires |src| == 16 && |dst| == 16 && length < 0x1_0000_0000
    ensures |p| == 40
  {
    src + dst + BE32(length) + [0, 0, 0, 17]
  }

  function UdpHeader(length: nat, ck: nat): (h: seq<byte>)
    requires length < 0x1_0000 && ck < 0x1_0000
    ensures |h| == 8
  {
    BE16(MDNS_PORT) + BE16(MDNS_PORT) + BE16(length) + BE16(ck)
  }

  function Ip6Header(src: seq<byte>, dst: seq<byte>, length: nat): (h: seq<byte>)
    requires |src| == 16 && |dst| == 16 && length < 0x1_0000
    ensures |h| == 40 && h[6] == 17 && h[8..24] == src && h[24..40] == dst
  {
    [0x60, 0, 0, 0] + BE16(length) + [17, 255] + src + dst
  }

  // What a receiver does (section 8.1 of RFC 8200): add up the pseudo-header it can see and
  // the whole datagram; a checksum of zero is refused.
  predicate Verifies(packet: seq<byte>) {
    && |packet| >= 48
    && packet[46..48] != [0, 0]
    && OnesSum(Pseudo(packet[8..24], packet[24..40], (|packet| - 40) % 0x1_0000_0000) + packet[40..]) == 0xffff
  }

  function Sent(ck: nat): nat {
    if ck == 0 then 0xffff else ck
  }

  // udp6's result, for a payload that fits the length field.
  function Datagram(src: seq<byte>, dst: seq<byte>, payload: seq<byte>): (p: seq<byte>)
    requires |src| == 16 && |dst| == 16 && 8 + |payload| < 0x1_0000
    ensures |p| == 48 + |payload| && p[48..] == payload && p[6] == 17
  {
    var length := 8 + |payload|;
    var ck := Checksum(Pseudo(src, dst, length) + UdpHeader(length, 0) + payload);
    Ip6Header(src, dst, length) + UdpHeader(length, Sent(ck)) + payload
  }

  // The sum over everything, as it depends on the checksum field.
  lemma DatagramSum(pseudo: seq<byte>, length: nat, ck: nat, payload: seq<byte>)
    requires |pseudo| == 40 && length < 0x1_0000 && ck < 0x1_0000
    ensures OnesSum(pseudo + UdpHeader(length, ck) + payload)
         == Folded(WordSum(pseudo + UdpHeader(length, 0)) + WordSum(Padded(payload)) + ck)
  {
    var head := BE16(MDNS_PORT) + BE16(MDNS_PORT) + BE16(length);
    var all := pseudo + UdpHeader(length, ck);
    assert all == (pseudo + head) + BE16(ck);
    assert pseudo + UdpHeader(length, 0) == (pseudo + head) + BE16(0);
    WordSumConcat(pseudo + head, BE16(ck));
    WordSumConcat(pseudo + head, BE16(0));
    OneWord(ck);
    OneWord(0);
    OnesSumAfter(all, payload);
  }

  lemma OnesSumAfter(a: seq<byte>, b: seq<byte>)
    requires |a| % 2 == 0
    ensures OnesSum(a + b) == Folded(WordSum(a) + WordSum(Padded(b)))
  {
    hide WordSum, OnesSumFrom, Padded;
    PaddedAfter(a, b);
    WordSumConcat(a, Padded(b));
    OnesSumIsFolded(0, a + Padded(b));
  }

  lemma PaddedAfter(a: seq<byte>, b: seq<byte>)
    requires |a| % 2 == 0
    ensures Padded(a + b) == a + Padded(b)
  {
  }

  lemma OneWord(x: nat)
    requires x < 0x1_0000
    ensures WordSum(BE16(x)) == x
  {
    var b := BE16(x);
    assert b[..2] == b && b[2..] == [];
    assert WordSum(b[2..]) == 0;
  }

  lemma ComplementAdds(s: nat)
    requires s > 0
    ensures Folded(s + Sent(0xffff - Folded(s))) == 0xffff
  {
    var f := Folded(s);
    assert s == f + 0xffff * ((s - 1) / 0xffff);
  }

  // The pseudo-header alone is not all zeros.
  lemma PseudoSum(src: seq<byte>, dst: seq<byte>, length: nat, rest: seq<byte>)
    requires |src| == 16 && |dst| == 16 && length < 0x1_0000_0000 && |rest| % 2 == 0
    ensures WordSum(Pseudo(src, dst, length) + rest) > 0
  {
    var p := Pseudo(src, dst, length);
    assert p == p[..38] + [0, 17];
    WordSumConcat(p[..38], [0, 17]);
    assert BE16(17) == [0, 17];
    OneWord(17);
    WordSumConcat(p, rest);
  }

  // Every datagram verifies at the receiver, whatever the payload's length and parity,
  // including the one whose checksum comes out as zero.
  lemma DatagramVerifies(src: seq<byte>, dst: seq<byte>, payload: seq<byte>)
    requires |src| == 16 && |dst| == 16 && 8 + |payload| < 0x1_0000
    ensures Verifies(Datagram(src, dst, payload))
  {
    hide *;
    var length := 8 + |payload|;
    var pseudo := Pseudo(src, dst, length);
    var ck := Checksum(pseudo + UdpHeader(length, 0) + payload);
    SentSum(src, dst, length, payload);
    HeaderFields(src, dst, length, Sent(ck), payload);
    DatagramParts(src, dst, payload);
    ConcatAssoc(pseudo, UdpHeader(length, Sent(ck)), payload);
    Verified(Datagram(src, dst, payload), src, dst, UdpHeader(length, Sent(ck)) + payload);
  }

  // A UDP over IPv6 packet whose two length fields agree with what is there, between the mDNS
  // ports and with the hop limit mDNS asks for (section 11 of RFC 6762).
  predicate WellFormed(packet: seq<byte>, src: seq<byte>, dst: seq<byte>, payload: seq<byte>) {
    && |packet| >= 48 && packet[0] == 0x60 && packet[6] == 17 && packet[7] == 255
    && FromBE16(packet[4..6]) == |packet| - 40 && packet[8..24] == src && packet[24..40] == dst
    && FromBE16(packet[40..42]) == 5353 && FromBE16(packet[42..44]) == 5353
    && FromBE16(packet[44..46]) == |packet| - 40 && packet[48..] == payload
  }

  lemma DatagramWellFormed(src: seq<byte>, dst: seq<byte>, payload: seq<byte>)
    requires |src| == 16 && |dst| == 16 && 8 + |payload| < 0x1_0000
    ensures WellFormed(Datagram(src, dst, payload), src, dst, payload)
  {
    var length := 8 + |payload|;
    DatagramParts(src, dst, payload);
    hide Checksum, Pseudo;
    var ck := Checksum(Pseudo(src, dst, length) + UdpHeader(length, 0) + payload);
    var d, ip := Datagram(src, dst, payload), Ip6Header(src, dst, length);
    HeaderFields(src, dst, length, Sent(ck), payload);
    assert d[4..6] == BE16(length);
    assert d[40..42] == BE16(MDNS_PORT);
  }

  // With the checksum in its field the sum is all ones.
  lemma SentSum(src: seq<byte>, dst: seq<byte>, length: nat, payload: seq<byte>)
    requires |src| == 16 && |dst| == 16 && length < 0x1_0000
    ensures var p := Pseudo(src, dst, length);
            var ck := Checksum(p + UdpHeader(length, 0) + payload);
            0 < Sent(ck) < 0x1_0000 && OnesSum(p + UdpHeader(length, Sent(ck)) + payload) == 0xffff
  {
    hide WordSum, OnesSum, Folded, Pseudo, UdpHeader;
    var p := Pseudo(src, dst, length);
    var s := WordSum(p + UdpHeader(length, 0)) + WordSum(Padded(payload));
    DatagramSum(p, length, 0, payload);
    PseudoSum(src, dst, length, UdpHeader(length, 0));
    ComplementAdds(s);
    DatagramSum(p, length, Sent(0xffff - Folded(s)), payload);
  }

  lemma DatagramParts(src: seq<byte>, dst: seq<byte>, payload: seq<byte>)
    requires |src| == 16 && |dst| == 16 && 8 + |payload| < 0x1_0000
    ensures var length := 8 + |payload|;
            var h := UdpHeader(length, Sent(Checksum(Pseudo(src, dst, length) + UdpHeader(length, 0) + payload)));
            && Datagram(src, dst, payload) == Ip6Header(src, dst, length) + h + payload
            && Datagram(src, dst, payload)[40..] == h + payload
  {
    hide UdpHeader, Ip6Header, Checksum, Pseudo;
    var length := 8 + |payload|;
    var h := UdpHeader(length, Sent(Checksum(Pseudo(src, dst, length) + UdpHeader(length, 0) + payload)));
    ConcatAssoc(Ip6Header(src, dst, length), h, payload);
  }

  lemma Verified(d: seq<byte>, src: seq<byte>, dst: seq<byte>, udp: seq<byte>)
    requires |d| >= 48 && |src| == 16 && |dst| == 16 && d[8..24] == src && d[24..40] == dst && d[40..] == udp
    requires d[46..48] != [0, 0] && |udp| < 0x1_0000_0000 && OnesSum(Pseudo(src, dst, |udp|) + udp) == 0xffff
    ensures Verifies(d)
  {
    hide OnesSum, Pseudo;
  }

  lemma HeaderFields(src: seq<byte>, dst: seq<byte>, length: nat, ck: nat, payload: seq<byte>)
    requires |src| == 16 && |dst| == 16 && length < 0x1_0000 && 0 < ck < 0x1_0000
    ensures var d := Ip6Header(src, dst, length) + UdpHeader(length, ck) + payload;
            && d[8..24] == src && d[24..40] == dst && d[46..48] == BE16(ck) && d[46..48] != [0, 0]
            && d[42..44] == BE16(MDNS_PORT) && d[44..46] == BE16(length)
  {
    var d := Ip6Header(src, dst, length) + UdpHeader(length, ck) + payload;
    assert d[8..24] == Ip6Header(src, dst, length)[8..24];
    assert d[24..40] == Ip6Header(src, dst, length)[24..40];
    assert BE16(ck) != [0, 0];
  }

  // Changing one word of a datagram that verifies leaves one that does not, unless an all
  // zeros word became all ones or the other way round: the two zeros of ones' complement.
  lemma OneWordChanged(a: seq<byte>, w: nat, w': nat, b: seq<byte>)
    requires |a| % 2 == 0 && w < 0x1_0000 && w' < 0x1_0000 && w != w'
    requires OnesSum(a + BE16(w) + b) == 0xffff
    requires WordSum(a) + WordSum(Padded(b)) > 0
    ensures OnesSum(a + BE16(w') + b) == 0xffff <==> {w, w'} == {0, 0xffff}
  {
    hide OnesSum, WordSum;
    var rest := WordSum(a) + WordSum(Padded(b));
    SplitSum(a, w, b);
    SplitSum(a, w', b);
    SameFold(rest, w, w');
  }

  lemma SplitSum(a: seq<byte>, w: nat, b: seq<byte>)
    requires |a| % 2 == 0 && w < 0x1_0000
    ensures OnesSum(a + BE16(w) + b) == Folded(WordSum(a) + WordSum(Padded(b)) + w)
  {
    hide WordSum, OnesSum, Folded, Padded;
    OnesSumAfter(a + BE16(w), b);
    WordSumConcat(a, BE16(w));
    OneWord(w);
  }

  lemma SameFold(rest: nat, w: nat, w': nat)
    requires rest > 0 && w < 0x1_0000 && w' < 0x1_0000 && w != w'
    requires Folded(rest + w) == 0xffff
    ensures Folded(rest + w') == 0xffff <==> (w == 0 && w' == 0xffff) || (w == 0xffff && w' == 0)
    ensures {w, w'} == {0, 0xffff} <==> (w == 0 && w' == 0xffff) || (w == 0xffff && w' == 0)
  {
    assert {w, w'} == {0, 0xffff} ==> w in {0, 0xffff} && w' in {0, 0xffff};
  }
}

module Checksum {
  import opened Bytes
  import opened Wrappers
  import opened ChecksumSpec

  method Csum16(data: seq<byte>) returns (ck: nat)
    ensures ck == Checksum(data)
  {
    var padded := data;
    if |data| % 2 != 0 {
      padded := padded + [0];
    }
    var s := WordSum(padded);
    OnesSumIsFolded(0, padded);
    while s / 0x1_0000 != 0
      invariant s >= 0 && Folded(s) == OnesSum(data)
      decreases s
    {
      FoldStep(s);
      s := s % 0x1_0000 + s / 0x1_0000;
    }
    ck := 0xffff - s;
  }

  // None where packing the length fails.
  method Udp6(src: seq<byte>, dst: seq<byte>, payload: seq<byte>) returns (r: Option<seq<byte>>)
    requires |src| == 16 && |dst| == 16
    ensures r.Some? <==> |payload| <= 65527
    ensures r.Some? ==> r.value == Datagram(src, dst, payload)
    ensures r.Some? ==> Verifies(r.value) && WellFormed(r.value, src, dst, payload)
  {
    hide Verifies, WellFormed, OnesSum, Pseudo, Ip6Header;
    var udpLen := 8 + |payload|;
    if udpLen >= 0x1_0000 {
      return None;
    }
    DatagramVerifies(src, dst, payload);
    DatagramWellFormed(src, dst, payload);
    var pseudo := Pseudo(src, dst, udpLen);
    assert pseudo + UdpHeader(udpLen, 0) + payload
        == pseudo + (BE16(MDNS_PORT) + BE16(MDNS_PORT) + BE16(udpLen)) + [0, 0] + payload;
    var ck := Csum16(pseudo + (BE16(MDNS_PORT) + BE16(MDNS_PORT) + BE16(udpLen)) + [0, 0] + payload);
    var udp := UdpHeader(udpLen, if ck != 0 then ck else 0xffff);
    return Some(Ip6Header(src, dst, udpLen) + udp + payload);
  }
}
