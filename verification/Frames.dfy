/** Ethernet frames that carry IPv6 with UDP or ICMPv6: how the senders lay
    them out and what the receiver makes of them
    (net/ip6.c, net/udp6.c, net/icmp6.c, net/eth.c). */
module Frames {
  import opened Words
  import opened Checksum

  const ETH_MTU: nat := 1514
  const UDP: byte := 17
  const ICMP6: byte := 58
  const NETBOOT_PORT: u16 := 57777
  /** What fits behind the headers in a 2 KiB slot whose first word is the link. */
  const MAX_PAYLOAD: nat := 1978

  type Mac = s: seq<byte> | |s| == 6 witness [0, 0, 0, 0, 0, 0]
  type Ip6 = s: seq<byte> | |s| == 16 witness [0, 0, 0, 0, 0, 0, 0, 0, 0, 0, 0, 0, 0, 0, 0, 0]

  const ALL_NODES: Ip6 := [0xFF, 0x02, 0, 0, 0, 0, 0, 0, 0, 0, 0, 0, 0, 0, 0, 1]

  /** htons, then a 16-bit store: network byte order. */
  function Big16(w: u16): (b: seq<byte>)
    ensures |b| == 2
  {
    [w / 256, w % 256]
  }

  /** A 16-bit store as it is. */
  function Little16(w: u16): seq<byte> { [w % 256, w / 256] }

  /** What net_ip6_packet_setup writes. */
  function Header(toMac: Mac, fromMac: Mac, from: Ip6, to: Ip6, length: u16, next: byte): (h: seq<byte>)
    ensures |h| == 54
  {
    toMac + fromMac + [0x86, 0xDD] + [0x60, 0, 0, 0] + Big16(length) + [next, 255] + from + to
  }

  lemma HeaderFields(toMac: Mac, fromMac: Mac, from: Ip6, to: Ip6, length: u16, next: byte, rest: seq<byte>)
    ensures var f := Header(toMac, fromMac, from, to, length, next) + rest;
      && f[..6] == toMac && f[6..12] == fromMac && f[12] == 0x86 && f[13] == 0xDD && f[14] == 0x60
      && f[18..20] == Big16(length) && f[20] == next && f[21] == 255
      && f[22..38] == from && f[38..54] == to && f[54..] == rest
  {
  }

  // ------------------------------------------------------------------ checksums

  /** The bytes net_ip6_checksum sums for n bytes of upper-layer data: the
      length field, both addresses and the data. */
  function Summed(frame: seq<byte>, n: nat): seq<byte>
    requires 54 + n <= |frame|
  {
    frame[18..20] + frame[22..54 + n]
  }

  /** net_ip6_checksum */
  method NetChecksum(frame: seq<byte>, next: byte, n: u16) returns (r: u16)
    requires 54 + n <= |frame|
    ensures r == 0xFFFF - OnesSum(Summed(frame, n), Swap16(next))
  {
    var sum := Compute(frame[18..20], Swap16(next));
    Chain(frame[18..20], frame[22..54 + n], Swap16(next));
    sum := Compute(frame[22..54 + n], sum);
    r := 0xFFFF - sum;
  }

  function CodeChecksum(frame: seq<byte>, next: byte, n: nat): u16
    requires 54 + n <= |frame|
  {
    0xFFFF - OnesSum(Summed(frame, n), Swap16(next))
  }

  /** The big-endian sum of RFC 1071, an odd last byte padded on the right. */
  function NetworkTotal(data: seq<byte>): nat {
    if |data| == 0 then 0
    else if |data| == 1 then 256 * data[0]
    else 256 * data[0] + data[1] + NetworkTotal(data[2..])
  }

  /** The 40-byte pseudo-header of section 8.1 of RFC 8200. */
  function PseudoHeader(from: Ip6, to: Ip6, length: u16, next: byte): (h: seq<byte>)
    ensures |h| == 40
  {
    from + to + ([0, 0] + Big16(length)) + [0, 0, 0, next]
  }

  function RfcChecksum(from: Ip6, to: Ip6, next: byte, upper: seq<byte>): u16
    requires |upper| < 0x1_0000
  {
    0xFFFF - Fold(NetworkTotal(PseudoHeader(from, to, |upper|, next) + upper))
  }

  lemma {:induction false} NetworkIsSwapped(data: seq<byte>)
    ensures NetworkTotal(data) == Total(SwapWords(data), 0)
    decreases |data|
  {
    if |data| == 1 {
      assert SwapWords(data)[2..] == [];
    } else if |data| > 1 {
      NetworkIsSwapped(data[2..]);
      assert SwapWords(data)[2..] == SwapWords(data[2..]);
      TotalSeed(SwapWords(data[2..]), Word16(data[1], data[0]));
    }
  }

  /** The code's sum and the RFC's run over the same words. */
  lemma SameWords(from: Ip6, to: Ip6, length: u16, next: byte, upper: seq<byte>)
    ensures Total(Big16(length) + (from + to + upper), Swap16(next))
         == Total(PseudoHeader(from, to, length, next) + upper, 0)
  {
    hide Total;
    var len, addr := Big16(length), from + to;
    assert len + (from + to + upper) == len + (addr + upper);
    TotalConcat(len, addr + upper, Swap16(next));
    TotalConcat(addr, upper, Total(len, Swap16(next)));
    TotalSeed(addr, Total(len, Swap16(next)));
    var tail := [0, 0] + len + [0, 0, 0, next];
    assert PseudoHeader(from, to, length, next) + upper == addr + (tail + upper);
    TotalConcat(addr, tail + upper, 0);
    TotalConcat(tail, upper, Total(addr, 0));
    TotalSeed(upper, Total(addr, Total(len, Swap16(next))));
    TotalSeed(upper, Total(tail, Total(addr, 0)));
    TotalSeed(tail, Total(addr, 0));
    TailTotal(len, next);
  }

  lemma TailTotal(len: seq<byte>, next: byte)
    requires |len| == 2
    ensures Total([0, 0] + len + [0, 0, 0, next], 0) == Total(len, Swap16(next))
  {
    hide Total;
    var rest := [0, 0, 0, next];
    assert [0, 0] + len + rest == [0, 0] + (len + rest);
    assert rest == [0, 0] + [0, next];
    TotalConcat([0, 0], len + rest, 0);
    TotalOfTwo(0, 0, 0);
    TotalConcat(len, rest, 0);
    TotalSeed(rest, Total(len, 0));
    TotalConcat([0, 0], [0, next], 0);
    TotalOfTwo(0, next, 0);
    TotalSeed(len, Swap16(next));
  }

  lemma SwapComplement(x: u16)
    ensures Swap16(0xFFFF - x) == 0xFFFF - Swap16(x)
  {
  }

  /** The stored checksum, read in network order, is the RFC's. */
  lemma ChecksumIsRfc(toMac: Mac, fromMac: Mac, from: Ip6, to: Ip6, next: byte, upper: seq<byte>)
    requires |upper| < 0x1_0000
    ensures var f := Header(toMac, fromMac, from, to, |upper|, next) + upper;
      Swap16(CodeChecksum(f, next, |upper|)) == RfcChecksum(from, to, next, upper)
  {
    var f := Header(toMac, fromMac, from, to, |upper|, next) + upper;
    HeaderFields(toMac, fromMac, from, to, |upper|, next, upper);
    assert f[22..54 + |upper|] == from + to + upper;
    var r := PseudoHeader(from, to, |upper|, next) + upper;
    SameWords(from, to, |upper|, next, upper);
    ByteOrder(r, 0);
    NetworkIsSwapped(r);
    SwapComplement(OnesSum(r, 0));
  }

  /** Writes a 16-bit value into s, as far as s reaches. */
  function Patch(s: seq<byte>, at: nat, w: u16): (r: seq<byte>)
    ensures |r| == |s|
  {
    seq(|s|, i requires 0 <= i < |s| => if i == at then w % 256 else if i == at + 1 then w / 256 else s[i])
  }

  /** A word patched in over zero adds its value to the sum. */
  lemma {:induction false} PatchTotal(data: seq<byte>, at: nat, w: u16, seed: nat)
    requires at % 2 == 0 && at + 2 <= |data| && data[at] == 0 && data[at + 1] == 0
    ensures Total(Patch(data, at, w), seed) == Total(data, seed) + w
    decreases |data|
  {
    var p := Patch(data, at, w);
    if at == 0 {
      assert p[2..] == data[2..];
      TotalSeed(data[2..], seed + w);
      TotalSeed(data[2..], seed);
      assert Word16(p[0], p[1]) == w;
    } else {
      assert p[2..] == Patch(data[2..], at - 2, w);
      PatchTotal(data[2..], at - 2, w, seed + Word16(data[0], data[1]));
    }
  }

  /** Putting the complement of the sum in makes the packet verify. */
  lemma Complement(total: nat)
    ensures Fold(total + (0xFFFF - Fold(total))) == 0xFFFF
  {
    FoldAdd(total, 0xFFFF - Fold(total));
  }

  lemma PatchedVerifies(frame: seq<byte>, next: byte, n: nat, at: nat)
    requires 54 + n == |frame| && 54 <= at && at % 2 == 0 && at + 2 <= |frame| && frame[at] == 0 && frame[at + 1] == 0
    ensures CodeChecksum(Patch(frame, at, CodeChecksum(frame, next, n)), next, n) == 0
  {
    var c := CodeChecksum(frame, next, n);
    var f := Patch(frame, at, c);
    assert Summed(f, n) == Patch(Summed(frame, n), at - 20, c);
    PatchTotal(Summed(frame, n), at - 20, c, Swap16(next));
    Complement(Total(Summed(frame, n), Swap16(next)));
  }

  // ------------------------------------------------------------------ the senders' frames

  function UdpUpper(sport: u16, dport: u16, payload: seq<byte>): (u: seq<byte>)
    requires |payload| <= MAX_PAYLOAD
    ensures |u| == 8 + |payload|
  {
    Big16(sport) + Big16(dport) + Big16(|payload| + 8) + [0, 0] + payload
  }

  /** The frame net_udp6_send hands over. */
  function UdpFrame(toMac: Mac, fromMac: Mac, from: Ip6, to: Ip6, sport: u16, dport: u16, payload: seq<byte>): (f: seq<byte>)
    requires |payload| <= MAX_PAYLOAD
    ensures |f| == 62 + |payload|
  {
    var f := Header(toMac, fromMac, from, to, |payload| + 8, UDP) + UdpUpper(sport, dport, payload);
    Patch(f, 60, CodeChecksum(f, UDP, |payload| + 8))
  }

  /** The frame net_icmp6_send hands over. */
  function IcmpFrame(toMac: Mac, fromMac: Mac, from: Ip6, to: Ip6, data: seq<byte>): (f: seq<byte>)
    requires |data| <= 1460
    ensures |f| == 54 + |data|
  {
    var f := Header(toMac, fromMac, from, to, |data|, ICMP6) + data;
    Patch(f, 56, CodeChecksum(f, ICMP6, |data|))
  }

  /** The field that section 8.1 of RFC 8200 demands of UDP: a computed checksum
      of zero is sent as 0xFFFF. */
  function UdpField(from: Ip6, to: Ip6, upper: seq<byte>): u16
    requires |upper| < 0x1_0000
  {
    var c := RfcChecksum(from, to, UDP, upper);
    if c == 0 then 0xFFFF else c
  }

  /** Every UDP frame verifies. Its field is the one's complement of the RFC's sum,
      and it is the field the RFC demands exactly when that sum is no multiple of
      65535: the code sends zero where 0xFFFF is due. */
  lemma UdpVerifies(toMac: Mac, fromMac: Mac, from: Ip6, to: Ip6, sport: u16, dport: u16, payload: seq<byte>)
    requires |payload| <= MAX_PAYLOAD
    ensures var f := UdpFrame(toMac, fromMac, from, to, sport, dport, payload);
      var upper := UdpUpper(sport, dport, payload);
      && CodeChecksum(f, UDP, |payload| + 8) == 0
      && f[60..62] == Big16(RfcChecksum(from, to, UDP, upper))
      && (f[60..62] == Big16(UdpField(from, to, upper)) <==>
            NetworkTotal(PseudoHeader(from, to, |payload| + 8, UDP) + upper) % 65535 != 0)
      && (f[60..62] == [0, 0] <==>
            NetworkTotal(PseudoHeader(from, to, |payload| + 8, UDP) + upper) % 65535 == 0)
  {
    hide Total, NetworkTotal, Fold, Patch, PseudoHeader, Header;
    var n := |payload| + 8;
    var upper := UdpUpper(sport, dport, payload);
    var f := Header(toMac, fromMac, from, to, n, UDP) + upper;
    HeaderFields(toMac, fromMac, from, to, n, UDP, upper);
    PatchedVerifies(f, UDP, n, 60);
    ChecksumIsRfc(toMac, fromMac, from, to, UDP, upper);
    StoredSwapped(f, 60, CodeChecksum(f, UDP, n));
    UdpTotal(from, to, sport, dport, payload);
    FoldAllOnes(NetworkTotal(PseudoHeader(from, to, n, UDP) + upper));
    BigZero(RfcChecksum(from, to, UDP, upper));
  }

  lemma BigZero(w: u16)
    ensures Big16(w) == [0, 0] <==> w == 0
    ensures w == 0 ==> Big16(w) != Big16(0xFFFF)
  {
    assert Big16(0xFFFF)[0] == 255;
    if Big16(w) == [0, 0] { assert Big16(w)[0] == 0 && Big16(w)[1] == 0; }
  }

  lemma {:induction false} NetworkConcat(a: seq<byte>, b: seq<byte>)
    requires |a| % 2 == 0
    ensures NetworkTotal(a + b) == NetworkTotal(a) + NetworkTotal(b)
    decreases |a|
  {
    if |a| == 0 {
      assert a + b == b;
    } else {
      assert (a + b)[2..] == a[2..] + b;
      NetworkConcat(a[2..], b);
    }
  }

  lemma NetworkOfTwo(hi: byte, lo: byte)
    ensures NetworkTotal([hi, lo]) == 256 * hi + lo
  {
    assert [hi, lo][2..] == [];
  }

  lemma NetworkBig(w: u16)
    ensures NetworkTotal(Big16(w)) == w
  {
    hide NetworkTotal;
    NetworkOfTwo(w / 256, w % 256);
  }

  lemma PseudoTotal(from: Ip6, to: Ip6, length: u16, next: byte)
    ensures NetworkTotal(PseudoHeader(from, to, length, next)) == NetworkTotal(from) + NetworkTotal(to) + length + next
  {
    hide NetworkTotal, Big16;
    var len := Big16(length);
    NetworkConcat(from + to + ([0, 0] + len), [0, 0, 0, next]);
    NetworkConcat(from + to, [0, 0] + len);
    NetworkConcat(from, to);
    NetworkConcat([0, 0], len);
    NetworkBig(length);
    NetworkOfTwo(0, 0);
    assert [0, 0, 0, next] == [0, 0] + [0, next];
    NetworkConcat([0, 0], [0, next]);
    NetworkOfTwo(0, next);
  }

  lemma UpperTotal(sport: u16, dport: u16, payload: seq<byte>)
    requires |payload| <= MAX_PAYLOAD
    ensures NetworkTotal(UdpUpper(sport, dport, payload)) == sport + dport + |payload| + 8 + NetworkTotal(payload)
  {
    hide NetworkTotal, Big16;
    NetworkFive(Big16(sport), Big16(dport), Big16(|payload| + 8), [0, 0], payload);
    NetworkBig(|payload| + 8);
    NetworkBig(sport);
    NetworkBig(dport);
    NetworkOfTwo(0, 0);
  }

  lemma NetworkFive(a: seq<byte>, b: seq<byte>, c: seq<byte>, d: seq<byte>, e: seq<byte>)
    requires |a| == 2 && |b| == 2 && |c| == 2 && |d| == 2
    ensures NetworkTotal(a + b + c + d + e)
      == NetworkTotal(a) + NetworkTotal(b) + NetworkTotal(c) + NetworkTotal(d) + NetworkTotal(e)
  {
    hide NetworkTotal;
    NetworkConcat(a, b);
    NetworkConcat(a + b, c);
    NetworkConcat(a + b + c, d);
    NetworkConcat(a + b + c + d, e);
  }

  /** The RFC's sum for a datagram, from what the caller passes. */
  lemma UdpTotal(from: Ip6, to: Ip6, sport: u16, dport: u16, payload: seq<byte>)
    requires |payload| <= MAX_PAYLOAD
    ensures NetworkTotal(PseudoHeader(from, to, |payload| + 8, UDP) + UdpUpper(sport, dport, payload))
      == NetworkTotal(from) + NetworkTotal(to) + 2 * (|payload| + 8) + 17 + sport + dport + NetworkTotal(payload)
  {
    hide NetworkTotal, PseudoHeader, UdpUpper;
    NetworkConcat(PseudoHeader(from, to, |payload| + 8, UDP), UdpUpper(sport, dport, payload));
    PseudoTotal(from, to, |payload| + 8, UDP);
    UpperTotal(sport, dport, payload);
  }

  /** The failing field is within reach between any two addresses and ports: one
      of the two-byte payloads brings it about. */
  lemma UdpZeroField(toMac: Mac, fromMac: Mac, from: Ip6, to: Ip6, sport: u16, dport: u16) returns (payload: seq<byte>)
    ensures |payload| == 2 && UdpFrame(toMac, fromMac, from, to, sport, dport, payload)[60..62] == [0, 0]
    ensures UdpField(from, to, UdpUpper(sport, dport, payload)) == 0xFFFF
  {
    hide NetworkTotal, UdpFrame, Big16, PseudoHeader, RfcChecksum;
    var rest := NetworkTotal(from) + NetworkTotal(to) + 37 + sport + dport;
    var w: u16 := if rest % 65535 == 0 then 0 else 65535 - rest % 65535;
    payload := Big16(w);
    NetworkBig(w);
    UdpTotal(from, to, sport, dport, payload);
    ToMultiple(rest, w);
    UdpVerifies(toMac, fromMac, from, to, sport, dport, payload);
    BigZero(RfcChecksum(from, to, UDP, UdpUpper(sport, dport, payload)));
  }

  lemma ToMultiple(x: nat, w: nat)
    requires w == if x % 65535 == 0 then 0 else 65535 - x % 65535
    ensures (x + w) % 65535 == 0
  {
    assert x + w == 65535 * (x / 65535 + (if x % 65535 == 0 then 0 else 1));
  }

  /** One such datagram: the two bytes 3E F0 from fe80::1, port 57777, to all
      nodes, port 57778. */
  lemma UdpZeroExample(toMac: Mac, fromMac: Mac)
    ensures var from := LinkLocal(1);
      && UdpFrame(toMac, fromMac, from, ALL_NODES, 57777, 57778, [0x3E, 0xF0])[60..62] == [0, 0]
      && UdpField(from, ALL_NODES, UdpUpper(57777, 57778, [0x3E, 0xF0])) == 0xFFFF
  {
    hide UdpFrame, Big16, PseudoHeader, RfcChecksum, NetworkTotal;
    var from := LinkLocal(1);
    AddressTotal(0xFE, 0x80);
    AddressTotal(0xFF, 0x02);
    NetworkOfTwo(0x3E, 0xF0);
    UdpTotal(from, ALL_NODES, 57777, 57778, [0x3E, 0xF0]);
    UdpVerifies(toMac, fromMac, from, ALL_NODES, 57777, 57778, [0x3E, 0xF0]);
    BigZero(RfcChecksum(from, ALL_NODES, UDP, UdpUpper(57777, 57778, [0x3E, 0xF0])));
  }

  /** An address whose only other byte is a final 1. */
  lemma AddressTotal(hi: byte, lo: byte)
    ensures NetworkTotal([hi, lo, 0, 0, 0, 0, 0, 0, 0, 0, 0, 0, 0, 0, 0, 1]) == 256 * hi + lo + 1
  {
    hide NetworkTotal;
    var z4 := [0, 0, 0, 0];
    var a := [hi, lo, 0, 0, 0, 0, 0, 0, 0, 0, 0, 0, 0, 0, 0, 1];
    assert a == [hi, lo] + (z4 + (z4 + (z4 + [0, 1])));
    NetworkOfTwo(0, 1);
    NetworkOfTwo(hi, lo);
    NetworkOfTwo(0, 0);
    assert z4 == [0, 0] + [0, 0];
    NetworkConcat([0, 0], [0, 0]);
    NetworkConcat(z4, [0, 1]);
    NetworkConcat(z4, z4 + [0, 1]);
    NetworkConcat(z4, z4 + (z4 + [0, 1]));
    NetworkConcat([hi, lo], z4 + (z4 + (z4 + [0, 1])));
  }

  lemma StoredSwapped(f: seq<byte>, at: nat, c: u16)
    requires at + 2 <= |f|
    ensures Patch(f, at, c)[at..at + 2] == Big16(Swap16(c))
  {
  }

  /** An ICMPv6 frame with a whole header verifies and carries the RFC's checksum. */
  lemma IcmpVerifies(toMac: Mac, fromMac: Mac, from: Ip6, to: Ip6, data: seq<byte>)
    requires 4 <= |data| <= 1460 && data[2] == 0 && data[3] == 0
    ensures var f := IcmpFrame(toMac, fromMac, from, to, data);
      && CodeChecksum(f, ICMP6, |data|) == 0
      && f[56..58] == Big16(RfcChecksum(from, to, ICMP6, data))
  {
    var f := Header(toMac, fromMac, from, to, |data|, ICMP6) + data;
    PatchedVerifies(f, ICMP6, |data|, 56);
    ChecksumIsRfc(toMac, fromMac, from, to, ICMP6, data);
    StoredSwapped(f, 56, CodeChecksum(f, ICMP6, |data|));
  }

  /** The code's sum over a frame before the checksum goes in. */
  function PreTotal(toMac: Mac, fromMac: Mac, from: Ip6, to: Ip6, next: byte, data: seq<byte>): nat
    requires |data| < 0x1_0000
  {
    Total(Summed(Header(toMac, fromMac, from, to, |data|, next) + data, |data|), Swap16(next))
  }

  /** The same from what the caller passes. */
  lemma PreTotalOf(toMac: Mac, fromMac: Mac, from: Ip6, to: Ip6, next: byte, data: seq<byte>)
    requires |data| < 0x1_0000
    ensures PreTotal(toMac, fromMac, from, to, next, data)
      == Swap16(next) + Swap16(|data|) + Total(from, 0) + Total(to, 0) + Total(data, 0)
  {
    hide Total, Header;
    var f := Header(toMac, fromMac, from, to, |data|, next) + data;
    HeaderFields(toMac, fromMac, from, to, |data|, next, data);
    var len := Big16(|data|);
    assert Summed(f, |data|) == len + (from + (to + data));
    TotalConcat(len, from + (to + data), Swap16(next));
    TotalOfTwo(len[0], len[1], Swap16(next));
    TotalSeed(from + (to + data), Total(len, Swap16(next)));
    TotalConcat(from, to + data, 0);
    TotalSeed(to + data, Total(from, 0));
    TotalConcat(to, data, 0);
    TotalSeed(data, Total(to, 0));
  }

  /** A reply of fewer than four bytes has no room for its checksum, which is
      written behind the frame. Without it, the frame verifies exactly when the
      bare sum is a multiple of 65535; with its first byte, when the sum falls
      into the last 256 values below one. */
  lemma ShortIcmp(toMac: Mac, fromMac: Mac, from: Ip6, to: Ip6, data: seq<byte>)
    requires |data| < 4 && (|data| == 3 ==> data[2] == 0)
    ensures var t := PreTotal(toMac, fromMac, from, to, ICMP6, data);
      CodeChecksum(IcmpFrame(toMac, fromMac, from, to, data), ICMP6, |data|) == 0 <==>
        t % 65535 == 0 || (|data| == 3 && t % 65535 >= 0xFF00)
  {
    hide Total, Fold, Header, Patch, Swap16;
    var pre := Header(toMac, fromMac, from, to, |data|, ICMP6) + data;
    var c := CodeChecksum(pre, ICMP6, |data|);
    PrePositive(toMac, fromMac, from, to, data);
    FoldAllOnes(PreTotal(toMac, fromMac, from, to, ICMP6, data));
    if |data| < 3 {
      PatchBehind(pre, 56, c);
    } else {
      HeaderFields(toMac, fromMac, from, to, 3, ICMP6, data);
      assert pre[56] == 0;
      HalfPatched(pre, c, Swap16(ICMP6));
      LowByte(PreTotal(toMac, fromMac, from, to, ICMP6, data));
    }
  }

  lemma PrePositive(toMac: Mac, fromMac: Mac, from: Ip6, to: Ip6, data: seq<byte>)
    requires |data| < 4
    ensures PreTotal(toMac, fromMac, from, to, ICMP6, data) > 0
  {
    hide Total, Header, PreTotal;
    PreTotalOf(toMac, fromMac, from, to, ICMP6, data);
  }

  lemma PatchBehind(s: seq<byte>, at: nat, w: u16)
    requires |s| <= at
    ensures Patch(s, at, w) == s
  {
  }

  /** Only the low byte of the checksum reaches a three-byte message. */
  lemma HalfPatched(pre: seq<byte>, c: u16, seed: nat)
    requires |pre| == 57 && pre[56] == 0
    ensures Total(Summed(Patch(pre, 56, c), 3), seed) == Total(Summed(pre, 3), seed) + c % 256
  {
    hide Total;
    var s := Summed(pre, 3);
    assert Summed(Patch(pre, 56, c), 3) == s[..36] + [c % 256];
    assert s == s[..36] + [0];
    TotalConcat(s[..36], [0], seed);
    TotalConcat(s[..36], [c % 256], seed);
    TotalOfOne(0, Total(s[..36], seed));
    TotalOfOne(c % 256, Total(s[..36], seed));
  }

  lemma TotalOfOne(b: byte, seed: nat)
    ensures Total([b], seed) == seed + b
  {
  }

  lemma LowByte(total: nat)
    requires total > 0
    ensures var sum := Fold(total); Fold(total + (0xFFFF - sum) % 256) == 0xFFFF <==> sum >= 0xFF00
  {
    hide Fold;
    var sum := Fold(total);
    FoldAdd(total, (0xFFFF - sum) % 256);
    FilledByte(sum);
    FoldSmall(sum + (0xFFFF - sum) % 256);
  }

  lemma FilledByte(sum: u16)
    ensures sum + (0xFFFF - sum) % 256 < 0x1_0000
    ensures sum + (0xFFFF - sum) % 256 == 0xFFFF <==> sum >= 0xFF00
  {
    var q, r := sum / 256, sum % 256;
    assert 0xFFFF - sum == 256 * (255 - q) + (255 - r);
    DivUnique(0xFFFF - sum, 256, 255 - q, 255 - r);
  }

  /** One such request: a single byte of type 128 from fe80::2 to fe80::1 gets a
      reply that does not verify. */
  lemma ShortIcmpExample(toMac: Mac, fromMac: Mac)
    ensures CodeChecksum(IcmpFrame(toMac, fromMac, LinkLocal(1), LinkLocal(2), [129]), ICMP6, 1) != 0
  {
    hide CodeChecksum, IcmpFrame, PreTotal, Total, LinkLocal;
    ShortIcmp(toMac, fromMac, LinkLocal(1), LinkLocal(2), [129]);
    PreTotalOf(toMac, fromMac, LinkLocal(1), LinkLocal(2), ICMP6, [129]);
    TotalOfOne(129, 0);
    LinkLocalTotal(1);
    LinkLocalTotal(2);
  }

  /** fe80::b */
  function LinkLocal(b: byte): Ip6 { [0xFE, 0x80, 0, 0, 0, 0, 0, 0, 0, 0, 0, 0, 0, 0, 0, b] }

  lemma LinkLocalTotal(b: byte)
    ensures Total(LinkLocal(b), 0) == 0x80FE + 256 * b
  {
    hide Total;
    var z4 := [0, 0, 0, 0];
    assert LinkLocal(b) == [0xFE, 0x80] + (z4 + (z4 + (z4 + [0, b])));
    TotalOfTwo(0xFE, 0x80, 0);
    TotalConcat([0xFE, 0x80], z4 + (z4 + (z4 + [0, b])), 0);
    ZerosAdd(z4 + (z4 + [0, b]), 0x80FE);
    ZerosAdd(z4 + [0, b], 0x80FE);
    ZerosAdd([0, b], 0x80FE);
    TotalOfTwo(0, b, 0x80FE);
  }

  lemma ZerosAdd(rest: seq<byte>, seed: nat)
    ensures Total([0, 0, 0, 0] + rest, seed) == Total(rest, seed)
  {
    hide Total;
    assert [0, 0, 0, 0] + rest == [0, 0] + ([0, 0] + rest);
    TotalOfTwo(0, 0, seed);
    TotalConcat([0, 0], [0, 0] + rest, seed);
    TotalConcat([0, 0], rest, seed);
  }

  // ------------------------------------------------------------------ the receiver

  datatype Node = Node(mac: Mac, ll: Ip6, snm: Ip6)

  datatype Verdict = Rejected | NotOurs | Accepted(fromMac: Mac, from: Ip6, next: byte, length: nat)

  /** net_eth_receive up to the dispatch, on the first len bytes of the buffer. */
  function Classify(node: Node, buf: seq<byte>, len: nat): Verdict
    requires len <= |buf| == 2048
  {
    if len < 54 then Rejected
    else if buf[12..14] != [0x86, 0xDD] then Rejected
    else if buf[14] / 16 != 6 then Rejected
    else
      var n := Word16(buf[19], buf[18]);
      if n > len - 54 then Rejected
      else if node.ll != buf[38..54] && node.snm != buf[38..54] && ALL_NODES != buf[38..54] then NotOurs
      else Accepted(buf[6..12], buf[22..38], buf[20], n)
  }

  /** Any Ethernet and IPv6 header, field by field as they lie on the wire. */
  function WireHeader(toMac: Mac, fromMac: Mac, etherType: seq<byte>, flow: seq<byte>, length: u16, next: byte, hop: byte,
                      from: Ip6, to: Ip6): (h: seq<byte>)
    requires |etherType| == 2 && |flow| == 4
    ensures |h| == 54
  {
    toMac + fromMac + etherType + flow + Big16(length) + [next, hop] + from + to
  }

  lemma WireFields(toMac: Mac, fromMac: Mac, etherType: seq<byte>, flow: seq<byte>, length: u16, next: byte, hop: byte,
                   from: Ip6, to: Ip6, data: seq<byte>, buf: seq<byte>)
    requires |etherType| == 2 && |flow| == 4
    requires WireHeader(toMac, fromMac, etherType, flow, length, next, hop, from, to) + data <= buf
    ensures buf[6..12] == fromMac && buf[12..14] == etherType && buf[14] == flow[0] && buf[18] == length / 256 && buf[19] == length % 256
    ensures buf[20] == next && buf[21] == hop && buf[22..38] == from && buf[38..54] == to
    ensures 54 + |data| <= |buf| && buf[54..54 + |data|] == data
  {
    var h := WireHeader(toMac, fromMac, etherType, flow, length, next, hop, from, to);
    assert forall i | 0 <= i < 54 :: buf[i] == h[i];
    assert h[6..12] == fromMac && h[12..14] == etherType && h[14..18] == flow && h[18..20] == Big16(length);
    assert h[14] == h[14..18][0] && h[18] == h[18..20][0] && h[19] == h[18..20][1];
    assert h[20] == next && h[21] == hop && h[22..38] == from && h[38..54] == to;
    assert buf[..54 + |data|] == h + data;
  }

  /** Which frames are accepted, whatever they contain: IPv6 by type and version,
      no longer than what arrived, and addressed to the node, to its solicited-node
      address or to all nodes. The verdict holds the frame's own fields. */
  lemma AcceptsExactly(node: Node, toMac: Mac, fromMac: Mac, etherType: seq<byte>, flow: seq<byte>, length: u16, next: byte, hop: byte,
                       from: Ip6, to: Ip6, data: seq<byte>, buf: seq<byte>)
    requires |etherType| == 2 && |flow| == 4 && |buf| == 2048
    requires WireHeader(toMac, fromMac, etherType, flow, length, next, hop, from, to) + data <= buf
    ensures 54 + |data| <= 2048
    ensures Classify(node, buf, 54 + |data|).Accepted? <==>
      && etherType == [0x86, 0xDD] && 0x60 <= flow[0] <= 0x6F && length <= |data|
      && (to == node.ll || to == node.snm || to == [0xFF, 2, 0, 0, 0, 0, 0, 0, 0, 0, 0, 0, 0, 0, 0, 1])
    ensures Classify(node, buf, 54 + |data|).Accepted? ==>
      Classify(node, buf, 54 + |data|) == Accepted(fromMac, from, next, length)
    ensures forall len | 0 <= len < 54 :: Classify(node, buf, len) == Rejected
  {
    WireFields(toMac, fromMac, etherType, flow, length, next, hop, from, to, data, buf);
    assert Word16(length % 256, length / 256) == length;
  }

  /** The senders' header is such a header. */
  lemma HeaderIsWire(toMac: Mac, fromMac: Mac, from: Ip6, to: Ip6, length: u16, next: byte)
    ensures Header(toMac, fromMac, from, to, length, next)
      == WireHeader(toMac, fromMac, [0x86, 0xDD], [0x60, 0, 0, 0], length, next, 255, from, to)
  {
  }

  /** Everything but the checksum in a UDP frame, byte by byte. */
  lemma UdpFields(toMac: Mac, fromMac: Mac, from: Ip6, to: Ip6, sport: u16, dport: u16, payload: seq<byte>)
    requires |payload| <= MAX_PAYLOAD
    ensures var f := UdpFrame(toMac, fromMac, from, to, sport, dport, payload);
      && f[..6] == toMac && f[6..12] == fromMac && f[20] == 17 && f[22..38] == from && f[38..54] == to
      && f[54..58] == [sport / 256, sport % 256, dport / 256, dport % 256]
      && f[58..60] == f[18..20] == [(|payload| + 8) / 256, (|payload| + 8) % 256] && f[62..] == payload
  {
    hide CodeChecksum, Header;
    var n := |payload| + 8;
    var upper := UdpUpper(sport, dport, payload);
    var pre := Header(toMac, fromMac, from, to, n, UDP) + upper;
    var f := UdpFrame(toMac, fromMac, from, to, sport, dport, payload);
    HeaderFields(toMac, fromMac, from, to, n, UDP, upper);
    PatchedElsewhere(pre, 60, CodeChecksum(pre, UDP, n));
    assert f[..6] == pre[..6] && f[6..12] == pre[6..12] && f[22..38] == pre[22..38] && f[38..54] == pre[38..54] && f[18..20] == pre[18..20];
    assert pre[54..][..4] == upper[..4] && pre[54..][4..6] == upper[4..6] && pre[54..][8..] == upper[8..];
    assert f[54..58] == pre[54..58] && f[58..60] == pre[58..60] && f[62..] == pre[62..];
  }

  /** The same for ICMPv6. */
  lemma IcmpFields(toMac: Mac, fromMac: Mac, from: Ip6, to: Ip6, data: seq<byte>)
    requires |data| <= 1460
    ensures var f := IcmpFrame(toMac, fromMac, from, to, data);
      && f[..6] == toMac && f[6..12] == fromMac && f[20] == 58 && f[22..38] == from && f[38..54] == to
      && (|data| >= 1 ==> f[54] == data[0]) && (|data| >= 2 ==> f[55] == data[1]) && (|data| >= 4 ==> f[58..] == data[4..])
  {
    hide CodeChecksum, Header;
    var pre := Header(toMac, fromMac, from, to, |data|, ICMP6) + data;
    var f := IcmpFrame(toMac, fromMac, from, to, data);
    HeaderFields(toMac, fromMac, from, to, |data|, ICMP6, data);
    PatchedElsewhere(pre, 56, CodeChecksum(pre, ICMP6, |data|));
    assert f[..6] == pre[..6] && f[6..12] == pre[6..12] && f[22..38] == pre[22..38] && f[38..54] == pre[38..54];
    if |data| >= 4 { assert f[58..] == pre[58..] == pre[54..][4..]; }
  }

  lemma PatchedElsewhere(s: seq<byte>, at: nat, w: u16)
    ensures forall i | 0 <= i < |s| && i != at && i != at + 1 :: Patch(s, at, w)[i] == s[i]
  {
  }

  /** What net_udp6_receive passes to netboot_cmd_receive, if anything. */
  function UdpDispatch(buf: seq<byte>): Option<seq<byte>>
    requires |buf| == 2048
  {
    if Word16(buf[57], buf[56]) == NETBOOT_PORT then Some(buf[62..]) else None
  }

  /** Exactly datagrams to port 57777 are dispatched, from behind the UDP header. */
  lemma DispatchesPort(buf: seq<byte>)
    requires |buf| == 2048
    ensures UdpDispatch(buf).Some? <==> buf[56..58] == [0xE1, 0xB1]
    ensures UdpDispatch(buf).Some? ==> UdpDispatch(buf).value == buf[62..]
  {
    assert buf[56..58] == [buf[56], buf[57]];
  }

  /** Build, send, parse: a node's own receiver finds exactly the payload, with
      the sender's addresses, however the wire pads the frame. */
  lemma RoundTrip(node: Node, toMac: Mac, fromMac: Mac, from: Ip6, sport: u16, payload: seq<byte>, buf: seq<byte>, len: nat)
    requires |payload| <= MAX_PAYLOAD && 62 + |payload| <= len <= |buf| == 2048
    requires UdpFrame(toMac, fromMac, from, node.ll, sport, NETBOOT_PORT, payload) <= buf
    ensures Classify(node, buf, len) == Accepted(fromMac, from, UDP, |payload| + 8)
    ensures UdpDispatch(buf).Some? && payload <= UdpDispatch(buf).value
  {
    hide UdpFrame, Classify, UdpDispatch, Header, WireHeader;
    var n := |payload| + 8;
    var f := UdpFrame(toMac, fromMac, from, node.ll, sport, NETBOOT_PORT, payload);
    var data := buf[54..len];
    UdpFields(toMac, fromMac, from, node.ll, sport, NETBOOT_PORT, payload);
    UdpStart(toMac, fromMac, from, node.ll, sport, NETBOOT_PORT, payload);
    HeaderIsWire(toMac, fromMac, from, node.ll, n, UDP);
    assert buf[..54] == f[..54];
    assert buf[..54] + data == buf[..len];
    AcceptsExactly(node, toMac, fromMac, [0x86, 0xDD], [0x60, 0, 0, 0], n, UDP, 255, from, node.ll, data, buf);
    DispatchesPort(buf);
    assert buf[56..58] == f[56..58] == f[54..58][2..];
    assert buf[62..][..|payload|] == buf[62..62 + |payload|] == f[62..];
  }

  lemma UdpStart(toMac: Mac, fromMac: Mac, from: Ip6, to: Ip6, sport: u16, dport: u16, payload: seq<byte>)
    requires |payload| <= MAX_PAYLOAD
    ensures UdpFrame(toMac, fromMac, from, to, sport, dport, payload)[..54] == Header(toMac, fromMac, from, to, |payload| + 8, UDP)
  {
    hide CodeChecksum, Header;
    var n := |payload| + 8;
    var h := Header(toMac, fromMac, from, to, n, UDP);
    var pre := h + UdpUpper(sport, dport, payload);
    PatchedElsewhere(pre, 60, CodeChecksum(pre, UDP, n));
    assert pre[..54] == h;
  }
}
