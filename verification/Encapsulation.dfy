/** A segment as bytes: what tcp_write and ipv4_write put in the packet buffer, and what is read back out of it. */
module Encapsulation {
  import opened Wire
  import opened Checksums
  import opened SocketTable

  // ---------------------------------------------------------------- numbers as bytes

  /** Network order, most significant byte first. */
  function Bytes16(x: u16): (r: seq<u8>)
    ensures |r| == 2
  {
    [x / 0x100, x % 0x100]
  }

  function Bytes32(x: u32): (r: seq<u8>)
    ensures |r| == 4
  {
    Bytes16(x / TWO16) + Bytes16(x % TWO16)
  }

  function Number16(b: seq<u8>): u16
    requires |b| == 2
  {
    b[0] as int * 0x100 + b[1]
  }

  function Number32(b: seq<u8>): u32
    requires |b| == 4
  {
    Number16(b[..2]) * TWO16 + Number16(b[2..])
  }

  lemma NumbersReadBack(x: u16, y: u32)
    ensures Number16(Bytes16(x)) == x && Number32(Bytes32(y)) == y
  {
    assert Bytes32(y)[..2] == Bytes16(y / TWO16) && Bytes32(y)[2..] == Bytes16(y % TWO16);
  }

  /** Memory read as 16-bit words on a little-endian host. */
  function Words(b: seq<u8>): (r: seq<u16>)
    ensures |r| == |b| / 2
  {
    seq(|b| / 2, i requires 0 <= i < |b| / 2 => b[2 * i] as int + 0x100 * (b[2 * i + 1] as int))
  }

  function FlagBits(f: Flags): u8
  {
    (if f.fin then 1 else 0) + (if f.syn then 2 else 0) + (if f.rst then 4 else 0) + (if f.psh then 8 else 0) + if f.ack then 16 else 0
  }

  function BitsToFlags(b: u8): Flags
  {
    Flags(b % 2 == 1, b / 2 % 2 == 1, b / 4 % 2 == 1, b / 8 % 2 == 1, b / 16 % 2 == 1)
  }

  // ---------------------------------------------------------------- the two headers

  const TCP_HEADER: nat := 20
  const IP_HEADER: nat := 20
  const PROTOCOL_TCP: u8 := 6

  /** Four bytes as they stand in memory and on the network. */
  type Address = a: seq<u8> | |a| == 4 witness [0, 0, 0, 0]

  /** The header tcp_write copies into the buffer; `sum` is whatever it computed as checksum. */
  function TcpHeader(s: Segment, from: u16, to: u16, sum: u16): (r: seq<u8>)
    ensures |r| == TCP_HEADER
  {
    Bytes16(from) + Bytes16(to) + Bytes32(s.seqNum) + Bytes32(s.ackNum)
    + [5 * 0x10, FlagBits(s.flags)] + Bytes16(s.window) + [sum % 0x100, sum / 0x100] + [0, 0]
  }

  /** The header ipv4_write fills in, with `sum` as it stands in memory. */
  function IpHeader(total: u16, protocol: u8, sum: u16, source: Address, destination: Address): (r: seq<u8>)
    ensures |r| == IP_HEADER
  {
    [0x45, 0] + Bytes16(total) + [0, 0] + [64, 0] + [64, protocol] + [sum % 0x100, sum / 0x100] + source + destination
  }

  /** The header with the checksum ipv4_write stores in it. */
  function SealedHeader(total: u16, protocol: u8, source: Address, destination: Address): (r: seq<u8>)
    ensures |r| == IP_HEADER
  {
    IpHeader(total, protocol, Checksum(Words(IpHeader(total, protocol, 0, source, destination))), source, destination)
  }

  function Packet(s: Segment, from: u16, to: u16, sum: u16, source: Address, destination: Address): seq<u8>
  {
    SealedHeader(U16(|s.payload| + 40), PROTOCOL_TCP, source, destination) + (TcpHeader(s, from, to, sum) + s.payload)
  }

  // ---------------------------------------------------------------- reading

  datatype Verdict = WrongChecksum | HasOptions | Expired | NotOurs | Accepted(protocol: u8)

  /** ipv4_read up to the choice of the next handler. */
  function Ipv4Read(packet: seq<u8>, own: Address): Verdict
    requires |packet| >= IP_HEADER && HeaderWords(Words(packet)) <= |Words(packet)|
  {
    if Checksum(Words(packet)[..HeaderWords(Words(packet))]) != 0 then WrongChecksum
    else if packet[0] % 0x10 != 5 then HasOptions
    else if packet[8] == 0 then Expired
    else if packet[16..20] != own then NotOurs
    else Accepted(packet[9])
  }

  /** tcp_get_payload_length */
  function PayloadLength(ip: seq<u8>, tcp: seq<u8>): u16
    requires |ip| >= IP_HEADER && |tcp| >= TCP_HEADER
  {
    U16(Number16(ip[2..4]) - (tcp[12] / 0x10 + ip[0] % 0x10) * 4)
  }

  /** tcp_get_payload: where the payload begins, counted from the TCP header. */
  function PayloadOffset(tcp: seq<u8>): nat
    requires |tcp| >= TCP_HEADER
  {
    tcp[12] / 0x10 * 4
  }

  /** The segment as the handlers see it. */
  function ReadSegment(ip: seq<u8>, tcp: seq<u8>): Segment
    requires |ip| >= IP_HEADER && |tcp| >= TCP_HEADER
    requires PayloadOffset(tcp) + PayloadLength(ip, tcp) <= |tcp|
  {
    Segment(Number32(tcp[4..8]), Number32(tcp[8..12]), BitsToFlags(tcp[13]), Number16(tcp[14..16]),
            tcp[PayloadOffset(tcp)..PayloadOffset(tcp) + PayloadLength(ip, tcp)])
  }

  // ---------------------------------------------------------------- the round trip

  lemma TcpHeaderFields(s: Segment, from: u16, to: u16, sum: u16)
    ensures var h := TcpHeader(s, from, to, sum);
      && h[4..8] == Bytes32(s.seqNum) && h[8..12] == Bytes32(s.ackNum) && h[12] == 80
      && h[13] == FlagBits(s.flags) && h[14..16] == Bytes16(s.window)
  {
  }

  lemma IpHeaderFields(total: u16, protocol: u8, sum: u16, source: Address, destination: Address)
    ensures var h := IpHeader(total, protocol, sum, source, destination);
      && h[0] == 0x45 && h[2..4] == Bytes16(total) && h[8] == 64 && h[9] == protocol && h[16..20] == destination
      && h[10] == sum % 0x100 && h[11] == sum / 0x100
  {
  }

  /** The checksum word is the sixth, and no other word depends on it. */
  lemma IpHeaderWords(total: u16, protocol: u8, sum: u16, source: Address, destination: Address)
    ensures var z := Words(IpHeader(total, protocol, 0, source, destination));
      && z[5] == 0 && Words(IpHeader(total, protocol, sum, source, destination)) == z[5 := sum]
  {
    var h, h0 := IpHeader(total, protocol, sum, source, destination), IpHeader(total, protocol, 0, source, destination);
    assert forall i | 0 <= i < 20 && i != 10 && i != 11 :: h[i] == h0[i];
  }

  /** Every header ipv4_write fills in passes the test in ipv4_read. */
  lemma SealedHeaderVerifies(total: u16, protocol: u8, source: Address, destination: Address)
    ensures Checksum(Words(SealedHeader(total, protocol, source, destination))) == 0
  {
    var z := Words(IpHeader(total, protocol, 0, source, destination));
    IpHeaderWords(total, protocol, Checksum(z), source, destination);
    VerifiesExactly(z, 5, Checksum(z));
  }

  lemma FlagsReadBack(f: Flags)
    ensures BitsToFlags(FlagBits(f)) == f
  {
  }

  lemma WordsPrefix(a: seq<u8>, b: seq<u8>)
    requires |a| % 2 == 0
    ensures Words(a + b)[..|a| / 2] == Words(a)
  {
  }

  /** The IPv4 side of the round trip. */
  lemma IpReadBack(total: u16, protocol: u8, source: Address, destination: Address, rest: seq<u8>)
    ensures var p := SealedHeader(total, protocol, source, destination) + rest;
      && HeaderWords(Words(p)) == 10 && Ipv4Read(p, destination) == Accepted(protocol)
      && p[0] == 0x45 && p[2..4] == Bytes16(total)
  {
    hide IpHeader, Bytes16, Checksum;
    var h := SealedHeader(total, protocol, source, destination);
    var p := h + rest;
    SealedHeaderVerifies(total, protocol, source, destination);
    WordsPrefix(h, rest);
    IpHeaderFields(total, protocol, Checksum(Words(IpHeader(total, protocol, 0, source, destination))), source, destination);
    assert p[2..4] == h[2..4] && p[16..20] == h[16..20];
  }

  /** What one endpoint writes, the other reads: the packet is accepted, and the segment, its length and its place
      in the packet come out as they went in. */
  lemma PacketRoundTrip(s: Segment, from: u16, to: u16, sum: u16, source: Address, destination: Address)
    requires |s.payload| <= 0xFFFF - 40
    ensures var p := Packet(s, from, to, sum, source, destination);
      && |p| == 40 + |s.payload| && HeaderWords(Words(p)) == 10
      && Ipv4Read(p, destination) == Accepted(PROTOCOL_TCP)
      && PayloadLength(p, p[20..]) == |s.payload| && PayloadOffset(p[20..]) == 20
      && ReadSegment(p, p[20..]) == s
  {
    hide SealedHeader, TcpHeader, Ipv4Read, Words, HeaderWords, Bytes16, Bytes32, Number16, Number32, FlagBits, BitsToFlags;
    var h, t := SealedHeader(|s.payload| + 40, PROTOCOL_TCP, source, destination), TcpHeader(s, from, to, sum);
    var p := Packet(s, from, to, sum, source, destination);
    assert p == h + (t + s.payload);
    IpReadBack(|s.payload| + 40, PROTOCOL_TCP, source, destination, t + s.payload);
    TcpHeaderFields(s, from, to, sum);
    NumbersReadBack(|s.payload| + 40, s.seqNum);
    NumbersReadBack(s.window, s.ackNum);
    FlagsReadBack(s.flags);
    var q := p[20..];
    assert q == t + s.payload;
    assert q[4..8] == t[4..8] && q[8..12] == t[8..12] && q[14..16] == t[14..16];
    assert q[20..20 + |s.payload|] == s.payload;
  }

  /** The same with TCP options, and with the four bits beside the header length set in whatever way: the length and
      the place of the payload follow the header. */
  lemma OptionsRoundTrip(s: Segment, from: u16, to: u16, sum: u16, reserved: u8, options: seq<u8>,
                         source: Address, destination: Address)
    requires |options| % 4 == 0 && |options| <= 40 && |s.payload| + |options| <= 0xFFFF - 40 && reserved < 0x10
    ensures var t := TcpHeader(s, from, to, sum)[12 := (5 + |options| / 4) * 0x10 + reserved] + options + s.payload;
      var p := SealedHeader(20 + |t|, PROTOCOL_TCP, source, destination) + t;
      && |p| == 40 + |options| + |s.payload| && p[20..] == t
      && HeaderWords(Words(p)) == 10 && Ipv4Read(p, destination) == Accepted(PROTOCOL_TCP)
      && PayloadOffset(p[20..]) == 20 + |options| && PayloadLength(p, p[20..]) == |s.payload|
      && ReadSegment(p, p[20..]) == s
  {
    hide SealedHeader, TcpHeader, Ipv4Read, Words, HeaderWords, Bytes16, Bytes32, Number16, Number32, FlagBits, BitsToFlags;
    var h := TcpHeader(s, from, to, sum);
    var n := 5 + |options| / 4;
    assert (n * 0x10 + reserved) / 0x10 == n;
    var t := h[12 := n * 0x10 + reserved] + options + s.payload;
    var p := SealedHeader(20 + |t|, PROTOCOL_TCP, source, destination) + t;
    IpReadBack(20 + |t|, PROTOCOL_TCP, source, destination, t);
    TcpHeaderFields(s, from, to, sum);
    NumbersReadBack(20 + |t|, s.seqNum);
    NumbersReadBack(s.window, s.ackNum);
    FlagsReadBack(s.flags);
    var q := p[20..];
    assert q == t;
    assert q[4..8] == h[4..8] && q[8..12] == h[8..12] && q[14..16] == h[14..16];
    assert q[20 + |options|..20 + |options| + |s.payload|] == s.payload;
  }

  // ---------------------------------------------------------------- whose packet it is

  /** tcb_header_to_connection_id: addresses and ports as they stand in memory. */
  function PacketId(packet: seq<u8>): u32
    requires |packet| >= IP_HEADER + 4
  {
    ConnectionId(InMemory32(packet[12..16]), InMemory16(packet[20..22]), InMemory16(packet[22..24]))
  }

  function InMemory16(b: seq<u8>): u16
    requires |b| == 2
  {
    b[0] as int + 0x100 * (b[1] as int)
  }

  function InMemory32(b: seq<u8>): u32
    requires |b| == 4
  {
    InMemory16(b[..2]) + TWO16 * InMemory16(b[2..])
  }

  /** A packet from port `from` at `source` to port `to` is found under the id that port `to` gives its connection to
      that port and address, and under no other connection's unless both ports agree. */
  lemma PacketFindsItsConnection(s: Segment, from: u16, to: u16, sum: u16, source: Address, destination: Address,
                                 ip: u32, port: u16, host: u16)
    requires |s.payload| <= 0xFFFF - 40
    ensures var p := Packet(s, from, to, sum, source, destination);
      && |p| >= 24 && InMemory32(p[12..16]) == InMemory32(source)
      && PacketId(p) == ConnectionId(InMemory32(source), Swap16(from), Swap16(to))
      && (PacketId(p) == ConnectionId(ip, Swap16(port), Swap16(host)) <==> port == from && host == to)
  {
    hide SealedHeader, TcpHeader, ConnectionId, Bytes16, Swap16, InMemory16, InMemory32;
    var h, t := SealedHeader(|s.payload| + 40, PROTOCOL_TCP, source, destination), TcpHeader(s, from, to, sum);
    var p := Packet(s, from, to, sum, source, destination);
    assert p == h + (t + s.payload);
    AddressesInPlace(|s.payload| + 40, PROTOCOL_TCP, source, destination);
    PortsInPlace(s, from, to, sum);
    assert p[12..16] == h[12..16] && p[20..22] == t[..2] && p[22..24] == t[2..4];
    PortInMemory(from);
    PortInMemory(to);
    IdsCollideExactly(InMemory32(source), Swap16(from), Swap16(to), ip, Swap16(port), Swap16(host));
    SwapIsOneToOne(port, from);
    SwapIsOneToOne(host, to);
  }

  lemma AddressesInPlace(total: u16, protocol: u8, source: Address, destination: Address)
    ensures SealedHeader(total, protocol, source, destination)[12..16] == source
    ensures SealedHeader(total, protocol, source, destination)[16..20] == destination
  {
    hide Checksum;
  }

  lemma PortsInPlace(s: Segment, from: u16, to: u16, sum: u16)
    ensures TcpHeader(s, from, to, sum)[..2] == Bytes16(from) && TcpHeader(s, from, to, sum)[2..4] == Bytes16(to)
  {
  }

  lemma PortInMemory(port: u16)
    ensures InMemory16(Bytes16(port)) == Swap16(port)
  {
  }

  lemma SwapIsOneToOne(x: u16, y: u16)
    ensures Swap16(x) == Swap16(y) <==> x == y
  {
    assert Swap16(x) / 0x100 == x % 0x100 && Swap16(x) % 0x100 == x / 0x100;
    assert Swap16(y) / 0x100 == y % 0x100 && Swap16(y) % 0x100 == y / 0x100;
  }

  /** What a header written says, in network order: version 4 and five words, its own and the packet's length together,
      not to be fragmented, 64 hops, and whence and whither. */
  lemma WrittenHeaderSays(total: u16, protocol: u8, source: Address, destination: Address)
    ensures var h := SealedHeader(total, protocol, source, destination);
      && h[0] / 0x10 == 4 && h[0] % 0x10 * 4 == |h| && Number16(h[2..4]) == total
      && Number16(h[6..8]) == 0x4000 && h[8] == 64 && h[9] == protocol && h[12..16] == source && h[16..20] == destination
  {
    hide Checksum;
    NumbersReadBack(total, 0);
    AddressesInPlace(total, protocol, source, destination);
    var h := SealedHeader(total, protocol, source, destination);
    assert h[2..4] == Bytes16(total);
  }

  /** The same of the TCP header: ports in network order, five words, the checksum as it was computed, and nothing urgent. */
  lemma WrittenTcpHeaderSays(s: Segment, from: u16, to: u16, sum: u16)
    ensures var h := TcpHeader(s, from, to, sum);
      && Number16(h[..2]) == from && Number16(h[2..4]) == to && h[12] / 0x10 * 4 == |h|
      && InMemory16(h[16..18]) == sum && Number16(h[18..20]) == 0
  {
    PortsInPlace(s, from, to, sum);
    NumbersReadBack(from, 0);
    NumbersReadBack(to, 0);
    TcpHeaderFields(s, from, to, sum);
    var h := TcpHeader(s, from, to, sum);
    assert h[16] == sum % 0x100 && h[17] == sum / 0x100;
  }

  // ---------------------------------------------------------------- what is refused

  /** The words an IPv4 header says it has add up to zero, in one's complement, without all being zero. */
  predicate AddsUp(packet: seq<u8>)
    requires |packet| >= IP_HEADER && HeaderWords(Words(packet)) <= |Words(packet)|
  {
    var sum := Sum(Words(packet)[..HeaderWords(Words(packet))]);
    sum > 0 && sum % 0xFFFF == 0
  }

  /** Which packets ipv4_read passes on, and what it finds wrong with the others first. */
  lemma AcceptedExactly(packet: seq<u8>, own: Address)
    requires |packet| >= IP_HEADER && HeaderWords(Words(packet)) <= |Words(packet)|
    ensures forall protocol: u8 ::
              Ipv4Read(packet, own) == Accepted(protocol) <==>
              && AddsUp(packet) && packet[0] % 0x10 == 5 && packet[8] != 0 && packet[16..20] == own
              && packet[9] == protocol
    ensures Ipv4Read(packet, own) == WrongChecksum <==> !AddsUp(packet)
    ensures Ipv4Read(packet, own) == HasOptions <==> AddsUp(packet) && packet[0] % 0x10 != 5
    ensures Ipv4Read(packet, own) == Expired <==> AddsUp(packet) && packet[0] % 0x10 == 5 && packet[8] == 0
  {
    hide Residue, Sum, Words;
    VerifiesWhenDivisible(Sum(Words(packet)[..HeaderWords(Words(packet))]));
  }

  /** Word `i` of the packet has become `x` on the way. */
  function Damaged(packet: seq<u8>, i: nat, x: u16): (r: seq<u8>)
    requires 2 * i + 1 < |packet|
    ensures |r| == |packet|
  {
    packet[2 * i := x % 0x100][2 * i + 1 := x / 0x100]
  }

  lemma DamagedWords(packet: seq<u8>, i: nat, x: u16)
    requires 2 * i + 1 < |packet|
    ensures Words(Damaged(packet, i, x)) == Words(packet)[i := x]
  {
    var d := Damaged(packet, i, x);
    forall k | 0 <= k < |packet| / 2 ensures Words(d)[k] == Words(packet)[i := x][k] {
      if k == i { assert x == x % 0x100 + 0x100 * (x / 0x100); }
    }
  }

  /** A header that has been changed in one word on the way is refused, whatever word and value, unless the change
      exchanges the two forms of zero. */
  lemma DamagedIsRefused(total: u16, protocol: u8, source: Address, destination: Address, rest: seq<u8>,
                         own: Address, i: nat, x: u16)
    requires i < 10 && x != Words(SealedHeader(total, protocol, source, destination))[i]
    ensures var h := SealedHeader(total, protocol, source, destination);
      var d := Damaged(h + rest, i, x);
      HeaderWords(Words(d)) <= |Words(d)| && Ipv4Read(d, own).Accepted? ==>
        (Words(h)[i] == 0 && x == 0xFFFF) || (Words(h)[i] == 0xFFFF && x == 0)
  {
    hide SealedHeader, Words, Ipv4Read, Sum, Residue, Damaged;
    var h := SealedHeader(total, protocol, source, destination);
    var p := h + rest;
    var d := Damaged(p, i, x);
    SealedHeaderVerifies(total, protocol, source, destination);
    DamagedWords(p, i, x);
    WordsPrefix(h, rest);
    if HeaderWords(Words(d)) <= |Words(d)| && Ipv4Read(d, own).Accepted? {
      AcceptedExactly(d, own);
      assert Ipv4Read(d, own) == Accepted(Ipv4Read(d, own).protocol);
      FirstByte(d);
      var w := Words(h);
      assert Words(d)[..10] == w[i := x];
      VerifiesWhenDivisible(Sum(w[i := x]));
      OneWordChanged(w, i, x);
    }
  }

  lemma FirstByte(packet: seq<u8>)
    requires |packet| >= 2
    ensures HeaderWords(Words(packet)) == packet[0] % 0x10 * 2
  {
  }

  // ---------------------------------------------------------------- in place

  /** The packet buffer: filled from its end, `offset` marking where the packet begins. */
  class OutBuffer {
    const buffer: array<u8>
    var offset: nat

    ghost predicate Valid()
      reads this, buffer
    {
      offset <= buffer.Length <= 0xFFFF
    }

    /** The packet so far. */
    ghost function Tail(): seq<u8>
      requires Valid()
      reads this, buffer
    {
      buffer[offset..]
    }

    constructor (size: u16, payload: seq<u8>)
      requires |payload| <= size
      ensures Valid() && fresh(buffer) && buffer.Length == size && Tail() == payload
    {
      buffer := new u8[size];
      offset := size - |payload|;
      new;
      Copy(offset, payload);
      assert buffer[offset..] == buffer[offset..offset + |payload|];
    }

    /** memcpy into the buffer at `at`. */
    method Copy(at: nat, bytes: seq<u8>)
      requires at + |bytes| <= buffer.Length
      modifies buffer
      ensures buffer[at..at + |bytes|] == bytes
      ensures buffer[..at] == old(buffer[..at]) && buffer[at + |bytes|..] == old(buffer[at + |bytes|..])
    {
      var i := 0;
      while i < |bytes|
        invariant 0 <= i <= |bytes|
        invariant forall k | 0 <= k < i :: buffer[at + k] == bytes[k]
        invariant forall k | 0 <= k < buffer.Length && !(at <= k < at + i) :: buffer[k] == old(buffer[k])
      {
        buffer[at + i] := bytes[i];
        i := i + 1;
      }
    }

    /** The end of tcp_write's first half: the finished header goes in front of the payload. */
    method PutTcpHeader(header: seq<u8>) returns (ok: bool)
      requires Valid() && |header| == TCP_HEADER
      modifies this`offset, buffer
      ensures Valid() && ok == (old(offset) >= TCP_HEADER)
      ensures Tail() == if ok then header + old(Tail()) else old(Tail())
    {
      if offset < TCP_HEADER {
        return false;
      }
      PutFront(header);
      ok := true;
    }

    /** ipv4_write: the header is filled in with a zero checksum, which is then computed over it and stored. */
    method PutIpHeader(protocol: u8, source: Address, destination: Address) returns (ok: bool)
      requires Valid()
      modifies this`offset, buffer
      ensures Valid() && ok == (old(offset) >= IP_HEADER)
      ensures Tail() == if ok then SealedHeader(|old(Tail())| + IP_HEADER, protocol, source, destination) + old(Tail())
                        else old(Tail())
    {
      if offset < IP_HEADER {
        return false;
      }
      var total := buffer.Length - (offset - IP_HEADER);
      var blank := IpHeader(total, protocol, 0, source, destination);
      hide IpHeader, Checksum, CarrySum, HeaderWords, Words;
      PutFront(blank);
      BlankWords(total, protocol, source, destination);
      var sum := Ipv4Checksum(Words(blank));
      Seal(sum);
      Sealed(total, protocol, sum, source, destination);
      ok := true;
    }

    /** The bytes of a header go in front of the packet. */
    method PutFront(header: seq<u8>)
      requires Valid() && |header| <= offset
      modifies this`offset, buffer
      ensures Valid() && offset == old(offset) - |header| && Tail() == header + old(Tail())
    {
      Copy(offset - |header|, header);
      offset := offset - |header|;
      assert buffer[offset..] == buffer[offset..offset + |header|] + buffer[offset + |header|..];
    }

    /** The checksum goes into bytes 10 and 11 of the header at the front. */
    method Seal(sum: u16)
      requires Valid() && offset + IP_HEADER <= buffer.Length
      modifies buffer
      ensures Valid() && Tail() == old(Tail())[..10] + [sum % 0x100, sum / 0x100] + old(Tail())[12..]
    {
      Copy(offset + 10, [sum % 0x100, sum / 0x100]);
      assert buffer[offset..] == buffer[..offset + 10][offset..] + buffer[offset + 10..offset + 12] + buffer[offset + 12..];
    }
  }

  lemma BlankWords(total: u16, protocol: u8, source: Address, destination: Address)
    ensures var w := Words(IpHeader(total, protocol, 0, source, destination));
      w != [] && HeaderWords(w) == |w| == 10 && w[..10] == w
  {
    IpHeaderFields(total, protocol, 0, source, destination);
  }

  lemma Sealed(total: u16, protocol: u8, sum: u16, source: Address, destination: Address)
    ensures var h := IpHeader(total, protocol, 0, source, destination);
      IpHeader(total, protocol, sum, source, destination) == h[..10] + [sum % 0x100, sum / 0x100] + h[12..]
  {
  }

  /** Payload, then TCP header, then IPv4 header: the buffer holds the packet of the specification. */
  method Encapsulate(s: Segment, from: u16, to: u16, sum: u16, source: Address, destination: Address)
    returns (out: OutBuffer, ok: bool)
    ensures out.Valid()
    ensures ok <==> |s.payload| <= 0xFFFF - 40
    ensures ok ==> out.Tail() == Packet(s, from, to, sum, source, destination)
  {
    hide SealedHeader, TcpHeader;
    out := new OutBuffer(0xFFFF, s.payload);
    ok := out.PutTcpHeader(TcpHeader(s, from, to, sum));
    if ok {
      assert |out.Tail()| == TCP_HEADER + |s.payload|;
      ok := out.PutIpHeader(PROTOCOL_TCP, source, destination);
    }
  }
}
