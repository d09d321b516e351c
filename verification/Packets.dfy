/** UDP over IPv4 over Ethernet, built in place in a byte buffer and parsed back:
    shared/net/eth.c, shared/net/ipv4.c and shared/net/udp.c. */
module Packets {
  import opened MachineTypes
  import opened Checksum
  import opened Division

  type Mac = m: seq<U8> | |m| == 6 witness [0, 0, 0, 0, 0, 0]
  datatype Endpoint = Endpoint(port: U16, ip: U32, mac: Mac)

  // --- Headers as bytes ---

  function EthHeader(source: Mac, destination: Mac, ethertype: U16): (r: seq<U8>)
    ensures |r| == 14
  {
    destination + source + Be16(ethertype)
  }

  function Ipv4Front(total: U16, protocol: U8): (r: seq<U8>)
    ensures |r| == 10 && r[9] == protocol
  {
    [0x45] + [0] + Be16(total) + [0, 0] + Be16(0x4000) + [64] + [protocol]
  }

  function Ipv4Back(source: U32, destination: U32): (r: seq<U8>)
    ensures |r| == 8
  {
    Be32(source) + Be32(destination)
  }

  /** The two checksum bytes are kept as they lie in memory. */
  function Ipv4Header(total: U16, protocol: U8, check: seq<U8>, source: U32, destination: U32): (r: seq<U8>)
    requires |check| == 2
    ensures |r| == 20
  {
    Ipv4Front(total, protocol) + check + Ipv4Back(source, destination)
  }

  function UdpFront(source: U16, destination: U16, length: U16): (r: seq<U8>)
    ensures |r| == 6
  {
    Be16(source) + Be16(destination) + Be16(length)
  }

  // --- Writing ---

  /** `bytes` stored at offset `p`. */
  function Patched(s: seq<U8>, p: nat, bytes: seq<U8>): (r: seq<U8>)
    requires p + |bytes| <= |s|
    ensures |r| == |s|
  {
    s[..p] + bytes + s[p + |bytes|..]
  }

  lemma PatchNext(s: seq<U8>, p: nat, a: seq<U8>, b: seq<U8>)
    requires p + |a| + |b| <= |s|
    ensures Patched(Patched(s, p, a), p + |a|, b) == Patched(s, p, a + b)
  {
  }

  /** A gap of two bytes left at first is filled in last. */
  lemma PatchGap(s: seq<U8>, p: nat, a: seq<U8>, gap: seq<U8>, b: seq<U8>)
    requires p + |a| + |gap| + |b| <= |s|
    ensures var t := Patched(Patched(s, p, a), p + |a| + |gap|, b);
      && t[p..p + |a| + |gap| + |b|] == a + s[p + |a|..p + |a| + |gap|] + b
      && Patched(t, p + |a|, gap) == Patched(s, p, a + gap + b)
  {
    var n := p + |a| + |gap|;
    var t := Patched(Patched(s, p, a), n, b);
    assert t == s[..p] + a + s[p + |a|..n] + b + s[n + |b|..];
    assert Patched(t, p + |a|, gap) == s[..p] + (a + gap + b) + s[n + |b|..];
  }

  /** A store of a field's bytes. */
  method Put(buffer: array<U8>, p: nat, bytes: seq<U8>)
    requires p + |bytes| <= buffer.Length
    modifies buffer
    ensures buffer[..] == Patched(old(buffer[..]), p, bytes)
  {
    forall i | 0 <= i < |bytes| {
      buffer[p + i] := bytes[i];
    }
  }

  /** `create_eth_packet`. */
  method CreateEth(buffer: array<U8>, p: nat, source: Mac, destination: Mac, ethertype: U16) returns (next: nat)
    requires p + 14 <= buffer.Length
    modifies buffer
    ensures next == p + 14
    ensures buffer[..] == Patched(old(buffer[..]), p, EthHeader(source, destination, ethertype))
  {
    hide Patched, Be16;
    ghost var s := buffer[..];
    Put(buffer, p + 6, source);
    Put(buffer, p, destination);
    EthSwap(s, p, source, destination);
    Put(buffer, p + 12, Be16(ethertype));
    PatchNext(s, p, destination + source, Be16(ethertype));
    next := p + 14;
  }

  lemma EthSwap(s: seq<U8>, p: nat, source: Mac, destination: Mac)
    requires p + 12 <= |s|
    ensures Patched(Patched(s, p + 6, source), p, destination) == Patched(s, p, destination + source)
  {
  }

  /** What `create_ipv4_packet` computes over a header whose checksum field still holds
      `stale`. */
  function Ipv4Checksum(total: U16, protocol: U8, stale: seq<U8>, source: U32, destination: U32): U16
    requires |stale| == 2
  {
    0xFFFF - Fold(SumLe(Ipv4Header(total, protocol, stale, source, destination)))
  }

  /** The stores before the checksum field. */
  method PutIpv4Front(buffer: array<U8>, p: nat, total: U16, protocol: U8)
    requires p + 20 <= buffer.Length
    modifies buffer
    ensures buffer[..] == Patched(old(buffer[..]), p, Ipv4Front(total, protocol))
  {
    hide Patched, Be16;
    ghost var s := buffer[..];
    Put(buffer, p, [0x45]);
    Put(buffer, p + 1, [0]);
    PatchNext(s, p, [0x45], [0]);
    Put(buffer, p + 2, Be16(total));
    PatchNext(s, p, [0x45] + [0], Be16(total));
    Put(buffer, p + 4, [0, 0]);
    PatchNext(s, p, [0x45] + [0] + Be16(total), [0, 0]);
    Put(buffer, p + 6, Be16(0x4000));
    PatchNext(s, p, [0x45] + [0] + Be16(total) + [0, 0], Be16(0x4000));
    Put(buffer, p + 8, [64]);
    PatchNext(s, p, [0x45] + [0] + Be16(total) + [0, 0] + Be16(0x4000), [64]);
    Put(buffer, p + 9, [protocol]);
    PatchNext(s, p, [0x45] + [0] + Be16(total) + [0, 0] + Be16(0x4000) + [64], [protocol]);
  }

  /** `create_ipv4_packet`. */
  method CreateIpv4(buffer: array<U8>, p: nat, payloadLength: U32, protocol: U8, source: U32, destination: U32)
    returns (next: nat)
    requires p + 20 <= buffer.Length
    modifies buffer
    ensures next == p + 20
    ensures var total, stale := (20 + payloadLength) % 0x1_0000, old(buffer[p + 10..p + 12]);
      var check := Ipv4Checksum(total, protocol, stale, source, destination);
      buffer[..] == Patched(old(buffer[..]), p, Ipv4Header(total, protocol, Le16(check), source, destination))
  {
    hide Patched, Be32, Le16, Ipv4Front, Fold, SumLe;
    ghost var s := buffer[..];
    var total: U16 := (20 + payloadLength) % 0x1_0000;
    PutIpv4Front(buffer, p, total, protocol);
    ghost var t := buffer[..];
    Put(buffer, p + 12, Be32(source));
    Put(buffer, p + 16, Be32(destination));
    PatchNext(t, p + 12, Be32(source), Be32(destination));
    assert buffer[..] == Patched(t, p + 12, Ipv4Back(source, destination));
    ghost var stale := s[p + 10..p + 12];
    assert buffer[p..p + 20] == Ipv4Header(total, protocol, stale, source, destination) by {
      PatchGap(s, p, Ipv4Front(total, protocol), stale, Ipv4Back(source, destination));
      assert buffer[p..p + 20] == buffer[..][p..p + 20];
    }
    var check := Checksum16(buffer, p, 10);
    PatchGap(s, p, Ipv4Front(total, protocol), Le16(check), Ipv4Back(source, destination));
    Put(buffer, p + 10, Le16(check));
    next := p + 20;
  }

  /** A length stored in 16 bits. */
  function Cut16(n: nat): (r: U16)
    ensures r as int <= n && (r as int == n <==> n < 0x1_0000)
  {
    n % 0x1_0000
  }

  function UdpLength(payload: seq<U8>): (r: U16)
    ensures r as int <= 8 + |payload|
  {
    Cut16(8 + |payload|)
  }

  function UdpSegment(source: Endpoint, destination: Endpoint, check: seq<U8>, payload: seq<U8>): (r: seq<U8>)
    requires |check| == 2
    ensures |r| == 8 + |payload|
  {
    UdpFront(source.port, destination.port, UdpLength(payload)) + check + payload
  }

  /** What the UDP checksum covers: the pseudo-header and as much of the segment as the
      length field says. */
  function Covered(source: Endpoint, destination: Endpoint, check: seq<U8>, payload: seq<U8>): seq<U8>
    requires |check| == 2
  {
    PseudoHeader(source.ip, destination.ip, 0x11, UdpLength(payload))
    + UdpSegment(source, destination, check, payload)[..UdpLength(payload)]
  }

  /** What `create_udp_packet` computes over a segment whose checksum field still holds
      `stale`. */
  function UdpChecksum(source: Endpoint, destination: Endpoint, stale: seq<U8>, payload: seq<U8>): U16
    requires |stale| == 2
  {
    0xFFFF - Fold(SumBe(Covered(source, destination, stale, payload)))
  }

  function TotalLength(payload: seq<U8>): U16 { Cut16(28 + |payload|) }

  function Datagram(source: Endpoint, destination: Endpoint, payload: seq<U8>, ipStale: seq<U8>): (r: seq<U8>)
    requires |ipStale| == 2
    ensures |r| == 34
  {
    var total := TotalLength(payload);
    EthHeader(source.mac, destination.mac, 0x800)
    + Ipv4Header(total, 0x11, Le16(Ipv4Checksum(total, 0x11, ipStale, source.ip, destination.ip)), source.ip, destination.ip)
  }

  /** The frame that `create_udp_packet` leaves, given the bytes that lay in the two
      checksum fields before. */
  function Frame(source: Endpoint, destination: Endpoint, payload: seq<U8>, ipStale: seq<U8>, udpStale: seq<U8>): (r: seq<U8>)
    requires |ipStale| == 2 && |udpStale| == 2
    ensures |r| == 42 + |payload|
  {
    Datagram(source, destination, payload, ipStale)
    + UdpSegment(source, destination, Be16(UdpChecksum(source, destination, udpStale, payload)), payload)
  }

  /** The byte loop of `create_udp_packet`. */
  method CopyPayload(buffer: array<U8>, p: nat, payload: array<U8>)
    requires p + payload.Length <= buffer.Length && payload != buffer
    modifies buffer
    ensures buffer[..] == Patched(old(buffer[..]), p, payload[..])
  {
    hide Patched;
    ghost var s, data := buffer[..], payload[..];
    PatchNone(s, p, data);
    for i := 0 to payload.Length
      invariant payload[..] == data && buffer[..] == Patched(s, p, data[..i])
    {
      ghost var before := buffer[..];
      PatchGrows(s, p, data, i);
      buffer[p + i] := payload[i];
      assert buffer[..] == before[p + i := data[i]];
    }
    assert data[..payload.Length] == data;
  }

  lemma PatchNone(s: seq<U8>, p: nat, bytes: seq<U8>)
    requires p + |bytes| <= |s|
    ensures Patched(s, p, bytes[..0]) == s
  {
  }

  lemma PatchGrows(s: seq<U8>, p: nat, bytes: seq<U8>, i: nat)
    requires p + |bytes| <= |s| && i < |bytes|
    ensures Patched(s, p, bytes[..i])[p + i := bytes[i]] == Patched(s, p, bytes[..i + 1])
  {
    var a, b := Patched(s, p, bytes[..i])[p + i := bytes[i]], Patched(s, p, bytes[..i + 1]);
    forall k | 0 <= k < |s|
      ensures a[k] == b[k]
    {
      if p <= k < p + i {
        assert a[k] == bytes[..i][k - p] && b[k] == bytes[..i + 1][k - p];
      } else if k == p + i {
        assert b[k] == bytes[..i + 1][i];
      }
    }
  }

  /** The UDP header and payload of `create_udp_packet`, before the checksum. */
  method PutUdpFront(buffer: array<U8>, p: nat, source: U16, destination: U16, length: U16)
    requires p + 8 <= buffer.Length
    modifies buffer
    ensures buffer[..] == Patched(old(buffer[..]), p, UdpFront(source, destination, length))
  {
    hide Patched, Be16;
    ghost var s := buffer[..];
    Put(buffer, p, Be16(source));
    Put(buffer, p + 2, Be16(destination));
    PatchNext(s, p, Be16(source), Be16(destination));
    Put(buffer, p + 4, Be16(length));
    PatchNext(s, p, Be16(source) + Be16(destination), Be16(length));
  }

  /** ... and with it. */
  method CreateSegment(buffer: array<U8>, p: nat, source: Endpoint, destination: Endpoint, payload: array<U8>)
    requires p + 8 + payload.Length <= buffer.Length && payload != buffer
    modifies buffer
    ensures var check := UdpChecksum(source, destination, old(buffer[p + 6..p + 8]), payload[..]);
      buffer[..] == Patched(old(buffer[..]), p, UdpSegment(source, destination, Be16(check), payload[..]))
  {
    hide Patched, Be16, UdpFront, Fold, SumBe, PseudoHeader, UdpSegment;
    ghost var s, data := buffer[..], payload[..];
    var length: U16 := (8 + payload.Length) % 0x1_0000;
    PutUdpFront(buffer, p, source.port, destination.port, length);
    CopyPayload(buffer, p + 8, payload);
    ghost var t := buffer[..];
    SegmentFront(s, t, p, source, destination, data);
    assert buffer[p..p + length] == t[p..p + length];
    var check := ChecksumPseudo(source.ip, destination.ip, 0x11, buffer, p, length);
    SegmentPatched(s, t, p, source, destination, Be16(check), data);
    Put(buffer, p + 6, Be16(check));
  }

  /** What is summed before the checksum is stored, and what is there afterwards. */
  lemma SegmentFront(s: seq<U8>, t: seq<U8>, p: nat, source: Endpoint, destination: Endpoint, data: seq<U8>)
    requires p + 8 + |data| <= |s|
    requires t == Patched(Patched(s, p, UdpFront(source.port, destination.port, UdpLength(data))), p + 8, data)
    ensures t[p..p + UdpLength(data)] == UdpSegment(source, destination, s[p + 6..p + 8], data)[..UdpLength(data)]
  {
    hide Patched, UdpFront;
    PatchGap(s, p, UdpFront(source.port, destination.port, UdpLength(data)), s[p + 6..p + 8], data);
    SlicePrefix(t, p, UdpLength(data), 8 + |data|);
  }

  lemma SegmentPatched(s: seq<U8>, t: seq<U8>, p: nat, source: Endpoint, destination: Endpoint, check: seq<U8>, data: seq<U8>)
    requires p + 8 + |data| <= |s| && |check| == 2
    requires t == Patched(Patched(s, p, UdpFront(source.port, destination.port, UdpLength(data))), p + 8, data)
    ensures Patched(t, p + 6, check) == Patched(s, p, UdpSegment(source, destination, check, data))
  {
    hide Patched, UdpFront;
    PatchGap(s, p, UdpFront(source.port, destination.port, UdpLength(data)), check, data);
  }

  lemma SlicePrefix(s: seq<U8>, p: nat, n: nat, m: nat)
    requires n <= m && p + m <= |s|
    ensures s[p..p + m][..n] == s[p..p + n]
  {
  }

  /** `create_udp_packet`: everything outside the frame is left alone. */
  method CreateUdp(buffer: array<U8>, p: nat, source: Endpoint, destination: Endpoint, payload: array<U8>)
    requires p + 42 + payload.Length <= buffer.Length && payload != buffer
    modifies buffer
    ensures var ipStale, udpStale := old(buffer[p + 24..p + 26]), old(buffer[p + 40..p + 42]);
      buffer[..] == Patched(old(buffer[..]), p, Frame(source, destination, payload[..], ipStale, udpStale))
  {
    hide Patched, EthHeader, Ipv4Header, UdpSegment, UdpChecksum, Ipv4Checksum;
    ghost var s, data := buffer[..], payload[..];
    ghost var total, ipStale, udpStale := TotalLength(data), s[p + 24..p + 26], s[p + 40..p + 42];
    ghost var eth := EthHeader(source.mac, destination.mac, 0x800);
    ghost var check := Ipv4Checksum(total, 0x11, ipStale, source.ip, destination.ip);
    ghost var ip := Ipv4Header(total, 0x11, Le16(check), source.ip, destination.ip);
    ghost var udp := Be16(UdpChecksum(source, destination, udpStale, data));
    ghost var segment := UdpSegment(source, destination, udp, data);
    var q := CreateEth(buffer, p, source.mac, destination.mac, 0x800);
    PatchSpares(s, p, eth, p + 24, p + 26);
    assert buffer[q + 10..q + 12] == buffer[..][p + 24..p + 26] == ipStale;
    Truncated(payload.Length);
    q := CreateIpv4(buffer, q, (8 + payload.Length) % 0x1_0000_0000, 0x11, source.ip, destination.ip);
    PatchNext(s, p, eth, ip);
    PatchSpares(s, p, eth + ip, p + 40, p + 42);
    assert buffer[q + 6..q + 8] == buffer[..][p + 40..p + 42] == udpStale;
    CreateSegment(buffer, q, source, destination, payload);
    PatchNext(s, p, eth + ip, segment);
  }

  lemma Truncated(n: nat)
    ensures (20 + (8 + n) % 0x1_0000_0000) % 0x1_0000 == (28 + n) % 0x1_0000
  {
  }

  lemma PatchSpares(s: seq<U8>, p: nat, a: seq<U8>, i: nat, j: nat)
    requires p + |a| <= i <= j <= |s|
    ensures Patched(s, p, a)[i..j] == s[i..j]
  {
  }

  // --- The checksums verify ---

  /** A field that counts as zero in one's-complement arithmetic. */
  predicate Clear(field: seq<U8>) { field == [0, 0] || field == [0xFF, 0xFF] }

  lemma ClearResidue(field: seq<U8>)
    requires |field| == 2
    ensures SumLe(field) == Word(field[1], field[0]) && SumBe(field) == Word(field[0], field[1])
    ensures SumLe(field) % 0xFFFF == 0 <==> Clear(field)
    ensures SumBe(field) % 0xFFFF == 0 <==> Clear(field)
  {
    assert field[..0] == [];
  }

  /** One's-complement cancellation: a checksum computed over `rest` and a stale field
      makes the sum a multiple of 65535 exactly if the stale field is one. */
  lemma Cancels(rest: nat, stale: nat)
    ensures (rest + (0xFFFF - Fold(rest + stale))) % 0xFFFF == 0 <==> stale % 0xFFFF == 0
  {
    hide Fold;
    FoldResidue(rest + stale);
    var f := Fold(rest + stale);
    var q := (rest + stale) / 0xFFFF - f / 0xFFFF;
    assert rest + stale - f == 0xFFFF * q;
    assert rest + (0xFFFF - f) == 0xFFFF * (q + 1) - stale;
    Negate(q + 1, stale);
  }

  lemma Negate(q: int, x: nat)
    ensures (0xFFFF * q - x) % 0xFFFF == 0 <==> x % 0xFFFF == 0
  {
    if (0xFFFF * q - x) % 0xFFFF == 0 {
      DivModIs(x, 0xFFFF, q - (0xFFFF * q - x) / 0xFFFF, 0);
    } else if x % 0xFFFF == 0 {
      DivModIs(0xFFFF * q - x, 0xFFFF, q - x / 0xFFFF, 0);
    }
  }

  lemma HeaderSum(total: U16, protocol: U8, check: seq<U8>, source: U32, destination: U32)
    requires |check| == 2
    ensures SumLe(Ipv4Header(total, protocol, check, source, destination))
         == SumLe(Ipv4Front(total, protocol)) + SumLe(check) + SumLe(Ipv4Back(source, destination))
  {
    hide SumLe, Ipv4Front, Ipv4Back;
    SumLeConcat(Ipv4Front(total, protocol) + check, Ipv4Back(source, destination));
    SumLeConcat(Ipv4Front(total, protocol), check);
  }

  lemma HeaderNonZero(total: U16, protocol: U8, check: seq<U8>, source: U32, destination: U32)
    requires |check| == 2
    ensures SumBe(Ipv4Header(total, protocol, check, source, destination)) > 0
  {
    hide SumBe, Be16, Be32;
    var header := Ipv4Header(total, protocol, check, source, destination);
    SumBeConcat([0x45, 0], header[2..]);
    assert header == [0x45, 0] + header[2..];
    ClearResidue([0x45, 0]);
  }

  /** The header that `create_ipv4_packet` leaves sums to 0xFFFF in network order,
      although the code adds and stores in the other order, exactly if the checksum
      field was clear before. */
  lemma Ipv4HeaderVerifies(total: U16, protocol: U8, stale: seq<U8>, source: U32, destination: U32)
    requires |stale| == 2
    ensures var check := Le16(Ipv4Checksum(total, protocol, stale, source, destination));
      Fold(SumBe(Ipv4Header(total, protocol, check, source, destination))) == 0xFFFF <==> Clear(stale)
  {
    hide SumLe, SumBe, Fold, Ipv4Header, Ipv4Front, Ipv4Back, Le16, Clear;
    var c := Ipv4Checksum(total, protocol, stale, source, destination);
    var header := Ipv4Header(total, protocol, Le16(c), source, destination);
    var rest := SumLe(Ipv4Front(total, protocol)) + SumLe(Ipv4Back(source, destination));
    HeaderSum(total, protocol, stale, source, destination);
    HeaderSum(total, protocol, Le16(c), source, destination);
    WordSums(c);
    ClearResidue(stale);
    Cancels(rest, SumLe(stale));
    OrderIndependent(header);
    HeaderNonZero(total, protocol, Le16(c), source, destination);
    FoldsToOnes(SumBe(header));
  }

  lemma SegmentSum(source: Endpoint, destination: Endpoint, check: seq<U8>, payload: seq<U8>)
    requires |check| == 2
    ensures SumBe(UdpSegment(source, destination, check, payload))
         == SumBe(UdpFront(source.port, destination.port, UdpLength(payload))) + SumBe(check) + SumBe(payload)
  {
    hide SumBe, UdpFront, UdpLength;
    var front := UdpFront(source.port, destination.port, UdpLength(payload));
    SumBeConcat(front + check, payload);
    SumBeConcat(front, check);
  }

  lemma WholeSegment(source: Endpoint, destination: Endpoint, check: seq<U8>, payload: seq<U8>)
    requires |check| == 2 && |payload| <= 65527
    ensures Covered(source, destination, check, payload)
         == PseudoHeader(source.ip, destination.ip, 0x11, UdpLength(payload))
            + UdpSegment(source, destination, check, payload)
    ensures SumBe(Covered(source, destination, check, payload))
         == SumBe(PseudoHeader(source.ip, destination.ip, 0x11, UdpLength(payload)))
            + SumBe(UdpFront(source.port, destination.port, UdpLength(payload))) + SumBe(check) + SumBe(payload)
  {
    hide SumBe, UdpFront, PseudoHeader, UdpSegment;
    var segment := UdpSegment(source, destination, check, payload);
    assert segment[..UdpLength(payload)] == segment;
    SumBeConcat(PseudoHeader(source.ip, destination.ip, 0x11, UdpLength(payload)), segment);
    SegmentSum(source, destination, check, payload);
  }

  lemma PseudoPositive(source: Endpoint, destination: Endpoint, length: U16, rest: seq<U8>)
    ensures SumBe(PseudoHeader(source.ip, destination.ip, 0x11, length)) > 0
    ensures SumBe(PseudoHeader(source.ip, destination.ip, 0x11, length) + rest) > 0
  {
    hide SumBe, PseudoHeader;
    PseudoHeaderSum(source.ip, destination.ip, 0x11, length);
    SumBeConcat(PseudoHeader(source.ip, destination.ip, 0x11, length), rest);
  }

  /** The computed checksum is 0, which section "Fields" of RFC 768 reserves for "no
      checksum", exactly if the covered sum is a multiple of 65535; no segment is
      exempted by the code. */
  lemma ZeroChecksumSent(source: Endpoint, destination: Endpoint, stale: seq<U8>, payload: seq<U8>)
    requires |stale| == 2
    ensures UdpChecksum(source, destination, stale, payload) == 0
       <==> SumBe(Covered(source, destination, stale, payload)) % 0xFFFF == 0
  {
    hide SumBe, UdpSegment, PseudoHeader, Fold;
    PseudoPositive(source, destination, UdpLength(payload),
                   UdpSegment(source, destination, stale, payload)[..UdpLength(payload)]);
    FoldsToOnes(SumBe(Covered(source, destination, stale, payload)));
  }

  /** A UDP segment of odd or even length whose length fits its field verifies with its
      pseudo-header exactly if the checksum field was clear before. */
  lemma UdpSegmentVerifies(source: Endpoint, destination: Endpoint, stale: seq<U8>, payload: seq<U8>)
    requires |stale| == 2 && |payload| <= 65527
    ensures var check := Be16(UdpChecksum(source, destination, stale, payload));
      var pseudo := PseudoHeader(source.ip, destination.ip, 0x11, 8 + |payload|);
      Fold(SumBe(pseudo + UdpSegment(source, destination, check, payload))) == 0xFFFF <==> Clear(stale)
  {
    hide *;
    var c := UdpChecksum(source, destination, stale, payload);
    var length := UdpLength(payload);
    UdpChecksumIs(source, destination, stale, payload);
    WholeSegment(source, destination, stale, payload);
    WholeSegment(source, destination, Be16(c), payload);
    WordSums(c);
    ClearResidue(stale);
    PseudoPositive(source, destination, length, []);
    Lengths(payload);
    var rest := SumBe(PseudoHeader(source.ip, destination.ip, 0x11, length))
                + SumBe(UdpFront(source.port, destination.port, length)) + SumBe(payload);
    VerifiesExactly(rest, SumBe(stale), c);
  }

  lemma UdpChecksumIs(source: Endpoint, destination: Endpoint, stale: seq<U8>, payload: seq<U8>)
    requires |stale| == 2
    ensures UdpChecksum(source, destination, stale, payload) == 0xFFFF - Fold(SumBe(Covered(source, destination, stale, payload)))
  {
  }

  lemma VerifiesExactly(rest: nat, stale: nat, c: nat)
    requires rest > 0 && c == 0xFFFF - Fold(rest + stale)
    ensures Fold(rest + c) == 0xFFFF <==> stale % 0xFFFF == 0
  {
    hide *;
    Cancels(rest, stale);
    FoldsToOnes(rest + c);
  }

  // --- Parsing ---

  function ReadBe16(b: seq<U8>, p: nat): U16
    requires p + 2 <= |b|
  {
    Word(b[p], b[p + 1])
  }

  function ReadBe32(b: seq<U8>, p: nat): U32
    requires p + 4 <= |b|
  {
    0x1_0000 * ReadBe16(b, p) + ReadBe16(b, p + 2)
  }

  /** `eth_parse_packet_type`, of a frame at `p`. */
  function ParseType(b: seq<U8>, p: nat): U16
    requires p + 14 <= |b|
  {
    ReadBe16(b, p + 12)
  }

  /** `eth_get_source`: the six bytes at the address it returns. */
  function ParseMac(b: seq<U8>, p: nat): (m: Mac)
    requires p + 14 <= |b|
  {
    b[p + 6..p + 12]
  }

  /** `ipv4_get_protocol` and `ipv4_get_source`, of an IPv4 header at `p`. */
  function ParseProtocol(b: seq<U8>, p: nat): U8
    requires p + 20 <= |b|
  {
    b[p + 9]
  }

  function ParseSource(b: seq<U8>, p: nat): U32
    requires p + 20 <= |b|
  {
    ReadBe32(b, p + 12)
  }

  /** `udp_parse_packet`, of a UDP header at `p`. */
  function ParsePort(b: seq<U8>, p: nat): U16
    requires p + 8 <= |b|
  {
    ReadBe16(b, p + 2)
  }

  /** `udp_parse_packet_payload`: address and size, the size truncated to 16 bits. */
  function ParsePayload(b: seq<U8>, p: nat): (nat, U16)
    requires p + 42 <= |b|
  {
    if ParseType(b, p) == 0x800 && ParseProtocol(b, p + 14) == 0x11
    then (p + 42, (ReadBe16(b, p + 38) - 8) % 0x1_0000)
    else (0, 0)
  }

  lemma ReadPart(b: seq<U8>, p: nat, s: seq<U8>, k: nat)
    requires p + |s| <= |b| && b[p..p + |s|] == s && k + 2 <= |s|
    ensures ReadBe16(b, p + k) == ReadBe16(s, k)
  {
    assert b[p + k] == b[p..p + |s|][k] && b[p + k + 1] == b[p..p + |s|][k + 1];
  }

  lemma ReadWord(before: seq<U8>, v: U16, after: seq<U8>)
    ensures ReadBe16(before + Be16(v) + after, |before|) == v
  {
  }

  lemma EthFields(source: Mac, destination: Mac, ethertype: U16)
    ensures ReadBe16(EthHeader(source, destination, ethertype), 12) == ethertype
  {
    hide Be16, ReadBe16;
    ReadWord(destination + source, ethertype, []);
    assert destination + source + Be16(ethertype) + [] == EthHeader(source, destination, ethertype);
  }

  lemma Ipv4Fields(total: U16, protocol: U8, check: seq<U8>, source: U32, destination: U32)
    requires |check| == 2
    ensures var h := Ipv4Header(total, protocol, check, source, destination);
      ReadBe16(h, 2) == total && h[9] == protocol
      && ReadBe16(h, 12) == source / 0x1_0000 && ReadBe16(h, 14) == source % 0x1_0000
  {
    hide Be16, ReadBe16;
    var h := Ipv4Header(total, protocol, check, source, destination);
    var front := Ipv4Front(total, protocol);
    var high, low, to := Be16(source / 0x1_0000), Be16(source % 0x1_0000), Be32(destination);
    ReadWord([0x45] + [0], total, h[4..]);
    assert h == [0x45] + [0] + Be16(total) + h[4..];
    ReadWord(front + check, source / 0x1_0000, low + to);
    ReadWord(front + check + high, source % 0x1_0000, to);
    assert h == front + check + high + (low + to) == front + check + high + low + to;
  }

  lemma UdpFields(source: Endpoint, destination: Endpoint, check: seq<U8>, payload: seq<U8>)
    requires |check| == 2
    ensures var s := UdpSegment(source, destination, check, payload);
      ReadBe16(s, 2) == destination.port && ReadBe16(s, 4) == UdpLength(payload) && s[8..] == payload
  {
    hide Be16, ReadBe16, UdpLength;
    var s := UdpSegment(source, destination, check, payload);
    var length := UdpLength(payload);
    var from, to := Be16(source.port), Be16(destination.port);
    ReadWord(from, destination.port, Be16(length) + check + payload);
    ReadWord(from + to, length, check + payload);
    assert s == from + to + (Be16(length) + check + payload) == from + to + Be16(length) + (check + payload);
  }

  /** A frame at `p` of buffer `b`, whatever lies around it. */
  predicate Holds(b: seq<U8>, p: nat, frame: seq<U8>) {
    p + |frame| <= |b| && b[p..p + |frame|] == frame
  }

  lemma HoldsParts(b: seq<U8>, p: nat, x: seq<U8>, y: seq<U8>)
    requires Holds(b, p, x + y)
    ensures Holds(b, p, x) && Holds(b, p + |x|, y)
  {
    assert b[p..p + |x|] == b[p..p + |x + y|][..|x|] == x;
    assert b[p + |x|..p + |x| + |y|] == b[p..p + |x + y|][|x|..] == y;
  }

  lemma ReadEth(b: seq<U8>, p: nat, source: Mac, destination: Mac)
    requires Holds(b, p, EthHeader(source, destination, 0x800))
    ensures p + 14 <= |b| && ReadBe16(b, p + 12) == 0x800 && ParseMac(b, p) == source
  {
    hide ReadBe16, Be16;
    EthFields(source, destination, 0x800);
    ReadPart(b, p, EthHeader(source, destination, 0x800), 12);
    assert EthHeader(source, destination, 0x800) == destination + (source + Be16(0x800));
    HoldsParts(b, p, destination, source + Be16(0x800));
    HoldsParts(b, p + 6, source, Be16(0x800));
  }

  lemma ReadIpv4(b: seq<U8>, p: nat, total: U16, check: seq<U8>, source: U32, destination: U32)
    requires |check| == 2 && Holds(b, p, Ipv4Header(total, 0x11, check, source, destination))
    ensures p + 20 <= |b| && ReadBe16(b, p + 2) == total && b[p + 9] == 0x11
    ensures ReadBe16(b, p + 12) == source / 0x1_0000 && ReadBe16(b, p + 14) == source % 0x1_0000
  {
    hide ReadBe16, Ipv4Header;
    var h := Ipv4Header(total, 0x11, check, source, destination);
    Ipv4Fields(total, 0x11, check, source, destination);
    ReadPart(b, p, h, 2);
    ReadPart(b, p, h, 12);
    ReadPart(b, p, h, 14);
    assert b[p + 9] == b[p..p + |h|][9];
  }

  lemma ReadUdp(b: seq<U8>, p: nat, source: Endpoint, destination: Endpoint, check: seq<U8>, payload: seq<U8>)
    requires |check| == 2 && Holds(b, p, UdpSegment(source, destination, check, payload))
    ensures p + 8 + |payload| <= |b| && ReadBe16(b, p + 2) == destination.port
    ensures ReadBe16(b, p + 4) == UdpLength(payload)
    ensures b[p + 8..p + 8 + |payload|] == payload
  {
    hide ReadBe16, UdpSegment;
    var s := UdpSegment(source, destination, check, payload);
    UdpFields(source, destination, check, payload);
    ReadPart(b, p, s, 2);
    ReadPart(b, p, s, 4);
    assert s == s[..8] + payload;
    HoldsParts(b, p, s[..8], payload);
  }

  lemma Lengths(payload: seq<U8>)
    ensures (UdpLength(payload) - 8) % 0x1_0000 == Cut16(|payload|)
    ensures UdpLength(payload) as int == 8 + |payload| <==> |payload| <= 65527
    ensures TotalLength(payload) as int == 28 + |payload| <==> |payload| <= 65507
  {
  }

  lemma CutTo(b: seq<U8>, p: nat, payload: seq<U8>, n: nat)
    requires p + |payload| <= |b| && b[p..p + |payload|] == payload && n <= |payload|
    ensures b[p..p + n] == payload[..n]
    ensures b[p..p + n] == payload <==> n == |payload|
  {
    SlicePrefix(b, p, n, |payload|);
  }

  lemma FrameFields(b: seq<U8>, p: nat, source: Endpoint, destination: Endpoint, payload: seq<U8>,
                    ipStale: seq<U8>, udpStale: seq<U8>)
    requires |ipStale| == 2 && |udpStale| == 2
    requires Holds(b, p, Frame(source, destination, payload, ipStale, udpStale))
    ensures p + 42 + |payload| <= |b|
    ensures ReadBe16(b, p + 12) == 0x800 && ParseMac(b, p) == source.mac && b[p + 23] == 0x11
    ensures ReadBe16(b, p + 16) == TotalLength(payload)
    ensures ReadBe16(b, p + 26) == source.ip / 0x1_0000 && ReadBe16(b, p + 28) == source.ip % 0x1_0000
    ensures ReadBe16(b, p + 36) == destination.port && ReadBe16(b, p + 38) == UdpLength(payload)
    ensures b[p + 42..p + 42 + |payload|] == payload
  {
    hide ReadBe16, ParseMac, EthHeader, Ipv4Header, UdpSegment, Holds, Ipv4Checksum, UdpChecksum, Le16, Be16;
    hide UdpLength, TotalLength;
    var total := TotalLength(payload);
    var eth := EthHeader(source.mac, destination.mac, 0x800);
    var ipCheck := Le16(Ipv4Checksum(total, 0x11, ipStale, source.ip, destination.ip));
    var ip := Ipv4Header(total, 0x11, ipCheck, source.ip, destination.ip);
    var udpCheck := Be16(UdpChecksum(source, destination, udpStale, payload));
    var segment := UdpSegment(source, destination, udpCheck, payload);
    HoldsParts(b, p, eth + ip, segment);
    HoldsParts(b, p, eth, ip);
    ReadEth(b, p, source.mac, destination.mac);
    ReadIpv4(b, p + 14, total, ipCheck, source.ip, destination.ip);
    ReadUdp(b, p + 34, source, destination, udpCheck, payload);
  }

  /** Parsing undoes building, whatever the two checksum fields were and whatever lies
      around the frame: the EtherType, source MAC, protocol, source address and destination port come
      back for every payload; the payload itself, exactly when its length fits 16 bits (a
      longer one comes back cut to its length modulo 65536); and the length fields of UDP
      and IPv4 are true exactly up to 65527 and 65507 bytes. */
  lemma ParseUndoesBuild(s: seq<U8>, p: nat, source: Endpoint, destination: Endpoint, payload: seq<U8>,
                         ipStale: seq<U8>, udpStale: seq<U8>)
    requires |ipStale| == 2 && |udpStale| == 2 && p + 42 + |payload| <= |s|
    ensures var b := Patched(s, p, Frame(source, destination, payload, ipStale, udpStale));
      var (at, size) := ParsePayload(b, p);
      && ParseType(b, p) == 0x800 && ParseMac(b, p) == source.mac && ParseProtocol(b, p + 14) == 0x11
      && ParseSource(b, p + 14) == source.ip && ParsePort(b, p + 34) == destination.port
      && at + size <= |b| && b[at..at + size] == payload[..Cut16(|payload|)]
      && (b[at..at + size] == payload <==> |payload| < 0x1_0000)
      && (ReadBe16(b, p + 38) as int == 8 + |payload| <==> |payload| <= 65527)
      && (ReadBe16(b, p + 16) as int == 28 + |payload| <==> |payload| <= 65507)
  {
    hide ReadBe16, ParseMac, Frame, Holds, UdpLength, TotalLength, Cut16, Patched;
    var frame := Frame(source, destination, payload, ipStale, udpStale);
    PatchedHolds(s, p, frame);
    FrameFields(Patched(s, p, frame), p, source, destination, payload, ipStale, udpStale);
    Lengths(payload);
    CutTo(Patched(s, p, frame), p + 42, payload, Cut16(|payload|));
  }

  lemma PatchedHolds(s: seq<U8>, p: nat, frame: seq<U8>)
    requires p + |frame| <= |s|
    ensures Holds(Patched(s, p, frame), p, frame)
  {
  }
}
