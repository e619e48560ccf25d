/** The packet loop of `dump_file` in `src/main.rs`. The capture is the
    finite sequence of packets the capture library yields, each seen
    through the layers the dissection library parses. A packet's TCP
    payload is printed when the frame is IPv4, the IPv4 destination is the
    endpoint's address and the TCP destination port is the endpoint's port.
    A layer that the loop tries to parse and cannot aborts the whole dump,
    after the payloads already printed. */
module Dump {
  import opened Prelude
  import opened Endpoint

  /** The errors a `new_checked` header view reports. */
  datatype WireError = Truncated | Malformed

  /** The outcome of a `new_checked` view of one layer. */
  datatype Checked<T> = Parsed(layer: T) | Unparsable(error: WireError)

  /** An ethertype smoltcp has no name for: never the code of IPv4
      (0x0800), ARP (0x0806) or IPv6 (0x86DD). */
  type UnknownEthertype = c: u16 | c != 0x0800 && c != 0x0806 && c != 0x86DD

  /** smoltcp's `EthernetProtocol`. */
  datatype EthernetProtocol = Ipv4 | Arp | Ipv6 | Unknown(code: UnknownEthertype)

  /** The TCP header fields the model needs, and the segment's payload. */
  datatype TcpSegment = TcpSegment(srcPort: u16, dstPort: u16, payload: seq<byte>)

  /** An IPv4 header and how its payload parses as TCP. The protocol field
      is carried but never consulted by the loop: any IPv4 payload sent to
      the endpoint's address is parsed as TCP. */
  datatype Ipv4Packet = Ipv4Packet(protocol: byte, srcAddr: Ipv4Address, dstAddr: Ipv4Address, tcp: Checked<TcpSegment>)

  /** An Ethernet header and how its payload parses as IPv4, which matters
      only when the ethertype says IPv4. */
  datatype EthernetFrame = EthernetFrame(ethertype: EthernetProtocol, ipv4: Checked<Ipv4Packet>)

  /** One captured packet: how its bytes parse as an Ethernet frame. */
  datatype Packet = Packet(ether: Checked<EthernetFrame>)

  /** The layer whose header could not be parsed. */
  datatype Layer = EthernetLayer | Ipv4Layer | TcpLayer

  /** The errors that end `dump_file`. */
  datatype DumpError =
    | BadEndpoint(cause: EndpointError)
    | CaptureOpen(reason: string)
    | MalformedPacket(layer: Layer, error: WireError)

  // ---------------------------------------------------------------------
  // What happens to one packet
  // ---------------------------------------------------------------------

  /** The packet's payload is printed: an IPv4 frame whose destination
      address and TCP destination port are the endpoint's. */
  predicate Matches(p: Packet, ep: IpEndpoint): (m: bool)
    ensures m ==> ep.addr.Ipv4?
    ensures m ==> !Aborts(p, ep)
  {
    && p.ether.Parsed?
    && p.ether.layer.ethertype == EthernetProtocol.Ipv4
    && p.ether.layer.ipv4.Parsed?
    && IpAddress.Ipv4(p.ether.layer.ipv4.layer.dstAddr) == ep.addr
    && p.ether.layer.ipv4.layer.tcp.Parsed?
    && p.ether.layer.ipv4.layer.tcp.layer.dstPort == ep.port
  }

  function Payload(p: Packet, ep: IpEndpoint): seq<byte>
    requires Matches(p, ep)
  {
    p.ether.layer.ipv4.layer.tcp.layer.payload
  }

  /** The packet ends the dump: its Ethernet header is unparsable, or it
      says IPv4 and the IPv4 header is unparsable, or that header is
      addressed to the endpoint and the TCP header is unparsable. */
  predicate Aborts(p: Packet, ep: IpEndpoint): (a: bool)
    ensures p.ether.Parsed? && p.ether.layer.ethertype != EthernetProtocol.Ipv4 ==> !a
    ensures (p.ether.Parsed? && p.ether.layer.ipv4.Parsed?
             && IpAddress.Ipv4(p.ether.layer.ipv4.layer.dstAddr) != ep.addr) ==> !a
    ensures !ep.addr.Ipv4? ==>
      (a <==> (p.ether.Unparsable? || (p.ether.layer.ethertype == EthernetProtocol.Ipv4 && p.ether.layer.ipv4.Unparsable?)))
  {
    || p.ether.Unparsable?
    || (&& p.ether.layer.ethertype == EthernetProtocol.Ipv4
        && (|| p.ether.layer.ipv4.Unparsable?
            || (&& IpAddress.Ipv4(p.ether.layer.ipv4.layer.dstAddr) == ep.addr
                && p.ether.layer.ipv4.layer.tcp.Unparsable?)))
  }

  /** The packet is passed over: a frame of another ethertype (its payload
      is never parsed), an IPv4 packet to another address (its TCP header
      is never parsed), or a TCP segment to another port. Every packet is
      printed, ends the dump or is passed over, and only one of these. */
  predicate Skipped(p: Packet, ep: IpEndpoint): (sk: bool)
    ensures sk <==> !Matches(p, ep) && !Aborts(p, ep)
  {
    && p.ether.Parsed?
    && (|| p.ether.layer.ethertype != EthernetProtocol.Ipv4
        || (&& p.ether.layer.ipv4.Parsed?
            && (|| IpAddress.Ipv4(p.ether.layer.ipv4.layer.dstAddr) != ep.addr
                || (&& p.ether.layer.ipv4.layer.tcp.Parsed?
                    && p.ether.layer.ipv4.layer.tcp.layer.dstPort != ep.port))))
  }

  /** The error a packet that ends the dump is reported with. */
  function AbortCause(p: Packet, ep: IpEndpoint): (e: DumpError)
    requires Aborts(p, ep)
    ensures e.MalformedPacket?
    ensures e.layer == EthernetLayer <==> p.ether.Unparsable?
    ensures e.layer == Ipv4Layer <==> p.ether.Parsed? && p.ether.layer.ipv4.Unparsable?
    ensures e.layer == TcpLayer ==>
      && p.ether.Parsed? && p.ether.layer.ipv4.Parsed?
      && IpAddress.Ipv4(p.ether.layer.ipv4.layer.dstAddr) == ep.addr
      && e.error == p.ether.layer.ipv4.layer.tcp.error
    ensures e.layer == EthernetLayer ==> e.error == p.ether.error
    ensures e.layer == Ipv4Layer ==> e.error == p.ether.layer.ipv4.error
  {
    if p.ether.Unparsable? then MalformedPacket(EthernetLayer, p.ether.error)
    else if p.ether.layer.ipv4.Unparsable? then MalformedPacket(Ipv4Layer, p.ether.layer.ipv4.error)
    else MalformedPacket(TcpLayer, p.ether.layer.ipv4.layer.tcp.error)
  }

  /** A packet the endpoint sent to a different address is never printed
      and never ends the dump, whatever its TCP header holds. */
  lemma ReplyTrafficSkipped(p: Packet, ep: IpEndpoint)
    requires p.ether.Parsed? && p.ether.layer.ethertype == EthernetProtocol.Ipv4
    requires p.ether.layer.ipv4.Parsed?
    requires IpAddress.Ipv4(p.ether.layer.ipv4.layer.srcAddr) == ep.addr
    requires p.ether.layer.ipv4.layer.srcAddr != p.ether.layer.ipv4.layer.dstAddr
    ensures Skipped(p, ep) && !Matches(p, ep) && !Aborts(p, ep)
  {
  }

  // ---------------------------------------------------------------------
  // What happens to a capture
  // ---------------------------------------------------------------------

  /** The payloads of the matching packets, in capture order. */
  function MatchingPayloads(packets: seq<Packet>, ep: IpEndpoint): seq<seq<byte>>
    decreases packets
  {
    if packets == [] then []
    else
      (if Matches(packets[0], ep) then [Payload(packets[0], ep)] else [])
      + MatchingPayloads(packets[1..], ep)
  }

  /** The index of the first packet that ends the dump, or the length of
      the capture when none does. */
  function FirstAbort(packets: seq<Packet>, ep: IpEndpoint): (k: nat)
    decreases packets
    ensures k <= |packets|
    ensures forall i :: 0 <= i < k ==> !Aborts(packets[i], ep)
    ensures k < |packets| ==> Aborts(packets[k], ep)
  {
    if packets == [] then 0
    else if Aborts(packets[0], ep) then 0
    else 1 + FirstAbort(packets[1..], ep)
  }

  /** Printing follows capture order: a capture cut in two prints the
      first part's payloads and then the second part's. */
  lemma {:induction false} MatchingPayloadsConcat(a: seq<Packet>, b: seq<Packet>, ep: IpEndpoint)
    decreases a
    ensures MatchingPayloads(a + b, ep) == MatchingPayloads(a, ep) + MatchingPayloads(b, ep)
  {
    if a == [] {
      assert a + b == b;
    } else {
      assert (a + b)[0] == a[0];
      assert (a + b)[1..] == a[1..] + b;
      MatchingPayloadsConcat(a[1..], b, ep);
    }
  }

  /** Every printed payload is the payload of a matching packet of the
      capture, and every matching packet's payload is printed. */
  lemma {:induction false} MatchingPayloadsExact(packets: seq<Packet>, ep: IpEndpoint)
    decreases packets
    ensures forall j :: 0 <= j < |MatchingPayloads(packets, ep)| ==>
      exists i :: 0 <= i < |packets| && Matches(packets[i], ep) && Payload(packets[i], ep) == MatchingPayloads(packets, ep)[j]
    ensures forall i :: 0 <= i < |packets| && Matches(packets[i], ep) ==>
      Payload(packets[i], ep) in MatchingPayloads(packets, ep)
  {
    if packets != [] {
      MatchingPayloadsExact(packets[1..], ep);
      var rest := MatchingPayloads(packets[1..], ep);
      var out := MatchingPayloads(packets, ep);
      var head := if Matches(packets[0], ep) then [Payload(packets[0], ep)] else [];
      assert out == head + rest;
      forall j | 0 <= j < |MatchingPayloads(packets, ep)|
        ensures exists i :: 0 <= i < |packets| && Matches(packets[i], ep) && Payload(packets[i], ep) == MatchingPayloads(packets, ep)[j]
      {
        if j < |head| {
          assert Matches(packets[0], ep) && Payload(packets[0], ep) == out[j];
        } else {
          assert out[j] == rest[j - |head|];
          var i' :| 0 <= i' < |packets[1..]| && Matches(packets[1..][i'], ep) && Payload(packets[1..][i'], ep) == rest[j - |head|];
          assert packets[i' + 1] == packets[1..][i'];
          assert Matches(packets[i' + 1], ep) && Payload(packets[i' + 1], ep) == out[j];
        }
      }
      forall i | 0 <= i < |packets| && Matches(packets[i], ep)
        ensures Payload(packets[i], ep) in out
      {
        if i > 0 {
          assert packets[i] == packets[1..][i - 1];
        }
      }
    } else {
      assert MatchingPayloads(packets, ep) == [];
    }
  }

  /** A capture of packets that are all passed over prints nothing and
      completes: other ethertypes, other destination addresses (with any
      TCP header, even an unparsable one) and other destination ports. */
  lemma {:induction false} SkippedTrafficIgnored(packets: seq<Packet>, ep: IpEndpoint)
    requires forall i :: 0 <= i < |packets| ==> Skipped(packets[i], ep)
    decreases packets
    ensures FirstAbort(packets, ep) == |packets|
    ensures MatchingPayloads(packets, ep) == []
  {
    if packets != [] {
      assert Skipped(packets[0], ep);
      SkippedTrafficIgnored(packets[1..], ep);
    }
  }

  /** The loop of `dump_file` over a capture: prints the payloads of the
      matching packets in capture order, and stops with the error of the
      first packet that has an unparsable layer on the path examined; the
      payloads printed before it stay printed. */
  method DumpCapture(packets: seq<Packet>, ep: IpEndpoint) returns (printed: seq<seq<byte>>, r: Result<(), DumpError>)
    ensures var k := FirstAbort(packets, ep);
      && printed == MatchingPayloads(packets[..k], ep)
      && (r.Ok? <==> k == |packets|)
      && (r.Err? ==> r.error == AbortCause(packets[k], ep))
  {
    printed := [];
    var i := 0;
    while i < |packets|
      invariant 0 <= i <= |packets|
      invariant forall j :: 0 <= j < i ==> !Aborts(packets[j], ep)
      invariant printed == MatchingPayloads(packets[..i], ep)
    {
      var packet := packets[i];
      if packet.ether.Unparsable? {
        return printed, Err(MalformedPacket(EthernetLayer, packet.ether.error));
      }
      var ether := packet.ether.layer;
      if ether.ethertype == EthernetProtocol.Ipv4 {
        if ether.ipv4.Unparsable? {
          return printed, Err(MalformedPacket(Ipv4Layer, ether.ipv4.error));
        }
        var ipv4 := ether.ipv4.layer;
        if IpAddress.Ipv4(ipv4.dstAddr) == ep.addr {
          if ipv4.tcp.Unparsable? {
            return printed, Err(MalformedPacket(TcpLayer, ipv4.tcp.error));
          }
          var tcp := ipv4.tcp.layer;
          if tcp.dstPort == ep.port {
            printed := printed + [tcp.payload];
          }
        }
      }
      assert packets[..i + 1] == packets[..i] + [packet];
      assert MatchingPayloads([packet], ep) == (if Matches(packet, ep) then [Payload(packet, ep)] else []);
      MatchingPayloadsConcat(packets[..i], [packet], ep);
      i := i + 1;
    }
    assert packets[..i] == packets;
    r := Ok(());
  }

  /** `dump_file`: the endpoint argument is parsed before the capture is
      opened, and a failure of either ends the run before any packet is
      looked at; otherwise the capture goes through the packet loop. */
  method DumpFile(capture: Result<seq<Packet>, string>, endpointText: string, parseAddr: string -> Option<IpAddress>)
    returns (printed: seq<seq<byte>>, r: Result<(), DumpError>)
    ensures ParseEndpoint(endpointText, parseAddr).Err? ==>
      printed == [] && r == Err(BadEndpoint(ParseEndpoint(endpointText, parseAddr).error))
    ensures ParseEndpoint(endpointText, parseAddr).Ok? && capture.Err? ==>
      printed == [] && r == Err(CaptureOpen(capture.error))
    ensures ParseEndpoint(endpointText, parseAddr).Ok? && capture.Ok? ==>
      var ep := ParseEndpoint(endpointText, parseAddr).value;
      var k := FirstAbort(capture.value, ep);
      && printed == MatchingPayloads(capture.value[..k], ep)
      && (r.Ok? <==> k == |capture.value|)
      && (r.Err? ==> r.error == AbortCause(capture.value[k], ep))
  {
    var parsed := ParseEndpoint(endpointText, parseAddr);
    if parsed.Err? {
      return [], Err(BadEndpoint(parsed.error));
    }
    if capture.Err? {
      return [], Err(CaptureOpen(capture.error));
    }
    printed, r := DumpCapture(capture.value, parsed.value);
  }
}
