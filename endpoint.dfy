/** `parse_endpoint` of `src/main.rs`: an `address:port` argument is split
    at its last colon; the suffix is parsed as a decimal `u16` port and the
    prefix as an IP address. The textual address grammar belongs to the
    network library and enters the model as the parameter `parseAddr`. */
module Endpoint {
  import opened Prelude
  import opened IntParse

  type Ipv4Address = s: seq<byte> | |s| == 4 witness [0, 0, 0, 0]

  type Ipv6Address = s: seq<byte> | |s| == 16 witness [0, 0, 0, 0, 0, 0, 0, 0, 0, 0, 0, 0, 0, 0, 0, 0]

  /** smoltcp's `IpAddress`. */
  datatype IpAddress = Unspecified | Ipv4(v4: Ipv4Address) | Ipv6(v6: Ipv6Address)

  /** smoltcp's `IpEndpoint`: the monitored address and port. */
  datatype IpEndpoint = IpEndpoint(addr: IpAddress, port: u16)

  /** Why an endpoint argument is refused. `MissingPort` is declared by the
      program but can never arise, since splitting always yields a first
      piece. */
  datatype EndpointError =
    | MissingPort
    | InvalidPort(kind: IntErrorKind)
    | MissingAddress
    | BadAddress

  /** `str::rsplitn(2, sep)`, collected: the text after the last `sep` and,
      when `s` contains `sep`, the text before it. Splitting never yields
      nothing: without a separator the single piece is `s` itself. */
  function RSplitN2(s: string, sep: char): (pieces: seq<string>)
    decreases |s|
    ensures 1 <= |pieces| <= 2
    ensures sep !in pieces[0]
    ensures |pieces| == 1 <==> sep !in s
    ensures |pieces| == 1 ==> pieces[0] == s
    ensures |pieces| == 2 ==> s == pieces[1] + [sep] + pieces[0]
  {
    if s == [] then [s]
    else if s[|s| - 1] == sep then [[], s[..|s| - 1]]
    else
      var rest := RSplitN2(s[..|s| - 1], sep);
      assert s == s[..|s| - 1] + [s[|s| - 1]];
      [rest[0] + [s[|s| - 1]]] + rest[1..]
  }

  /** `parse_endpoint`: the port is checked before the address is looked
      at. A string without a colon never succeeds: it fails as a port or,
      if it is a valid port, for want of an address. */
  function ParseEndpoint(text: string, parseAddr: string -> Option<IpAddress>): (r: Result<IpEndpoint, EndpointError>)
    ensures r != Err(MissingPort)
    ensures ':' !in text ==> r == match ParseU16(text)
                                 case Ok(_) => Err(MissingAddress)
                                 case Err(kind) => Err(InvalidPort(kind))
  {
    var pieces := RSplitN2(text, ':');
    if |pieces| < 1 then Err(MissingPort)
    else
      match ParseU16(pieces[0])
      case Err(kind) => Err(InvalidPort(kind))
      case Ok(port) =>
        if |pieces| < 2 then Err(MissingAddress)
        else
          match parseAddr(pieces[1])
          case None => Err(BadAddress)
          case Some(addr) => Ok(IpEndpoint(addr, port))
  }

  /** Splitting `a`, a separator, then a separator-free `b` gives `b`
      and `a`: the split is at the last separator. */
  lemma {:induction false} RSplitAtLast(a: string, b: string, sep: char)
    requires sep !in b
    decreases |b|
    ensures RSplitN2(a + [sep] + b, sep) == [b, a]
  {
    var s := a + [sep] + b;
    if b == [] {
      assert s[..|s| - 1] == a;
    } else {
      var b0 := b[..|b| - 1];
      assert s[..|s| - 1] == a + [sep] + b0;
      RSplitAtLast(a, b0, sep);
      assert b0 + [b[|b| - 1]] == b;
    }
  }

  /** For any text with a colon, written as `addrText:portText` with no
      colon in `portText` (so the colon is the last one), the port is
      `portText` parsed as a `u16` and the address is `addrText` parsed as
      an IP address; the port error takes precedence, and on success the
      endpoint holds exactly the two parsed values. */
  lemma ParseEndpointAtLastColon(addrText: string, portText: string, parseAddr: string -> Option<IpAddress>)
    requires ':' !in portText
    ensures ParseEndpoint(addrText + ":" + portText, parseAddr) ==
      match ParseU16(portText)
      case Err(kind) => Err(InvalidPort(kind))
      case Ok(port) =>
        match parseAddr(addrText)
        case None => Err(BadAddress)
        case Some(addr) => Ok(IpEndpoint(addr, port))
  {
    RSplitAtLast(addrText, portText, ':');
  }

  /** An IPv6-style address keeps its own colons: `::1:80` is the address
      text `::1` with port 80. */
  lemma Ipv6StyleExample(parseAddr: string -> Option<IpAddress>)
    ensures ParseEndpoint("::1:80", parseAddr) ==
      match parseAddr("::1")
      case None => Err(BadAddress)
      case Some(addr) => Ok(IpEndpoint(addr, 80))
  {
    ParseEndpointAtLastColon("::1", "80", parseAddr);
    assert "::1" + ":" + "80" == "::1:80";
    ParseU16Correct("80");
    assert "80"[..1] == "8";
    assert "8"[..0] == "";
  }
}
