# grpcdump core, modelled in Dafny

grpcdump reads an offline packet capture and prints the TCP payloads sent
to one monitored endpoint (`address:port`). This project models the parts
of it that carry logic:

- `TcpStream` (`src/reassembly.rs`): an append-only byte buffer with a
  read cursor, built on `std::io::Cursor<Vec<u8>>`. `push` appends. `read`
  copies as many bytes as fit and remain, advances the cursor by that many
  and never fails. `write`, `flush` and `shutdown` are stubs.
- `parse_endpoint` (`src/main.rs`): the argument is split at its last
  colon. The suffix is parsed as a decimal `u16` port and the prefix as an
  IP address. Each missing or invalid piece has its own error.
- the packet loop of `dump_file` (`src/main.rs`): a packet's TCP payload is
  printed when the frame is IPv4, the IPv4 destination is the endpoint's
  address and the TCP destination port is the endpoint's port. A header
  the loop parses and cannot read ends the whole dump.

Modules, one per file:

- `Prelude` (`prelude.dfy`): `byte`, `u16`, `Option`, `Result`.
- `Reassembly` (`reassembly.dfy`): class `TcpStream` with fields `buffer:
  seq<byte>` and `position: nat`; `Read` fills an `array<byte>`. The
  functions `ReadCount`, `ReadSequence` and `AfterPushes` specify one read,
  a run of reads and a run of pushes.
- `IntParse` (`intparse.dfy`): `str::parse::<u16>`, the digit loop, and its
  correctness against the positional value of a digit string.
- `Endpoint` (`endpoint.dfy`): `rsplitn(2, ':')` and `parse_endpoint`. The
  address grammar belongs to the network library (smoltcp). It is the
  parameter `parseAddr: string -> Option<IpAddress>`.
- `Dump` (`dump.dfy`): packets as layered records whose headers are either
  parsed or unparsable. `Matches`, `Aborts` and `Skipped` say what happens
  to one packet. `DumpCapture` is the loop. `DumpFile` is `dump_file`. The
  printed payloads are an out-parameter.

Facts about the code that shape the model:

- `read` never fails. A short read returns the bytes that are left, and a
  read at the end of the data returns 0.
- The code prints only the payloads sent to the endpoint. There is no
  prologue check, no frame decoding, no handling of the reverse direction
  and no reordering by sequence number. `TcpStream` is not used by the
  packet loop.
- A header that the loop parses and cannot read aborts the whole dump. It
  is not dropped quietly.

## Model

| member | source | states |
|---|---|---|
| `Reassembly.TcpStream.constructor` | src/reassembly.rs:12-16 | a new stream has an empty buffer and its cursor at 0 |
| `Reassembly.TcpStream.Push` | src/reassembly.rs:18-20 | the buffer becomes the old buffer followed by the pushed bytes; the cursor is unchanged; cursor ≤ length is kept |
| `Reassembly.TcpStream.Read` | src/reassembly.rs:23-27 | the result is always `Ok(n)` with `n = ReadCount(...)`; `buf[..n]` holds the `n` bytes after the old cursor; `buf[n..]` is untouched; the cursor advances by exactly `n`; the buffer is unchanged |
| `Reassembly.TcpStream.Write` | src/reassembly.rs:31-36 | returns `Ok(len)` for the whole buffer; it has no modifies clause, so the buffer and the cursor are unchanged |
| `Reassembly.TcpStream.Flush` | src/reassembly.rs:37-38 | returns `Ok(())`; it changes nothing |
| `Reassembly.TcpStream.Shutdown` | src/reassembly.rs:41-45 | returns `Ok(Ready(()))`; it changes nothing |
| `Reassembly.ReadCount` | src/reassembly.rs:24-26 | a read takes no more than the buffer holds and no more than remains; it falls short only at the end of the data; it takes 0 exactly when the buffer is empty or the cursor is at the end |
| `Reassembly.SuccessiveReadsContiguous` | src/reassembly.rs:18-26 | successive reads return contiguous, gap-free, non-overlapping slices in order: their concatenation is the data between the first and the last cursor; the cursor never moves back or past the end; the total is min(sum of buffer lengths, bytes remaining) |
| `Reassembly.AfterPushesAppendsAll` | src/reassembly.rs:18-20 | after a run of pushes the buffer is the old buffer followed by every chunk, in push order |
| `Reassembly.PushTwiceIsPushConcat` | src/reassembly.rs:18-20 | `push(a)` then `push(b)` leaves the same buffer as `push(a ++ b)` |
| `Reassembly.PushThenReadBack` | src/reassembly.rs:12-26 | on a new stream, two pushes are read back by one large enough read as `a ++ b`; the next read returns 0 |
| `Reassembly.ReadSuccessively` | src/reassembly.rs:23-27 | successive `Read` calls on a stream return the chunks `ReadSequence` gives. Together they are exactly the bytes between the old and the new cursor, in order. The cursor does not move back and the buffer is unchanged |
| `Reassembly.PushReadPushRead` | src/reassembly.rs:18-26 | when pushes and reads alternate, each read takes `ReadCount` bytes of what was pushed before it. The two reads together are the start of `a ++ b` |
| `IntParse.Accumulate` | src/main.rs:18 | the digit loop never yields the `Empty` error; a result is never below the starting accumulator |
| `IntParse.ParseU16` | src/main.rs:18 | the error is `Empty` exactly for the empty string and for a lone `+` |
| `IntParse.AccumulateValue` | src/main.rs:18 | continuing the digit loop after a digit prefix `p` succeeds exactly when the rest is all digits and `p ++ rest` is at most 65535, and yields that value; an all-digit rest that is too large gives `Overflow` |
| `IntParse.AccumulateInvalidDigit` | src/main.rs:18 | in the digit loop, a non-digit met while the value so far is at most 65535 gives `InvalidDigit` |
| `IntParse.ParseU16InvalidDigit` | src/main.rs:18 | the port parser reports `InvalidDigit` when the unsigned text has a non-digit and the digits before it are worth at most 65535 (so `x` and `-1` are invalid digits, while `99999x` overflows) |
| `IntParse.ParseU16Correct` | src/main.rs:18 | the port parser accepts exactly an optional `+` followed by one or more digits worth at most 65535, and returns their decimal value; all-digit text worth more gives `Overflow` |
| `Endpoint.RSplitN2` | src/main.rs:17 | `rsplitn(2, ':')` yields one or two pieces, and the first piece has no colon. There is one piece, the whole string, exactly when the string has no colon. Otherwise the string is the second piece, a colon, then the first piece |
| `Endpoint.RSplitAtLast` | src/main.rs:17 | splitting `a ++ ":" ++ b`, where `b` has no colon, yields `[b, a]`: the split is at the last colon |
| `Endpoint.ParseEndpoint` | src/main.rs:16-24 | the "missing port" error never occurs. Text without a colon never succeeds: it fails as a port or, if it is a valid port, with "missing address" |
| `Endpoint.ParseEndpointAtLastColon` | src/main.rs:16-24 | for `addr ++ ":" ++ port` with no colon in `port`, the port is parsed first and its error wins. Then a bad address gives `BadAddress`. Otherwise the endpoint holds exactly the parsed address and port |
| `Endpoint.Ipv6StyleExample` | src/main.rs:17-21 | `"::1:80"` is the address text `"::1"` with port 80 |
| `Dump.Matches` | src/main.rs:32-37 | decides that a payload is printed: the frame is IPv4, the IPv4 destination is the endpoint's address and the TCP destination port is the endpoint's port. Only an IPv4 endpoint can match, and a matching packet never ends the dump |
| `Dump.Aborts` | src/main.rs:31-35 | decides that a packet ends the dump. Either the Ethernet header is unparsable, or the frame is IPv4 and its IPv4 header is unparsable, or the IPv4 destination is the endpoint and the TCP header is unparsable. A parsed non-IPv4 frame never aborts, and neither does an IPv4 packet to another address |
| `Dump.Skipped` | src/main.rs:32-36 | decides that a packet is passed over: a parsed frame of another ethertype, an IPv4 packet to another address, or a TCP segment to another port. A packet is passed over exactly when it is neither printed nor ends the dump |
| `Dump.AbortCause` | src/main.rs:31-35 | the error reported is that of the first layer on the examined path that fails: Ethernet exactly when the frame is unparsable, IPv4 exactly when the IPv4 header is, otherwise TCP, and only for a packet addressed to the endpoint. The error is that layer's |
| `Dump.ReplyTrafficSkipped` | src/main.rs:32-36 | an IPv4 packet whose source is the endpoint's address and whose destination is another address is passed over; its TCP header is never parsed |
| `Dump.FirstAbort` | src/main.rs:30-41 | the index of the first packet that ends the dump: no earlier packet ends it, and the one at the index does (or there is none) |
| `Dump.MatchingPayloadsConcat` | src/main.rs:30-41 | payloads are printed in capture order: a capture split in two prints the first part's payloads, then the second part's |
| `Dump.MatchingPayloadsExact` | src/main.rs:30-41 | every printed payload comes from a matching packet, and every matching packet's payload is printed |
| `Dump.SkippedTrafficIgnored` | src/main.rs:30-41 | a capture of passed-over packets completes and prints nothing. Such packets have other ethertypes, other destination addresses (even with unparsable TCP) or other destination ports |
| `Dump.DumpCapture` | src/main.rs:30-42 | prints the matching payloads of the packets before the first aborting packet, in capture order. The result is `Ok` exactly when no packet aborts; otherwise it is the error of the first aborting packet's failing layer |
| `Dump.DumpFile` | src/main.rs:27-43 | a bad endpoint fails before the capture is opened and prints nothing. A capture that does not open fails and prints nothing. Otherwise the result is that of the packet loop |

## Left out

- Capture files (`Capture::from_file`, `cap.next()`): this is foreign I/O. `DumpFile` receives the outcome of opening the capture and the packets `next()` yields before its first error. An error while reading ends the loop like the end of the file, as `while let Ok(..)` does.
- Header parsing (`EthernetFrame`, `Ipv4Packet`, `TcpPacket::new_checked`): smoltcp is not part of this model. Each layer is given as parsed fields or as an unparsable header with smoltcp's error.
- The IPv4 protocol field is carried but not consulted, as in the code. A non-TCP payload sent to the endpoint's address is still parsed as TCP.
- The IP address grammar (`parse::<IpAddress>`): this is smoltcp's parser. It is the uninterpreted parameter `parseAddr`.
- `str::parse::<u16>` follows the Rust standard library of the program's era. A lone `+` is `Empty`; later releases report `InvalidDigit`. Characters are compared as `char`, where Rust reads UTF-8 bytes; this gives the same outcomes because every non-ASCII character is an invalid digit.
- `main`: clap argument handling, writing errors to stderr and `process::exit`. This is process plumbing.
- `println!` output: the payload printout (`String::from_utf8_lossy`) is modelled as the sequence of printed payloads. The messages printed by `write` and `shutdown` are left out; they do not change state.
- The `AsyncRead`/`AsyncWrite` futures plumbing has no behaviour beyond the synchronous methods modelled.
- `Reassembly.TcpStream.Read`: the cursor is an unbounded `nat`, not a `u64`. `Valid()` keeps it at most the buffer length, so the clamping `Cursor` applies to a position past the end never comes into play.
