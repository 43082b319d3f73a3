# SLOW peripheral client — Dafny model

This project models the client ("peripheral") side of the SLOW protocol in
`slow_peripheral.cpp`. SLOW is a reliable-session protocol carried over UDP.
The model has two parts.

- `wire.dfy`, module `Wire`: the wire codec. A packet starts with a fixed
  32-byte header: a 16-byte session id at offset 0, the 32-bit `sf` word
  (27-bit TTL above 5 flag bits) at 16, `seq` at 20, `ack` at 24, the 16-bit
  window at 28, and the fragment id and offset at 30 and 31. Multi-byte fields
  are little-endian. `pack32`/`unpack32`/`pack16`/`unpack16` are loops over a
  caller's `array<bv8>`. `serialize` fills a buffer in place and
  `deserialize` reads one back. Both are proved against the specification
  functions `Encode`/`Decode`. Round trips are proved in both directions:
  decode∘encode is the identity on headers, and encode∘decode is the identity
  on 32-byte buffers.
- `peripheral.dfy`, module `Peripheral`: the `UDPPeripheral` object as the
  class `UdpPeripheral`. Its fields are `prevHdr`, `lastHdr`, `active`,
  `hasPrev`, `nextSeq`, `lastCentralSeq` and `fd`. The methods are `Connect`,
  `Disconnect`, `SendData`, `StoreSession`, `CanRevive` and `ZeroWay`. Each
  one builds a header, sends it, reads the reply, checks flags and fields, and
  updates the fields. The socket is not modelled. Each method takes what
  `sendto` returned (an `int`) and what `recvfrom` delivered (`Some(bytes)` or
  `None` for an error or timeout) as parameters. `Disconnect` takes a list of
  such outcomes, one per receive attempt. Each method also returns the bytes
  it handed to `sendto`, so its contract can say what went on the wire.
  `Valid()` is the invariant `active ==> hasPrev`: an active session can
  always be revived later.

`uint32_t`/`uint16_t`/`uint8_t` are `bv32`/`bv16`/`bv8`. So `nextSeq++` wraps
modulo 2^32, as in the C++.

This client behaves as follows, in some points unlike the SLOW protocol as
usually described:
- CONNECT is numbered with `nextSeq`, which is 0 only on the first connect.
  Acceptance does not reset `nextSeq` to the peer's sequence number plus one.
- DISCONNECT keeps the window of the last accepted header instead of
  advertising 0. Its flags are exactly CONNECT|REVIVE.
- A disconnect that gets no acknowledgement leaves `active` set.
- Integers are little-endian, and the flags are the low 5 bits of `sf`.
- Only one packet per send. There is no fragmentation, sliding window,
  retransmission queue or reassembly.

## Model

| member | source | states |
|---|---|---|
| `Wire.NilSid` | slow_peripheral.cpp:28-32 | the nil session id is sixteen zero bytes |
| `Wire.SidEqual` | slow_peripheral.cpp:34-36 | two ids are equal exactly when all sixteen bytes agree |
| `Wire.EmptyHeader` | slow_peripheral.cpp:48 | the default header: nil session id, no flags, TTL 0, and every other field 0 |
| `Wire.EmptyHeaderEncoding` | slow_peripheral.cpp:48 | the default header serializes to thirty-two zero bytes |
| `Wire.WithFlags` | slow_peripheral.cpp:194 | clearing the low 5 bits of sf and OR-ing in the flags leaves exactly those flags and keeps the 27-bit TTL |
| `Wire.LeBytes32Spelled` | slow_peripheral.cpp:52-57 | pack32 writes byte i as `(v >> 8i) & 0xFF`: little-endian |
| `Wire.LeBytes16Spelled` | slow_peripheral.cpp:67-72 | pack16 writes byte i as `(v >> 8i) & 0xFF`: little-endian |
| `Wire.FromLe32Spelled` | slow_peripheral.cpp:59-65 | unpack32 puts byte i at bits 8i..8i+7 |
| `Wire.FromLe16Spelled` | slow_peripheral.cpp:74-80 | unpack16 puts byte i at bits 8i..8i+7 |
| `Wire.Shl32` | slow_peripheral.cpp:62 | the shift `p[i] << (i*8)` places byte i at byte position i (unsigned) |
| `Wire.Shl16` | slow_peripheral.cpp:77 | the same for the 16-bit unpack |
| `Wire.Unpack32Pack32` | slow_peripheral.cpp:52-65 | unpack32(pack32(v)) == v for every 32-bit v |
| `Wire.Pack32Unpack32` | slow_peripheral.cpp:52-65 | pack32(unpack32(b)) == b for every four bytes |
| `Wire.Unpack16Pack16` | slow_peripheral.cpp:67-80 | unpack16(pack16(v)) == v for every 16-bit v |
| `Wire.Pack16Unpack16` | slow_peripheral.cpp:67-80 | pack16(unpack16(b)) == b for every two bytes |
| `Wire.Pack32` | slow_peripheral.cpp:52-57 | the loop writes the little-endian bytes of v to p[off..off+4] and touches nothing else |
| `Wire.Unpack32` | slow_peripheral.cpp:59-65 | the loop returns the word whose little-endian bytes are p[off..off+4] |
| `Wire.Pack16` | slow_peripheral.cpp:67-72 | the loop writes the little-endian bytes of v to p[off..off+2] and touches nothing else |
| `Wire.Unpack16` | slow_peripheral.cpp:74-80 | the loop returns the word whose little-endian bytes are p[off..off+2] |
| `Wire.EncodeLayout` | slow_peripheral.cpp:82-90 | header bytes: sid 0-15, sf 16-19, seq 20-23, ack 24-27, wnd 28-29, fid 30, fo 31 |
| `Wire.DecodeEncode` | slow_peripheral.cpp:82-100 | deserialize(serialize(h)) == h, field by field |
| `Wire.EncodeDecode` | slow_peripheral.cpp:82-100 | serialize(deserialize(b)) == b for every 32-byte buffer |
| `Wire.EncodeInjective` | slow_peripheral.cpp:82-90 | distinct headers serialize to distinct bytes |
| `Wire.DecodePrefix` | slow_peripheral.cpp:92-100 | deserialize reads only the first 32 bytes of its buffer |
| `Wire.Serialize` | slow_peripheral.cpp:82-90 | fills buf[0..32] with the header encoding and leaves the rest of the buffer unchanged |
| `Wire.Deserialize` | slow_peripheral.cpp:92-100 | returns the header decoded from buf[0..32] |
| `Peripheral.ReplyHeader` | slow_peripheral.cpp:169-175 | a reply yields a header exactly when at least 32 bytes arrived |
| `Peripheral.ReplyHeaderBytes` | slow_peripheral.cpp:174-175 | that header is exactly the reply's first 32 bytes; the rest is ignored |
| `Peripheral.Receive` | slow_peripheral.cpp:169-171 | recvfrom: -1 on error or timeout, otherwise the datagram copied into the buffer and cut to its size |
| `Peripheral.ReceiveHeader` | slow_peripheral.cpp:169-175 | recvfrom + size test + deserialize yield `ReplyHeader` of the outcome |
| `Peripheral.Frame` | slow_peripheral.cpp:246-251 | the datagram sent is the 32 header bytes followed by the payload, and it decodes to the header |
| `Peripheral.AwaitAck` | slow_peripheral.cpp:203-233 | at most 3 receives. It succeeds iff one of the first 3 replies is a whole header with FLAG_ACK, and it stops at the first such reply |
| `Peripheral.UdpPeripheral.constructor` | slow_peripheral.cpp:132-139 | new object: no socket, inactive, nothing to revive, counters 0, default headers |
| `Peripheral.UdpPeripheral.Init` | slow_peripheral.cpp:142-153 | keeps the descriptor. It succeeds iff the socket opened and the host resolved |
| `Peripheral.UdpPeripheral.Connect` | slow_peripheral.cpp:155-185 | sends nil sid, sf == FLAG_C, seq == old nextSeq, wnd 7200. nextSeq goes up by one on every path. Succeeds iff sendto sent 32 bytes and the reply is a whole header with ack 0 and FLAG_AR. Then prevHdr is the reply, active and hasPrev are set and lastCentralSeq is the reply's seq. Otherwise those fields are unchanged |
| `Peripheral.UdpPeripheral.Disconnect` | slow_peripheral.cpp:187-234 | when inactive: no send and no change at all. Otherwise sends prevHdr with seq = old nextSeq, ack = lastCentralSeq, flags exactly FLAG_C and FLAG_R and the TTL kept. Succeeds iff the send went out and one of 3 replies has FLAG_ACK, taking the first such reply; only then is active cleared |
| `Peripheral.UdpPeripheral.SendData` | slow_peripheral.cpp:238-269 | rejects an inactive session or a payload over 1440 bytes without sending or touching nextSeq. Otherwise sends 32 + msg-length bytes: prevHdr with no flags, TTL kept, wnd 7200, ack = lastCentralSeq. Succeeds iff the reply has FLAG_ACK; then prevHdr is the reply and lastCentralSeq its seq |
| `Peripheral.UdpPeripheral.StoreSession` | slow_peripheral.cpp:271-276 | while active, copies prevHdr to lastHdr and sets hasPrev; otherwise changes nothing |
| `Peripheral.UdpPeripheral.CanRevive` | slow_peripheral.cpp:278 | an active session is always revivable |
| `Peripheral.UdpPeripheral.ZeroWay` | slow_peripheral.cpp:280-318 | rejects without touching nextSeq when there is no socket or nothing kept. Otherwise sends lastHdr with flags exactly R, TTL kept, wnd 7200, then the payload. Succeeds iff the reply has FLAG_ACK and FLAG_AR, lastHdr's session id and ack == the sent seq; only then do active, prevHdr and lastCentralSeq change |
| `Peripheral.ReviveAfterDisconnect` | slow_peripheral.cpp:433-463 | connect, storeSession, disconnect, then revive succeeds against replies that acknowledge seq 2 and carries the central's session id |
| `Peripheral.ReviveWithoutStore` | slow_peripheral.cpp:179-183 | after connect alone canRevive is true, yet the revive carries the nil session id of the default header |

## Left out

- Socket creation, name resolution, the receive timeout set with `setsockopt` and the destructor's `close` are OS calls. `Init` takes their outcomes as parameters, and `close` is not modelled.
- The blocking and timing of `sendto`/`recvfrom` are not modelled. Only their results enter, as parameters. The reply's sender address is ignored, as in the C++.
- `printHeader` and all console logging produce output only.
- The menu, help, status screen, `getInput`, `toLowerCase` and `main` are the interactive front end. `ReviveAfterDisconnect` follows `main`'s connect, store, disconnect and revive path without its I/O. `ReviveWithoutStore` calls the class directly on a path `main` never takes: `main` revives only after a successful disconnect, which it always precedes with `storeSession`, so the nil-id revive concerns only a direct caller of the class.
- Peripheral.UdpPeripheral.ZeroWay: requires `|msg| <= 1440`. The C++ copies the message into a 1472-byte buffer without checking its length, and `main` passes it an arbitrary typed line. This is an unchecked assumption of the C++.
- Wire.Unpack32: the shift is modelled as an unsigned 32-bit shift. In the C++, `p[i]` is promoted to a signed `int`, so `p[3] << 24` overflows for bytes of 0x80 and above. The intended result is the unsigned one modelled here.
- Fragmentation, sliding-window flow control, retransmission and reassembly do not exist in this client.
