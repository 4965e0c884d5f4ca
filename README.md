# Handshake file transfer, modelled in Dafny

Two C++ programs form a small TCP file-transfer protocol.

- `server.cpp` listens on a port and serves one file to each client that connects.
- `client.cpp` connects, learns what is offered and prints the file it receives.

On one connection:

1. The client sends its name and the request string `"Query file name"`.
2. The server answers with its own name, the file path and the file size.
3. The client sends `"Start"`.
4. The server streams the file in frames. Each frame is a `'1'` marker followed by at
   most 100 bytes of data. Two `'0'` markers close the stream.

Strings travel with a 4-byte length prefix in network byte order. The size travels as
8 bytes in network byte order, written with `host_to_be64` and read with `be64_to_host`.

The model has eight modules, one file each:

- `wire.dfy` (`Wire`): bytes, the two marker bytes, the port floor and the error
  conditions. It also holds three small sequence lemmas.
- `byteorder.dfy` (`ByteOrder`): how an integer becomes bytes in memory and on the wire.
  This covers `htonl`/`ntohl` and `host_to_be64`/`be64_to_host`. The host's byte order
  is a parameter (`Endian`), and numbers are unbounded naturals with explicit
  2^32 and 2^64 bounds.
- `transport.dfy` (`Transport`): one peer's view of a connection, as two classes.
  - `Outbound` is a stream that `send_all` appends to.
  - `Inbound` is a stream that `recv_all` reads with a cursor.
  - `send` and `recv` are partial transfers: each call moves any number of bytes from
    1 up to what was asked. `recv` on a closed connection is fatal.
- `strings.dfy` (`Strings`): `send_string` and `recv_string` as methods. The encoding and
  decoding functions they are proved against are in the same module.
- `messages.dfy` (`Messages`): the handshake messages as byte strings.
- `server.dfy` (`Server`):
  - the framing of the file;
  - the send loop;
  - the handshake;
  - one connection behind the port check.
- `client.dfy` (`Client`):
  - the handshake;
  - the receive loop, as a method walking the inbound stream, proved against the
    recursive function `Receive`;
  - the program behind its port check.
- `conversation.dfy` (`Conversation`): both programs against each other. The client,
  fed the server's stream for a file D, prints exactly D and consumes the whole stream.
  Both hosts may use any byte order.

Every `exit(1)` the model keeps becomes an error value:

- `PeerClosed`: `recv` returned 0.
- `UnexpectedMarker`: a marker byte other than `'0'` or `'1'`.
- `PortRejected`: the port is 5000 or below.

In two places the code does less than its own comments and log lines announce. The
model follows the code.

- **A client that closes early ends the server.** The server logs "waiting for next
  client..." after each connection (server.cpp:168), so it means to go on serving. But
  its `recv_all` calls `exit(1)` when the peer closes before a read is complete
  (server.cpp:58). In the model, `Server.RunServer` returns that failure and serves no
  further connection.
  - Its `send_all` also calls `die("send")` when `send` fails (server.cpp:48). With
    `SIGPIPE` ignored (server.cpp:120), that happens once the client has closed or reset
    the connection (EPIPE or ECONNRESET). A client that only stops reading makes `send`
    block, since there is no timeout.
  - The model does not represent send failures: a client that disconnects during the
    file stream still gives `Pass` (see the `Transport.Outbound.SendAll` line under
    "Left out").
- **The client trusts the end marker.** The comment "receive: '1'+up to 100 bytes ...
  until '0','0'" (client.cpp:125) and the log line "received termination pair 0,0"
  (client.cpp:131) announce a pair of end markers.
  - After a `'0'` the client reads one more byte and does not check it.
  - A `'0'` arriving before `fileSize` bytes are in still ends the transfer as a
    success, with the shorter payload.

  The model's `Client.Receive` follows the code, and `Client.EarlyEndAccepted` shows
  both behaviours.

## Model

| member | source | states |
|---|---|---|
| ByteOrder.HostToBe64 | server.cpp:30-37 | host_to_be64 of a uint64 is again a uint64 (the swap of the halves through htonl on a little-endian host cannot overflow) |
| ByteOrder.Be64ToHost | server.cpp:38 | be64_to_host of a uint64 is again a uint64 |
| ByteOrder.Htonl | server.cpp:66 | htonl of a uint32 is again a uint32 |
| ByteOrder.BigEndianRoundTrip | server.cpp:151-152 | a number below 256^k is recovered from its k network-order bytes |
| ByteOrder.FromBigEndianRoundTrip | client.cpp:114-115 | any k bytes are the network-order bytes of the number they spell |
| ByteOrder.HtonlOnWire | server.cpp:66-67 | whatever the host's byte order, the 4 bytes send_string writes from htonl(n) are n in network order |
| ByteOrder.NtohlFromWire | server.cpp:71 | whatever the host's byte order, ntohl of the 4 bytes read is their network-order value, a uint32 |
| ByteOrder.HostToBe64OnWire | server.cpp:151-152 | whatever the host's byte order, the 8 bytes sent for host_to_be64(x) are x in network order |
| ByteOrder.Be64ToHostFromWire | client.cpp:114-115 | whatever the host's byte order, be64_to_host of the 8 bytes read is their network-order value, a uint64 |
| ByteOrder.Be64RoundTrip | client.cpp:32 | be64_to_host undoes host_to_be64 for every uint64 on either host |
| ByteOrder.BigEndianHalves | server.cpp:32-33 | the 8 network-order bytes of a 64-bit value are those of its high 32-bit half followed by those of its low half |
| Transport.Outbound.SendAll | server.cpp:44-51 | after any sequence of partial sends the stream has been extended by exactly the buffer |
| Transport.Inbound.RecvAll | server.cpp:53-62 | when len bytes remain, exactly the next len bytes are returned and the cursor advances by len; otherwise PeerClosed after every remaining byte is consumed |
| Strings.EncodeString | server.cpp:65-69 | send_string writes 4 + \|s\| bytes: a prefix whose network-order value is \|s\|, then s |
| Strings.DecodeString | server.cpp:70-73 | a successful recv_string consumes 4 + \|s\| bytes of its input; every failure is PeerClosed |
| Strings.DecodeEncode | server.cpp:70-73 | recv_string reads back exactly the string send_string framed, whatever follows it, consuming 4 + \|s\| bytes |
| Strings.EncodeDecode | server.cpp:70-73 | a successful recv_string sees one framed string at the front of its input; a failing one sees no framed string of any length there |
| Strings.DecodedIsFramed | server.cpp:70-73 | the input of a successful recv_string is the frame of the string read, then what follows |
| Strings.NotFramed | server.cpp:70-73 | when recv_string fails, the input begins with no frame of any sendable string |
| Strings.PrefixOnWire | server.cpp:66-68 | the prefix in the host's memory followed by the body is the framed string on every host |
| Strings.SendString | server.cpp:65-69 | send_string appends exactly the framed string; the body is sent only when non-empty |
| Strings.RecvString | server.cpp:70-73 | recv_string returns the string decoded from the unread input and advances past its frame, or fails with PeerClosed having read everything |
| Server.FramesAreFramedChunks | server.cpp:160-164 | the send loop's output is each payload behind one '1' marker |
| Server.ChunksCoverData | server.cpp:159-164 | the payloads, joined, are the file from the current position on: nothing lost, repeated or reordered |
| Server.ChunkSizes | server.cpp:162 | each payload holds 1 to 100 bytes, and every payload but the last exactly 100 |
| Server.ChunkCount | server.cpp:158-164 | the number of data frames is the remaining size divided by 100, rounded up |
| Server.FramedLength | server.cpp:161-163 | framing adds exactly one marker byte per payload |
| Server.StreamLayout | server.cpp:158-165 | the stream after the handshake is the framed payloads and the two '0's: size + ceil(size / 100) + 2 bytes |
| Server.EmptyFileStream | server.cpp:165 | an empty file is sent as "00" alone |
| Server.TwoHundredFiftyBytes | server.cpp:158-164 | a 250-byte file goes out as payloads of 100, 100 and 50 bytes |
| Server.SendFile | server.cpp:158-165 | the send loop appends exactly the framed file and the two end markers |
| Server.ReadRequest | server.cpp:143-144 | reading the client's two strings never consumes more than the input |
| Server.SessionShape | server.cpp:143-165 | one connection either passes and writes the reply then the file stream, or fails with PeerClosed having read everything and written nothing or only the reply; no file byte is written before "Start" is read |
| Server.ReceiveRequest | server.cpp:143-144 | two recv_string calls read exactly the client's two strings, or fail having read everything |
| Server.SendReply | server.cpp:149-152 | the reply written is server name, file path and the size in network order, on every host |
| Server.ServerHandshake | server.cpp:143-155 | the server reads two strings before writing anything, writes the reply, then reads one more string; what it writes and reads is the handshake function of its input |
| Server.ServeConnection | server.cpp:143-165 | one connection writes the reply and then the file stream only after a complete handshake |
| Server.RunServer | server.cpp:112 | a port of 5000 or below is refused before anything is read or written; otherwise one connection is served |
| Client.ReadNames | client.cpp:112-113 | reading the server's two strings never consumes more than the input |
| Client.ReceiveBounds | client.cpp:127-137 | the loop never reads past its input and never prints more than the announced size |
| Client.ClosedAfterAllRead | client.cpp:129-136 | the loop fails on a closed connection only after reading every byte there was |
| Client.BadMarkerIsLastRead | client.cpp:132-133 | a protocol error names a marker other than '0' and '1', and that marker is the last byte read |
| Client.PassEndsWithEndMarker | client.cpp:130-131 | the loop succeeds only on a '0', after exactly one more byte of any value |
| Client.IdleMarkers | client.cpp:135 | once the whole size is in, each further '1' is read alone and adds nothing |
| Client.EarlyEndAccepted | client.cpp:130-131 | a '0' with any byte after it ends the transfer as a success before the announced size has arrived |
| Client.ReceiveOffer | client.cpp:112-115 | the client reads the two strings and the 8-byte size, converted with be64_to_host, or fails having read everything |
| Client.ReceiveNames | client.cpp:112-113 | two recv_string calls read exactly the server's two strings, or fail having read everything |
| Client.ClientHandshake | client.cpp:108-123 | the name and the request go out before anything is read; "Start" goes out only after the whole offer is in |
| Client.ReadFrame | client.cpp:129-137 | one frame read is the first step of the receive function: a stop with its outcome, or a payload followed by what the loop makes of the rest |
| Client.ReceivePass | client.cpp:128-137 | one pass of the loop prints its frame's payload, counts it, and keeps the printed bytes a prefix of the whole transfer |
| Client.ReceiveFile | client.cpp:126-138 | the receive loop prints exactly the payload of the receive function, reads exactly the bytes it consumes, and ends with its outcome |
| Client.RunClient | client.cpp:87 | a port of 5000 or below is refused before anything is sent; otherwise the handshake, then the receive loop with the size the server announced; on every path the cursor ends where the program stops reading (the whole input after a failed handshake) |
| Conversation.OfferRoundTrip | client.cpp:112-115 | the client reads back the server's name, file path and size from the reply, consuming exactly the reply |
| Conversation.ServerAcceptsClient | server.cpp:143-155 | the server takes the client's three messages as a complete handshake and reads nothing beyond them |
| Conversation.SessionPasses | server.cpp:143-165 | fed the client's messages, the server passes and writes the reply then the file stream |
| Conversation.FirstFrame | server.cpp:160-163 | the first frame of the stream is a '1' and the first payload, followed by the frames for the rest of the file |
| Conversation.FrameThenRest | client.cpp:134-137 | one complete data frame followed by a stream received as the rest of the file is received as the file from that frame on |
| Conversation.ReceiveFrames | client.cpp:128-138 | the loop, fed the frames for the file from any position and a '0' with any byte, prints exactly the file from that position and stops after those two bytes |
| Conversation.FileRoundTrip | client.cpp:126-138 | the loop, fed the server's stream for file D with fileSize = \|D\|, prints exactly D, passes and consumes the whole stream |
| Conversation.ConversationRoundTrip | server.cpp:143-165 | one whole conversation over byte streams: the server passes, and the client recovers the offer and the file and consumes everything the server wrote |
| Conversation.ServeInput | server.cpp:143-165 | the server over a fresh connection writes what the session function of the client's bytes says |
| Conversation.ClientOver | client.cpp:107-138 | the client over a fresh connection writes its messages and prints what the receive function of the server's bytes says |
| Conversation.OneConnection | client.cpp:107-138 | the two programs connected, on hosts of any byte order: the client writes its three messages, learns the exact offer, prints exactly the file, and succeeds |

## Left out

- Sockets (`socket`, `bind`, `listen`, `accept`, `connect`, `close`, `setsockopt`) and name resolution (`getaddrinfo`) are left out: they are calls into the operating system. A connection is given to the model as an `Inbound` and an `Outbound` stream.
- `detect_local_ip` and `peer_to_string` are left out. They only enumerate interfaces and format addresses for log lines.
- Reading the file through `ifstream` is left out, including the failure to open it. The file's bytes are a parameter.
- Argument count checks and the `atoi` parsing of the port are left out. The port is an integer that has already been parsed.
- `SIGPIPE` handling is left out. A `send` or `recv` that fails with `EINTR` is retried by the programs; the model's partial transfers never fail that way.
- Transport.Outbound.SendAll: every `send` is modelled as succeeding. The fatal `die("send")` is not modelled. `send` fails that way once the peer has closed or reset the connection (EPIPE or ECONNRESET, with `SIGPIPE` ignored). So a client that disconnects while the file is streamed ends the server process in the program, but gives `Pass` in the model.
- Transport.Inbound.RecvAll: a `recv` error other than a closed connection (`die("recv")`) is not modelled. Only the closed connection is.
- Server.RunServer: the accept loop is not modelled. One connection is modelled, since the loop keeps no state between clients besides the read-only file.
- Printing is not modelled. The client's printed bytes are returned as its payload, and log lines are dropped.
- Strings.EncodeString: the `requires` excludes strings of 2^32 bytes or more, for which the cast to `uint32_t` would truncate the length prefix. The same bound applies to Strings.SendString and to every message the programs send.
- Strings.RecvString: `std::string s(n, '\0')` (server.cpp:72, client.cpp:66) allocates the full length the prefix announces, up to 4 GiB, before any body byte arrives. The model does not represent that allocation failing, which would end the program through `std::bad_alloc` and `std::terminate` rather than `exit(1)`. The model's `Strings.DecodeString` simply waits for the n bytes.
- The `__APPLE__` branch (`OSSwapHostToBigInt64`) is not modelled separately. It produces the same network-order bytes as the portable branch, so one `Endian` parameter stands for both.
- The `received` and `sent` counters (`uint64_t`) and the `size_t` lengths are unbounded naturals. They never exceed the file size, which is below 2^64.
