/**
 * The sending side (server.cpp): the chunked framing of the file, the loop that
 * writes it, and one connection from the first handshake read to the end markers.
 */
module Server {
  import opened Wire
  import opened ByteOrder
  import opened Transport
  import Strings
  import opened Messages

  /** The largest payload one data frame carries. */
  const ChunkSize: nat := 100

  /** The payload size of the frame written when `sent` of `fileSize` bytes are out. */
  function ChunkLen(fileSize: nat, sent: nat): nat
    requires sent <= fileSize
  {
    Min(ChunkSize, fileSize - sent)
  }

  /** The data frames for fileData[sent..]: '1' then the next chunk, until all is out. */
  function FramesFrom(fileData: seq<byte>, sent: nat): seq<byte>
    requires sent <= |fileData|
    decreases |fileData| - sent
  {
    if sent == |fileData| then []
    else
      var n := ChunkLen(|fileData|, sent);
      [MarkerMore] + fileData[sent..sent + n] + FramesFrom(fileData, sent + n)
  }

  /** Everything the server writes after the handshake: the data frames, then two '0's. */
  function ChunkStream(fileData: seq<byte>): seq<byte>
  {
    FramesFrom(fileData, 0) + [MarkerEnd, MarkerEnd]
  }

  /** The payloads of the data frames for fileData[sent..], in order. */
  function Chunks(fileData: seq<byte>, sent: nat): seq<seq<byte>>
    requires sent <= |fileData|
    decreases |fileData| - sent
  {
    if sent == |fileData| then []
    else
      var n := ChunkLen(|fileData|, sent);
      [fileData[sent..sent + n]] + Chunks(fileData, sent + n)
  }

  /** Each payload behind its '1' marker. */
  function Framed(chunks: seq<seq<byte>>): seq<byte>
  {
    if chunks == [] then [] else [MarkerMore] + chunks[0] + Framed(chunks[1..])
  }

  function Concat(chunks: seq<seq<byte>>): seq<byte>
  {
    if chunks == [] then [] else chunks[0] + Concat(chunks[1..])
  }

  /** The frames are exactly the chunks, each behind a '1'. */
  lemma {:induction false} FramesAreFramedChunks(fileData: seq<byte>, sent: nat)
    requires sent <= |fileData|
    ensures FramesFrom(fileData, sent) == Framed(Chunks(fileData, sent))
    decreases |fileData| - sent
  {
    if sent < |fileData| {
      var n := ChunkLen(|fileData|, sent);
      FramesAreFramedChunks(fileData, sent + n);
      var cs := Chunks(fileData, sent);
      assert cs[0] == fileData[sent..sent + n] && cs[1..] == Chunks(fileData, sent + n);
    }
  }

  /** The payloads, joined, are the file from `sent` on: nothing lost, duplicated or reordered. */
  lemma {:induction false} ChunksCoverData(fileData: seq<byte>, sent: nat)
    requires sent <= |fileData|
    ensures Concat(Chunks(fileData, sent)) == fileData[sent..]
    decreases |fileData| - sent
  {
    if sent < |fileData| {
      var n := ChunkLen(|fileData|, sent);
      var chunk, rest := fileData[sent..sent + n], Chunks(fileData, sent + n);
      ChunksCoverData(fileData, sent + n);
      var cs := Chunks(fileData, sent);
      assert cs == [chunk] + rest;
      assert cs[0] == chunk && cs[1..] == rest;
      assert Concat(cs) == chunk + Concat(rest);
      SplitAt(fileData, sent, sent + n);
    }
  }

  /** Every payload holds 1 to ChunkSize bytes, and all but the last exactly ChunkSize. */
  predicate WellSized(chunks: seq<seq<byte>>)
  {
    forall i :: 0 <= i < |chunks| ==>
      1 <= |chunks[i]| <= ChunkSize && (i < |chunks| - 1 ==> |chunks[i]| == ChunkSize)
  }

  /** The payloads are cut as the sender's loop promises: full chunks, then one short one. */
  lemma {:induction false} ChunkSizes(fileData: seq<byte>, sent: nat)
    requires sent <= |fileData|
    ensures WellSized(Chunks(fileData, sent))
    decreases |fileData| - sent
  {
    if sent < |fileData| {
      var n := ChunkLen(|fileData|, sent);
      ChunkSizes(fileData, sent + n);
      var rest := Chunks(fileData, sent + n);
      var cs := Chunks(fileData, sent);
      assert cs == [fileData[sent..sent + n]] + rest;
      assert n < ChunkSize ==> sent + n == |fileData| && rest == [];
      forall i | 0 <= i < |cs|
        ensures 1 <= |cs[i]| <= ChunkSize && (i < |cs| - 1 ==> |cs[i]| == ChunkSize)
      {
        if i > 0 {
          assert cs[i] == rest[i - 1];
        }
      }
    }
  }

  /** The number of data frames is the file size divided by ChunkSize, rounded up. */
  lemma {:induction false} ChunkCount(fileData: seq<byte>, sent: nat)
    requires sent <= |fileData|
    ensures |Chunks(fileData, sent)| == (|fileData| - sent + ChunkSize - 1) / ChunkSize
    decreases |fileData| - sent
  {
    if sent < |fileData| {
      ChunkCount(fileData, sent + ChunkLen(|fileData|, sent));
    }
  }

  /** The stream after the handshake is the framed chunks and the two end markers, one
      marker byte per chunk on top of the file's own bytes. */
  lemma StreamLayout(fileData: seq<byte>)
    ensures ChunkStream(fileData) == Framed(Chunks(fileData, 0)) + [MarkerEnd, MarkerEnd]
    ensures |ChunkStream(fileData)| == |fileData| + (|fileData| + ChunkSize - 1) / ChunkSize + 2
  {
    FramesAreFramedChunks(fileData, 0);
    ChunkCount(fileData, 0);
    FramedLength(Chunks(fileData, 0));
    ChunksCoverData(fileData, 0);
  }

  lemma {:induction false} FramedLength(chunks: seq<seq<byte>>)
    ensures |Framed(chunks)| == |Concat(chunks)| + |chunks|
  {
    if chunks != [] {
      FramedLength(chunks[1..]);
    }
  }

  /** An empty file is sent as the two end markers alone. */
  lemma EmptyFileStream()
    ensures ChunkStream([]) == [MarkerEnd, MarkerEnd]
  {
  }

  /** A 250-byte file goes out as three data frames of 100, 100 and 50 bytes. */
  lemma TwoHundredFiftyBytes(fileData: seq<byte>)
    requires |fileData| == 250
    ensures var cs := Chunks(fileData, 0);
            |cs| == 3 && |cs[0]| == 100 && |cs[1]| == 100 && |cs[2]| == 50
  {
    assert Chunks(fileData, 200) == [fileData[200..250]] + Chunks(fileData, 250);
    assert Chunks(fileData, 100) == [fileData[100..200]] + Chunks(fileData, 200);
    assert Chunks(fileData, 0) == [fileData[0..100]] + Chunks(fileData, 100);
  }

  /** The send loop: while sent < fileSize, '1' then the next min(ChunkSize, fileSize -
      sent) bytes; afterwards '0' twice. */
  method SendFile(out: Outbound, fileData: seq<byte>)
    modifies out
    ensures out.written == old(out.written) + ChunkStream(fileData)
  {
    var fileSize := |fileData|;
    var sent := 0;
    while sent < fileSize
      invariant sent <= fileSize
      invariant out.written + FramesFrom(fileData, sent) == old(out.written) + FramesFrom(fileData, 0)
      decreases fileSize - sent
    {
      var n := Min(ChunkSize, fileSize - sent);
      var frame := [MarkerMore] + fileData[sent..sent + n];
      assert FramesFrom(fileData, sent) == frame + FramesFrom(fileData, sent + n);
      ghost var before := out.written;
      out.SendAll([MarkerMore]);
      out.SendAll(fileData[sent..sent + n]);
      ConcatAssoc(before, [MarkerMore], fileData[sent..sent + n]);
      ConcatAssoc(before, frame, FramesFrom(fileData, sent + n));
      sent := sent + n;
    }
    ghost var frames := out.written;
    assert frames == old(out.written) + FramesFrom(fileData, 0);
    out.SendAll([MarkerEnd]);
    out.SendAll([MarkerEnd]);
    ConcatAssoc(frames, [MarkerEnd], [MarkerEnd]);
    assert [MarkerEnd] + [MarkerEnd] == [MarkerEnd, MarkerEnd];
    ConcatAssoc(old(out.written), FramesFrom(fileData, 0), [MarkerEnd, MarkerEnd]);
  }

  /** What one connection amounts to, as a function of what the client sends. */
  datatype Exchange = Exchange(sent: seq<byte>, consumed: nat, outcome: Outcome)

  /** The client's first two messages, its name and its request, are read whatever
      they say: how many bytes they take, or why they could not be read. */
  function ReadRequest(input: seq<byte>): (r: Result<nat>)
    ensures r.Ok? ==> r.value <= |input|
  {
    match Strings.DecodeString(input)
    case Err(e) => Err(e)
    case Ok((_, nameLen)) =>
      match Strings.DecodeString(input[nameLen..])
      case Err(e) => Err(e)
      case Ok((_, queryLen)) => Ok(nameLen + queryLen)
  }

  /** The handshake: read two strings (the client's name and its request), reply with the
      offer, read one more string (the ready signal). Every string read is taken whatever
      it says; a read that runs out of input ends the exchange. */
  function Handshake(offer: Offer, input: seq<byte>): Exchange
    requires Messages.Sendable(offer)
  {
    match ReadRequest(input)
    case Err(e) => Exchange([], |input|, Fail(e))
    case Ok(read) =>
      match Strings.DecodeString(input[read..])
      case Err(e) => Exchange(ServerReply(offer), |input|, Fail(e))
      case Ok((_, readyLen)) => Exchange(ServerReply(offer), read + readyLen, Pass)
  }

  /** One connection: the handshake, then, if it completed, the file. */
  function Session(serverName: seq<byte>, filePath: seq<byte>, fileData: seq<byte>,
                   input: seq<byte>): Exchange
    requires Messages.Sendable(Offer(serverName, filePath, |fileData|))
  {
    var h := Handshake(Offer(serverName, filePath, |fileData|), input);
    if h.outcome.Pass? then Exchange(h.sent + ChunkStream(fileData), h.consumed, Pass) else h
  }

  /** A connection either streams the whole reply and file, having read no more than the
      client sent, or stops on a closed connection having written nothing or only the
      reply: the server never writes file data before the ready signal is in. */
  lemma SessionShape(serverName: seq<byte>, filePath: seq<byte>, fileData: seq<byte>,
                     input: seq<byte>)
    requires Messages.Sendable(Offer(serverName, filePath, |fileData|))
    ensures var x := Session(serverName, filePath, fileData, input);
            var reply := ServerReply(Offer(serverName, filePath, |fileData|));
            && x.consumed <= |input|
            && (x.outcome == Pass ==> x.sent == reply + ChunkStream(fileData))
            && (x.outcome.Fail? ==>
                  x.outcome.error == PeerClosed && x.consumed == |input|
                  && (x.sent == [] || x.sent == reply))
  {
  }

  /** The handshake part of the accept loop's body (server.cpp, from the first recv_string
      to the ready signal). */
  method ServerHandshake(host: Endian, offer: Offer, inp: Inbound, out: Outbound)
    returns (o: Outcome)
    requires Messages.Sendable(offer)
    requires inp.Valid()
    modifies inp, out
    ensures inp.Valid()
    ensures var x := Handshake(offer, old(inp.Remaining()));
            out.written == old(out.written) + x.sent && inp.pos == old(inp.pos) + x.consumed
            && o == x.outcome
  {
    ghost var input := inp.Remaining();
    ghost var start := inp.pos;
    var request := ReceiveRequest(host, inp);
    if request.Fail? {
      return request;
    }
    assert inp.Remaining() == input[inp.pos - start..];
    SendReply(host, offer, out);
    var ready := Strings.RecvString(host, inp);
    if ready.Err? {
      return Fail(ready.error);
    }
    return Pass;
  }

  /** The two recv_string calls for the client's name and its request. */
  method ReceiveRequest(host: Endian, inp: Inbound) returns (o: Outcome)
    requires inp.Valid()
    modifies inp
    ensures inp.Valid()
    ensures var expected := ReadRequest(old(inp.Remaining()));
            && (expected.Ok? ==> o == Pass && inp.pos == old(inp.pos) + expected.value)
            && (expected.Err? ==> o == Fail(expected.error) && inp.pos == |inp.stream|)
  {
    ghost var input := inp.Remaining();
    ghost var start := inp.pos;
    var clientName := Strings.RecvString(host, inp);
    if clientName.Err? {
      return Fail(clientName.error);
    }
    assert inp.Remaining() == input[inp.pos - start..];
    var query := Strings.RecvString(host, inp);
    if query.Err? {
      return Fail(query.error);
    }
    return Pass;
  }

  /** The reply: server name, file path, and the size through host_to_be64. */
  method SendReply(host: Endian, offer: Offer, out: Outbound)
    requires Messages.Sendable(offer)
    modifies out
    ensures out.written == old(out.written) + ServerReply(offer)
  {
    ghost var before := out.written;
    ghost var name := Strings.EncodeString(offer.serverName);
    ghost var path := Strings.EncodeString(offer.fileName);
    Strings.SendString(host, out, offer.serverName);
    Strings.SendString(host, out, offer.fileName);
    ConcatAssoc(before, name, path);
    var netSize := HostToBe64(host, offer.fileSize);
    var sizeBytes := InMemory(host, netSize, 8);
    HostToBe64OnWire(host, offer.fileSize);
    out.SendAll(sizeBytes);
    ConcatAssoc(before, name + path, sizeBytes);
  }

  /** The body of the accept loop for one client (server.cpp, handshake to end markers). */
  method ServeConnection(host: Endian, serverName: seq<byte>, filePath: seq<byte>,
                         fileData: seq<byte>, inp: Inbound, out: Outbound)
    returns (o: Outcome)
    requires Messages.Sendable(Offer(serverName, filePath, |fileData|))
    requires inp.Valid()
    modifies inp, out
    ensures inp.Valid()
    ensures var x := Session(serverName, filePath, fileData, old(inp.Remaining()));
            out.written == old(out.written) + x.sent && inp.pos == old(inp.pos) + x.consumed
            && o == x.outcome
  {
    ghost var h := Handshake(Offer(serverName, filePath, |fileData|), inp.Remaining());
    o := ServerHandshake(host, Offer(serverName, filePath, |fileData|), inp, out);
    if o.Pass? {
      SendFile(out, fileData);
      ConcatAssoc(old(out.written), h.sent, ChunkStream(fileData));
    }
  }

  /** The server from its command line on: refuse a port not above PortFloor before
      listening, otherwise serve the connection. The file's bytes are given. */
  method RunServer(host: Endian, port: int, serverName: seq<byte>, filePath: seq<byte>,
                   fileData: seq<byte>, inp: Inbound, out: Outbound)
    returns (o: Outcome)
    requires Messages.Sendable(Offer(serverName, filePath, |fileData|))
    requires inp.Valid()
    modifies inp, out
    ensures inp.Valid()
    ensures port <= PortFloor ==>
              o == Fail(PortRejected(port)) && out.written == old(out.written)
              && inp.pos == old(inp.pos)
    ensures port > PortFloor ==>
              var x := Session(serverName, filePath, fileData, old(inp.Remaining()));
              out.written == old(out.written) + x.sent && inp.pos == old(inp.pos) + x.consumed
              && o == x.outcome
  {
    if port <= PortFloor {
      return Fail(PortRejected(port));
    }
    o := ServeConnection(host, serverName, filePath, fileData, inp, out);
  }
}
