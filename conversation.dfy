/**
 * Both programs together: what the server writes is what the client reads and the
 * other way round. The client recovers the offer and the file exactly, whatever the
 * byte order of either host.
 */
module Conversation {
  import opened Wire
  import opened ByteOrder
  import opened Transport
  import Strings
  import opened Messages
  import Server
  import Client

  /** The client reads back the offer from the server's reply, byte for byte. */
  lemma OfferRoundTrip(offer: Offer, rest: seq<byte>)
    requires Messages.Sendable(offer)
    ensures Client.ReadOffer(ServerReply(offer) + rest) == Ok((offer, |ServerReply(offer)|))
  {
    var name := Strings.EncodeString(offer.serverName);
    var path := Strings.EncodeString(offer.fileName);
    var size := BigEndian(offer.fileSize, 8);
    var input := ServerReply(offer) + rest;
    var read := |name| + |path|;
    assert input == name + (path + (size + rest)) by {
      ConcatAssoc(name, path, size);
      ConcatAssoc(name, path + size, rest);
      ConcatAssoc(path, size, rest);
    }
    assert input[|name|..] == path + (size + rest);
    assert input[read..] == size + rest;
    assert FromBigEndian(input[read..read + 8]) == offer.fileSize by {
      assert input[read..read + 8] == size;
      Pow256Widths();
      BigEndianRoundTrip(offer.fileSize, 8);
    }
    Strings.DecodeEncode(offer.serverName, path + (size + rest));
    Strings.DecodeEncode(offer.fileName, size + rest);
  }

  /** The server takes the client's three messages as a complete handshake and reads
      nothing past them. */
  lemma ServerAcceptsClient(offer: Offer, clientName: seq<byte>, rest: seq<byte>)
    requires Messages.Sendable(offer) && Strings.Sendable(clientName)
    ensures var hello := ClientHello(clientName) + ClientReady();
            Server.Handshake(offer, hello + rest) == Server.Exchange(ServerReply(offer), |hello|, Pass)
  {
    var name := Strings.EncodeString(clientName);
    var query := Strings.EncodeString(QueryText());
    var ready := Strings.EncodeString(StartText());
    var input := ClientHello(clientName) + ClientReady() + rest;
    assert input == name + (query + ready + rest);
    Strings.DecodeEncode(clientName, query + ready + rest);
    assert input[|name|..] == query + (ready + rest);
    Strings.DecodeEncode(QueryText(), ready + rest);
    assert input[|name| + |query|..] == ready + rest;
    Strings.DecodeEncode(StartText(), rest);
  }

  /** The receive loop, fed at index `at` the data frames for fileData[sent..] and a '0'
      with any byte after it, prints exactly fileData[sent..] and stops right after
      those two bytes. */
  lemma {:induction false} ReceiveFrames(fileData: seq<byte>, sent: nat, input: seq<byte>, at: nat)
    requires sent <= |fileData|
    requires at + |Server.FramesFrom(fileData, sent)| + 2 <= |input|
    requires input[at..at + |Server.FramesFrom(fileData, sent)|] == Server.FramesFrom(fileData, sent)
    requires input[at + |Server.FramesFrom(fileData, sent)|] == MarkerEnd
    ensures Client.Receive(input, at, |fileData|, sent)
            == Client.Transfer(fileData[sent..], |Server.FramesFrom(fileData, sent)| + 2, Pass)
    decreases |fileData| - sent
  {
    if sent < |fileData| {
      var n := Server.ChunkLen(|fileData|, sent);
      FirstFrame(fileData, sent, input, at);
      ReceiveFrames(fileData, sent + n, input, at + 1 + n);
      FrameThenRest(fileData, sent, n, input, at, |Server.FramesFrom(fileData, sent + n)| + 2);
    } else {
      assert fileData[sent..] == [];
    }
  }

  /** Where the frames for fileData[sent..] sit in `input`: the first frame's marker and
      payload, then the frames for the rest. */
  lemma FirstFrame(fileData: seq<byte>, sent: nat, input: seq<byte>, at: nat)
    requires sent < |fileData|
    requires at + |Server.FramesFrom(fileData, sent)| <= |input|
    requires input[at..at + |Server.FramesFrom(fileData, sent)|] == Server.FramesFrom(fileData, sent)
    ensures var n := Server.ChunkLen(|fileData|, sent);
            var later := Server.FramesFrom(fileData, sent + n);
            && |Server.FramesFrom(fileData, sent)| == 1 + n + |later|
            && input[at] == MarkerMore && input[at + 1..at + 1 + n] == fileData[sent..sent + n]
            && input[at + 1 + n..at + 1 + n + |later|] == later
  {
    var frames := Server.FramesFrom(fileData, sent);
    var n := Server.ChunkLen(|fileData|, sent);
    var chunk := fileData[sent..sent + n];
    var later := Server.FramesFrom(fileData, sent + n);
    assert frames == [MarkerMore] + chunk + later;
    assert frames[0] == MarkerMore && frames[1..1 + n] == chunk && frames[1 + n..] == later;
    var end := at + |frames|;
    assert input[at] == input[at..end][0];
    SliceOfSlice(input, at, end, 1, 1 + n);
    SliceOfSlice(input, at, end, 1 + n, |frames|);
  }

  /** One data frame carrying fileData[sent..sent + n], followed by input the loop turns
      into the rest of the file, is received as the file from `sent` on. */
  lemma FrameThenRest(fileData: seq<byte>, sent: nat, n: nat, input: seq<byte>, at: nat, later: nat)
    requires sent < |fileData| && n == Server.ChunkLen(|fileData|, sent)
    requires at + 1 + n <= |input| && input[at] == MarkerMore
    requires input[at + 1..at + 1 + n] == fileData[sent..sent + n]
    requires Client.Receive(input, at + 1 + n, |fileData|, sent + n)
             == Client.Transfer(fileData[sent + n..], later, Pass)
    ensures Client.Receive(input, at, |fileData|, sent)
            == Client.Transfer(fileData[sent..], 1 + n + later, Pass)
  {
    Client.ReceiveDataFrame(input, at, |fileData|, sent, n);
    SplitAt(fileData, sent, sent + n);
  }

  /** The key property: everything the server writes after the handshake, received with
      the size it announced, is the file, and the client stops at the end markers. */
  lemma FileRoundTrip(fileData: seq<byte>, input: seq<byte>, at: nat)
    requires at + |Server.ChunkStream(fileData)| <= |input|
    requires input[at..at + |Server.ChunkStream(fileData)|] == Server.ChunkStream(fileData)
    ensures Client.Receive(input, at, |fileData|, 0)
            == Client.Transfer(fileData, |Server.ChunkStream(fileData)|, Pass)
  {
    var frames := Server.FramesFrom(fileData, 0);
    var window := input[at..at + |Server.ChunkStream(fileData)|];
    assert input[at..at + |frames|] == window[..|frames|] == frames;
    assert input[at + |frames|] == window[|frames|] == MarkerEnd;
    ReceiveFrames(fileData, 0, input, at);
    assert fileData[0..] == fileData;
  }

  /** One whole conversation on the level of byte streams: the server, fed the client's
      messages, passes and writes a stream from which the client reads the offer and the
      whole file, consuming every byte. */
  lemma ConversationRoundTrip(serverName: seq<byte>, filePath: seq<byte>, fileData: seq<byte>,
                              clientName: seq<byte>)
    requires Messages.Sendable(Offer(serverName, filePath, |fileData|))
    requires Strings.Sendable(clientName)
    ensures var offer := Offer(serverName, filePath, |fileData|);
            var x := Server.Session(serverName, filePath, fileData,
                                    ClientHello(clientName) + ClientReady());
            var k := |ServerReply(offer)|;
            && x.outcome == Pass
            && x.consumed == |ClientHello(clientName) + ClientReady()|
            && Client.ReadOffer(x.sent) == Ok((offer, k))
            && Client.Receive(x.sent, k, |fileData|, 0) == Client.Transfer(fileData, |x.sent| - k, Pass)
  {
    var offer := Offer(serverName, filePath, |fileData|);
    var k := |ServerReply(offer)|;
    var stream := Server.ChunkStream(fileData);
    var sent := ServerReply(offer) + stream;
    assert sent[k..k + |stream|] == stream;
    FileRoundTrip(fileData, sent, k);
    SessionPasses(serverName, filePath, fileData, clientName);
    OfferRoundTrip(offer, stream);
  }

  /** The server side of one whole conversation: it passes, having read exactly the
      client's messages, and writes its reply followed by the file stream. */
  lemma SessionPasses(serverName: seq<byte>, filePath: seq<byte>, fileData: seq<byte>,
                      clientName: seq<byte>)
    requires Messages.Sendable(Offer(serverName, filePath, |fileData|))
    requires Strings.Sendable(clientName)
    ensures var hello := ClientHello(clientName) + ClientReady();
            Server.Session(serverName, filePath, fileData, hello)
            == Server.Exchange(ServerReply(Offer(serverName, filePath, |fileData|))
                               + Server.ChunkStream(fileData), |hello|, Pass)
  {
    var offer := Offer(serverName, filePath, |fileData|);
    var hello := ClientHello(clientName) + ClientReady();
    ServerAcceptsClient(offer, clientName, []);
    assert hello + [] == hello;
  }

  /** The server over a fresh connection on which the client wrote `input`: what it
      writes back. */
  method ServeInput(host: Endian, port: int, serverName: seq<byte>, filePath: seq<byte>,
                    fileData: seq<byte>, input: seq<byte>)
    returns (sent: seq<byte>, o: Outcome)
    requires port > PortFloor
    requires Messages.Sendable(Offer(serverName, filePath, |fileData|))
    ensures var x := Server.Session(serverName, filePath, fileData, input);
            sent == x.sent && o == x.outcome
  {
    var toServer := new Inbound(input);
    var fromServer := new Outbound();
    assert toServer.Remaining() == input;
    o := Server.RunServer(host, port, serverName, filePath, fileData, toServer, fromServer);
    sent := fromServer.written;
    assert sent == [] + Server.Session(serverName, filePath, fileData, input).sent;
  }

  /** The client over a fresh connection on which the server wrote `input`: what it
      writes, the offer it learns, and the file it prints. */
  method ClientOver(host: Endian, port: int, clientName: seq<byte>, input: seq<byte>)
    returns (sent: seq<byte>, offer: Result<Offer>, payload: seq<byte>, o: Outcome)
    requires port > PortFloor
    requires Strings.Sendable(clientName)
    ensures var expected := Client.ReadOffer(input);
            && (expected.Err? ==>
                  sent == ClientHello(clientName) && offer == Err(expected.error)
                  && payload == [] && o == Fail(expected.error))
            && (expected.Ok? ==>
                  var t := Client.Receive(input, expected.value.1, expected.value.0.fileSize, 0);
                  && sent == ClientHello(clientName) + ClientReady()
                  && offer == Ok(expected.value.0) && payload == t.payload && o == t.outcome)
  {
    var toClient := new Inbound(input);
    var fromClient := new Outbound();
    assert toClient.Remaining() == input;
    offer, payload, o := Client.RunClient(host, port, clientName, toClient, fromClient);
    sent := fromClient.written;
    ConcatAssoc([], ClientHello(clientName), ClientReady());
    assert [] + ClientHello(clientName) == ClientHello(clientName);
    assert [] + (ClientHello(clientName) + ClientReady()) == ClientHello(clientName) + ClientReady();
  }

  /** Both programs run against each other over one connection, each on a host of its
      own byte order: the client writes exactly the messages the server was given and
      ends with the server's offer and the whole file. */
  method OneConnection(serverHost: Endian, clientHost: Endian, port: int,
                       serverName: seq<byte>, filePath: seq<byte>, fileData: seq<byte>,
                       clientName: seq<byte>)
    returns (clientSent: seq<byte>, offer: Result<Offer>, payload: seq<byte>, o: Outcome)
    requires port > PortFloor
    requires Messages.Sendable(Offer(serverName, filePath, |fileData|))
    requires Strings.Sendable(clientName)
    ensures clientSent == ClientHello(clientName) + ClientReady()
    ensures offer == Ok(Offer(serverName, filePath, |fileData|))
    ensures payload == fileData && o == Pass
  {
    var hello := ClientHello(clientName) + ClientReady();
    var sent, served := ServeInput(serverHost, port, serverName, filePath, fileData, hello);
    ConversationRoundTrip(serverName, filePath, fileData, clientName);
    clientSent, offer, payload, o := ClientOver(clientHost, port, clientName, sent);
  }
}
