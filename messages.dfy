/**
 * The handshake messages both programs agree on, as byte strings on the wire.
 */
module Messages {
  import opened Wire
  import opened ByteOrder
  import opened Strings

  /** The bytes of an ASCII literal. */
  function Ascii(text: string): (b: seq<byte>)
    requires forall i :: 0 <= i < |text| ==> text[i] as int < 256
    ensures |b| == |text|
    ensures forall i :: 0 <= i < |text| ==> b[i] as int == text[i] as int
  {
    seq(|text|, i requires 0 <= i < |text| => text[i] as int as byte)
  }

  /** The request placeholder the client sends after its name. */
  function QueryText(): seq<byte> { Ascii("Query file name") }

  /** The ready signal the client sends after the server's reply. */
  function StartText(): seq<byte> { Ascii("Start") }

  /** What the server offers: its display name, the file path as given on its command
      line, and the file's size in bytes. */
  datatype Offer = Offer(serverName: seq<byte>, fileName: seq<byte>, fileSize: nat)

  /** An offer that fits the wire: both strings under 2^32 bytes, the size a uint64. */
  predicate Sendable(offer: Offer)
  {
    Strings.Sendable(offer.serverName) && Strings.Sendable(offer.fileName)
    && offer.fileSize < Uint64Limit
  }

  /** The client's first two messages: its name, then the request placeholder. */
  function ClientHello(clientName: seq<byte>): seq<byte>
    requires Strings.Sendable(clientName)
  {
    EncodeString(clientName) + EncodeString(QueryText())
  }

  /** The client's last message: the ready signal. */
  function ClientReady(): seq<byte>
  {
    EncodeString(StartText())
  }

  /** The server's reply: its name, the file path, then the size as 8 network-order bytes. */
  function ServerReply(offer: Offer): seq<byte>
    requires Sendable(offer)
  {
    EncodeString(offer.serverName) + EncodeString(offer.fileName) + BigEndian(offer.fileSize, 8)
  }
}
