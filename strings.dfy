/**
 * Length-prefixed strings: a uint32 length in network byte order followed by the raw
 * bytes, and nothing after the prefix when the string is empty (send_string and
 * recv_string, identical in both programs).
 */
module Strings {
  import opened Wire
  import opened ByteOrder
  import opened Transport

  /** A string send_string can frame: its size fits the uint32_t the length is cast to. */
  predicate Sendable(s: seq<byte>)
  {
    |s| < Uint32Limit
  }

  /** The bytes send_string puts on the wire for s. */
  function EncodeString(s: seq<byte>): (w: seq<byte>)
    requires Sendable(s)
    ensures |w| == 4 + |s|
    ensures FromBigEndian(w[..4]) == |s| && w[4..] == s
  {
    Pow256Widths();
    BigEndianRoundTrip(|s|, 4);
    BigEndian(|s|, 4) + s
  }

  /** What recv_string makes of the bytes in front of it: the string and the number of
      bytes consumed, or PeerClosed when the input ends before the prefix or the body. */
  function DecodeString(input: seq<byte>): (r: Result<(seq<byte>, nat)>)
    ensures r.Ok? ==> r.value.1 == 4 + |r.value.0| <= |input|
    ensures r.Err? ==> r.error == PeerClosed
  {
    if |input| < 4 then Err(PeerClosed)
    else
      var n := FromBigEndian(input[..4]);
      if |input| - 4 < n then Err(PeerClosed)
      else Ok((input[4..4 + n], 4 + n))
  }

  /** recv_string inverts send_string, whatever follows on the stream. */
  lemma DecodeEncode(s: seq<byte>, rest: seq<byte>)
    requires Sendable(s)
    ensures DecodeString(EncodeString(s) + rest) == Ok((s, 4 + |s|))
  {
    var input := EncodeString(s) + rest;
    assert input[..4] == EncodeString(s)[..4];
    assert input[4..4 + |s|] == s;
  }

  /** A stream on which recv_string succeeds begins with exactly one framed string, and
      recv_string fails exactly when no framed string can be read off its front. */
  lemma EncodeDecode(input: seq<byte>)
    ensures DecodeString(input).Ok? ==>
              var (s, k) := DecodeString(input).value;
              Sendable(s) && input == EncodeString(s) + input[k..]
    ensures DecodeString(input).Err? ==>
              forall s :: Sendable(s) ==> EncodeString(s) != input[..Min(|input|, 4 + |s|)]
  {
    if DecodeString(input).Ok? {
      DecodedIsFramed(input);
    } else {
      forall s | Sendable(s)
        ensures EncodeString(s) != input[..Min(|input|, 4 + |s|)]
      {
        NotFramed(input, s);
      }
    }
  }

  /** The successful half of EncodeDecode. */
  lemma DecodedIsFramed(input: seq<byte>)
    requires DecodeString(input).Ok?
    ensures Sendable(DecodeString(input).value.0)
    ensures input == EncodeString(DecodeString(input).value.0) + input[DecodeString(input).value.1..]
  {
    var n := FromBigEndian(input[..4]);
    var k := 4 + n;
    Pow256Widths();
    FromBigEndianRoundTrip(input[..4]);
    assert input[..k] == input[..4] + input[4..k];
    assert input == input[..k] + input[k..];
  }

  /** The failing half of EncodeDecode, for one candidate string. */
  lemma NotFramed(input: seq<byte>, s: seq<byte>)
    requires DecodeString(input).Err? && Sendable(s)
    ensures EncodeString(s) != input[..Min(|input|, 4 + |s|)]
  {
    if |input| >= 4 + |s| {
      assert input[..4] == input[..4 + |s|][..4];
    }
  }

  lemma PrefixOnWire(host: Endian, s: seq<byte>)
    requires Sendable(s)
    ensures Htonl(host, |s|) < Uint32Limit
    ensures InMemory(host, Htonl(host, |s|), 4) + s == EncodeString(s)
  {
    HtonlOnWire(host, |s|);
  }

  /** send_string: the prefix htonl(size) leaves memory in the host's byte order; the
      body is sent only when the string is not empty. */
  method SendString(host: Endian, out: Outbound, s: seq<byte>)
    requires Sendable(s)
    modifies out
    ensures out.written == old(out.written) + EncodeString(s)
  {
    var n := Htonl(host, |s|);
    var prefix := InMemory(host, n, 4);
    PrefixOnWire(host, s);
    out.SendAll(prefix);
    if |s| != 0 {
      out.SendAll(s);
    } else {
      assert prefix == prefix + s;
    }
  }

  /** recv_string: four bytes, ntohl, then that many bytes unless the length is 0. */
  method RecvString(host: Endian, inp: Inbound) returns (r: Result<seq<byte>>)
    requires inp.Valid()
    modifies inp
    ensures inp.Valid()
    ensures var expected := DecodeString(old(inp.Remaining()));
            && (expected.Ok? ==> r == Ok(expected.value.0)
                                 && inp.pos == old(inp.pos) + expected.value.1)
            && (expected.Err? ==> r == Err(expected.error) && inp.pos == |inp.stream|)
  {
    ghost var input := inp.Remaining();
    var prefix := inp.RecvAll(4);
    if prefix.Err? {
      return Err(prefix.error);
    }
    NtohlFromWire(host, prefix.value);
    var n := Ntohl(host, FromMemory(host, prefix.value));
    assert prefix.value == input[..4];
    var s: seq<byte> := [];
    if n != 0 {
      assert inp.Remaining() == input[4..];
      var body := inp.RecvAll(n);
      if body.Err? {
        return Err(body.error);
      }
      s := body.value;
    }
    assert s == input[4..4 + n];
    return Ok(s);
  }
}
