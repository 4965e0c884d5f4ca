/**
 * The receiving side (client.cpp): the handshake that learns the offer, the loop that
 * reads chunk frames until the end marker, and the program from its port check on.
 */
module Client {
  import opened Wire
  import opened ByteOrder
  import opened Transport
  import Strings
  import opened Messages
  import Server

  /** The server's name and the file path, read whatever they say, and the bytes they
      took. */
  function ReadNames(input: seq<byte>): (r: Result<(seq<byte>, seq<byte>, nat)>)
    ensures r.Ok? ==> r.value.2 <= |input|
  {
    match Strings.DecodeString(input)
    case Err(e) => Err(e)
    case Ok((serverName, nameLen)) =>
      match Strings.DecodeString(input[nameLen..])
      case Err(e) => Err(e)
      case Ok((fileName, pathLen)) => Ok((serverName, fileName, nameLen + pathLen))
  }

  /** What the client makes of the server's reply: the offer and the bytes it took. */
  function ReadOffer(input: seq<byte>): Result<(Offer, nat)>
  {
    match ReadNames(input)
    case Err(e) => Err(e)
    case Ok((serverName, fileName, read)) =>
      if |input| - read < 8 then Err(PeerClosed)
      else Ok((Offer(serverName, fileName, FromBigEndian(input[read..read + 8])), read + 8))
  }

  /** What the receive loop did: the file bytes it printed, in order, how many bytes it
      read off the connection, and how it ended. */
  datatype Transfer = Transfer(payload: seq<byte>, consumed: nat, outcome: Outcome)

  /** `payload` and `consumed` bytes came before the rest of a transfer. */
  function After(consumed: nat, payload: seq<byte>, t: Transfer): Transfer
  {
    Transfer(payload + t.payload, consumed + t.consumed, t.outcome)
  }

  /** The receive loop, reading `input` from index `at` on with `received` of `fileSize`
      bytes in: read a marker; '0' takes one more byte, not looked at, and ends the loop;
      a marker other than '0' and '1' is a protocol error; '1' is followed by
      min(ChunkSize, fileSize - received) bytes, which is none once the whole size is in.
      A read past the end of `input` is the peer closing the connection. */
  function Receive(input: seq<byte>, at: nat, fileSize: nat, received: nat): Transfer
    requires at <= |input| && received <= fileSize
    decreases |input| - at
  {
    if at == |input| then Transfer([], 0, Fail(PeerClosed))
    else if input[at] == MarkerEnd then
      if at + 1 == |input| then Transfer([], 1, Fail(PeerClosed)) else Transfer([], 2, Pass)
    else if input[at] != MarkerMore then Transfer([], 1, Fail(UnexpectedMarker(input[at])))
    else
      var want := Server.ChunkLen(fileSize, received);
      if want == 0 then After(1, [], Receive(input, at + 1, fileSize, received))
      else if |input| - (at + 1) < want then Transfer([], |input| - at, Fail(PeerClosed))
      else
        After(1 + want, input[at + 1..at + 1 + want],
              Receive(input, at + 1 + want, fileSize, received + want))
  }

  /** A data frame with its payload complete: the loop prints it and goes on after it. */
  lemma ReceiveDataFrame(input: seq<byte>, at: nat, fileSize: nat, received: nat, want: nat)
    requires at < |input| && received <= fileSize && input[at] == MarkerMore
    requires want == Server.ChunkLen(fileSize, received) && 0 < want <= |input| - (at + 1)
    ensures Receive(input, at, fileSize, received)
            == After(1 + want, input[at + 1..at + 1 + want],
                     Receive(input, at + 1 + want, fileSize, received + want))
  {
  }

  /** The loop never reads past the end of its input and never prints more than the
      announced size. */
  lemma {:induction false} ReceiveBounds(input: seq<byte>, at: nat, fileSize: nat, received: nat)
    requires at <= |input| && received <= fileSize
    ensures var t := Receive(input, at, fileSize, received);
            at + t.consumed <= |input| && received + |t.payload| <= fileSize
    decreases |input| - at
  {
    if at < |input| && input[at] == MarkerMore {
      var want := Server.ChunkLen(fileSize, received);
      if want == 0 {
        ReceiveBounds(input, at + 1, fileSize, received);
      } else if |input| - (at + 1) >= want {
        ReceiveBounds(input, at + 1 + want, fileSize, received + want);
      }
    }
  }

  /** A closed connection ends the receive loop only once every byte has been read. */
  lemma {:induction false} ClosedAfterAllRead(input: seq<byte>, at: nat, fileSize: nat, received: nat)
    requires at <= |input| && received <= fileSize
    ensures var t := Receive(input, at, fileSize, received);
            t.outcome == Fail(PeerClosed) ==> at + t.consumed == |input|
    decreases |input| - at
  {
    if at < |input| && input[at] == MarkerMore {
      var want := Server.ChunkLen(fileSize, received);
      if want == 0 {
        ClosedAfterAllRead(input, at + 1, fileSize, received);
      } else if |input| - (at + 1) >= want {
        ClosedAfterAllRead(input, at + 1 + want, fileSize, received + want);
      }
    }
  }

  /** A protocol error names a marker other than '0' and '1', and that marker is the last
      byte read: nothing after it is consumed. */
  lemma {:induction false} BadMarkerIsLastRead(input: seq<byte>, at: nat, fileSize: nat, received: nat)
    requires at <= |input| && received <= fileSize
    ensures var t := Receive(input, at, fileSize, received);
            t.outcome.Fail? && t.outcome.error.UnexpectedMarker? ==>
              var m := t.outcome.error.got;
              && m != MarkerEnd && m != MarkerMore && 0 < t.consumed && at + t.consumed <= |input|
              && input[at + t.consumed - 1] == m
    decreases |input| - at
  {
    if at < |input| && input[at] == MarkerMore {
      var want := Server.ChunkLen(fileSize, received);
      if want == 0 {
        BadMarkerIsLastRead(input, at + 1, fileSize, received);
      } else if |input| - (at + 1) >= want {
        BadMarkerIsLastRead(input, at + 1 + want, fileSize, received + want);
      }
    }
  }

  /** The loop completes only on a '0' marker, after reading exactly one more byte,
      whatever that byte is. */
  lemma {:induction false} PassEndsWithEndMarker(input: seq<byte>, at: nat, fileSize: nat, received: nat)
    requires at <= |input| && received <= fileSize
    ensures var t := Receive(input, at, fileSize, received);
            t.outcome == Pass ==>
              2 <= t.consumed && at + t.consumed <= |input| && input[at + t.consumed - 2] == MarkerEnd
    decreases |input| - at
  {
    if at < |input| && input[at] == MarkerMore {
      var want := Server.ChunkLen(fileSize, received);
      if want == 0 {
        PassEndsWithEndMarker(input, at + 1, fileSize, received);
      } else if |input| - (at + 1) >= want {
        PassEndsWithEndMarker(input, at + 1 + want, fileSize, received + want);
      }
    }
  }

  /** Once the whole size is in, each further '1' is read alone and adds nothing: k of
      them and then a '0' with any byte after it end the loop with nothing printed. */
  lemma {:induction false} IdleMarkers(input: seq<byte>, at: nat, fileSize: nat, k: nat)
    requires at + k + 2 <= |input|
    requires forall i :: at <= i < at + k ==> input[i] == MarkerMore
    requires input[at + k] == MarkerEnd
    ensures Receive(input, at, fileSize, fileSize) == Transfer([], k + 2, Pass)
    decreases k
  {
    if k > 0 {
      IdleMarkers(input, at + 1, fileSize, k - 1);
      assert input[at] == MarkerMore;
    }
  }

  /** The loop trusts the end marker: a '0' ends it successfully before a single byte of
      a one-byte file has arrived, and the byte after the '0' may be anything. */
  lemma EarlyEndAccepted(other: byte)
    ensures Receive([MarkerEnd, other], 0, 1, 0) == Transfer([], 2, Pass)
  {
  }

  /** The reads of the handshake: the server's name, the file name and the 8-byte size,
      converted from network order with be64_to_host. */
  method ReceiveOffer(host: Endian, inp: Inbound) returns (r: Result<Offer>)
    requires inp.Valid()
    modifies inp
    ensures inp.Valid()
    ensures var expected := ReadOffer(old(inp.Remaining()));
            && (expected.Ok? ==> r == Ok(expected.value.0) && inp.pos == old(inp.pos) + expected.value.1)
            && (expected.Err? ==> r == Err(expected.error) && inp.pos == |inp.stream|)
  {
    ghost var input := inp.Remaining();
    ghost var start := inp.pos;
    var names := ReceiveNames(host, inp);
    if names.Err? {
      return Err(names.error);
    }
    ghost var read := inp.pos - start;
    assert inp.Remaining() == input[read..];
    var netSize := inp.RecvAll(8);
    if netSize.Err? {
      return Err(netSize.error);
    }
    assert netSize.value == input[read..read + 8];
    Be64ToHostFromWire(host, netSize.value);
    var fileSize := Be64ToHost(host, FromMemory(host, netSize.value));
    return Ok(Offer(names.value.0, names.value.1, fileSize));
  }

  /** The two recv_string calls for the server's name and the file path. */
  method ReceiveNames(host: Endian, inp: Inbound) returns (r: Result<(seq<byte>, seq<byte>)>)
    requires inp.Valid()
    modifies inp
    ensures inp.Valid()
    ensures var expected := ReadNames(old(inp.Remaining()));
            && (expected.Ok? ==> r == Ok((expected.value.0, expected.value.1))
                                 && inp.pos == old(inp.pos) + expected.value.2)
            && (expected.Err? ==> r == Err(expected.error) && inp.pos == |inp.stream|)
  {
    ghost var input := inp.Remaining();
    ghost var start := inp.pos;
    var serverName := Strings.RecvString(host, inp);
    if serverName.Err? {
      return Err(serverName.error);
    }
    assert inp.Remaining() == input[inp.pos - start..];
    var fileName := Strings.RecvString(host, inp);
    if fileName.Err? {
      return Err(fileName.error);
    }
    return Ok((serverName.value, fileName.value));
  }

  /** The handshake (client.cpp, from the client's name to "Start"): the name and the
      request go out before anything is read, "Start" only after the offer is in. */
  method ClientHandshake(host: Endian, clientName: seq<byte>, inp: Inbound, out: Outbound)
    returns (r: Result<Offer>)
    requires Strings.Sendable(clientName)
    requires inp.Valid()
    modifies inp, out
    ensures inp.Valid()
    ensures var expected := ReadOffer(old(inp.Remaining()));
            && (expected.Ok? ==>
                  r == Ok(expected.value.0) && inp.pos == old(inp.pos) + expected.value.1
                  && out.written == old(out.written) + ClientHello(clientName) + ClientReady())
            && (expected.Err? ==>
                  r == Err(expected.error) && inp.pos == |inp.stream|
                  && out.written == old(out.written) + ClientHello(clientName))
  {
    Strings.SendString(host, out, clientName);
    Strings.SendString(host, out, QueryText());
    ghost var hello := out.written;
    assert hello == old(out.written) + ClientHello(clientName);
    r := ReceiveOffer(host, inp);
    if r.Err? {
      return;
    }
    Strings.SendString(host, out, StartText());
    assert out.written == hello + ClientReady();
  }

  /** What one pass of the receive loop decides: go on after a data frame (possibly
      empty, once the whole size is in), or leave the loop with an outcome. */
  datatype Step = Continue(chunk: seq<byte>) | Stop(outcome: Outcome)

  /** One frame: read the marker and then what it announces. `rest` is what the loop
      still makes of the input; a frame that carries data splits it into that data and
      what the loop makes of the input after the frame. */
  method ReadFrame(inp: Inbound, fileSize: nat, received: nat, ghost rest: Transfer)
    returns (s: Step, ghost used: nat)
    requires inp.Valid() && received <= fileSize
    requires rest == Receive(inp.stream, inp.pos, fileSize, received)
    modifies inp
    ensures inp.Valid() && inp.pos == old(inp.pos) + used
    ensures s.Stop? ==> rest.payload == [] && rest.consumed == used && rest.outcome == s.outcome
    ensures s.Continue? ==>
              && 0 < used && received + |s.chunk| <= fileSize
              && Splits(rest, used, s.chunk, Receive(inp.stream, inp.pos, fileSize, received + |s.chunk|))
  {
    ghost var at := inp.pos;
    var ctrl := inp.RecvAll(1);
    if ctrl.Err? {
      return Stop(Fail(ctrl.error)), 0;
    }
    if ctrl.value[0] == MarkerEnd {
      var second := inp.RecvAll(1);
      if second.Err? {
        return Stop(Fail(second.error)), 1;
      }
      return Stop(Pass), 2;
    }
    if ctrl.value[0] != MarkerMore {
      return Stop(Fail(UnexpectedMarker(ctrl.value[0]))), 1;
    }
    var want := Min(Server.ChunkSize, fileSize - received);
    if want == 0 {
      return Continue([]), 1;  // wait for the closing '0','0'
    }
    var buf := inp.RecvAll(want);
    if buf.Err? {
      return Stop(Fail(buf.error)), |inp.stream| - at;
    }
    return Continue(buf.value), 1 + want;
  }

  /** The receive loop of client.cpp over the connection; `payload` is what it printed. */
  method ReceiveFile(inp: Inbound, fileSize: nat) returns (payload: seq<byte>, o: Outcome)
    requires inp.Valid()
    modifies inp
    ensures inp.Valid()
    ensures var t := Receive(inp.stream, old(inp.pos), fileSize, 0);
            payload == t.payload && inp.pos == old(inp.pos) + t.consumed && o == t.outcome
  {
    ghost var start := inp.pos;
    ghost var whole := Receive(inp.stream, start, fileSize, 0);
    ghost var done := 0;
    var received: nat := 0;
    payload := [];
    assert [] + whole.payload == whole.payload;
    while true
      invariant inp.Valid() && inp.pos == start + done
      invariant received == |payload| <= fileSize
      invariant Splits(whole, done, payload, Receive(inp.stream, inp.pos, fileSize, received))
      decreases |inp.stream| - inp.pos
    {
      var step;
      step, received, payload, done := ReceivePass(inp, fileSize, received, payload, whole, start, done);
      if step.Stop? {
        return payload, step.outcome;
      }
    }
  }

  /** One pass of the receive loop's body: a frame is read, its data printed and
      counted. `whole` is what the loop makes of the input from `start` on, of which
      `done` bytes have been read and `payload` printed before this pass. */
  method ReceivePass(inp: Inbound, fileSize: nat, received: nat, payload: seq<byte>,
                     ghost whole: Transfer, ghost start: nat, ghost done: nat)
    returns (step: Step, received': nat, payload': seq<byte>, ghost done': nat)
    requires inp.Valid() && inp.pos == start + done
    requires received == |payload| <= fileSize
    requires Splits(whole, done, payload, Receive(inp.stream, inp.pos, fileSize, received))
    modifies inp
    ensures inp.Valid() && inp.pos == start + done'
    ensures received' == |payload'| <= fileSize
    ensures step.Stop? ==>
              whole.payload == payload' && whole.consumed == done' && whole.outcome == step.outcome
    ensures step.Continue? ==>
              old(inp.pos) < inp.pos
              && Splits(whole, done', payload', Receive(inp.stream, inp.pos, fileSize, received'))
  {
    ghost var rest := Receive(inp.stream, inp.pos, fileSize, received);
    ghost var used;
    step, used := ReadFrame(inp, fileSize, received, rest);
    if step.Stop? {
      assert payload + [] == payload;
      return step, received, payload, done + used;
    }
    received', payload', done' := received + |step.chunk|, payload + step.chunk, done + used;
    SplitsStep(whole, done, payload, rest, used, step.chunk,
               Receive(inp.stream, inp.pos, fileSize, received'));
  }

  /** `whole` is `done` bytes read and `payload` printed, followed by `rest`. */
  ghost predicate Splits(whole: Transfer, done: nat, payload: seq<byte>, rest: Transfer)
  {
    whole.payload == payload + rest.payload && whole.consumed == done + rest.consumed
    && whole.outcome == rest.outcome
  }

  lemma SplitsStep(whole: Transfer, done: nat, payload: seq<byte>, rest: Transfer,
                   used: nat, chunk: seq<byte>, next: Transfer)
    requires Splits(whole, done, payload, rest) && Splits(rest, used, chunk, next)
    ensures Splits(whole, done + used, payload + chunk, next)
  {
    ConcatAssoc(payload, chunk, next.payload);
  }

  /** The client from its command line on: refuse a port not above PortFloor before
      connecting, otherwise run the handshake and, if it completes, the receive loop
      with the size the server announced. */
  method RunClient(host: Endian, port: int, clientName: seq<byte>, inp: Inbound, out: Outbound)
    returns (offer: Result<Offer>, payload: seq<byte>, o: Outcome)
    requires Strings.Sendable(clientName)
    requires inp.Valid()
    modifies inp, out
    ensures inp.Valid()
    ensures port <= PortFloor ==>
              offer == Err(PortRejected(port)) && payload == [] && o == Fail(PortRejected(port))
              && out.written == old(out.written) && inp.pos == old(inp.pos)
    ensures port > PortFloor ==>
              var expected := ReadOffer(old(inp.Remaining()));
              && (expected.Err? ==>
                    offer == Err(expected.error) && payload == [] && o == Fail(expected.error)
                    && out.written == old(out.written) + ClientHello(clientName)
                    && inp.pos == |inp.stream|)
              && (expected.Ok? ==>
                    var k := old(inp.pos) + expected.value.1;
                    var t := Receive(inp.stream, k, expected.value.0.fileSize, 0);
                    offer == Ok(expected.value.0) && payload == t.payload
                    && inp.pos == k + t.consumed && o == t.outcome
                    && out.written == old(out.written) + ClientHello(clientName) + ClientReady())
  {
    if port <= PortFloor {
      return Err(PortRejected(port)), [], Fail(PortRejected(port));
    }
    offer := ClientHandshake(host, clientName, inp, out);
    if offer.Err? {
      return offer, [], Fail(offer.error);
    }
    payload, o := ReceiveFile(inp, offer.value.fileSize);
  }
}
