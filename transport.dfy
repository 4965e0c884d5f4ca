/**
 * The two directions of one TCP connection, as seen by one peer, and the exact-length
 * primitives send_all and recv_all built on the partial transfers of send and recv.
 */
module Transport {
  import opened Wire

  /** The direction this peer writes to: everything sent on it so far, in order. */
  class Outbound {
    var written: seq<byte>

    constructor ()
      ensures written == []
    {
      written := [];
    }

    /** send_all: keeps calling send, which may take any 1..len of the remaining bytes,
        until len reaches 0. */
    method SendAll(buf: seq<byte>)
      modifies this
      ensures written == old(written) + buf
    {
      var p: nat, len: nat := 0, |buf|;
      while len > 0
        invariant p + len == |buf|
        invariant written == old(written) + buf[..p]
      {
        var n :| 1 <= n <= len;  // bytes accepted by this send call
        written := written + buf[p..p + n];
        p, len := p + n, len - n;
      }
      assert buf[..p] == buf;
    }
  }

  /** The direction this peer reads from: all bytes the other side writes before it
      closes the connection, and how many of them have been read. */
  class Inbound {
    const stream: seq<byte>
    var pos: nat

    constructor (stream: seq<byte>)
      ensures this.stream == stream && pos == 0
    {
      this.stream := stream;
      pos := 0;
    }

    ghost predicate Valid()
      reads this
    {
      pos <= |stream|
    }

    /** The bytes not read yet. */
    function Remaining(): seq<byte>
      reads this
      requires Valid()
    {
      stream[pos..]
    }

    /** recv_all: keeps calling recv, which yields any 1..len - got of the bytes that
        have arrived, until `len` bytes are in; a recv that returns 0 (the peer closed
        the connection) is fatal, after every remaining byte has been consumed. */
    method RecvAll(len: nat) returns (r: Result<seq<byte>>)
      requires Valid()
      modifies this
      ensures Valid()
      ensures old(pos) + len <= |stream| ==>
                r == Ok(stream[old(pos)..old(pos) + len]) && pos == old(pos) + len
      ensures old(pos) + len > |stream| ==> r == Err(PeerClosed) && pos == |stream|
    {
      var buf: seq<byte> := [];
      var got := 0;
      while got < len
        invariant got <= len && pos == old(pos) + got <= |stream|
        invariant buf == stream[old(pos)..pos]
      {
        if pos == |stream| {
          return Err(PeerClosed);
        }
        var n :| 1 <= n <= len - got && n <= |stream| - pos;  // bytes returned by this recv
        buf := buf + stream[pos..pos + n];
        pos, got := pos + n, got + n;
      }
      return Ok(buf);
    }
  }
}
