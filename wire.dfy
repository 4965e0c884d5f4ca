/** Shared vocabulary of the file-transfer protocol: bytes, marker bytes, errors. */
module Wire {

  /** One octet on the TCP stream. */
  newtype byte = b: int | 0 <= b < 256

  /** Marker byte '1': a chunk of file data follows. */
  const MarkerMore: byte := 0x31
  /** Marker byte '0': end of stream (the sender writes it twice). */
  const MarkerEnd: byte := 0x30

  /** Both programs refuse to start unless the port is above this floor. */
  const PortFloor: int := 5000

  /** The conditions under which the C++ programs print a message and exit(1). */
  datatype Error =
    | PeerClosed                   // recv returned 0 before the requested length arrived
    | UnexpectedMarker(got: byte)  // a chunk marker other than '0' or '1'
    | PortRejected(port: int)      // port argument not above PortFloor

  datatype Outcome = Pass | Fail(error: Error)

  datatype Result<T> = Ok(value: T) | Err(error: Error)

  function Min(a: nat, b: nat): nat { if a <= b then a else b }

  lemma SliceOfSlice<T>(s: seq<T>, i: nat, j: nat, k: nat, l: nat)
    requires i <= j <= |s| && k <= l <= j - i
    ensures s[i..j][k..l] == s[i + k..i + l]
  {
    var t := s[i..j];
    forall m | 0 <= m < l - k
      ensures t[k..l][m] == s[i + k..i + l][m]
    {
      assert t[k..l][m] == t[k + m] == s[i + k + m];
    }
  }

  lemma SplitAt<T>(s: seq<T>, i: nat, j: nat)
    requires i <= j <= |s|
    ensures s[i..] == s[i..j] + s[j..]
  {
  }

  lemma ConcatAssoc<T>(a: seq<T>, b: seq<T>, c: seq<T>)
    ensures (a + b) + c == a + (b + c)
  {
  }
}
