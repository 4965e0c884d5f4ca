/**
 * Byte order: the integers the programs put on the wire (the uint32 length
 * prefix of a string and the uint64 file size) and how host_to_be64,
 * be64_to_host, htonl and ntohl turn them into network (big-endian) bytes.
 * Numbers are unbounded naturals; the C++ widths appear as explicit bounds.
 */
module ByteOrder {
  import opened Wire

  /** The byte order of the machine the program was compiled for. */
  datatype Endian = LittleEndianHost | BigEndianHost

  const Uint32Limit: nat := 0x1_0000_0000
  const Uint64Limit: nat := 0x1_0000_0000_0000_0000

  function Pow256(k: nat): (p: nat)
    ensures p > 0
  {
    if k == 0 then 1 else 256 * Pow256(k - 1)
  }

  lemma Pow256Widths()
    ensures Pow256(4) == Uint32Limit && Pow256(8) == Uint64Limit
  {
    assert Pow256(2) == 0x1_0000;
    assert Pow256(4) == 0x1_0000_0000;
    assert Pow256(6) == 0x1_0000_0000_0000;
  }

  /** The k low-order bytes of x, most significant first: network byte order. */
  function BigEndian(x: nat, k: nat): (s: seq<byte>)
    ensures |s| == k
  {
    if k == 0 then [] else BigEndian(x / 256, k - 1) + [(x % 256) as byte]
  }

  /** The number whose network-order bytes are s. */
  function FromBigEndian(s: seq<byte>): (x: nat)
    ensures x < Pow256(|s|)
  {
    if s == [] then 0 else FromBigEndian(s[..|s| - 1]) * 256 + s[|s| - 1] as int
  }

  function Reversed(s: seq<byte>): (r: seq<byte>)
    ensures |r| == |s|
  {
    if s == [] then [] else Reversed(s[1..]) + [s[0]]
  }

  lemma {:induction false} ReversedAt(s: seq<byte>)
    ensures forall i :: 0 <= i < |s| ==> Reversed(s)[i] == s[|s| - 1 - i]
  {
    if s != [] {
      ReversedAt(s[1..]);
    }
  }

  lemma ReversedTwice(s: seq<byte>)
    ensures Reversed(Reversed(s)) == s
  {
    ReversedAt(s);
    ReversedAt(Reversed(s));
  }

  lemma ReversedConcat(s: seq<byte>, t: seq<byte>)
    ensures Reversed(s + t) == Reversed(t) + Reversed(s)
  {
    ReversedAt(s);
    ReversedAt(t);
    ReversedAt(s + t);
  }

  /** The bytes of a k-byte integer x at increasing addresses in the memory of `host`:
      what send_all(fd, &x, k) puts on the wire. */
  function InMemory(host: Endian, x: nat, k: nat): (s: seq<byte>)
    ensures |s| == k
  {
    match host
    case BigEndianHost => BigEndian(x, k)
    case LittleEndianHost => Reversed(BigEndian(x, k))
  }

  /** The integer that k bytes s spell in the memory of `host`:
      what recv_all(fd, &x, k) leaves in x. */
  function FromMemory(host: Endian, s: seq<byte>): (x: nat)
    ensures x < Pow256(|s|)
  {
    match host
    case BigEndianHost => FromBigEndian(s)
    case LittleEndianHost => FromBigEndian(Reversed(s))
  }

  /** htonl: identity on a big-endian host, a swap of the four bytes on a little-endian one. */
  function Htonl(host: Endian, x: nat): (r: nat)
    requires x < Uint32Limit
    ensures r < Uint32Limit
  {
    Pow256Widths();
    match host
    case BigEndianHost => x
    case LittleEndianHost => FromBigEndian(InMemory(host, x, 4))
  }

  /** ntohl is the same permutation as htonl. */
  function Ntohl(host: Endian, x: nat): (r: nat)
    requires x < Uint32Limit
    ensures r < Uint32Limit
  {
    Htonl(host, x)
  }

  /** host_to_be64: on a little-endian host the high 32-bit half goes through htonl into
      the low half of the result and the low half into the high half (the shifts and
      the bitwise or of the C++ are a division, a remainder and a sum of disjoint parts). */
  function HostToBe64(host: Endian, x: nat): (r: nat)
    requires x < Uint64Limit
    ensures r < Uint64Limit
  {
    match host
    case BigEndianHost => x
    case LittleEndianHost =>
      Htonl(host, x / Uint32Limit) + Htonl(host, x % Uint32Limit) * Uint32Limit
  }

  /** be64_to_host is host_to_be64 applied again. */
  function Be64ToHost(host: Endian, x: nat): (r: nat)
    requires x < Uint64Limit
    ensures r < Uint64Limit
  {
    HostToBe64(host, x)
  }

  lemma {:induction false} BigEndianRoundTrip(x: nat, k: nat)
    requires x < Pow256(k)
    ensures FromBigEndian(BigEndian(x, k)) == x
  {
    if k > 0 {
      var q, r := x / 256, x % 256;
      DigitSplit(x, Pow256(k - 1));
      BigEndianRoundTrip(q, k - 1);
      var init := BigEndian(q, k - 1);
      assert BigEndian(x, k) == init + [r as byte];
      FromBigEndianSnoc(init, r as byte);
    }
  }

  /** Appending a byte to network-order digits multiplies by 256 and adds it. */
  lemma FromBigEndianSnoc(s: seq<byte>, b: byte)
    ensures FromBigEndian(s + [b]) == FromBigEndian(s) * 256 + b as int
  {
    assert (s + [b])[..|s|] == s;
  }

  /** A number below 256 * p has a quotient by 256 below p. */
  lemma DigitSplit(x: nat, p: nat)
    requires x < 256 * p
    ensures x / 256 < p
  {
  }

  lemma {:induction false} FromBigEndianRoundTrip(s: seq<byte>)
    ensures BigEndian(FromBigEndian(s), |s|) == s
  {
    if s != [] {
      var x := FromBigEndian(s);
      var init, last := s[..|s| - 1], s[|s| - 1];
      assert x == FromBigEndian(init) * 256 + last as int;
      assert x / 256 == FromBigEndian(init) && x % 256 == last as int;
      FromBigEndianRoundTrip(init);
      assert s == init + [last];
    }
  }

  /** Network-order bytes of a * 256^n + b are those of a followed by those of b. */
  lemma {:induction false} BigEndianConcat(a: nat, b: nat, m: nat, n: nat)
    requires b < Pow256(n)
    ensures BigEndian(a * Pow256(n) + b, m + n) == BigEndian(a, m) + BigEndian(b, n)
  {
    if n > 0 {
      var high := a * Pow256(n - 1);
      ScaleBy256(a, Pow256(n - 1));
      var x := a * Pow256(n) + b;
      var q, r := b / 256, b % 256;
      DigitSplit(b, Pow256(n - 1));
      assert x == (high + q) * 256 + r;
      assert x / 256 == high + q && x % 256 == r;
      BigEndianConcat(a, q, m, n - 1);
    }
  }

  lemma ScaleBy256(a: nat, p: nat)
    ensures a * (256 * p) == (a * p) * 256
  {
  }

  /** Whatever the host, the four bytes send_string writes for htonl(x) are x in network order. */
  lemma HtonlOnWire(host: Endian, x: nat)
    requires x < Uint32Limit
    ensures InMemory(host, Htonl(host, x), 4) == BigEndian(x, 4)
  {
    if host.LittleEndianHost? {
      Pow256Widths();
      var s := Reversed(BigEndian(x, 4));
      FromBigEndianRoundTrip(s);
      ReversedTwice(BigEndian(x, 4));
    }
  }

  /** Whatever the host, ntohl of the four bytes recv_string reads is their network-order value. */
  lemma NtohlFromWire(host: Endian, s: seq<byte>)
    requires |s| == 4
    ensures FromMemory(host, s) < Uint32Limit
    ensures Ntohl(host, FromMemory(host, s)) == FromBigEndian(s)
  {
    Pow256Widths();
    if host.LittleEndianHost? {
      var v := FromBigEndian(Reversed(s));
      FromBigEndianRoundTrip(Reversed(s));
      ReversedTwice(s);
      assert InMemory(host, v, 4) == s;
    }
  }

  /** Network-order bytes of a 64-bit value split into its 32-bit halves. */
  lemma BigEndianHalves(x: nat, hi: nat, lo: nat)
    requires lo < Uint32Limit && x == hi * Uint32Limit + lo
    ensures BigEndian(x, 8) == BigEndian(hi, 4) + BigEndian(lo, 4)
  {
    Pow256Widths();
    BigEndianConcat(hi, lo, 4, 4);
  }

  /** Whatever the host, the eight bytes the server writes for host_to_be64(x) are x in
      network order. */
  lemma HostToBe64OnWire(host: Endian, x: nat)
    requires x < Uint64Limit
    ensures InMemory(host, HostToBe64(host, x), 8) == BigEndian(x, 8)
  {
    if host.LittleEndianHost? {
      var hi, lo := x / Uint32Limit, x % Uint32Limit;
      BigEndianHalves(x, hi, lo);
      var swappedHi, swappedLo := Htonl(host, hi), Htonl(host, lo);
      var r := HostToBe64(host, x);
      assert r == swappedLo * Uint32Limit + swappedHi;
      BigEndianHalves(r, swappedLo, swappedHi);
      ReversedConcat(BigEndian(swappedLo, 4), BigEndian(swappedHi, 4));
      HtonlOnWire(host, hi);
      HtonlOnWire(host, lo);
    }
  }

  /** Whatever the host, be64_to_host of the eight bytes the client reads is their
      network-order value. */
  lemma Be64ToHostFromWire(host: Endian, s: seq<byte>)
    requires |s| == 8
    ensures FromMemory(host, s) < Uint64Limit
    ensures Be64ToHost(host, FromMemory(host, s)) == FromBigEndian(s)
  {
    Pow256Widths();
    if host.LittleEndianHost? {
      var v := FromMemory(host, s);
      var r := Be64ToHost(host, v);
      HostToBe64OnWire(host, v);
      FromBigEndianRoundTrip(Reversed(s));
      ReversedTwice(s);
      assert Reversed(BigEndian(r, 8)) == Reversed(s);
      ReversedTwice(BigEndian(r, 8));
      BigEndianRoundTrip(r, 8);
    }
  }

  /** be64_to_host undoes host_to_be64. */
  lemma Be64RoundTrip(host: Endian, x: nat)
    requires x < Uint64Limit
    ensures Be64ToHost(host, HostToBe64(host, x)) == x
  {
    if host.LittleEndianHost? {
      Pow256Widths();
      var y := HostToBe64(host, x);
      HostToBe64OnWire(host, x);
      HostToBe64OnWire(host, y);
      // both y and x spell out, in memory, reversals of each other's network bytes
      assert Reversed(BigEndian(y, 8)) == BigEndian(x, 8);
      ReversedTwice(BigEndian(y, 8));
      assert Reversed(BigEndian(Be64ToHost(host, y), 8)) == BigEndian(y, 8);
      ReversedTwice(BigEndian(Be64ToHost(host, y), 8));
      assert BigEndian(Be64ToHost(host, y), 8) == BigEndian(x, 8);
      BigEndianRoundTrip(x, 8);
      BigEndianRoundTrip(Be64ToHost(host, y), 8);
    }
  }
}
