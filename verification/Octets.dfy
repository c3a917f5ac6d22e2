/** Fixed-width machine values, and the two ways a host lays a word out in memory. */
module Octets {
  type Octet = x: int | 0 <= x < 0x100
  type Word16 = x: int | 0 <= x < 0x1_0000
  type Word32 = x: int | 0 <= x < 0x1_0000_0000

  function Zeros(n: nat): (r: seq<Octet>)
    ensures |r| == n && forall i :: 0 <= i < n ==> r[i] == 0
  {
    seq(n, i => 0)
  }

  /** Byte order of the host the C code runs on. */
  datatype ByteOrder = BigEndian | LittleEndian

  /** The word a host of the given byte order loads from two adjacent octets. */
  function Load16(order: ByteOrder, first: Octet, second: Octet): Word16 {
    if order.BigEndian? then first * 256 + second else second * 256 + first
  }

  /** C's ntohs and htons, which are the same function. */
  function Ntohs(order: ByteOrder, w: Word16): Word16 {
    if order.BigEndian? then w else w % 256 * 256 + w / 256
  }

  lemma NtohsTwice(order: ByteOrder, w: Word16)
    ensures Ntohs(order, Ntohs(order, w)) == w
  {
    assert Ntohs(LittleEndian, w) / 256 == w % 256;
  }

  /** The number four octets write, most significant first. */
  function Big32(a: seq<Octet>): Word32
    requires |a| == 4
  {
    var high: int := Load16(BigEndian, a[0], a[1]);
    high * 0x1_0000 + Load16(BigEndian, a[2], a[3])
  }

  /** The octets of a 32-bit number, most significant first. */
  function Octets32(w: Word32): (a: seq<Octet>)
    ensures |a| == 4 && Big32(a) == w
  {
    var high, low := w / 0x1_0000, w % 0x1_0000;
    [high / 256, high % 256, low / 256, low % 256]
  }

  function Reversed32(a: seq<Octet>): seq<Octet>
    requires |a| == 4
  {
    [a[3], a[2], a[1], a[0]]
  }

  /** The word a host loads from four adjacent octets. */
  function Load32(order: ByteOrder, a: seq<Octet>): Word32
    requires |a| == 4
  {
    if order.BigEndian? then Big32(a) else Big32(Reversed32(a))
  }

  /** C's ntohl. */
  function Ntohl(order: ByteOrder, w: Word32): Word32 {
    if order.BigEndian? then w else Big32(Reversed32(Octets32(w)))
  }

  lemma Octets32OfBig32(a: seq<Octet>)
    requires |a| == 4
    ensures Octets32(Big32(a)) == a
  {
    var high, low := Load16(BigEndian, a[0], a[1]), Load16(BigEndian, a[2], a[3]);
    assert Big32(a) / 0x1_0000 == high && Big32(a) % 0x1_0000 == low;
  }

  lemma NtohlLoad(order: ByteOrder, a: seq<Octet>)
    requires |a| == 4
    ensures Octets32(Ntohl(order, Load32(order, a))) == a
  {
    Octets32OfBig32(a);
    Octets32OfBig32(Reversed32(a));
  }
}
