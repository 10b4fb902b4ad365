/** Fixed-width unsigned numbers in big-endian octets, as the header of a proxy frame has them. */
module BigEndian {
  type Byte = x: int | 0 <= x < 256

  function Pow256(width: nat): (p: nat)
    ensures p > 0
  {
    if width == 0 then 1 else 256 * Pow256(width - 1)
  }

  function Read(bytes: seq<Byte>): nat {
    if bytes == [] then 0 else 256 * Read(bytes[..|bytes| - 1]) + bytes[|bytes| - 1]
  }

  function Write(n: nat, width: nat): (bytes: seq<Byte>)
    ensures |bytes| == width
  {
    if width == 0 then [] else Write(n / 256, width - 1) + [n % 256]
  }

  lemma {:induction false} ReadFits(bytes: seq<Byte>)
    ensures Read(bytes) < Pow256(|bytes|)
  {
    if bytes != [] {
      ReadFits(bytes[..|bytes| - 1]);
    }
  }

  lemma ReadLast(init: seq<Byte>, last: Byte)
    ensures Read(init + [last]) == 256 * Read(init) + last
  {
    assert (init + [last])[..|init|] == init;
  }

  lemma Split(n: nat, p: nat)
    requires n < 256 * p
    ensures n / 256 < p && 256 * (n / 256) + n % 256 == n
  {
  }

  lemma {:induction false} ReadWritten(n: nat, width: nat)
    requires n < Pow256(width)
    ensures Read(Write(n, width)) == n
  {
    if width > 0 {
      var high, low: Byte := n / 256, n % 256;
      Split(n, Pow256(width - 1));
      ReadWritten(high, width - 1);
      ReadLast(Write(high, width - 1), low);
    }
  }

  lemma {:induction false} WriteRead(bytes: seq<Byte>)
    ensures Write(Read(bytes), |bytes|) == bytes
  {
    if bytes != [] {
      var init, last := bytes[..|bytes| - 1], bytes[|bytes| - 1];
      WriteRead(init);
      assert Read(bytes) / 256 == Read(init) && Read(bytes) % 256 == last;
    }
  }
}
