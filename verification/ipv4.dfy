/** IPv4 addresses as big-endian byte arrays, and the numbers they stand for. */
module Ipv4 {
  newtype byte = b: int | 0 <= b < 256

  /** How many addresses there are. */
  const SPACE: int := 0x1_0000_0000

  type Address = a: int | 0 <= a < 0x1_0000_0000

  /** The four bytes of an address, most significant first. */
  type Quad = q: seq<byte> | |q| == 4 witness [0, 0, 0, 0]

  function Pow256(n: nat): (p: nat)
    ensures p > 0
  {
    if n == 0 then 1 else 256 * Pow256(n - 1)
  }

  /** The number a big-endian byte string stands for. */
  function Value(bytes: seq<byte>): (v: nat)
    ensures v < Pow256(|bytes|)
  {
    if bytes == [] then 0
    else Value(bytes[..|bytes| - 1]) * 256 + bytes[|bytes| - 1] as int
  }

  function QuadValue(q: Quad): Address
  {
    assert Pow256(4) == 256 * Pow256(3) == 256 * 256 * Pow256(2) == 256 * 256 * 256 * Pow256(1) == SPACE;
    Value(q)
  }

  /** The byte string after this one: the last byte goes up by one and carries to the left. */
  function Increment(bytes: seq<byte>): (r: seq<byte>)
    ensures |r| == |bytes|
  {
    if bytes == [] then []
    else
      var front, last := bytes[..|bytes| - 1], bytes[|bytes| - 1];
      if last == 255 then Increment(front) + [0] else front + [last + 1]
  }

  function Zeros(n: nat): (z: seq<byte>)
    ensures |z| == n
  {
    seq(n, _ => 0)
  }

  /** Incrementing adds one, and wraps from all ones to zero. */
  lemma {:induction false} IncrementAddsOne(bytes: seq<byte>)
    ensures Value(Increment(bytes)) ==
            if Value(bytes) + 1 == Pow256(|bytes|) then 0 else Value(bytes) + 1
  {
    if bytes != [] {
      var front, last := bytes[..|bytes| - 1], bytes[|bytes| - 1];
      IncrementAddsOne(front);
      if last == 255 {
        assert (Increment(front) + [0])[..|bytes| - 1] == Increment(front);
      } else {
        assert (front + [last + 1])[..|bytes| - 1] == front;
      }
    }
  }

  /** Byte strings of one length are equal exactly when their numbers are. */
  lemma {:induction false} ValueInjective(a: seq<byte>, b: seq<byte>)
    requires |a| == |b|
    ensures Value(a) == Value(b) <==> a == b
  {
    if a != [] {
      var n := |a| - 1;
      ValueInjective(a[..n], b[..n]);
      assert a == a[..n] + [a[n]] && b == b[..n] + [b[n]];
    }
  }

  /** How a carry that has reached byte i goes on: everything right of i is already zero. */
  lemma {:induction false} CarryStep(bytes: seq<byte>, i: nat, n: nat)
    requires i < |bytes|
    ensures Increment(bytes[..i + 1]) + Zeros(n) ==
            if bytes[i] == 255 then Increment(bytes[..i]) + Zeros(n + 1)
            else bytes[..i] + [bytes[i] + 1] + Zeros(n)
  {
    assert bytes[..i + 1][..i] == bytes[..i];
    assert [0] + Zeros(n) == Zeros(n + 1);
    assert Increment(bytes[..i]) + [0] + Zeros(n) == Increment(bytes[..i]) + ([0] + Zeros(n));
  }

  method CloneIP(ip: array<byte>) returns (c: array<byte>)
    ensures fresh(c) && c[..] == ip[..]
  {
    c := new byte[ip.Length];
    for i := 0 to ip.Length
      invariant c[..i] == ip[..i]
    {
      c[i] := ip[i];
    }
  }

  /** Increments a copy in place, from the last byte, until a byte does not wrap to zero. */
  method NextIP(ip: array<byte>) returns (next: array<byte>)
    ensures fresh(next) && next[..] == Increment(ip[..])
  {
    next := CloneIP(ip);
    ghost var bytes := ip[..];
    var n := next.Length;
    var i := n - 1;
    assert bytes[..i + 1] == bytes && Increment(bytes) == Increment(bytes) + Zeros(0);
    while i >= 0
      invariant -1 <= i < n && next.Length == n == |bytes| && fresh(next)
      invariant next[..] == bytes[..i + 1] + Zeros(n - 1 - i)
      invariant Increment(bytes) == Increment(bytes[..i + 1]) + Zeros(n - 1 - i)
    {
      CarryStep(bytes, i, n - 1 - i);
      assert next[i] == bytes[i];
      next[i] := if next[i] == 255 then 0 else next[i] + 1;
      if next[i] != 0 {
        assert next[..] == bytes[..i] + [bytes[i] + 1] + Zeros(n - 1 - i);
        return;
      }
      i := i - 1;
    }
  }

  /** The address after a, wrapping past 255.255.255.255. */
  function Next(a: Address): Address {
    (a + 1) % 0x1_0000_0000
  }

  lemma {:induction false} NextOfQuad(q: Quad)
    ensures QuadValue(Increment(q)) == Next(QuadValue(q))
  {
    IncrementAddsOne(q);
    assert Pow256(4) == 256 * Pow256(3) == 256 * 256 * Pow256(2) == 256 * 256 * 256 * Pow256(1) == SPACE;
  }
}
