/** Octets, big-endian fields and C strings, as the resolver sources use them. */
module Bytes {

  type byte = x: int | 0 <= x < 256

  /** Octets of an IPv6 address. */
  const ADDRESS_SIZE: nat := 16

  datatype Option<+T> = None | Some(value: T)

  /** Two octets in network order, as `ntohs` reads them. */
  function U16(hi: byte, lo: byte): (r: nat)
    ensures r < 0x1_0000
  {
    hi * 256 + lo
  }

  function U32(a: byte, b: byte, c: byte, d: byte): (r: nat)
    ensures r < 0x1_0000_0000
  {
    U16(a, b) * 0x1_0000 + U16(c, d)
  }

  /** Network order (section 2.3.2 of RFC 1035): the first octet is the most significant one. */
  lemma NetworkOrder(a: byte, b: byte, c: byte, d: byte)
    ensures U16(a, b) / 256 == a && U16(a, b) % 256 == b
    ensures U32(a, b, c, d) == 0x100_0000 * a + 0x1_0000 * b + 256 * c + d
  {
  }

  /** The octets `htons` stores. */
  function PutU16(v: nat): (s: seq<byte>)
    requires v < 0x1_0000
    ensures |s| == 2 && U16(s[0], s[1]) == v
  {
    [v / 256, v % 256]
  }

  function PutU32(v: nat): (s: seq<byte>)
    requires v < 0x1_0000_0000
    ensures |s| == 4 && U32(s[0], s[1], s[2], s[3]) == v
  {
    PutU16(v / 0x1_0000) + PutU16(v % 0x1_0000)
  }

  /** `strlen`: the index of the first zero octet. */
  function StrLen(s: seq<byte>): (n: nat)
    ensures n <= |s| && (n < |s| ==> s[n] == 0)
    ensures forall k :: 0 <= k < n ==> s[k] != 0
  {
    if s == [] || s[0] == 0 then 0 else 1 + StrLen(s[1..])
  }

  /** The text a C string buffer holds. */
  function CString(s: seq<byte>): (r: seq<byte>)
    ensures 0 !in r
  {
    s[..StrLen(s)]
  }

  lemma StrLenIs(s: seq<byte>, n: nat)
    requires n < |s| && s[n] == 0 && 0 !in s[..n]
    ensures StrLen(s) == n && CString(s) == s[..n]
  {
  }

  lemma TextEnds(s: seq<byte>)
    requires 0 in s
    ensures StrLen(s) < |s| && s[StrLen(s)] == 0 && CString(s) == s[..StrLen(s)]
  {
  }

  /** `part` stands in `msg` from `pos` on. */
  predicate Holds(msg: seq<byte>, pos: nat, part: seq<byte>) {
    pos + |part| <= |msg| && msg[pos..pos + |part|] == part
  }

  lemma HoldsConcat(msg: seq<byte>, pos: nat, a: seq<byte>, b: seq<byte>)
    ensures Holds(msg, pos, a + b) <==> Holds(msg, pos, a) && Holds(msg, pos + |a|, b)
  {
    if pos + |a| + |b| <= |msg| {
      var x, y := msg[pos..pos + |a|], msg[pos + |a|..pos + |a| + |b|];
      assert msg[pos..pos + |a + b|] == x + y;
      assert (x + y)[..|a|] == x && (x + y)[|a|..] == y;
      assert (a + b)[..|a|] == a && (a + b)[|a|..] == b;
    }
  }

  /** `memcpy`: the octets of `src` stored from `at` on. */
  method Store(buf: array<byte>, at: nat, src: seq<byte>)
    requires at + |src| <= buf.Length
    modifies buf
    ensures buf[..] == old(buf[..at]) + src + old(buf[at + |src|..])
    ensures forall j :: at <= j < at + |src| ==> buf[j] == src[j - at]
    ensures forall j :: 0 <= j < buf.Length && !(at <= j < at + |src|) ==> buf[j] == old(buf[j])
  {
    ghost var was := buf[..];
    for k := 0 to |src|
      invariant forall j :: at <= j < at + k ==> buf[j] == src[j - at]
      invariant forall j :: 0 <= j < buf.Length && !(at <= j < at + k) ==> buf[j] == was[j]
    {
      buf[at + k] := src[k];
    }
    assert buf[..at] == was[..at];
    assert buf[at..at + |src|] == src;
    assert buf[at + |src|..] == was[at + |src|..];
    assert buf[..] == buf[..at] + buf[at..at + |src|] + buf[at + |src|..];
  }
}
