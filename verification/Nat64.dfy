/**
 IPv4-embedded IPv6 addresses (sections 2.2 and 2.3 of RFC 6052): the direct embedding of
 `ipv4toipv6`, and the recovery of the prefix length from a synthesized address that
 `IsNat64AddrValid` and `ReplaceNat64WithV4IP` rest on (section 3 of RFC 7050).
 */
module Nat64 {
  import opened Bytes

  predicate IsAddress(s: seq<byte>) { |s| == ADDRESS_SIZE }

  predicate IsV4(v: seq<byte>) { |v| == 4 }

  predicate PrefixLength(pl: int) {
    pl == 32 || pl == 40 || pl == 48 || pl == 56 || pl == 64 || pl == 96
  }

  // ----- Reference definition: the table of section 2.2 of RFC 6052 -----

  /** Position of octet `k` of the IPv4 address: behind the prefix, stepping over octet 8. */
  function V4Position(pl: int, k: nat): (q: nat)
    requires PrefixLength(pl) && k < 4
    ensures pl / 8 <= q < ADDRESS_SIZE
  {
    if pl < 96 && pl / 8 + k >= 8 then pl / 8 + k + 1 else pl / 8 + k
  }

  /** The octet at position `j`: prefix, IPv4 address, or zero for octet 8 and the suffix. */
  function EmbeddedOctet(pl: int, prefix: seq<byte>, v: seq<byte>, j: nat): byte
    requires PrefixLength(pl) && IsAddress(prefix) && IsV4(v) && j < ADDRESS_SIZE
  {
    if j < pl / 8 then prefix[j]
    else if j == V4Position(pl, 0) then v[0]
    else if j == V4Position(pl, 1) then v[1]
    else if j == V4Position(pl, 2) then v[2]
    else if j == V4Position(pl, 3) then v[3]
    else 0
  }

  function Embed(pl: int, prefix: seq<byte>, v: seq<byte>): (a: seq<byte>)
    requires PrefixLength(pl) && IsAddress(prefix) && IsV4(v)
    ensures IsAddress(a)
  {
    seq(ADDRESS_SIZE, j requires 0 <= j < ADDRESS_SIZE => EmbeddedOctet(pl, prefix, v, j))
  }

  /** The table itself: the octets of an embedded address from left to right, for each prefix length. */
  lemma EmbedLayout(prefix: seq<byte>, v: seq<byte>)
    requires IsAddress(prefix) && IsV4(v)
    ensures Embed(32, prefix, v) == prefix[..4] + v + [0, 0, 0, 0, 0, 0, 0, 0]
    ensures Embed(40, prefix, v) == prefix[..5] + v[..3] + [0, v[3], 0, 0, 0, 0, 0, 0]
    ensures Embed(48, prefix, v) == prefix[..6] + v[..2] + [0, v[2], v[3], 0, 0, 0, 0, 0]
    ensures Embed(56, prefix, v) == prefix[..7] + [v[0], 0, v[1], v[2], v[3], 0, 0, 0, 0]
    ensures Embed(64, prefix, v) == prefix[..8] + [0] + v + [0, 0, 0]
    ensures Embed(96, prefix, v) == prefix[..12] + v
  {
  }

  // ----- The direct embedding -----

  /** The value of `s_addr` on a little-endian host when memory holds the octets `v`. */
  function LittleEndian(v: seq<byte>): (s: nat)
    requires IsV4(v)
    ensures s < 0x1_0000_0000
  {
    v[0] as nat + 256 * v[1] as nat + 0x1_0000 * v[2] as nat + 0x100_0000 * v[3] as nat
  }

  /** `s_addr >> 8 * k & 0xff`. */
  function ShiftMask(s: nat, k: nat): byte
    requires k < 4
  {
    (if k == 0 then s else if k == 1 then s / 256 else if k == 2 then s / 0x1_0000 else s / 0x100_0000) % 256
  }

  /** Shifting by 0, 8, 16 and 24 takes a word apart from its least significant octet on. */
  lemma ShiftMaskDigits(s: nat)
    requires s < 0x1_0000_0000
    ensures s == ShiftMask(s, 0) as nat + 256 * ShiftMask(s, 1) as nat + 0x1_0000 * ShiftMask(s, 2) as nat
                 + 0x100_0000 * ShiftMask(s, 3) as nat
  {
  }

  /** A 32-bit word whose octets, from the least significant on, are `a`, `b`, `c` and `d`. */
  function Word(a: bv8, b: bv8, c: bv8, d: bv8): bv32 {
    (d as bv32 << 24) | (c as bv32 << 16) | (b as bv32 << 8) | a as bv32
  }

  /** The four octets of memory that hold a word on a little-endian host. */
  function Memory(a: bv8, b: bv8, c: bv8, d: bv8): (v: seq<byte>)
    ensures IsV4(v)
  {
    [a as int, b as int, c as int, d as int]
  }

  lemma OctetValue(a: bv8)
    ensures (a as bv32) as int == a as int
  {
  }

  lemma WordOctets(a: bv8, b: bv8, c: bv8, d: bv8)
    ensures var s := Word(a, b, c, d);
            && s & 0xff == a as bv32 && (s >> 8) & 0xff == b as bv32
            && (s >> 16) & 0xff == c as bv32 && (s >> 24) & 0xff == d as bv32
  {
  }

  /** `ShiftMask` agrees with the shifts and masks of a machine word. */
  lemma ShiftMaskBits(a: bv8, b: bv8, c: bv8, d: bv8)
    ensures var s, n := Word(a, b, c, d), LittleEndian(Memory(a, b, c, d));
            && (s & 0xff) as int == ShiftMask(n, 0) && ((s >> 8) & 0xff) as int == ShiftMask(n, 1)
            && ((s >> 16) & 0xff) as int == ShiftMask(n, 2) && ((s >> 24) & 0xff) as int == ShiftMask(n, 3)
    ensures LittleEndian(Memory(a, b, c, d)) % 256 == a as int
  {
    WordOctets(a, b, c, d);
    OctetValue(a);
    OctetValue(b);
    OctetValue(c);
    OctetValue(d);
    hide Word;
    var v := Memory(a, b, c, d);
    ShiftMaskOctets(v, 0);
    ShiftMaskOctets(v, 1);
    ShiftMaskOctets(v, 2);
    ShiftMaskOctets(v, 3);
    hide ShiftMask;
  }

  /** Shifting and masking on a little-endian host yields the octets a `memcpy` would copy. */
  lemma ShiftMaskOctets(v: seq<byte>, k: nat)
    requires IsV4(v) && k < 4
    ensures ShiftMask(LittleEndian(v), k) == v[k]
  {
    var s: nat, a: nat, b: nat, c: nat, d: nat := LittleEndian(v), v[0], v[1], v[2], v[3];
    assert s / 256 == b + 256 * (c + 256 * d);
    assert s / 0x1_0000 == c + 256 * d;
    assert s / 0x100_0000 == d;
  }

  /** Zeroes the prefix's octets from `first` on and copies the first `n` octets of the result. */
  method CopyPrefix(checked: array<byte>, first: nat, n: nat) returns (pointer: array<byte>)
    requires checked.Length == ADDRESS_SIZE && first <= n <= ADDRESS_SIZE
    modifies checked
    ensures fresh(pointer) && pointer.Length == ADDRESS_SIZE
    ensures forall j :: 0 <= j < first ==> pointer[j] == old(checked[j])
    ensures forall j :: first <= j < n ==> pointer[j] == 0
  {
    for i := first to ADDRESS_SIZE
      invariant forall j :: 0 <= j < first ==> checked[j] == old(checked[j])
      invariant forall j :: first <= j < i ==> checked[j] == 0
    {
      checked[i] := 0;
    }
    pointer := new byte[ADDRESS_SIZE];
    for i := 0 to n
      invariant forall j :: 0 <= j < first ==> checked[j] == old(checked[j])
      invariant forall j :: first <= j < ADDRESS_SIZE ==> checked[j] == 0
      invariant forall j :: 0 <= j < i ==> pointer[j] == checked[j]
    {
      pointer[i] := checked[i];
    }
  }

  /** The octets of the IPv4 address, shifted and masked out one by one, for the prefix length `pl`. */
  method StoreV4(pl: int, pointer: array<byte>, sAddr: nat)
    requires PrefixLength(pl) && pointer.Length == ADDRESS_SIZE
    modifies pointer
    ensures forall j :: 0 <= j < pl / 8 ==> pointer[j] == old(pointer[j])
    ensures forall k :: 0 <= k < 4 ==> pointer[V4Position(pl, k)] == ShiftMask(sAddr, k)
    ensures pl < 96 ==> pointer[8] == 0
    ensures pl < 96 ==> forall j :: V4Position(pl, 3) < j < ADDRESS_SIZE && j != 8 ==> pointer[j] == old(pointer[j])
  {
    if pl == 96 {
      pointer[12], pointer[13] := ShiftMask(sAddr, 0), ShiftMask(sAddr, 1);
      pointer[14], pointer[15] := ShiftMask(sAddr, 2), ShiftMask(sAddr, 3);
    } else if pl == 64 {
      pointer[8] := 0;
      pointer[9], pointer[10] := ShiftMask(sAddr, 0), ShiftMask(sAddr, 1);
      pointer[11], pointer[12] := ShiftMask(sAddr, 2), ShiftMask(sAddr, 3);
    } else if pl == 56 {
      pointer[7], pointer[8] := ShiftMask(sAddr, 0), 0;
      pointer[9], pointer[10], pointer[11] := ShiftMask(sAddr, 1), ShiftMask(sAddr, 2), ShiftMask(sAddr, 3);
    } else if pl == 48 {
      pointer[6], pointer[7], pointer[8] := ShiftMask(sAddr, 0), ShiftMask(sAddr, 1), 0;
      pointer[9], pointer[10] := ShiftMask(sAddr, 2), ShiftMask(sAddr, 3);
    } else if pl == 40 {
      pointer[5], pointer[6], pointer[7] := ShiftMask(sAddr, 0), ShiftMask(sAddr, 1), ShiftMask(sAddr, 2);
      pointer[8], pointer[9] := 0, ShiftMask(sAddr, 3);
    } else {
      pointer[4], pointer[5] := ShiftMask(sAddr, 0), ShiftMask(sAddr, 1);
      pointer[6], pointer[7], pointer[8] := ShiftMask(sAddr, 2), ShiftMask(sAddr, 3), 0;
    }
  }

  /**
   `ipv4toipv6`: `checked` holds the configured prefix, `sAddr` the IPv4 address as a little-endian
   host reads it. A prefix length outside the six of RFC 6052 is refused.
   */
  method Ipv4ToIpv6(pl: int, checked: array<byte>, v: seq<byte>, sAddr: nat) returns (ok: bool, pointer: array<byte>)
    requires checked.Length == ADDRESS_SIZE && IsV4(v) && sAddr == LittleEndian(v)
    modifies checked
    ensures ok <==> PrefixLength(pl)
    ensures fresh(pointer) && pointer.Length == ADDRESS_SIZE
    ensures ok ==> pointer[..] == Embed(pl, old(checked[..]), v)
  {
    ok := PrefixLength(pl);
    if !ok {
      pointer := new byte[ADDRESS_SIZE];
      return;
    }
    ghost var prefix := checked[..];
    pointer := CopyPrefix(checked, pl / 8, if pl == 96 then 12 else ADDRESS_SIZE);
    StoreV4(pl, pointer, sAddr);
    forall k: nat | k < 4
      ensures pointer[V4Position(pl, k)] == v[k]
    {
      ShiftMaskOctets(v, k);
    }
    forall j | 0 <= j < ADDRESS_SIZE
      ensures pointer[j] == EmbeddedOctet(pl, prefix, v, j)
    {
    }
  }

  // ----- Counting the suffix -----

  function SuffixZeros(s: seq<byte>): (n: nat)
    ensures n <= |s|
    ensures forall j :: |s| - n <= j < |s| ==> s[j] == 0
    ensures n < |s| ==> s[|s| - 1 - n] != 0
  {
    if s == [] || s[|s| - 1] != 0 then 0 else 1 + SuffixZeros(s[..|s| - 1])
  }

  lemma SuffixZerosIs(s: seq<byte>, n: nat)
    requires n < |s| && s[|s| - 1 - n] != 0
    requires forall j :: |s| - n <= j < |s| ==> s[j] == 0
    ensures SuffixZeros(s) == n
  {
  }

  method GetSuffixZeroCount(buf: array<byte>) returns (count: nat)
    ensures count == SuffixZeros(buf[..])
  {
    count := 0;
    var i := 0;
    while i < buf.Length
      invariant count == i <= buf.Length
      invariant forall j :: buf.Length - i <= j < buf.Length ==> buf[j] == 0
    {
      if buf[buf.Length - 1 - i] != 0 {
        SuffixZerosIs(buf[..], i);
        return;
      }
      count := count + 1;
      i := i + 1;
    }
  }

  /** Suffix length that gives a prefix length away when the IPv4 address ends in a non-zero octet. */
  function SuffixOf(pl: int): nat
    requires PrefixLength(pl)
  {
    if pl == 96 then 0 else if pl == 32 then 8 else 3 + (64 - pl) / 8
  }

  /** The prefix length the code concludes from a suffix length; anything unknown counts as 96. */
  function PrefixLengthOf(zeros: nat): (pl: int)
    ensures PrefixLength(pl)
  {
    match zeros
    case 3 => 64
    case 4 => 56
    case 5 => 48
    case 6 => 40
    case 8 => 32
    case _ => 96
  }

  /** For every prefix and prefix length, an IPv4 address that ends non-zero gives the prefix length away. */
  lemma PrefixLengthRecovered(pl: int, prefix: seq<byte>, v: seq<byte>)
    requires PrefixLength(pl) && IsAddress(prefix) && IsV4(v) && v[3] != 0
    ensures SuffixZeros(Embed(pl, prefix, v)) == SuffixOf(pl)
    ensures PrefixLengthOf(SuffixOf(pl)) == pl
  {
    SuffixZerosIs(Embed(pl, prefix, v), SuffixOf(pl));
  }

  // ----- Replacing the embedded IPv4 address -----

  datatype Edit = Edit(at: nat, octet: byte)

  /** The octets stored for a suffix length, in the order they are stored. */
  function Edits(zeros: nat, v: seq<byte>): (es: seq<Edit>)
    requires IsV4(v)
    ensures forall k :: 0 <= k < |es| ==> es[k].at < ADDRESS_SIZE
  {
    match zeros
    case 3 => [Edit(9, v[0]), Edit(10, v[1]), Edit(11, v[2]), Edit(12, v[3])]
    case 4 => [Edit(7, v[0]), Edit(8, 0), Edit(9, v[1]), Edit(10, v[2]), Edit(11, v[3])]
    case 5 => [Edit(6, v[0]), Edit(7, v[1]), Edit(8, 0), Edit(9, v[2]), Edit(10, v[3])]
    case 6 => [Edit(5, v[0]), Edit(6, v[1]), Edit(7, v[2]), Edit(8, 0), Edit(9, v[3])]
    case 8 => [Edit(4, v[0]), Edit(5, v[1]), Edit(6, v[2]), Edit(7, v[3])]
    case _ => [Edit(12, v[0]), Edit(13, v[1]), Edit(14, v[2]), Edit(15, v[3])]
  }

  /** The address after the stores `es`, one after the other. */
  function Patch(a: seq<byte>, es: seq<Edit>): (r: seq<byte>)
    requires forall k :: 0 <= k < |es| ==> es[k].at < |a|
    ensures |r| == |a|
    decreases |es|
  {
    if es == [] then a
    else Patch(a, es[..|es| - 1])[es[|es| - 1].at := es[|es| - 1].octet]
  }

  /** Storing one more edit extends the patch by it. */
  lemma PatchStep(a: seq<byte>, es: seq<Edit>, k: nat)
    requires k < |es| && forall m :: 0 <= m < |es| ==> es[m].at < |a|
    ensures Patch(a, es[..k + 1]) == Patch(a, es[..k])[es[k].at := es[k].octet]
  {
    assert es[..k + 1][..k] == es[..k];
  }

  function Replace(a: seq<byte>, v: seq<byte>): (r: seq<byte>)
    requires IsAddress(a) && IsV4(v)
    ensures IsAddress(r)
  {
    Patch(a, Edits(SuffixZeros(a), v))
  }

  /** The stores put the IPv4 address where the concluded prefix length wants it, and zero octet 8. */
  function ReplacedOctet(a: seq<byte>, pl: int, v: seq<byte>, j: nat): byte
    requires IsAddress(a) && PrefixLength(pl) && IsV4(v) && j < ADDRESS_SIZE
  {
    if j == V4Position(pl, 0) then v[0]
    else if j == V4Position(pl, 1) then v[1]
    else if j == V4Position(pl, 2) then v[2]
    else if j == V4Position(pl, 3) then v[3]
    else if j == 8 && (pl == 56 || pl == 48 || pl == 40) then 0
    else a[j]
  }

  /** The stores of one `switch` branch, around octet 8 where the IPv4 address straddles it. */
  method StoreEdits(a: array<byte>, zeros: nat, v: seq<byte>)
    requires a.Length == ADDRESS_SIZE && IsV4(v)
    modifies a
    ensures forall j :: 0 <= j < ADDRESS_SIZE ==> a[j] == ReplacedOctet(old(a[..]), PrefixLengthOf(zeros), v, j)
  {
    if zeros == 3 {
      Store(a, 9, v);
    } else if zeros == 8 {
      Store(a, 4, v);
    } else if zeros == 4 || zeros == 5 || zeros == 6 {
      StoreStraddling(a, 11 - zeros, v);
    } else {
      Store(a, 12, v);
    }
  }

  /** The first `8 - at` octets of the IPv4 address, a zero for octet 8, and the rest. */
  method StoreStraddling(a: array<byte>, at: nat, v: seq<byte>)
    requires a.Length == ADDRESS_SIZE && IsV4(v) && 5 <= at < 8
    modifies a
    ensures forall j :: at <= j < 8 ==> a[j] == v[j - at]
    ensures a[8] == 0
    ensures forall j :: 8 < j < at + 5 ==> a[j] == v[j - at - 1]
    ensures forall j :: 0 <= j < ADDRESS_SIZE && !(at <= j < at + 5) ==> a[j] == old(a[j])
  {
    Store(a, at, v[..8 - at]);
    Store(a, 8, [0]);
    Store(a, 9, v[8 - at..]);
  }

  /** `ReplaceNat64WithV4IP`: the stores are made in place, by the suffix length found. */
  method ReplaceNat64WithV4IP(a: array<byte>, v: seq<byte>)
    requires a.Length == ADDRESS_SIZE && IsV4(v)
    modifies a
    ensures a[..] == Replace(old(a[..]), v)
  {
    hide ReplacedOctet, Patch, Edits;
    var zeros := GetSuffixZeroCount(a);
    PatchOctets(a[..], zeros, v);
    StoreEdits(a, zeros, v);
  }

  lemma PatchOctets(a: seq<byte>, zeros: nat, v: seq<byte>)
    requires IsAddress(a) && IsV4(v)
    ensures forall j :: 0 <= j < ADDRESS_SIZE ==> Patch(a, Edits(zeros, v))[j] == ReplacedOctet(a, PrefixLengthOf(zeros), v, j)
  {
    var es := Edits(zeros, v);
    assert es[..0] == [];
    PatchStep(a, es, 0);
    PatchStep(a, es, 1);
    PatchStep(a, es, 2);
    PatchStep(a, es, 3);
    if |es| == 5 {
      PatchStep(a, es, 4);
    }
    assert es[..|es|] == es;
  }

  lemma ReplaceOctets(a: seq<byte>, v: seq<byte>)
    requires IsAddress(a) && IsV4(v)
    ensures forall j :: 0 <= j < ADDRESS_SIZE ==> Replace(a, v)[j] == ReplacedOctet(a, PrefixLengthOf(SuffixZeros(a)), v, j)
  {
    PatchOctets(a, SuffixZeros(a), v);
  }

  lemma Overwritten(a: seq<byte>, r: seq<byte>, at: nat, mid: seq<byte>)
    requires |r| == |a| && at + |mid| <= |a|
    requires forall j :: 0 <= j < |a| ==> r[j] == if at <= j < at + |mid| then mid[j - at] else a[j]
    ensures r == a[..at] + mid + a[at + |mid|..]
  {
  }

  /** What is stored where octet 8 parts the IPv4 address: a zero for it, and the rest of the address behind it. */
  lemma ReplaceLayoutParted(a: seq<byte>, v: seq<byte>)
    requires IsAddress(a) && IsV4(v)
    ensures SuffixZeros(a) == 6 ==> Replace(a, v) == a[..5] + [v[0], v[1], v[2], 0, v[3]] + a[10..]
    ensures SuffixZeros(a) == 5 ==> Replace(a, v) == a[..6] + [v[0], v[1], 0, v[2], v[3]] + a[11..]
    ensures SuffixZeros(a) == 4 ==> Replace(a, v) == a[..7] + [v[0], 0, v[1], v[2], v[3]] + a[12..]
  {
    var zeros, r := SuffixZeros(a), Replace(a, v);
    ReplaceOctets(a, v);
    hide Replace, SuffixZeros;
    match zeros
    case 6 => Overwritten(a, r, 5, [v[0], v[1], v[2], 0, v[3]]);
    case 5 => Overwritten(a, r, 6, [v[0], v[1], 0, v[2], v[3]]);
    case 4 => Overwritten(a, r, 7, [v[0], 0, v[1], v[2], v[3]]);
    case _ =>
  }

  lemma WholeOctet(a: seq<byte>, v: seq<byte>, j: nat)
    requires IsAddress(a) && IsV4(v) && SuffixZeros(a) !in {4, 5, 6} && j < ADDRESS_SIZE
    ensures var at := if SuffixZeros(a) == 8 then 4 else if SuffixZeros(a) == 3 then 9 else 12;
            Replace(a, v)[j] == if at <= j < at + 4 then v[j - at] else a[j]
  {
    ReplaceOctets(a, v);
    hide Replace, SuffixZeros;
  }

  /** What is stored otherwise: the IPv4 address in one piece; octet 8 stays as it is. */
  lemma ReplaceLayoutWhole(a: seq<byte>, v: seq<byte>)
    requires IsAddress(a) && IsV4(v) && SuffixZeros(a) !in {4, 5, 6}
    ensures var at := if SuffixZeros(a) == 8 then 4 else if SuffixZeros(a) == 3 then 9 else 12;
            Replace(a, v) == a[..at] + v + a[at + 4..]
  {
    hide Replace, SuffixZeros;
    var at := if SuffixZeros(a) == 8 then 4 else if SuffixZeros(a) == 3 then 9 else 12;
    forall j | 0 <= j < ADDRESS_SIZE
      ensures Replace(a, v)[j] == if at <= j < at + 4 then v[j - at] else a[j]
    {
      WholeOctet(a, v, j);
    }
    Overwritten(a, Replace(a, v), at, v);
  }

  /** Where the prefix length is concluded correctly, replacing agrees with embedding directly. */
  lemma ReplaceIsEmbed(pl: int, prefix: seq<byte>, w: seq<byte>, v: seq<byte>)
    requires PrefixLength(pl) && IsAddress(prefix) && IsV4(w) && IsV4(v)
    requires PrefixLengthOf(SuffixZeros(Embed(pl, prefix, w))) == pl
    ensures Replace(Embed(pl, prefix, w), v) == Embed(pl, prefix, v)
  {
    var a := Embed(pl, prefix, w);
    ReplaceOctets(a, v);
    forall j | 0 <= j < ADDRESS_SIZE
      ensures Replace(a, v)[j] == Embed(pl, prefix, v)[j]
    {
    }
  }

  /**
   Synthesized addresses whose prefix length can be told from their suffix: the IPv4 address ends
   non-zero, or the prefix has 96 bits and the zeros at the end are not one of the telling numbers.
   */
  predicate Recoverable(pl: int, prefix: seq<byte>, w: seq<byte>)
    requires PrefixLength(pl) && IsAddress(prefix) && IsV4(w)
  {
    w[3] != 0 || (pl == 96 && SuffixZeros(prefix[..12] + w) !in {3, 4, 5, 6, 8})
  }

  lemma RecoverableIsRecovered(pl: int, prefix: seq<byte>, w: seq<byte>)
    requires PrefixLength(pl) && IsAddress(prefix) && IsV4(w)
    ensures Recoverable(pl, prefix, w) <==> PrefixLengthOf(SuffixZeros(Embed(pl, prefix, w))) == pl
  {
    var a := Embed(pl, prefix, w);
    if w[3] != 0 {
      PrefixLengthRecovered(pl, prefix, w);
    } else if pl == 96 {
      assert a == prefix[..12] + w;
    } else {
      assert a[V4Position(pl, 3)] == 0 && 15 - V4Position(pl, 3) == SuffixOf(pl);
      assert SuffixZeros(a) != SuffixOf(pl);
    }
  }

  /** A wrong conclusion shows: the replaced address has another suffix than the direct embedding. */
  lemma WrongPrefixShows(pl: int, prefix: seq<byte>, w: seq<byte>)
    requires PrefixLength(pl) && IsAddress(prefix) && IsV4(w)
    requires PrefixLengthOf(SuffixZeros(Embed(pl, prefix, w))) != pl
    ensures Replace(Embed(pl, prefix, w), [1, 1, 1, 1]) != Embed(pl, prefix, [1, 1, 1, 1])
  {
    var v: seq<byte> := [1, 1, 1, 1];
    ReplaceKeepsPrefixLength(Embed(pl, prefix, w), v);
    PrefixLengthRecovered(pl, prefix, v);
  }

  /**
   Replacing in a synthesized address agrees with direct embedding, for every IPv4 address put in,
   exactly when the synthesized address is recoverable.
   */
  lemma ReplaceRefinesEmbed(pl: int, prefix: seq<byte>, w: seq<byte>)
    requires PrefixLength(pl) && IsAddress(prefix) && IsV4(w)
    ensures (forall v :: IsV4(v) ==> Replace(Embed(pl, prefix, w), v) == Embed(pl, prefix, v))
            <==> Recoverable(pl, prefix, w)
  {
    RecoverableIsRecovered(pl, prefix, w);
    if Recoverable(pl, prefix, w) {
      forall v | IsV4(v)
        ensures Replace(Embed(pl, prefix, w), v) == Embed(pl, prefix, v)
      {
        ReplaceIsEmbed(pl, prefix, w, v);
      }
    } else {
      WrongPrefixShows(pl, prefix, w);
      assert IsV4([1, 1, 1, 1]);
    }
  }

  /**
   An address the replacement gets wrong: 10.0.0.0 behind any 64-bit prefix leaves six zero octets, the
   suffix of a 40-bit prefix, so the new octets go to the wrong place.
   */
  lemma SixZerosMisread(prefix: seq<byte>)
    requires IsAddress(prefix)
    ensures var w: seq<byte>, v: seq<byte> := [10, 0, 0, 0], [1, 1, 1, 1];
            && !Recoverable(64, prefix, w)
            && PrefixLengthOf(SuffixZeros(Embed(64, prefix, w))) == 40
            && Replace(Embed(64, prefix, w), v) != Embed(64, prefix, v)
  {
    SuffixZerosIs(Embed(64, prefix, [10, 0, 0, 0]), 6);
    WrongPrefixShows(64, prefix, [10, 0, 0, 0]);
  }

  /** A replacement by an address that ends non-zero keeps the concluded prefix length. */
  lemma ReplaceKeepsPrefixLength(a: seq<byte>, v: seq<byte>)
    requires IsAddress(a) && IsV4(v) && v[3] != 0
    ensures PrefixLengthOf(SuffixZeros(Replace(a, v))) == PrefixLengthOf(SuffixZeros(a))
  {
    var r, pl := Replace(a, v), PrefixLengthOf(SuffixZeros(a));
    ReplaceOctets(a, v);
    SuffixZerosIs(r, SuffixOf(pl));
  }

  lemma ReplacedEnd(a: seq<byte>, v: seq<byte>)
    requires IsAddress(a) && IsV4(v)
    ensures var pl := PrefixLengthOf(SuffixZeros(a));
            && Replace(a, v)[ADDRESS_SIZE - 1 - SuffixOf(pl)] == v[3]
            && (pl == 96 ==> Replace(a, v) == a[..12] + v)
  {
    ReplaceOctets(a, v);
    hide Replace, SuffixZeros, PrefixLengthOf;
  }

  /** The conclusion drawn from a replaced address is the one drawn before exactly when the new content is recoverable. */
  lemma ReplaceKeepsConclusion(a: seq<byte>, v: seq<byte>)
    requires IsAddress(a) && IsV4(v)
    ensures Recoverable(PrefixLengthOf(SuffixZeros(a)), a, v)
            <==> PrefixLengthOf(SuffixZeros(Replace(a, v))) == PrefixLengthOf(SuffixZeros(a))
  {
    var r, pl := Replace(a, v), PrefixLengthOf(SuffixZeros(a));
    if v[3] != 0 {
      ReplaceKeepsPrefixLength(a, v);
    } else {
      ReplacedEnd(a, v);
      if pl != 96 {
        assert SuffixZeros(r) != SuffixOf(pl);
      }
    }
  }

  lemma OverwriteOctet(a: seq<byte>, r: seq<byte>, pl: int, v1: seq<byte>, v2: seq<byte>, j: nat)
    requires IsAddress(a) && IsAddress(r) && PrefixLength(pl) && IsV4(v1) && IsV4(v2) && j < ADDRESS_SIZE
    requires r[j] == ReplacedOctet(a, pl, v1, j)
    ensures ReplacedOctet(r, pl, v2, j) == ReplacedOctet(a, pl, v2, j)
  {
  }

  /** Replacing in an address with the same conclusion overwrites the earlier replacement. */
  lemma ReplaceOverwrites(a: seq<byte>, v1: seq<byte>, v2: seq<byte>)
    requires IsAddress(a) && IsV4(v1) && IsV4(v2)
    requires PrefixLengthOf(SuffixZeros(Replace(a, v1))) == PrefixLengthOf(SuffixZeros(a))
    ensures Replace(Replace(a, v1), v2) == Replace(a, v2)
  {
    var r := Replace(a, v1);
    ReplaceOctets(a, v1);
    ReplaceOctets(a, v2);
    ReplaceOctets(r, v2);
    hide Replace, SuffixZeros, PrefixLengthOf, ReplacedOctet;
    forall j | 0 <= j < ADDRESS_SIZE
      ensures Replace(r, v2)[j] == Replace(a, v2)[j]
    {
      OverwriteOctet(a, r, PrefixLengthOf(SuffixZeros(a)), v1, v2, j);
    }
  }

  /** After a replacement that changes the conclusion, the next one goes elsewhere. */
  lemma FirstReplacementShows(a: seq<byte>, v1: seq<byte>)
    requires IsAddress(a) && IsV4(v1)
    requires PrefixLengthOf(SuffixZeros(Replace(a, v1))) != PrefixLengthOf(SuffixZeros(a))
    ensures Replace(Replace(a, v1), [1, 1, 1, 1]) != Replace(a, [1, 1, 1, 1])
  {
    hide Replace, PrefixLengthOf, SuffixZeros;
    var v: seq<byte> := [1, 1, 1, 1];
    ReplaceKeepsPrefixLength(a, v);
    ReplaceKeepsPrefixLength(Replace(a, v1), v);
  }

  /**
   The second of two replacements wins, whatever is put in last, exactly when the first IPv4 address
   is recoverable in the address it goes into; one that ends non-zero always is.
   */
  lemma ReplaceTwice(a: seq<byte>, v1: seq<byte>)
    requires IsAddress(a) && IsV4(v1)
    ensures (forall v2 :: IsV4(v2) ==> Replace(Replace(a, v1), v2) == Replace(a, v2))
            <==> Recoverable(PrefixLengthOf(SuffixZeros(a)), a, v1)
  {
    hide Replace, Recoverable, PrefixLengthOf, SuffixZeros;
    ReplaceKeepsConclusion(a, v1);
    if Recoverable(PrefixLengthOf(SuffixZeros(a)), a, v1) {
      forall v2 | IsV4(v2)
        ensures Replace(Replace(a, v1), v2) == Replace(a, v2)
      {
        ReplaceOverwrites(a, v1, v2);
      }
    } else {
      FirstReplacementShows(a, v1);
      assert IsV4([1, 1, 1, 1]);
    }
  }

  // ----- Recognizing a synthesized answer -----

  /**
   The IPv4 addresses whose synthesized form is asked for: those of ipv4only.arpa (section 2.2 of
   RFC 7050), or 192.0.2.1 where the platform synthesizes addresses itself.
   */
  predicate IsProbe(w: seq<byte>, apple: bool) {
    if apple then w == [192, 0, 2, 1] else w == [192, 0, 0, 170] || w == [192, 0, 0, 171]
  }

  /** `a` embeds `w`. For 64-bit prefixes the code leaves octet 8 unchecked. */
  predicate EmbedsAt(a: seq<byte>, pl: int, w: seq<byte>)
    requires IsAddress(a) && PrefixLength(pl) && IsV4(w)
  {
    a == if pl == 64 then Embed(pl, a, w)[8 := a[8]] else Embed(pl, a, w)
  }

  ghost predicate IsProbeAnswer(a: seq<byte>, apple: bool)
    requires IsAddress(a)
  {
    exists pl, w :: PrefixLength(pl) && IsV4(w) && IsProbe(w, apple) && EmbedsAt(a, pl, w)
  }

  /** The octets compared for a suffix length: where they start and what they must be. */
  function Expected(zeros: nat, w: seq<byte>): (e: Option<(nat, seq<byte>)>)
    requires IsV4(w)
    ensures e.Some? ==> e.value.0 + |e.value.1| <= ADDRESS_SIZE
  {
    match zeros
    case 3 => Some((9, w))
    case 4 => Some((7, [w[0], 0, w[1], w[2], w[3]]))
    case 5 => Some((6, [w[0], w[1], 0, w[2], w[3]]))
    case 6 => Some((5, [w[0], w[1], w[2], 0, w[3]]))
    case 8 => Some((4, w))
    case 0 => Some((12, w))
    case _ => None
  }

  predicate MatchesExpected(a: seq<byte>, zeros: nat, w: seq<byte>)
    requires IsAddress(a) && IsV4(w)
  {
    match Expected(zeros, w)
    case None => false
    case Some(e) => a[e.0..e.0 + |e.1|] == e.1
  }

  lemma MatchOctet(a: seq<byte>, w: seq<byte>, j: nat)
    requires IsAddress(a) && IsV4(w) && MatchesExpected(a, SuffixZeros(a), w) && j < ADDRESS_SIZE
    requires !(PrefixLengthOf(SuffixZeros(a)) == 64 && j == 8)
    ensures a[j] == EmbeddedOctet(PrefixLengthOf(SuffixZeros(a)), a, w, j)
  {
    var zeros := SuffixZeros(a);
    var e := Expected(zeros, w).value;
    hide SuffixZeros;
    if e.0 <= j < e.0 + |e.1| {
      assert a[j] == a[e.0..e.0 + |e.1|][j - e.0] == e.1[j - e.0];
    }
  }

  /** A match fills the octets of the IPv4 address; the counted suffix fills the rest. */
  lemma MatchIsEmbedding(a: seq<byte>, w: seq<byte>)
    requires IsAddress(a) && IsV4(w) && MatchesExpected(a, SuffixZeros(a), w)
    ensures EmbedsAt(a, PrefixLengthOf(SuffixZeros(a)), w)
  {
    hide MatchesExpected, SuffixZeros, PrefixLengthOf, EmbeddedOctet;
    var pl := PrefixLengthOf(SuffixZeros(a));
    forall j | 0 <= j < ADDRESS_SIZE && (pl != 64 || j != 8)
      ensures a[j] == EmbeddedOctet(pl, a, w, j)
    {
      MatchOctet(a, w, j);
    }
    assert a == if pl == 64 then Embed(pl, a, w)[8 := a[8]] else Embed(pl, a, w);
  }

  lemma EmbeddingSuffix(a: seq<byte>, pl: int, w: seq<byte>)
    requires IsAddress(a) && PrefixLength(pl) && IsV4(w) && w[3] != 0 && EmbedsAt(a, pl, w)
    ensures SuffixZeros(a) == SuffixOf(pl)
  {
    SuffixZerosIs(a, SuffixOf(pl));
  }

  lemma ExpectedOctets(a: seq<byte>, pl: int, w: seq<byte>, k: nat)
    requires IsAddress(a) && PrefixLength(pl) && IsV4(w)
    requires Expected(SuffixOf(pl), w).Some? && k < |Expected(SuffixOf(pl), w).value.1|
    ensures var e := Expected(SuffixOf(pl), w).value;
            e.1[k] == EmbeddedOctet(pl, a, w, e.0 + k) && !(pl == 64 && e.0 + k == 8)
  {
  }

  lemma EmbeddingMatches(a: seq<byte>, pl: int, w: seq<byte>)
    requires IsAddress(a) && PrefixLength(pl) && IsV4(w) && w[3] != 0 && EmbedsAt(a, pl, w)
    ensures MatchesExpected(a, SuffixZeros(a), w)
  {
    hide EmbeddedOctet;
    EmbeddingSuffix(a, pl, w);
    var e := Expected(SuffixOf(pl), w).value;
    forall k | 0 <= k < |e.1|
      ensures a[e.0..e.0 + |e.1|][k] == e.1[k]
    {
      ExpectedOctets(a, pl, w, k);
      assert a[e.0 + k] == EmbeddedOctet(pl, a, w, e.0 + k);
    }
  }

  /** The comparison is exact for addresses that end non-zero. */
  lemma MatchExact(a: seq<byte>, w: seq<byte>)
    requires IsAddress(a) && IsV4(w) && w[3] != 0
    ensures MatchesExpected(a, SuffixZeros(a), w) <==> exists pl :: PrefixLength(pl) && EmbedsAt(a, pl, w)
  {
    if MatchesExpected(a, SuffixZeros(a), w) {
      MatchIsEmbedding(a, w);
    }
    if pl :| PrefixLength(pl) && EmbedsAt(a, pl, w) {
      EmbeddingMatches(a, pl, w);
    }
  }

  /** The octets `memcmp` looks for: the address itself and with a zero after its first, second and third octet. */
  datatype Probe = Probe(plain: seq<byte>, index1: seq<byte>, index2: seq<byte>, index3: seq<byte>)

  const WELL_KNOWN_1 := Probe([192, 0, 0, 170], [192, 0, 0, 0, 170], [192, 0, 0, 0, 170], [192, 0, 0, 0, 170])
  const WELL_KNOWN_2 := Probe([192, 0, 0, 171], [192, 0, 0, 0, 171], [192, 0, 0, 0, 171], [192, 0, 0, 0, 171])
  const OUR_DEFINED := Probe([192, 0, 2, 1], [192, 0, 0, 2, 1], [192, 0, 0, 2, 1], [192, 0, 2, 0, 1])

  predicate Consistent(t: Probe) {
    && IsV4(t.plain)
    && Expected(4, t.plain) == Some((7, t.index1))
    && Expected(5, t.plain) == Some((6, t.index2))
    && Expected(6, t.plain) == Some((5, t.index3))
  }

  method SameAt(a: array<byte>, at: nat, octets: seq<byte>) returns (same: bool)
    requires a.Length == ADDRESS_SIZE && at + |octets| <= ADDRESS_SIZE
    ensures same <==> a[..][at..at + |octets|] == octets
  {
    same := a[at..at + |octets|] == octets;
    assert a[at..at + |octets|] == a[..][at..at + |octets|];
  }

  /** The `switch` on the suffix length, for one address looked for. */
  method Compare(a: array<byte>, zeros: nat, t: Probe) returns (same: bool)
    requires a.Length == ADDRESS_SIZE && Consistent(t)
    ensures same <==> MatchesExpected(a[..], zeros, t.plain)
  {
    match zeros
    case 3 => same := SameAt(a, 9, t.plain);
    case 4 => same := SameAt(a, 7, t.index1);
    case 5 => same := SameAt(a, 6, t.index2);
    case 6 => same := SameAt(a, 5, t.index3);
    case 8 => same := SameAt(a, 4, t.plain);
    case 0 => same := SameAt(a, 12, t.plain);
    case _ => same := false;
  }

  /** `IsNat64AddrValid`: accepts exactly the synthesized forms of the probe addresses. */
  method IsNat64AddrValid(a: array<byte>, apple: bool) returns (valid: bool)
    requires a.Length == ADDRESS_SIZE
    ensures valid <==> IsProbeAnswer(a[..], apple)
  {
    hide MatchesExpected, EmbedsAt, PrefixLength;
    var zeros := GetSuffixZeroCount(a);
    if apple {
      MatchExact(a[..], OUR_DEFINED.plain);
      valid := Compare(a, zeros, OUR_DEFINED);
    } else {
      MatchExact(a[..], WELL_KNOWN_1.plain);
      MatchExact(a[..], WELL_KNOWN_2.plain);
      var first := Compare(a, zeros, WELL_KNOWN_1);
      var second := Compare(a, zeros, WELL_KNOWN_2);
      valid := first || second;
    }
  }

  /** Behind a 64-bit prefix octet 8 may be anything. */
  lemma Octet8Open(prefix: seq<byte>, w: seq<byte>, apple: bool, octet: byte)
    requires IsAddress(prefix) && IsV4(w) && IsProbe(w, apple)
    ensures IsProbeAnswer(Embed(64, prefix, w)[8 := octet], apple)
  {
    var a := Embed(64, prefix, w)[8 := octet];
    assert Embed(64, a, w)[8 := a[8]] == a;
    assert EmbedsAt(a, 64, w);
  }

  /** Every direct embedding of a probe address is accepted, for every prefix and prefix length. */
  lemma ProbeEmbeddingsAccepted(pl: int, prefix: seq<byte>, w: seq<byte>, apple: bool)
    requires PrefixLength(pl) && IsAddress(prefix) && IsV4(w) && IsProbe(w, apple)
    ensures IsProbeAnswer(Embed(pl, prefix, w), apple)
  {
  }
}
