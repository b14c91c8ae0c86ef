/** `ReadName` with its growing buffer and its in-place compaction, proved against NameScan. */
module NameReader {
  import opened Bytes
  import opened Labels
  import opened NameScan

  /** `realloc`: a larger buffer that starts with the octets of the old one. */
  method Realloc(name: array<byte>, size: nat) returns (more: array<byte>)
    requires name.Length <= size
    ensures fresh(more) && more.Length == size && more[..name.Length] == name[..]
  {
    more := new byte[size];
    for k := 0 to name.Length
      invariant more[..k] == name[..k]
    {
      more[k] := name[k];
    }
  }

  /** The buffer has just been grown often enough for `count` octets. */
  ghost predicate Grown(size: nat, count: nat, times: nat) {
    && size == INIT_SIZE + INCREMENT * times
    && count < size
    && (times > 0 ==> size - INCREMENT <= count)
  }

  lemma GrownIsCapacity(size: nat, count: nat, times: nat)
    requires Grown(size, count, times)
    ensures size == Capacity(count)
  {
  }

  /** The growth check after each step: one more increment is enough for one more octet. */
  method Grow(name: array<byte>, p: nat, count: nat, times: nat) returns (bigger: array<byte>, grown: nat)
    requires p <= name.Length
    requires Grown(name.Length, count, times) || (count > 0 && Grown(name.Length, count - 1, times))
    ensures bigger == name || fresh(bigger)
    ensures Grown(bigger.Length, count, grown)
    ensures name.Length <= bigger.Length && bigger[..p] == name[..p]
  {
    bigger, grown := name, times;
    if count >= INIT_SIZE + INCREMENT * times {
      grown := times + 1;
      bigger := Realloc(name, INIT_SIZE + INCREMENT * grown);
      assert bigger[..p] == bigger[..name.Length][..p];
    }
  }

  method Put(name: array<byte>, p: nat, octet: byte)
    requires p < name.Length
    modifies name
    ensures name[..p + 1] == old(name[..p]) + [octet]
  {
    name[p] := octet;
  }

  /**
   The loop invariant: the octets stored so far and the scan that is still to come make up the
   whole name, and the octet count stands still after the first pointer.
   */
  ghost predicate Midway(msg: seq<byte>, whole: Scanned, stored: seq<byte>, reader: nat, n: nat, count: nat, jumped: bool) {
    && Scan(msg, reader, n).Some?
    && var rest := Scan(msg, reader, n).value;
    && stored + rest.raw == whole.raw
    && (jumped ==> whole.jumped && whole.count == count + 1)
    && (!jumped ==> count == |stored| + 1 && whole.jumped == rest.jumped && whole.count == |stored| + rest.count)
  }

  lemma MidwayCopy(msg: seq<byte>, whole: Scanned, stored: seq<byte>, reader: nat, n: nat, count: nat, jumped: bool)
    requires Midway(msg, whole, stored, reader, n, count, jumped)
    requires 0 < msg[reader] < POINTER_MARK
    ensures n > 0 && |stored| < |whole.raw|
    ensures Midway(msg, whole, stored + [msg[reader]], reader + 1, n - 1, if jumped then count else count + 1, jumped)
  {
  }

  lemma MidwayJump(msg: seq<byte>, whole: Scanned, stored: seq<byte>, reader: nat, n: nat, count: nat, jumped: bool)
    requires Midway(msg, whole, stored, reader, n, count, jumped)
    requires msg[reader] >= POINTER_MARK
    ensures n > 0 && reader + 1 < |msg|
    ensures Midway(msg, whole, stored, PointerTarget(msg, reader), n - 1, count, true)
  {
  }

  lemma MidwayEnd(msg: seq<byte>, whole: Scanned, stored: seq<byte>, reader: nat, n: nat, count: nat, jumped: bool)
    requires Midway(msg, whole, stored, reader, n, count, jumped)
    requires msg[reader] == 0
    ensures stored == whole.raw && whole.count == if jumped then count + 1 else count
  {
  }

  /**
   The scanning loop. The buffer always has the capacity its octet count calls for, so no write
   misses it; `p` octets have been stored when the terminator is met.
   */
  method ScanName(msg: seq<byte>, pos: nat) returns (name: array<byte>, p: nat, count: nat)
    requires Scan(msg, pos, |msg|).Some?
    requires var s := Scan(msg, pos, |msg|).value; Fits(|s.raw|, s.count, s.jumped)
    ensures fresh(name) && p < name.Length
    ensures name[..p] == Scan(msg, pos, |msg|).value.raw && name[p] == 0
    ensures count == Scan(msg, pos, |msg|).value.count
  {
    ghost var whole := Scan(msg, pos, |msg|).value;
    ghost var n: nat := |msg|;
    var reader: nat, jumped, times: nat := pos, false, 0;
    p, count := 0, 1;
    name := new byte[INIT_SIZE];
    name[0] := 0;
    while msg[reader] != 0
      invariant p <= name.Length && fresh(name)
      invariant Midway(msg, whole, name[..p], reader, n, count, jumped)
      invariant Grown(name.Length, count, times)
      invariant jumped ==> |whole.raw| < name.Length
      decreases n
    {
      if msg[reader] >= POINTER_MARK {
        MidwayJump(msg, whole, name[..p], reader, n, count, jumped);
        GrownIsCapacity(name.Length, count, times);
        reader := PointerTarget(msg, reader);
        jumped := true;
      } else {
        MidwayCopy(msg, whole, name[..p], reader, n, count, jumped);
        Put(name, p, msg[reader]);
        reader, p := reader + 1, p + 1;
      }
      n := n - 1;
      if !jumped {
        count := count + 1;
      }
      name, times := Grow(name, p, count, times);
    }
    MidwayEnd(msg, whole, name[..p], reader, n, count, jumped);
    name[p] := 0;
    if jumped {
      count := count + 1;
    }
  }

  /** One label moved down over its length octet at `start`, and a dot behind it. */
  ghost function Shifted(s: seq<byte>, start: nat): (r: seq<byte>)
    requires start < |s| && start + s[start] < |s|
    ensures |r| == |s|
  {
    s[..start] + s[start + 1..start + 1 + s[start]] + [DOT] + s[start + 1 + s[start]..]
  }

  lemma ShiftedOctets(s: seq<byte>, start: nat)
    requires start < |s| && start + s[start] < |s|
    ensures forall m :: 0 <= m < start ==> Shifted(s, start)[m] == s[m]
    ensures forall m :: start <= m < start + s[start] ==> Shifted(s, start)[m] == s[m + 1]
    ensures forall m :: start + s[start] < m < |s| ==> Shifted(s, start)[m] == s[m]
    ensures Shifted(s, start)[start + s[start]] == DOT
  {
  }

  /** One round of the outer compaction loop. No octet is overwritten before it has been read. */
  method CompactLabel(name: array<byte>, start: nat) returns (i: nat)
    requires start < name.Length && start + name[start] < name.Length
    modifies name
    ensures i == start + old(name[start])
    ensures name[..] == Shifted(old(name[..]), start)
  {
    var p := name[start];
    ghost var was := name[..];
    i := start;
    for j := 0 to p
      invariant i == start + j
      invariant forall m :: 0 <= m < start ==> name[m] == was[m]
      invariant forall m :: start <= m < start + j ==> name[m] == was[m + 1]
      invariant forall m :: start + j < m < name.Length ==> name[m] == was[m]
    {
      name[i] := name[i + 1];
      i := i + 1;
    }
    name[i] := DOT;
    ShiftedOctets(was, start);
    ghost var r := Shifted(was, start);
    hide Shifted;
    assert name[..] == r;
  }

  /** What the buffer holds once the first `k` labels are compacted; `tail` starts at the terminator. */
  ghost function HalfDone(labels: seq<seq<byte>>, k: nat, tail: seq<byte>): seq<byte>
    requires k <= |labels|
  {
    Dotted(labels[..k]) + Wire(labels[k..]) + tail
  }

  lemma HalfDoneAround(labels: seq<seq<byte>>, k: nat, tail: seq<byte>)
    requires k < |labels| && |labels[k]| < 256
    ensures var done, l, rest := Dotted(labels[..k]), labels[k], Wire(labels[k + 1..]) + tail;
            && HalfDone(labels, k, tail) == done + [|l|] + l + rest
            && HalfDone(labels, k + 1, tail) == done + l + [DOT] + rest
            && |Dotted(labels[..k + 1])| == |done| + |l| + 1
  {
    var done, l, todo := Dotted(labels[..k]), labels[k], Wire(labels[k + 1..]);
    assert labels[..k + 1] == labels[..k] + [l];
    DottedConcat(labels[..k], [l]);
    assert Dotted([l]) == l + [DOT];
    assert labels[k..][1..] == labels[k + 1..] && labels[k..][0] == l;
    assert Wire(labels[k..]) == [|l|] + l + todo;
    assert done + ([|l|] + l + todo) + tail == done + [|l|] + l + (todo + tail);
    assert done + (l + [DOT]) + todo + tail == done + l + [DOT] + (todo + tail);
  }

  lemma HalfDoneStep(labels: seq<seq<byte>>, k: nat, tail: seq<byte>)
    requires k < |labels| && CleanLabel(labels[k]) && tail != []
    ensures var s, start := HalfDone(labels, k, tail), |Dotted(labels[..k])|;
            && start + |labels[k]| + 1 < |s| && s[start] == |labels[k]|
            && Shifted(s, start) == HalfDone(labels, k + 1, tail)
            && |Dotted(labels[..k + 1])| == start + |labels[k]| + 1
  {
    HalfDoneAround(labels, k, tail);
    hide HalfDone, Dotted, Wire, Shifted;
    ShiftedSplit(Dotted(labels[..k]), labels[k], Wire(labels[k + 1..]) + tail);
  }

  lemma ShiftedSplit(done: seq<byte>, l: seq<byte>, rest: seq<byte>)
    requires |l| < 256
    ensures Shifted(done + [|l|] + l + rest, |done|) == done + l + [DOT] + rest
  {
  }

  /** The text keeps its length through the whole loop: no zero octet is moved or written into it. */
  lemma HalfDoneLength(labels: seq<seq<byte>>, k: nat, tail: seq<byte>)
    requires k <= |labels| && Clean(labels) && tail != [] && tail[0] == 0
    ensures StrLen(HalfDone(labels, k, tail)) == |Wire(labels)|
    ensures k < |labels| ==> |Dotted(labels[..k])| < |Wire(labels)|
    ensures k == |labels| ==> |Dotted(labels[..k])| == |Wire(labels)|
  {
    var s, done, todo := HalfDone(labels, k, tail), Dotted(labels[..k]), Wire(labels[k..]);
    assert labels == labels[..k] + labels[k..];
    WireConcat(labels[..k], labels[k..]);
    WireLength(labels[..k]);
    CleanWire(labels[k..]);
    CleanDotted(labels[..k]);
    PlainConcat(done, todo);
    assert s[..|done + todo|] == done + todo;
    StrLenIs(s, |done + todo|);
  }

  lemma CleanDotted(labels: seq<seq<byte>>)
    requires Clean(labels)
    ensures Plain(Dotted(labels))
  {
  }

  /**
   The compaction loop and the cut of the last dot. Octets behind the text are not touched.
   */
  method Compact(name: array<byte>, ghost labels: seq<seq<byte>>)
    requires labels != [] && Clean(labels)
    requires |Wire(labels)| < name.Length && name[..|Wire(labels)|] == Wire(labels) && name[|Wire(labels)|] == 0
    modifies name
    ensures CString(name[..]) == Join(labels)
    ensures name[|Wire(labels)|..] == old(name[|Wire(labels)|..])
  {
    ghost var k, tail := 0, name[|Wire(labels)|..];
    var i := 0;
    assert labels[0..] == labels && labels[..0] == [];
    assert name[..] == HalfDone(labels, 0, tail) && |Dotted(labels[..0])| == 0;
    WireLength(labels);
    hide HalfDone, Wire, Dotted, Shifted, StrLen, CString, Clean, CleanLabel;
    HalfDoneLength(labels, 0, tail);
    while i < StrLen(name[..])
      invariant k <= |labels| && i == |Dotted(labels[..k])|
      invariant name[..] == HalfDone(labels, k, tail)
      decreases |labels| - k
    {
      HalfDoneLength(labels, k, tail);
      OneClean(labels, k);
      HalfDoneStep(labels, k, tail);
      i := CompactLabel(name, i);
      i := i + 1;
      k := k + 1;
    }
    HalfDoneLength(labels, k, tail);
    HalfDoneEnd(labels, tail);
    CutLastDot(name, i, labels, tail);
  }

  lemma OneClean(labels: seq<seq<byte>>, k: nat)
    requires Clean(labels) && k < |labels|
    ensures CleanLabel(labels[k]) && |labels[k]| < 256
  {
  }

  lemma HalfDoneEnd(labels: seq<seq<byte>>, tail: seq<byte>)
    ensures labels[..|labels|] == labels && HalfDone(labels, |labels|, tail) == Dotted(labels) + tail
  {
    assert labels[..|labels|] == labels && labels[|labels|..] == [];
  }

  /** `name[i - 1] = '\0'`. */
  method CutLastDot(name: array<byte>, i: nat, ghost labels: seq<seq<byte>>, ghost tail: seq<byte>)
    requires labels != [] && Clean(labels) && i == |Dotted(labels)|
    requires name[..] == Dotted(labels) + tail
    modifies name
    ensures name[..] == Join(labels) + [0] + tail && CString(name[..]) == Join(labels)
    ensures name[|Dotted(labels)|..] == tail
  {
    DottedIsJoinDot(labels);
    JoinPlainIffClean(labels);
    hide Dotted, Join, CleanLabel, Clean;
    name[i - 1] := 0;
    assert name[..] == Join(labels) + [0] + tail;
    assert name[..i - 1] == Join(labels);
    StrLenIs(name[..], i - 1);
  }

  /** The whole of `ReadName`: the C string left in the buffer and the octets counted. */
  method ReadName(msg: seq<byte>, pos: nat) returns (name: array<byte>, count: nat)
    requires NameAt(msg, pos).Some?
    ensures fresh(name)
    ensures Name(CString(name[..]), count) == NameAt(msg, pos).value
  {
    var p;
    ghost var labels := NameText(msg, pos);
    name, p, count := ScanName(msg, pos);
    Compact(name, labels);
  }
}
