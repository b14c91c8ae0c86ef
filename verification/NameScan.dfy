/**
 What `ReadName` computes: the byte scanner that follows compression pointers, the label-wise
 decoder of section 4.1.4 of RFC 1035, and the exact condition under which they agree.
 */
module NameScan {
  import opened Bytes
  import opened Labels

  /** Initial size of the name buffer and the step it grows by. */
  const INIT_SIZE: nat := 256
  const INCREMENT: nat := 64

  // ----- The byte scanner -----

  /** `raw`: octets copied; `count`: octets the name occupies where it starts; `jumped`: a pointer was met. */
  datatype Scanned = Scanned(raw: seq<byte>, count: nat, jumped: bool)

  /** The 14-bit offset of the pointer at `pos`. */
  function PointerTarget(msg: seq<byte>, pos: nat): (t: nat)
    requires pos + 1 < |msg| && msg[pos] >= POINTER_MARK
    ensures t < 0x4000
  {
    msg[pos] as int * 256 + msg[pos + 1] as int - 49152
  }

  /** The target is the low 14 bits of the two octets, most significant first (section 4.1.4 of RFC 1035). */
  lemma PointerBits(msg: seq<byte>, pos: nat)
    requires pos + 1 < |msg| && msg[pos] >= 192
    ensures PointerTarget(msg, pos) / 256 == msg[pos] - 192 && PointerTarget(msg, pos) % 256 == msg[pos + 1]
    ensures 0xC000 + PointerTarget(msg, pos) == U16(msg[pos], msg[pos + 1])
  {
  }

  /** The octet the scanner looks at next, if the message still has the octets it reads. */
  function NextPos(msg: seq<byte>, pos: nat): Option<nat>
    requires pos < |msg|
  {
    if msg[pos] < POINTER_MARK then Some(pos + 1)
    else if pos + 1 < |msg| then Some(PointerTarget(msg, pos))
    else None
  }

  /** The scanning loop, given up after `n` octets or pointers. It does not know where labels start. */
  function Scan(msg: seq<byte>, pos: nat, n: nat): Option<Scanned>
    decreases n
  {
    if pos >= |msg| then None
    else if msg[pos] == 0 then Some(Scanned([], 1, false))
    else if n == 0 || NextPos(msg, pos).None? then None
    else match Scan(msg, NextPos(msg, pos).value, n - 1)
      case None => None
      case Some(rest) =>
        if msg[pos] >= POINTER_MARK then Some(Scanned(rest.raw, 2, true))
        else Some(Scanned([msg[pos]] + rest.raw, rest.count + 1, rest.jumped))
  }

  /** The scanner copies plain octets only. */
  lemma {:induction false} ScanPlain(msg: seq<byte>, pos: nat, n: nat)
    requires Scan(msg, pos, n).Some?
    ensures Plain(Scan(msg, pos, n).value.raw)
    ensures var s := Scan(msg, pos, n).value; !s.jumped ==> s.count == |s.raw| + 1
    decreases n
  {
    if msg[pos] != 0 {
      ScanPlain(msg, NextPos(msg, pos).value, n - 1);
    }
  }

  lemma {:induction false} ScanMonotone(msg: seq<byte>, pos: nat, n: nat, m: nat)
    requires n <= m && Scan(msg, pos, n).Some?
    ensures Scan(msg, pos, m) == Scan(msg, pos, n)
    decreases n
  {
    if msg[pos] != 0 {
      ScanMonotone(msg, NextPos(msg, pos).value, n - 1, m - 1);
    }
  }

  // ----- Halting: a scan that ends at all ends within |msg| steps -----

  /** Positions from which the scan ends within `n` steps. */
  ghost function Halting(msg: seq<byte>, n: nat): set<nat> {
    set i: nat | i < |msg| && Scan(msg, i, n).Some?
  }

  lemma HaltingGrows(msg: seq<byte>, n: nat)
    ensures Halting(msg, n) <= Halting(msg, n + 1)
  {
    forall i | i in Halting(msg, n) ensures i in Halting(msg, n + 1) {
      ScanMonotone(msg, i, n, n + 1);
    }
  }

  lemma HaltingFixed(msg: seq<byte>, n: nat)
    requires Halting(msg, n) == Halting(msg, n + 1)
    ensures Halting(msg, n + 1) == Halting(msg, n + 2)
  {
    HaltingGrows(msg, n + 1);
    var later := n + 2;
    forall i: nat | i < |msg| && Scan(msg, i, later).Some?
      ensures i in Halting(msg, n + 1)
    {
      if msg[i] != 0 {
        var next := NextPos(msg, i).value;
        assert Scan(msg, next, n + 1).Some?;
        assert next in Halting(msg, n);
      }
    }
  }

  lemma {:induction false} HaltingStable(msg: seq<byte>, n: nat, m: nat)
    requires Halting(msg, n) == Halting(msg, n + 1) && n <= m
    ensures Halting(msg, m) == Halting(msg, n)
    decreases m - n
  {
    if n < m {
      HaltingFixed(msg, n);
      HaltingStable(msg, n + 1, m);
    }
  }

  /** Until it stops growing, the halting set gains a position with every step. */
  lemma {:induction false} HaltingCount(msg: seq<byte>, n: nat)
    ensures Halting(msg, n) == Halting(msg, n + 1) || |Halting(msg, n + 1)| > n
  {
    HaltingGrows(msg, n);
    if Halting(msg, n) != Halting(msg, n + 1) {
      if n > 0 {
        HaltingCount(msg, n - 1);
        if Halting(msg, n - 1) == Halting(msg, n) {
          HaltingFixed(msg, n - 1);
        }
      }
      ProperSubsetSmaller(Halting(msg, n), Halting(msg, n + 1));
    }
  }

  lemma ProperSubsetSmaller(a: set<nat>, b: set<nat>)
    requires a < b
    ensures |a| < |b|
  {
    var x :| x in b && x !in a;
    assert b == (b - a) + a;
    assert x in b - a;
  }

  lemma {:induction false} BoundedSet(a: set<nat>, n: nat)
    requires forall i :: i in a ==> i < n
    ensures |a| <= n
  {
    if n > 0 {
      var rest := a - {n - 1};
      BoundedSet(rest, n - 1);
      assert a <= rest + {n - 1};
      assert |a| <= |rest + {n - 1}| by {
        if a != rest + {n - 1} {
          ProperSubsetSmaller(a, rest + {n - 1});
        }
      }
    } else {
      assert a == {};
    }
  }

  /**
   The scan ends, however long it is allowed to run, exactly when it ends within as many steps as
   the message has octets: after that it only repeats pointers it has followed before.
   */
  lemma ScanWithinLength(msg: seq<byte>, pos: nat, n: nat)
    ensures Scan(msg, pos, n).Some? ==> Scan(msg, pos, |msg|) == Scan(msg, pos, n)
    ensures n >= |msg| ==> Scan(msg, pos, n) == Scan(msg, pos, |msg|)
  {
    if n < |msg| {
      if Scan(msg, pos, n).Some? {
        ScanMonotone(msg, pos, n, |msg|);
      }
    } else {
      HaltingCount(msg, |msg|);
      BoundedSet(Halting(msg, |msg| + 1), |msg|);
      HaltingStable(msg, |msg|, n);
      if Scan(msg, pos, n).Some? {
        assert pos in Halting(msg, n);
        ScanMonotone(msg, pos, |msg|, n);
      } else if Scan(msg, pos, |msg|).Some? {
        ScanMonotone(msg, pos, |msg|, n);
      }
    }
  }

  /** Every pointer met from `pos` on targets an octet before the segment being scanned. */
  ghost predicate Backward(msg: seq<byte>, pos: nat, segment: nat)
    decreases segment, if pos <= |msg| then |msg| - pos else 0
  {
    && pos < |msg|
    && (msg[pos] == 0
        || if msg[pos] < POINTER_MARK then Backward(msg, pos + 1, segment)
           else pos + 1 < |msg| && var t := PointerTarget(msg, pos); t < segment && Backward(msg, t, t))
  }

  /** Backward pointers, in the sense of section 4.1.4 of RFC 1035, are enough for the scan to end. */
  lemma {:induction false} BackwardEnds(msg: seq<byte>, pos: nat, segment: nat)
    requires Backward(msg, pos, segment)
    ensures Scan(msg, pos, |msg|).Some?
    decreases segment, |msg| - pos
  {
    if msg[pos] != 0 {
      var next := NextPos(msg, pos).value;
      if msg[pos] < POINTER_MARK {
        BackwardEnds(msg, next, segment);
      } else {
        BackwardEnds(msg, next, next);
      }
      assert Scan(msg, pos, |msg| + 1).Some?;
      ScanWithinLength(msg, pos, |msg| + 1);
    }
  }

  // ----- The name buffer -----

  /** Size the buffer has been grown to once `count` octets are counted. */
  function Capacity(count: nat): (c: nat)
    ensures count < c && c >= INIT_SIZE
  {
    if count < INIT_SIZE then INIT_SIZE
    else INIT_SIZE + INCREMENT * ((count - INIT_SIZE) / INCREMENT + 1)
  }

  /** The buffer starts with 256 octets and grows by 64 whenever the count reaches its size. */
  lemma CapacitySteps(count: nat)
    ensures count < 256 ==> Capacity(count) == 256
    ensures count >= 256 ==> Capacity(count) % 64 == 0 && count < Capacity(count) <= count + 64
  {
  }

  /** The raw octets and their terminator fit. Octets behind a pointer are stored but not counted. */
  predicate Fits(length: nat, count: nat, jumped: bool) {
    length < Capacity(if jumped && count > 0 then count - 1 else count)
  }

  /**
   Growing the buffer by the octet count is enough for every uncompressed name, and for every
   compressed name within the 255 octets of section 2.3.4 of RFC 1035.
   */
  lemma GrowthSuffices(msg: seq<byte>, pos: nat)
    requires Scan(msg, pos, |msg|).Some?
    ensures var s := Scan(msg, pos, |msg|).value;
            !s.jumped || |s.raw| + 1 <= 255 ==> Fits(|s.raw|, s.count, s.jumped)
  {
    ScanPlain(msg, pos, |msg|);
  }

  /** Behind a pointer the count stands still, so a name that starts with one has the first 256 octets only. */
  lemma PointerFirstFits(length: nat)
    ensures Fits(length, 2, true) <==> length < 256
  {
  }

  // ----- The name that comes out -----

  datatype Name = Name(text: seq<byte>, octets: nat)

  /**
   Text and octet count `ReadName` returns; None where the C code would leave the message or its
   buffer, run forever, or (for the empty name) write in front of the buffer.
   */
  function NameAt(msg: seq<byte>, pos: nat): Option<Name> {
    match Scan(msg, pos, |msg|)
    case None => None
    case Some(s) =>
      if !Fits(|s.raw|, s.count, s.jumped) then None
      else match Unpack(s.raw)
        case None => None
        case Some(labels) => if labels == [] then None else Some(Name(Join(labels), s.count))
  }

  lemma NameText(msg: seq<byte>, pos: nat) returns (labels: seq<seq<byte>>)
    requires NameAt(msg, pos).Some?
    ensures labels != [] && Clean(labels)
    ensures Scan(msg, pos, |msg|).value.raw == Wire(labels)
    ensures NameAt(msg, pos).value.text == Join(labels) && Plain(Join(labels))
  {
    var s := Scan(msg, pos, |msg|).value;
    ScanPlain(msg, pos, |msg|);
    UnpackInverse(s.raw);
    labels := Unpack(s.raw).value;
    JoinPlainIffClean(labels);
  }

  // ----- The label-wise decoder -----

  datatype Decoded = Decoded(labels: seq<seq<byte>>, octets: nat, compressed: bool)

  /**
   A name is a sequence of labels that ends in a zero octet or in a pointer to an earlier name.
   Length octets up to 191 are taken as lengths, as the resolver does; section 2.3.4 of RFC 1035
   uses those up to 63.
   */
  function Decode(msg: seq<byte>, pos: nat, segment: nat): Option<Decoded>
    decreases segment, if pos <= |msg| then |msg| - pos else 0
  {
    if pos >= |msg| then None
    else if msg[pos] == 0 then Some(Decoded([], 1, false))
    else if msg[pos] < POINTER_MARK then
      var next := pos + 1 + msg[pos];
      if next > |msg| then None
      else match Decode(msg, next, segment)
        case None => None
        case Some(d) => Some(Decoded([msg[pos + 1..next]] + d.labels, next - pos + d.octets, d.compressed))
    else if pos + 1 >= |msg| || PointerTarget(msg, pos) >= segment then None
    else match Decode(msg, PointerTarget(msg, pos), PointerTarget(msg, pos))
      case None => None
      case Some(d) => Some(Decoded(d.labels, 2, true))
  }

  lemma {:induction false} DecodeLengths(msg: seq<byte>, pos: nat, segment: nat)
    requires Decode(msg, pos, segment).Some?
    ensures forall k :: 0 <= k < |Decode(msg, pos, segment).value.labels|
              ==> 1 <= |Decode(msg, pos, segment).value.labels[k]| < POINTER_MARK
    decreases segment, |msg| - pos
  {
    if msg[pos] == 0 {
    } else if msg[pos] < POINTER_MARK {
      DecodeLengths(msg, pos + 1 + msg[pos], segment);
    } else {
      var t := PointerTarget(msg, pos);
      DecodeLengths(msg, t, t);
    }
  }

  lemma ScanOctet(msg: seq<byte>, pos: nat, n: nat)
    requires pos < |msg| && 1 <= msg[pos] < POINTER_MARK && Scan(msg, pos + 1, n).Some?
    ensures var rest := Scan(msg, pos + 1, n).value;
            Scan(msg, pos, 1 + n) == Some(Scanned([msg[pos]] + rest.raw, 1 + rest.count, rest.jumped))
  {
  }

  /** `k` plain octets are copied one by one. */
  lemma {:induction false} ScanLiteral(msg: seq<byte>, pos: nat, k: nat, n: nat)
    requires pos + k <= |msg| && Plain(msg[pos..pos + k]) && Scan(msg, pos + k, n).Some?
    ensures var rest := Scan(msg, pos + k, n).value;
            Scan(msg, pos, k + n) == Some(Scanned(msg[pos..pos + k] + rest.raw, k + rest.count, rest.jumped))
    decreases k
  {
    hide Scan;
    var rest := Scan(msg, pos + k, n).value;
    if k == 0 {
      assert msg[pos..pos] + rest.raw == rest.raw;
    } else {
      var head := msg[pos..pos + k];
      assert head[0] == msg[pos];
      assert head[1..] == msg[pos + 1..pos + k];
      ScanLiteral(msg, pos + 1, k - 1, n);
      ScanOctet(msg, pos, k - 1 + n);
      assert head + rest.raw == [msg[pos]] + (head[1..] + rest.raw);
    }
  }

  /** A length octet and its label go through in one piece. */
  lemma ScanLabel(msg: seq<byte>, pos: nat, n: nat)
    requires pos < |msg| && 1 <= msg[pos] < POINTER_MARK
    requires var next := pos + 1 + msg[pos]; next <= |msg| && Plain(msg[pos + 1..next]) && Scan(msg, next, n).Some?
    ensures var next := pos + 1 + msg[pos];
            var rest := Scan(msg, next, n).value;
            Scan(msg, pos, 1 + msg[pos] + n)
            == Some(Scanned([msg[pos]] + msg[pos + 1..next] + rest.raw, next - pos + rest.count, rest.jumped))
  {
    var next := pos + 1 + msg[pos];
    assert msg[pos..next] == [msg[pos]] + msg[pos + 1..next];
    PlainConcat([msg[pos]], msg[pos + 1..next]);
    ScanLiteral(msg, pos, 1 + msg[pos], n);
  }

  /** What the scanner makes of the name `d`. */
  ghost function Copied(d: Decoded): Scanned {
    Scanned(Wire(d.labels), d.octets, d.compressed)
  }

  lemma LabelRefines(msg: seq<byte>, pos: nat, segment: nat, n: nat)
    requires Decode(msg, pos, segment).Some? && 1 <= msg[pos] < POINTER_MARK
    requires Decode(msg, pos + 1 + msg[pos], segment).Some?
    requires Scan(msg, pos + 1 + msg[pos], n) == Some(Copied(Decode(msg, pos + 1 + msg[pos], segment).value))
    requires CleanLabel(Decode(msg, pos, segment).value.labels[0])
    ensures Scan(msg, pos, 1 + msg[pos] + n) == Some(Copied(Decode(msg, pos, segment).value))
  {
    var next := pos + 1 + msg[pos];
    var d, rest := Decode(msg, pos, segment).value, Decode(msg, next, segment).value;
    var l := msg[pos + 1..next];
    assert d == Decoded([l] + rest.labels, next - pos + rest.octets, rest.compressed);
    assert d.labels[0] == l && d.labels[1..] == rest.labels && |l| == msg[pos];
    hide Decode, Scan;
    ScanLabel(msg, pos, n);
  }

  /** On clean labels the byte scanner copies exactly the wire form the decoder saw. */
  lemma {:induction false} ScanRefinesDecode(msg: seq<byte>, pos: nat, segment: nat) returns (n: nat)
    requires Decode(msg, pos, segment).Some? && Clean(Decode(msg, pos, segment).value.labels)
    ensures Scan(msg, pos, n) == Some(Copied(Decode(msg, pos, segment).value))
    decreases segment, |msg| - pos
  {
    var d := Decode(msg, pos, segment).value;
    if msg[pos] == 0 {
      n := 0;
    } else if msg[pos] < POINTER_MARK {
      CleanTail(d.labels);
      assert d.labels[1..] == Decode(msg, pos + 1 + msg[pos], segment).value.labels;
      n := ScanRefinesDecode(msg, pos + 1 + msg[pos], segment);
      LabelRefines(msg, pos, segment, n);
      n := 1 + msg[pos] + n;
    } else {
      n := ScanRefinesDecode(msg, PointerTarget(msg, pos), PointerTarget(msg, pos));
      PointerRefines(msg, pos, segment, n);
      n := n + 1;
    }
  }

  /** Clean names of the format have backward pointers only, also for a reader that goes octet by octet. */
  lemma {:induction false} DecodeIsBackward(msg: seq<byte>, pos: nat, segment: nat)
    requires Decode(msg, pos, segment).Some? && Clean(Decode(msg, pos, segment).value.labels)
    ensures Backward(msg, pos, segment)
    decreases segment, |msg| - pos
  {
    if msg[pos] == 0 {
    } else if msg[pos] < POINTER_MARK {
      var d, next := Decode(msg, pos, segment).value, pos + 1 + msg[pos];
      CleanTail(d.labels);
      assert d.labels[0] == msg[pos + 1..next] && d.labels[1..] == Decode(msg, next, segment).value.labels;
      DecodeIsBackward(msg, next, segment);
      BackwardOverPlain(msg, pos, segment, next - pos);
    } else {
      DecodeIsBackward(msg, PointerTarget(msg, pos), PointerTarget(msg, pos));
    }
  }

  lemma {:induction false} BackwardOverPlain(msg: seq<byte>, pos: nat, segment: nat, k: nat)
    requires pos + k <= |msg| && (forall j :: pos <= j < pos + k ==> 1 <= msg[j] < POINTER_MARK)
    requires Backward(msg, pos + k, segment)
    ensures Backward(msg, pos, segment)
    decreases k
  {
    if k > 0 {
      BackwardOverPlain(msg, pos + 1, segment, k - 1);
    }
  }

  lemma PointerRefines(msg: seq<byte>, pos: nat, segment: nat, n: nat)
    requires Decode(msg, pos, segment).Some? && msg[pos] >= POINTER_MARK
    requires var t := PointerTarget(msg, pos);
             Decode(msg, t, t).Some? && Scan(msg, t, n) == Some(Copied(Decode(msg, t, t).value))
    ensures Scan(msg, pos, n + 1) == Some(Copied(Decode(msg, pos, segment).value))
  {
  }

  /**
   The byte scanner agrees with the label-wise decoder on every well-formed name exactly when the
   labels hold plain octets only (and the name fits the buffer): the text is then the labels joined
   by dots and the count is the octets the name occupies where it starts.
   */
  lemma ReadNameExact(msg: seq<byte>, pos: nat)
    requires Decode(msg, pos, pos).Some? && Decode(msg, pos, pos).value.labels != []
    ensures var d := Decode(msg, pos, pos).value;
            NameAt(msg, pos) == Some(Name(Join(d.labels), d.octets))
            <==> Clean(d.labels) && Fits(|Wire(d.labels)|, d.octets, d.compressed)
  {
    var d := Decode(msg, pos, pos).value;
    DecodeLengths(msg, pos, pos);
    JoinPlainIffClean(d.labels);
    if Clean(d.labels) {
      var n := ScanRefinesDecode(msg, pos, pos);
      ScanWithinLength(msg, pos, n);
      UnpackWire(d.labels);
    } else if NameAt(msg, pos).Some? {
      var labels := NameText(msg, pos);
    }
  }

  /** The name whose first labels stand in front of the name `d`. */
  function Prepend(labels: seq<seq<byte>>, d: Decoded): Decoded {
    Decoded(labels + d.labels, |Wire(labels)| + d.octets, d.compressed)
  }

  lemma PrependStep(labels: seq<seq<byte>>, d: Decoded)
    requires labels != []
    ensures Prepend(labels, d) == Prepend([labels[0]], Prepend(labels[1..], d))
  {
    assert labels == [labels[0]] + labels[1..];
    assert labels + d.labels == [labels[0]] + (labels[1..] + d.labels);
    WireConcat([labels[0]], labels[1..]);
  }

  lemma PrependNothing(d: Decoded)
    ensures Prepend([], d) == d
  {
  }

  lemma DecodeLabel(msg: seq<byte>, pos: nat, segment: nat, l: seq<byte>, d: Decoded)
    requires 1 <= |l| < POINTER_MARK && Holds(msg, pos, Wire([l]))
    requires Decode(msg, pos + |Wire([l])|, segment) == Some(d)
    ensures Decode(msg, pos, segment) == Some(Prepend([l], d))
  {
    assert Wire([l]) == [|l|] + l;
    HoldsConcat(msg, pos, [|l|], l);
    assert msg[pos] == msg[pos..pos + 1][0];
  }

  /** Wire octets in a message decode to their labels, whatever ends the name behind them. */
  lemma {:induction false} DecodeWire(msg: seq<byte>, pos: nat, segment: nat, labels: seq<seq<byte>>, end: Decoded)
    requires forall k :: 0 <= k < |labels| ==> 1 <= |labels[k]| < POINTER_MARK
    requires Holds(msg, pos, Wire(labels))
    requires Decode(msg, pos + |Wire(labels)|, segment) == Some(end)
    ensures Decode(msg, pos, segment) == Some(Prepend(labels, end))
    decreases |labels|
  {
    hide Decode, Holds, Prepend;
    if labels == [] {
      PrependNothing(end);
    } else {
      var first, rest := [labels[0]], labels[1..];
      assert labels == first + rest;
      WireConcat(first, rest);
      HoldsConcat(msg, pos, Wire(first), Wire(rest));
      assert pos + |Wire(first)| + |Wire(rest)| == pos + |Wire(labels)|;
      DecodeWire(msg, pos + |Wire(first)|, segment, rest, end);
      DecodeLabel(msg, pos, segment, labels[0], Prepend(rest, end));
      PrependStep(labels, end);
    }
  }

  /** A single label at the start of a message. */
  lemma OneLabelDecodes(msg: seq<byte>, l: seq<byte>)
    requires 1 <= |l| < POINTER_MARK && Holds(msg, 0, Wire([l])) && |l| + 1 < |msg| && msg[|l| + 1] == 0
    ensures Decode(msg, 0, 0) == Some(Decoded([l], |l| + 2, false))
  {
    assert Wire([l]) == [|l|] + l;
    assert Decode(msg, |l| + 1, 0) == Some(Decoded([], 1, false));
    DecodeLabel(msg, 0, 0, l, Decoded([], 1, false));
    assert [l] + [] == [l];
  }

  /**
   Two names of one label each that the scanner misreads. The octet 200 is taken for a pointer out of
   the message; the octets 192 and 4 are taken for a pointer to other text, which is returned instead,
   with an octet count that leaves the reader inside the name.
   */
  lemma ControlOctetsMisread()
    ensures var out: seq<byte> := [1, 200, 0];
            Decode(out, 0, 0) == Some(Decoded([[200]], 3, false)) && NameAt(out, 0) == None
    ensures var other: seq<byte> := [2, 192, 4, 0, 97, 98, 0];
            Decode(other, 0, 0) == Some(Decoded([[192, 4]], 4, false)) && NameAt(other, 0) == Some(Name([97, 98], 3))
  {
    var out: seq<byte>, other: seq<byte> := [1, 200, 0], [2, 192, 4, 0, 97, 98, 0];
    assert Wire([[200]]) == out[..2] && Wire([[192, 4]]) == other[..3];
    OneLabelDecodes(out, [200]);
    OneLabelDecodes(other, [192, 4]);
    ScanOfMisread(other);
    assert Scan(out, 1, 2) == None;
    hide Decode, Scan;
    UnpackWire([[97, 98]]);
    assert Wire([[97, 98]]) == [2] + [97, 98];
  }

  lemma ScanOfMisread(msg: seq<byte>)
    requires msg == [2, 192, 4, 0, 97, 98, 0]
    ensures Scan(msg, 0, 7) == Some(Scanned([2] + [97, 98], 3, true))
  {
    assert Scan(msg, 6, 3) == Some(Scanned([], 1, false)) && msg[4..6] == [97, 98];
    ScanLiteral(msg, 4, 2, 3);
    assert msg[4..6] + [] == [97, 98];
    assert Scan(msg, 1, 6) == Some(Scanned([97, 98], 2, true));
  }
}
