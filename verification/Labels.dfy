/**
 Domain names as label sequences, and the two octet forms the resolver converts between:
 the length-prefixed wire form of section 3.1 of RFC 1035 and dotted text.
 */
module Labels {
  import opened Bytes

  const DOT: byte := 46
  /** Octets from here on are read as the start of a compression pointer. */
  const POINTER_MARK: byte := 192

  /** Octets the byte scanner copies: neither the terminator nor a pointer. */
  predicate Plain(s: seq<byte>) {
    forall k :: 0 <= k < |s| ==> 1 <= s[k] < POINTER_MARK
  }

  predicate CleanLabel(l: seq<byte>) {
    1 <= |l| < POINTER_MARK && Plain(l)
  }

  predicate Clean(labels: seq<seq<byte>>) {
    forall k :: 0 <= k < |labels| ==> CleanLabel(labels[k])
  }

  /** Each label behind its length octet; the length is truncated to one octet. */
  function Wire(labels: seq<seq<byte>>): seq<byte> {
    if labels == [] then [] else [|labels[0]| % 256] + labels[0] + Wire(labels[1..])
  }

  /** The length octet is the low octet of the length: longer labels wrap around. */
  lemma LengthWraps(l: seq<byte>, q: nat, r: byte)
    requires |l| == 256 * q + r
    ensures Wire([l])[0] == r && Wire([l])[1..] == l
  {
    assert [l][1..] == [];
  }

  /** Labels joined by dots. */
  function Join(labels: seq<seq<byte>>): seq<byte> {
    if labels == [] then []
    else if |labels| == 1 then labels[0]
    else labels[0] + [DOT] + Join(labels[1..])
  }

  /** Each label followed by a dot. */
  function Dotted(labels: seq<seq<byte>>): seq<byte> {
    if labels == [] then [] else labels[0] + [DOT] + Dotted(labels[1..])
  }

  /** Splits raw length-prefixed octets; None when the last label is cut short. */
  function Unpack(raw: seq<byte>): Option<seq<seq<byte>>> {
    if raw == [] then Some([])
    else if raw[0] as nat + 1 > |raw| then None
    else match Unpack(raw[raw[0] + 1..])
      case None => None
      case Some(rest) => Some([raw[1..raw[0] + 1]] + rest)
  }

  /** The labels that end in a dot, in order; text after the last dot is not a label yet. */
  function Segments(s: seq<byte>): seq<seq<byte>> {
    SegmentsFrom([], s)
  }

  function SegmentsFrom(open: seq<byte>, s: seq<byte>): seq<seq<byte>>
    decreases |s|
  {
    if s == [] then []
    else if s[0] == DOT then [open] + SegmentsFrom([], s[1..])
    else SegmentsFrom(open + [s[0]], s[1..])
  }

  lemma {:induction false} DottedIsJoinDot(labels: seq<seq<byte>>)
    requires labels != []
    ensures Dotted(labels) == Join(labels) + [DOT]
  {
    if |labels| == 1 {
      assert labels[1..] == [];
    } else {
      DottedIsJoinDot(labels[1..]);
    }
  }

  lemma {:induction false} WireConcat(a: seq<seq<byte>>, b: seq<seq<byte>>)
    ensures Wire(a + b) == Wire(a) + Wire(b)
  {
    if a == [] {
      assert a + b == b;
    } else {
      assert (a + b)[1..] == a[1..] + b && (a + b)[0] == a[0];
      WireConcat(a[1..], b);
      var first := [|a[0]| % 256] + a[0];
      assert first + (Wire(a[1..]) + Wire(b)) == (first + Wire(a[1..])) + Wire(b);
    }
  }

  lemma {:induction false} DottedConcat(a: seq<seq<byte>>, b: seq<seq<byte>>)
    ensures Dotted(a + b) == Dotted(a) + Dotted(b)
  {
    if a == [] {
      assert a + b == b;
    } else {
      assert (a + b)[1..] == a[1..] + b && (a + b)[0] == a[0];
      DottedConcat(a[1..], b);
      var first := a[0] + [DOT];
      assert first + (Dotted(a[1..]) + Dotted(b)) == (first + Dotted(a[1..])) + Dotted(b);
    }
  }

  lemma {:induction false} WireLength(labels: seq<seq<byte>>)
    ensures |Wire(labels)| == |Dotted(labels)|
  {
    if labels != [] {
      WireLength(labels[1..]);
    }
  }

  lemma PlainConcat(a: seq<byte>, b: seq<byte>)
    ensures Plain(a + b) <==> Plain(a) && Plain(b)
  {
    if Plain(a + b) {
      assert forall k :: 0 <= k < |a| ==> a[k] == (a + b)[k];
      assert forall k :: 0 <= k < |b| ==> b[k] == (a + b)[|a| + k];
    }
  }

  lemma CleanTail(labels: seq<seq<byte>>)
    requires labels != []
    ensures Clean(labels) <==> CleanLabel(labels[0]) && Clean(labels[1..])
  {
  }

  /** Clean labels have plain wire octets, so the scanner sees no control octet in them. */
  lemma {:induction false} CleanWire(labels: seq<seq<byte>>)
    requires Clean(labels)
    ensures Plain(Wire(labels))
  {
    if labels != [] {
      CleanTail(labels);
      CleanWire(labels[1..]);
      PlainConcat([|labels[0]| % 256], labels[0]);
      PlainConcat([|labels[0]| % 256] + labels[0], Wire(labels[1..]));
    }
  }

  /** With lengths in range, the joined text is plain exactly when every label is clean. */
  lemma {:induction false} JoinPlainIffClean(labels: seq<seq<byte>>)
    requires forall k :: 0 <= k < |labels| ==> 1 <= |labels[k]| < POINTER_MARK
    ensures Plain(Join(labels)) <==> Clean(labels)
  {
    if |labels| == 1 {
      assert Join(labels) == labels[0];
      assert Clean(labels) <==> CleanLabel(labels[0]);
    } else if |labels| > 1 {
      JoinPlainIffClean(labels[1..]);
      CleanTail(labels);
      PlainConcat(labels[0], [DOT]);
      PlainConcat(labels[0] + [DOT], Join(labels[1..]));
    }
  }

  lemma UnpackStep(l: seq<byte>, tail: seq<byte>)
    requires |l| < 256 && Unpack(tail).Some?
    ensures Unpack([|l|] + l + tail) == Some([l] + Unpack(tail).value)
  {
  }

  /** Unpacking undoes the wire form ... */
  lemma {:induction false} UnpackWire(labels: seq<seq<byte>>)
    requires forall k :: 0 <= k < |labels| ==> |labels[k]| < 256
    ensures Unpack(Wire(labels)) == Some(labels)
  {
    if labels != [] {
      var l, rest := labels[0], labels[1..];
      assert Wire(labels) == [|l|] + l + Wire(rest);
      assert [l] + rest == labels;
      hide Unpack, Wire;
      UnpackWire(rest);
      UnpackStep(l, Wire(rest));
    }
  }

  lemma UnpackCut(raw: seq<byte>)
    requires raw != [] && Unpack(raw).Some?
    ensures raw[0] as nat + 1 <= |raw| && Unpack(raw[raw[0] + 1..]).Some?
    ensures var l, rest := raw[1..raw[0] + 1], raw[raw[0] + 1..];
            && raw == [|l|] + l + rest
            && Unpack(raw).value == [l] + Unpack(rest).value
  {
  }

  /** ... and is undone by it; plain octets unpack to clean labels. */
  lemma {:induction false} UnpackInverse(raw: seq<byte>)
    requires Unpack(raw).Some?
    ensures Wire(Unpack(raw).value) == raw
    ensures Plain(raw) ==> Clean(Unpack(raw).value)
  {
    if raw != [] {
      UnpackCut(raw);
      hide Unpack;
      var l, rest := raw[1..raw[0] + 1], raw[raw[0] + 1..];
      UnpackInverse(rest);
      CleanCons(l, Unpack(rest).value, rest);
    }
  }

  lemma CleanCons(l: seq<byte>, tail: seq<seq<byte>>, rest: seq<byte>)
    requires |l| < 256 && Wire(tail) == rest && (Plain(rest) ==> Clean(tail))
    ensures Wire([l] + tail) == [|l|] + l + rest
    ensures Plain([|l|] + l + rest) ==> Clean([l] + tail)
  {
    var raw: seq<byte> := [|l|] + l + rest;
    assert ([l] + tail)[1..] == tail;
    if Plain(raw) {
      assert raw[0] == |l|;
      PlainConcat([|l|] + l, rest);
      PlainConcat([|l|], l);
      CleanTail([l] + tail);
    }
  }

  /** Splitting at dots distributes over a text cut just after a dot. */
  lemma {:induction false} SegmentsSplit(open: seq<byte>, a: seq<byte>, b: seq<byte>)
    ensures SegmentsFrom(open, a + [DOT] + b) == SegmentsFrom(open, a + [DOT]) + Segments(b)
    decreases |a|
  {
    if a == [] {
      assert a + [DOT] + b == [DOT] + b;
      assert (a + [DOT])[1..] == [];
      assert ([DOT] + b)[1..] == b;
    } else {
      var next := if a[0] == DOT then [] else open + [a[0]];
      SegmentsSplit(next, a[1..], b);
      assert (a + [DOT] + b)[1..] == a[1..] + [DOT] + b;
      assert (a + [DOT])[1..] == a[1..] + [DOT];
    }
  }

  /** A dot-free text is one segment once its dot is appended. */
  lemma {:induction false} SegmentOfDotFree(open: seq<byte>, l: seq<byte>)
    requires DOT !in l
    ensures SegmentsFrom(open, l + [DOT]) == [open + l]
    decreases |l|
  {
    if l == [] {
      assert (l + [DOT])[1..] == [];
      assert open + l == open;
      assert SegmentsFrom([], []) == [];
    } else {
      SegmentOfDotFree(open + [l[0]], l[1..]);
      assert (l + [DOT])[1..] == l[1..] + [DOT];
      assert open + [l[0]] + l[1..] == open + l;
    }
  }

  predicate DotFree(labels: seq<seq<byte>>) {
    forall k :: 0 <= k < |labels| ==> DOT !in labels[k]
  }

  /** Splitting inverts dotting for dot-free labels. */
  lemma {:induction false} SegmentsOfDotted(labels: seq<seq<byte>>)
    requires DotFree(labels)
    ensures Segments(Dotted(labels)) == labels
  {
    if labels != [] {
      SegmentsOfDotted(labels[1..]);
      SegmentOfDotFree([], labels[0]);
      SegmentsSplit([], labels[0], Dotted(labels[1..]));
      assert [] + labels[0] == labels[0];
      assert [labels[0]] + labels[1..] == labels;
    }
  }

  /** Every text that ends in a dot is the dotted form of its own dot-free segments. */
  lemma {:induction false} DottedOfSegments(open: seq<byte>, s: seq<byte>)
    requires DOT !in open
    ensures var labels := SegmentsFrom(open, s + [DOT]);
            labels != [] && DotFree(labels) && Dotted(labels) == open + s + [DOT]
    decreases |s|
  {
    var labels := SegmentsFrom(open, s + [DOT]);
    if s == [] {
      assert (s + [DOT])[1..] == [];
      assert labels == [open];
      assert Dotted(labels) == open + [DOT] + Dotted(labels[1..]);
    } else {
      var next := if s[0] == DOT then [] else open + [s[0]];
      DottedOfSegments(next, s[1..]);
      assert (s + [DOT])[1..] == s[1..] + [DOT];
      if s[0] == DOT {
        assert labels[1..] == SegmentsFrom([], s[1..] + [DOT]);
        assert s == [DOT] + s[1..];
      } else {
        assert s == [s[0]] + s[1..];
      }
    }
  }

  /** Dots inside labels only shorten the dot-free runs of the dotted text. */
  lemma {:induction false} RunsBounded(labels: seq<seq<byte>>, bound: nat)
    requires forall k :: 0 <= k < |labels| ==> |labels[k]| <= bound
    ensures forall l :: l in Segments(Dotted(labels)) ==> |l| <= bound
  {
    if labels != [] {
      var a := labels[0];
      RunsBounded(labels[1..], bound);
      SegmentsSplit([], a, Dotted(labels[1..]));
      SegmentsWithinText([], a);
    }
  }

  /** The closing dot belongs to no segment. */
  lemma {:induction false} SegmentsWithinText(open: seq<byte>, a: seq<byte>)
    ensures forall l :: l in SegmentsFrom(open, a + [DOT]) ==> |l| <= |open| + |a|
    decreases |a|
  {
    if a == [] {
      assert (a + [DOT])[1..] == [];
    } else {
      assert (a + [DOT])[1..] == a[1..] + [DOT];
      SegmentsWithinText(if a[0] == DOT then [] else open + [a[0]], a[1..]);
    }
  }
}
