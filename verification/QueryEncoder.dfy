/**
 `ChangetoDnsNameFormat` and `PrepareDnsQueryPacket`: the C version, which appends a dot to its
 caller's host buffer on every call, and the C++ version, which works on a copy.
 */
module QueryEncoder {
  import opened Bytes
  import opened DnsFormat
  import opened Labels
  import opened NameScan

  /** Octets written for a host: its labels, cut at the dots of the host with one more dot behind it. */
  function HostWire(host: seq<byte>): seq<byte> {
    Wire(Segments(host + [DOT])) + [0]
  }

  /** Standard query header: recursion desired, one question (section 4.1.1 of RFC 1035). */
  function QueryHeader(pid: nat): (h: seq<byte>)
    ensures |h| == HEADER_SIZE
  {
    [pid % 256, pid / 256 % 256, 1, 0, 0, 1, 0, 0, 0, 0, 0, 0]
  }

  /** The packet that is sent: `strlen` decides where the question's name ends. */
  function QueryPacket(pid: nat, host: seq<byte>, qtype: nat): seq<byte>
    requires qtype < 0x1_0000
  {
    QueryHeader(pid) + CString(HostWire(host)) + [0] + PutU16(qtype) + PutU16(CLASS_IN)
  }

  // ----- Encoding -----

  /** `strncat(host, ".", 1)`. */
  method AppendDot(host: array<byte>)
    requires StrLen(host[..]) + 1 < host.Length
    modifies host
    ensures CString(host[..]) == old(CString(host[..])) + [DOT]
  {
    ghost var text := CString(host[..]);
    var n := StrLen(host[..]);
    host[n] := DOT;
    host[n + 1] := 0;
    assert host[..n] == text;
    assert host[..n + 1] == text + [DOT];
    StrLenIs(host[..], n + 1);
  }

  /** One step of the two-index loop: `i` either closes the label that starts at `lock` or extends it. */
  lemma CutStep(text: seq<byte>, lock: nat, i: nat, done: seq<seq<byte>>)
    requires lock <= i < |text|
    requires done + SegmentsFrom(text[lock..i], text[i..]) == Segments(text)
    ensures text[i] != DOT ==> done + SegmentsFrom(text[lock..i + 1], text[i + 1..]) == Segments(text)
    ensures text[i] == DOT ==>
              var word := text[lock..i];
              && done + [word] + SegmentsFrom(text[i + 1..i + 1], text[i + 1..]) == Segments(text)
              && Wire(done + [word]) == Wire(done) + ([(i - lock) % 256] + word)
              && |Wire(done)| + 1 + |word| <= |Wire(Segments(text))|
  {
    var word, todo := text[lock..i], SegmentsFrom(text[lock..i], text[i..]);
    assert text[i..][1..] == text[i + 1..];
    if text[i] == DOT {
      var rest := SegmentsFrom([], text[i + 1..]);
      assert text[i + 1..i + 1] == [];
      assert done + todo == done + [word] + rest;
      WireConcat(done, [word]);
      WireConcat(done + [word], rest);
      assert Wire([word]) == [|word| % 256] + word;
    } else {
      assert text[lock..i + 1] == word + [text[i]];
    }
  }

  lemma CutEnds(text: seq<byte>)
    ensures [] + SegmentsFrom(text[0..0], text[0..]) == Segments(text) && Wire([]) == []
  {
  }

  lemma CutRest(text: seq<byte>, lock: nat, done: seq<seq<byte>>)
    requires lock <= |text| && done + SegmentsFrom(text[lock..|text|], text[|text|..]) == Segments(text)
    ensures done == Segments(text)
  {
  }

  /** A buffer with `part` stored from `at` on. */
  ghost function Overlay(was: seq<byte>, at: nat, part: seq<byte>): seq<byte>
    requires at + |part| <= |was|
  {
    was[..at] + part + was[at + |part|..]
  }

  /** Octets stored behind `done`, which was written from `at` on. */
  method Append(buf: array<byte>, q: nat, part: seq<byte>, ghost at: nat, ghost done: seq<byte>, ghost was: seq<byte>)
    requires q == at + |done| && q + |part| <= buf.Length == |was|
    requires buf[..] == Overlay(was, at, done)
    modifies buf
    ensures buf[..] == Overlay(was, at, done + part)
  {
    ghost var mid := buf[..];
    OverlayGrows(was, at, done, part);
    hide Overlay;
    Store(buf, q, part);
    assert buf[..] == mid[..q] + part + mid[q + |part|..];
  }

  lemma OverlayGrows(was: seq<byte>, at: nat, done: seq<byte>, part: seq<byte>)
    requires at + |done| + |part| <= |was|
    ensures var mid, q := Overlay(was, at, done), at + |done|;
            |mid| == |was| && Overlay(was, at, done + part) == mid[..q] + part + mid[q + |part|..]
  {
    var mid, q := Overlay(was, at, done), at + |done|;
    assert mid[..q] == was[..at] + done && mid[q + |part|..] == was[q + |part|..];
  }

  /**
   The two-index loop over a text that ends in a dot: `lock` marks the start of the label that `i`
   is still reading.
   */
  method WriteLabels(buf: array<byte>, at: nat, text: seq<byte>) returns (end: nat)
    requires at + |Wire(Segments(text))| + 1 <= buf.Length
    modifies buf
    ensures end == at + |Wire(Segments(text))| + 1
    ensures buf[..] == old(buf[..at]) + (Wire(Segments(text)) + [0]) + old(buf[end..])
  {
    hide Segments, SegmentsFrom, Wire, Overlay;
    ghost var was: seq<byte>, done: seq<seq<byte>> := buf[..], [];
    var lock, i, q := 0, 0, at;
    CutEnds(text);
    OverlayNone(was, at);
    while i < |text|
      invariant lock <= i <= |text|
      invariant done + SegmentsFrom(text[lock..i], text[i..]) == Segments(text)
      invariant q == at + |Wire(done)| < buf.Length
      invariant buf[..] == Overlay(was, at, Wire(done))
    {
      CutStep(text, lock, i, done);
      if text[i] == DOT {
        var length: byte, word := (i - lock) % 256, text[lock..i];
        Append(buf, q, [length] + word, at, Wire(done), was);
        done := done + [word];
        q := q + 1 + (i - lock);
        lock := i + 1;
      }
      i := i + 1;
    }
    CutRest(text, lock, done);
    Append(buf, q, [0], at, Wire(done), was);
    end := q + 1;
    OverlayIs(was, at, Wire(done) + [0]);
  }

  lemma OverlayNone(was: seq<byte>, at: nat)
    requires at <= |was|
    ensures Overlay(was, at, []) == was
  {
  }

  lemma OverlayIs(was: seq<byte>, at: nat, part: seq<byte>)
    requires at + |part| <= |was|
    ensures Overlay(was, at, part) == was[..at] + part + was[at + |part|..]
  {
  }

  /** The C version: the host buffer keeps the dot. */
  method ChangetoDnsNameFormat(buf: array<byte>, at: nat, host: array<byte>) returns (end: nat)
    requires buf != host && StrLen(host[..]) + 1 < host.Length
    requires at + |HostWire(CString(host[..]))| <= buf.Length
    modifies buf, host
    ensures CString(host[..]) == old(CString(host[..])) + [DOT]
    ensures end == at + |HostWire(old(CString(host[..])))|
    ensures buf[..] == old(buf[..at]) + HostWire(old(CString(host[..]))) + old(buf[end..])
  {
    AppendDot(host);
    end := WriteLabels(buf, at, CString(host[..]));
  }

  /** The header, the name and the question; `strlen` on the name decides where the question goes. */
  method FinishPacket(buf: array<byte>, pid: nat, qtype: nat, ghost wire: seq<byte>) returns (len: nat)
    requires qtype < 0x1_0000 && 0 in wire
    requires HEADER_SIZE + |wire| + QUESTION_SIZE <= buf.Length
    requires buf[HEADER_SIZE..HEADER_SIZE + |wire|] == wire
    modifies buf
    ensures len == HEADER_SIZE + |CString(wire)| + 1 + QUESTION_SIZE <= buf.Length
    ensures buf[..len] == QueryHeader(pid) + CString(wire) + [0] + PutU16(qtype) + PutU16(CLASS_IN)
  {
    hide QueryHeader, PutU16, CString, StrLen;
    ghost var rest := buf[HEADER_SIZE..];
    assert rest[..|wire|] == wire;
    Store(buf, 0, QueryHeader(pid));
    assert buf[..] == QueryHeader(pid) + rest;
    SameText(rest, wire);
    HeaderStored(QueryHeader(pid), rest, StrLen(wire));
    assert buf[HEADER_SIZE..] == buf[..][HEADER_SIZE..];
    var q := HEADER_SIZE + StrLen(buf[HEADER_SIZE..]) + 1;
    ghost var named := buf[..q];
    assert named == buf[..][..q];
    var question := PutU16(qtype) + PutU16(CLASS_IN);
    Store(buf, q, question);
    len := q + QUESTION_SIZE;
    assert buf[..len] == named + question;
  }

  /** The name's first zero octet is the buffer's. */
  lemma SameText(rest: seq<byte>, wire: seq<byte>)
    requires |wire| <= |rest| && rest[..|wire|] == wire && 0 in wire
    ensures StrLen(rest) == StrLen(wire) < |wire| && rest[..StrLen(wire)] == CString(wire) && rest[StrLen(wire)] == 0
  {
    hide CString, StrLen;
    var n := StrLen(wire);
    TextEnds(wire);
    assert rest[..n] == rest[..|wire|][..n] && rest[n] == rest[..|wire|][n];
    StrLenIs(rest, n);
  }

  /** The header goes in front of what stood behind it. */
  lemma HeaderStored(header: seq<byte>, rest: seq<byte>, n: nat)
    requires n < |rest|
    ensures (header + rest)[|header|..] == rest
    ensures (header + rest)[..|header| + n + 1] == header + rest[..n] + [rest[n]]
  {
    assert header + rest == (header + rest[..n] + [rest[n]]) + rest[n + 1..];
  }

  /** The C version of `PrepareDnsQueryPacket`. */
  method PrepareDnsQueryPacket(buf: array<byte>, pid: nat, host: array<byte>) returns (len: nat)
    requires buf != host && StrLen(host[..]) + 1 < host.Length
    requires HEADER_SIZE + |HostWire(CString(host[..]))| + QUESTION_SIZE <= buf.Length
    modifies buf, host
    ensures CString(host[..]) == old(CString(host[..])) + [DOT]
    ensures len <= buf.Length
    ensures buf[..len] == QueryPacket(pid, old(CString(host[..])), TYPE_AAAA)
  {
    ghost var wire := HostWire(CString(host[..]));
    assert wire[|wire| - 1] == 0;
    var end := ChangetoDnsNameFormat(buf, HEADER_SIZE, host);
    assert buf[HEADER_SIZE..HEADER_SIZE + |wire|] == wire;
    len := FinishPacket(buf, pid, TYPE_AAAA, wire);
  }

  /** The C++ version: the host string is a copy, and the question may ask for an IPv4 address. */
  method PrepareDnsQueryPacketByValue(buf: array<byte>, pid: nat, host: seq<byte>, ipv4: bool) returns (len: nat)
    requires HEADER_SIZE + |HostWire(host)| + QUESTION_SIZE <= buf.Length
    modifies buf
    ensures len <= buf.Length
    ensures buf[..len] == QueryPacket(pid, host, if ipv4 then TYPE_A else TYPE_AAAA)
  {
    ghost var wire := HostWire(host);
    assert wire[|wire| - 1] == 0;
    var end := WriteLabels(buf, HEADER_SIZE, host + [DOT]);
    assert buf[HEADER_SIZE..HEADER_SIZE + |wire|] == wire;
    len := FinishPacket(buf, pid, if ipv4 then TYPE_A else TYPE_AAAA, wire);
  }

  /** The labels cut from a host join to it, and their wire form has one octet more than the host. */
  lemma HostIsJoin(host: seq<byte>)
    ensures var labels := Segments(host + [DOT]);
            labels != [] && Join(labels) == host && Dotted(labels) == host + [DOT] && |Wire(labels)| == |host| + 1
  {
    var labels := Segments(host + [DOT]);
    DottedOfSegments([], host);
    assert [] + host + [DOT] == host + [DOT];
    DottedIsJoinDot(labels);
    assert (Join(labels) + [DOT])[..|host|] == (host + [DOT])[..|host|];
    WireLength(labels);
  }

  // ----- The in-place version is stable under its own mutation -----

  /** The host text after `calls` calls of the C version. */
  function HostAfter(host: seq<byte>, calls: nat): seq<byte> {
    if calls == 0 then host else HostAfter(host, calls - 1) + [DOT]
  }

  /** One more dot adds one more empty label, which is one more zero octet behind the first. */
  lemma AppendedDotIsHidden(host: seq<byte>)
    ensures CString(HostWire(host + [DOT])) == CString(HostWire(host))
  {
    SegmentsSplit([], host, [DOT]);
    var labels := Segments(host + [DOT]);
    assert SegmentsFrom([], [DOT]) == [[]] by {
      assert [DOT][1..] == [];
    }
    WireConcat(labels, [[]]);
    assert Wire([[]]) == [0];
    var wire := Wire(labels) + [0];
    assert HostWire(host + [DOT]) == wire + [0];
    var n := StrLen(wire);
    assert wire[|wire| - 1] == 0;
    assert (wire + [0])[..n] == wire[..n];
    StrLenIs(wire + [0], n);
  }

  /**
   However often the C version has already appended its dot, the packet it sends is the packet the
   C++ version builds from the original host.
   */
  lemma {:induction false} PacketStable(pid: nat, host: seq<byte>, calls: nat, qtype: nat)
    requires qtype < 0x1_0000
    ensures QueryPacket(pid, HostAfter(host, calls), qtype) == QueryPacket(pid, host, qtype)
  {
    if calls > 0 {
      PacketStable(pid, host, calls - 1, qtype);
      AppendedDotIsHidden(HostAfter(host, calls - 1));
    }
  }

  lemma HostAfterLength(host: seq<byte>, calls: nat)
    ensures |HostAfter(host, calls)| == |host| + calls
    ensures |HostWire(HostAfter(host, calls))| == |host| + calls + 2
  {
    HostIsJoin(HostAfter(host, calls));
  }

  /**
   The C version after `calls` earlier calls on the same host buffer, which has room for their dots:
   the packet is still the one for the host as it was before the first of them.
   */
  method PrepareRepeatedly(buf: array<byte>, pid: nat, host: array<byte>, calls: nat) returns (len: nat)
    requires buf != host && StrLen(host[..]) + calls + 1 < host.Length
    requires HEADER_SIZE + |CString(host[..])| + calls + 2 + QUESTION_SIZE <= buf.Length
    modifies buf, host
    ensures len <= buf.Length
    ensures buf[..len] == QueryPacket(pid, old(CString(host[..])), TYPE_AAAA)
    ensures CString(host[..]) == HostAfter(old(CString(host[..])), calls + 1)
  {
    hide QueryPacket, HostWire;
    ghost var text := CString(host[..]);
    for k := 0 to calls
      invariant CString(host[..]) == HostAfter(text, k)
    {
      HostAfterLength(text, k);
      len := PrepareDnsQueryPacket(buf, pid, host);
    }
    HostAfterLength(text, calls);
    len := PrepareDnsQueryPacket(buf, pid, host);
    PacketStable(pid, text, calls, TYPE_AAAA);
  }

  // ----- Round trip -----

  /** Hosts that survive: no empty label, no label over 191 octets, no octet from 192 on. */
  predicate Survives(host: seq<byte>) {
    && Plain(host)
    && forall l :: l in Segments(host + [DOT]) ==> 1 <= |l| < POINTER_MARK
  }

  lemma EncodedHostDecodes(msg: seq<byte>, pos: nat, labels: seq<seq<byte>>)
    requires Holds(msg, pos, Wire(labels) + [0])
    requires Clean(labels) && labels != []
    ensures Decode(msg, pos, pos) == Some(Decoded(labels, |Wire(labels)| + 1, false))
    ensures NameAt(msg, pos) == Some(Name(Join(labels), |Wire(labels)| + 1))
  {
    HoldsConcat(msg, pos, Wire(labels), [0]);
    assert msg[pos + |Wire(labels)|] == msg[pos + |Wire(labels)|..pos + |Wire(labels)| + 1][0];
    DecodeWire(msg, pos, pos, labels, Decoded([], 1, false));
    assert labels + [] == labels;
    ReadNameExact(msg, pos);
  }

  /** An empty label ends the name early, so the text comes back short. */
  lemma EmptyLabelLost(msg: seq<byte>, pos: nat, host: seq<byte>, k: nat)
    requires Holds(msg, pos, HostWire(host))
    requires var labels := Segments(host + [DOT]);
             k < |labels| && labels[k] == [] && Clean(labels[..k])
    ensures NameAt(msg, pos).Some? ==> NameAt(msg, pos).value.text != host
  {
    var labels := Segments(host + [DOT]);
    var kept := labels[..k];
    HostIsJoin(host);
    assert labels == kept + labels[k..];
    WireConcat(kept, labels[k..]);
    DottedConcat(kept, labels[k..]);
    assert Wire(labels[k..]) == [0] + Wire(labels[k..][1..]);
    assert HostWire(host) == Wire(kept) + [0] + (Wire(labels[k..][1..]) + [0]);
    HoldsConcat(msg, pos, Wire(kept) + [0], Wire(labels[k..][1..]) + [0]);
    if kept == [] {
      assert msg[pos] == msg[pos..pos + 1][0];
      assert Scan(msg, pos, |msg|) == Some(Scanned([], 1, false));
    } else {
      EncodedHostDecodes(msg, pos, kept);
      DottedIsJoinDot(kept);
      assert |Dotted(kept)| < |Dotted(labels)|;
    }
  }

  /**
   Reading back what the encoder wrote gives the host and the octets written, in every message and
   at every position, exactly for the hosts that `Survives` admits. Every host of RFC 1035 labels
   (at most 63 octets, ASCII) is one of them.
   */
  lemma HostRoundTrip(before: seq<byte>, host: seq<byte>, after: seq<byte>)
    requires 0 !in host
    ensures |HostWire(host)| == |host| + 2
    ensures NameAt(before + HostWire(host) + after, |before|) == Some(Name(host, |host| + 2)) <==> Survives(host)
  {
    var msg, pos, wire := before + HostWire(host) + after, |before|, HostWire(host);
    var labels := Segments(host + [DOT]);
    HostIsJoin(host);
    assert msg[pos..pos + |wire|] == wire;
    if Survives(host) {
      JoinPlainIffClean(labels);
      EncodedHostDecodes(msg, pos, labels);
    }
    if NameAt(msg, pos) == Some(Name(host, |host| + 2)) {
      var read := NameText(msg, pos);
      DottedIsJoinDot(read);
      RunsBounded(read, POINTER_MARK - 1);
      if k: nat :| k < |labels| && labels[k] == [] {
        var first := FirstEmpty(labels, k);
        JoinPlainPrefix(labels, first);
        EmptyLabelLost(msg, pos, host, first);
      }
    }
  }

  /**
   Seen from the labels: joining them to a host and encoding it gives their own wire form exactly when
   no label contains a dot.
   */
  lemma LabelsSurvive(labels: seq<seq<byte>>)
    requires labels != [] && forall k :: 0 <= k < |labels| ==> |labels[k]| < 256
    ensures HostWire(Join(labels)) == Wire(labels) + [0] <==> DotFree(labels)
  {
    var cut := Segments(Join(labels) + [DOT]);
    DottedIsJoinDot(labels);
    if DotFree(labels) {
      SegmentsOfDotted(labels);
    }
    if HostWire(Join(labels)) == Wire(labels) + [0] {
      assert (Wire(cut) + [0])[..|Wire(cut)|] == (Wire(labels) + [0])[..|Wire(labels)|];
      RunsBounded(labels, 255);
      UnpackWire(cut);
      UnpackWire(labels);
      DottedOfSegments([], Join(labels));
    }
  }

  /** Clean labels without dots, joined, encoded and decoded again, come back as they were. */
  lemma LabelsRoundTrip(before: seq<byte>, labels: seq<seq<byte>>, after: seq<byte>)
    requires labels != [] && Clean(labels) && DotFree(labels)
    ensures var msg, pos, host := before + HostWire(Join(labels)) + after, |before|, Join(labels);
            && Decode(msg, pos, pos) == Some(Decoded(labels, |host| + 2, false))
            && NameAt(msg, pos) == Some(Name(host, |host| + 2))
  {
    var msg, pos, host := before + HostWire(Join(labels)) + after, |before|, Join(labels);
    hide HostWire, Wire, Join, DotFree, Decode, NameAt, Holds;
    HostAfterLength(host, 0);
    LabelsSurvive(labels);
    Placed(before, HostWire(host), after);
    EncodedHostDecodes(msg, pos, labels);
  }

  lemma Placed(before: seq<byte>, part: seq<byte>, after: seq<byte>)
    ensures Holds(before + part + after, |before|, part)
  {
  }

  lemma {:induction false} FirstEmpty(labels: seq<seq<byte>>, k: nat) returns (first: nat)
    requires k < |labels| && labels[k] == []
    ensures first <= k && labels[first] == [] && forall m :: 0 <= m < first ==> labels[m] != []
  {
    if m: nat :| m < k && labels[m] == [] {
      first := FirstEmpty(labels, m);
    } else {
      first := k;
    }
  }

  /** Labels in front of an empty one are clean when the whole text is plain. */
  lemma JoinPlainPrefix(labels: seq<seq<byte>>, n: nat)
    requires n < |labels| && Plain(Join(labels))
    requires forall k :: 0 <= k < n ==> 1 <= |labels[k]| < POINTER_MARK
    ensures Clean(labels[..n])
  {
    DottedIsJoinDot(labels);
    assert labels == labels[..n] + labels[n..];
    DottedConcat(labels[..n], labels[n..]);
    PlainConcat(Join(labels), [DOT]);
    PlainConcat(Dotted(labels[..n]), Dotted(labels[n..]));
    if n > 0 {
      DottedIsJoinDot(labels[..n]);
      PlainConcat(Join(labels[..n]), [DOT]);
      JoinPlainIffClean(labels[..n]);
    }
  }

  /**
   A reader of the packet finds what was asked: one question, recursion desired, nothing else in the
   header, and behind it the host, the type and the Internet class, up to the last octet.
   */
  lemma QueryReadsBack(pid: nat, host: seq<byte>, qtype: nat)
    requires Survives(host) && qtype < 0x1_0000
    ensures var packet, q := QueryPacket(pid, host, qtype), HEADER_SIZE + |host| + 2;
            && |packet| == q + QUESTION_SIZE
            && packet[0] as nat + 256 * packet[1] as nat == pid % 0x1_0000
            && packet[2..HEADER_SIZE] == [1, 0, 0, 1, 0, 0, 0, 0, 0, 0]
            && NameAt(packet, HEADER_SIZE) == Some(Name(host, |host| + 2))
            && U16(packet[q], packet[q + 1]) == qtype && U16(packet[q + 2], packet[q + 3]) == CLASS_IN
  {
    var question := PutU16(qtype) + PutU16(CLASS_IN);
    var front, header := QueryHeader(pid) + HostWire(host), QueryHeader(pid);
    HostRoundTrip(header, host, question);
    PacketOfSurvivor(pid, host, qtype);
    assert front + question == header + (HostWire(host) + question);
    TwoFields(PutU16(qtype), PutU16(CLASS_IN));
    HeaderId(pid);
    hide NameAt, Survives, QueryPacket, HostWire, QueryHeader, PutU16, U16;
    Behind(front, question);
    InFront(header, HostWire(host) + question);
  }

  lemma HeaderId(pid: nat)
    ensures QueryHeader(pid)[0] as nat + 256 * QueryHeader(pid)[1] as nat == pid % 0x1_0000
    ensures QueryHeader(pid)[2..] == [1, 0, 0, 1, 0, 0, 0, 0, 0, 0]
  {
    var low, rest := pid % 256, pid / 256;
    var mid, high := rest % 256, rest / 256;
    assert pid == 256 * rest + low && rest == 256 * high + mid;
    assert pid == 0x1_0000 * high + (256 * mid + low) && 256 * mid + low < 0x1_0000;
    Remainder(pid, high, 256 * mid + low);
  }

  lemma Remainder(n: nat, q: nat, r: nat)
    requires n == 0x1_0000 * q + r && r < 0x1_0000
    ensures n % 0x1_0000 == r
  {
  }

  lemma TwoFields(a: seq<byte>, b: seq<byte>)
    requires |a| == 2
    ensures forall k :: 0 <= k < 2 ==> (a + b)[k] == a[k]
    ensures forall k :: 2 <= k < 2 + |b| ==> (a + b)[k] == b[k - 2]
  {
  }

  lemma Behind(a: seq<byte>, b: seq<byte>)
    ensures forall k :: |a| <= k < |a| + |b| ==> (a + b)[k] == b[k - |a|]
  {
  }

  lemma InFront(header: seq<byte>, rest: seq<byte>)
    requires |header| == HEADER_SIZE
    ensures (header + rest)[2..HEADER_SIZE] == header[2..]
    ensures (header + rest)[0] == header[0] && (header + rest)[1] == header[1]
  {
  }

  lemma PlainText(wire: seq<byte>)
    requires Plain(wire)
    ensures CString(wire + [0]) == wire
  {
    assert (wire + [0])[..|wire|] == wire;
    StrLenIs(wire + [0], |wire|);
  }

  /** For a surviving host `strlen` finds the end of the name. */
  lemma PacketOfSurvivor(pid: nat, host: seq<byte>, qtype: nat)
    requires Survives(host) && qtype < 0x1_0000
    ensures QueryPacket(pid, host, qtype) == QueryHeader(pid) + HostWire(host) + (PutU16(qtype) + PutU16(CLASS_IN))
  {
    var labels := Segments(host + [DOT]);
    HostIsJoin(host);
    JoinPlainIffClean(labels);
    CleanWire(labels);
    hide Wire, Segments, Survives, Clean, Join, Dotted, QueryHeader, PutU16, CString, Plain;
    PlainText(Wire(labels));
    Regroup(QueryHeader(pid), Wire(labels), PutU16(qtype), PutU16(CLASS_IN));
  }

  lemma Regroup(h: seq<byte>, w: seq<byte>, a: seq<byte>, b: seq<byte>)
    ensures h + w + [0] + a + b == h + (w + [0]) + (a + b)
  {
  }
}
