/**
 Octets spelled out: a query and a reply as they travel, and the addresses of RFC 6052 and RFC 7050. They tie
 the definitions of the other modules to the formats they are meant for.
 */
module KnownVectors {
  import opened Bytes
  import opened DnsFormat
  import opened Labels
  import opened NameScan
  import opened Answers
  import opened Nat64
  import Extraction
  import QueryEncoder
  import opened ResolverRace
  import opened ResolverProgress

  const WWW: seq<byte> := [119, 119, 119]
  const GOOGLE: seq<byte> := [103, 111, 111, 103, 108, 101]
  const COM: seq<byte> := [99, 111, 109]
  const IPV6: seq<byte> := [105, 112, 118, 54]

  /** www.google.com */
  const HOST: seq<byte> := WWW + [46] + GOOGLE + [46] + COM
  /** ipv6.google.com */
  const ALIAS: seq<byte> := IPV6 + [46] + GOOGLE + [46] + COM

  // ----- A query -----

  lemma HostLabels()
    ensures Join([WWW, GOOGLE, COM]) == HOST && Join([IPV6, GOOGLE, COM]) == ALIAS
    ensures Clean([WWW, GOOGLE, COM]) && DotFree([WWW, GOOGLE, COM])
    ensures Wire([WWW, GOOGLE, COM]) == [3] + WWW + ([6] + GOOGLE + ([3] + COM))
  {
    assert [WWW, GOOGLE, COM][1..] == [GOOGLE, COM] && [IPV6, GOOGLE, COM][1..] == [GOOGLE, COM];
    assert [GOOGLE, COM][1..] == [COM] && [COM][1..] == [];
    assert Join([GOOGLE, COM]) == GOOGLE + [46] + COM;
    assert Wire([COM]) == [3] + COM;
    assert Wire([GOOGLE, COM]) == [6] + GOOGLE + ([3] + COM);
  }

  lemma HostSurvives()
    ensures QueryEncoder.Survives(HOST) && Segments(HOST + [46]) == [WWW, GOOGLE, COM]
  {
    HostLabels();
    DottedIsJoinDot([WWW, GOOGLE, COM]);
    SegmentsOfDotted([WWW, GOOGLE, COM]);
  }

  /** The header of a standard query from the process 0x1234. */
  const HEADER: seq<byte> := [0x34, 0x12, 1, 0, 0, 1, 0, 0, 0, 0, 0, 0]
  /** The name as it is sent. */
  const HOST_NAME: seq<byte> := [3] + WWW + ([6] + GOOGLE + ([3] + COM)) + [0]

  /** The query for www.google.com, octet by octet, for either address family. */
  lemma QueryOctets()
    ensures QueryEncoder.QueryPacket(0x1234, HOST, TYPE_AAAA) == HEADER + HOST_NAME + [0, 28, 0, 1]
    ensures QueryEncoder.QueryPacket(0x1234, HOST, TYPE_A) == HEADER + HOST_NAME + [0, 1, 0, 1]
  {
    hide QueryEncoder.QueryPacket, QueryEncoder.QueryHeader, QueryEncoder.HostWire, QueryEncoder.Survives, PutU16;
    HostSurvives();
    QueryParts();
    QueryEncoder.PacketOfSurvivor(0x1234, HOST, TYPE_AAAA);
    QueryEncoder.PacketOfSurvivor(0x1234, HOST, TYPE_A);
  }

  lemma QueryParts()
    ensures QueryEncoder.QueryHeader(0x1234) == HEADER && QueryEncoder.HostWire(HOST) == HOST_NAME
    ensures PutU16(TYPE_AAAA) + PutU16(CLASS_IN) == [0, 28, 0, 1] && PutU16(TYPE_A) + PutU16(CLASS_IN) == [0, 1, 0, 1]
  {
    HostLabels();
    HostSurvives();
    assert QueryEncoder.HostWire(HOST) == Wire([WWW, GOOGLE, COM]) + [0];
    hide QueryEncoder.HostWire, QueryEncoder.Survives, Wire, Segments, Join, Clean;
  }

  /** Whatever the host, the packet closes with type and class in network order. */
  lemma QueryEnds(pid: nat, host: seq<byte>)
    ensures var packet := QueryEncoder.QueryPacket(pid, host, TYPE_AAAA);
            |packet| >= 17 && packet[|packet| - 4..] == [0, 28, 0, 1]
  {
  }

  // ----- A reply -----

  /** www.google.com, an alias for an hour: the owner is a pointer to the question, the target ends in another one. */
  const ALIAS_RECORD: seq<byte> := [192, 12] + [0, 5, 0, 1, 0, 0, 14, 16, 0, 7] + ([4] + IPV6 + [192, 16])

  /** 2404:6800:4005:80b::200e */
  const ADDRESS: seq<byte> := [0x24, 4, 0x68, 0, 0x40, 5, 8, 11, 0, 0, 0, 0, 0, 0, 0x20, 14]

  /** The address of the alias, for five minutes: the owner is a pointer to the data of the record before. */
  const ADDRESS_RECORD: seq<byte> := [192, 44] + [0, 28, 0, 1, 0, 0, 1, 44, 0, 16] + ADDRESS

  /** The names of a reply to the query above stand in these places. */
  predicate IsReply(msg: seq<byte>) {
    && Holds(msg, 6, [0, 2]) && Holds(msg, 12, HOST_NAME)
    && Holds(msg, 32, ALIAS_RECORD) && Holds(msg, 51, ADDRESS_RECORD)
  }

  /** A reply of two answers that is nothing else. */
  const REPLY: seq<byte> :=
    [0x34, 0x12, 0x81, 0x80, 0, 1, 0, 2, 0, 0, 0, 0] + HOST_NAME + [0, 28, 0, 1] + ALIAS_RECORD + ADDRESS_RECORD

  lemma ReplyIsReply()
    ensures |REPLY| == 79 && IsReply(REPLY)
  {
    assert |HOST_NAME| == 16 && |ALIAS_RECORD| == 19 && |ADDRESS_RECORD| == 28;
    assert REPLY[6..8] == [0, 2] && REPLY[12..28] == HOST_NAME;
    assert REPLY[32..51] == ALIAS_RECORD && REPLY[51..79] == ADDRESS_RECORD;
  }

  lemma NameWhole(msg: seq<byte>, at: nat, labels: seq<seq<byte>>)
    requires Clean(labels) && Holds(msg, at, Wire(labels) + [0])
    ensures Decode(msg, at, at) == Some(Decoded(labels, |Wire(labels)| + 1, false))
  {
    HoldsConcat(msg, at, Wire(labels), [0]);
    assert msg[at + |Wire(labels)|] == msg[at + |Wire(labels)|..at + |Wire(labels)| + 1][0];
    DecodeWire(msg, at, at, labels, Decoded([], 1, false));
    assert labels + [] == labels;
  }

  lemma TailLabels()
    ensures Wire([GOOGLE, COM]) == [6] + GOOGLE + ([3] + COM) && Wire([IPV6]) == [4] + IPV6
    ensures Clean([GOOGLE, COM]) && Clean([IPV6, GOOGLE, COM])
    ensures [IPV6] + [GOOGLE, COM] == [IPV6, GOOGLE, COM]
    ensures |Wire([IPV6, GOOGLE, COM])| == 16 && |Wire([WWW, GOOGLE, COM])| == 15
  {
    HostLabels();
    assert [GOOGLE, COM][1..] == [COM] && [IPV6][1..] == [] && [IPV6, GOOGLE, COM][1..] == [GOOGLE, COM];
    assert Wire([COM]) == [3] + COM;
  }

  /** Where the three names of the reply lead. */
  lemma ReplyNames(msg: seq<byte>)
    requires IsReply(msg)
    ensures NameAt(msg, 32) == Some(Name(HOST, 2)) && NameAt(msg, 44) == Some(Name(ALIAS, 7))
    ensures NameAt(msg, 51) == Some(Name(ALIAS, 2))
  {
    HostLabels();
    TailLabels();
    assert Holds(msg, 12, Wire([WWW, GOOGLE, COM]) + [0]);
    assert HOST_NAME == ([3] + WWW) + ([6] + GOOGLE + ([3] + COM) + [0]);
    HoldsConcat(msg, 12, [3] + WWW, [6] + GOOGLE + ([3] + COM) + [0]);
    NameWhole(msg, 12, [WWW, GOOGLE, COM]);
    NameWhole(msg, 16, [GOOGLE, COM]);
    HoldsConcat(msg, 32, [192, 12] + [0, 5, 0, 1, 0, 0, 14, 16, 0, 7], [4] + IPV6 + [192, 16]);
    HoldsConcat(msg, 32, [192, 12], [0, 5, 0, 1, 0, 0, 14, 16, 0, 7]);
    HoldsConcat(msg, 51, [192, 44] + [0, 28, 0, 1, 0, 0, 1, 44, 0, 16], ADDRESS);
    HoldsConcat(msg, 51, [192, 44], [0, 28, 0, 1, 0, 0, 1, 44, 0, 16]);
    hide Holds, Decode, NameAt, Wire, Join, Clean;
    Pointed(msg, 32, 12, [WWW, GOOGLE, COM]);
    Aliased(msg);
    Pointed(msg, 51, 44, [IPV6, GOOGLE, COM]);
  }

  /** A pointer alone. */
  lemma Pointed(msg: seq<byte>, at: nat, t: byte, labels: seq<seq<byte>>)
    requires t < at && Holds(msg, at, [192, t]) && Decode(msg, t, t).Some? && Decode(msg, t, t).value.labels == labels
    requires labels != [] && Clean(labels) && |Wire(labels)| <= 254
    ensures NameAt(msg, at) == Some(Name(Join(labels), 2))
  {
    var w := WireName([], Some(t));
    PointerName(msg, t);
    hide NameAt, Decode, Holds, Wire, Join, Clean, NameOctets, AllLabels;
    NameReadsBack(msg, at, w);
  }

  lemma PointerName(msg: seq<byte>, t: byte)
    ensures var w := WireName([], Some(t)); NameOctets(w) == [192, t] && AllLabels(msg, w) == PointedLabels(msg, Some(t))
  {
  }

  /** A label and a pointer. */
  lemma Aliased(msg: seq<byte>)
    requires Holds(msg, 44, [4] + IPV6 + [192, 16]) && Decode(msg, 16, 16).Some?
    requires Decode(msg, 16, 16).value.labels == [GOOGLE, COM]
    ensures NameAt(msg, 44) == Some(Name(ALIAS, 7))
    ensures Decode(msg, 44, 44).Some? && Decode(msg, 44, 44).value.labels == [IPV6, GOOGLE, COM]
  {
    HostLabels();
    TailLabels();
    var w := WireName([IPV6], Some(16));
    assert NameOctets(w) == [4] + IPV6 + [192, 16] && AllLabels(msg, w) == [IPV6, GOOGLE, COM];
    hide Decode, NameAt, Wire, Join, Holds;
    NameDecodes(msg, 44, w);
    NameReadsBack(msg, 44, w);
  }

  lemma ReplyFields(msg: seq<byte>)
    requires IsReply(msg)
    ensures |msg| >= 79 && msg[6..8] == [0, 2] && msg[34..44] == [0, 5, 0, 1, 0, 0, 14, 16, 0, 7]
    ensures msg[53..63] == [0, 28, 0, 1, 0, 0, 1, 44, 0, 16] && msg[63..79] == ADDRESS
  {
    HoldsConcat(msg, 32, [192, 12] + [0, 5, 0, 1, 0, 0, 14, 16, 0, 7], [4] + IPV6 + [192, 16]);
    HoldsConcat(msg, 32, [192, 12], [0, 5, 0, 1, 0, 0, 14, 16, 0, 7]);
    HoldsConcat(msg, 51, [192, 44] + [0, 28, 0, 1, 0, 0, 1, 44, 0, 16], ADDRESS);
    HoldsConcat(msg, 51, [192, 44], [0, 28, 0, 1, 0, 0, 1, 44, 0, 16]);
  }

  lemma ReplyRecords(msg: seq<byte>)
    requires IsReply(msg)
    ensures ParseRecord(msg, 32) == Some(Parsed(Record(HOST, 5, 1, 3600, 7, ALIAS), 51))
    ensures ParseRecord(msg, 51) == Some(Parsed(Record(ALIAS, 28, 1, 300, 16, ADDRESS), 79))
  {
    ReplyNames(msg);
    ReplyFields(msg);
    FixedFields(msg, 34, [0, 5, 0, 1, 0, 0, 14, 16, 0, 7]);
    FixedFields(msg, 53, [0, 28, 0, 1, 0, 0, 1, 44, 0, 16]);
    hide NameAt, Holds, IsReply, U16, U32, U16At, U32At;
  }

  /** The reply read: both records in order, and the one address it carries. */
  lemma ReplyRead(msg: seq<byte>)
    requires IsReply(msg)
    ensures |msg| >= HEADER_SIZE && AnswerCount(msg) == 2
    ensures ParseRecords(msg, 32, 2) ==
            Some([Record(HOST, 5, 1, 3600, 7, ALIAS), Record(ALIAS, 28, 1, 300, 16, ADDRESS)])
    ensures Extraction.Addresses([Record(HOST, 5, 1, 3600, 7, ALIAS), Record(ALIAS, 28, 1, 300, 16, ADDRESS)]) == [ADDRESS]
  {
    var counted, first, last := msg[6..8], Record(HOST, 5, 1, 3600, 7, ALIAS), Record(ALIAS, 28, 1, 300, 16, ADDRESS);
    assert counted[0] == msg[6] && counted[1] == msg[7];
    AnswerCountOctets(msg);
    ReplyRecords(msg);
    hide ParseRecord, AnswerCount, IsReply, Holds;
    TwoRecords(msg, 32, 51, 79, first, last);
    OneAddress(first, last);
  }

  lemma TwoRecords(msg: seq<byte>, at: nat, mid: nat, end: nat, first: Record, last: Record)
    requires ParseRecord(msg, at) == Some(Parsed(first, mid)) && ParseRecord(msg, mid) == Some(Parsed(last, end))
    ensures ParseRecords(msg, at, 2) == Some([first, last])
  {
    hide ParseRecord;
    assert ParseRecords(msg, end, 0) == Some([]);
    assert ParseRecords(msg, mid, 1) == Some([last] + []) && [last] + [] == [last];
    assert [first] + [last] == [first, last];
  }

  lemma OneAddress(first: Record, last: Record)
    requires first.rtype != 28 && last.rtype == 28 && |last.rdata| == 16
    ensures Extraction.Addresses([first, last]) == [last.rdata]
  {
    assert [first, last][1..] == [last] && [last][1..] == [] && last.rdata[..16] == last.rdata;
  }

  /** The pointer 193, 44 leads to the octet 300. */
  lemma PointerTo300(msg: seq<byte>, pos: nat)
    requires Holds(msg, pos, [193, 44])
    ensures pos + 1 < |msg| && msg[pos] >= 192 && PointerTarget(msg, pos) == 300
    ensures NameEnd(Some(300)) == [193, 44]
  {
    assert msg[pos] == msg[pos..pos + 2][0] && msg[pos + 1] == msg[pos..pos + 2][1];
  }

  // ----- Addresses -----

  /** The prefixes of section 2.4 of RFC 6052 up to the length that is used: 2001:db8:122:344::. */
  const PREFIX: seq<byte> := [0x20, 1, 0x0d, 0xb8, 1, 0x22, 3, 0x44, 0, 0, 0, 0, 0, 0, 0, 0]

  /** The table of section 2.4 of RFC 6052 for 192.0.2.33. */
  lemma EmbeddingExamples()
    ensures var v: seq<byte> := [192, 0, 2, 33];
            && Embed(32, PREFIX, v) == [0x20, 1, 0x0d, 0xb8, 192, 0, 2, 33, 0, 0, 0, 0, 0, 0, 0, 0]
            && Embed(40, PREFIX, v) == [0x20, 1, 0x0d, 0xb8, 1, 192, 0, 2, 0, 33, 0, 0, 0, 0, 0, 0]
            && Embed(48, PREFIX, v) == [0x20, 1, 0x0d, 0xb8, 1, 0x22, 192, 0, 0, 2, 33, 0, 0, 0, 0, 0]
    ensures var v: seq<byte> := [192, 0, 2, 33];
            && Embed(56, PREFIX, v) == [0x20, 1, 0x0d, 0xb8, 1, 0x22, 3, 192, 0, 0, 2, 33, 0, 0, 0, 0]
            && Embed(64, PREFIX, v) == [0x20, 1, 0x0d, 0xb8, 1, 0x22, 3, 0x44, 0, 192, 0, 2, 33, 0, 0, 0]
            && Embed(96, PREFIX, v) == [0x20, 1, 0x0d, 0xb8, 1, 0x22, 3, 0x44, 0, 0, 0, 0, 192, 0, 2, 33]
  {
    assert IsAddress(PREFIX) && IsV4([192, 0, 2, 33]);
    EmbedLayout(PREFIX, [192, 0, 2, 33]);
    hide Embed, EmbeddedOctet, V4Position;
  }

  /** `s_addr` for 192.0.2.1 on a little-endian host, and the octets taken from it. */
  lemma WordExample()
    ensures LittleEndian([192, 0, 2, 1]) == 0x0102_00C0
    ensures ShiftMask(0x0102_00C0, 0) == 192 && ShiftMask(0x0102_00C0, 1) == 0
    ensures ShiftMask(0x0102_00C0, 2) == 2 && ShiftMask(0x0102_00C0, 3) == 1
  {
  }

  /** An address behind the well-known prefix 64:ff9b::/96 of section 2.1 of RFC 6052. */
  function WellKnown(v: seq<byte>): (a: seq<byte>)
    requires IsV4(v)
    ensures IsAddress(a)
  {
    [0, 0x64, 0xff, 0x9b, 0, 0, 0, 0, 0, 0, 0, 0] + v
  }

  lemma WellKnownEmbeds(v: seq<byte>)
    requires IsV4(v)
    ensures WellKnown(v) == Embed(96, WellKnown([0, 0, 0, 0]), v)
  {
    EmbedLayout(WellKnown([0, 0, 0, 0]), v);
  }

  /** Both addresses of ipv4only.arpa (section 8.1 of RFC 7050) are recognized, and 192.0.2.1 on the other platform. */
  lemma ProbesRecognized()
    ensures IsProbeAnswer(WellKnown([192, 0, 0, 170]), false) && IsProbeAnswer(WellKnown([192, 0, 0, 171]), false)
    ensures IsProbeAnswer(WellKnown([192, 0, 2, 1]), true)
  {
    WellKnownEmbeds([192, 0, 0, 170]);
    WellKnownEmbeds([192, 0, 0, 171]);
    WellKnownEmbeds([192, 0, 2, 1]);
    ProbeEmbeddingsAccepted(96, WellKnown([0, 0, 0, 0]), [192, 0, 0, 170], false);
    ProbeEmbeddingsAccepted(96, WellKnown([0, 0, 0, 0]), [192, 0, 0, 171], false);
    ProbeEmbeddingsAccepted(96, WellKnown([0, 0, 0, 0]), [192, 0, 2, 1], true);
  }

  /** Behind the well-known prefix nothing else is: the addresses are told apart by all four octets. */
  lemma OthersRefused(v: seq<byte>, apple: bool)
    requires IsV4(v) && v[3] != 0 && IsProbeAnswer(WellKnown(v), apple)
    ensures if apple then v == [192, 0, 2, 1] else v == [192, 0, 0, 170] || v == [192, 0, 0, 171]
  {
    var a := WellKnown(v);
    var pl, w :| PrefixLength(pl) && IsV4(w) && IsProbe(w, apple) && EmbedsAt(a, pl, w);
    EmbeddingSuffix(a, pl, w);
    SuffixZerosIs(a, 0);
    EmbedLayout(a, w);
    assert a[12..] == v && (a[..12] + w)[12..] == w;
  }

  /** The literal 8.8.8.8 put into the answer for ipv4only.arpa: 64:ff9b::808:808. */
  lemma ReplacementExample()
    ensures Replace(WellKnown([192, 0, 0, 170]), [8, 8, 8, 8]) == WellKnown([8, 8, 8, 8])
  {
    var a := WellKnown([192, 0, 0, 170]);
    SuffixZerosIs(a, 0);
    ReplaceLayoutWhole(a, [8, 8, 8, 8]);
    hide *;
  }

  // ----- A call -----

  /** The first server sends the records above, the others send none, and the host is the literal 8.8.8.8. */
  function Call(slots: seq<seq<byte>>): Config {
    Config([[Record(HOST, 5, 1, 3600, 7, ALIAS), Record(ALIAS, 28, 1, 300, 16, ADDRESS)], [], []], Some([8, 8, 8, 8]), slots)
  }

  /** Such a call can return the address with the literal put in its last octets, and nothing else. */
  lemma CallSucceeds(slots: seq<seq<byte>>) returns (tr: seq<State>)
    requires |slots| == 20 && forall k :: 0 <= k < 20 ==> |slots[k]| == 16
    ensures ValidConfig(Call(slots)) && Run(Call(slots), tr, 0, 3) && tr != []
    ensures Last(tr).main == ReturnedOk && Last(tr).size == 1 && |Last(tr).slots| == 20
    ensures Last(tr).slots[0] == ADDRESS[..12] + [8, 8, 8, 8]
  {
    var cfg := Call(slots);
    OneAddress(cfg.replies[0][0], cfg.replies[0][1]);
    assert Found(cfg, 0) == [ADDRESS];
    SuffixZerosIs(ADDRESS, 0);
    ReplaceLayoutWhole(ADDRESS, [8, 8, 8, 8]);
    hide Replace, SuffixZeros, ValidConfig, Found, Run;
    tr := AnyServerCanWin(cfg, 0, 3, 0);
  }
}
