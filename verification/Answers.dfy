/**
 `ReadRecvAnswer`: the walk over the answer section with one moving cursor, and the serializer of
 section 4.1.3 of RFC 1035 it inverts.
 */
module Answers {
  import opened Bytes
  import opened DnsFormat
  import opened Labels
  import opened NameScan
  import NameReader

  /** A decoded answer: the owner's name, the fixed fields and the copied or decoded data. */
  datatype Record = Record(name: seq<byte>, rtype: nat, class_: nat, ttl: nat, dataLen: nat, rdata: seq<byte>)

  function U16At(msg: seq<byte>, pos: nat): nat
    requires pos + 2 <= |msg|
  {
    U16(msg[pos], msg[pos + 1])
  }

  function U32At(msg: seq<byte>, pos: nat): nat
    requires pos + 4 <= |msg|
  {
    U32(msg[pos], msg[pos + 1], msg[pos + 2], msg[pos + 3])
  }

  /** Answers read: the header's ANCOUNT, cut at the size of the answer array. */
  function AnswerCount(msg: seq<byte>): (n: nat)
    requires |msg| >= HEADER_SIZE
    ensures n <= MAX_ANSWERS
  {
    if MAX_ANSWERS < U16At(msg, 6) then MAX_ANSWERS else U16At(msg, 6)
  }

  // ----- What one round and the whole loop compute -----

  datatype Parsed = Parsed(record: Record, next: nat)

  datatype Field = Field(octets: seq<byte>, next: nat)

  /** AAAA data is copied by its length field; any other data is read as a name, whatever its length says. */
  function ParseData(msg: seq<byte>, pos: nat, rtype: nat, len: nat): Option<Field> {
    if rtype == TYPE_AAAA then
      if pos + len > |msg| then None else Some(Field(msg[pos..pos + len], pos + len))
    else match NameAt(msg, pos)
      case None => None
      case Some(name) => Some(Field(name.text, pos + name.octets))
  }

  /** One answer at `pos` and the cursor behind it; None where the C code leaves the message. */
  function ParseRecord(msg: seq<byte>, pos: nat): Option<Parsed> {
    match NameAt(msg, pos)
    case None => None
    case Some(owner) =>
      var q := pos + owner.octets;
      if q + FIXED_SIZE > |msg| then None
      else match ParseData(msg, q + FIXED_SIZE, U16At(msg, q), U16At(msg, q + 8))
        case None => None
        case Some(data) =>
          Some(Parsed(Record(owner.text, U16At(msg, q), U16At(msg, q + 2), U32At(msg, q + 4), U16At(msg, q + 8), data.octets),
                      data.next))
  }

  function ParseRecords(msg: seq<byte>, pos: nat, n: nat): Option<seq<Record>>
    decreases n
  {
    if n == 0 then Some([])
    else match ParseRecord(msg, pos)
      case None => None
      case Some(p) =>
        match ParseRecords(msg, p.next, n - 1)
        case None => None
        case Some(rest) => Some([p.record] + rest)
  }

  /** The count is read in network order and cut at 20. */
  lemma AnswerCountOctets(msg: seq<byte>)
    requires |msg| >= 12
    ensures var sent: nat := 256 * msg[6] as nat + msg[7] as nat; AnswerCount(msg) == if sent > 20 then 20 else sent
  {
  }

  /** The fixed fields follow each other in network order: type, class, time to live, data length. */
  lemma FixedFields(msg: seq<byte>, q: nat, f: seq<byte>)
    requires |f| == 10 && q + 10 <= |msg| && msg[q..q + 10] == f
    ensures U16At(msg, q) == 256 * f[0] as nat + f[1] as nat && U16At(msg, q + 2) == 256 * f[2] as nat + f[3] as nat
    ensures U32At(msg, q + 4) == 0x100_0000 * f[4] as nat + 0x1_0000 * f[5] as nat + 256 * f[6] as nat + f[7] as nat
    ensures U16At(msg, q + 8) == 256 * f[8] as nat + f[9] as nat
  {
    assert forall k :: 0 <= k < 10 ==> f[k] == msg[q + k];
  }

  /**
   An AAAA record on the wire: behind the owner's name the octets of type 28, class 1, an hour to live
   and 16 octets of data are read as such, and the cursor moves behind the data.
   */
  lemma AddressRecordOctets(msg: seq<byte>, pos: nat, owner: Name)
    requires NameAt(msg, pos) == Some(owner)
    requires var q := pos + owner.octets; q + 26 <= |msg| && msg[q..q + 10] == [0, 28, 0, 1, 0, 0, 14, 16, 0, 16]
    ensures var q := pos + owner.octets;
            ParseRecord(msg, pos) == Some(Parsed(Record(owner.text, 28, 1, 3600, 16, msg[q + 10..q + 26]), q + 26))
  {
    var q := pos + owner.octets;
    FixedFields(msg, q, msg[q..q + 10]);
    hide NameAt, U16, U32;
  }

  /** Only AAAA data goes by its length field: other data is a name, and the cursor follows the name. */
  lemma OtherDataIsName(msg: seq<byte>, pos: nat, rtype: nat, len: nat)
    requires rtype != 28
    ensures ParseData(msg, pos, rtype, len).Some? <==> NameAt(msg, pos).Some?
    ensures NameAt(msg, pos).Some? ==>
              ParseData(msg, pos, rtype, len).value == Field(NameAt(msg, pos).value.text, pos + NameAt(msg, pos).value.octets)
  {
  }

  /** The cursor behind the first `k` of `n` records. */
  function Cursor(msg: seq<byte>, pos: nat, n: nat, k: nat): nat
    requires ParseRecords(msg, pos, n).Some? && k <= n
    decreases k
  {
    if k == 0 then pos else Cursor(msg, ParseRecord(msg, pos).value.next, n - 1, k - 1)
  }

  /** Slot `k` holds what stands at its cursor, and the next cursor is right behind it. */
  lemma {:induction false} RecordsInOrder(msg: seq<byte>, pos: nat, n: nat, k: nat)
    requires ParseRecords(msg, pos, n).Some? && k < n
    ensures |ParseRecords(msg, pos, n).value| == n && Cursor(msg, pos, n, 0) == pos
    ensures ParseRecord(msg, Cursor(msg, pos, n, k))
            == Some(Parsed(ParseRecords(msg, pos, n).value[k], Cursor(msg, pos, n, k + 1)))
    decreases k
  {
    ParseRecordsLength(msg, pos, n);
    if k > 0 {
      RecordsInOrder(msg, ParseRecord(msg, pos).value.next, n - 1, k - 1);
    }
  }

  lemma {:induction false} ParseRecordsLength(msg: seq<byte>, pos: nat, n: nat)
    requires ParseRecords(msg, pos, n).Some?
    ensures |ParseRecords(msg, pos, n).value| == n
    decreases n
  {
    if n > 0 {
      ParseRecordsLength(msg, ParseRecord(msg, pos).value.next, n - 1);
    }
  }

  // ----- The loop -----

  /** The data of one answer: a copying loop for AAAA, `ReadName` for anything else. */
  method ReadData(msg: seq<byte>, pos: nat, rtype: nat, len: nat) returns (rdata: seq<byte>, reader: nat)
    requires ParseData(msg, pos, rtype, len).Some?
    ensures Field(rdata, reader) == ParseData(msg, pos, rtype, len).value
  {
    if rtype == TYPE_AAAA {
      rdata := [];
      for j := 0 to len
        invariant rdata == msg[pos..pos + j]
      {
        rdata := rdata + [msg[pos + j]];
      }
      reader := pos + len;
    } else {
      var target, stop := NameReader.ReadName(msg, pos);
      rdata, reader := CString(target[..]), pos + stop;
    }
  }

  /** One round of the loop: the owner's name, the fixed fields, the data. */
  method ReadOneAnswer(msg: seq<byte>, pos: nat) returns (answer: Record, reader: nat)
    requires ParseRecord(msg, pos).Some?
    ensures Parsed(answer, reader) == ParseRecord(msg, pos).value
  {
    var name, stop := NameReader.ReadName(msg, pos);
    var q := pos + stop;
    var rtype, len := U16At(msg, q), U16At(msg, q + 8);
    var rdata;
    rdata, reader := ReadData(msg, q + FIXED_SIZE, rtype, len);
    answer := Record(CString(name[..]), rtype, U16At(msg, q + 2), U32At(msg, q + 4), len, rdata);
  }

  /** Fills the first slots of the answer array with the answers found from `pos` on. */
  method ReadRecvAnswer(msg: seq<byte>, pos: nat, answers: array<Record>)
    requires |msg| >= HEADER_SIZE && answers.Length == MAX_ANSWERS
    requires ParseRecords(msg, pos, AnswerCount(msg)).Some?
    modifies answers
    ensures answers[..AnswerCount(msg)] == ParseRecords(msg, pos, AnswerCount(msg)).value
    ensures answers[AnswerCount(msg)..] == old(answers[AnswerCount(msg)..])
  {
    hide ParseRecord;
    var n := AnswerCount(msg);
    ghost var all := ParseRecords(msg, pos, n).value;
    ParseRecordsLength(msg, pos, n);
    var reader := pos;
    assert all[0..] == all;
    for i := 0 to n
      invariant ParseRecords(msg, reader, n - i) == Some(all[i..])
      invariant answers[..i] == all[..i]
      invariant answers[n..] == old(answers[n..])
    {
      ParseRecordsStep(msg, reader, n - i, all[i..]);
      var answer, next := ReadOneAnswer(msg, reader);
      PutAnswer(answers, i, answer);
      assert all[..i + 1] == all[..i] + [all[i]] && all[i..][1..] == all[i + 1..];
      reader := next;
    }
  }

  method PutAnswer(answers: array<Record>, i: nat, answer: Record)
    requires i < answers.Length
    modifies answers
    ensures answers[..i + 1] == old(answers[..i]) + [answer]
    ensures answers[i + 1..] == old(answers[i + 1..])
  {
    answers[i] := answer;
  }

  lemma ParseRecordsStep(msg: seq<byte>, pos: nat, n: nat, all: seq<Record>)
    requires n > 0 && ParseRecords(msg, pos, n) == Some(all)
    ensures ParseRecord(msg, pos).Some? && all != [] && ParseRecord(msg, pos).value.record == all[0]
    ensures ParseRecords(msg, ParseRecord(msg, pos).value.next, n - 1) == Some(all[1..])
  {
  }

  // ----- The serializer -----

  /** A name as it stands in a message: labels, then the zero octet or a pointer to an earlier name. */
  datatype WireName = WireName(labels: seq<seq<byte>>, pointer: Option<nat>)

  datatype Data = Address(octets: seq<byte>) | Target(name: WireName)

  datatype Resource = Resource(owner: WireName, rtype: nat, class_: nat, ttl: nat, data: Data)

  predicate FieldsInRange(r: Resource) {
    && r.rtype < 0x1_0000 && r.class_ < 0x1_0000 && r.ttl < 0x1_0000_0000
    && (r.data.Address? <==> r.rtype == TYPE_AAAA)
    && (r.owner.pointer.Some? ==> r.owner.pointer.value < 0x4000)
    && (r.data.Target? && r.data.name.pointer.Some? ==> r.data.name.pointer.value < 0x4000)
    && |DataOctets(r.data)| < 0x1_0000
  }

  function NameEnd(pointer: Option<nat>): seq<byte> {
    match pointer
    case None => [0]
    case Some(t) => [(POINTER_MARK + t / 256) % 256, t % 256]
  }

  /** A pointer takes two octets: two set bits and the offset, most significant first. */
  lemma PointerOctets(t: nat)
    requires t < 0x4000
    ensures |NameEnd(Some(t))| == 2 && 256 * NameEnd(Some(t))[0] as nat + NameEnd(Some(t))[1] as nat == 0xC000 + t
  {
  }

  function NameOctets(w: WireName): seq<byte> {
    Wire(w.labels) + NameEnd(w.pointer)
  }

  function DataOctets(d: Data): seq<byte> {
    match d
    case Address(octets) => octets
    case Target(name) => NameOctets(name)
  }

  function FixedOctets(r: Resource): (s: seq<byte>)
    requires FieldsInRange(r)
    ensures |s| == FIXED_SIZE
  {
    PutU16(r.rtype) + PutU16(r.class_) + PutU32(r.ttl) + PutU16(|DataOctets(r.data)|)
  }

  predicate AllInRange(rs: seq<Resource>) {
    rs == [] || (FieldsInRange(rs[0]) && AllInRange(rs[1..]))
  }

  function Serialize(r: Resource): seq<byte>
    requires FieldsInRange(r)
  {
    NameOctets(r.owner) + (FixedOctets(r) + DataOctets(r.data))
  }

  function SerializeAll(rs: seq<Resource>): seq<byte>
    requires AllInRange(rs)
  {
    if rs == [] then [] else Serialize(rs[0]) + SerializeAll(rs[1..])
  }

  /** Resources are serialized one behind the other, in order. */
  lemma {:induction false} SerializeConcat(a: seq<Resource>, b: seq<Resource>)
    requires AllInRange(a) && AllInRange(b)
    ensures AllInRange(a + b) && SerializeAll(a + b) == SerializeAll(a) + SerializeAll(b)
  {
    hide Serialize, FieldsInRange;
    if a == [] {
      assert a + b == b;
    } else {
      SerializeConcat(a[1..], b);
      assert (a + b)[1..] == a[1..] + b && (a + b)[0] == a[0];
      var first := Serialize(a[0]);
      assert first + (SerializeAll(a[1..]) + SerializeAll(b)) == (first + SerializeAll(a[1..])) + SerializeAll(b);
    }
  }

  // ----- What the serialized names mean inside a message -----

  /** The labels a pointer stands for. */
  function PointedLabels(msg: seq<byte>, pointer: Option<nat>): seq<seq<byte>> {
    match pointer
    case None => []
    case Some(t) => if Decode(msg, t, t).Some? then Decode(msg, t, t).value.labels else []
  }

  function AllLabels(msg: seq<byte>, w: WireName): seq<seq<byte>> {
    w.labels + PointedLabels(msg, w.pointer)
  }

  /**
   A name that may stand at `at`: clean labels, at least one of them, a pointer only to a name that
   starts earlier, and at most 255 octets (section 2.3.4 of RFC 1035) once it is expanded.
   */
  predicate NameFitsAt(msg: seq<byte>, at: nat, w: WireName) {
    && Clean(AllLabels(msg, w)) && AllLabels(msg, w) != []
    && match w.pointer
       case None => true
       case Some(t) => t < at && t < 0x4000 && Decode(msg, t, t).Some? && |Wire(AllLabels(msg, w))| + 1 <= 255
  }

  predicate ResourceFitsAt(msg: seq<byte>, at: nat, r: Resource) {
    && FieldsInRange(r)
    && NameFitsAt(msg, at, r.owner)
    && (r.data.Target? ==> NameFitsAt(msg, at + |NameOctets(r.owner)| + FIXED_SIZE, r.data.name))
  }

  predicate AllFitAt(msg: seq<byte>, at: nat, rs: seq<Resource>)
    decreases |rs|
  {
    rs == [] || (ResourceFitsAt(msg, at, rs[0]) && AllFitAt(msg, at + |Serialize(rs[0])|, rs[1..]))
  }

  function ReceivedData(msg: seq<byte>, d: Data): seq<byte> {
    match d
    case Address(octets) => octets
    case Target(name) => Join(AllLabels(msg, name))
  }

  /** The record the resolver should report for a serialized resource. */
  function Received(msg: seq<byte>, r: Resource): Record {
    Record(Join(AllLabels(msg, r.owner)), r.rtype, r.class_, r.ttl, |DataOctets(r.data)|, ReceivedData(msg, r.data))
  }

  function ReceivedAll(msg: seq<byte>, rs: seq<Resource>): seq<Record> {
    if rs == [] then [] else [Received(msg, rs[0])] + ReceivedAll(msg, rs[1..])
  }

  // ----- Reading inverts the serializer -----

  lemma NameEndDecodes(msg: seq<byte>, at: nat, segment: nat, pointer: Option<nat>) returns (d: Decoded)
    requires Holds(msg, at, NameEnd(pointer))
    requires pointer.Some? ==> pointer.value < segment && pointer.value < 0x4000
                               && Decode(msg, pointer.value, pointer.value).Some?
    ensures Decode(msg, at, segment) == Some(d)
    ensures d == Decoded(PointedLabels(msg, pointer), |NameEnd(pointer)|, pointer.Some?)
  {
    d := Decoded(PointedLabels(msg, pointer), |NameEnd(pointer)|, pointer.Some?);
    match pointer
    case None =>
      assert msg[at] == msg[at..at + 1][0] == 0;
    case Some(t) => PointerAt(msg, at, t);
  }

  lemma PointerAt(msg: seq<byte>, at: nat, t: nat)
    requires t < 0x4000 && Holds(msg, at, NameEnd(Some(t)))
    ensures at + 1 < |msg| && msg[at] >= POINTER_MARK && PointerTarget(msg, at) == t
  {
    var end := NameEnd(Some(t));
    assert msg[at] == msg[at..at + 2][0] == end[0];
    assert msg[at + 1] == msg[at..at + 2][1] == end[1];
  }

  lemma CleanParts(a: seq<seq<byte>>, b: seq<seq<byte>>)
    requires Clean(a + b)
    ensures Clean(a)
  {
    assert forall k :: 0 <= k < |a| ==> a[k] == (a + b)[k];
  }

  lemma NameDecodes(msg: seq<byte>, at: nat, w: WireName)
    requires Holds(msg, at, NameOctets(w)) && NameFitsAt(msg, at, w)
    ensures Decode(msg, at, at) == Some(Decoded(AllLabels(msg, w), |NameOctets(w)|, w.pointer.Some?))
  {
    hide Holds, Decode, Wire, PointedLabels, NameEnd;
    HoldsConcat(msg, at, Wire(w.labels), NameEnd(w.pointer));
    CleanParts(w.labels, PointedLabels(msg, w.pointer));
    var end := NameEndDecodes(msg, at + |Wire(w.labels)|, at, w.pointer);
    DecodeWire(msg, at, at, w.labels, end);
  }

  /** Within the buffer: uncompressed, or at most 255 octets once expanded. */
  lemma NameFitsBuffer(msg: seq<byte>, at: nat, w: WireName)
    requires NameFitsAt(msg, at, w)
    ensures Fits(|Wire(AllLabels(msg, w))|, |NameOctets(w)|, w.pointer.Some?)
  {
    if w.pointer.None? {
      assert AllLabels(msg, w) == w.labels;
    }
  }

  /** A serialized name reads back as its labels joined, and takes the octets that were written. */
  lemma NameReadsBack(msg: seq<byte>, at: nat, w: WireName)
    requires Holds(msg, at, NameOctets(w)) && NameFitsAt(msg, at, w)
    ensures NameAt(msg, at) == Some(Name(Join(AllLabels(msg, w)), |NameOctets(w)|))
  {
    NameDecodes(msg, at, w);
    NameFitsBuffer(msg, at, w);
    hide Decode, NameAt, Holds, AllLabels, NameOctets, Fits, Wire, Join, Clean;
    ReadNameExact(msg, at);
  }

  lemma FixedReadsBack(msg: seq<byte>, at: nat, r: Resource)
    requires FieldsInRange(r) && Holds(msg, at, FixedOctets(r))
    ensures U16At(msg, at) == r.rtype && U16At(msg, at + 2) == r.class_
    ensures U32At(msg, at + 4) == r.ttl && U16At(msg, at + 8) == |DataOctets(r.data)|
  {
    var f := FixedOctets(r);
    assert forall k :: 0 <= k < FIXED_SIZE ==> msg[at + k] == msg[at..at + FIXED_SIZE][k] == f[k];
    var a, b, c, d := PutU16(r.rtype), PutU16(r.class_), PutU32(r.ttl), PutU16(|DataOctets(r.data)|);
    assert f == a + b + c + d;
    assert f[0] == a[0] && f[1] == a[1] && f[2] == b[0] && f[3] == b[1];
    assert f[4] == c[0] && f[5] == c[1] && f[6] == c[2] && f[7] == c[3];
    assert f[8] == d[0] && f[9] == d[1];
  }

  lemma DataReadsBack(msg: seq<byte>, at: nat, rtype: nat, d: Data)
    requires Holds(msg, at, DataOctets(d)) && (d.Address? <==> rtype == TYPE_AAAA)
    requires d.Target? ==> NameFitsAt(msg, at, d.name)
    ensures ParseData(msg, at, rtype, |DataOctets(d)|) == Some(Field(ReceivedData(msg, d), at + |DataOctets(d)|))
  {
    if d.Target? {
      NameReadsBack(msg, at, d.name);
    }
  }

  /** One serialized resource comes back unchanged and leaves the cursor right behind it. */
  lemma RecordReadsBack(msg: seq<byte>, at: nat, r: Resource)
    requires FieldsInRange(r) && Holds(msg, at, Serialize(r)) && ResourceFitsAt(msg, at, r)
    ensures ParseRecord(msg, at) == Some(Parsed(Received(msg, r), at + |Serialize(r)|))
  {
    hide NameAt, ParseData, NameFitsAt, NameOctets, DataOctets, AllLabels, FixedOctets;
    var q := at + |NameOctets(r.owner)|;
    HoldsConcat(msg, at, NameOctets(r.owner), FixedOctets(r) + DataOctets(r.data));
    HoldsConcat(msg, q, FixedOctets(r), DataOctets(r.data));
    NameReadsBack(msg, at, r.owner);
    FixedReadsBack(msg, q, r);
    DataReadsBack(msg, q + FIXED_SIZE, r.rtype, r.data);
  }

  /**
   Reading inverts the serializer: of every list of resources whose data is an address or one name,
   compressed or not, any number from the front comes back unchanged and in order.
   */
  lemma {:induction false} RecordsReadBack(msg: seq<byte>, at: nat, rs: seq<Resource>, n: nat)
    requires AllInRange(rs) && AllFitAt(msg, at, rs)
    requires Holds(msg, at, SerializeAll(rs)) && n <= |rs|
    ensures ParseRecords(msg, at, n) == Some(ReceivedAll(msg, rs[..n]))
    decreases n
  {
    hide ParseRecord, Serialize, ResourceFitsAt, FieldsInRange, Received, Holds;
    if n > 0 {
      HoldsConcat(msg, at, Serialize(rs[0]), SerializeAll(rs[1..]));
      RecordReadsBack(msg, at, rs[0]);
      RecordsReadBack(msg, at + |Serialize(rs[0])|, rs[1..], n - 1);
      assert rs[..n][1..] == rs[1..][..n - 1];
    }
  }
}
