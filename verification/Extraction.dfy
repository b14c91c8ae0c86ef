/** The single-threaded `socket_gethostbyname`: from the reply to the caller's address table. */
module Extraction {
  import opened Bytes
  import opened DnsFormat
  import opened Answers
  import QueryEncoder

  const BUF_LEN: nat := 65536

  /** The caller's result structure: `size` addresses in the first rows of `v6_addr`. */
  class SocketIpInfo {
    var size: int
    const v6_addr: array2<byte>

    constructor ()
      ensures v6_addr.Length0 == MAX_ANSWERS && v6_addr.Length1 == ADDRESS_SIZE && fresh(v6_addr)
    {
      v6_addr := new byte[MAX_ANSWERS, ADDRESS_SIZE];
      size := 0;
    }

    function Row(k: nat): (r: seq<byte>)
      requires k < v6_addr.Length0
      reads v6_addr
      ensures |r| == v6_addr.Length1 && forall p :: 0 <= p < |r| ==> r[p] == v6_addr[k, p]
    {
      seq(v6_addr.Length1, p requires 0 <= p < v6_addr.Length1 reads v6_addr => v6_addr[k, p])
    }
  }

  /** AAAA data carries at least the 16 octets of section 2.2 of RFC 3596. */
  predicate AddressesWhole(rs: seq<Record>) {
    forall k :: 0 <= k < |rs| && rs[k].rtype == TYPE_AAAA ==> |rs[k].rdata| >= ADDRESS_SIZE
  }

  function FirstOctets(s: seq<byte>): seq<byte> {
    if |s| >= ADDRESS_SIZE then s[..ADDRESS_SIZE] else s
  }

  /** The addresses among the records, in order. */
  function Addresses(rs: seq<Record>): (a: seq<seq<byte>>)
    ensures |a| <= |rs|
  {
    if rs == [] then []
    else (if rs[0].rtype == TYPE_AAAA then [FirstOctets(rs[0].rdata)] else []) + Addresses(rs[1..])
  }

  lemma {:induction false} AddressesConcat(a: seq<Record>, b: seq<Record>)
    ensures Addresses(a + b) == Addresses(a) + Addresses(b)
  {
    if a == [] {
      assert a + b == b;
    } else {
      AddressesConcat(a[1..], b);
      assert (a + b)[1..] == a[1..] + b && (a + b)[0] == a[0];
      var first := if a[0].rtype == TYPE_AAAA then [FirstOctets(a[0].rdata)] else [];
      assert first + (Addresses(a[1..]) + Addresses(b)) == (first + Addresses(a[1..])) + Addresses(b);
    }
  }

  lemma AddressesStep(rs: seq<Record>, i: nat)
    requires i < |rs|
    ensures Addresses(rs[..i + 1])
            == Addresses(rs[..i]) + if rs[i].rtype == TYPE_AAAA then [FirstOctets(rs[i].rdata)] else []
  {
    assert rs[..i + 1] == rs[..i] + [rs[i]];
    AddressesConcat(rs[..i], [rs[i]]);
    assert [rs[i]][1..] == [];
  }

  /** An address stands behind the addresses of all earlier records, with the first 16 octets of its data. */
  lemma AddressesInOrder(rs: seq<Record>, i: nat)
    requires i < |rs| && rs[i].rtype == 28 && |rs[i].rdata| >= 16
    ensures var k := |Addresses(rs[..i])|;
            k < |Addresses(rs)| && Addresses(rs)[k] == rs[i].rdata[..16] && |Addresses(rs[..i + 1])| == k + 1
  {
    AddressesStep(rs, i);
    assert rs == rs[..i + 1] + rs[i + 1..];
    AddressesConcat(rs[..i + 1], rs[i + 1..]);
  }

  /** Copies one address into the row at `info.size`, octet by octet, and counts it. */
  method AppendAddress(info: SocketIpInfo, rdata: seq<byte>)
    requires info.v6_addr.Length0 == MAX_ANSWERS && info.v6_addr.Length1 == ADDRESS_SIZE
    requires 0 <= info.size < MAX_ANSWERS && |rdata| >= ADDRESS_SIZE
    modifies info, info.v6_addr
    ensures info.size == old(info.size) + 1
    ensures info.Row(old(info.size)) == rdata[..ADDRESS_SIZE]
    ensures forall k :: 0 <= k < MAX_ANSWERS && k != old(info.size) ==> info.Row(k) == old(info.Row(k))
  {
    for p := 0 to ADDRESS_SIZE
      invariant info.size == old(info.size)
      invariant forall m :: 0 <= m < p ==> info.v6_addr[info.size, m] == rdata[m]
      invariant forall k, m | 0 <= k < MAX_ANSWERS && 0 <= m < ADDRESS_SIZE && k != info.size ::
                  info.v6_addr[k, m] == old(info.v6_addr[k, m])
    {
      info.v6_addr[info.size, p] := rdata[p];
    }
    info.size := info.size + 1;
    assert info.Row(old(info.size)) == rdata[..ADDRESS_SIZE];
    forall k | 0 <= k < MAX_ANSWERS && k != old(info.size)
      ensures info.Row(k) == old(info.Row(k))
    {
    }
  }

  /** The filtering loop over the answer array. */
  method CollectAddresses(answers: array<Record>, n: nat, info: SocketIpInfo)
    requires n <= answers.Length <= MAX_ANSWERS && AddressesWhole(answers[..n])
    requires info.v6_addr.Length0 == MAX_ANSWERS && info.v6_addr.Length1 == ADDRESS_SIZE
    modifies info, info.v6_addr
    ensures info.size == |Addresses(answers[..n])|
    ensures forall k :: 0 <= k < info.size ==> info.Row(k) == Addresses(answers[..n])[k]
    ensures forall k :: info.size <= k < MAX_ANSWERS ==> info.Row(k) == old(info.Row(k))
  {
    ghost var rs := answers[..n];
    info.size := 0;
    for i := 0 to n
      invariant answers[..n] == rs
      invariant info.size == |Addresses(rs[..i])|
      invariant forall k :: 0 <= k < info.size ==> info.Row(k) == Addresses(rs[..i])[k]
      invariant forall k :: info.size <= k < MAX_ANSWERS ==> info.Row(k) == old(info.Row(k))
    {
      AddressesStep(rs, i);
      assert rs[i] == answers[i];
      if answers[i].rtype == TYPE_AAAA {
        AppendAddress(info, answers[i].rdata);
      }
    }
    assert rs[..n] == rs;
  }

  /**
   Builds the query from the caller's host buffer, reads the reply behind the echoed question and
   leaves exactly the addresses of the first min(20, ANCOUNT) answers, in order, in the table.
   `reply` is the receive buffer after the exchange with the server.
   */
  method SocketGetHostByName(host: array<byte>, pid: nat, reply: seq<byte>, info: SocketIpInfo) returns (ret: int)
    requires StrLen(host[..]) + 1 < host.Length
    requires HEADER_SIZE + |QueryEncoder.HostWire(CString(host[..]))| + QUESTION_SIZE <= BUF_LEN
    requires info.v6_addr.Length0 == MAX_ANSWERS && info.v6_addr.Length1 == ADDRESS_SIZE
    requires |reply| == BUF_LEN
    requires var pos := |QueryEncoder.QueryPacket(pid, CString(host[..]), TYPE_AAAA)|;
             && ParseRecords(reply, pos, AnswerCount(reply)).Some?
             && AddressesWhole(ParseRecords(reply, pos, AnswerCount(reply)).value)
    modifies host, info, info.v6_addr
    ensures var pos := |QueryEncoder.QueryPacket(pid, old(CString(host[..])), TYPE_AAAA)|;
            var found := Addresses(ParseRecords(reply, pos, AnswerCount(reply)).value);
            && info.size == |found| <= MAX_ANSWERS
            && (forall k :: 0 <= k < |found| ==> info.Row(k) == found[k])
            && ret == if found != [] then 0 else -1
  {
    hide QueryEncoder.QueryPacket, QueryEncoder.HostWire, ParseRecords, AnswerCount;
    var send := new byte[BUF_LEN](_ => 0);
    var pos := QueryEncoder.PrepareDnsQueryPacket(send, pid, host);
    assert |send[..pos]| == pos;
    var blank := Record([], 0, 0, 0, 0, []);
    var answers := new Record[MAX_ANSWERS](_ => blank);
    ReadRecvAnswer(reply, pos, answers);
    ParseRecordsLength(reply, pos, AnswerCount(reply));
    CollectAddresses(answers, AnswerCount(reply), info);
    ret := -1;
    if 0 < info.size {
      ret := 0;
    }
  }

  /** The send buffer of 65536 octets takes every host of up to 65518 octets. */
  lemma QueryFits(host: seq<byte>)
    ensures HEADER_SIZE + |QueryEncoder.HostWire(host)| + QUESTION_SIZE <= BUF_LEN <==> |host| <= 65518
  {
    QueryEncoder.HostAfterLength(host, 0);
  }

  /** The addresses among serialized resources, in order. */
  function SentAddresses(rs: seq<Resource>): (a: seq<seq<byte>>)
    ensures |a| <= |rs|
  {
    if rs == [] then []
    else (match rs[0].data
          case Address(octets) => [FirstOctets(octets)]
          case Target(_) => []) + SentAddresses(rs[1..])
  }

  /** The answers that are read: as many as the answer array holds. */
  function FirstAnswers(rs: seq<Resource>): (first: seq<Resource>)
    ensures |first| <= MAX_ANSWERS
  {
    if MAX_ANSWERS < |rs| then rs[..MAX_ANSWERS] else rs
  }

  lemma {:induction false} SentConcat(a: seq<Resource>, b: seq<Resource>)
    ensures SentAddresses(a + b) == SentAddresses(a) + SentAddresses(b)
  {
    if a == [] {
      assert a + b == b;
    } else {
      SentConcat(a[1..], b);
      assert (a + b)[1..] == a[1..] + b && (a + b)[0] == a[0];
      var first := match a[0].data { case Address(octets) => [FirstOctets(octets)] case Target(_) => [] };
      assert first + (SentAddresses(a[1..]) + SentAddresses(b)) == (first + SentAddresses(a[1..])) + SentAddresses(b);
    }
  }

  predicate SentWhole(rs: seq<Resource>) {
    forall k :: 0 <= k < |rs| && rs[k].data.Address? ==> |rs[k].data.octets| >= ADDRESS_SIZE
  }

  lemma {:induction false} ReceivedAddresses(msg: seq<byte>, rs: seq<Resource>, n: nat)
    requires AllInRange(rs) && SentWhole(rs) && n <= |rs|
    ensures Addresses(ReceivedAll(msg, rs[..n])) == SentAddresses(rs[..n])
    ensures AddressesWhole(ReceivedAll(msg, rs[..n]))
    decreases n
  {
    if n > 0 {
      ReceivedAddresses(msg, rs[1..], n - 1);
      assert rs[..n][1..] == rs[1..][..n - 1];
      var first, rest := Received(msg, rs[0]), ReceivedAll(msg, rs[1..][..n - 1]);
      assert ReceivedAll(msg, rs[..n]) == [first] + rest;
      assert ([first] + rest)[1..] == rest;
      WholeCons(first, rest);
    }
  }

  lemma WholeCons(first: Record, rest: seq<Record>)
    requires AddressesWhole(rest) && (first.rtype == TYPE_AAAA ==> |first.rdata| >= ADDRESS_SIZE)
    ensures AddressesWhole([first] + rest)
  {
  }

  /**
   Whatever aliases and pointers stand between them, the addresses among the answers that are read, of
   all those a server serialized, are the addresses found.
   */
  lemma SentAddressesReported(reply: seq<byte>, at: nat, rs: seq<Resource>)
    requires |reply| >= HEADER_SIZE && U16At(reply, 6) == |rs|
    requires AllInRange(rs) && AllFitAt(reply, at, rs) && Holds(reply, at, SerializeAll(rs)) && SentWhole(rs)
    ensures ParseRecords(reply, at, AnswerCount(reply)).Some?
    ensures AddressesWhole(ParseRecords(reply, at, AnswerCount(reply)).value)
    ensures Addresses(ParseRecords(reply, at, AnswerCount(reply)).value)
            == SentAddresses(FirstAnswers(rs))
  {
    assert rs[..AnswerCount(reply)] == FirstAnswers(rs);
    hide ParseRecords, AllFitAt, SerializeAll, Serialize, Holds;
    RecordsReadBack(reply, at, rs, AnswerCount(reply));
    ReceivedAddresses(reply, rs, AnswerCount(reply));
  }

  /**
   From the server to the caller: for a reply that echoes the question and goes on with the answers
   `rs`, of any number, the table holds the addresses among the first 20 of them, in order.
   */
  method ResolveAnswers(host: array<byte>, pid: nat, reply: seq<byte>, info: SocketIpInfo, ghost rs: seq<Resource>)
    returns (ret: int)
    requires StrLen(host[..]) + 1 < host.Length
    requires HEADER_SIZE + |QueryEncoder.HostWire(CString(host[..]))| + QUESTION_SIZE <= BUF_LEN
    requires info.v6_addr.Length0 == MAX_ANSWERS && info.v6_addr.Length1 == ADDRESS_SIZE
    requires |reply| == BUF_LEN && U16At(reply, 6) == |rs| && AllInRange(rs) && SentWhole(rs)
    requires var pos := |QueryEncoder.QueryPacket(pid, CString(host[..]), TYPE_AAAA)|;
             AllFitAt(reply, pos, rs) && Holds(reply, pos, SerializeAll(rs))
    modifies host, info, info.v6_addr
    ensures var sent := SentAddresses(FirstAnswers(rs));
            && info.size == |sent|
            && (forall k :: 0 <= k < |sent| ==> info.Row(k) == sent[k])
            && ret == if sent != [] then 0 else -1
  {
    hide QueryEncoder.QueryPacket, QueryEncoder.HostWire, ParseRecords, AnswerCount, AllFitAt, SerializeAll, Holds;
    SentAddressesReported(reply, |QueryEncoder.QueryPacket(pid, CString(host[..]), TYPE_AAAA)|, rs);
    ret := SocketGetHostByName(host, pid, reply, info);
  }
}
