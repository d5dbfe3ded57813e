/**
 * `dns_response`: answer a parsed query from the zone table, or hand the raw
 * query bytes to the upstream forwarder and relay what it returns.
 *
 * The wire codec, the upstream socket and the reply serialiser are not part
 * of this model: they are parameters.  `parse` and `pack` return None where
 * the library raises; `forward` returns None where forwarding fails.
 */
module Resolver {
  import opened Wrappers
  import opened Bytes
  import opened Zone

  /** The question section, echoed unchanged into the reply.  qtype is the query type's name ("A", "*", ...). */
  datatype Question = Question(qname: string, qtype: string, qclass: nat)

  /** A parsed request. */
  datatype Query = Query(id: nat, question: Question)

  datatype Header = Header(id: nat, qr: bool, aa: bool, ra: bool)

  /** A reply: header, echoed question, and the answer, authority and additional sections. */
  datatype Reply = Reply(header: Header, question: Question, answers: seq<RR>, authority: seq<RR>, additional: seq<RR>)

  /** Whether the query is answered from the zone or forwarded upstream. */
  datatype Decision = Answered(reply: Reply) | Forwarded

  /** The additional-section records for the apex NS rdatas: owner the apex, type NS. */
  function ApexNsRecords(nss: seq<RData>): (r: seq<RR>)
    ensures |r| == |nss|
    ensures forall k :: 0 <= k < |r| ==> r[k] == RR(Apex, NS, ClassIN, Ttl, nss[k])
  {
    if nss == [] then []
    else ApexNsRecords(nss[..|nss| - 1]) + [RR(Apex, NS, ClassIN, Ttl, nss[|nss| - 1])]
  }

  /**
   * The reply the zone builds for a query, whether or not it is then sent: it
   * echoes id and question, and has authority and additional records exactly
   * for an in-zone name.
   */
  function ZoneReply(q: Query): (r: Reply)
    ensures r.header.id == q.id && r.question == q.question
    ensures InZone(q.question.qname) <==> r.authority != []
    ensures InZone(q.question.qname) <==> r.additional != []
    ensures !InZone(q.question.qname) ==> r.answers == []
  {
    var qname := q.question.qname;
    var inZone := InZone(qname);
    Reply(Header(q.id, true, true, true), q.question,
          if inZone then TableAnswers(Records, qname, q.question.qtype) else [],
          if inZone then [RR(Apex, SOA, ClassIN, Ttl, SoaRecord)] else [],
          if inZone then ApexNsRecords(NsRecords) else [])
  }

  /** The reply is used only when it holds at least one answer, so only in-zone names are answered. */
  function Decide(q: Query): (d: Decision)
    ensures d.Answered? ==> InZone(q.question.qname) && d.reply.answers != [] && d.reply.header.aa
  {
    var reply := ZoneReply(q);
    if reply.answers != [] then Answered(reply) else Forwarded
  }

  lemma AppendAssociative<T>(a: seq<T>, b: seq<T>, c: seq<T>)
    ensures a + b + c == a + (b + c)
  {
  }

  /** Two replies that differ at most in their answer sections. */
  predicate SameButAnswers(r: Reply, r0: Reply) {
    r.header == r0.header && r.question == r0.question
    && r.authority == r0.authority && r.additional == r0.additional
  }

  /**
   * The inner loop of the dictionary walk: add an answer for each rdata of one
   * entry that the type filter admits, in order, and note whether one was added.
   */
  method AddEntryAnswers(reply0: Reply, rdatas: seq<RData>, qname: string, qtype: string)
    returns (reply: Reply, added: bool)
    ensures SameButAnswers(reply, reply0)
    ensures reply.answers == reply0.answers + EntryAnswers(rdatas, qname, qtype)
    ensures added <==> EntryAnswers(rdatas, qname, qtype) != []
  {
    reply, added := reply0, false;
    var j := 0;
    while j < |rdatas|
      invariant 0 <= j <= |rdatas|
      invariant SameButAnswers(reply, reply0)
      invariant reply.answers == reply0.answers + EntryAnswers(rdatas[..j], qname, qtype)
      invariant added <==> EntryAnswers(rdatas[..j], qname, qtype) != []
    {
      var rdata := rdatas[j];
      assert rdatas[..j + 1][..j] == rdatas[..j];
      if TypeMatches(qtype, rdata) {
        reply := reply.(answers := reply.answers + [RR(qname, rdata.Type(), ClassIN, Ttl, rdata)]);
        added := true;
      }
      j := j + 1;
    }
    assert rdatas[..j] == rdatas;
  }

  /**
   * The dictionary walk of `dns_response`: for every entry named qname, add its
   * admitted rdatas as answers, and set the resolved flag when one is added.
   */
  method AddAnswers(reply0: Reply, table: seq<Entry>, qname: string, qtype: string)
    returns (reply: Reply, resolved: bool)
    ensures SameButAnswers(reply, reply0)
    ensures reply.answers == reply0.answers + TableAnswers(table, qname, qtype)
    ensures resolved <==> TableAnswers(table, qname, qtype) != []
  {
    reply, resolved := reply0, false;
    var i := 0;
    while i < |table|
      invariant 0 <= i <= |table|
      invariant SameButAnswers(reply, reply0)
      invariant reply.answers == reply0.answers + TableAnswers(table[..i], qname, qtype)
      invariant resolved <==> TableAnswers(table[..i], qname, qtype) != []
    {
      var entry := table[i];
      assert table[..i + 1][..i] == table[..i];
      if entry.name == qname {
        var added;
        reply, added := AddEntryAnswers(reply, entry.rdatas, qname, qtype);
        resolved := resolved || added;
        AppendAssociative(reply0.answers, TableAnswers(table[..i], qname, qtype), EntryAnswers(entry.rdatas, qname, qtype));
      }
      i := i + 1;
    }
    assert table[..i] == table;
  }

  /**
   * Lines 78-102 of `dns_response`: build the reply header and question; for
   * an in-zone name collect the answers, then add the apex NS records to the
   * additional section and the apex SOA record to the authority section.
   */
  method BuildReply(request: Query) returns (reply: Reply, resolved: bool)
    ensures reply == ZoneReply(request)
    ensures resolved <==> reply.answers != []
  {
    reply := Reply(Header(request.id, true, true, true), request.question, [], [], []);
    var qname := request.question.qname;
    var qtype := request.question.qtype;
    resolved := false;
    if qname == Apex || EndsWith(qname, "." + Apex) {
      reply, resolved := AddAnswers(reply, Records, qname, qtype);
      assert reply.answers == TableAnswers(Records, qname, qtype);
      var k := 0;
      while k < |NsRecords|
        invariant 0 <= k <= |NsRecords|
        invariant reply.additional == ApexNsRecords(NsRecords[..k])
        invariant reply.authority == []
        invariant reply.header == Header(request.id, true, true, true) && reply.question == request.question
        invariant reply.answers == TableAnswers(Records, qname, qtype)
      {
        assert NsRecords[..k + 1][..k] == NsRecords[..k];
        reply := reply.(additional := reply.additional + [RR(Apex, NS, ClassIN, Ttl, NsRecords[k])]);
        k := k + 1;
      }
      assert NsRecords[..k] == NsRecords;
      reply := reply.(authority := reply.authority + [RR(Apex, SOA, ClassIN, Ttl, SoaRecord)]);
    }
  }

  /**
   * What `dns_response` returns for the raw request bytes `data`: nothing for
   * a request that does not parse, and the forwarder's result, unchanged, for
   * any out-of-zone name.
   */
  function Respond(data: seq<byte>,
                   parse: seq<byte> -> Option<Query>,
                   forward: seq<byte> -> Option<seq<byte>>,
                   pack: Reply -> Option<seq<byte>>): (r: Option<seq<byte>>)
    ensures r.Some? ==> parse(data).Some?
    ensures parse(data).Some? && !InZone(parse(data).value.question.qname) ==> r == forward(data)
  {
    match parse(data)
    case None => None
    case Some(q) =>
      match Decide(q)
      case Forwarded => forward(data)
      case Answered(reply) => pack(reply)
  }

  /** `dns_response`. */
  method DnsResponse(data: seq<byte>,
                     parse: seq<byte> -> Option<Query>,
                     forward: seq<byte> -> Option<seq<byte>>,
                     pack: Reply -> Option<seq<byte>>)
    returns (response: Option<seq<byte>>)
    ensures response == Respond(data, parse, forward, pack)
  {
    var request := parse(data);
    if request.None? {
      return None;
    }
    var reply, resolved := BuildReply(request.value);
    if !resolved {
      return forward(data);
    }
    return pack(reply);
  }

  // ---------------------------------------------------------------------------
  // Properties of the decision

  /**
   * A query is forwarded iff its name is out of the zone, or the table gives
   * that name no record the query type admits.
   */
  lemma ForwardedIff(q: Query)
    ensures Decide(q) == Forwarded <==>
              !InZone(q.question.qname)
              || !(exists rd :: Owns(Records, q.question.qname, rd) && TypeMatches(q.question.qtype, rd))
  {
    var qname, qtype := q.question.qname, q.question.qtype;
    if InZone(qname) {
      var r := TableAnswers(Records, qname, qtype);
      if r != [] {
        TableAnswersIff(Records, qname, qtype, r[0]);
      }
      if rd :| Owns(Records, qname, rd) && TypeMatches(qtype, rd) {
        TableAnswersIff(Records, qname, qtype, Answer(qname, rd));
      }
    }
  }

  /**
   * An answered query gets a reply that echoes its id and question with
   * qr = aa = ra = 1, holds at least one answer, every answer owned by qname
   * with its record's own type, class IN and TTL 300, and carries the apex SOA
   * in authority and the two apex NS records in additional.
   */
  lemma AnsweredReply(q: Query)
    requires Decide(q).Answered?
    ensures var r := Decide(q).reply;
            && r.header == Header(q.id, true, true, true)
            && r.question == q.question
            && |r.answers| >= 1
            && (forall rr :: rr in r.answers ==> IsAnswerFor(rr, q.question.qname, q.question.qtype))
            && r.authority == [RR("example.com.", SOA, 1, 300, SOAData("ns1.example.com.", "admin.example.com.", 2025010101, 3600, 10800, 86400, 3600))]
            && r.additional == [RR("example.com.", NS, 1, 300, NSData("ns1.example.com.")),
                                RR("example.com.", NS, 1, 300, NSData("ns2.example.com."))]
  {
    TableAnswersShape(Records, q.question.qname, q.question.qtype);
    var nss := ApexNsRecords(NsRecords);
    assert nss == [nss[0], nss[1]];
  }

  /** The apex NS and SOA records are added for every in-zone name, however many answers matched. */
  lemma InZoneSections(q: Query)
    requires InZone(q.question.qname)
    ensures |ZoneReply(q).additional| == 2 && |ZoneReply(q).authority| == 1
    ensures forall rr :: rr in ZoneReply(q).additional ==> rr.rname == Apex && rr.rtype == NS
    ensures ZoneReply(q).authority[0].rname == Apex && ZoneReply(q).authority[0].rtype == SOA
  {
  }

  /** An out-of-zone name is never answered from the zone. */
  lemma OutOfZoneForwarded(q: Query)
    requires !InZone(q.question.qname)
    ensures Decide(q) == Forwarded
  {
  }

  /** Query (id 1, example.com., A): answered with A 127.0.0.1, the apex SOA and both NS records. */
  lemma ApexAExample()
    ensures var q := Query(1, Question("example.com.", "A", 1));
            Decide(q) == Answered(Reply(Header(1, true, true, true), q.question,
                                        [RR("example.com.", A, 1, 300, AData([127, 0, 0, 1]))],
                                        [RR("example.com.", SOA, 1, 300, SoaRecord)],
                                        [RR("example.com.", NS, 1, 300, NSData("ns1.example.com.")),
                                         RR("example.com.", NS, 1, 300, NSData("ns2.example.com."))]))
  {
    HostAAnswers(Apex);
    var nss := ApexNsRecords(NsRecords);
    assert nss == [nss[0], nss[1]];
  }

  /** `admin.example.com.` is in the zone but holds no A record: an A query for it is forwarded. */
  lemma AdminAForwarded(id: nat, qclass: nat)
    ensures Decide(Query(id, Question(Admin, "A", qclass))) == Forwarded
  {
    AdminOnlyCname();
  }

  /**
   * A query type other than `*` and the six record class names (`ANY`, `TXT`,
   * ...) matches no record, so even an in-zone query of that type is forwarded.
   */
  lemma UnknownTypeForwarded(q: Query)
    requires !IsTypeName(q.question.qtype)
    ensures Decide(q) == Forwarded
  {
  }

  /** An ANY query for the apex is forwarded: `ANY` is not the name the filter tests for. */
  lemma ApexAnyNameForwarded(id: nat, qclass: nat)
    ensures Decide(Query(id, Question(Apex, "ANY", qclass))) == Forwarded
  {
    UnknownTypeForwarded(Query(id, Question(Apex, "ANY", qclass)));
  }

  // ---------------------------------------------------------------------------
  // Properties of the response

  /**
   * A forwarded query sends the original raw bytes upstream and returns the
   * forwarder's result unchanged; an answered one returns the packed zone
   * reply; and the result is None exactly when parsing, forwarding or packing
   * failed.
   */
  lemma RespondCases(data: seq<byte>, parse: seq<byte> -> Option<Query>,
                     forward: seq<byte> -> Option<seq<byte>>, pack: Reply -> Option<seq<byte>>)
    ensures parse(data).Some? && Decide(parse(data).value) == Forwarded ==>
              Respond(data, parse, forward, pack) == forward(data)
    ensures parse(data).Some? && Decide(parse(data).value).Answered? ==>
              Respond(data, parse, forward, pack) == pack(Decide(parse(data).value).reply)
    ensures Respond(data, parse, forward, pack).None? <==>
              || parse(data).None?
              || (Decide(parse(data).value) == Forwarded && forward(data).None?)
              || (Decide(parse(data).value).Answered? && pack(Decide(parse(data).value).reply).None?)
  {
  }
}
