/**
 * The fixed authoritative zone for `example.com.`: the record table, the apex
 * SOA and NS records, the in-zone test and the per-record type filter that
 * select the answers to a query.
 */
module Zone {
  import opened Bytes

  /** The record types the table holds.  Name() is both the rdata class name and the query type name. */
  datatype RType = A | AAAA | MX | SOA | NS | CNAME {
    function Name(): string {
      match this
      case A => "A"
      case AAAA => "AAAA"
      case MX => "MX"
      case SOA => "SOA"
      case NS => "NS"
      case CNAME => "CNAME"
    }
  }

  /** Record data, one constructor per rdata class the table uses. */
  datatype RData =
    | AData(address: seq<byte>)
    | AAAAData(address: seq<byte>)
    | MXData(exchange: string)
    | SOAData(mname: string, rname: string, serial: nat, refresh: nat, retry: nat, expire: nat, minimum: nat)
    | NSData(host: string)
    | CNAMEData(target: string)
  {
    function Type(): RType {
      match this
      case AData(_) => A
      case AAAAData(_) => AAAA
      case MXData(_) => MX
      case SOAData(_, _, _, _, _, _, _) => SOA
      case NSData(_) => NS
      case CNAMEData(_) => CNAME
    }
  }

  /** A resource record as placed in a reply section. */
  datatype RR = RR(rname: string, rtype: RType, rclass: nat, ttl: nat, rdata: RData)

  /** One item of the records dictionary: an owner name and its rdata list. */
  datatype Entry = Entry(name: string, rdatas: seq<RData>)

  const Apex: string := "example.com."
  const Ns1: string := "ns1.example.com."
  const Ns2: string := "ns2.example.com."
  const Mail: string := "mail.example.com."
  const Admin: string := "admin.example.com."

  const Ttl: nat := 300
  const ClassIN: nat := 1
  const IpAddress: seq<byte> := [127, 0, 0, 1]
  const Ipv6Unspecified: seq<byte> := [0, 0, 0, 0, 0, 0, 0, 0, 0, 0, 0, 0, 0, 0, 0, 0]

  const SoaRecord: RData := SOAData(Ns1, Admin, 2025010101, 3600, 10800, 86400, 3600)
  const NsRecords: seq<RData> := [NSData(Ns1), NSData(Ns2)]

  /** The apex's own records, in list order. */
  const ApexRecords: seq<RData> := [AData(IpAddress), AAAAData(Ipv6Unspecified), MXData(Mail), SoaRecord] + NsRecords

  /** The records dictionary, in its insertion (= iteration) order. */
  const Records: seq<Entry> := [
    Entry(Apex, ApexRecords),
    Entry(Ns1, [AData(IpAddress)]),
    Entry(Ns2, [AData(IpAddress)]),
    Entry(Mail, [AData(IpAddress)]),
    Entry(Admin, [CNAMEData(Apex)])
  ]

  // ---------------------------------------------------------------------------
  // The in-zone test

  /** `str.endswith`. */
  predicate EndsWith(s: string, suffix: string) {
    |suffix| <= |s| && s[|s| - |suffix|..] == suffix
  }

  /** `qname == D or qname.endswith('.' + D)`: exact, case-sensitive string comparison. */
  predicate InZone(qname: string)
    ensures InZone(qname) ==> EndsWith(qname, Apex)
  {
    qname == Apex || EndsWith(qname, "." + Apex)
  }

  lemma EndsWithIff(s: string, suffix: string)
    ensures EndsWith(s, suffix) <==> exists p :: s == p + suffix
  {
    if EndsWith(s, suffix) {
      assert s == s[..|s| - |suffix|] + suffix;
    }
  }

  /** A name is in the zone iff it is the apex or some string followed by `.example.com.`. */
  lemma InZoneIff(qname: string)
    ensures InZone(qname) <==> qname == Apex || exists p :: qname == p + ("." + Apex)
  {
    EndsWithIff(qname, "." + Apex);
  }

  /** Names under the apex are in the zone. */
  lemma InZoneExamples()
    ensures InZone("www.example.com.")
    ensures InZone(Ns1) && InZone(Admin)
  {
    assert "www.example.com." == "www" + ("." + Apex);
    assert Ns1 == "ns1" + ("." + Apex);
    assert Admin == "admin" + ("." + Apex);
  }

  /** The test is on whole labels at the boundary and is case-sensitive. */
  lemma OutOfZoneExamples()
    ensures !InZone("fooexample.com.")
    ensures !InZone("EXAMPLE.COM.")
    ensures !InZone("example.com")
    ensures !InZone("nonexistent.org.")
  {
    assert "fooexample.com."[3] != ("." + Apex)[0];
    assert "EXAMPLE.COM."[0] != Apex[0];
    assert "EXAMPLE.COM."[4] != ("." + Apex)[1];
    assert "nonexistent.org."[3] != ("." + Apex)[0];
  }

  // ---------------------------------------------------------------------------
  // Answer selection

  /** The query type names the filter can admit: `*` and the six record class names. */
  predicate IsTypeName(qtype: string) {
    qtype in {"*", "A", "AAAA", "MX", "SOA", "NS", "CNAME"}
  }

  /** `qtype in ['*', rdata.__class__.__name__]`.  Any other name (`ANY`, `TXT`, ...) admits nothing. */
  predicate TypeMatches(qtype: string, rd: RData)
    ensures TypeMatches(qtype, rd) ==> IsTypeName(qtype)
  {
    qtype == "*" || qtype == rd.Type().Name()
  }

  /** The answer record built for one matching rdata: a well-formed answer both to `*` and to its own type. */
  function Answer(qname: string, rd: RData): (rr: RR)
    ensures IsAnswerFor(rr, qname, "*") && IsAnswerFor(rr, qname, rd.Type().Name())
  {
    RR(qname, rd.Type(), ClassIN, Ttl, rd)
  }

  /** What every answer record looks like: owner qname, its rdata's own type, class IN, TTL 300. */
  predicate IsAnswerFor(rr: RR, qname: string, qtype: string) {
    && rr.rname == qname
    && rr.rtype == rr.rdata.Type()
    && rr.rclass == ClassIN
    && rr.ttl == Ttl
    && TypeMatches(qtype, rr.rdata)
  }

  /** The answers one owner's rdata list contributes, in list order. */
  function EntryAnswers(rdatas: seq<RData>, qname: string, qtype: string): (r: seq<RR>)
    ensures |r| <= |rdatas|
    ensures !IsTypeName(qtype) ==> r == []
  {
    if rdatas == [] then []
    else
      var init := EntryAnswers(rdatas[..|rdatas| - 1], qname, qtype);
      var last := rdatas[|rdatas| - 1];
      if TypeMatches(qtype, last) then init + [Answer(qname, last)] else init
  }

  /** The answers the whole table contributes: every entry whose name equals qname, in table order. */
  function TableAnswers(table: seq<Entry>, qname: string, qtype: string): (r: seq<RR>)
    ensures !IsTypeName(qtype) ==> r == []
  {
    if table == [] then []
    else
      var last := table[|table| - 1];
      TableAnswers(table[..|table| - 1], qname, qtype)
        + (if last.name == qname then EntryAnswers(last.rdatas, qname, qtype) else [])
  }

  /** The table gives `name` the record `rd`. */
  ghost predicate Owns(table: seq<Entry>, name: string, rd: RData) {
    exists i :: 0 <= i < |table| && table[i].name == name && rd in table[i].rdatas
  }

  /** No two entries share a name, as in a dictionary. */
  ghost predicate DistinctNames(table: seq<Entry>) {
    forall i, j :: 0 <= i < j < |table| ==> table[i].name != table[j].name
  }

  /** The rdata list the table holds for `name`, empty for a name it does not hold. */
  function Lookup(table: seq<Entry>, name: string): seq<RData> {
    if table == [] then []
    else if table[|table| - 1].name == name then table[|table| - 1].rdatas
    else Lookup(table[..|table| - 1], name)
  }

  lemma {:induction false} EntryAnswersIff(rdatas: seq<RData>, qname: string, qtype: string, rr: RR)
    ensures rr in EntryAnswers(rdatas, qname, qtype) <==>
              rr.rdata in rdatas && TypeMatches(qtype, rr.rdata) && rr == Answer(qname, rr.rdata)
  {
    if rdatas != [] {
      var init := rdatas[..|rdatas| - 1];
      EntryAnswersIff(init, qname, qtype, rr);
      assert rdatas == init + [rdatas[|rdatas| - 1]];
    }
  }

  /** Answers come out in the order of the rdata list: earlier records first. */
  lemma {:induction false} EntryAnswersAppend(a: seq<RData>, b: seq<RData>, qname: string, qtype: string)
    ensures EntryAnswers(a + b, qname, qtype) == EntryAnswers(a, qname, qtype) + EntryAnswers(b, qname, qtype)
  {
    if b == [] {
      assert a + b == a;
    } else {
      var b' := b[..|b| - 1];
      assert (a + b)[..|a + b| - 1] == a + b';
      EntryAnswersAppend(a, b', qname, qtype);
    }
  }

  /** Query type `*` takes every record of the list, in order. */
  lemma {:induction false} EntryAnswersAny(rdatas: seq<RData>, qname: string)
    ensures |EntryAnswers(rdatas, qname, "*")| == |rdatas|
    ensures forall k :: 0 <= k < |rdatas| ==> EntryAnswers(rdatas, qname, "*")[k] == Answer(qname, rdatas[k])
  {
    if rdatas != [] {
      var init := rdatas[..|rdatas| - 1];
      EntryAnswersAny(init, qname);
      var r := EntryAnswers(rdatas, qname, "*");
      assert r == EntryAnswers(init, qname, "*") + [Answer(qname, rdatas[|rdatas| - 1])];
      forall k | 0 <= k < |rdatas|
        ensures r[k] == Answer(qname, rdatas[k])
      {
        if k < |init| {
          assert init[k] == rdatas[k];
        }
      }
    }
  }

  /** A list holding no record of the queried type contributes no answers. */
  lemma {:induction false} EntryAnswersNone(rdatas: seq<RData>, qname: string, qtype: string)
    requires forall k :: 0 <= k < |rdatas| ==> !TypeMatches(qtype, rdatas[k])
    ensures EntryAnswers(rdatas, qname, qtype) == []
  {
    if rdatas != [] {
      EntryAnswersNone(rdatas[..|rdatas| - 1], qname, qtype);
    }
  }

  /** An answer is emitted iff the table gives qname that record and the type filter admits it. */
  lemma {:induction false} TableAnswersIff(table: seq<Entry>, qname: string, qtype: string, rr: RR)
    ensures rr in TableAnswers(table, qname, qtype) <==>
              Owns(table, qname, rr.rdata) && TypeMatches(qtype, rr.rdata) && rr == Answer(qname, rr.rdata)
  {
    if table != [] {
      var init := table[..|table| - 1];
      var last := table[|table| - 1];
      TableAnswersIff(init, qname, qtype, rr);
      EntryAnswersIff(last.rdatas, qname, qtype, rr);
      if Owns(table, qname, rr.rdata) {
        var i :| 0 <= i < |table| && table[i].name == qname && rr.rdata in table[i].rdatas;
        if i < |init| {
          assert init[i] == table[i];
        }
      }
      if Owns(init, qname, rr.rdata) {
        var i :| 0 <= i < |init| && init[i].name == qname && rr.rdata in init[i].rdatas;
        assert table[i] == init[i];
      }
    }
  }

  /** Every answer is owned by qname, has its record's own type, class IN and TTL 300, and passes the filter. */
  lemma TableAnswersShape(table: seq<Entry>, qname: string, qtype: string)
    ensures forall rr :: rr in TableAnswers(table, qname, qtype) ==> IsAnswerFor(rr, qname, qtype)
  {
    forall rr | rr in TableAnswers(table, qname, qtype)
      ensures IsAnswerFor(rr, qname, qtype)
    {
      TableAnswersIff(table, qname, qtype, rr);
    }
  }

  /** A name the table does not hold gets no answers. */
  lemma {:induction false} TableAnswersAbsent(table: seq<Entry>, qname: string, qtype: string)
    requires forall i :: 0 <= i < |table| ==> table[i].name != qname
    ensures TableAnswers(table, qname, qtype) == []
  {
    if table != [] {
      TableAnswersAbsent(table[..|table| - 1], qname, qtype);
    }
  }

  /** With distinct names, the answers are exactly those of qname's own rdata list, in its order. */
  lemma {:induction false} TableAnswersLookup(table: seq<Entry>, qname: string, qtype: string)
    requires DistinctNames(table)
    ensures TableAnswers(table, qname, qtype) == EntryAnswers(Lookup(table, qname), qname, qtype)
  {
    if table != [] {
      var init := table[..|table| - 1];
      if table[|table| - 1].name == qname {
        TableAnswersAbsent(init, qname, qtype);
      } else {
        TableAnswersLookup(init, qname, qtype);
      }
    }
  }

  // ---------------------------------------------------------------------------
  // The zone's contents

  lemma RecordsDistinct()
    ensures DistinctNames(Records)
  {
  }

  /** The name lookups the zone answers from. */
  lemma ZoneLookups()
    ensures Lookup(Records, Apex) == ApexRecords
    ensures ApexRecords == [AData([127, 0, 0, 1]), AAAAData([0, 0, 0, 0, 0, 0, 0, 0, 0, 0, 0, 0, 0, 0, 0, 0]),
                            MXData("mail.example.com."),
                            SOAData("ns1.example.com.", "admin.example.com.", 2025010101, 3600, 10800, 86400, 3600),
                            NSData("ns1.example.com."), NSData("ns2.example.com.")]
    ensures Lookup(Records, Ns1) == [AData(IpAddress)]
    ensures Lookup(Records, Ns2) == [AData(IpAddress)]
    ensures Lookup(Records, Mail) == [AData(IpAddress)]
    ensures Lookup(Records, Admin) == [CNAMEData(Apex)]
  {
    assert Apex != Ns1 && Apex != Ns2 && Apex != Mail && Apex != Admin;
    assert Ns1[2] != Ns2[2] && Ns1 != Mail && Ns1 != Admin;
    assert Ns2 != Mail && Ns2 != Admin && Mail != Admin;
    var t5 := Records;
    var t4, t3, t2, t1 := t5[..4], t5[..3], t5[..2], t5[..1];
    assert t4[..3] == t3 && t3[..2] == t2 && t2[..1] == t1 && t1[..0] == [];
    assert Lookup(t5, Admin) == [CNAMEData(Apex)];
    assert Lookup(t4, Mail) == [AData(IpAddress)];
    assert Lookup(t5, Mail) == Lookup(t4, Mail);
    assert Lookup(t3, Ns2) == [AData(IpAddress)];
    assert Lookup(t5, Ns2) == Lookup(t4, Ns2) == Lookup(t3, Ns2);
    assert Lookup(t2, Ns1) == [AData(IpAddress)];
    assert Lookup(t5, Ns1) == Lookup(t4, Ns1) == Lookup(t3, Ns1) == Lookup(t2, Ns1);
    assert Lookup(t1, Apex) == ApexRecords;
    assert Lookup(t5, Apex) == Lookup(t4, Apex) == Lookup(t3, Apex) == Lookup(t2, Apex) == Lookup(t1, Apex);
  }

  /** Query type `*` at the apex: six answers, A, AAAA, MX, SOA, NS, NS, in that order. */
  lemma ApexAnyAnswers()
    ensures var r := TableAnswers(Records, Apex, "*");
            && |r| == 6
            && [r[0].rtype, r[1].rtype, r[2].rtype, r[3].rtype, r[4].rtype, r[5].rtype] == [A, AAAA, MX, SOA, NS, NS]
            && (forall k :: 0 <= k < 6 ==> r[k].rname == Apex && r[k].rdata == ApexRecords[k])
  {
    RecordsDistinct();
    ZoneLookups();
    TableAnswersLookup(Records, Apex, "*");
    EntryAnswersAny(Lookup(Records, Apex), Apex);
  }

  /** An A query for the apex, ns1, ns2 or mail gets exactly one answer: A 127.0.0.1. */
  lemma HostAAnswers(name: string)
    requires name in {Apex, Ns1, Ns2, Mail}
    ensures TableAnswers(Records, name, "A") == [RR(name, A, ClassIN, Ttl, AData([127, 0, 0, 1]))]
  {
    RecordsDistinct();
    ZoneLookups();
    TableAnswersLookup(Records, name, "A");
    if name == Apex {
      var l := ApexRecords;
      EntryAnswersAppend([l[0]], l[1..], name, "A");
      assert [l[0]] + l[1..] == l;
      EntryAnswersNone(l[1..], name, "A");
    }
  }

  /** `admin.example.com.` owns only a CNAME: an A query for it matches nothing. */
  lemma AdminOnlyCname()
    ensures TableAnswers(Records, Admin, "A") == []
    ensures TableAnswers(Records, Admin, "CNAME") == [RR(Admin, CNAME, ClassIN, Ttl, CNAMEData(Apex))]
  {
    RecordsDistinct();
    ZoneLookups();
    TableAnswersLookup(Records, Admin, "A");
    TableAnswersLookup(Records, Admin, "CNAME");
    EntryAnswersNone([CNAMEData(Apex)], Admin, "A");
  }
}
