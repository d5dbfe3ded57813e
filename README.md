# A minimal authoritative-or-forwarding DNS server, modelled in Dafny

The server in `dns.py` answers queries for the fixed zone `example.com.` from an
in-memory record table and forwards every other query, as raw bytes, to an
upstream resolver, relaying whatever comes back. It listens over UDP (one
datagram per message) and over TCP (each message preceded by a two-octet
big-endian length, section 4.2.2 of RFC 1035).

This project models:

- **The zone table** (`zone.dfy`, module `Zone`): the apex SOA and NS records,
  the records dictionary in its iteration order, the in-zone test
  (`qname == 'example.com.' or qname.endswith('.example.com.')`, exact and
  case-sensitive), the per-record type filter (`qtype` is `*` or the rdata's
  class name) and the answers it selects.
- **The resolve-or-forward decision** (`resolver.dfy`, module `Resolver`):
  `dns_response` as a method that builds the reply in place with loops over the
  dictionary and each rdata list and a `resolved` flag, proved equal to the
  specification functions `ZoneReply`, `Decide` and `Respond`; the reply is
  sent (packed) only when at least one answer matched, otherwise the raw
  request bytes go to the forwarder and its result is returned unchanged.
- **TCP framing** (`framing.dfy`, module `Framing`) and the Python
  `bytes.strip()` both handlers apply to what they receive (`bytes.dfy`,
  module `Bytes`), with the round trip and exactly when it fails.
- **The handler** (`handler.dfy`, module `Handler`): read, respond, and write
  back only a non-empty response.

The DNS wire codec, the serialiser and the upstream socket belong to the
`dnslib` library and the operating system, so they are parameters of the model:
`parse: seq<byte> -> Option<Query>` and `pack: Reply -> Option<seq<byte>>`
(None where the library raises) and `forward: seq<byte> -> Option<seq<byte>>`
(None where forwarding fails). A query reaches the model already parsed, with
its type given as the name `QTYPE[...]` yields for it (a string such as `"A"`
or `"TXT"`). The type filter in `dns.py` admits every record for the name
`"*"` and the model keeps that test as written; `dnslib`, which is not part of
this model, appears to name type 255 `ANY`, in which case an ANY query is
forwarded like any other type the table lacks (`ApexAnyNameForwarded`).

The model follows `dns.py` as written, including where it departs from usual
DNS server behaviour:

- names are compared as exact strings, so the comparison is case-sensitive and
  the zone test is a string suffix test on `.example.com.`;
- an in-zone name with no matching record is forwarded, not answered with an
  empty authoritative reply, because the return of the local reply is gated
  on the `resolved` flag;
- the TCP body is the slice `data[2:size + 2]` of the stripped buffer, which
  is shorter than announced when the buffer is short, rather than a read of
  exactly the announced length;
- the TCP handler reads its request with a single `recv(8192)`, so every
  TCP message of more than 8190 octets is cut before it is unframed
  (`TcpRecvTruncates`);
- stripping means a TCP message that does fit, but is 2304 to 3583 octets
  long or ends in a whitespace octet, and a UDP datagram that starts or ends
  with one, reach `dns_response` altered (`UnframeFrameIff`,
  `UdpStripAltersDatagram`); every other TCP message that fits arrives intact
  (`TcpReceiveFrame`).

## Model

| member | source | states |
|---|---|---|
| `Bytes.StripLeft` | dns.py:141 | the result is a suffix of the input, everything dropped is ASCII whitespace, and it does not start with whitespace |
| `Bytes.StripRight` | dns.py:141 | the result is a prefix of the input, everything dropped is ASCII whitespace, and it does not end with whitespace |
| `Bytes.Strip` | dns.py:141 | the stripped buffer is no longer than the input and neither starts nor ends with whitespace |
| `Bytes.StripSlice` | dns.py:141 | the stripped buffer is one contiguous slice `s[i..j]` of the input, and everything before `i` and from `j` on is whitespace |
| `Bytes.StripUnchangedIff` | dns.py:141 | stripping leaves a buffer unchanged iff it is empty or neither end is whitespace |
| `Bytes.StripShortens` | dns.py:141 | a buffer with whitespace at either end always gets shorter |
| `Framing.DecodeLength` | dns.py:142 | a big-endian two-octet prefix decodes to a length below 65536 |
| `Framing.EncodeLength` | dns.py:146 | the two-octet prefix of a length below 65536 decodes back to that length |
| `Framing.EncodeDecodeLength` | dns.py:142-146 | decoding two octets and encoding the length again gives the same two octets back |
| `Framing.Receive` | dns.py:141 | `recv(8192)` yields a prefix of what the client sent, at most 8192 octets, all of it when the client sent no more |
| `Framing.Frame` | dns.py:145-147 | `send_data` writes the two-octet big-endian length of the data followed by the data; nothing when the length does not fit sixteen bits |
| `Framing.Unframe` | dns.py:141-143 | unframing fails iff fewer than two octets remain after stripping; otherwise it returns the octets after the prefix, at most the announced length, fewer only when the buffer ends first |
| `Framing.UnframeFrame` | dns.py:141-147 | unframing a framed message of under 65536 octets returns it when stripping leaves the frame alone |
| `Framing.UnframeFrameIff` | dns.py:141-147 | the unframe-after-frame round trip holds iff the high length octet and the message's last octet are not whitespace |
| `Zone.InZone` | dns.py:89 | a name in the zone ends with `example.com.` |
| `Zone.EndsWithIff` | dns.py:89 | `endswith` holds iff the string is some prefix followed by the suffix |
| `Zone.InZoneIff` | dns.py:89 | a name is in the zone iff it is `example.com.` or some string followed by `.example.com.` |
| `Zone.InZoneExamples` | dns.py:89 | `www.example.com.`, `ns1.example.com.` and `admin.example.com.` are in the zone |
| `Zone.OutOfZoneExamples` | dns.py:89 | `fooexample.com.`, `EXAMPLE.COM.`, `example.com` and `nonexistent.org.` are not in the zone |
| `Zone.TypeMatches` | dns.py:93 | a query type admits a record only if it is `*` or one of the six record class names |
| `Zone.Answer` | dns.py:94-96 | the answer built for a record is owned by qname, has the record's own type, class 1 and TTL 300, and answers both `*` and the record's type |
| `Zone.EntryAnswers` | dns.py:92-97 | one rdata list yields at most one answer per record, and none for a type name outside the filter's vocabulary |
| `Zone.TableAnswers` | dns.py:90-97 | the dictionary walk yields no answers for a type name outside the filter's vocabulary |
| `Zone.EntryAnswersIff` | dns.py:92-97 | an answer comes from a list iff its rdata is in the list, passes the type filter, and the answer is owner qname, the rdata's type, class 1, TTL 300 |
| `Zone.EntryAnswersAppend` | dns.py:92-97 | answers keep the list order: those of an earlier part of the list come first |
| `Zone.EntryAnswersAny` | dns.py:93 | query type `*` yields one answer per record, in list order |
| `Zone.EntryAnswersNone` | dns.py:93 | a list with no record of the queried type yields no answers |
| `Zone.TableAnswersIff` | dns.py:90-97 | an answer is emitted iff the table gives qname that rdata, the filter admits it, and the answer is built from qname and the rdata |
| `Zone.TableAnswersShape` | dns.py:94-96 | every answer has owner qname, its rdata's own type, class 1 and TTL 300, and passes the filter |
| `Zone.TableAnswersAbsent` | dns.py:90-91 | a name the table does not hold gets no answers |
| `Zone.TableAnswersLookup` | dns.py:90-97 | with distinct names the answers are exactly those of qname's own rdata list, in its order |
| `Zone.RecordsDistinct` | dns.py:50-56 | the records dictionary has distinct keys |
| `Zone.ZoneLookups` | dns.py:36-56 | the rdata lists of the apex (A 127.0.0.1, AAAA ::, MX mail, the SOA, NS ns1, NS ns2), ns1, ns2, mail and admin names |
| `Zone.ApexAnyAnswers` | dns.py:51 | query type `*` at the apex yields six answers, A, AAAA, MX, SOA, NS, NS, in order |
| `Zone.HostAAnswers` | dns.py:51-54 | an A query for the apex, ns1, ns2 or mail yields exactly one answer, A 127.0.0.1, class 1, TTL 300 |
| `Zone.AdminOnlyCname` | dns.py:55 | `admin.example.com.` yields nothing for A and exactly its CNAME for CNAME |
| `Resolver.ApexNsRecords` | dns.py:100-101 | one additional record per apex NS rdata, owner the apex, type NS, class 1, TTL 300 |
| `Resolver.ZoneReply` | dns.py:78-102 | the reply echoes the request id and question; it has authority and additional records iff the name is in the zone, and no answers for a name outside it |
| `Resolver.Decide` | dns.py:104 | a query is answered from the zone only for an in-zone name, with at least one answer and the authoritative flag set |
| `Resolver.Respond` | dns.py:74-114 | a response exists only for a request that parses, and for an out-of-zone name it is the forwarder's result on the original bytes |
| `Resolver.AddEntryAnswers` | dns.py:92-97 | the inner loop appends exactly the list's admitted answers, changes nothing else, and flags whether one was added |
| `Resolver.AddAnswers` | dns.py:90-97 | the dictionary walk appends exactly the table's answers, changes nothing else, and sets `resolved` iff one was added |
| `Resolver.BuildReply` | dns.py:78-102 | the reply built equals the specification `ZoneReply` and `resolved` holds iff it has an answer |
| `Resolver.DnsResponse` | dns.py:74-114 | `dns_response` returns the specification `Respond`: None on parse failure, the forwarder's result when unresolved, the packed reply otherwise |
| `Resolver.ForwardedIff` | dns.py:86-107 | a query is forwarded iff the name is out of the zone or the table gives it no record the query type admits |
| `Resolver.AnsweredReply` | dns.py:78-102 | an answered reply echoes id and question with qr = aa = ra = 1, has at least one well-formed answer, the apex SOA (ns1, admin, 2025010101, 3600, 10800, 86400, 3600) in authority and both apex NS records in additional |
| `Resolver.InZoneSections` | dns.py:99-102 | every in-zone reply has two additional NS records and one authority SOA record, all owned by the apex, whatever the answers |
| `Resolver.OutOfZoneForwarded` | dns.py:89 | an out-of-zone name is always forwarded |
| `Resolver.UnknownTypeForwarded` | dns.py:93 | a query type other than `*` and the six record class names is forwarded, even for an in-zone name |
| `Resolver.ApexAnyNameForwarded` | dns.py:84-93 | a query typed `ANY` for the apex is forwarded, not answered with the apex records |
| `Resolver.ApexAExample` | dns.py:78-102 | query (1, `example.com.`, A) is answered with A 127.0.0.1, the apex SOA and NS ns1, NS ns2 |
| `Resolver.AdminAForwarded` | dns.py:104-107 | an A query for `admin.example.com.` is forwarded although the name is in the zone |
| `Resolver.RespondCases` | dns.py:104-114 | a forwarded query returns the forwarder's result on the original bytes, an answered one the packed reply, and the result is None iff parsing, forwarding or packing failed |
| `Handler.GetData` | dns.py:140-152 | reading a UDP request never fails; what is read is no longer than what arrived, and a TCP request is at most 8190 octets |
| `Handler.SendData` | dns.py:145-155 | something is written iff the transport is UDP or the response is under 65536 octets, and what is written ends with the whole response |
| `Handler.Handle` | dns.py:127-136 | anything written is non-empty and comes from a request that was read and parsed |
| `Handler.HandleCases` | dns.py:127-136 | nothing is written iff the request could not be read, there was no response, it was empty, or it is too long to frame; over UDP a non-empty response is written back as it is |
| `Handler.UdpStripAltersDatagram` | dns.py:152 | a datagram with whitespace at either end reaches `dns_response` altered |
| `Handler.TcpReceiveFrame` | dns.py:140-143 | a query frame that fits one `recv` and whose high length octet and last octet are not whitespace is read back exactly |
| `Handler.TcpRecvTruncates` | dns.py:140-143 | a framed query of more than 8190 octets is never read back whole |
| `Handler.TcpExchange` | dns.py:127-147 | a framed query that fits one `recv` reaches `dns_response` intact, and the client unframes exactly its response, when no frame starts or ends with whitespace |

## Left out

- Wire parsing and serialisation (`DNSRecord.parse`, `reply.pack`) are done by the `dnslib` library, which is not part of this model: they are the parameters `parse` and `pack`, None where they raise.
- The query's type name comes from `dnslib`'s type table (`QTYPE[...]`), which is not part of this model; the model takes the name as parsed and does not model the numeric type codes nor the numeric `rtype` put in answers (it records the type as `RType`).
- The MX record's preference is `dnslib`'s default, not set in `dns.py`; `MXData` holds only the exchange name.
- `forward_dns_query`'s socket I/O, the upstream address 1.1.1.1:53 and its 512-octet receive cap: the forwarder is the parameter `forward`, None on failure.
- The TCP handler's single `recv(8192)` is modelled as taking the first 8192 octets the client sent (`Receive`); a `recv` that returns fewer octets than are already on their way is not modelled.
- Threading servers, `main`, argument parsing and shutdown: process plumbing and concurrency.
- All printing and traceback logging: side effects only.
- The `DomainName` attribute trick that builds names: replaced by literal name strings.
- Exceptions other than those of `parse`, `pack`, `struct.pack` and `struct.unpack` (for instance from building records) are not modelled; the code shown raises none for the fixed table.
