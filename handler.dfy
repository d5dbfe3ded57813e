/**
 * The request handlers' `handle`: read the request through the transport,
 * compute the response with `dns_response`, and write it back only when there
 * is a non-empty one.  Any exception inside is caught and nothing is written.
 */
module Handler {
  import opened Wrappers
  import opened Bytes
  import opened Framing
  import opened Resolver

  datatype Transport = Udp | Tcp

  /**
   * `get_data`: the UDP handler strips the datagram; the TCP handler reads at
   * most 8192 octets of the connection, strips them and unframes them (None
   * where `struct.unpack` raises).  Reading a UDP request never fails, and a
   * TCP request never exceeds 8190 octets.
   */
  function GetData(t: Transport, received: seq<byte>): (r: Option<seq<byte>>)
    ensures t == Udp ==> r.Some?
    ensures r.Some? ==> |r.value| <= |received|
    ensures t == Tcp && r.Some? ==> |r.value| <= RecvLimit - 2
  {
    match t
    case Udp => Some(Strip(received))
    case Tcp => Unframe(Receive(received))
  }

  /**
   * `send_data`: the bytes written (None where `struct.pack` raises).  They
   * end with the whole response; only a TCP response of 65536 octets or more
   * cannot be sent.
   */
  function SendData(t: Transport, response: seq<byte>): (r: Option<seq<byte>>)
    ensures r.Some? <==> t == Udp || |response| < PrefixLimit
    ensures r.Some? ==> |response| <= |r.value| && r.value[|r.value| - |response|..] == response
  {
    match t
    case Udp => Some(response)
    case Tcp => Frame(response)
  }

  /**
   * `handle`: the bytes written back to the client, None when nothing is
   * written.  Something is written only for a request that could be read and
   * parsed, and it is never empty.
   */
  function Handle(t: Transport, received: seq<byte>,
                  parse: seq<byte> -> Option<Query>,
                  forward: seq<byte> -> Option<seq<byte>>,
                  pack: Reply -> Option<seq<byte>>): (sent: Option<seq<byte>>)
    ensures sent.Some? ==> sent.value != []
    ensures sent.Some? ==> GetData(t, received).Some? && parse(GetData(t, received).value).Some?
  {
    match GetData(t, received)
    case None => None
    case Some(data) =>
      match Respond(data, parse, forward, pack)
      case None => None
      case Some(response) => if response == [] then None else SendData(t, response)
  }

  /**
   * Nothing is written exactly when the request could not be read, no
   * response was produced, the response is empty, or it is too long to frame;
   * over UDP a non-empty response is written back as it is.
   */
  lemma HandleCases(t: Transport, received: seq<byte>, parse: seq<byte> -> Option<Query>,
                    forward: seq<byte> -> Option<seq<byte>>, pack: Reply -> Option<seq<byte>>)
    ensures Handle(t, received, parse, forward, pack).None? <==>
              || GetData(t, received).None?
              || Respond(GetData(t, received).value, parse, forward, pack).None?
              || Respond(GetData(t, received).value, parse, forward, pack).value == []
              || (t == Tcp && |Respond(GetData(t, received).value, parse, forward, pack).value| >= PrefixLimit)
    ensures t == Udp && Respond(Strip(received), parse, forward, pack).Some?
            && Respond(Strip(received), parse, forward, pack).value != [] ==>
              Handle(t, received, parse, forward, pack) == Respond(Strip(received), parse, forward, pack)
  {
  }

  /**
   * A UDP datagram whose first or last octet is ASCII whitespace (a query id
   * whose high octet is 0x09 .. 0x0D or 0x20, for one) reaches `dns_response`
   * shortened.
   */
  lemma UdpStripAltersDatagram(received: seq<byte>)
    requires received != [] && (IsSpace(received[0]) || IsSpace(received[|received| - 1]))
    ensures GetData(Udp, received) != Some(received)
  {
    StripShortens(received);
  }

  /**
   * A query frame that fits one `recv` and neither starts nor ends with a
   * whitespace octet reaches `dns_response` exactly as the client sent it.
   */
  lemma TcpReceiveFrame(query: seq<byte>)
    requires |query| + 2 <= RecvLimit
    requires !IsSpace((|query| / 256) as byte) && (query == [] || !IsSpace(query[|query| - 1]))
    ensures GetData(Tcp, Frame(query).value) == Some(query)
  {
    var f := Frame(query).value;
    assert Receive(f) == f;
    UnframeFrameIff(query);
  }

  /**
   * A TCP exchange: a query framed by the client reaches `dns_response`
   * intact, and the client unframes exactly the response it produced, provided
   * the query frame fits one `recv` and neither frame starts or ends with a
   * whitespace octet.
   */
  lemma TcpExchange(query: seq<byte>, parse: seq<byte> -> Option<Query>,
                    forward: seq<byte> -> Option<seq<byte>>, pack: Reply -> Option<seq<byte>>)
    requires |query| + 2 <= RecvLimit
    requires !IsSpace((|query| / 256) as byte) && (query == [] || !IsSpace(query[|query| - 1]))
    requires Respond(query, parse, forward, pack).Some?
    requires var r := Respond(query, parse, forward, pack).value;
             && r != [] && |r| < PrefixLimit
             && !IsSpace((|r| / 256) as byte) && !IsSpace(r[|r| - 1])
    ensures GetData(Tcp, Frame(query).value) == Some(query)
    ensures var r := Respond(query, parse, forward, pack).value;
            && Handle(Tcp, Frame(query).value, parse, forward, pack) == Frame(r)
            && Unframe(Frame(r).value) == Some(r)
  {
    var f := Frame(query).value;
    var r := Respond(query, parse, forward, pack).value;
    TcpReceiveFrame(query);
    assert Handle(Tcp, f, parse, forward, pack) == SendData(Tcp, r) by {
      assert GetData(Tcp, f) == Some(query);
      assert Respond(query, parse, forward, pack) == Some(r);
    }
    UnframeFrameIff(r);
  }

  /** A TCP query longer than 8190 octets never reaches `dns_response` whole: `recv(8192)` cuts its frame. */
  lemma TcpRecvTruncates(query: seq<byte>)
    requires RecvLimit < |query| + 2 && |query| < PrefixLimit
    ensures GetData(Tcp, Frame(query).value) != Some(query)
  {
  }
}
