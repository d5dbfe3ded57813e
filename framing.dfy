/**
 * DNS-over-TCP message framing (section 4.2.2 of RFC 1035) as the TCP request
 * handler does it: every message is preceded by its length as a two-octet
 * big-endian integer.  The receiving side strips ASCII whitespace from the
 * received buffer before it reads the prefix, and slices the body without
 * checking that the buffer holds all of it.
 */
module Framing {
  import opened Wrappers
  import opened Bytes

  /** The lengths a two-octet prefix can express are 0 .. 65535. */
  const PrefixLimit: nat := 0x1_0000

  /** `struct.unpack('>H', ...)`: a big-endian unsigned 16-bit integer. */
  function DecodeLength(hi: byte, lo: byte): (n: nat)
    ensures n < PrefixLimit
  {
    hi as int * 256 + lo as int
  }

  /** `struct.pack('>H', n)`: the inverse of DecodeLength. */
  function EncodeLength(n: nat): (r: seq<byte>)
    requires n < PrefixLimit
    ensures |r| == 2 && DecodeLength(r[0], r[1]) == n
  {
    [(n / 256) as byte, (n % 256) as byte]
  }

  /** Decoding then re-encoding gives the same two octets: the pair is a bijection on 0 .. 65535. */
  lemma EncodeDecodeLength(hi: byte, lo: byte)
    ensures EncodeLength(DecodeLength(hi, lo)) == [hi, lo]
  {
    var n := DecodeLength(hi, lo);
    assert n / 256 == hi as int && n % 256 == lo as int by {
      assert n == hi as int * 256 + lo as int && 0 <= lo as int < 256;
    }
  }

  /** The octet count the TCP handler passes to its single `recv` call. */
  const RecvLimit: nat := 8192

  /**
   * `recv(8192)` on a connection whose client has sent `stream`: at most the
   * first 8192 octets (a call that returns fewer is not modelled).
   */
  function Receive(stream: seq<byte>): (r: seq<byte>)
    ensures |r| <= |stream| && |r| <= RecvLimit && r == stream[..|r|]
    ensures |stream| <= RecvLimit ==> r == stream
  {
    if |stream| <= RecvLimit then stream else stream[..RecvLimit]
  }

  /**
   * `send_data`: the bytes written to the connection.  `struct.pack` raises
   * for a length that does not fit sixteen bits, and nothing is written.
   */
  function Frame(data: seq<byte>): (r: Option<seq<byte>>)
    ensures r.Some? <==> |data| < PrefixLimit
    ensures r.Some? ==> |r.value| == |data| + 2 && r.value[2..] == data
                        && DecodeLength(r.value[0], r.value[1]) == |data|
  {
    if |data| < PrefixLimit then Some(EncodeLength(|data|) + data) else None
  }

  /**
   * `get_data` on the octets one `recv` returned: strip, read the prefix,
   * slice `data[2:size + 2]`.  Fewer than two octets left after stripping make
   * `struct.unpack` raise (None); a buffer shorter than the prefix promises
   * yields a shorter body, not an error.
   */
  function Unframe(received: seq<byte>): (r: Option<seq<byte>>)
    ensures r.Some? <==> |Strip(received)| >= 2
    ensures r.Some? ==>
              var s := Strip(received);
              var size := DecodeLength(s[0], s[1]);
              && |r.value| <= size
              && 2 + |r.value| <= |s|
              && r.value == s[2..2 + |r.value|]
              && (|r.value| == size || 2 + |r.value| == |s|)
  {
    var data := Strip(received);
    if |data| < 2 then None
    else
      var size := DecodeLength(data[0], data[1]);
      Some(data[2..if size + 2 <= |data| then size + 2 else |data|])
  }

  /** Unframing a framed message gives it back when stripping leaves the frame alone. */
  lemma UnframeFrame(m: seq<byte>)
    requires |m| < PrefixLimit
    requires Strip(Frame(m).value) == Frame(m).value
    ensures Unframe(Frame(m).value) == Some(m)
  {
  }

  /**
   * The round trip holds exactly when the prefix's high octet and the
   * message's last octet are not whitespace: a message of 2304 .. 3583 or
   * 8192 .. 8447 octets, or one that ends in a whitespace octet, comes back
   * shorter than it was sent.
   */
  lemma {:induction false} UnframeFrameIff(m: seq<byte>)
    requires |m| < PrefixLimit
    ensures Unframe(Frame(m).value) == Some(m) <==>
              !IsSpace((|m| / 256) as byte) && (m == [] || !IsSpace(m[|m| - 1]))
  {
    var f := Frame(m).value;
    assert f[0] == (|m| / 256) as byte;
    assert f[|f| - 1] == if m == [] then (|m| % 256) as byte else m[|m| - 1];
    StripUnchangedIff(f);
    if Strip(f) == f {
      UnframeFrame(m);
    } else {
      StripShortens(f);
    }
  }
}
