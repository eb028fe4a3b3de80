/** Frames of the AGV control protocol (usr/application/agvcp.c): message type and sequence number as
    two big-endian words, then the payload.
  */
module AgvcpFrame {
  import opened Arithmetic
  import opened LibMem
  import opened OsKernel

  type word = w: int | 0 <= w < WORD

  const MAX_MSG := 512 // AGVCP_MAXMSG_SIZE

  datatype Frame = Frame(mtype: word, seqno: word, data: seq<byte>)

  /** The four octets that `HTONL_COPY` writes for a word of the little-endian host. */
  function Htonl(v: word): (s: seq<byte>)
    ensures |s| == 4
  {
    Reversed(LittleOctets(v, 4))
  }

  function Encode(f: Frame): seq<byte> {
    Htonl(f.mtype) + Htonl(f.seqno) + f.data
  }

  /** What `agv_rx_msg` makes of a packet when the caller's buffer holds size octets. */
  function Decode(packet: seq<byte>, size: nat): (f: Option<Frame>) {
    if |packet| < 8 then
      None
    else
      WordBound(packet, 0);
      WordBound(packet, 4);
      var len := if |packet| - 8 > size then size else |packet| - 8;
      Some(Frame(BigValue(packet[0..4]), BigValue(packet[4..8]), packet[8..8 + len]))
  }

  lemma WordBound(packet: seq<byte>, at: nat)
    requires at + 4 <= |packet|
    ensures BigValue(packet[at..at + 4]) < WORD
  {
    var s := packet[at..at + 4];
    assert s == [s[0], s[1], s[2], s[3]];
    FourOctets(s[0], s[1], s[2], s[3]);
  }

  lemma HtonlValue(v: word)
    ensures BigValue(Htonl(v)) == v
  {
    ReversalSwapsEndian(LittleOctets(v, 4));
    ValueOfOctets(v, 4);
    Pow2Values();
  }

  lemma {:induction false} HtonlOfValue(s: seq<byte>)
    requires |s| == 4
    ensures BigValue(s) < WORD && Htonl(BigValue(s)) == s
  {
    assert s[0..4] == s;
    WordBound(s, 0);
    ReversalSwapsEndian(s);
    OctetsOfValue(Reversed(s));
    ReversedTwice(s);
  }

  /** On the wire the type comes first, then the number, both big-endian, then the payload. */
  lemma EncodeLayout(f: Frame)
    ensures var packet := Encode(f);
            && |packet| == 8 + |f.data| && packet[8..] == f.data
            && BigValue(packet[0..4]) == f.mtype && BigValue(packet[4..8]) == f.seqno
  {
    var packet := Encode(f);
    assert packet[0..4] == Htonl(f.mtype) && packet[4..8] == Htonl(f.seqno);
    HtonlValue(f.mtype);
    HtonlValue(f.seqno);
  }

  /** A frame that arrives is the frame that was sent, cut to the receiver's buffer. */
  lemma DecodeOfEncode(f: Frame, size: nat)
    ensures var got := if |f.data| > size then f.data[..size] else f.data;
            Decode(Encode(f), size) == Some(f.(data := got))
    ensures Decode(Encode(f), size) == Some(f) <==> |f.data| <= size
  {
    var packet := Encode(f);
    assert packet[0..4] == Htonl(f.mtype);
    assert packet[4..8] == Htonl(f.seqno);
    assert packet[8..] == f.data;
    HtonlValue(f.mtype);
    HtonlValue(f.seqno);
    var len := if |f.data| > size then size else |f.data|;
    assert packet[8..8 + len] == packet[8..][..len];
    assert f.data[..|f.data|] == f.data;
  }

  /** Every packet of at least eight octets that fits is the encoding of what is read from it. */
  lemma EncodeOfDecode(packet: seq<byte>, size: nat)
    requires 8 <= |packet| <= size + 8
    ensures Decode(packet, size).Some? && Encode(Decode(packet, size).value) == packet
  {
    HtonlOfValue(packet[0..4]);
    HtonlOfValue(packet[4..8]);
    assert packet == packet[0..4] + packet[4..8] + packet[8..];
    assert packet[8..8 + (|packet| - 8)] == packet[8..];
  }

  /** `reverse_copy`. */
  method ReverseCopy(src: seq<byte>, dest: array<byte>, at: nat)
    requires at + |src| <= dest.Length
    modifies dest
    ensures dest[..] == old(dest[..at]) + Reversed(src) + old(dest[at + |src|..])
  {
    for i := 0 to |src|
      invariant forall k :: 0 <= k < dest.Length ==>
                  dest[k] == if at <= k < at + i then src[|src| - 1 - (k - at)] else old(dest[k])
    {
      dest[at + i] := src[|src| - 1 - i];
    }
  }

  /** `agv_tx_msg`: the octets handed to the socket; a message that does not fit is refused. */
  method TxMsg(mtype: word, seqno: word, msg: seq<byte>) returns (packet: Option<seq<byte>>)
    ensures packet == if |msg| + 8 >= MAX_MSG then None else Some(Encode(Frame(mtype, seqno, msg)))
  {
    if |msg| + 8 >= MAX_MSG {
      return None;
    }
    var txbuf := new byte[MAX_MSG](_ => 0);
    ReverseCopy(LittleOctets(mtype, 4), txbuf, 0);
    ReverseCopy(LittleOctets(seqno, 4), txbuf, 4);
    ghost var head := Htonl(mtype) + Htonl(seqno);
    assert txbuf[..8] == head;
    for i := 0 to |msg|
      invariant txbuf[..8 + i] == head + msg[..i]
    {
      txbuf[8 + i] := msg[i];
    }
    assert msg[..|msg|] == msg;
    packet := Some(txbuf[..8 + |msg|]);
  }

  /** `agv_rx_msg`: nothing is received unless a packet with a whole header is waiting. */
  method RxMsg(waiting: Option<seq<byte>>, size: nat) returns (f: Option<Frame>)
    ensures f == if waiting.None? then None else Decode(waiting.value, size)
  {
    var count := 0;
    if waiting.Some? {
      count := |waiting.value|;
    }
    if count < 8 {
      return None;
    }
    var rxbuf := waiting.value;
    WordBound(rxbuf, 0);
    WordBound(rxbuf, 4);
    var len := count - 8;
    if len > size {
      len := size;
    }
    var data := [];
    for i := 0 to len
      invariant data == rxbuf[8..8 + i]
    {
      data := data + [rxbuf[8 + i]];
    }
    f := Some(Frame(BigValue(rxbuf[0..4]), BigValue(rxbuf[4..8]), data));
  }
}
