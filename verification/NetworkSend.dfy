/** `stcp_network_send`: a segment given in pieces is gathered in one buffer, completed with
    ports and checksum, and framed on the stream. */
module NetworkSend {
  import opened Bytes
  import opened InternetChecksum
  import opened TcpSum
  import Framing

  const MAX_IP_PAYLOAD_LEN: nat := 1500

  /** The two ends of a connection as the sender sees them; ports in network order. */
  datatype Link = Link(local: Address, peer: Address, localPort: u16, peerPort: u16)

  /** What a gathered segment must satisfy: the size of the buffer and a whole header. */
  predicate Sendable(segment: seq<byte>) {
    HEADER <= |segment| <= MAX_IP_PAYLOAD_LEN
  }

  /** Ports filled in, checksum and urgent pointer cleared. */
  function Addressed(link: Link, segment: seq<byte>): (r: seq<byte>)
    requires |segment| >= HEADER
    ensures |r| == |segment|
  {
    SetField(SetField(SetField(SetField(segment, 0, Store(true, link.localPort)),
                               2, Store(true, link.peerPort)),
                      SUM_OFFSET, [0, 0]), 18, [0, 0])
  }

  /** The segment as it goes out. */
  function Stamped(link: Link, segment: seq<byte>): (r: seq<byte>)
    requires |segment| >= HEADER
    ensures |r| == |segment|
  {
    var a := Addressed(link, segment);
    SetField(a, SUM_OFFSET, SumOctets(link.local, link.peer, a))
  }

  /** A stamped segment passes the check at the other end, and everything that is not filled
      in here, header and payload, arrives as it was given. */
  lemma StampedArrives(link: Link, segment: seq<byte>)
    requires |segment| >= HEADER
    ensures Verifies(link.local, link.peer, Stamped(link, segment))
    ensures Stamped(link, segment)[4..16] == segment[4..16]
    ensures Stamped(link, segment)[18..20] == [0, 0]
    ensures Stamped(link, segment)[20..] == segment[20..]
    ensures Stamped(link, segment)[..2] == Store(true, link.localPort)
    ensures Stamped(link, segment)[2..4] == Store(true, link.peerPort)
  {
    StampedVerifies(link.local, link.peer, Addressed(link, segment));
    hide SumOctets, SetField;
    var d1 := SetField(segment, 0, Store(true, link.localPort));
    var d2 := SetField(d1, 2, Store(true, link.peerPort));
    var d3 := SetField(d2, SUM_OFFSET, [0, 0]);
    FieldOctets(segment, 0, Store(true, link.localPort));
    FieldOctets(d1, 2, Store(true, link.peerPort));
    FieldOctets(d2, SUM_OFFSET, [0, 0]);
    FieldOctets(d3, 18, [0, 0]);
    var a := Addressed(link, segment);
    FieldOctets(a, SUM_OFFSET, SumOctets(link.local, link.peer, a));
  }

  /** Setting a field changes its two octets and no other. */
  lemma FieldOctets(d: seq<byte>, off: nat, w: seq<byte>)
    requires off + 2 <= |d| && |w| == 2
    ensures forall i :: 0 <= i < |d| ==>
              SetField(d, off, w)[i] == if off <= i < off + 2 then w[i - off] else d[i]
  {
  }

  /** Gathers the pieces; the assertions on the size are the precondition. */
  method Gather(pieces: seq<seq<byte>>, packet: array<byte>) returns (len: nat)
    requires |Flatten(pieces)| <= packet.Length
    modifies packet
    ensures len == |Flatten(pieces)| && packet[..len] == Flatten(pieces)
  {
    len := 0;
    var k := 0;
    while k < |pieces|
      invariant k <= |pieces|
      invariant len <= packet.Length && packet[..len] == Flatten(pieces[..k])
    {
      ghost var before := packet[..len];
      assert pieces == pieces[..k] + pieces[k..];
      FlattenAppend(pieces[..k], pieces[k..]);
      forall i | 0 <= i < |pieces[k]| {
        packet[len + i] := pieces[k][i];
      }
      len := len + |pieces[k]|;
      assert packet[..len] == before + pieces[k];
      FlattenSnoc(pieces[..k], pieces[k]);
      assert pieces[..k + 1] == pieces[..k] + [pieces[k]];
      k := k + 1;
    }
    assert pieces[..k] == pieces;
  }

  method StoreField(packet: array<byte>, off: nat, octets: seq<byte>)
    requires off + 2 <= packet.Length && |octets| == 2
    modifies packet
    ensures packet[..] == SetField(old(packet[..]), off, octets)
  {
    packet[off] := octets[0];
    packet[off + 1] := octets[1];
  }

  /** Writing a field of the whole buffer is writing it in the part that is in use. */
  lemma FieldOfPart(d: seq<byte>, len: nat, off: nat, octets: seq<byte>)
    requires off + 2 <= len <= |d| && |octets| == 2
    ensures SetField(d, off, octets)[..len] == SetField(d[..len], off, octets)
  {
  }

  /** Fills in the header fields that the transport layer leaves open. */
  method FillHeader(big: bool, link: Link, packet: array<byte>, len: nat)
    requires HEADER <= len <= packet.Length && len <= LONGEST
    modifies packet
    ensures packet[..len] == Stamped(link, old(packet[..len]))
  {
    hide SumOctets, SetField;
    FieldOfPart(packet[..], len, 0, Store(true, link.localPort));
    StoreField(packet, 0, Store(true, link.localPort));
    FieldOfPart(packet[..], len, 2, Store(true, link.peerPort));
    StoreField(packet, 2, Store(true, link.peerPort));
    FieldOfPart(packet[..], len, SUM_OFFSET, [0, 0]);
    StoreField(packet, SUM_OFFSET, [0, 0]);
    FieldOfPart(packet[..], len, 18, [0, 0]);
    StoreField(packet, 18, [0, 0]);
    SetChecksum(big, link.local, link.peer, packet, len);
  }

  method NetworkSend(pipe: Framing.Pipe, big: bool, link: Link, pieces: seq<seq<byte>>)
    returns (rc: int)
    requires pipe.Valid() && 20 <= |Flatten(pieces)| <= 1500
    modifies pipe
    ensures pipe.Valid() && pipe.taken == old(pipe.taken)
    ensures rc == -1 || rc == |Flatten(pieces)|
    ensures pipe.failures == old(pipe.failures) + if rc == -1 then 1 else 0
    ensures Framing.Serves(pipe.schedule) ==> rc == |Flatten(pieces)|
    ensures rc > 0 && pipe.stalls == old(pipe.stalls) ==>
              pipe.written == old(pipe.written) + Framing.Frame(Stamped(link, Flatten(pieces)))
  {
    var packet := new byte[MAX_IP_PAYLOAD_LEN];
    var len := Gather(pieces, packet);
    FillHeader(big, link, packet, len);
    rc := Framing.SendPacket(pipe, packet[..len]);
  }
}
