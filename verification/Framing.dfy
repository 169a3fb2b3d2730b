/** Packets over a byte stream: a two-octet length in network order in front of each, and
    reads and writes that may come up short. */
module Framing {
  import opened Bytes
  import opened InternetChecksum

  /** A packet on the wire.  The length field has 16 bits; a longer length is cut. */
  function Frame(p: seq<byte>): (f: seq<byte>)
    ensures |f| == 2 + |p|
  {
    Store(true, |p| % 0x1_0000) + p
  }

  /** A packet that the stream can carry: an empty one reads like the end of the stream, and
      a longer one announces a wrong length. */
  predicate Fits(p: seq<byte>) {
    1 <= |p| < 0x1_0000
  }

  function Wire(packets: seq<seq<byte>>): seq<byte> {
    if packets == [] then [] else Frame(packets[0]) + Wire(packets[1..])
  }

  lemma {:induction false} WireAppend(a: seq<seq<byte>>, b: seq<seq<byte>>)
    ensures Wire(a + b) == Wire(a) + Wire(b)
  {
    hide Frame;
    if a == [] {
      assert a + b == b;
    } else {
      assert (a + b)[1..] == a[1..] + b;
      WireAppend(a[1..], b);
      assert Wire(a + b) == Frame(a[0]) + (Wire(a[1..]) + Wire(b));
    }
  }

  lemma WireOne(p: seq<byte>)
    ensures Wire([p]) == Frame(p)
  {
    assert Wire([p]) == Frame(p) + Wire([]);
  }

  /** The length a receiver reads from the first two octets. */
  function LengthOf(stream: seq<byte>): nat
    requires |stream| >= 2
  {
    Load(true, stream[0], stream[1])
  }

  /** The receiver reads back the length exactly for packets below 2^16 octets. */
  lemma LengthRoundTrip(p: seq<byte>, rest: seq<byte>)
    ensures LengthOf(Frame(p) + rest) == |p| % 0x1_0000
  {
    var h := Store(true, |p| % 0x1_0000);
    assert (Frame(p) + rest)[0] == h[0] && (Frame(p) + rest)[1] == h[1];
  }

  /** The receiver gets the length right, and does not take the packet for the end of the
      stream, exactly when the packet fits. */
  lemma FitsExactly(p: seq<byte>)
    ensures Fits(p) <==> LengthOf(Frame(p)) == |p| > 0
  {
    LengthRoundTrip(p, []);
    assert Frame(p) + [] == Frame(p);
  }

  /** The system serves every call, with an octet or more, if there is one. */
  ghost predicate Serves(schedule: nat -> int) {
    forall n :: schedule(n) > 0
  }

  /** One direction of a TCP connection.  `schedule` says how the system serves each call:
      how many octets at most; a negative number is a failure, and zero is returned as it is. */
  class Pipe {
    const schedule: nat -> int
    var calls: nat
    var inTransit: seq<byte>
    ghost var written: seq<byte>
    ghost var taken: seq<byte>
    ghost var stalls: nat     // writes that returned 0
    ghost var ends: nat       // reads that returned 0
    ghost var failures: nat   // calls that failed

    ghost predicate Valid()
      reads this
    {
      written == taken + inTransit
    }

    constructor (schedule: nat -> int)
      ensures Valid() && inTransit == written == taken == [] && stalls == ends == failures == 0
      ensures this.schedule == schedule
    {
      this.schedule := schedule;
      calls, inTransit, written, taken := 0, [], [], [];
      stalls, ends, failures := 0, 0, 0;
    }

    method Write(buf: seq<byte>) returns (rc: int)
      requires Valid() && buf != []
      modifies this
      ensures Valid() && taken == old(taken)
      ensures rc == -1 || 0 <= rc <= |buf|
      ensures written == old(written) + (if rc > 0 then buf[..rc] else [])
              && inTransit == old(inTransit) + (if rc > 0 then buf[..rc] else [])
      ensures rc < 0 <==> schedule(old(calls)) < 0
      ensures rc > 0 <==> schedule(old(calls)) > 0
      ensures stalls == old(stalls) + (if rc == 0 then 1 else 0) && ends == old(ends)
      ensures failures == old(failures) + if rc < 0 then 1 else 0
    {
      rc := schedule(calls);
      calls := calls + 1;
      if rc <= 0 {
        if rc == 0 {
          stalls := stalls + 1;
          return 0;
        }
        failures := failures + 1;
        return -1;
      }
      rc := if rc < |buf| then rc else |buf|;
      inTransit := inTransit + buf[..rc];
      written := written + buf[..rc];
    }

    /** A read finds the stream at its end (0), fails, or takes from the front. */
    method Read(count: nat) returns (rc: int, data: seq<byte>)
      requires Valid() && count > 0
      modifies this
      ensures Valid() && written == old(written) && stalls == old(stalls)
      ensures rc <= 0 ==> data == []
      ensures rc >= -1 && (rc > 0 ==> rc == |data| <= count)
      ensures taken == old(taken) + data && old(inTransit) == data + inTransit
      ensures rc < 0 <==> schedule(old(calls)) < 0
      ensures rc > 0 <==> schedule(old(calls)) > 0 && old(inTransit) != []
      ensures Serves(schedule) && old(inTransit) != [] ==> rc > 0
      ensures ends == old(ends) + if rc == 0 then 1 else 0
      ensures failures == old(failures) + if rc < 0 then 1 else 0
    {
      rc := schedule(calls);
      calls := calls + 1;
      if rc < 0 {
        failures := failures + 1;
        return -1, [];
      }
      if rc == 0 || inTransit == [] {
        ends := ends + 1;
        return 0, [];
      }
      rc := if rc < count then rc else count;
      rc := if rc < |inTransit| then rc else |inTransit|;
      data := inTransit[..rc];
      taken := taken + data;
      inTransit := inTransit[rc..];
    }
  }

  /** `_tcp_io` with `write`: everything, or a proper part and -1 exactly if a write failed, or 0 if
      one stalled. */
  method WriteAll(pipe: Pipe, buf: seq<byte>) returns (rc: int)
    requires pipe.Valid()
    modifies pipe
    ensures pipe.Valid() && pipe.taken == old(pipe.taken)
    ensures rc == |buf| || rc == -1 || rc == 0
    ensures rc == |buf| ==> pipe.written == old(pipe.written) + buf
                            && pipe.inTransit == old(pipe.inTransit) + buf
    ensures rc != |buf| ==> exists k: nat :: k < |buf| && pipe.written == old(pipe.written) + buf[..k]
    ensures pipe.stalls == old(pipe.stalls) + if rc == 0 && buf != [] then 1 else 0
    ensures pipe.failures == old(pipe.failures) + if rc == -1 then 1 else 0
    ensures pipe.ends == old(pipe.ends) && (Serves(pipe.schedule) ==> rc == |buf|)
  {
    var done := 0;
    while done < |buf|
      invariant done <= |buf|
      invariant pipe.Valid() && pipe.taken == old(pipe.taken) && pipe.stalls == old(pipe.stalls)
      invariant pipe.ends == old(pipe.ends) && pipe.failures == old(pipe.failures)
      invariant pipe.written == old(pipe.written) + buf[..done]
      invariant pipe.inTransit == old(pipe.inTransit) + buf[..done]
    {
      rc := pipe.Write(buf[done..]);
      if rc <= 0 {
        return;
      }
      assert buf[..done] + buf[done..][..rc] == buf[..done + rc];
      done := done + rc;
    }
    rc := |buf|;
  }

  /** `_tcp_io` with `read`: all that was asked for; or less, and -1 exactly if a read failed, or 0 if
      one found the end.  A count of zero looks like the end of the stream. */
  method ReadAll(pipe: Pipe, count: nat) returns (rc: int, data: seq<byte>)
    requires pipe.Valid()
    modifies pipe
    ensures pipe.Valid() && pipe.written == old(pipe.written) && pipe.stalls == old(pipe.stalls)
    ensures old(pipe.inTransit) == data + pipe.inTransit
    ensures pipe.taken == old(pipe.taken) + data
    ensures rc == count == |data| || (|data| < count && (rc == -1 || rc == 0))
    ensures pipe.failures == old(pipe.failures) + if rc == -1 then 1 else 0
    ensures pipe.ends == old(pipe.ends) + if rc == 0 && count > 0 then 1 else 0
    ensures Serves(pipe.schedule) && |old(pipe.inTransit)| >= count ==> rc == count
  {
    data := [];
    while |data| < count
      invariant |data| <= count
      invariant pipe.failures == old(pipe.failures) && pipe.ends == old(pipe.ends)
      invariant pipe.Valid() && pipe.written == old(pipe.written) && pipe.stalls == old(pipe.stalls)
      invariant old(pipe.inTransit) == data + pipe.inTransit
      invariant pipe.taken == old(pipe.taken) + data
      decreases count - |data|
    {
      var piece;
      assert |old(pipe.inTransit)| == |data| + |pipe.inTransit|;
      rc, piece := pipe.Read(count - |data|);
      if rc <= 0 {
        return;
      }
      data := data + piece;
    }
    rc := count;
  }

  /** `after` has a part of the length and a part of the packet behind `before`. */
  ghost predicate Torn(before: seq<byte>, after: seq<byte>, src: seq<byte>, j: nat, k: nat) {
    && j <= 2 && k <= |src| && (j < 2 || k < |src|)
    && after == before + Frame(src)[..j] + src[..k]
  }

  /** `_network_send_packet` on a connected socket: -1 exactly if a write failed.  A stalled write is
      taken for success: then a part of the frame is missing, although the length of the packet is
      returned. */
  method SendPacket(pipe: Pipe, src: seq<byte>) returns (rc: int)
    requires pipe.Valid()
    modifies pipe
    ensures pipe.Valid() && pipe.taken == old(pipe.taken)
    ensures rc == |src| || rc == -1
    ensures pipe.failures == old(pipe.failures) + if rc == -1 then 1 else 0
    ensures Serves(pipe.schedule) ==> rc == |src| && pipe.inTransit == old(pipe.inTransit) + Frame(src)
    ensures pipe.ends == old(pipe.ends)
    ensures pipe.stalls == old(pipe.stalls) ==>
              if rc == |src| then pipe.written == old(pipe.written) + Frame(src)
              else exists k: nat ::
                k < |Frame(src)| && pipe.written == old(pipe.written) + Frame(src)[..k]
    ensures pipe.stalls != old(pipe.stalls) ==>
              exists j: nat, k: nat :: Torn(old(pipe.written), pipe.written, src, j, k)
  {
    var header := Store(true, |src| % 0x1_0000);
    ghost var was := pipe.written;
    rc := WriteAll(pipe, header);
    ghost var j := 2;
    if rc != 2 {
      j :| 0 <= j < 2 && pipe.written == was + header[..j];
    }
    assert header[..j] == Frame(src)[..j];
    if rc < 0 {
      return -1;
    }
    ghost var between := pipe.written;
    rc := WriteAll(pipe, src);
    ghost var k := |src|;
    if rc != |src| {
      k :| 0 <= k < |src| && pipe.written == between + src[..k];
    }
    assert src[..|src|] == src;
    if pipe.stalls == old(pipe.stalls) {
      assert Frame(src)[..2 + k] == header + src[..k];
    } else {
      assert Torn(was, pipe.written, src, j, k);
    }
    rc := if rc < 0 then -1 else |src|;
  }

  /** A length, and as many octets as it says. */
  predicate WholeFrame(stream: seq<byte>) {
    |stream| >= 2 && 0 < LengthOf(stream) <= |stream| - 2
  }

  lemma HeaderIs(header: seq<byte>)
    requires |header| == 2
    ensures LengthOf(header) < 0x1_0000
    ensures forall p :: |p| == LengthOf(header) ==> Frame(p) == header + p
  {
  }

  lemma FrameStands(p: seq<byte>, rest: seq<byte>)
    requires Fits(p)
    ensures var stream := Frame(p) + rest;
            && WholeFrame(stream) && LengthOf(stream) == |p|
            && stream[2..2 + |p|] == p && stream[2 + |p|..] == rest
  {
    LengthRoundTrip(p, rest);
    var stream := Frame(p) + rest;
    assert stream[..2 + |p|] == Frame(p);
    assert stream[2..2 + |p|] == Frame(p)[2..];
  }

  /** What receiving into a buffer comes to, which holds `buf` afterwards.  A packet that fits the
      buffer leaves the stream as the very frame that was sent; a result of 0 or less means that
      the stream broke off, or that a length of zero was read. */
  predicate Received(rc: int, consumed: seq<byte>, buf: seq<byte>) {
    && (rc > 0 ==> |consumed| >= 2 && rc == LengthOf(consumed))
    && (0 < rc <= |buf| ==> consumed == Frame(buf[..rc]))
    && (rc > |buf| ==> 2 + |buf| <= |consumed| <= 2 + rc && consumed[2..2 + |buf|] == buf)
    && (rc <= 0 ==> |consumed| < 2 || buf == [] || LengthOf(consumed) == 0
                    || |consumed| < 2 + LengthOf(consumed))
  }

  method CopyTo(dst: array<byte>, data: seq<byte>)
    requires |data| <= dst.Length
    modifies dst
    ensures dst[..|data|] == data
  {
    forall i | 0 <= i < |data| {
      dst[i] := data[i];
    }
  }

  /** `_network_recv_packet` on a connected socket.  It fails only if a read did, and finds the end
      only if a read did, or nothing was asked for; and if the reads serve it, a whole frame at the
      front of the stream comes out, cut to the buffer, and is gone from the stream. */
  method RecvPacket(pipe: Pipe, dst: array<byte>, maxLen: nat)
    returns (rc: int, ghost consumed: seq<byte>)
    requires pipe.Valid() && maxLen <= dst.Length
    modifies pipe, dst
    ensures pipe.Valid() && pipe.written == old(pipe.written)
    ensures old(pipe.inTransit) == consumed + pipe.inTransit
    ensures Received(rc, consumed, dst[..maxLen])
    ensures rc >= -1 && (rc == -1 ==> pipe.failures > old(pipe.failures))
    ensures rc == 0 ==> pipe.ends > old(pipe.ends)
                        || (|consumed| == 2 && (maxLen == 0 || LengthOf(consumed) == 0))
    ensures Serves(pipe.schedule) && maxLen > 0 && WholeFrame(old(pipe.inTransit)) ==>
              && rc == LengthOf(old(pipe.inTransit))
              && pipe.inTransit == old(pipe.inTransit)[2 + rc..]
              && var m := if rc < maxLen then rc else maxLen;
                 dst[..m] == old(pipe.inTransit)[2..2 + m]
  {
    hide Frame, Store, Load;
    ghost var stream := pipe.inTransit;
    var header, data;
    rc, header := ReadAll(pipe, 2);
    consumed := header;
    if rc <= 0 {
      return;
    }
    var packetLen := LengthOf(header);
    HeaderIs(header);
    rc, data := ReadAll(pipe, if packetLen < maxLen then packetLen else maxLen);
    consumed := header + data;
    CopyTo(dst, data);
    if rc <= 0 {
      return;
    }
    if packetLen > maxLen {
      assert dst[..maxLen] == data;
      var ignored, rest := ReadAll(pipe, packetLen - maxLen);
      consumed := consumed + rest;
    } else {
      assert dst[..maxLen][..packetLen] == data;
    }
    rc := packetLen;
  }

  /** When a frame stands at the front of the stream and receiving succeeds: the length comes out
      mod 2^16; the packet comes out and the stream stands behind it exactly if the packet fits the
      framing and the buffer.  One that fits only the framing is cut to the buffer.  Of one that
      does not fit the framing a beginning comes out, and the next length is read from inside it;
      and one of length 0 mod 2^16 looks like the end. */
  lemma ReceivedFrame(p: seq<byte>, rest: seq<byte>, rc: int, consumed: seq<byte>, left: seq<byte>,
                      buf: seq<byte>)
    requires consumed + left == Frame(p) + rest && Received(rc, consumed, buf) && rc > 0
    ensures rc == |p| % 0x1_0000
    ensures (rc == |p| <= |buf| && buf[..rc] == p && left == rest) <==> Fits(p) && |p| <= |buf|
    ensures rc <= |buf| ==> buf[..rc] == p[..rc] && left == p[rc..] + rest
    ensures rc > |buf| ==>
              buf == p[..|buf|] && exists k: nat :: |buf| <= k <= rc && left == p[k..] + rest
  {
    LengthRoundTrip(p, rest);
    var header, k := Store(true, |p| % 0x1_0000), |consumed| - 2;
    assert consumed[0] == (consumed + left)[0] && consumed[1] == (consumed + left)[1];
    SplitStream(header, p, rest, consumed, left);
    hide Store, Load, Fits;
    if rc <= |buf| {
      assert Frame(buf[..rc])[2..] == buf[..rc];
    } else {
      assert p[..k][..|buf|] == p[..|buf|];
      assert consumed[2..2 + |buf|] == consumed[2..][..|buf|];
    }
  }

  lemma SplitStream(header: seq<byte>, p: seq<byte>, rest: seq<byte>, consumed: seq<byte>,
                    left: seq<byte>)
    requires consumed + left == header + p + rest && |header| == 2
    requires 2 <= |consumed| <= 2 + |p|
    ensures var k := |consumed| - 2;
            consumed[2..] == p[..k] && left == p[k..] + rest
  {
    var all, k := header + p + rest, |consumed| - 2;
    assert consumed == all[..2 + k] && left == all[2 + k..];
    assert all[2..2 + k] == p[..k] && all[2 + k..] == p[k..] + rest;
  }

  /** Sends packets and then receives as many: with a system that serves every call, however short
      each time, exactly the packets come out, in order, and nothing is left. */
  method Exchange(pipe: Pipe, packets: seq<seq<byte>>) returns (got: seq<seq<byte>>)
    requires pipe.Valid() && Serves(pipe.schedule) && pipe.inTransit == []
    requires forall i :: 0 <= i < |packets| ==> Fits(packets[i])
    modifies pipe
    ensures got == packets && pipe.Valid() && pipe.inTransit == []
    ensures pipe.written == old(pipe.written) + Wire(packets)
  {
    hide Frame, Fits;
    for k := 0 to |packets|
      invariant pipe.Valid() && pipe.inTransit == Wire(packets[..k])
      invariant pipe.written == old(pipe.written) + Wire(packets[..k]) && pipe.taken == old(pipe.taken)
    {
      var _ := SendPacket(pipe, packets[k]);
      WireSnoc(packets, k);
    }
    assert packets[..|packets|] == packets;
    got := [];
    for k := 0 to |packets|
      invariant pipe.Valid() && got == packets[..k] && pipe.inTransit == Wire(packets[k..])
      invariant pipe.written == old(pipe.written) + Wire(packets)
    {
      var dst := new byte[0xffff];
      WireFrom(packets, k);
      SizeOf(packets[k]);
      ghost var p, rest := packets[k], Wire(packets[k + 1..]);
      FrameStands(p, rest);
      var n, _ := RecvPacket(pipe, dst, 0xffff);
      got := got + [dst[..n]];
    }
  }

  lemma SizeOf(p: seq<byte>)
    requires Fits(p)
    ensures |p| <= 0xffff
  {
  }

  lemma WireSnoc(packets: seq<seq<byte>>, k: nat)
    requires k < |packets|
    ensures Wire(packets[..k + 1]) == Wire(packets[..k]) + Frame(packets[k])
  {
    assert packets[..k + 1] == packets[..k] + [packets[k]];
    WireAppend(packets[..k], [packets[k]]);
    WireOne(packets[k]);
  }

  lemma WireFrom(packets: seq<seq<byte>>, k: nat)
    requires k < |packets|
    ensures Wire(packets[k..]) == Frame(packets[k]) + Wire(packets[k + 1..])
  {
    assert packets[k..][1..] == packets[k + 1..];
  }
}
