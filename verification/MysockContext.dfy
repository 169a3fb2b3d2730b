/** One mysocket between the application, the transport layer and the network: three packet
    queues, the end-of-file flag and the close request. */
module MysockContext {
  import opened Bytes
  import opened PacketQueue

  /** The bits of `stcp_wait_for_event`. */
  datatype Events = Events(appData: bool, networkData: bool, closeRequested: bool)

  const NO_EVENT := Events(false, false, false)

  /** What the application reads from. */
  datatype Inbound = Inbound(queue: seq<seq<byte>>, eof: bool)

  /** What the application writes to. */
  datatype Outbound = Outbound(queue: seq<seq<byte>>, closeRequested: bool)

  /** The octets one `myread` hands over. */
  function ReadBytes(s: Inbound, size: nat): seq<byte>
    requires s.eof || s.queue != []
  {
    if s.eof then [] else Taken(s.queue[0], size)
  }

  function AfterRead(s: Inbound, size: nat): Inbound
    requires s.eof || s.queue != []
  {
    if s.eof then s else Inbound(Left(s.queue, size, true), ReadBytes(s, size) == [])
  }

  /** The close event is due: it was asked for and nothing is left to pass down. */
  predicate CloseDue(s: Outbound) {
    s.closeRequested && s.queue == []
  }

  function AfterWait(s: Outbound): Outbound {
    if CloseDue(s) then s.(closeRequested := false) else s
  }

  class Context {
    const networkRecv: Queue
    const appSend: Queue
    const appRecv: Queue
    var closeRequested: bool
    var eof: bool
    var listening: bool

    ghost predicate Valid()
      reads this, networkRecv, networkRecv.Repr, appSend, appSend.Repr, appRecv, appRecv.Repr
    {
      && networkRecv.Valid() && appSend.Valid() && appRecv.Valid()
      && networkRecv.Repr !! appSend.Repr && networkRecv.Repr !! appRecv.Repr
      && appSend.Repr !! appRecv.Repr
      && this !in networkRecv.Repr + appSend.Repr + appRecv.Repr
    }

    ghost function In(): Inbound
      reads this, appSend
    {
      Inbound(appSend.contents, eof)
    }

    ghost function Out(): Outbound
      reads this, appRecv
    {
      Outbound(appRecv.contents, closeRequested)
    }

    ghost function Arrived(): seq<seq<byte>>
      reads networkRecv
    {
      networkRecv.contents
    }

    constructor ()
      ensures Valid() && !listening
      ensures In() == Inbound([], false) && Out() == Outbound([], false) && Arrived() == []
    {
      networkRecv := new Queue();
      appSend := new Queue();
      appRecv := new Queue();
      closeRequested, eof, listening := false, false, false;
    }

    /** `mywrite`: queues the octets for the transport layer. */
    method Write(buf: seq<byte>) returns (n: int)
      requires Valid() && (listening || !closeRequested)
      modifies appRecv.Repr
      ensures Valid() && fresh(appRecv.Repr - old(appRecv.Repr))
      ensures In() == old(In()) && Arrived() == old(Arrived())
      ensures listening == old(listening)
      ensures if listening then n == -1 && Out() == old(Out())
              else n == |buf| && Out() == old(Out()).(queue := old(Out().queue) + [buf])
    {
      if listening {
        return -1;
      }
      appRecv.Enqueue(buf);
      n := |buf|;
    }

    /** `myread`: an empty packet, or a read of no octets, raises the end-of-file flag for
        good. */
    method Read(buf: array<byte>, size: nat) returns (n: int)
      requires Valid() && (listening || !closeRequested)
      requires listening || eof || In().queue != []
      requires buf !in appSend.Repr && buf !in appRecv.Repr && buf !in networkRecv.Repr
      requires size <= buf.Length
      modifies this`eof, appSend.Repr, buf
      ensures Valid() && appSend.Repr <= old(appSend.Repr)
      ensures Out() == old(Out()) && Arrived() == old(Arrived())
      ensures listening == old(listening)
      ensures listening ==> n == -1 && In() == old(In()) && buf[..] == old(buf[..])
      ensures !listening ==> In() == AfterRead(old(In()), size)
      ensures !listening ==> var got := ReadBytes(old(In()), size);
                n == |got| <= buf.Length && buf[..n] == got && buf[n..] == old(buf[n..])
    {
      if listening {
        return -1;
      }
      if eof {
        return 0;
      }
      n := appSend.Dequeue(buf, size, true);
      if n == 0 {
        eof := true;
      }
    }

    /** `stcp_app_send`: empty payloads are dropped, so that they are not taken for the end. */
    method AppSend(src: seq<byte>)
      requires Valid()
      modifies appSend.Repr
      ensures Valid() && fresh(appSend.Repr - old(appSend.Repr))
      ensures Out() == old(Out()) && Arrived() == old(Arrived())
      ensures In() == if src == [] then old(In())
                      else old(In()).(queue := old(In().queue) + [src])
    {
      if |src| > 0 {
        appSend.Enqueue(src);
      }
    }

    /** `stcp_fin_received`: an empty packet marks the end. */
    method FinReceived()
      requires Valid()
      modifies appSend.Repr
      ensures Valid() && fresh(appSend.Repr - old(appSend.Repr))
      ensures Out() == old(Out()) && Arrived() == old(Arrived())
      ensures In() == old(In()).(queue := old(In().queue) + [[]])
    {
      appSend.Enqueue([]);
    }

    /** `stcp_app_recv`: takes from the head packet, splitting it when the buffer is short. */
    method AppRecv(dst: array<byte>, maxLen: nat) returns (n: nat)
      requires Valid() && Out().queue != []
      requires dst !in appSend.Repr && dst !in appRecv.Repr && dst !in networkRecv.Repr
      requires maxLen <= dst.Length
      modifies appRecv.Repr, dst
      ensures Valid() && appRecv.Repr <= old(appRecv.Repr)
      ensures In() == old(In()) && Arrived() == old(Arrived())
      ensures Out() == old(Out()).(queue := Left(old(Out().queue), maxLen, true))
      ensures var got := Taken(old(Out().queue[0]), maxLen);
              n == |got| <= dst.Length && dst[..n] == got && dst[n..] == old(dst[n..])
    {
      n := appRecv.Dequeue(dst, maxLen, true);
    }

    /** `myclose`, up to the point where it waits for the transport layer. */
    method RequestClose()
      requires Valid()
      modifies this`closeRequested
      ensures Valid()
      ensures In() == old(In()) && Arrived() == old(Arrived())
      ensures Out() == old(Out()).(closeRequested := true)
    {
      closeRequested := true;
    }

    /** One pass of the loop of `stcp_wait_for_event`; no event means that it waits on.  The
        close event comes whatever the flags, and is used up by being reported. */
    method Poll(flags: Events) returns (rc: Events)
      requires Valid()
      modifies this`closeRequested
      ensures Valid()
      ensures In() == old(In()) && Arrived() == old(Arrived())
      ensures Out() == AfterWait(old(Out()))
      ensures rc.appData <==> flags.appData && old(Out().queue) != []
      ensures rc.networkData <==> flags.networkData && Arrived() != []
      ensures rc.closeRequested <==> old(closeRequested) && old(Out().queue) == []
      ensures closeRequested <==> old(closeRequested) && !rc.closeRequested
    {
      rc := NO_EVENT;
      if flags.appData && appRecv.head != null {
        rc := rc.(appData := true);
      }
      if flags.networkData && networkRecv.head != null {
        rc := rc.(networkData := true);
      }
      if closeRequested && appRecv.head == null {
        closeRequested := false;
        rc := rc.(closeRequested := true);
      }
    }
  }
}
