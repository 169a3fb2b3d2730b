/** What the ARP cache does to its table and its request queue, on values. */
module ArpSpec {
  import opened Bytes
  import opened Options

  const SR_ARPCACHE_SZ: nat := 100
  const SR_ARPCACHE_TO: int := 15

  /** A mapping in the table. */
  datatype Entry = Entry(mac: seq<byte>, ip: nat, added: int, valid: bool)

  /** A waiting packet with its outgoing interface. */
  datatype Packet = Packet(buf: seq<byte>, iface: string)

  /** An outstanding request; `sent` is 0 until the first transmission. */
  datatype Request = Request(ip: nat, sent: int, timesSent: nat, packets: seq<Packet>)

  // ------------------------------------------------------------------ the table

  predicate Matches(e: Entry, ip: nat) {
    e.valid && e.ip == ip
  }

  /** The scan keeps the last match. */
  function LookupIn(entries: seq<Entry>, ip: nat): Option<Entry> {
    if entries == [] then None
    else if Matches(entries[|entries| - 1], ip) then Some(entries[|entries| - 1])
    else LookupIn(entries[..|entries| - 1], ip)
  }

  /** The first invalid entry, or the size of the table. */
  function FirstInvalid(entries: seq<Entry>): (i: nat)
    ensures i <= |entries|
    ensures i < |entries| ==> !entries[i].valid
    ensures forall j :: 0 <= j < i ==> entries[j].valid
  {
    if entries == [] || !entries[0].valid then 0 else 1 + FirstInvalid(entries[1..])
  }

  /** A full table drops the new mapping. */
  function InsertIn(entries: seq<Entry>, mac: seq<byte>, ip: nat, now: int): seq<Entry> {
    var i := FirstInvalid(entries);
    if i < |entries| then entries[i := Entry(mac, ip, now, true)] else entries
  }

  function Aged(e: Entry, now: int): Entry {
    if e.valid && now - e.added > SR_ARPCACHE_TO then e.(valid := false) else e
  }

  function ExpireIn(entries: seq<Entry>, now: int): (r: seq<Entry>)
    ensures |r| == |entries|
  {
    seq(|entries|, i requires 0 <= i < |entries| => Aged(entries[i], now))
  }

  // ------------------------------------------------------------------ the queue

  /** Where the request for an address is, or the length of the queue. */
  function IndexOf(reqs: seq<Request>, ip: nat): (i: nat)
    ensures i <= |reqs|
    ensures i < |reqs| ==> reqs[i].ip == ip
    ensures forall j :: 0 <= j < i ==> reqs[j].ip != ip
  {
    if reqs == [] || reqs[0].ip == ip then 0 else 1 + IndexOf(reqs[1..], ip)
  }

  function WithPacket(r: Request, packet: Option<Packet>): Request {
    if packet.Some? then r.(packets := [packet.value] + r.packets) else r
  }

  /** `sr_arpcache_queuereq`. */
  function QueueIn(reqs: seq<Request>, ip: nat, packet: Option<Packet>): seq<Request> {
    var i := IndexOf(reqs, ip);
    if i < |reqs| then reqs[i := WithPacket(reqs[i], packet)]
    else [WithPacket(Request(ip, 0, 0, []), packet)] + reqs
  }

  function Without(reqs: seq<Request>, i: nat): seq<Request>
    requires i < |reqs|
  {
    reqs[..i] + reqs[i + 1..]
  }

  /** `handle_arpreq`: a transmission, when the last one is more than a second ago and there
      were fewer than five. */
  function Handle(r: Request, now: int): Request {
    if now - r.sent > 1 && r.timesSent < 5 then
      r.(sent := now, timesSent := if r.sent == 0 then 1 else r.timesSent + 1)
    else r
  }

  predicate Exhausted(r: Request) {
    r.timesSent >= 5
  }

  /** `sr_arpcache_sweepreqs`: every request is handled, and dropped after its fifth
      transmission. */
  function Sweep(reqs: seq<Request>, now: int): seq<Request> {
    if reqs == [] then []
    else
      var r := Handle(reqs[|reqs| - 1], now);
      Sweep(reqs[..|reqs| - 1], now) + if Exhausted(r) then [] else [r]
  }

  /** The packets freed by one sweep: those of the requests that are given up. */
  function GivenUp(reqs: seq<Request>, now: int): multiset<Packet> {
    if reqs == [] then multiset{}
    else
      var r := reqs[|reqs| - 1];
      GivenUp(reqs[..|reqs| - 1], now)
      + if Exhausted(Handle(r, now)) then multiset(r.packets) else multiset{}
  }
}
