/** What a NetworkInterface does: address resolution with a cache, a throttle and waiting queues. */
module InterfaceModel {
  import opened Common

  /** A 48-bit hardware address. */
  type Mac = x: nat | x < 0x1_0000_0000_0000

  const BROADCAST: Mac := 0xffff_ffff_ffff

  /** How long a mapping is believed, and how long a request is not repeated, in milliseconds. */
  const MAPPING_TTL: nat := 30000
  const REQUEST_THROTTLE: nat := 5000

  /** An ARP message, a request or a reply. */
  datatype Arp = Arp(request: bool, senderMac: Mac, senderIp: u32, targetMac: Mac, targetIp: u32)

  datatype Content = IPv4(datagram: Datagram) | ARP(arp: Arp)

  datatype Frame = Frame(dst: Mac, src: Mac, content: Content)

  datatype Mapping = Mapping(mac: Mac, expires: nat)

  datatype Interface = Interface(
    mac: Mac, ip: u32,
    cache: map<u32, Mapping>, pending: map<u32, seq<Datagram>>, requested: map<u32, nat>,
    received: seq<Datagram>, now: nat)
  {
    /** No address is both resolved and waited for; what is cached has not expired; who waits has
        asked. */
    ghost predicate Valid() {
      && cache.Keys !! pending.Keys
      && pending.Keys <= requested.Keys
      && (forall ip | ip in cache :: now < cache[ip].expires <= now + MAPPING_TTL)
      && (forall ip | ip in requested :: requested[ip] <= now + REQUEST_THROTTLE)
    }

    function Waiting(ip: u32): seq<Datagram> {
      if ip in pending then pending[ip] else []
    }

    function Encapsulated(to: Mac, d: Datagram): Frame {
      Frame(to, mac, IPv4(d))
    }

    function Request(target: u32): Frame {
      Frame(BROADCAST, mac, ARP(Arp(true, mac, ip, 0, target)))
    }

    function ReplyTo(a: Arp): Frame {
      Frame(a.senderMac, mac, ARP(Arp(false, mac, ip, a.senderMac, a.senderIp)))
    }

    /** The request for `hop` was never made, or its time is up. */
    predicate MayRequest(hop: u32) {
      hop !in requested || now >= requested[hop]
    }

    /** Send a datagram to the next hop `hop`: at once if its hardware address is known, else it
        waits, and a request goes out unless one is still fresh. Whoever waited for an expired
        request is dropped. */
    function Send(d: Datagram, hop: u32): (Interface, seq<Frame>) {
      if hop in cache then
        (this, [Encapsulated(cache[hop].mac, d)])
      else if MayRequest(hop) then
        var kept := if hop in requested then [] else Waiting(hop);
        (this.(requested := requested[hop := now + REQUEST_THROTTLE], pending := pending[hop := kept + [d]]),
         [Request(hop)])
      else
        (this.(pending := pending[hop := Waiting(hop) + [d]]), [])
    }

    function EncapsulateAll(to: Mac, ds: seq<Datagram>): (fs: seq<Frame>)
      ensures |fs| == |ds| && forall k | 0 <= k < |fs| :: fs[k] == Encapsulated(to, ds[k])
    {
      seq(|ds|, k requires 0 <= k < |ds| => Encapsulated(to, ds[k]))
    }

    /** An ARP message: learn the sender, serve whoever waited for it, and answer if asked. */
    function Learn(a: Arp): (Interface, seq<Frame>) {
      (this.(cache := cache[a.senderIp := Mapping(a.senderMac, now + MAPPING_TTL)],
             pending := pending - {a.senderIp}),
       EncapsulateAll(a.senderMac, Waiting(a.senderIp))
       + if a.request && a.targetIp == ip then [ReplyTo(a)] else [])
    }

    function Receive(f: Frame): (Interface, seq<Frame>) {
      if f.dst != mac && f.dst != BROADCAST then (this, [])
      else match f.content
           case IPv4(d) => (this.(received := received + [d]), [])
           case ARP(a) => Learn(a)
    }

    /** Time passes, and mappings expire. */
    function Tick(ms: nat): Interface {
      this.(now := now + ms, cache := map ip | ip in cache && now + ms < cache[ip].expires :: cache[ip])
    }
  }

  function NewInterface(mac: Mac, ip: u32): (i: Interface)
    ensures i.Valid()
  {
    Interface(mac, ip, map[], map[], map[], [], 0)
  }

  /** Whatever happens, the invariant holds. */
  lemma SendKeeps(i: Interface, d: Datagram, hop: u32)
    requires i.Valid()
    ensures i.Send(d, hop).0.Valid()
  {
  }

  lemma ReceiveKeeps(i: Interface, f: Frame)
    requires i.Valid()
    ensures i.Receive(f).0.Valid()
  {
  }

  lemma TickKeeps(i: Interface, ms: nat)
    requires i.Valid()
    ensures i.Tick(ms).Valid()
  {
  }
}
