/** The network interface as built: three tables updated in place, and queues drained one by one. */
module NetworkInterfaces {
  import opened Common
  import opened InterfaceModel

  class NetworkInterface {
    const ethernetAddress: Mac
    const ipAddress: u32
    var arpCache: map<u32, Mapping>
    var pendingDatagrams: map<u32, seq<Datagram>>
    var arpRequestTimes: map<u32, nat>
    var datagramsReceived: seq<Datagram>
    var totalTime: nat

    ghost function Model(): Interface
      reads this
    {
      Interface(ethernetAddress, ipAddress, arpCache, pendingDatagrams, arpRequestTimes, datagramsReceived, totalTime)
    }

    ghost predicate Valid()
      reads this
    {
      Model().Valid()
    }

    constructor (ethernetAddress: Mac, ipAddress: u32)
      ensures Valid() && Model() == NewInterface(ethernetAddress, ipAddress)
    {
      this.ethernetAddress, this.ipAddress := ethernetAddress, ipAddress;
      arpCache, pendingDatagrams, arpRequestTimes := map[], map[], map[];
      datagramsReceived, totalTime := [], 0;
    }

    /** `sent` are the frames put on the wire. */
    method SendDatagram(d: Datagram, nextHop: u32) returns (sent: seq<Frame>)
      modifies this
      ensures Model() == old(Model()).Send(d, nextHop).0 && sent == old(Model()).Send(d, nextHop).1
    {
      sent := [];
      if nextHop in arpCache {
        var entry := arpCache[nextHop];
        sent := [Frame(entry.mac, ethernetAddress, IPv4(d))];
      } else {
        if nextHop !in arpRequestTimes || totalTime >= arpRequestTimes[nextHop] {
          if nextHop in arpRequestTimes {
            pendingDatagrams := pendingDatagrams - {nextHop};
          }
          sent := [Frame(BROADCAST, ethernetAddress, ARP(Arp(true, ethernetAddress, ipAddress, 0, nextHop)))];
          arpRequestTimes := arpRequestTimes[nextHop := totalTime + REQUEST_THROTTLE];
        }
        var queue := if nextHop in pendingDatagrams then pendingDatagrams[nextHop] else [];
        ghost var before := old(Model());
        assert queue == if before.MayRequest(nextHop) && nextHop in before.requested then [] else before.Waiting(nextHop);
        pendingDatagrams := pendingDatagrams[nextHop := queue + [d]];
        assert pendingDatagrams == before.Send(d, nextHop).0.pending;
      }
    }

    /** Serve everybody who waits for `hop`, whose address is known by now. */
    method ServePending(hop: u32) returns (sent: seq<Frame>)
      requires hop in arpCache
      modifies this
      ensures Model() == old(Model()).(pending := old(pendingDatagrams) - {hop})
      ensures sent == old(Model()).EncapsulateAll(arpCache[hop].mac, old(Model()).Waiting(hop))
    {
      sent := [];
      if hop in pendingDatagrams {
        ghost var before := Model();
        ghost var waiting := pendingDatagrams[hop];
        while pendingDatagrams[hop] != []
          invariant hop in pendingDatagrams && hop in arpCache
          invariant Model() == before.(pending := pendingDatagrams)
          invariant pendingDatagrams - {hop} == before.pending - {hop}
          invariant |sent| + |pendingDatagrams[hop]| == |waiting|
          invariant pendingDatagrams[hop] == waiting[|sent|..]
          invariant forall k | 0 <= k < |sent| :: sent[k] == before.Encapsulated(arpCache[hop].mac, waiting[k])
          decreases |pendingDatagrams[hop]|
        {
          var first := pendingDatagrams[hop][0];
          pendingDatagrams := pendingDatagrams[hop := pendingDatagrams[hop][1..]];
          var frames := SendDatagram(first, hop);
          sent := sent + frames;
        }
        pendingDatagrams := pendingDatagrams - {hop};
      }
    }

    method RecvFrame(frame: Frame) returns (sent: seq<Frame>)
      requires Valid()
      modifies this
      ensures Valid() && Model() == old(Model()).Receive(frame).0 && sent == old(Model()).Receive(frame).1
    {
      ghost var before := Model();
      ReceiveKeeps(before, frame);
      sent := [];
      if frame.dst != ethernetAddress && frame.dst != BROADCAST {
        return;
      }
      match frame.content
      case IPv4(d) =>
        datagramsReceived := datagramsReceived + [d];
      case ARP(a) =>
        arpCache := arpCache[a.senderIp := Mapping(a.senderMac, totalTime + MAPPING_TTL)];
        sent := ServePending(a.senderIp);
        assert sent == before.EncapsulateAll(a.senderMac, before.Waiting(a.senderIp)) && sent + [] == sent;
        if a.request && a.targetIp == ipAddress {
          var reply := Arp(false, ethernetAddress, ipAddress, a.senderMac, a.senderIp);
          sent := sent + [Frame(a.senderMac, ethernetAddress, ARP(reply))];
        }
    }

    /** Time passes; expired mappings are erased one after the other, in whatever order. */
    method Tick(ms: nat)
      requires Valid()
      modifies this
      ensures Valid() && Model() == old(Model()).Tick(ms)
    {
      TickKeeps(Model(), ms);
      totalTime := totalTime + ms;
      var unvisited := arpCache.Keys;
      while unvisited != {}
        invariant unvisited <= arpCache.Keys && totalTime == old(totalTime) + ms
        invariant Model() == old(Model()).(now := totalTime, cache := arpCache)
        invariant forall ip | ip in arpCache :: ip in old(arpCache) && arpCache[ip] == old(arpCache)[ip]
        invariant forall ip | ip in old(arpCache) ::
                    ip in unvisited || (ip in arpCache <==> totalTime < old(arpCache)[ip].expires)
        decreases unvisited
      {
        var ip :| ip in unvisited;
        unvisited := unvisited - {ip};
        if totalTime >= arpCache[ip].expires {
          arpCache := arpCache - {ip};
        }
      }
      assert arpCache == old(Model()).Tick(ms).cache;
    }
  }
}
