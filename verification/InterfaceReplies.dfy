/** What else a NetworkInterface puts on the wire and hands up, over whole runs: requests and replies
    (RFC 826), and the datagrams received. */
module InterfaceReplies {
  import opened Common
  import opened InterfaceModel
  import opened InterfaceRuns

  /** The frame is addressed to the interface with the hardware address `mac`, or to everybody. */
  predicate Reaches(f: Frame, mac: Mac) {
    f.dst == mac || f.dst == BROADCAST
  }

  /** The ARP messages that reached the interface and asked for its address, in order. */
  function Questions(mac: Mac, ip: u32, events: seq<Event>): seq<Arp> {
    if events == [] then []
    else
      Questions(mac, ip, events[..|events| - 1]) + QuestionIn(mac, ip, events[|events| - 1])
  }

  function QuestionIn(mac: Mac, ip: u32, e: Event): seq<Arp> {
    if && e.Receiving? && Reaches(e.f, mac)
       && e.f.content.ARP? && e.f.content.arp.request && e.f.content.arp.targetIp == ip
    then [e.f.content.arp]
    else []
  }

  /** The datagrams in the IPv4 frames that reached the interface, in order. */
  function Addressed(mac: Mac, events: seq<Event>): seq<Datagram> {
    if events == [] then []
    else
      var e := events[|events| - 1];
      Addressed(mac, events[..|events| - 1])
      + if e.Receiving? && Reaches(e.f, mac) && e.f.content.IPv4? then [e.f.content.datagram] else []
  }

  predicate IsReply(f: Frame) {
    f.content.ARP? && !f.content.arp.request
  }

  predicate IsRequest(f: Frame) {
    f.content.ARP? && f.content.arp.request
  }

  function RepliesIn(frames: seq<Frame>): seq<Frame> {
    if frames == [] then [] else (if IsReply(frames[0]) then [frames[0]] else []) + RepliesIn(frames[1..])
  }

  function RequestsIn(frames: seq<Frame>): seq<Frame> {
    if frames == [] then [] else (if IsRequest(frames[0]) then [frames[0]] else []) + RequestsIn(frames[1..])
  }

  /** The ARP replies transmitted in a run, in order. */
  function Replies(i: Interface, events: seq<Event>): seq<Frame>
    requires i.Valid()
  {
    if events == [] then []
    else
      var rest := events[..|events| - 1];
      Replies(i, rest) + RepliesIn(Step(After(i, rest), events[|events| - 1]).1)
  }

  /** The reply goes to whoever asked, and tells both hardware addresses. */
  predicate Answers(f: Frame, question: Arp, mac: Mac, ip: u32) {
    && f.dst == question.senderMac && f.src == mac && IsReply(f)
    && f.content.arp.senderMac == mac && f.content.arp.senderIp == ip
    && f.content.arp.targetMac == question.senderMac && f.content.arp.targetIp == question.senderIp
  }

  predicate AllAnswered(frames: seq<Frame>, questions: seq<Arp>, mac: Mac, ip: u32) {
    |frames| == |questions| && forall k | 0 <= k < |frames| :: Answers(frames[k], questions[k], mac, ip)
  }

  lemma {:induction false} NoArpInDatagrams(i: Interface, to: Mac, ds: seq<Datagram>, tail: seq<Frame>)
    ensures RepliesIn(i.EncapsulateAll(to, ds) + tail) == RepliesIn(tail)
    ensures RequestsIn(i.EncapsulateAll(to, ds) + tail) == RequestsIn(tail)
  {
    var all := i.EncapsulateAll(to, ds) + tail;
    if ds == [] {
      assert all == tail;
    } else {
      NoArpInDatagrams(i, to, ds[1..], tail);
      assert all[0] == i.Encapsulated(to, ds[0]) && all[1..] == i.EncapsulateAll(to, ds[1..]) + tail;
    }
  }

  lemma FewFrames(frames: seq<Frame>)
    ensures frames == [] ==> RepliesIn(frames) == [] && RequestsIn(frames) == []
    ensures |frames| == 1 ==> RepliesIn(frames) == if IsReply(frames[0]) then frames else []
    ensures |frames| == 1 ==> RequestsIn(frames) == if IsRequest(frames[0]) then frames else []
  {
    if |frames| == 1 {
      assert frames[1..] == [] && frames == [frames[0]];
    }
  }

  /** One event: who asks is answered, nobody else is, and only a send makes a request. */
  lemma EventIsAnswered(i: Interface, e: Event)
    ensures AllAnswered(RepliesIn(Step(i, e).1), QuestionIn(i.mac, i.ip, e), i.mac, i.ip)
    ensures !e.Sending? ==> RequestsIn(Step(i, e).1) == []
  {
    var frames := Step(i, e).1;
    FewFrames(frames);
    if e.Receiving? && Reaches(e.f, i.mac) && e.f.content.ARP? {
      var a := e.f.content.arp;
      var tail := if a.request && a.targetIp == i.ip then [i.ReplyTo(a)] else [];
      NoArpInDatagrams(i, a.senderMac, i.Waiting(a.senderIp), tail);
      FewFrames(tail);
    }
  }

  lemma ReceivedStep(i: Interface, e: Event)
    ensures Step(i, e).0.received == i.received
            + if e.Receiving? && Reaches(e.f, i.mac) && e.f.content.IPv4? then [e.f.content.datagram] else []
  {
    assert i.received + [] == i.received;
  }

  /** Over every run the replies transmitted are one for each request that reached the interface and
      asked for its address, in order, each to the asker, and none else; and what has been handed up is
      exactly what IPv4 frames brought to the interface, in order. */
  lemma {:induction false} RunIsAnswered(mac: Mac, ip: u32, events: seq<Event>)
    ensures
      var i := NewInterface(mac, ip);
      && AllAnswered(Replies(i, events), Questions(mac, ip, events), mac, ip)
      && After(i, events).received == Addressed(mac, events)
  {
    var i := NewInterface(mac, ip);
    if events != [] {
      var rest, e := events[..|events| - 1], events[|events| - 1];
      RunIsAnswered(mac, ip, rest);
      EventIsAnswered(After(i, rest), e);
      var before := After(i, rest);
      ReceivedStep(before, e);
      assert After(i, events) == Step(before, e).0;
      assert Replies(i, events) == Replies(i, rest) + RepliesIn(Step(before, e).1);
      hide Step, After, Replies, QuestionIn, Answers, RepliesIn, Interface.Valid;
    }
  }

  /** No ARP message of the last 30000 ms tells the hardware address of `hop`. */
  predicate Unresolved(i: Interface, events: seq<Event>, hop: u32)
    requires i.Valid()
  {
    var heard := LastHeard(i, events, hop);
    heard.None? || heard.value.1 + MAPPING_TTL <= After(i, events).now
  }

  /** No request of the last 5000 ms asks for it. */
  predicate NotAskedLately(i: Interface, events: seq<Event>, hop: u32)
    requires i.Valid()
  {
    var times := RequestTimes(i, events, hop);
    times == [] || times[|times| - 1] + REQUEST_THROTTLE <= After(i, events).now
  }

  /** Over every run a request is transmitted exactly by a send whose next hop is unresolved and was not
      asked for lately; it is broadcast, and asks for that hop on behalf of this interface. */
  lemma RequestsAreMade(mac: Mac, ip: u32, events: seq<Event>, e: Event)
    ensures
      var i := NewInterface(mac, ip);
      RequestsIn(Step(After(i, events), e).1) ==
      if e.Sending? && Unresolved(i, events, e.hop) && NotAskedLately(i, events, e.hop)
      then [Frame(BROADCAST, mac, ARP(Arp(true, mac, ip, 0, e.hop)))]
      else []
  {
    var i := NewInterface(mac, ip);
    var before := After(i, events);
    if e.Sending? {
      CacheIsLatest(mac, ip, events, e.hop);
      RequestsAreSpaced(mac, ip, events, e.hop);
      FewFrames(before.Send(e.d, e.hop).1);
      hide After, LastHeard, RequestTimes, RequestsIn;
    } else {
      EventIsAnswered(before, e);
      hide After;
    }
  }

  /** An event that is about no next hop transmits nothing. */
  lemma NothingElse(i: Interface, e: Event)
    ensures (forall hop: u32 :: !Concerns(i, e, hop)) ==> Step(i, e).1 == []
  {
    match e
    case Sending(d, hop) => assert Concerns(i, e, hop);
    case Receiving(f) =>
      if f.content.ARP? && Reaches(f, i.mac) {
        assert Concerns(i, e, f.content.arp.senderIp);
      }
    case Ticking(ms) =>
  }
}
