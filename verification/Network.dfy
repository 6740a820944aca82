/** Two peers and a network that may drop, repeat, delay and reorder whatever they transmit. */
module Network {
  import opened Common
  import opened WrappingIntegers
  import opened ReceiverModel
  import opened SenderModel
  import opened SenderProofs
  import opened Following
  import opened PeerModel

  /** `ab` holds all that `a` ever transmitted, `ba` all that `b` did: any of it may arrive at any
      time, any number of times, or never. */
  datatype System = System(a: Peer, b: Peer, ab: seq<Packet>, ba: seq<Packet>) {

    function Swap(): System {
      System(b, a, ba, ab)
    }

    /** `a` has acted, and transmitted `sent`. */
    function AfterA(p: Peer, sent: seq<Packet>): System {
      this.(a := p, ab := ab + sent)
    }
  }

  /** What can happen at one peer. */
  datatype Step =
    | Write(bytes: seq<byte>, eof: bool)
    | Read(n: nat)
    | Tick(ms: nat)
    | Deliver(k: nat)
    | FailOutbound
    | FailInbound

  /** A message may only arrive where it is less than 2^31 numbers behind, in both directions;
      being ahead of the other side by that much is impossible. */
  predicate Near(p: Peer, q: Packet) {
    && NearSegment(p.receiver, q.segment)
    && p.sender.next < CHECKPOINT_LIMIT
    && (q.ack.Some? ==> p.sender.next < q.ack.value + TWO31)
  }

  /** Nothing is written after the stream was closed, and no more is read than is buffered. */
  ghost predicate Enabled(s: System, step: Step) {
    match step
    case Write(bytes, eof) => s.a.sender.input.closed ==> bytes == []
    case Read(n) => n + s.a.receiver.asm.out.popped <= |s.a.receiver.asm.out.data|
    case Deliver(k) => k < |s.ba| && Near(s.a, s.ba[k])
    case _ => true
  }

  /** One step at `a`. */
  ghost function Local(s: System, step: Step): System
    requires s.a.Valid() && Enabled(s, step)
  {
    match step
    case Write(bytes, eof) =>
      var (p, sent) := s.a.Write(bytes, eof).Push();
      s.AfterA(p, sent)
    case Read(n) =>
      s.AfterA(s.a.Read(n), [])
    case Tick(ms) =>
      var (p, sent) := s.a.Tick(ms);
      s.AfterA(p, sent)
    case Deliver(k) =>
      var (p, sent) := s.a.Receive(s.ba[k].message);
      s.AfterA(p, sent)
    case FailOutbound =>
      s.AfterA(s.a.(sender := s.a.sender.(input := s.a.sender.input.(error := true))), [])
    case FailInbound =>
      s.AfterA(s.a.(receiver := s.a.receiver.(asm := s.a.receiver.asm.(out := s.a.receiver.asm.out.(error := true)))), [])
  }

  /** A packet of `p` told the truth, and its acknowledgement has not been taken back since. */
  ghost predicate Truthful(q: Packet, p: Peer, otherIsn: Wrap32) {
    && p.sender.Carries(q.segment)
    && q.message.sender == q.segment.Wire(p.sender.isn)
    && (match q.ack
        case None => q.message.receiver.ackno == None
        case Some(n) =>
          && q.message.receiver.ackno == Some(Wrap(n, otherIsn))
          && p.receiver.syn && n <= p.receiver.AckNumber())
  }

  /** The sender is not stuck: something is in flight, or all is sent, or it was never used. */
  ghost predicate Quiet(s: Sender) {
    || s.inFlight > 0
    || (s.input.Valid() && s.NothingToSend())
    || (!s.synSent && s.input.data == [] && !s.input.closed)
  }

  /** A peer that will not linger has received everything, every FIN it sends says so, and whoever
      received that FIN knows it. */
  ghost predicate Leaving(p: Peer, other: Peer, packets: seq<Packet>) {
    !p.linger ==>
      && p.receiver.asm.out.closed
      && (forall q | q in packets :: q.segment.fin ==> q.ack == Some(other.sender.next))
      && (other.receiver.asm.eof.Some? ==> other.sender.ackno == other.sender.next)
  }

  /** Everything about the direction from `a` to `b`. */
  ghost predicate Half(s: System) {
    && s.a.Valid()
    && Follows(s.b.receiver, s.a.sender)
    && s.a.sender.ackno <= s.b.receiver.AckNumber()
    && (forall q | q in s.ab :: Truthful(q, s.a, s.b.sender.isn))
    && Quiet(s.a.sender)
    && Leaving(s.a, s.b, s.ab)
  }

  ghost predicate Inv(s: System) {
    Half(s) && Half(s.Swap())
  }

  /** A receiver never forgets: what it had, it has. */
  ghost predicate Grows(r: Receiver, r': Receiver) {
    && (r.syn ==> r'.syn && r'.isn == r.isn)
    && r.AckNumber() <= r'.AckNumber()
    && (r.asm.out.closed ==> r'.asm.out.closed)
  }

  lemma TruthfulForever(q: Packet, p: Peer, p': Peer, otherIsn: Wrap32)
    requires Truthful(q, p, otherIsn) && Extends(p.sender, p'.sender) && Grows(p.receiver, p'.receiver)
    ensures Truthful(q, p', otherIsn)
  {
    CarriesForever(p.sender, p'.sender, q.segment);
    hide Sender.Carries;
  }

  lemma FreshIsTruthful(q: Packet, p: Peer, other: Sender)
    requires Fresh(q, p) && Follows(p.receiver, other)
    ensures Truthful(q, p, other.isn)
  {
    hide Sender.Carries, Wrap;
  }

  /** `a` moves from `s.a` to `p`, transmitting `sent`: what both halves need to know about it. */
  ghost predicate Acts(s: System, p: Peer, sent: seq<Packet>) {
    && p.Valid() && Extends(s.a.sender, p.sender) && Grows(s.a.receiver, p.receiver)
    && Follows(p.receiver, s.b.sender)
    && p.sender.ackno <= s.b.receiver.AckNumber()
    && (forall q | q in sent :: Fresh(q, p))
    && Quiet(p.sender)
    && (p.linger != s.a.linger ==> !p.linger && p.receiver.asm.out.closed && !p.sender.finSent)
    && (!s.b.linger && p.receiver.asm.eof.Some? ==> p.sender.ackno == p.sender.next)
  }

  /** Whatever `a` does in this way keeps the invariant of both directions. */
  lemma ActsKeepsInv(s: System, p: Peer, sent: seq<Packet>)
    requires Inv(s) && Acts(s, p, sent)
    ensures Inv(s.AfterA(p, sent))
  {
    var t := s.AfterA(p, sent);
    FollowsForever(s.b.receiver, s.a.sender, p.sender);
    forall q | q in t.ab
      ensures Truthful(q, p, s.b.sender.isn)
    {
      if q in s.ab {
        TruthfulForever(q, s.a, p, s.b.sender.isn);
      } else {
        FreshIsTruthful(q, p, s.b.sender);
      }
    }
    ActsKeepsLeaving(s, p, sent);
    hide Truthful, Follows, Leaving, Quiet;
    assert Half(t);
    assert Grows(s.a.receiver, p.receiver);
    forall q | q in t.ba
      ensures Truthful(q, s.b, p.sender.isn)
    {
      assert q in s.Swap().ab;
    }
    assert Half(t.Swap());
  }

  lemma ActsKeepsLeaving(s: System, p: Peer, sent: seq<Packet>)
    requires Inv(s) && Acts(s, p, sent)
    ensures Leaving(p, s.b, s.ab + sent) && Leaving(s.b, p, s.ba)
  {
    AckWithinSent(p.receiver, s.b.sender);
    AckWithinSent(s.b.receiver, s.a.sender);
    if !p.linger {
      forall q | q in s.ab + sent && q.segment.fin
        ensures q.ack == Some(s.b.sender.next)
      {
        if q in s.ab {
          TruthfulForever(q, s.a, p, s.b.sender.isn);
        } else {
          assert Fresh(q, p);
        }
      }
    }
  }

  /** Once `b` has closed and is leaving, all that `a` sends is acknowledged, and stays so. */
  lemma StaysAcknowledged(s: System, p: Peer)
    requires Inv(s) && p.sender.Valid() && Extends(s.a.sender, p.sender)
    requires !s.b.linger && s.a.receiver.asm.eof.Some?
    ensures p.sender.ackno == p.sender.next
  {
    assert Leaving(s.Swap().a, s.Swap().b, s.Swap().ab);
    AckWithinSent(s.b.receiver, s.a.sender);
    if p.sender.outstanding != [] {
      OldestSegment(p.sender);
    }
  }

  lemma WriteActs(s: System, bytes: seq<byte>, eof: bool)
    requires Inv(s) && Enabled(s, Write(bytes, eof))
    ensures
      var (p, sent) := s.a.Write(bytes, eof).Push();
      Acts(s, p, sent)
  {
    WriteKeeps(s.a.sender, bytes, eof);
    var w := s.a.Write(bytes, eof);
    var (p, sent) := w.Push();
    PushFacts(w);
    ExtendsTransitively(s.a.sender, w.sender, p.sender);
    hide Peer.Write, Peer.Push, Sender.Valid, Truthful, Fresh;
    assert Half(s.Swap());
    if !s.b.linger && p.receiver.asm.eof.Some? {
      StaysAcknowledged(s, p);
    }
  }

  lemma ReadActs(s: System, n: nat)
    requires Inv(s) && Enabled(s, Read(n))
    ensures Acts(s, s.a.Read(n), [])
  {
    assert Half(s.Swap());
    if !s.b.linger && s.a.receiver.asm.eof.Some? {
      StaysAcknowledged(s, s.a.Read(n));
    }
    hide Truthful;
  }

  lemma TickActs(s: System, ms: nat)
    requires Inv(s)
    ensures var (p, sent) := s.a.Tick(ms); Acts(s, p, sent)
  {
    var (p, sent) := s.a.Tick(ms);
    TickFacts(s.a, ms);
    hide Peer.Tick, Sender.Valid, Truthful, Fresh;
    assert Half(s.Swap());
    if !s.b.linger && p.receiver.asm.eof.Some? {
      StaysAcknowledged(s, p);
    }
  }

  lemma FailOutboundActs(s: System)
    requires Inv(s)
    ensures Acts(s, Local(s, FailOutbound).a, [])
  {
    assert Half(s.Swap());
    var p := Local(s, FailOutbound).a;
    assert forall g | g in s.a.sender.outstanding :: s.a.sender.Carries(g) ==> p.sender.Carries(g);
    assert p.sender.Valid() && Extends(s.a.sender, p.sender);
    hide Truthful, Sender.Valid, Tiles, Extends;
    if !s.b.linger && s.a.receiver.asm.eof.Some? {
      StaysAcknowledged(s, p);
    }
  }

  lemma FailInboundActs(s: System)
    requires Inv(s)
    ensures Acts(s, Local(s, FailInbound).a, [])
  {
    assert Half(s.Swap());
    assert Extends(s.a.sender, s.a.sender);
    hide Truthful, Sender.Valid, Extends;
    if !s.b.linger && s.a.receiver.asm.eof.Some? {
      StaysAcknowledged(s, s.a);
    }
  }

  /** The acknowledgement that arrives is the one that was meant. */
  lemma AckIsMeant(s: System, q: Packet)
    requires Inv(s) && q in s.ba && Near(s.a, q)
    ensures Absolute(q.message.receiver.ackno, s.a.sender.isn, s.a.sender.next) == q.ack
    ensures q.ack.Some? ==> q.ack.value <= s.b.receiver.AckNumber() <= s.a.sender.next
  {
    assert Truthful(q, s.b, s.a.sender.isn) by { assert q in s.Swap().ab; }
    AckWithinSent(s.b.receiver, s.a.sender);
    if q.ack.Some? {
      UnwrapOfWrap(q.ack.value, s.a.sender.isn, s.a.sender.next);
    }
  }

  /** What handing an arriving message to both sides of `a` does. */
  lemma DeliverFacts(s: System, q: Packet)
    requires Inv(s) && q in s.ba && Near(s.a, q)
    ensures
      var d := s.a.Deliver(q.message);
      && d.sender.Valid() && Extends(s.a.sender, d.sender) && Grows(s.a.receiver, d.receiver)
      && Follows(d.receiver, s.b.sender)
      && d.sender.ackno <= s.b.receiver.AckNumber()
      && d.sender.next == s.a.sender.next
      && d.receiver == s.a.receiver.Receive(q.segment.Wire(s.b.sender.isn))
      && d.sender == s.a.sender.Receive(q.ack, q.message.receiver.windowSize, q.message.receiver.rst)
      && (!s.b.linger ==> d.sender.finSent)
      && (!s.b.linger && d.receiver.asm.eof.Some? ==> d.sender.ackno == d.sender.next)
  {
    assert Truthful(q, s.b, s.a.sender.isn) && Leaving(s.b, s.a, s.ba) && Half(s.Swap()) by {
      assert q in s.Swap().ab;
    }
    var m := q.message;
    AckIsMeant(s, q);
    ReceiveKeeps(s.a.sender, q.ack, m.receiver.windowSize, m.receiver.rst);
    ReceiveFollows(s.a.receiver, s.b.sender, q.segment);
    hide Sender.Receive, Receiver.Receive, Sender.Carries, Wrap, Unwrap;
    var d := s.a.Deliver(m);
    if !s.b.linger && d.receiver.asm.eof.Some? {
      if s.a.receiver.asm.eof.Some? {
        StaysAcknowledged(s, d);
      }
    }
  }

  lemma DeliverActs(s: System, k: nat)
    requires Inv(s) && Enabled(s, Deliver(k))
    ensures var (p, sent) := s.a.Receive(s.ba[k].message); Acts(s, p, sent)
  {
    if s.a.Active() {
      ActiveActs(s, k);
    } else {
      InactiveActs(s, k);
    }
  }

  /** A peer that has gone does nothing. */
  lemma InactiveActs(s: System, k: nat)
    requires Inv(s) && Enabled(s, Deliver(k)) && !s.a.Active()
    ensures var (p, sent) := s.a.Receive(s.ba[k].message); Acts(s, p, sent)
  {
    assert Half(s.Swap());
    assert Extends(s.a.sender, s.a.sender);
    hide Truthful, Sender.Valid, Extends;
    if !s.b.linger && s.a.receiver.asm.eof.Some? {
      StaysAcknowledged(s, s.a);
    }
  }

  lemma ActiveActs(s: System, k: nat)
    requires Inv(s) && Enabled(s, Deliver(k)) && s.a.Active()
    ensures var (p, sent) := s.a.Receive(s.ba[k].message); Acts(s, p, sent)
  {
    ValidInside(s);
    hide Inv, Fresh, Near, Follows, Peer.Receive, Peer.Deliver, Peer.Active, Sender.Receive, Receiver.Receive;
    var q := s.ba[k];
    DeliverFacts(s, q);
    ReceiveFacts(s.a, q.message);
    var d := s.a.Deliver(q.message);
    var (p, sent) := s.a.Receive(q.message);
    ExtendsTransitively(s.a.sender, d.sender, p.sender);
    assert p.sender.finSent ==> p.sender.input.IsFinished() by { assert p.sender.Numbered(); }
    hide Extends, Sender.Valid;
  }

  lemma ValidInside(s: System)
    requires Inv(s)
    ensures s.a.Valid() && s.b.Valid()
  {
    assert Half(s) && Half(s.Swap());
  }

  /** Every step at `a` keeps the invariant of both directions. */
  lemma StepKeepsInv(s: System, step: Step)
    requires Inv(s) && Enabled(s, step)
    ensures Inv(Local(s, step))
  {
    match step
    case Write(bytes, eof) =>
      WriteActs(s, bytes, eof);
      var (p, sent) := s.a.Write(bytes, eof).Push();
      ActsKeepsInv(s, p, sent);
    case Read(n) =>
      ReadActs(s, n);
      ActsKeepsInv(s, s.a.Read(n), []);
    case Tick(ms) =>
      TickActs(s, ms);
      var (p, sent) := s.a.Tick(ms);
      ActsKeepsInv(s, p, sent);
    case Deliver(k) =>
      DeliverActs(s, k);
      var (p, sent) := s.a.Receive(s.ba[k].message);
      ActsKeepsInv(s, p, sent);
    case FailOutbound =>
      FailOutboundActs(s);
      ActsKeepsInv(s, Local(s, FailOutbound).a, []);
    case FailInbound =>
      FailInboundActs(s);
      ActsKeepsInv(s, Local(s, FailInbound).a, []);
  }

  /** A step takes nothing back: not from what was sent and acknowledged, nor from what was received. */
  lemma StepExtends(s: System, step: Step)
    requires Inv(s) && Enabled(s, step)
    ensures
      var t := Local(s, step);
      Extends(s.a.sender, t.a.sender) && Grows(s.a.receiver, t.a.receiver) && t.b == s.b
  {
    match step
    case Write(bytes, eof) => WriteActs(s, bytes, eof);
    case Read(n) => ReadActs(s, n);
    case Tick(ms) => TickActs(s, ms);
    case Deliver(k) => DeliverActs(s, k);
    case FailOutbound => FailOutboundActs(s);
    case FailInbound => FailInboundActs(s);
    hide Inv, Fresh, Quiet, Follows, Extends, Grows, Peer.Valid;
  }

  /** A step at either peer. */
  datatype Event = AtA(step: Step) | AtB(step: Step)

  ghost predicate Possible(s: System, e: Event) {
    match e
    case AtA(step) => Enabled(s, step)
    case AtB(step) => Enabled(s.Swap(), step)
  }

  ghost function Next(s: System, e: Event): (t: System)
    requires Inv(s) && Possible(s, e)
    ensures Inv(t)
  {
    match e
    case AtA(step) => StepKeepsInv(s, step); Local(s, step)
    case AtB(step) => StepKeepsInv(s.Swap(), step); Local(s.Swap(), step).Swap()
  }

  /** The run `events` can happen from `s`. */
  ghost predicate IsRun(s: System, events: seq<Event>)
    requires Inv(s)
    decreases |events|
  {
    events == [] || (Possible(s, events[0]) && IsRun(Next(s, events[0]), events[1..]))
  }

  ghost function After(s: System, events: seq<Event>): (t: System)
    requires Inv(s) && IsRun(s, events)
    ensures Inv(t)
    decreases |events|
  {
    if events == [] then s else After(Next(s, events[0]), events[1..])
  }

  /** Two peers that have not done anything yet. */
  ghost predicate Initial(s: System) {
    && s.ab == [] && s.ba == []
    && (exists rto: nat, send: nat, recv: nat, isn :: rto > 0 && s.a == NewPeer(rto, send, recv, isn))
    && (exists rto: nat, send: nat, recv: nat, isn :: rto > 0 && s.b == NewPeer(rto, send, recv, isn))
  }

  lemma InitialInv(s: System)
    requires Initial(s)
    ensures Inv(s)
  {
  }

  /** Runs can be put together. */
  lemma {:induction false} RunConcat(s: System, first: seq<Event>, rest: seq<Event>)
    requires Inv(s) && IsRun(s, first) && IsRun(After(s, first), rest)
    ensures IsRun(s, first + rest) && After(s, first + rest) == After(After(s, first), rest)
    decreases |first|
  {
    hide Inv, Possible, Next;
    if first == [] {
      assert first + rest == rest;
    } else {
      RunConcat(Next(s, first[0]), first[1..], rest);
      assert (first + rest)[0] == first[0] && (first + rest)[1..] == first[1..] + rest;
    }
  }

  lemma SingleStep(s: System, e: Event)
    requires Inv(s) && Possible(s, e)
    ensures IsRun(s, [e]) && After(s, [e]) == Next(s, e)
  {
    hide Inv, Possible, Next;
    assert [e][1..] == [];
    assert IsRun(Next(s, e), []) && After(Next(s, e), []) == Next(s, e);
  }
}
