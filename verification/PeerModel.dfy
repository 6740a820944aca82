/** What a TCPPeer does: one sender and one receiver, each speaking for the other. */
module PeerModel {
  import opened Common
  import opened WrappingIntegers
  import opened Messages
  import opened ReassemblerModel
  import opened ReceiverModel
  import opened SenderModel
  import opened SenderProofs

  /** A transmitted message, annotated with the absolute numbers its sender meant. Whoever receives
      it sees `message` only. */
  datatype Packet = Packet(segment: Segment, ack: Option<nat>, message: TCPMessage)

  datatype Peer = Peer(rtTimeout: nat, sender: Sender, receiver: Receiver,
                       needSend: bool, linger: bool, now: nat, lastReceipt: nat)
  {
    ghost predicate Valid() {
      rtTimeout > 0 && sender.Valid() && receiver.Valid() && !needSend && lastReceipt <= now
    }

    predicate HasError() {
      receiver.asm.out.error || sender.input.error
    }

    predicate Lingering() {
      linger && now < lastReceipt + 10 * rtTimeout
    }

    predicate Active() {
      var senderActive := sender.inFlight > 0 || !sender.input.IsFinished();
      var receiverActive := !receiver.asm.out.closed;
      !HasError() && (senderActive || receiverActive || Lingering())
    }

    predicate HasAckno() {
      receiver.syn
    }

    /** A segment of the sender together with the receiver's acknowledgement and window. */
    function Dress(g: Segment): Packet
      requires receiver.Valid()
    {
      Packet(g, if receiver.syn then Some(receiver.AckNumber()) else None,
             TCPMessage(g.Wire(sender.isn), receiver.Send()))
    }

    function DressAll(segments: seq<Segment>): (packets: seq<Packet>)
      requires receiver.Valid()
      ensures |packets| == |segments| && forall k | 0 <= k < |packets| :: packets[k] == Dress(segments[k])
    {
      seq(|segments|, k requires 0 <= k < |segments| => Dress(segments[k]))
    }

    function Push(): (Peer, seq<Packet>)
      requires sender.Valid() && receiver.Valid()
    {
      var (s, sent) := sender.Push();
      (this.(sender := s, needSend := needSend && sent == []), DressAll(sent))
    }

    function Tick(ms: nat): (Peer, seq<Packet>)
      requires sender.Valid() && receiver.Valid()
    {
      var (s, sent) := sender.Tick(ms);
      (this.(sender := s, now := now + ms, needSend := needSend && sent == []), DressAll(sent))
    }

    /** A message that occupies sequence numbers wants a reply; so does a keep-alive, whose number
        is deliberately the one before the next expected. */
    predicate WantsReply(m: SenderMessage) {
      || m.SequenceLength() > 0
      || (receiver.syn && m.seqno.Plus(1) == Wrap(receiver.AckNumber(), receiver.isn))
    }

    /** Both halves of an arriving message, each given to its side. */
    function Deliver(m: TCPMessage): Peer
      requires Valid() && sender.next < CHECKPOINT_LIMIT
    {
      this.(lastReceipt := now,
            needSend := needSend || WantsReply(m.sender),
            receiver := receiver.Receive(m.sender),
            sender := sender.Receive(Absolute(m.receiver.ackno, sender.isn, sender.next),
                                     m.receiver.windowSize, m.receiver.rst))
    }

    /** Answer with an empty segment if nothing else carried the answer. */
    function Reply(): (Peer, seq<Packet>)
      requires receiver.Valid()
    {
      if needSend then (this.(needSend := false), [Dress(sender.EmptySegment())]) else (this, [])
    }

    /** The inbound stream finished first: the other side will not need this one to linger. */
    function SettleLinger(): Peer {
      if receiver.asm.out.closed && !sender.input.IsFinished() then this.(linger := false) else this
    }

    function Receive(m: TCPMessage): (Peer, seq<Packet>)
      requires Valid() && sender.next < CHECKPOINT_LIMIT
    {
      if !Active() then
        (this, [])
      else
        DeliverKeeps(this, m);
        var (p, pushed) := Deliver(m).Push();
        PushKeepsReceiver(Deliver(m));
        var (p', replied) := p.Reply();
        (p'.SettleLinger(), pushed + replied)
    }

    /** The application writes; nothing may follow the close. */
    function Write(bytes: seq<byte>, eof: bool): (p: Peer)
      requires Valid() && (sender.input.closed ==> bytes == [])
      ensures p.Valid()
    {
      WriteKeeps(sender, bytes, eof);
      this.(sender := sender.Write(bytes, eof))
    }

    /** The application takes `n` bytes out of the inbound stream. */
    function Read(n: nat): Peer
      requires Valid() && n <= receiver.asm.out.Buffered()
    {
      this.(receiver := receiver.Pop(n))
    }
  }

  function NewPeer(rtTimeout: nat, sendCapacity: nat, recvCapacity: nat, isn: Wrap32): Peer {
    Peer(rtTimeout, NewSender(sendCapacity, isn, rtTimeout), NewReceiver(recvCapacity), false, true, 0, 0)
  }

  lemma DeliverKeeps(p: Peer, m: TCPMessage)
    requires p.Valid() && p.sender.next < CHECKPOINT_LIMIT
    ensures p.Deliver(m).sender.Valid() && p.Deliver(m).receiver.Valid()
  {
    ReceiveKeeps(p.sender, Absolute(m.receiver.ackno, p.sender.isn, p.sender.next),
                 m.receiver.windowSize, m.receiver.rst);
  }

  lemma PushKeepsReceiver(p: Peer)
    requires p.sender.Valid() && p.receiver.Valid()
    ensures p.Push().0.receiver == p.receiver && p.Push().0.sender.Valid()
  {
    PushKeeps(p.sender);
  }

  /** A packet as `p` transmits it in its present state. */
  ghost predicate Fresh(q: Packet, p: Peer) {
    p.receiver.Valid() && q == p.Dress(q.segment) && Recent(p.sender, q.segment)
  }

  lemma PushFacts(p: Peer)
    requires p.sender.Valid() && p.receiver.Valid()
    ensures
      var (p', sent) := p.Push();
      && p' == p.(sender := p'.sender, needSend := p.needSend && sent == [])
      && p'.sender.Valid() && Extends(p.sender, p'.sender) && OnlyTransmits(p.sender.(fastPending := false), p'.sender)
      && p'.sender.next - p'.sender.inFlight == p.sender.next - p.sender.inFlight
      && (p'.sender.inFlight > 0 || p'.sender.NothingToSend())
      && (forall q | q in sent :: Fresh(q, p'))
  {
    PushKeeps(p.sender);
    hide Sender.Push, Recent, Segment.Wire;
    var (s, segments) := p.sender.Push();
    var (p', sent) := p.Push();
    forall q | q in sent
      ensures Fresh(q, p')
    {
      var k :| 0 <= k < |sent| && sent[k] == q;
      assert q == p.Dress(segments[k]) && segments[k] in segments;
    }
  }

  lemma TickFacts(p: Peer, ms: nat)
    requires p.Valid()
    ensures
      var (p', sent) := p.Tick(ms);
      && p' == p.(sender := p'.sender, now := p.now + ms)
      && p'.Valid() && Extends(p.sender, p'.sender)
      && p'.sender.ackno == p.sender.ackno && p'.sender.next == p.sender.next
      && p'.sender.inFlight == p.sender.inFlight && p'.sender.synSent == p.sender.synSent
      && p'.sender.finSent == p.sender.finSent
      && p'.sender.input == p.sender.input.(error := p'.sender.input.error)
      && (forall q | q in sent :: Fresh(q, p'))
      && |sent| == |p.sender.Tick(ms).1| && (sent != [] ==> sent[0].segment == p.sender.Tick(ms).1[0])
  {
    TickKeeps(p.sender, ms);
    hide Sender.Tick, Recent, Segment.Wire;
    var (s, segments) := p.sender.Tick(ms);
    var (p', sent) := p.Tick(ms);
    forall q | q in sent
      ensures Fresh(q, p')
    {
      var k :| 0 <= k < |sent| && sent[k] == q;
      assert q == p.Dress(segments[k]) && segments[k] in segments;
    }
  }

  /** An active peer that receives a message hands both halves on, pushes, and answers if asked. */
  lemma ReceiveFacts(p: Peer, m: TCPMessage)
    requires p.Valid() && p.sender.next < CHECKPOINT_LIMIT && p.Active()
    ensures
      var d := p.Deliver(m);
      var (p', sent) := p.Receive(m);
      && p'.Valid() && p'.receiver == d.receiver
      && p'.rtTimeout == p.rtTimeout && p'.now == p.now && p'.lastReceipt == p.now
      && d.sender.Valid() && Extends(d.sender, p'.sender) && OnlyTransmits(d.sender.(fastPending := false), p'.sender)
      && (p'.sender.inFlight > 0 || p'.sender.NothingToSend())
      && (forall q | q in sent :: Fresh(q, p'))
      && (p.WantsReply(m.sender) ==> sent != [])
      && p'.linger == (p.linger && !(p'.receiver.asm.out.closed && !p'.sender.input.IsFinished()))
  {
    var d := p.Deliver(m);
    DeliverKeeps(p, m);
    PushFacts(d);
    var (p1, pushed) := d.Push();
    var (p2, replied) := p1.Reply();
    var (p', sent) := p.Receive(m);
    hide Peer.Deliver, Peer.Push, Sender.Receive, Receiver.Receive, Wrap;
    assert p1.sender.synSent && Recent(p1.sender, p1.sender.EmptySegment()) by {
      if p1.sender.inFlight > 0 {
        EmptyQueue(p1.sender);
        OldestSegment(p1.sender);
      }
    }
    hide Recent, Sender.Valid, Sender.EmptySegment;
    forall q | q in sent
      ensures Fresh(q, p')
    {
      if q in pushed {
        assert Fresh(q, p1);
      }
    }
  }

  lemma PlusOneIsInjective(x: Wrap32, y: Wrap32)
    ensures x.Plus(1) == y.Plus(1) <==> x == y
  {
  }

  lemma NextNumberWraps(n: nat, zero: Wrap32)
    ensures Wrap(n + 1, zero) == Wrap(n, zero).Plus(1)
  {
    var block, offset := n / TWO32, n % TWO32;
    if offset < TWO32 - 1 {
      SplitByBlock(n + 1, block, offset + 1);
    } else {
      SplitByBlock(n + 1, block + 1, 0);
    }
  }

  /** The message deserves an answer: it occupies sequence numbers, or it is a keep-alive, an empty
      message whose number is the one before the next expected. */
  predicate DeservesReply(r: Receiver, m: SenderMessage) {
    || m.syn || m.fin || m.payload != []
    || (r.syn && m.seqno == Wrap(r.AckNumber() - 1, r.isn))
  }

  lemma ReplyWhereDeserved(p: Peer, m: SenderMessage)
    ensures p.WantsReply(m) <==> DeservesReply(p.receiver, m)
  {
    if p.receiver.syn {
      NextNumberWraps(p.receiver.AckNumber() - 1, p.receiver.isn);
      PlusOneIsInjective(m.seqno, Wrap(p.receiver.AckNumber() - 1, p.receiver.isn));
    }
    hide Wrap, Wrap32.Plus;
  }

  /** Section 3.8.4 of RFC 9293: an active peer answers exactly the messages that deserve it. If there is
      something to push, that is the answer, and it is pushed in any case; else one empty segment.
      Every packet acknowledges what has been received by now. */
  lemma ReplyIsDue(p: Peer, m: TCPMessage)
    requires p.Valid() && p.sender.next < CHECKPOINT_LIMIT && p.Active()
    ensures
      var (p', sent) := p.Receive(m);
      p.Deliver(m).sender.Valid()
      && var pushed := p.Deliver(m).sender.Push().1;
      && |sent| == (if DeservesReply(p.receiver, m.sender) && pushed == [] then 1 else |pushed|)
      && (forall k | 0 <= k < |pushed| :: sent[k].segment == pushed[k])
      && (pushed == [] && sent != [] ==>
            var g := sent[0].segment;
            g.Length() == 0 && g.start == p'.sender.next && g.rst == p'.sender.input.error)
      && (forall q | q in sent :: q.ack == if p'.receiver.syn then Some(p'.receiver.AckNumber()) else None)
  {
    ReplyWhereDeserved(p, m.sender);
    DeliverKeeps(p, m);
    var d := p.Deliver(m);
    assert d.needSend == DeservesReply(p.receiver, m.sender);
    hide Peer.Deliver, Peer.WantsReply, DeservesReply, Sender.Valid, Segment.Wire, Receiver.AckNumber;
    PushKeepsReceiver(d);
    AnswersOnce(d);
  }

  /** Push, and answer if that carried no answer. */
  lemma AnswersOnce(d: Peer)
    requires d.sender.Valid() && d.receiver.Valid()
    ensures
      var (p, pushed) := d.Push();
      p.receiver == d.receiver
      && var (p', replied) := p.Reply();
      var segments := d.sender.Push().1;
      && p'.receiver == d.receiver && p'.sender == p.sender
      && |pushed| == |segments| && (forall k | 0 <= k < |pushed| :: pushed[k].segment == segments[k])
      && |replied| == (if d.needSend && segments == [] then 1 else 0)
      && (forall q | q in replied ::
            q.segment.Length() == 0 && q.segment.start == p'.sender.next && q.segment.rst == p'.sender.input.error)
      && (forall q | q in pushed + replied :: q.ack == if d.receiver.syn then Some(d.receiver.AckNumber()) else None)
  {
    hide Sender.Push, Segment.Wire, Receiver.AckNumber, Sender.Valid;
  }

  /** An active peer fails exactly when the message resets either half of the connection, and then is
      inactive; the window for its sender is the one in the message. */
  lemma ResetEndsConnection(p: Peer, m: TCPMessage)
    requires p.Valid() && p.sender.next < CHECKPOINT_LIMIT && p.Active()
    ensures
      var p' := p.Receive(m).0;
      && (p'.HasError() <==> m.sender.rst || m.receiver.rst)
      && (p'.HasError() ==> !p'.Active())
      && p'.sender.window == m.receiver.windowSize
  {
    ReceiveFacts(p, m);
    ReceiveKeeps(p.sender, Absolute(m.receiver.ackno, p.sender.isn, p.sender.next),
                 m.receiver.windowSize, m.receiver.rst);
    ErrorOfReset(p.receiver, m.sender);
    hide Peer.Receive, Sender.Receive, Receiver.Receive, Sender.Valid, Extends, Absolute, Recent, Fresh;
  }

  lemma ErrorOfReset(r: Receiver, m: SenderMessage)
    requires r.Valid()
    ensures r.Receive(m).asm.out.error == (r.asm.out.error || m.rst)
  {
    hide Assembly.Insert, Unwrap;
    var r1 := r.NoteSyn(m);
    InsertOnlyAppends(r1.asm, r1.FirstIndex(m), m.payload, m.fin);
  }
}
