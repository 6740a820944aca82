/** The TCPPeer as built: the sender, the receiver, and what ties them together. */
module TCPPeers {
  import opened Common
  import opened WrappingIntegers
  import opened Messages
  import opened ReceiverModel
  import opened SenderModel
  import opened PeerModel
  import opened TCPSenders
  import opened TCPReceivers

  /** `sent` is what the packets look like on the wire. */
  ghost predicate AreMessages(sent: seq<TCPMessage>, packets: seq<Packet>) {
    |sent| == |packets| && forall k | 0 <= k < |sent| :: sent[k] == packets[k].message
  }

  class TCPPeer {
    const rtTimeout: nat
    const sender: TCPSender
    const receiver: TCPReceiver
    var needSend: bool
    var lingerAfterStreamsFinish: bool
    var cumulativeTime: nat
    var timeOfLastReceipt: nat

    ghost predicate Consistent()
      reads this, sender, sender.input
      reads receiver, receiver.reassembler, receiver.reassembler.output, receiver.reassembler.ring
    {
      && rtTimeout > 0 && timeOfLastReceipt <= cumulativeTime
      && sender.Valid() && receiver.Valid() && sender.input != receiver.reassembler.output
    }

    ghost function Model(): Peer
      reads this, sender, sender.input
      reads receiver, receiver.reassembler, receiver.reassembler.output, receiver.reassembler.ring
      requires Consistent()
    {
      Peer(rtTimeout, sender.Model(), receiver.Model(),
           needSend, lingerAfterStreamsFinish, cumulativeTime, timeOfLastReceipt)
    }

    ghost predicate Valid()
      reads this, sender, sender.input
      reads receiver, receiver.reassembler, receiver.reassembler.output, receiver.reassembler.ring
    {
      Consistent() && !needSend
    }

    constructor (rtTimeout: nat, sendCapacity: nat, recvCapacity: nat, isn: Wrap32)
      requires rtTimeout > 0
      ensures Valid() && Model() == NewPeer(rtTimeout, sendCapacity, recvCapacity, isn)
    {
      this.rtTimeout := rtTimeout;
      var s := new TCPSender(sendCapacity, isn, rtTimeout);
      var r := new TCPReceiver(recvCapacity);
      sender, receiver := s, r;
      needSend, lingerAfterStreamsFinish := false, true;
      cumulativeTime, timeOfLastReceipt := 0, 0;
    }

    /** Transmit the sender's messages, each with the receiver's present acknowledgement and window. */
    method Transmit(messages: seq<SenderMessage>) returns (sent: seq<TCPMessage>)
      requires Consistent()
      modifies this`needSend
      ensures Consistent() && needSend == (old(needSend) && messages == [])
      ensures |sent| == |messages|
      ensures forall k | 0 <= k < |sent| :: sent[k] == TCPMessage(messages[k], receiver.Model().Send())
    {
      sent := [];
      for i := 0 to |messages|
        invariant Consistent() && |sent| == i
        invariant needSend == (old(needSend) && i == 0)
        invariant forall k | 0 <= k < i :: sent[k] == TCPMessage(messages[k], receiver.Model().Send())
      {
        var reply := receiver.Send();
        sent := sent + [TCPMessage(messages[i], reply)];
        needSend := false;
      }
    }

    method Push() returns (sent: seq<TCPMessage>)
      requires Consistent()
      modifies this, sender, sender.input
      ensures Consistent() && Model() == old(Model()).Push().0
      ensures AreMessages(sent, old(Model()).Push().1)
    {
      ghost var before := Model();
      PushKeepsReceiver(before);
      var messages := sender.Push();
      sent := Transmit(messages);
      Transmitted(before, messages, sent, before.sender.Push().1);
      hide Sender.Push, AreWires, Sender.Valid;
    }

    /** The application's bytes are taken over and pushed in one step; nothing may follow the close. */
    method Write(bytes: seq<byte>, eof: bool) returns (sent: seq<TCPMessage>)
      requires Valid() && (sender.input.closed ==> bytes == [])
      modifies this, sender, sender.input
      ensures Valid() && Model() == old(Model()).Write(bytes, eof).Push().0
      ensures AreMessages(sent, old(Model()).Write(bytes, eof).Push().1)
    {
      ghost var written := Model().Write(bytes, eof);
      hide Peer.Push, Sender.Valid, Sender.Push;
      sender.input.Push(bytes);
      if eof {
        sender.input.Close();
      }
      assert Model() == written;
      sent := Push();
    }

    /** The application takes bytes out of the inbound stream. */
    method Read(len: nat)
      requires Valid() && len <= receiver.reassembler.output.BytesBuffered()
      modifies receiver.reassembler.output
      ensures Valid() && Model() == old(Model()).Read(len)
    {
      receiver.reassembler.Pop(len);
    }

    /** Wires dressed with the receiver's reply are the messages of the dressed segments. */
    lemma Transmitted(p: Peer, messages: seq<SenderMessage>, sent: seq<TCPMessage>, segments: seq<Segment>)
      requires p.receiver.Valid() && AreWires(messages, segments, p.sender.isn)
      requires |sent| == |messages|
      requires forall k | 0 <= k < |sent| :: sent[k] == TCPMessage(messages[k], p.receiver.Send())
      ensures AreMessages(sent, p.DressAll(segments))
    {
      hide Wrap;
    }

    method Tick(ms: nat) returns (sent: seq<TCPMessage>)
      requires Valid()
      modifies this, sender, sender.input
      ensures Valid() && Model() == old(Model()).Tick(ms).0
      ensures AreMessages(sent, old(Model()).Tick(ms).1)
    {
      ghost var before := Model();
      cumulativeTime := cumulativeTime + ms;
      var messages := sender.Tick(ms);
      sent := Transmit(messages);
      Transmitted(before, messages, sent, before.sender.Tick(ms).1);
      hide Sender.Tick, AreWires, Sender.Valid;
    }

    method HasAckno() returns (has: bool)
      requires Valid()
      ensures has == Model().HasAckno()
    {
      var reply := receiver.Send();
      has := reply.ackno.Some?;
    }

    method Active() returns (active: bool)
      requires Consistent()
      ensures active == Model().Active()
    {
      var anyErrors := receiver.reassembler.output.error || sender.input.error;
      var senderActive := sender.flightNumbersLength > 0 || !sender.input.IsFinished();
      var receiverActive := !receiver.reassembler.output.closed;
      var lingering := lingerAfterStreamsFinish && cumulativeTime < timeOfLastReceipt + 10 * rtTimeout;
      active := !anyErrors && (senderActive || receiverActive || lingering);
    }

    /** Note the time, and whether the message wants a reply. */
    method NoteReceipt(message: SenderMessage)
      requires Valid()
      modifies this`timeOfLastReceipt, this`needSend
      ensures Consistent()
      ensures Model() == old(Model()).(lastReceipt := old(Model()).now, needSend := old(Model()).WantsReply(message))
    {
      hide Wrap;
      timeOfLastReceipt := cumulativeTime;
      needSend := needSend || message.SequenceLength() > 0;
      var ourReply := receiver.Send();
      needSend := needSend || (ourReply.ackno.Some? && message.seqno.Plus(1) == ourReply.ackno.value);
    }

    /** Give each half of the message to its side. */
    method HandOver(message: TCPMessage)
      requires Valid() && sender.nextSeqno < CHECKPOINT_LIMIT && |message.sender.payload| < TWO64
      modifies this, sender, sender.input
      modifies receiver, receiver.reassembler, receiver.reassembler.output, receiver.reassembler.ring
      ensures Consistent() && Model() == old(Model()).Deliver(message)
      ensures receiver.reassembler.ring == old(receiver.reassembler.ring) || fresh(receiver.reassembler.ring)
    {
      hide Sender.Receive, Receiver.Receive, Wrap, Unwrap, Peer.WantsReply, Sender.Valid, AreWires, Absolute;
      NoteReceipt(message.sender);
      receiver.Receive(message.sender);
      sender.Receive(message.receiver);
    }

    /** Answer with an empty message if nothing else carried the answer. */
    method Answer() returns (sent: seq<TCPMessage>)
      requires Consistent()
      modifies this
      ensures Valid() && Model() == old(Model()).Reply().0
      ensures AreMessages(sent, old(Model()).Reply().1)
    {
      sent := [];
      if needSend {
        var empty := sender.MakeEmptyMessage();
        sent := Transmit([empty]);
      }
    }

    /** The inbound stream finished first: no need to linger. */
    method SettleLinger()
      requires Valid()
      modifies this`lingerAfterStreamsFinish
      ensures Valid() && Model() == old(Model()).SettleLinger()
    {
      if receiver.reassembler.output.closed && !sender.input.IsFinished() {
        lingerAfterStreamsFinish := false;
      }
    }

    /** A message arrives: both halves are used, and an answer is sent if one is due. */
    method Receive(message: TCPMessage) returns (sent: seq<TCPMessage>)
      requires Valid() && sender.nextSeqno < CHECKPOINT_LIMIT && |message.sender.payload| < TWO64
      modifies this, sender, sender.input
      modifies receiver, receiver.reassembler, receiver.reassembler.output, receiver.reassembler.ring
      ensures Valid() && Model() == old(Model()).Receive(message).0
      ensures AreMessages(sent, old(Model()).Receive(message).1)
    {
      hide Peer.Deliver, Peer.Push, Peer.Reply, Peer.SettleLinger, Peer.Active, Sender.Valid, Sender.Queued;
      sent := [];
      var active := Active();
      if active {
        HandOver(message);
        var pushed := Push();
        var answer := Answer();
        sent := pushed + answer;
        SettleLinger();
      }
    }
  }
}
