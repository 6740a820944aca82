/** What the two peers promise each other, in every run. */
module EndToEnd {
  import opened Common
  import opened ReceiverModel
  import opened SenderModel
  import opened SenderProofs
  import opened Following
  import opened PeerModel
  import opened Network

  /** Some run of writes, reads, ticks, failures and deliveries leads here. */
  ghost predicate Reachable(s: System) {
    exists start: System, events: seq<Event> ::
      Initial(start) && Inv(start) && IsRun(start, events) && After(start, events) == s
  }

  /** The same run, seen from the other side. */
  ghost function Mirror(events: seq<Event>): seq<Event> {
    if events == [] then []
    else [match events[0] case AtA(step) => AtB(step) case AtB(step) => AtA(step)] + Mirror(events[1..])
  }

  lemma {:induction false} MirroredRun(s: System, events: seq<Event>)
    requires Inv(s) && IsRun(s, events)
    ensures Inv(s.Swap()) && IsRun(s.Swap(), Mirror(events))
    ensures After(s.Swap(), Mirror(events)) == After(s, events).Swap()
    decreases |events|
  {
    if events != [] {
      var t := Next(s, events[0]);
      MirroredRun(t, events[1..]);
      assert s.Swap().Swap() == s;
      hide Inv;
      assert Next(s.Swap(), Mirror(events)[0]) == t.Swap();
      assert Mirror(events)[1..] == Mirror(events[1..]);
    }
  }

  /** Neither side is special: what holds of `a` in all reachable states holds of `b`. */
  lemma EitherSide(s: System)
    requires Reachable(s)
    ensures Reachable(s.Swap())
  {
    var start, events :| Initial(start) && Inv(start) && IsRun(start, events) && After(start, events) == s;
    MirroredRun(start, events);
    assert Initial(start.Swap());
  }

  /** One more event leads from a reachable state to a reachable state. */
  lemma StepReachable(s: System, e: Event)
    requires Reachable(s) && Possible(s, e)
    ensures Inv(s) && Reachable(Next(s, e))
  {
    hide Inv, Initial, Possible, Next, IsRun, After;
    var start, events :| Initial(start) && Inv(start) && IsRun(start, events) && After(start, events) == s;
    SingleStep(s, e);
    RunConcat(start, events, [e]);
  }

  lemma StartReachable(s: System)
    requires Initial(s)
    ensures Reachable(s)
  {
    InitialInv(s);
    hide Inv, Initial;
    assert IsRun(s, []) && After(s, []) == s;
  }

  /** What `receiver` may hold of the stream that `sender` was given. */
  ghost predicate DeliversPrefix(sender: Peer, receiver: Peer) {
    && receiver.receiver.asm.out.data <= sender.sender.input.data
    && (receiver.receiver.asm.out.closed ==>
          sender.sender.input.closed && receiver.receiver.asm.out.data == sender.sender.input.data)
  }

  /** Safety: at any time, each side has received a prefix of what the other side wrote, and sees
      the stream closed only when it has all of it. */
  lemma PrefixSafety(s: System)
    requires Reachable(s)
    ensures DeliversPrefix(s.a, s.b) && DeliversPrefix(s.b, s.a)
  {
    assert Half(s) && Half(s.Swap());
    AckWithinSent(s.b.receiver, s.a.sender);
    AckWithinSent(s.a.receiver, s.b.sender);
  }

  /** The streams that `PrefixSafety` compares are what the applications wrote: no step but a write
      at that side changes what a side has written, and a write appends what the buffer takes. */
  lemma OnlyWritingWrites(s: System, step: Step)
    requires Inv(s) && Enabled(s, step)
    ensures
      var t := Local(s, step);
      && t.b == s.b && s.ab <= t.ab && t.ba == s.ba
      && (if step.Write? then
            && t.a.sender.input.data == s.a.sender.input.data
                                        + step.bytes[..Min(|step.bytes|, s.a.sender.input.Available())]
            && t.a.sender.input.closed == (s.a.sender.input.closed || step.eof)
          else
            && t.a.sender.input.data == s.a.sender.input.data
            && t.a.sender.input.closed == s.a.sender.input.closed)
  {
    match step
    case Write(bytes, eof) =>
      WriteKeeps(s.a.sender, bytes, eof);
      PushFacts(s.a.Write(bytes, eof));
    case Tick(ms) =>
      TickFacts(s.a, ms);
    case Deliver(k) =>
      if s.a.Active() {
        var m := s.ba[k].message;
        ReceiveFacts(s.a, m);
        ReceiveKeeps(s.a.sender, Absolute(m.receiver.ackno, s.a.sender.isn, s.a.sender.next),
                     m.receiver.windowSize, m.receiver.rst);
      }
    case _ =>
  }

  /** All of `g` has been taken over into the receiver's stream. */
  ghost predicate Assembled(r: Receiver, g: Segment)
    requires g.syn <==> g.start == 0
  {
    && r.syn
    && (g.payload != [] ==>
          var i := Sender.Index(g);
          i + |g.payload| <= |r.asm.out.data| && r.asm.out.data[i..i + |g.payload|] == g.payload)
    && (g.fin ==> r.asm.out.closed)
  }

  /** Ack soundness: the sender never believes more acknowledged than the receiver has, nor does the
      receiver acknowledge more than was sent; and whatever has left the retransmission queue has
      been assembled at the other end, FIN included. */
  lemma AckSoundness(s: System, g: Segment)
    requires Reachable(s)
    ensures s.a.sender.ackno <= s.b.receiver.AckNumber() <= s.a.sender.next
    ensures s.a.sender.Carries(g) && g.Length() > 0 && g.End() <= s.a.sender.next - s.a.sender.inFlight
            ==> Assembled(s.b.receiver, g)
  {
    assert Half(s);
    var q := s.a.sender;
    AckWithinSent(s.b.receiver, q);
    if q.outstanding != [] {
      OldestSegment(q);
    }
    EmptyQueue(q);
    if q.Carries(g) && g.Length() > 0 && g.End() <= q.next - q.inFlight {
      AcknowledgedIsAssembled(s.b.receiver, q, g);
    }
  }

  /** A truthful segment below the acknowledged number is in the receiver's stream. */
  lemma AcknowledgedIsAssembled(r: Receiver, q: Sender, g: Segment)
    requires Follows(r, q) && q.Numbered() && q.Carries(g) && g.Length() > 0 && g.End() <= r.AckNumber()
    ensures Assembled(r, g)
  {
    AckWithinSent(r, q);
    if g.payload != [] {
      var i := Sender.Index(g);
      assert r.asm.out.data[i..i + |g.payload|] == q.input.data[i..i + |g.payload|];
    }
  }

  /** All that `p` wrote has been sent and acknowledged, FIN included, and `other` has all of it. */
  ghost predicate FullyDelivered(p: Peer, other: Peer) {
    && p.sender.input.closed && p.sender.finSent && p.sender.ackno == p.sender.next
    && other.receiver.asm.out.closed && other.receiver.asm.out.data == p.sender.input.data
  }

  /** Clean close: a peer that becomes inactive without an error has delivered its whole stream, and
      holds the whole stream of the other side. */
  lemma CleanClose(s: System)
    requires Reachable(s) && !s.a.Active() && !s.a.HasError()
    ensures FullyDelivered(s.a, s.b)
    ensures DeliversPrefix(s.b, s.a) && s.a.receiver.asm.out.closed
  {
    PrefixSafety(s);
    assert Half(s);
    EmptyQueue(s.a.sender);
    AckWithinSent(s.b.receiver, s.a.sender);
  }

  /** Why a peer may leave without lingering: when it does, everything the other side sent has been
      acknowledged to it, so that side waits for nothing but its own linger time. */
  lemma NobodyIsLeftWaiting(s: System)
    requires Reachable(s) && !s.a.Active() && !s.a.HasError() && !s.a.linger
    ensures FullyDelivered(s.b, s.a)
    ensures !s.b.HasError() ==> (s.b.Active() <==> s.b.Lingering())
  {
    CleanClose(s);
    assert Half(s) && Half(s.Swap());
    AckWithinSent(s.a.receiver, s.b.sender);
    EmptyQueue(s.b.sender);
  }

  /** Closing comes to an end: once both streams are done, a peer that hears nothing more is active
      for its linger time exactly, counted from the last message, and then leaves without an error. */
  lemma LingerEnds(s: System, ms: nat)
    requires Inv(s) && !s.a.HasError()
    requires FullyDelivered(s.a, s.b) && s.a.receiver.asm.out.closed
    ensures
      var p := Local(s, Tick(ms)).a;
      && !p.HasError()
      && (p.Active() <==> s.a.linger && s.a.now + ms < s.a.lastReceipt + 10 * s.a.rtTimeout)
      && (ms >= 10 * s.a.rtTimeout ==> !p.Active())
  {
    assert Half(s);
    EmptyQueue(s.a.sender);
    TickFacts(s.a, ms);
    TickKeeps(s.a.sender, ms);
    hide Inv, Half, Peer.Tick;
  }
}
