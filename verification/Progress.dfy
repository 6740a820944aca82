/** A fair round always gets at least one more sequence number acknowledged. */
module Progress {
  import opened Common
  import opened WrappingIntegers
  import opened ReceiverModel
  import opened SenderModel
  import opened SenderProofs
  import opened Following
  import opened PeerModel
  import opened Network
  import opened EndToEnd

  /** Streams short enough for 64-bit arithmetic. */
  predicate Short(p: Peer) {
    |p.sender.input.data| + 2 < CHECKPOINT_LIMIT
  }

  /** `a` has something in flight, no stream has failed, and `b` can hold at least one byte. */
  ghost predicate Waiting(s: System) {
    && !s.a.HasError() && !s.b.HasError()
    && s.a.sender.inFlight > 0 && s.b.receiver.asm.out.capacity > 0
    && Short(s.a) && Short(s.b)
  }

  /** The next timeout will not be the one that gives up: attempts are left, or the window is closed
      and attempts do not count. */
  predicate MayRetry(p: Peer) {
    p.sender.retransmissions < MAX_RETX_ATTEMPTS || p.sender.window == 0
  }

  ghost predicate Ready(s: System) {
    Waiting(s) && MayRetry(s.a)
  }

  /** `p` has nothing left to send or to receive, and its linger time is over. */
  predicate LingeredOut(p: Peer) {
    && p.sender.inFlight == 0 && p.sender.input.IsFinished() && p.receiver.asm.out.closed
    && p.now >= p.lastReceipt + 10 * p.rtTimeout
  }

  /** While `a` waits for an acknowledgement, `b` goes deaf exactly when it has lingered out. */
  lemma DeafMeansLingeredOut(s: System)
    requires Inv(s) && Waiting(s)
    ensures s.b.Active() <==> !LingeredOut(s.b)
  {
    assert Half(s) && Half(s.Swap());
    EmptyQueue(s.a.sender);
    EmptyQueue(s.b.sender);
    AckWithinSent(s.a.receiver, s.b.sender);
    hide Sender.Valid, Truthful;
  }

  /** The reader at `b` is drained, `a` waits for its timeout, what `a` then transmits arrives at
      `b`, and the first thing that `b` transmits in return arrives at `a`. */
  ghost function Round(s: System): seq<Event>
    requires Inv(s)
  {
    assert s.b.receiver.asm.out.Valid();
    [AtB(Read(s.b.receiver.asm.out.Buffered())), AtA(Tick(s.a.sender.rto)),
     AtB(Deliver(|s.ab|)), AtA(Deliver(|s.ba|))]
  }

  /** A packet that a healthy peer has just transmitted can be received by the other side. */
  lemma FreshArrives(s: System, q: Packet)
    requires Inv(s) && q in s.ba && Fresh(q, s.b) && Short(s.a) && Short(s.b)
    ensures Near(s.a, q)
  {
    assert Half(s) && Half(s.Swap());
    AckWithinSent(s.a.receiver, s.b.sender);
    AckWithinSent(s.b.receiver, s.a.sender);
    if s.a.sender.outstanding != [] {
      OldestSegment(s.a.sender);
    }
    EmptyQueue(s.a.sender);
    hide Follows, Truthful;
  }

  /** What arrives at `a` while both sides are healthy, and what `a` makes of it. */
  lemma HealthyDelivery(s: System, k: nat)
    requires Inv(s) && k < |s.ba| && Fresh(s.ba[k], s.b) && Short(s.a) && Short(s.b)
    requires !s.a.HasError() && !s.b.HasError() && s.a.Active()
    ensures Enabled(s, Deliver(k))
    ensures
      var q, t := s.ba[k], Local(s, Deliver(k));
      && !t.a.HasError()
      && t.a.sender.input.data == s.a.sender.input.data && t.a.sender.input.closed == s.a.sender.input.closed
      && t.a.receiver == s.a.receiver.Receive(q.segment.Wire(s.b.sender.isn))
      && t.a.receiver.asm.out.capacity == s.a.receiver.asm.out.capacity
      && t.a.rtTimeout == s.a.rtTimeout && t.a.now == t.a.lastReceipt == s.a.now
      && t.a.sender.input.Valid() && (t.a.sender.inFlight > 0 || t.a.sender.NothingToSend())
      && (if q.ack.Some? && s.a.sender.ackno < q.ack.value
          then t.a.sender.ackno == q.ack.value && t.a.sender.retransmissions == 0
          else t.a.sender.ackno == s.a.sender.ackno
               && t.a.sender.retransmissions == s.a.sender.retransmissions)
      && (forall r | r in t.ab[|s.ab|..] :: Fresh(r, t.a))
      && (q.segment.Length() > 0 ==> |t.ab| > |s.ab|)
  {
    var q := s.ba[k];
    assert s.a.Valid();
    hide Inv, Half;
    HealthyHandover(s, q);
    ReceiveFacts(s.a, q.message);
    ArrivalIsLocal(s, k);
    hide Fresh, Sender.Valid, Receiver.Valid, Receiver.Receive, Peer.Receive, Peer.Deliver, Segment.Wire, Local, Extends;
    assert q.segment.Length() > 0 ==> s.a.WantsReply(q.message.sender);
  }

  lemma ArrivalIsLocal(s: System, k: nat)
    requires s.a.Valid() && Enabled(s, Deliver(k))
    ensures
      var (p, sent) := s.a.Receive(s.ba[k].message);
      var t := Local(s, Deliver(k));
      t.a == p && t.ab[|s.ab|..] == sent && |t.ab| == |s.ab| + |sent|
  {
    hide Peer.Receive, Sender.Valid;
  }

  /** What `a` makes of the two halves of such a message. */
  lemma HealthyHandover(s: System, q: Packet)
    requires Inv(s) && q in s.ba && Fresh(q, s.b) && Short(s.a) && Short(s.b)
    requires !s.a.HasError() && !s.b.HasError()
    ensures Near(s.a, q) && s.a.sender.next < CHECKPOINT_LIMIT
    ensures
      var d := s.a.Deliver(q.message);
      && !d.HasError() && d.receiver == s.a.receiver.Receive(q.segment.Wire(s.b.sender.isn))
      && d.sender.input == s.a.sender.input && d.receiver.asm.out.capacity == s.a.receiver.asm.out.capacity
      && (if q.ack.Some? && s.a.sender.ackno < q.ack.value
          then d.sender.ackno == q.ack.value && d.sender.retransmissions == 0
          else d.sender.ackno == s.a.sender.ackno && d.sender.retransmissions == s.a.sender.retransmissions)
    ensures q.message.sender == q.segment.Wire(s.b.sender.isn)
  {
    FreshArrives(s, q);
    DeliverFacts(s, q);
    AckIsMeant(s, q);
    ReceiveKeeps(s.a.sender, q.ack, q.message.receiver.windowSize, q.message.receiver.rst);
    assert Half(s.Swap()) && Half(s);
    ReceiveFollows(s.a.receiver, s.b.sender, q.segment);
    assert !q.segment.rst && !q.message.receiver.rst;
    hide Sender.Receive, Receiver.Receive, Follows, Truthful, Sender.Valid, Inv, Half;
  }

  /** The state in the middle of a round. */
  ghost predicate MidRound(s: System, s2: System) {
    && Inv(s2)
    && !s2.a.HasError() && !s2.b.HasError() && s2.b.Active() && Short(s2.a) && Short(s2.b)
    && s2.a.sender.ackno == s.a.sender.ackno && s2.a.sender.inFlight == s.a.sender.inFlight
    && s2.a.sender.input == s.a.sender.input
    && s2.a.rtTimeout == s.a.rtTimeout
    && s2.b.sender == s.b.sender && s2.b.now == s.b.now && s2.b.rtTimeout == s.b.rtTimeout
    && s2.b.receiver.asm.out.capacity == s.b.receiver.asm.out.capacity
    && s2.a.receiver.asm.out.capacity == s.a.receiver.asm.out.capacity
    && s2.b.receiver.asm.out.Valid() && s2.b.receiver.asm.out.Available() > 0
    && s2.ba == s.ba
    && |s2.ab| == |s.ab| + 1
    && var q := s2.ab[|s.ab|];
    && Fresh(q, s2.a)
    && q.segment.start <= s2.a.sender.ackno < q.segment.End()
  }

  /** First half of a round: the reader at `b` is drained, and `a` retransmits after its timeout. */
  lemma TimeoutRetransmits(s: System)
    requires Inv(s) && Ready(s) && s.b.Active()
    ensures Possible(s, Round(s)[0])
    ensures
      var s1 := Next(s, Round(s)[0]);
      && Possible(s1, Round(s)[1])
      && var s2 := Next(s1, Round(s)[1]);
      && MidRound(s, s2)
  {
    var read := Read(s.b.receiver.asm.out.Buffered());
    var s1 := Next(s, AtB(read));
    assert s1 == System(s.a, s.b.Read(read.n), s.ab, s.ba);
    var s2 := Next(s1, AtA(Tick(s.a.sender.rto)));
    TickKeeps(s.a.sender, s.a.sender.rto);
    TickFacts(s.a, s.a.sender.rto);
    var (p, sent) := s.a.Tick(s.a.sender.rto);
    assert s2 == s1.AfterA(p, sent);
    EmptyQueue(s.a.sender);
    hide Peer.Tick, Sender.Tick, Inv, Fresh;
  }

  /** What a round leaves alone at a peer. */
  ghost predicate SameStream(p: Peer, p': Peer) {
    && p'.sender.input.data == p.sender.input.data && p'.sender.input.closed == p.sender.input.closed
    && p'.receiver.asm.out.capacity == p.receiver.asm.out.capacity && p'.rtTimeout == p.rtTimeout
  }

  /** What a round does besides moving `a` on: both sides stay healthy, have just heard of each other,
      and are no closer to giving up. */
  ghost predicate RoundDone(s: System, t: System) {
    && SameStream(s.a, t.a) && SameStream(s.b, t.b)
    && !t.a.HasError() && !t.b.HasError()
    && t.a.now == t.a.lastReceipt && t.b.now == t.b.lastReceipt
    && t.a.sender.retransmissions == 0 && t.b.sender.retransmissions <= s.b.sender.retransmissions
  }

  /** The state before the last step of a round. */
  ghost predicate LateRound(s: System, s2: System, s3: System) {
    && Inv(s3)
    && s3.a == s2.a && !s3.b.HasError() && Short(s3.b)
    && SameStream(s2.b, s3.b) && s3.b.now == s3.b.lastReceipt
    && s3.b.sender.retransmissions <= s2.b.sender.retransmissions
    && |s3.ba| > |s.ba| && Fresh(s3.ba[|s.ba|], s3.b)
    && s2.a.sender.ackno < s3.b.receiver.AckNumber()
  }

  /** What arrives at `b` while both sides are healthy, and what `b` makes of it. */
  lemma HealthyDeliveryThere(s: System, k: nat)
    requires Inv(s) && k < |s.ab| && Fresh(s.ab[k], s.a) && Short(s.a) && Short(s.b)
    requires !s.a.HasError() && !s.b.HasError() && s.b.Active()
    ensures Possible(s, AtB(Deliver(k)))
    ensures
      var q, t := s.ab[k], Next(s, AtB(Deliver(k)));
      && t.a == s.a && !t.b.HasError() && SameStream(s.b, t.b) && t.b.now == t.b.lastReceipt
      && t.b.sender.retransmissions <= s.b.sender.retransmissions
      && t.b.receiver == s.b.receiver.Receive(q.segment.Wire(s.a.sender.isn))
      && s.ba <= t.ba && (q.segment.Length() > 0 ==> |t.ba| > |s.ba| && Fresh(t.ba[|s.ba|], t.b))
  {
    var w := s.Swap();
    SwappedInv(s);
    hide Inv, Fresh, Peer.Active, Receiver.Receive, Segment.Wire, Near, Sender.Valid;
    HealthyDelivery(w, k);
    OnlyWritingWrites(w, Deliver(k));
    var t := Local(w, Deliver(k));
    assert Next(s, AtB(Deliver(k))) == t.Swap();
    hide Local, Enabled;
    assert s.ab[k].segment.Length() > 0 ==> t.ab[|w.ab|..][0] == t.ab[|w.ab|];
  }

  /** Third step: what `a` retransmitted makes `b` expect a higher number, and answer so. */
  lemma RetransmissionIsAnswered(s: System, s2: System)
    requires Inv(s) && MidRound(s, s2)
    ensures Possible(s2, Round(s)[2]) && LateRound(s, s2, Next(s2, Round(s)[2]))
  {
    var k := |s.ab|;
    SwappedInv(s2);
    assert Round(s)[2] == AtB(Deliver(k));
    hide Inv, Fresh, Peer.Active, Receiver.Receive, Possible, Next, Round;
    HealthyDeliveryThere(s2, k);
    FreshSegmentAdvances(s2.Swap(), s2.ab[k]);
  }

  lemma SwappedInv(s: System)
    requires Inv(s)
    ensures Inv(s.Swap())
  {
    hide Half;
    assert s.Swap().Swap() == s;
  }

  /** A segment just transmitted by `b` that holds the oldest number `b` waits for makes `a` expect a
      higher number than that, if `a` does not expect one already. */
  lemma FreshSegmentAdvances(w: System, q: Packet)
    requires Inv(w) && q in w.ba && Fresh(q, w.b) && Short(w.a) && Short(w.b) && !w.b.HasError()
    requires q.segment.start <= w.b.sender.ackno < q.segment.End() && w.a.receiver.asm.out.Valid()
    requires w.a.receiver.asm.out.Available() > 0
    ensures w.b.sender.ackno < w.a.receiver.Receive(q.segment.Wire(w.b.sender.isn)).AckNumber()
  {
    var r, g := w.a.receiver, q.segment;
    assert Half(w.Swap());
    FreshArrives(w, q);
    ReceiveFollows(r, w.b.sender, g);
    if r.AckNumber() == w.b.sender.ackno {
      ReceiveAdvances(r, w.b.sender, g);
    }
  }

  /** Last step: the answer arrives at `a`. */
  lemma AnswerArrives(s: System, s2: System, s3: System)
    requires Inv(s) && MidRound(s, s2) && LateRound(s, s2, s3)
    requires s.b.receiver.asm.out.capacity > 0 && s.a.sender.inFlight > 0
    ensures Possible(s3, Round(s)[3])
    ensures
      var t := Next(s3, Round(s)[3]);
      && t.a.sender.ackno > s.a.sender.ackno && RoundDone(s, t)
      && ((Ready(t) && t.b.Active()) || t.a.sender.ackno == t.a.sender.next)
  {
    var k := |s.ba|;
    hide Inv, Recent, Near, Segment.Wire, Sender.Valid;
    HealthyDelivery(s3, k);
    var t := Next(s3, AtA(Deliver(k)));
    OnlyWritingWrites(s3, Deliver(k));
    hide Local, Enabled, Next;
    AcksInOrder(s3);
    AcksInOrder(t);
  }

  /** What the sender believes, what the receiver says, and what was sent. */
  lemma AcksInOrder(s: System)
    requires Inv(s)
    ensures s.a.sender.ackno <= s.b.receiver.AckNumber() <= s.a.sender.next
    ensures s.b.receiver.asm.out.closed ==> s.b.receiver.AckNumber() == s.a.sender.next
    ensures s.a.sender.ackno == s.a.sender.next <==> s.a.sender.inFlight == 0
  {
    assert Half(s);
    AckWithinSent(s.b.receiver, s.a.sender);
    EmptyQueue(s.a.sender);
  }

  lemma RunStep(s: System, e: Event, rest: seq<Event>)
    requires Inv(s) && Possible(s, e) && IsRun(Next(s, e), rest)
    ensures IsRun(s, [e] + rest) && After(s, [e] + rest) == After(Next(s, e), rest)
  {
    assert ([e] + rest)[1..] == rest;
  }

  /** Progress: from any error-free state with data outstanding, a fair round can happen and advances
      exactly if `b` is still there and `a` does not give up. Then at least one more sequence number is
      acknowledged; afterwards `a` is ready for the next round, or everything written so far has been
      sent and acknowledged. */
  lemma RoundAdvances(s: System)
    requires Inv(s) && Waiting(s)
    ensures IsRun(s, Round(s)) && After(s, Round(s)).a.sender.ackno > s.a.sender.ackno
            <==> s.b.Active() && MayRetry(s.a)
    ensures
      s.b.Active() && MayRetry(s.a) ==>
        var t := After(s, Round(s));
        && RoundDone(s, t)
        && ((Ready(t) && t.b.Active()) || t.a.sender.ackno == t.a.sender.next)
  {
    if !s.b.Active() {
      NobodyAnswers(s);
    } else if MayRetry(s.a) {
      RoundHappens(s);
    } else if IsRun(s, Round(s)) {
      LastAttemptFails(s);
    }
  }

  lemma RoundHappens(s: System)
    requires Inv(s) && Ready(s) && s.b.Active()
    ensures IsRun(s, Round(s))
    ensures
      var t := After(s, Round(s));
      && t.a.sender.ackno > s.a.sender.ackno && RoundDone(s, t)
      && ((Ready(t) && t.b.Active()) || t.a.sender.ackno == t.a.sender.next)
  {
    assert s.b.receiver.asm.out.capacity > 0 && s.a.sender.inFlight > 0;
    hide Inv, Ready, Possible, Next, IsRun, After, MidRound, LateRound, RoundDone, Peer.Active, MayRetry;
    TimeoutRetransmits(s);
    var s1 := Next(s, Round(s)[0]);
    var s2 := Next(s1, Round(s)[1]);
    MidRoundIsInv(s, s2);
    RetransmissionIsAnswered(s, s2);
    var s3 := Next(s2, Round(s)[2]);
    AnswerArrives(s, s2, s3);
    FourSteps(s, s1, s2, s3, Round(s));
  }

  /** A peer that has gone transmits nothing, so there is nothing to arrive at the end of a round. */
  lemma NobodyAnswers(s: System)
    requires Inv(s) && !s.b.Active()
    ensures !IsRun(s, Round(s))
  {
    var e := Round(s);
    var s1 := DeafRead(s);
    hide Inv, Round, Peer.Active, Possible, Next;
    var s2 := DeafTick(s1, e[1].step);
    if Possible(s2, e[2]) {
      DeafDelivery(s2, e[2].step.k);
      var s3 := Next(s2, e[2]);
      NothingThere(s3, e[3].step.k);
      RunHead(s3, e[3..]);
    }
    RunHead(s2, e[2..]);
    RunHead(s1, e[1..]);
    RunHead(s, e);
  }

  /** The timeout that exceeds the last attempt fails the stream, and a failed peer hears nothing. */
  lemma LastAttemptFails(s: System)
    requires Inv(s) && Waiting(s) && !MayRetry(s.a) && IsRun(s, Round(s))
    ensures
      var t := After(s, Round(s));
      t.a.HasError() && t.a.sender.ackno == s.a.sender.ackno && t.a.sender.next == s.a.sender.next
  {
    var e := Round(s);
    EmptyQueue(s.a.sender);
    TickKeeps(s.a.sender, s.a.sender.rto);
    assert s.a.Tick(s.a.sender.rto).0.HasError();
    DeadRound(s, s.a.Tick(s.a.sender.rto).0);
  }

  /** A round in which `a` becomes `p` at its timeout, failed. */
  lemma DeadRound(s: System, p: Peer)
    requires Inv(s) && IsRun(s, Round(s)) && p == s.a.Tick(s.a.sender.rto).0 && p.HasError()
    ensures
      var t := After(s, Round(s));
      t.a.HasError() && t.a.sender.ackno == s.a.sender.ackno && t.a.sender.next == s.a.sender.next
  {
    TickFacts(s.a, s.a.sender.rto);
    var e := RoundEvents(s);
    hide Inv, Round, Possible, Next, Peer.Tick, IsRun, After;
    RunHead(s, e);
    var s1 := Next(s, e[0]);
    RunHead(s1, e[1..]);
    var s2 := Next(s1, e[1]);
    RunHead(s2, e[2..]);
    var s3 := Next(s2, e[2]);
    RunHead(s3, e[3..]);
    AtBLeavesA(s, e[0].step);
    TickAtA(s1, s.a.sender.rto);
    AtBLeavesA(s2, e[2].step);
    FailedIgnores(s3, e[3].step.k);
    FourSteps(s, s1, s2, s3, e);
  }

  lemma RoundEvents(s: System) returns (e: seq<Event>)
    requires Inv(s)
    ensures
      && e == Round(s) && |e| == 4 && e[0].AtB? && e[1] == AtA(Tick(s.a.sender.rto))
      && e[2].AtB? && e[3].AtA? && e[3].step.Deliver?
  {
    e := Round(s);
  }

  lemma AtBLeavesA(s: System, step: Step)
    requires Inv(s) && Possible(s, AtB(step))
    ensures Next(s, AtB(step)).a == s.a
  {
    hide Inv, Peer.Receive, Peer.Push, Peer.Tick, Near;
  }

  lemma TickAtA(s: System, ms: nat)
    requires Inv(s)
    ensures s.a.Valid() && Possible(s, AtA(Tick(ms))) && Next(s, AtA(Tick(ms))).a == s.a.Tick(ms).0
  {
    ValidInside(s);
    hide Inv, Peer.Tick;
  }

  lemma FailedIgnores(s: System, k: nat)
    requires Inv(s) && Possible(s, AtA(Deliver(k))) && s.a.HasError()
    ensures Next(s, AtA(Deliver(k))).a == s.a
  {
    hide Inv, Near;
  }

  /** First step of a round: reading does not bring a peer back. */
  lemma DeafRead(s: System) returns (s1: System)
    requires Inv(s) && !s.b.Active()
    ensures
      var e := Round(s);
      && |e| == 4 && e[1].AtA? && e[1].step.Tick? && e[2].AtB? && e[2].step.Deliver?
      && e[3] == AtA(Deliver(|s.ba|)) && Possible(s, e[0]) && s1 == Next(s, e[0])
    ensures Inv(s1) && s1.ba == s.ba && !s1.b.Active()
  {
    s1 := Next(s, Round(s)[0]);
    hide Inv;
  }

  lemma DeafTick(s: System, step: Step) returns (t: System)
    requires Inv(s) && !s.b.Active() && step.Tick?
    ensures Possible(s, AtA(step)) && t == Next(s, AtA(step)) && Inv(t) && t.ba == s.ba && !t.b.Active()
  {
    t := Next(s, AtA(step));
    OnlyWritingWrites(s, step);
    hide Inv, Peer.Active;
  }

  /** A peer that has gone ignores what arrives. */
  lemma DeafDelivery(s: System, k: nat)
    requires Inv(s) && !s.b.Active() && Possible(s, AtB(Deliver(k)))
    ensures Next(s, AtB(Deliver(k))).ba == s.ba
  {
    hide Inv, Peer.Active, Near;
    assert s.ba + [] == s.ba;
  }

  lemma NothingThere(s: System, k: nat)
    requires k >= |s.ba|
    ensures !Possible(s, AtA(Deliver(k)))
  {
    hide Near;
  }

  /** A run is its first event and the run after it. */
  lemma RunHead(s: System, e: seq<Event>)
    requires Inv(s) && e != []
    ensures IsRun(s, e) <==> Possible(s, e[0]) && IsRun(Next(s, e[0]), e[1..])
  {
    hide Inv, Possible, Next;
  }

  lemma MidRoundIsInv(s: System, s2: System)
    requires MidRound(s, s2)
    ensures Inv(s2)
  {
  }

  lemma FourSteps(s: System, s1: System, s2: System, s3: System, e: seq<Event>)
    requires |e| == 4 && Inv(s) && Inv(s1) && Inv(s2) && Inv(s3)
    requires Possible(s, e[0]) && s1 == Next(s, e[0]) && Possible(s1, e[1]) && s2 == Next(s1, e[1])
    requires Possible(s2, e[2]) && s3 == Next(s2, e[2]) && Possible(s3, e[3])
    ensures IsRun(s, e) && After(s, e) == Next(s3, e[3])
  {
    hide Inv, Possible, Next;
    assert IsRun(Next(s3, e[3]), []) && After(Next(s3, e[3]), []) == Next(s3, e[3]);
    hide IsRun, After;
    RunStep(s3, e[3], []);
    RunStep(s2, e[2], [e[3]]);
    RunStep(s1, e[1], [e[2], e[3]]);
    RunStep(s, e[0], [e[1], e[2], e[3]]);
    assert [e[3]] + [] == [e[3]] && [e[2]] + [e[3]] == [e[2], e[3]] && [e[1]] + [e[2], e[3]] == [e[1], e[2], e[3]];
    assert e == [e[0]] + [e[1], e[2], e[3]];
  }

  /** `n` fair rounds from `s` suffice to have everything delivered and acknowledged. */
  ghost predicate DeliversWithin(s: System, n: nat)
    requires Inv(s)
    decreases n
  {
    || FullyDelivered(s.a, s.b)
    || (n > 0 && IsRun(s, Round(s)) && DeliversWithin(After(s, Round(s)), n - 1))
  }

  /** When everything sent is acknowledged and the stream is closed, it is delivered. */
  lemma AcknowledgedMeansDelivered(s: System)
    requires Inv(s) && s.a.sender.input.closed && s.a.sender.ackno == s.a.sender.next
    ensures FullyDelivered(s.a, s.b)
  {
    assert Half(s);
    EmptyQueue(s.a.sender);
    AckWithinSent(s.b.receiver, s.a.sender);
  }

  /** A closed stream of L bytes is delivered and acknowledged within L + 2 fair rounds, less what is
      acknowledged already, however small the receiver's buffer, if the receiver is still there and the
      sender does not give up; otherwise no number of rounds will do. */
  lemma ClosedStreamIsDelivered(s: System)
    requires Inv(s) && Waiting(s) && s.a.sender.input.closed
    ensures s.a.sender.ackno <= |s.a.sender.input.data| + 2
    ensures s.b.Active() && MayRetry(s.a) ==> DeliversWithin(s, |s.a.sender.input.data| + 2 - s.a.sender.ackno)
    ensures !(s.b.Active() && MayRetry(s.a)) ==> forall n: nat :: !DeliversWithin(s, n)
  {
    AckIsBounded(s);
    AcksInOrder(s);
    if s.b.Active() && MayRetry(s.a) {
      RoundsDeliver(s);
    } else {
      forall n: nat
        ensures !DeliversWithin(s, n)
      {
        NothingDelivers(s, n);
      }
    }
  }

  lemma NothingDelivers(s: System, n: nat)
    requires Inv(s) && Waiting(s) && !(s.b.Active() && MayRetry(s.a)) && s.a.sender.ackno != s.a.sender.next
    ensures !DeliversWithin(s, n)
  {
    if !s.b.Active() {
      NobodyAnswers(s);
    } else if IsRun(s, Round(s)) {
      LastAttemptFails(s);
      if n > 0 {
        FailedNeverDelivers(After(s, Round(s)), n - 1);
      }
    }
    hide Inv, Round, IsRun, After, Peer.Active;
  }

  lemma {:induction false} FailedNeverDelivers(s: System, n: nat)
    requires Inv(s) && s.a.HasError() && s.a.sender.ackno != s.a.sender.next
    ensures !DeliversWithin(s, n)
    decreases n
  {
    if n > 0 && IsRun(s, Round(s)) {
      TickFacts(s.a, s.a.sender.rto);
      DeadRound(s, s.a.Tick(s.a.sender.rto).0);
      FailedNeverDelivers(After(s, Round(s)), n - 1);
    }
    hide Inv, Round, IsRun, After;
  }

  lemma {:induction false} RoundsDeliver(s: System)
    requires Inv(s) && Ready(s) && s.b.Active() && s.a.sender.input.closed
    ensures s.a.sender.ackno <= |s.a.sender.input.data| + 2
    ensures DeliversWithin(s, |s.a.sender.input.data| + 2 - s.a.sender.ackno)
    decreases |s.a.sender.input.data| + 2 - s.a.sender.ackno
  {
    hide Inv, Ready, IsRun, After, Round, FullyDelivered, DeliversWithin, Peer.Active;
    AckIsBounded(s);
    RoundHappens(s);
    var t := After(s, Round(s));
    var rounds := |s.a.sender.input.data| + 2 - s.a.sender.ackno;
    AckIsBounded(t);
    if t.a.sender.ackno == t.a.sender.next {
      AcknowledgedMeansDelivered(t);
      DeliveredIsWithin(t, rounds - 1);
    } else {
      RoundsDeliver(t);
      MoreRoundsSuffice(t, |t.a.sender.input.data| + 2 - t.a.sender.ackno, rounds - 1);
    }
    OneMoreRound(s, rounds);
  }

  /** SYN, the bytes and FIN are all there is to acknowledge. */
  lemma AckIsBounded(s: System)
    requires Inv(s)
    ensures s.a.sender.ackno <= |s.a.sender.input.data| + 2
  {
    EmptyQueue(s.a.sender);
    if s.a.sender.outstanding != [] {
      OldestSegment(s.a.sender);
    }
  }

  lemma DeliveredIsWithin(s: System, n: nat)
    requires Inv(s) && FullyDelivered(s.a, s.b)
    ensures DeliversWithin(s, n)
  {
  }

  lemma OneMoreRound(s: System, n: nat)
    requires Inv(s) && n > 0
    requires IsRun(s, Round(s)) && DeliversWithin(After(s, Round(s)), n - 1)
    ensures DeliversWithin(s, n)
  {
    hide Inv, Round, IsRun, After, FullyDelivered;
  }

  lemma {:induction false} MoreRoundsSuffice(s: System, m: nat, n: nat)
    requires Inv(s) && DeliversWithin(s, m) && m <= n
    ensures DeliversWithin(s, n)
    decreases n
  {
    hide Inv, Round, IsRun, After, FullyDelivered;
    if !FullyDelivered(s.a, s.b) {
      MoreRoundsSuffice(After(s, Round(s)), m - 1, n - 1);
    }
  }

  /** A first write on a fresh connection gets it going. */
  lemma FirstWriteIsReady(s: System, bytes: seq<byte>)
    requires Initial(s) && s.b.receiver.asm.out.capacity > 0 && |bytes| + 2 < CHECKPOINT_LIMIT
    ensures Inv(s) && Possible(s, AtA(Write(bytes, true)))
    ensures
      var t := Next(s, AtA(Write(bytes, true)));
      && Ready(t) && t.b.Active() && t.a.sender.input.closed && t.a.sender.ackno == 0
      && t.a.sender.input.data == bytes[..Min(|bytes|, s.a.sender.input.capacity)]
  {
    InitialInv(s);
    var w := s.a.Write(bytes, true);
    var (p, sent) := w.Push();
    PushFacts(w);
    OnlyWritingWrites(s, Write(bytes, true));
    assert Next(s, AtA(Write(bytes, true))) == s.AfterA(p, sent);
    hide Inv, Peer.Push, Local, Next;
    EmptyQueue(p.sender);
  }

  /** From nothing to everything: what is written on a fresh connection, and closed, is delivered and
      acknowledged within L + 2 fair rounds, connection set-up and close included, if the receiver can
      hold a single byte. */
  lemma ConnectionDelivers(s: System, bytes: seq<byte>)
    requires Initial(s) && s.b.receiver.asm.out.capacity > 0 && |bytes| + 2 < CHECKPOINT_LIMIT
    ensures Inv(s) && Possible(s, AtA(Write(bytes, true)))
    ensures
      var accepted := bytes[..Min(|bytes|, s.a.sender.input.capacity)];
      var t := Next(s, AtA(Write(bytes, true)));
      t.a.sender.input.data == accepted && DeliversWithin(t, |accepted| + 2)
  {
    hide Inv, Initial, Waiting, MayRetry, Next, Possible, DeliversWithin, Peer.Active;
    FirstWriteIsReady(s, bytes);
    ClosedStreamIsDelivered(Next(s, AtA(Write(bytes, true))));
  }
}
