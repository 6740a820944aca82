/** Two streams, both written and closed: both are delivered, and both peers leave in peace. */
module Closing {
  import opened Common
  import opened WrappingIntegers
  import opened SenderModel
  import opened Following
  import opened PeerModel
  import opened Network
  import opened EndToEnd
  import opened Progress

  /** A healthy peer that has closed its stream and has heard from the other side within its linger
      time. */
  predicate CalmPeer(p: Peer) {
    && !p.HasError() && Short(p) && p.sender.input.closed
    && p.receiver.asm.out.capacity > 0 && p.sender.retransmissions < MAX_RETX_ATTEMPTS
    && p.now < p.lastReceipt + 10 * p.rtTimeout
  }

  ghost predicate Calm(s: System) {
    Inv(s) && CalmPeer(s.a) && CalmPeer(s.b)
  }

  /** As long as something is unacknowledged, a round advances it and disturbs nobody: the other side
      cannot have left, because it has heard something lately. */
  lemma CalmRound(s: System)
    requires Calm(s) && s.a.sender.ackno != s.a.sender.next
    ensures IsRun(s, Round(s))
    ensures
      var t := After(s, Round(s));
      && Calm(t) && t.a.sender.ackno > s.a.sender.ackno && SameStream(s.a, t.a) && SameStream(s.b, t.b)
  {
    CalmIsReady(s);
    hide Inv, Waiting, Ready, Round, IsRun, After, Peer.Active, MayRetry;
    RoundAdvances(s);
  }

  lemma CalmIsReady(s: System)
    requires Calm(s) && s.a.sender.ackno != s.a.sender.next
    ensures Waiting(s) && MayRetry(s.a) && s.b.Active() && s.a.rtTimeout > 0 && s.b.rtTimeout > 0
  {
    AcksInOrder(s);
    assert s.a.rtTimeout > 0 && s.b.rtTimeout > 0;
    hide Inv, Peer.Active;
    DeafMeansLingeredOut(s);
  }

  /** What has been delivered in full stays delivered. */
  lemma DeliveredStays(s: System, e: Event)
    requires Inv(s) && Possible(s, e) && FullyDelivered(s.a, s.b)
    ensures FullyDelivered(Next(s, e).a, Next(s, e).b)
  {
    var t := Next(s, e);
    match e
    case AtA(step) => StepExtends(s, step);
    case AtB(step) => StepExtends(s.Swap(), step);
    hide Local, Enabled, Next;
    AcksInOrder(t);
    assert Half(t);
    AckWithinSent(t.b.receiver, t.a.sender);
  }

  lemma {:induction false} DeliveredStaysForever(s: System, events: seq<Event>)
    requires Inv(s) && IsRun(s, events) && FullyDelivered(s.a, s.b)
    ensures FullyDelivered(After(s, events).a, After(s, events).b)
    decreases |events|
  {
    hide Inv, Possible, Next, FullyDelivered;
    if events != [] {
      DeliveredStays(s, events[0]);
      DeliveredStaysForever(Next(s, events[0]), events[1..]);
    }
  }

  /** Rounds until `a` has everything acknowledged. */
  lemma {:induction false} SendAll(s: System) returns (events: seq<Event>)
    requires Calm(s)
    ensures IsRun(s, events) && |events| <= 4 * (|s.a.sender.input.data| + 2 - s.a.sender.ackno)
    ensures
      var t := After(s, events);
      Calm(t) && FullyDelivered(t.a, t.b) && SameStream(s.a, t.a) && SameStream(s.b, t.b)
    decreases |s.a.sender.input.data| + 2 - s.a.sender.ackno
  {
    AckIsBounded(s);
    if s.a.sender.ackno == s.a.sender.next {
      AcknowledgedMeansDelivered(s);
      events := [];
      assert IsRun(s, events) && After(s, events) == s;
    } else {
      CalmRound(s);
      var t := After(s, Round(s));
      AckIsBounded(t);
      assert |Round(s)| == 4;
      hide Inv, Round, IsRun, After, FullyDelivered, CalmPeer;
      var rest := SendAll(t);
      RunConcat(s, Round(s), rest);
      events := Round(s) + rest;
    }
  }

  lemma {:induction false} MirrorLength(events: seq<Event>)
    ensures |Mirror(events)| == |events|
  {
    if events != [] {
      MirrorLength(events[1..]);
    }
  }

  /** The same for the other side. */
  lemma SendAllBack(s: System) returns (events: seq<Event>)
    requires Calm(s)
    ensures IsRun(s, events) && |events| <= 4 * (|s.b.sender.input.data| + 2 - s.b.sender.ackno)
    ensures
      var t := After(s, events);
      Calm(t) && FullyDelivered(t.b, t.a) && SameStream(s.a, t.a) && SameStream(s.b, t.b)
  {
    assert s.Swap().Swap() == s;
    var back := SendAll(s.Swap());
    MirroredRun(s.Swap(), back);
    MirrorLength(back);
    events := Mirror(back);
    assert After(s, events).Swap().Swap() == After(s, events);
    hide IsRun, After, FullyDelivered, CalmPeer, Mirror;
  }

  /** Nothing is left to do but to wait, and after ten timeouts without a message `a` is gone. */
  lemma LastTick(s: System)
    requires Inv(s) && FullyDelivered(s.a, s.b) && FullyDelivered(s.b, s.a) && !s.a.HasError()
    ensures
      var e := AtA(Tick(10 * s.a.rtTimeout));
      && Possible(s, e)
      && var t := Next(s, e);
      && FullyDelivered(t.a, t.b) && FullyDelivered(t.b, t.a)
      && !t.a.Active() && !t.a.HasError() && SameStream(s.a, t.a) && t.b == s.b
  {
    var ms := 10 * s.a.rtTimeout;
    var e := AtA(Tick(ms));
    LingerEnds(s, ms);
    DeliveredStays(s, e);
    TickFacts(s.a, ms);
    MirrorStays(s, e);
    hide Inv, FullyDelivered, Peer.Tick, Peer.Active;
  }

  lemma MirrorStays(s: System, e: Event)
    requires Inv(s) && Possible(s, e) && FullyDelivered(s.b, s.a)
    ensures FullyDelivered(Next(s, e).b, Next(s, e).a)
  {
    var e' := match e case AtA(step) => AtB(step) case AtB(step) => AtA(step);
    assert s.Swap().Swap() == s;
    DeliveredStays(s.Swap(), e');
    hide Inv, FullyDelivered;
    assert Next(s.Swap(), e') == Next(s, e).Swap();
  }

  /** Both sides are done, healthy, and gone. */
  ghost predicate ClosedInPeace(s: System) {
    && FullyDelivered(s.a, s.b) && FullyDelivered(s.b, s.a)
    && !s.a.HasError() && !s.b.HasError() && !s.a.Active() && !s.b.Active()
  }

  /** The linger times of both peers pass. */
  lemma BothLeave(s: System) returns (events: seq<Event>)
    requires Calm(s) && FullyDelivered(s.a, s.b) && FullyDelivered(s.b, s.a)
    ensures IsRun(s, events) && |events| == 2
    ensures
      var t := After(s, events);
      ClosedInPeace(t) && SameStream(s.a, t.a) && SameStream(s.b, t.b)
  {
    var e := AtA(Tick(10 * s.a.rtTimeout));
    LastTick(s);
    var t := Next(s, e);
    var w := t.Swap();
    assert w.Swap() == t;
    var e' := AtB(Tick(10 * t.b.rtTimeout));
    LastTick(w);
    hide Inv, FullyDelivered, Peer.Active;
    assert Next(t, e') == Next(w, AtA(Tick(10 * w.a.rtTimeout))).Swap();
    hide Next, Possible;
    SingleStep(s, e);
    SingleStep(t, e');
    RunConcat(s, [e], [e']);
    events := [e] + [e'];
  }

  /** From any calm state with both streams closed there is a run of at most L + 2 rounds in the one
      direction, M + 2 in the other, and the two linger times, after which each side holds all of the
      other's stream, and both have left without an error. */
  lemma BothSidesClose(s: System) returns (events: seq<Event>)
    requires Calm(s)
    ensures
      IsRun(s, events)
      && |events| <= 4 * (|s.a.sender.input.data| + 2) + 4 * (|s.b.sender.input.data| + 2) + 2
    ensures
      var t := After(s, events);
      ClosedInPeace(t) && SameStream(s.a, t.a) && SameStream(s.b, t.b)
  {
    hide Inv, CalmPeer, IsRun, After, FullyDelivered, ClosedInPeace;
    var there := SendAll(s);
    var s1 := After(s, there);
    var back := SendAllBack(s1);
    var s2 := After(s1, back);
    DeliveredStaysForever(s1, back);
    RunConcat(s, there, back);
    var wait := BothLeave(s2);
    RunConcat(s, there + back, wait);
    events := there + back + wait;
  }

  /** What the buffer of a peer takes of `bytes`. */
  function Taken(p: Peer, bytes: seq<byte>): seq<byte>
    requires p.sender.input.Valid()
  {
    bytes[..Min(|bytes|, p.sender.input.Available())]
  }

  /** A peer that could be calm but for its open stream. */
  ghost predicate OpenPeer(p: Peer) {
    p.Valid() && !p.sender.input.closed && CalmPeer(p.Write([], true))
  }

  lemma FreshIsOpen(s: System)
    requires Initial(s) && s.a.receiver.asm.out.capacity > 0
    ensures Inv(s) && OpenPeer(s.a) && s.a.sender.input.data == []
  {
    InitialInv(s);
    hide Inv;
  }

  /** Such a peer writes and closes, and is calm. */
  lemma WriteCloses(s: System, bytes: seq<byte>)
    requires Inv(s) && OpenPeer(s.a)
    requires |s.a.sender.input.data| + |bytes| + 2 < CHECKPOINT_LIMIT
    ensures
      var e := AtA(Write(bytes, true));
      && Possible(s, e)
      && var t := Next(s, e);
      && CalmPeer(t.a) && t.b == s.b && t.a.receiver.asm.out.capacity == s.a.receiver.asm.out.capacity
      && t.a.sender.input.data == s.a.sender.input.data + Taken(s.a, bytes)
  {
    var w := s.a.Write(bytes, true);
    PushFacts(w);
    OnlyWritingWrites(s, Write(bytes, true));
    assert Next(s, AtA(Write(bytes, true))) == s.AfterA(w.Push().0, w.Push().1);
    hide Inv, Peer.Push, Local, Next;
  }

  lemma SwappedInitial(s: System)
    requires Initial(s)
    ensures Initial(s.Swap())
  {
  }

  /** A step at `b` is a step at `a` in the mirror. */
  lemma MirroredStep(s: System, step: Step)
    requires Inv(s) && Inv(s.Swap()) && Possible(s.Swap(), AtA(step))
    ensures Possible(s, AtB(step)) && Next(s, AtB(step)) == Next(s.Swap(), AtA(step)).Swap()
  {
    assert s.Swap().Swap() == s;
    hide Inv, Local, Enabled;
  }

  /** From a fresh connection: whatever the two applications write and close, there is a run after
      which each of them has all that the other's buffer took, and both peers have left without an
      error, for any two buffers that can receive a single byte. */
  lemma ConnectionCloses(s: System, x: seq<byte>, y: seq<byte>) returns (events: seq<Event>)
    requires Initial(s) && s.a.receiver.asm.out.capacity > 0 && s.b.receiver.asm.out.capacity > 0
    requires |x| + 2 < CHECKPOINT_LIMIT && |y| + 2 < CHECKPOINT_LIMIT
    ensures Inv(s) && IsRun(s, [AtA(Write(x, true)), AtB(Write(y, true))] + events)
    ensures |events| <= 4 * (|x| + 2) + 4 * (|y| + 2) + 2
    ensures
      var t := After(s, [AtA(Write(x, true)), AtB(Write(y, true))] + events);
      && ClosedInPeace(t)
      && t.b.receiver.asm.out.data == Taken(s.a, x) && t.a.receiver.asm.out.data == Taken(s.b, y)
  {
    hide Inv, Next, Possible, CalmPeer, OpenPeer, Initial;
    FreshIsOpen(s);
    SwappedInitial(s);
    FreshIsOpen(s.Swap());
    var e, e' := AtA(Write(x, true)), AtB(Write(y, true));
    WriteCloses(s, x);
    var s1 := Next(s, e);
    SwappedInv(s1);
    WriteCloses(s1.Swap(), y);
    MirroredStep(s1, Write(y, true));
    var s2 := Next(s1, e');
    SingleStep(s, e);
    SingleStep(s1, e');
    RunConcat(s, [e], [e']);
    events := BothSidesClose(s2);
    RunConcat(s, [e] + [e'], events);
    assert [e] + [e'] == [e, e'];
  }
}
