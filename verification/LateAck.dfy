/** Why progress needs the other side to be there: a run, without any failure, in which the last
    acknowledgement is lost and the peer that sent it has left when it is asked for again. */
module LateAck {
  import opened Common
  import opened WrappingIntegers
  import opened Messages
  import opened ByteStreams
  import opened ReassemblerModel
  import opened ReceiverModel
  import opened SenderModel
  import opened SenderProofs
  import opened PeerModel
  import opened Network
  import opened EndToEnd
  import opened Progress

  const ZERO: Wrap32 := Wrap32(0)
  const SYN: Segment := Segment(0, true, [], false, false)
  const FIN: Segment := Segment(1, false, [], true, false)
  const ACK: Segment := Segment(2, false, [], false, false)

  /** Both peers have room for ten bytes in each direction, and a timeout of one millisecond. */
  function Start(): Peer {
    NewPeer(1, 10, 10, ZERO)
  }

  function Opened(): Sender {
    NewSender(10, ZERO, 1).(input := EmptyStream(10).(closed := true),
                            synSent := true, next := 1, outstanding := [SYN], inFlight := 1, timerOn := true)
  }

  function Finished(): Sender {
    Opened().(window := 10, finSent := true, next := 2, outstanding := [SYN, FIN], inFlight := 2)
  }

  function Halfway(): Sender {
    Finished().(ackno := 1, outstanding := [FIN], inFlight := 1)
  }

  function Done(): Sender {
    Halfway().(ackno := 2, outstanding := [], inFlight := 0, timerOn := false, cwnd := DEFAULT_CAPACITY + 1)
  }

  function Listening(): Receiver {
    NewReceiver(10).(syn := true)
  }

  function Complete(): Receiver {
    Receiver(Assembly(EmptyStream(10).(closed := true), map[], Some(0)), true, true, false, ZERO)
  }

  function At(s: Sender, r: Receiver): Peer {
    Start().(sender := s, receiver := r)
  }

  /** What the three messages look like on the wire. */
  function Message(g: Segment, ackno: Option<nat>): TCPMessage {
    TCPMessage(SenderMessage(Wrap32(g.start % TWO32), g.syn, g.payload, g.fin, g.rst),
               ReceiverMessage(if ackno.None? then None else Some(Wrap32(ackno.value % TWO32)), 10, false))
  }

  lemma OpenedSends()
    ensures NewSender(10, ZERO, 1).Write([], true).Push() == (Opened(), [SYN])
  {
    var s := NewSender(10, ZERO, 1).Write([], true);
    var none: seq<byte> := [];
    assert none[..0] == none && none + none == none;
    assert s == NewSender(10, ZERO, 1).(input := EmptyStream(10).(closed := true));
    assert s.EffectiveWindow() == 1;
    assert s.input.Buffer() == none && s.input.Buffer()[..0] == none;
    var empty: seq<Segment> := [];
    assert empty + [SYN] == [SYN];
    assert s.Fill(1).1 == Some(SYN);
    assert s.Fill(1) == (Opened(), Some(SYN));
    assert Opened().FillAll(1, [SYN]) == (Opened(), [SYN]);
    assert s.FillAll(1, []) == (Opened(), [SYN]);
  }

  lemma OpenedHears()
    ensures Opened().Queued() && Opened().Receive(None, 10, false) == Opened().(window := 10)
  {
    OpenedIsValid();
    hide Sender.Carries, Sender.Acknowledge, Tiles;
  }

  lemma FinishedHears()
    ensures Finished().Queued() && Finished().Receive(Some(1), 10, false) == Halfway()
  {
    FinishedIsValid();
    assert [SYN, FIN][1..] == [FIN];
    hide Sender.Carries, Avoid, Increment, Tiles;
  }

  lemma HalfwayHears()
    ensures Halfway().Queued() && Halfway().Receive(Some(2), 10, false) == Done()
  {
    HalfwayIsValid();
    assert [FIN][1..] == [];
    hide Sender.Carries, Avoid, Increment, Tiles;
  }

  /** After SYN from the other side, whose window is open, FIN follows. */
  lemma FinishedSends()
    ensures Opened().Queued() && Opened().Receive(None, 10, false).isn == ZERO
    ensures Opened().Receive(None, 10, false).Valid()
    ensures Opened().Receive(None, 10, false).Push() == (Finished(), [FIN])
  {
    OpenedIsValid();
    OpenedHears();
    ReceiveKeeps(Opened(), None, 10, false);
    hide Sender.Receive, Sender.Valid, Sender.Queued;
    OpenedFills(Opened().(window := 10));
  }

  lemma OpenedFills(s: Sender)
    requires s == Opened().(window := 10)
    ensures s.Push() == (Finished(), [FIN])
  {
    var none: seq<byte> := [];
    assert s.input.Buffer() == none && none[..0] == none;
    assert s.EffectiveWindow() == 10;
    var empty: seq<Segment> := [];
    assert empty + [FIN] == [FIN] && [SYN] + [FIN] == [SYN, FIN];
    assert s.Fill(10).1 == Some(FIN);
    assert s.Fill(10) == (Finished(), Some(FIN));
    assert s.FillAll(10, []) == (Finished(), [FIN]);
  }

  lemma HalfwayIsQuiet()
    ensures Finished().Queued() && Finished().Receive(Some(1), 10, false).isn == ZERO
    ensures Finished().Receive(Some(1), 10, false).Valid()
    ensures Finished().Receive(Some(1), 10, false).Push() == (Halfway(), [])
  {
    FinishedHears();
    HalfwayIsValid();
    hide Sender.Receive, Sender.Valid, Sender.Queued;
    NothingMore(Halfway());
  }

  lemma DoneIsQuiet()
    ensures Halfway().Queued() && Halfway().Receive(Some(2), 10, false).isn == ZERO
    ensures Halfway().Receive(Some(2), 10, false).Valid()
    ensures Halfway().Receive(Some(2), 10, false).Push() == (Done(), [])
  {
    HalfwayHears();
    DoneIsValid();
    hide Sender.Receive, Sender.Valid, Sender.Queued;
    NothingMore(Done());
  }

  /** With SYN, everything and FIN sent, a push sends nothing. */
  lemma NothingMore(s: Sender)
    requires s == Halfway() || s == Done()
    ensures s.Push() == (s, [])
  {
    var none: seq<byte> := [];
    assert s.input.Buffer() == none && none[..0] == none;
    assert s.EffectiveWindow() == 10;
    assert s.Fill(10).1 == None;
  }

  lemma OpenedIsValid()
    ensures Opened().Valid()
  {
    assert [SYN][1..] == [] && Tiles([SYN], 0, 1);
    SenderIsValid(Opened());
  }

  lemma FinishedIsValid()
    ensures Finished().Valid()
  {
    assert [SYN, FIN][1..] == [FIN] && [FIN][1..] == [] && Tiles([FIN], 1, 2) && Tiles([SYN, FIN], 0, 2);
    SenderIsValid(Finished());
  }

  lemma HalfwayIsValid()
    ensures Halfway().Valid()
  {
    assert [FIN][1..] == [] && Tiles([FIN], 1, 2);
    SenderIsValid(Halfway());
  }

  lemma DoneIsValid()
    ensures Done().Valid()
  {
    SenderIsValid(Done());
  }

  lemma AllValid()
    ensures Opened().Valid() && Finished().Valid() && Halfway().Valid() && Done().Valid()
  {
    hide Sender.Valid;
    OpenedIsValid();
    FinishedIsValid();
    HalfwayIsValid();
    DoneIsValid();
  }

  /** What is to check of a sender in one of these states. */
  lemma SenderIsValid(s: Sender)
    requires s.input == EmptyStream(10).(closed := true) && s.synSent
    requires s.next == (if s.finSent then 2 else 1) && s.inFlight <= s.next
    requires Tiles(s.outstanding, s.next - s.inFlight, s.next)
    requires forall g | g in s.outstanding :: g == SYN || (g == FIN && s.finSent)
    requires if s.outstanding == [] then s.ackno == s.next
             else s.next - s.inFlight <= s.ackno < s.outstanding[0].End()
    requires s.initialRto == s.rto == 1 && s.retransmissions == 0 && s.elapsed == 0
    requires s.timerOn <==> s.outstanding != []
    requires s.cwnd >= MAX_PAYLOAD_SIZE && s.ssthresh >= MAX_PAYLOAD_SIZE
    ensures s.Valid()
  {
    assert Pow2(0) == 1;
    assert s.Numbered() && s.Paced() && s.Timed();
  }

  lemma ReceiversHear()
    ensures NewReceiver(10).Receive(Message(SYN, None).sender) == Listening()
    ensures Listening().Valid() && Listening().Receive(Message(FIN, Some(1)).sender) == Complete()
    ensures Complete().Valid() && Complete().Receive(Message(ACK, Some(2)).sender) == Complete()
  {
    Inserted(EmptyAssembly(10), 0, false);
    Inserted(EmptyAssembly(10), 0, true);
    Inserted(Complete().asm, 1, false);
    assert Listening().FirstIndex(Message(FIN, Some(1)).sender) == 0;
    assert Complete().FirstIndex(Message(ACK, Some(2)).sender) == 1;
    hide Assembly.Insert;
  }

  /** Inserting nothing can only mark the end. */
  lemma Inserted(a: Assembly, first: nat, last: bool)
    requires a.Valid() && first < TWO64
    ensures
      var marked := if last then a.(eof := Some(first)) else a;
      a.Insert(first, [], last) == marked.CloseAtEnd()
  {
    var marked := if last then a.(eof := Some(first)) else a;
    NothingToStore(marked, first, []);
    NothingToFlush(marked);
  }

  function FirstPacket(): Packet {
    Packet(SYN, None, Message(SYN, None))
  }

  function SecondPacket(): Packet {
    Packet(FIN, Some(1), Message(FIN, Some(1)))
  }

  function ThirdPacket(): Packet {
    Packet(ACK, Some(2), Message(ACK, Some(2)))
  }

  /** How a peer with this receiver dresses a segment. */
  lemma Dressed(p: Peer, g: Segment, q: Packet)
    requires p.sender.isn == ZERO
    requires
      || (p.receiver == NewReceiver(10) && g == SYN && q == FirstPacket())
      || (p.receiver == Listening() && g == FIN && q == SecondPacket())
      || (p.receiver == Complete() && g == ACK && q == ThirdPacket())
    ensures p.receiver.Valid() && p.DressAll([g]) == [q] && p.Dress(g) == q
  {
    assert p.receiver.Valid();
    assert p.Dress(g) == q;
  }

  lemma StartIsValid()
    ensures Start().Valid()
  {
  }

  lemma FirstStep()
    ensures Start().Valid()
    ensures Start().Write([], true).Push() == (At(Opened(), NewReceiver(10)), [FirstPacket()])
  {
    StartIsValid();
    OpenedSends();
    hide Sender.Push, Sender.Valid;
    Dressed(Start().Write([], true), SYN, FirstPacket());
    hide Peer.Dress;
  }

  /** The acknowledgements as the senders read them. */
  lemma AcksRead()
    ensures Absolute(None, ZERO, 1) == None
    ensures Absolute(Some(Wrap32(1)), ZERO, 2) == Some(1) && Absolute(Some(Wrap32(2)), ZERO, 2) == Some(2)
  {
  }

  /** The three deliveries, and who is to answer: everybody but the peer that gets a bare
      acknowledgement. */
  lemma Deliveries()
    ensures
      var p := At(Opened(), NewReceiver(10));
      && p.Valid() && p.Active()
      && p.Deliver(FirstPacket().message)
         == p.(needSend := true, receiver := Listening(), sender := Opened().Receive(None, 10, false))
    ensures
      var p := At(Finished(), Listening());
      && p.Valid() && p.Active()
      && p.Deliver(SecondPacket().message)
         == p.(needSend := true, receiver := Complete(), sender := Finished().Receive(Some(1), 10, false))
    ensures
      var p := At(Halfway(), Complete());
      && p.Valid() && p.Active()
      && p.Deliver(ThirdPacket().message)
         == p.(receiver := Complete(), sender := Halfway().Receive(Some(2), 10, false))
  {
    AllValid();
    ReceiversHear();
    AcksRead();
    hide Sender.Valid, Sender.Queued, Sender.Receive, Receiver.Receive, Absolute;
  }

  lemma SecondStep()
    ensures
      var p := At(Opened(), NewReceiver(10));
      p.Valid() && p.Receive(FirstPacket().message) == (At(Finished(), Listening()), [SecondPacket()])
  {
    AllValid();
    FinishedSends();
    Deliveries();
    hide Peer.Active, Peer.Deliver, Sender.Push, Sender.Receive, Sender.Valid, Sender.Queued;
    var d := At(Opened(), NewReceiver(10)).Deliver(FirstPacket().message);
    Dressed(d, FIN, SecondPacket());
    hide Peer.Dress;
    assert d.Push() == (At(Finished(), Listening()), [SecondPacket()]);
    assert [SecondPacket()] + [] == [SecondPacket()];
  }

  lemma ThirdStep()
    ensures
      var p := At(Finished(), Listening());
      p.Valid() && p.Receive(SecondPacket().message) == (At(Halfway(), Complete()), [ThirdPacket()])
  {
    AllValid();
    HalfwayIsQuiet();
    Deliveries();
    hide Peer.Active, Peer.Deliver, Sender.Push, Sender.Receive, Sender.Valid, Sender.Queued;
    var d := At(Finished(), Listening()).Deliver(SecondPacket().message);
    var pushed := At(Halfway(), Complete()).(needSend := true);
    Dressed(pushed, ACK, ThirdPacket());
    hide Peer.Dress;
    assert d.Push() == (pushed, []);
    assert [] + [ThirdPacket()] == [ThirdPacket()];
  }

  lemma FourthStep()
    ensures
      var p := At(Halfway(), Complete());
      p.Valid() && p.Receive(ThirdPacket().message) == (At(Done(), Complete()), [])
  {
    AllValid();
    DoneIsQuiet();
    Deliveries();
    hide Peer.Active, Peer.Deliver, Peer.Dress, Sender.Push, Sender.Receive, Sender.Valid, Sender.Queued;
    var d := At(Halfway(), Complete()).Deliver(ThirdPacket().message);
    assert d.Push() == (At(Done(), Complete()), []);
    var nothing: seq<Packet> := [];
    assert nothing + nothing == nothing;
  }

  lemma FifthStep()
    ensures
      var p := At(Done(), Complete());
      p.Valid() && p.Tick(10) == (p.(now := 10), [])
  {
    AllValid();
    hide Sender.Valid, Sender.Queued;
    var p := At(Done(), Complete());
    assert Done().Tick(10) == (Done(), []);
    assert p.DressAll([]) == [];
  }

  /** A delivery at `a` whose outcome is known. */
  lemma Arrives(s: System, k: nat, p: Peer, sent: seq<Packet>)
    requires Reachable(s) && s.a.Valid() && k < |s.ba| && Near(s.a, s.ba[k])
    requires s.a.Receive(s.ba[k].message) == (p, sent)
    ensures Reachable(System(p, s.b, s.ab + sent, s.ba))
  {
    hide Reachable, Peer.Receive, Near, Peer.Valid;
    StepReachable(s, AtA(Deliver(k)));
  }

  /** A delivery at `b`. */
  lemma ArrivesThere(s: System, k: nat, p: Peer, sent: seq<Packet>)
    requires Reachable(s) && s.b.Valid() && k < |s.ab| && Near(s.b, s.ab[k])
    requires s.b.Receive(s.ab[k].message) == (p, sent)
    ensures Reachable(System(s.a, p, s.ab, s.ba + sent))
  {
    hide Reachable, Peer.Receive, Near, Peer.Valid;
    EitherSide(s);
    Arrives(s.Swap(), k, p, sent);
    EitherSide(System(p, s.a, s.ba + sent, s.ab));
  }

  /** Nobody is too far behind to be understood. */
  lemma Nearby()
    ensures
      var p := At(Opened(), NewReceiver(10));
      p.Valid() && Near(p, FirstPacket())
    ensures
      var p := At(Finished(), Listening());
      p.Valid() && Near(p, SecondPacket())
    ensures
      var p := At(Halfway(), Complete());
      p.Valid() && Near(p, ThirdPacket())
  {
    AllValid();
    hide Sender.Valid;
  }

  lemma StartIsReachable()
    ensures Reachable(System(Start(), Start(), [], []))
  {
    StartReachable(System(Start(), Start(), [], []));
  }

  /** A fresh peer writes nothing and closes. */
  lemma Opens(s: System)
    requires Reachable(s) && s.a == Start()
    ensures Reachable(System(At(Opened(), NewReceiver(10)), s.b, s.ab + [FirstPacket()], s.ba))
  {
    FirstStep();
    hide Reachable, Peer.Write, Peer.Push, Peer.Valid;
    StepReachable(s, AtA(Write([], true)));
  }

  /** Both applications write nothing and close: two SYNs are on their way. */
  lemma BothOpened()
    ensures
      var p := At(Opened(), NewReceiver(10));
      Reachable(System(p, p, [FirstPacket()], [FirstPacket()]))
  {
    hide Reachable;
    var p, none: seq<Packet> := At(Opened(), NewReceiver(10)), [];
    assert none + [FirstPacket()] == [FirstPacket()];
    StartIsReachable();
    Opens(System(Start(), Start(), [], []));
    EitherSide(System(p, Start(), [FirstPacket()], []));
    Opens(System(Start(), p, [], [FirstPacket()]));
  }

  /** The SYNs arrive: two FINs are on their way. */
  lemma BothFinished()
    ensures
      var p := At(Finished(), Listening());
      Reachable(System(p, p, [FirstPacket(), SecondPacket()], [FirstPacket(), SecondPacket()]))
  {
    hide Peer.Receive, Reachable, Peer.Valid, Near;
    var p, p' := At(Opened(), NewReceiver(10)), At(Finished(), Listening());
    BothOpened();
    SecondStep();
    Nearby();
    var sent := [FirstPacket()];
    assert sent + [SecondPacket()] == [FirstPacket(), SecondPacket()];
    ArrivesThere(System(p, p, sent, sent), 0, p', [SecondPacket()]);
    Arrives(System(p, p', sent, sent + [SecondPacket()]), 0, p', [SecondPacket()]);
  }

  /** The FINs arrive: two acknowledgements are on their way. */
  lemma BothComplete()
    ensures
      var p, sent := At(Halfway(), Complete()), [FirstPacket(), SecondPacket(), ThirdPacket()];
      Reachable(System(p, p, sent, sent))
  {
    hide Peer.Receive, Reachable, Peer.Valid, Near;
    var p, p' := At(Finished(), Listening()), At(Halfway(), Complete());
    var sent := [FirstPacket(), SecondPacket()];
    BothFinished();
    ThirdStep();
    Nearby();
    assert sent + [ThirdPacket()] == [FirstPacket(), SecondPacket(), ThirdPacket()];
    Arrives(System(p, p, sent, sent), 1, p', [ThirdPacket()]);
    ArrivesThere(System(p', p, sent + [ThirdPacket()], sent), 1, p', [ThirdPacket()]);
  }

  /** `a` waits for its timeout, and resends in vain. */
  lemma Retry(s: System) returns (t: System)
    requires Reachable(s) && s.a.sender.Valid() && s.a.sender.timerOn && s.a.sender.elapsed == 0
    requires !s.a.HasError() && s.a.sender.retransmissions < MAX_RETX_ATTEMPTS && s.a.sender.window > 0
    ensures Reachable(t) && t.b == s.b && SameBut(s.a, t.a) && t.a.now == s.a.now + s.a.sender.rto
    ensures t.a.sender.rto == 2 * s.a.sender.rto && t.a.sender.retransmissions == s.a.sender.retransmissions + 1
    ensures t.a.sender.elapsed == 0
  {
    var ms := s.a.sender.rto;
    ReachableInv(s);
    TickKeeps(s.a.sender, ms);
    TickAtA(s, ms);
    StepReachable(s, AtA(Tick(ms)));
    OnlyWritingWrites(s, Tick(ms));
    t := Next(s, AtA(Tick(ms)));
    TickFacts(s.a, ms);
    assert t.a.sender == s.a.sender.Tick(ms).0;
    hide Reachable, Inv, Next, Possible, Sender.Valid, Peer.Tick;
  }

  /** Time and timeouts aside, the peer is the same. */
  ghost predicate SameBut(p: Peer, p': Peer) {
    && p'.receiver == p.receiver && p'.rtTimeout == p.rtTimeout
    && p'.sender.Valid() && !p'.HasError()
    && p'.sender == p.sender.(elapsed := p'.sender.elapsed, rto := p'.sender.rto, cwnd := p'.sender.cwnd,
                              retransmissions := p'.sender.retransmissions, ssthresh := p'.sender.ssthresh,
                              duplicates := p'.sender.duplicates)
  }

  /** `n` retransmissions, all of them lost. */
  lemma {:induction false} Retries(s: System, n: nat) returns (t: System)
    requires Reachable(s) && s.a.sender.Valid() && s.a.sender.timerOn && s.a.sender.elapsed == 0
    requires !s.a.HasError() && s.a.sender.window > 0
    requires s.a.sender.retransmissions + n <= MAX_RETX_ATTEMPTS
    ensures Reachable(t) && t.b == s.b && SameBut(s.a, t.a)
    ensures t.a.sender.rto == Pow2(n) * s.a.sender.rto && t.a.sender.elapsed == 0
    ensures t.a.now == s.a.now + (Pow2(n) - 1) * s.a.sender.rto
    ensures t.a.sender.retransmissions == s.a.sender.retransmissions + n
  {
    hide Reachable, Sender.Valid;
    if n == 0 {
      t := s;
    } else {
      var u := Retries(s, n - 1);
      t := Retry(u);
      Doubled(Pow2(n - 1), s.a.sender.rto);
    }
  }

  lemma Doubled(k: nat, rto: nat)
    ensures 2 * (k * rto) == (2 * k) * rto
    ensures (k - 1) * rto + k * rto == (2 * k - 1) * rto
  {
  }

  /** `a` waits a little longer, without a timeout. */
  lemma Waits(s: System, ms: nat) returns (t: System)
    requires Reachable(s) && s.a.sender.Valid() && s.a.sender.elapsed + ms < s.a.sender.rto && !s.a.HasError()
    ensures Reachable(t) && t.b == s.b && SameBut(s.a, t.a) && t.a.now == s.a.now + ms
    ensures t.a.sender.retransmissions == s.a.sender.retransmissions
  {
    ReachableInv(s);
    TickAtA(s, ms);
    StepReachable(s, AtA(Tick(ms)));
    OnlyWritingWrites(s, Tick(ms));
    t := Next(s, AtA(Tick(ms)));
    TickFacts(s.a, ms);
    TickKeeps(s.a.sender, ms);
    assert t.a.sender == s.a.sender.Tick(ms).0;
    hide Reachable, Inv, Next, Possible, Sender.Valid, Peer.Tick;
  }

  /** The acknowledgement of the one FIN arrives. */
  lemma OneIsDone()
    ensures
      var sent := [FirstPacket(), SecondPacket(), ThirdPacket()];
      Reachable(System(At(Halfway(), Complete()), At(Done(), Complete()), sent, sent))
  {
    hide Peer.Receive, Reachable, Peer.Valid, Near;
    var p := At(Halfway(), Complete());
    var sent := [FirstPacket(), SecondPacket(), ThirdPacket()];
    BothComplete();
    FourthStep();
    Nearby();
    assert sent + [] == sent;
    ArrivesThere(System(p, p, sent, sent), 2, At(Done(), Complete()), []);
  }

  /** And the peer that has it waits. */
  lemma OneHasGone()
    ensures
      var sent := [FirstPacket(), SecondPacket(), ThirdPacket()];
      Reachable(System(At(Halfway(), Complete()), At(Done(), Complete()).(now := 10), sent, sent))
  {
    hide Peer.Tick, Reachable, Peer.Valid;
    var p, p' := At(Halfway(), Complete()), At(Done(), Complete());
    var sent := [FirstPacket(), SecondPacket(), ThirdPacket()];
    OneIsDone();
    FifthStep();
    assert sent + [] == sent;
    EitherSide(System(p, p', sent, sent));
    StepReachable(System(p', p, sent, sent), AtA(Tick(10)));
    EitherSide(System(p'.(now := 10), p, sent, sent));
  }

  /** One acknowledgement arrives, the other is lost, and so are three retransmissions of the other
      side's FIN, while the peer that has everything waits out its linger time: a reachable state
      without any error, ten milliseconds into the run at both sides, in which that FIN is outstanding,
      attempts are left, and no fair round is possible any more. */
  lemma ReceiverCanBeGone() returns (s: System)
    ensures Reachable(s) && Inv(s) && Ready(s) && s.a.sender.retransmissions == 3 && s.a.now == s.b.now == 10
    ensures LingeredOut(s.b) && !s.b.Active() && !IsRun(s, Round(s))
  {
    hide Reachable, Sender.Valid, Inv, IsRun, Round, Peer.Active, SameBut;
    s := GoneRun();
    GoneFacts(s);
    ReachableInv(s);
    NobodyAnswers(s);
  }

  /** Three retransmissions in seven milliseconds, and three milliseconds more. */
  lemma GoneRun() returns (s: System)
    ensures Reachable(s) && s.b == GoneState().b && SameBut(GoneState().a, s.a)
    ensures s.a.sender.retransmissions == 3 && s.a.now == 10
  {
    hide Reachable, Sender.Valid, GoneState, SameBut, Peer.HasError;
    GoneStart();
    var u := ThreeRetries(GoneState());
    StillTheSame(GoneState().a, u.a, u.a);
    s := Waits(u, 3);
    StillTheSame(GoneState().a, u.a, s.a);
  }

  lemma ThreeRetries(s: System) returns (t: System)
    requires Reachable(s) && s.a.sender.Valid() && s.a.sender.timerOn && s.a.sender.elapsed == 0
    requires !s.a.HasError() && s.a.sender.window > 0 && s.a.sender.retransmissions == 0 && s.a.sender.rto == 1
    ensures Reachable(t) && t.b == s.b && SameBut(s.a, t.a) && t.a.now == s.a.now + 7
    ensures t.a.sender.rto == 8 && t.a.sender.elapsed == 0 && t.a.sender.retransmissions == 3
  {
    hide Reachable, Sender.Valid, SameBut, Peer.HasError;
    assert Pow2(3) == 8;
    hide Pow2;
    t := Retries(s, 3);
  }

  lemma StillTheSame(p: Peer, p1: Peer, p': Peer)
    requires SameBut(p, p1)
    ensures p1.sender.Valid() && !p1.HasError() && (SameBut(p1, p') ==> SameBut(p, p'))
  {
    hide Sender.Valid;
  }

  lemma GoneStart()
    ensures
      var s := GoneState();
      && Reachable(s) && s.a.sender.Valid() && s.a.sender.timerOn && s.a.sender.elapsed == 0 && !s.a.HasError()
      && s.a.sender.window > 0 && s.a.sender.retransmissions == 0 && s.a.sender.rto == 1
      && s.a.now == 0 && s.b.now == 10
  {
    hide Reachable, Sender.Valid;
    OneHasGone();
    HalfwayIsValid();
  }

  /** The state when the one peer has left, the clock of the other not yet advanced. */
  function GoneState(): System {
    var sent := [FirstPacket(), SecondPacket(), ThirdPacket()];
    System(At(Halfway(), Complete()), At(Done(), Complete()).(now := 10), sent, sent)
  }

  lemma GoneFacts(s: System)
    requires s.b == GoneState().b && SameBut(GoneState().a, s.a)
    ensures Waiting(s) && LingeredOut(s.b) && !s.b.Active()
  {
    hide Sender.Valid;
  }

  /** The other way for progress to end: after eight lost retransmissions into an open window the next
      timeout gives up, although the other side is still there. */
  lemma LastAttemptIsReached() returns (s: System)
    ensures Reachable(s) && Inv(s) && Waiting(s) && s.b.Active() && !MayRetry(s.a)
  {
    var sent := [FirstPacket(), SecondPacket(), ThirdPacket()];
    s := System(At(Halfway(), Complete()), At(Halfway(), Complete()), sent, sent);
    BothComplete();
    HalfwayIsValid();
    hide Reachable, Sender.Valid, Inv;
    s := Retries(s, MAX_RETX_ATTEMPTS);
    ReachableInv(s);
  }

  lemma ReachableInv(s: System)
    requires Reachable(s)
    ensures Inv(s)
  {
  }
}
