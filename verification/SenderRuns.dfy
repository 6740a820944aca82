/** Whole runs of a sender, with whatever messages the network may bring. */
module SenderRuns {
  import opened Common
  import opened WrappingIntegers
  import opened SenderModel
  import opened SenderProofs

  /** An acknowledgement is any number at all, as unwrapping may produce it. */
  datatype SenderEvent =
    | Written(bytes: seq<byte>, eof: bool)
    | Pushed
    | Heard(ack: Option<nat>, windowSize: u16, rst: bool)
    | Elapsed(ms: nat)

  /** One event; an application that has closed its stream writes nothing more. */
  function Happen(s: Sender, e: SenderEvent): (s': Sender)
    requires s.Valid()
    ensures s'.Valid() && Extends(s, s')
  {
    match e
    case Written(bytes, eof) =>
      var more := if s.input.closed then [] else bytes;
      WriteKeeps(s, more, eof);
      s.Write(more, eof)
    case Pushed =>
      PushKeeps(s);
      s.Push().0
    case Heard(ack, windowSize, rst) =>
      ReceiveKeeps(s, ack, windowSize, rst);
      s.Receive(ack, windowSize, rst)
    case Elapsed(ms) =>
      TickKeeps(s, ms);
      s.Tick(ms).0
  }

  function RunAll(s: Sender, events: seq<SenderEvent>): (s': Sender)
    requires s.Valid()
    ensures s'.Valid()
    decreases |events|
  {
    if events == [] then s else RunAll(Happen(s, events[0]), events[1..])
  }

  /** Nothing sent is taken back and no acknowledgement forgotten, over any run. */
  lemma {:induction false} RunExtends(s: Sender, events: seq<SenderEvent>)
    requires s.Valid()
    ensures Extends(s, RunAll(s, events))
    decreases |events|
  {
    if events != [] {
      var s1 := Happen(s, events[0]);
      RunExtends(s1, events[1..]);
      hide Happen, RunAll, Sender.Valid;
      ExtendsTransitively(s, s1, RunAll(s1, events[1..]));
    }
  }

  /** The queue, the timer and the windows after any run: the outstanding segments tile the numbers
      in flight and quote the stream; the oldest one holds the acknowledged number, and there is none
      exactly if all is acknowledged; the timer runs exactly if something is outstanding, below its
      timeout; and the windows never fall below one segment, so that nothing divides by zero. */
  lemma EveryRunIsSound(capacity: nat, isn: Wrap32, initialRto: nat, events: seq<SenderEvent>)
    requires initialRto > 0
    ensures NewSender(capacity, isn, initialRto).Valid()
    ensures
      var s := RunAll(NewSender(capacity, isn, initialRto), events);
      && s.inFlight <= MAX_WINDOW && s.inFlight <= s.next
      && Tiles(s.outstanding, s.next - s.inFlight, s.next)
      && (forall g | g in s.outstanding :: s.Carries(g))
      && (s.outstanding == [] <==> s.ackno == s.next) && (s.outstanding == [] <==> s.inFlight == 0)
      && (s.outstanding != [] ==> s.outstanding[0].start <= s.ackno < s.outstanding[0].End())
      && (s.timerOn <==> s.outstanding != []) && (!s.timerOn ==> s.elapsed == 0)
      && s.elapsed < s.rto == s.initialRto * Pow2(s.retransmissions)
      && s.cwnd >= MAX_PAYLOAD_SIZE && s.ssthresh >= MAX_PAYLOAD_SIZE
  {
    var s := RunAll(NewSender(capacity, isn, initialRto), events);
    EmptyQueue(s);
    if s.outstanding != [] {
      OldestSegment(s);
    }
  }
}
