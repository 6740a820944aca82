/** What the TCPReceiver means: segments in, stream bytes and acknowledgements out. */
module ReceiverModel {
  import opened Common
  import opened WrappingIntegers
  import opened Messages
  import opened ReassemblerModel

  datatype Receiver = Receiver(asm: Assembly, syn: bool, fin: bool, rst: bool, isn: Wrap32) {

    ghost predicate Valid() {
      asm.Valid()
    }

    /** The first SYN fixes the zero point. */
    function NoteSyn(m: SenderMessage): Receiver {
      if m.syn && !syn then this.(syn := true, isn := m.seqno) else this
    }

    /** Where the payload of `m` starts in the stream; 64-bit arithmetic, so 0 - 1 wraps. */
    function FirstIndex(m: SenderMessage): (i: nat)
      ensures i < TWO64
    {
      if m.syn then 0 else (Unwrap(m.seqno, isn, (|asm.out.data| + 1) % TWO64) - 1) % TWO64
    }

    function Receive(m: SenderMessage): (r: Receiver)
      requires Valid()
      ensures r.Valid()
    {
      var r := NoteSyn(m);
      if m.rst then
        r.(rst := true, asm := asm.(out := asm.out.(error := true)))
      else if !r.syn then
        r
      else
        r.(fin := fin || m.fin, asm := asm.Insert(r.FirstIndex(m), m.payload, m.fin))
    }

    /** The next absolute sequence number needed: SYN, then the bytes, then FIN. */
    function AckNumber(): nat {
      if !syn then 0 else |asm.out.data| + 1 + (if asm.out.closed then 1 else 0)
    }

    function Window(): (w: u16)
      requires Valid()
      ensures w == Min(asm.out.Available(), MAX_WINDOW)
    {
      if asm.out.Available() > MAX_WINDOW then MAX_WINDOW else asm.out.Available()
    }

    function Send(): ReceiverMessage
      requires Valid()
    {
      ReceiverMessage(if syn then Some(Wrap(AckNumber(), isn)) else None, Window(), asm.out.error || rst)
    }

    function Pop(n: nat): (r: Receiver)
      requires Valid() && n <= asm.out.Buffered()
      ensures r.Valid()
    {
      this.(asm := asm.Pop(n))
    }

    /** The advertised right edge of the window, as an absolute sequence number. */
    function RightEdge(): nat
      requires Valid()
    {
      AckNumber() + Window()
    }
  }

  function NewReceiver(capacity: nat): (r: Receiver)
    ensures r.Valid()
  {
    Receiver(EmptyAssembly(capacity), false, false, false, Wrap32(0))
  }

  /** What one `Insert` may change of the output. */
  lemma InsertOnlyAppends(a: Assembly, first: nat, bytes: seq<byte>, last: bool)
    requires a.Valid()
    ensures
      var b := a.Insert(first, bytes, last);
      && a.out.data <= b.out.data
      && b.out.popped == a.out.popped && b.out.capacity == a.out.capacity && b.out.error == a.out.error
      && (a.out.closed ==> b.out.closed)
      && b.eof == if last then Some((first + |bytes|) % TWO64) else a.eof
  {
  }

  /** Section 3.8.6 of RFC 9293: whatever arrives, the right edge of the advertised window never
      moves left, although the window is capped and FIN takes a number of its own. */
  lemma ReceiveKeepsRightEdge(r: Receiver, m: SenderMessage)
    requires r.Valid() && r.syn
    ensures r.RightEdge() <= r.Receive(m).RightEdge() && r.AckNumber() <= r.Receive(m).AckNumber()
  {
    hide Assembly.Insert;
    if !m.rst {
      InsertOnlyAppends(r.asm, r.FirstIndex(m), m.payload, m.fin);
    }
  }

  /** Reading moves the right edge by what it frees, up to the cap. */
  lemma PopKeepsRightEdge(r: Receiver, n: nat)
    requires r.Valid() && n <= r.asm.out.Buffered()
    ensures r.RightEdge() <= r.Pop(n).RightEdge() && r.AckNumber() == r.Pop(n).AckNumber()
  {
  }

  datatype ReceiverEvent = Arrival(m: SenderMessage) | Reading(n: nat)

  function Apply(r: Receiver, e: ReceiverEvent): (r': Receiver)
    requires r.Valid()
    ensures r'.Valid()
  {
    match e
    case Arrival(m) => r.Receive(m)
    case Reading(n) => r.Pop(Min(n, r.asm.out.Buffered()))
  }

  function RunEvents(r: Receiver, events: seq<ReceiverEvent>): (r': Receiver)
    requires r.Valid()
    ensures r'.Valid()
    decreases |events|
  {
    if events == [] then r else RunEvents(Apply(r, events[0]), events[1..])
  }

  /** The number of the first SYN that arrives in a run. */
  function FirstSyn(events: seq<ReceiverEvent>): Option<Wrap32> {
    if events == [] then None
    else if events[0].Arrival? && events[0].m.syn then Some(events[0].m.seqno)
    else FirstSyn(events[1..])
  }

  predicate BringsReset(e: ReceiverEvent) {
    e.Arrival? && e.m.rst
  }

  /** Whatever a receiver hears: it acknowledges exactly once a SYN has arrived, and the first one fixes
      its zero point; and it reports a reset exactly once one has arrived or its inbound stream has
      failed. */
  lemma {:induction false} SynAndResetAreNoted(r: Receiver, events: seq<ReceiverEvent>)
    requires r.Valid()
    ensures
      var r', syn := RunEvents(r, events), if r.syn then Some(r.isn) else FirstSyn(events);
      && (r'.Send().ackno.Some? <==> syn.Some?) && (syn.Some? ==> r'.isn == syn.value)
      && (r'.Send().rst <==> r.rst || r.asm.out.error || exists k :: 0 <= k < |events| && BringsReset(events[k]))
    decreases |events|
  {
    if events != [] {
      SynAndResetAreNoted(Apply(r, events[0]), events[1..]);
      EventIsNoted(r, events[0]);
      hide BringsReset, Receiver.Valid, Apply;
      assert events == [events[0]] + events[1..];
      assert forall k | 0 < k < |events| :: events[k] == events[1..][k - 1];
    }
  }

  lemma EventIsNoted(r: Receiver, e: ReceiverEvent)
    requires r.Valid()
    ensures
      var r' := Apply(r, e);
      && (r'.syn <==> r.syn || (e.Arrival? && e.m.syn))
      && (r'.syn ==> r'.isn == if r.syn then r.isn else e.m.seqno)
      && (r'.rst || r'.asm.out.error <==> r.rst || r.asm.out.error || BringsReset(e))
  {
    hide Assembly.Insert, Unwrap;
    match e
    case Arrival(m) =>
      if !m.rst {
        var r1 := r.NoteSyn(m);
        InsertOnlyAppends(r1.asm, r1.FirstIndex(m), m.payload, m.fin);
      }
    case Reading(n) =>
  }

  /** The right edge is monotone over whole runs of arrivals and reads. */
  lemma {:induction false} RightEdgeNeverMovesLeft(r: Receiver, events: seq<ReceiverEvent>)
    requires r.Valid() && r.syn
    ensures RunEvents(r, events).syn
    ensures r.RightEdge() <= RunEvents(r, events).RightEdge()
    ensures r.AckNumber() <= RunEvents(r, events).AckNumber()
    decreases |events|
  {
    if events != [] {
      var r' := Apply(r, events[0]);
      match events[0]
      case Arrival(m) => ReceiveKeepsRightEdge(r, m); RightEdgeNeverMovesLeft(r', events[1..]);
      case Reading(n) => PopKeepsRightEdge(r, Min(n, r.asm.out.Buffered())); RightEdgeNeverMovesLeft(r', events[1..]);
    }
  }
}

/** The TCPReceiver as built. */
module TCPReceivers {
  import opened Common
  import opened WrappingIntegers
  import opened Messages
  import opened ByteStreams
  import opened ReassemblerModel
  import opened Reassemblers
  import opened ReceiverModel

  class TCPReceiver {
    const reassembler: Reassembler
    var syn: bool
    var fin: bool
    var rst: bool
    var isn: Wrap32

    ghost predicate Valid()
      reads this, reassembler, reassembler.output, reassembler.ring
    {
      reassembler.Valid()
    }

    ghost function Model(): (r: Receiver)
      reads this, reassembler, reassembler.output, reassembler.ring
      requires Valid()
      ensures r.Valid()
    {
      Receiver(reassembler.Model(), syn, fin, rst, isn)
    }

    constructor (capacity: nat)
      ensures Valid() && Model() == NewReceiver(capacity)
      ensures fresh(reassembler) && fresh(reassembler.output) && fresh(reassembler.ring)
    {
      var output := new ByteStream(capacity);
      reassembler := new Reassembler(output);
      syn, fin, rst, isn := false, false, false, Wrap32(0);
    }

    method Receive(message: SenderMessage)
      requires Valid() && |message.payload| < TWO64
      modifies this, reassembler, reassembler.output, reassembler.ring
      ensures Valid() && Model() == old(Model()).Receive(message)
      ensures reassembler.ring == old(reassembler.ring) || fresh(reassembler.ring)
    {
      hide Assembly.Insert, Unwrap;
      if message.syn {
        if !syn {
          syn := true;
          isn := message.seqno;
        }
      }
      if message.rst {
        rst := true;
        reassembler.SetError();
        return;
      }
      if !syn {
        return;
      }
      if message.fin {
        fin := true;
      }
      var checkpoint := (reassembler.output.totalPushed + 1) % TWO64;
      var absSeqno := Unwrap(message.seqno, isn, checkpoint);
      var firstIndex := if message.syn then 0 else (absSeqno - 1) % TWO64;
      reassembler.Insert(firstIndex, message.payload, message.fin);
    }

    method Send() returns (message: ReceiverMessage)
      requires Valid()
      ensures message == Model().Send()
    {
      var output := reassembler.output;
      var reset := if output.error then true else rst;
      var available := output.AvailableCapacity();
      var window := if available > MAX_WINDOW then MAX_WINDOW else available;
      var ackno: Option<Wrap32> := None;
      if syn {
        var absolute := output.totalPushed + 1;
        if output.closed {
          absolute := absolute + 1;
        }
        ackno := Some(Wrap(absolute, isn));
      }
      message := ReceiverMessage(ackno, window, reset);
    }
  }
}
