/** The TCPSender as built: 32-bit numbers in the queue, loops over the queue and the window. */
module TCPSenders {
  import opened Common
  import opened WrappingIntegers
  import opened Messages
  import opened ByteStreams
  import opened SenderModel
  import opened SenderProofs

  /** `q` is what the segments look like on the wire. */
  ghost predicate AreWires(q: seq<SenderMessage>, segments: seq<Segment>, isn: Wrap32) {
    |q| == |segments| && forall k | 0 <= k < |q| :: q[k] == segments[k].Wire(isn)
  }

  lemma AreWiresAppend(q: seq<SenderMessage>, segments: seq<Segment>, isn: Wrap32, m: SenderMessage, g: Segment)
    requires AreWires(q, segments, isn) && m == g.Wire(isn)
    ensures AreWires(q + [m], segments + [g], isn)
    ensures m.SequenceLength() == g.Length() && m.payload == g.payload
  {
    hide Wrap;
  }

  class TCPSender {
    const input: ByteStream
    const isn: Wrap32
    const initialRto: nat
    var synSent: bool
    var finSent: bool
    var ackno: nat
    var nextSeqno: nat
    var windowSize: u16
    var outstanding: seq<SenderMessage>
    var flightNumbersLength: nat
    var timeElapsed: nat
    var currentRto: nat
    var consecutiveRetransmissions: nat
    var isTimerRunning: bool
    var cwnd: nat
    var ssthresh: nat
    var consecutiveDuplicateAcks: nat
    var fastRetransmitPending: bool

    /** The queue with absolute numbers. */
    ghost var segments: seq<Segment>

    ghost function Model(): Sender
      reads this, input
      requires input.Valid()
    {
      Sender(input.Model(), isn, initialRto, synSent, finSent, ackno, nextSeqno, windowSize,
             segments, flightNumbersLength, timeElapsed, currentRto, consecutiveRetransmissions,
             isTimerRunning, cwnd, ssthresh, consecutiveDuplicateAcks, fastRetransmitPending)
    }

    ghost predicate Valid()
      reads this, input
    {
      input.Valid() && AreWires(outstanding, segments, isn) && Model().Valid()
    }

    constructor (capacity: nat, isn: Wrap32, initialRto: nat)
      requires initialRto > 0
      ensures Valid() && fresh(input)
      ensures Model() == NewSender(capacity, isn, initialRto)
    {
      input := new ByteStream(capacity);
      this.isn, this.initialRto := isn, initialRto;
      synSent, finSent, ackno, nextSeqno, windowSize := false, false, 0, 0, 1;
      outstanding, flightNumbersLength := [], 0;
      timeElapsed, currentRto, consecutiveRetransmissions, isTimerRunning := 0, initialRto, 0, false;
      cwnd, ssthresh := DEFAULT_CAPACITY, TWO64 - 1;
      consecutiveDuplicateAcks, fastRetransmitPending := 0, false;
      segments := [];
    }

    method MakeEmptyMessage() returns (message: SenderMessage)
      requires Valid()
      ensures message == Model().EmptySegment().Wire(isn)
    {
      message := SenderMessage(Wrap(nextSeqno, isn), false, [], false, input.error);
    }

    /** The start of `Push`: repeat the oldest segment after three duplicate acknowledgements. */
    method FastRetransmit() returns (sent: seq<SenderMessage>, ghost sentSegments: seq<Segment>)
      requires Valid()
      modifies this`fastRetransmitPending
      ensures Valid() && Model() == old(Model()).(fastPending := false)
      ensures AreWires(sent, sentSegments, isn)
      ensures sentSegments ==
              if old(fastRetransmitPending) && segments != [] then [segments[0]] else []
    {
      sent, sentSegments := [], [];
      if fastRetransmitPending {
        if outstanding != [] {
          sent, sentSegments := [outstanding[0]], [segments[0]];
        }
        fastRetransmitPending := false;
      }
      CarriesLikewise(old(Model()), Model());
    }

    /** Repeat a lost segment if need be, and fill the window; `sent` are the messages transmitted. */
    method Push() returns (sent: seq<SenderMessage>)
      requires Valid()
      modifies this, input
      ensures Valid() && Model() == old(Model()).Push().0
      ensures AreWires(sent, old(Model()).Push().1, isn)
    {
      var again: seq<SenderMessage>;
      ghost var segmentsAgain, allSegments: seq<Segment>;
      again, segmentsAgain := FastRetransmit();
      var effectiveWindow: nat := if windowSize == 0 then 1 else windowSize;
      if cwnd < effectiveWindow {
        effectiveWindow := cwnd;
      }
      sent, allSegments := FillWindow(effectiveWindow, again, segmentsAgain);
      hide Sender.FillAll, Sender.Valid, AreWires, Segment.Wire;
    }

    /** The filling loop, with what has been transmitted before. */
    method FillWindow(effectiveWindow: nat, before: seq<SenderMessage>, ghost segmentsBefore: seq<Segment>)
      returns (sent: seq<SenderMessage>, ghost sentSegments: seq<Segment>)
      requires Valid() && effectiveWindow == Model().EffectiveWindow() && AreWires(before, segmentsBefore, isn)
      modifies this, input
      ensures Valid() && AreWires(sent, sentSegments, isn)
      ensures (Model(), sentSegments) == old(Model()).FillAll(effectiveWindow, segmentsBefore)
    {
      ghost var goal := Model().FillAll(effectiveWindow, segmentsBefore);
      sent, sentSegments := before, segmentsBefore;
      hide Sender.FillAll, Sender.Valid, AreWires, Segment.Wire, Sender.Fill;
      while true
        invariant Valid() && effectiveWindow == Model().EffectiveWindow()
        invariant AreWires(sent, sentSegments, isn)
        invariant Model().FillAll(effectiveWindow, sentSegments) == goal
        decreases effectiveWindow - flightNumbersLength
      {
        if effectiveWindow <= flightNumbersLength {
          FillAllEnds(Model(), effectiveWindow, sentSegments);
          assert (Model(), sentSegments) == goal;
          break;
        }
        ghost var now := Model();
        FillAllTurns(now, effectiveWindow, sentSegments);
        var more, last, message, segment := FillOnce(effectiveWindow);
        if !more {
          assert Model() == now.Fill(effectiveWindow).0;
          assert (Model(), sentSegments) == goal;
          break;
        }
        AreWiresAppend(sent, sentSegments, isn, message, segment);
        sent := sent + [message];
        sentSegments := sentSegments + [segment];
        if last {
          assert Model() == now.Fill(effectiveWindow).0;
          assert (Model(), sentSegments) == goal;
          break;
        }
      }
      assert (Model(), sentSegments) == goal;
    }

    /** The body of the filling loop; `more` says whether a message was transmitted. */
    method FillOnce(effectiveWindow: nat)
      returns (more: bool, last: bool, message: SenderMessage, ghost segment: Segment)
      requires Valid() && flightNumbersLength < effectiveWindow == Model().EffectiveWindow()
      modifies this, input
      ensures Valid() && effectiveWindow == Model().EffectiveWindow()
      ensures
        var (s, g) := old(Model()).Fill(effectiveWindow);
        && Model() == s && more == g.Some?
        && (more ==> segment == g.value && message == segment.Wire(isn) && last == segment.fin)
      ensures more ==> flightNumbersLength > old(flightNumbersLength)
    {
      ghost var before := Model();
      FillKeeps(before);
      FillSends(before);
      more, message := Compose(effectiveWindow);
      last := message.fin;
      segment := Segment(nextSeqno, message.syn, message.payload, message.fin, message.rst);
      hide Sender.Fill, Sender.Valid;
      if more {
        Enqueue(message, segment);
        if |message.payload| > 0 {
          input.Pop(|message.payload|);
        }
      }
    }

    /** Choose flags and payload for the next message, if there is anything to send. */
    method Compose(effectiveWindow: nat) returns (more: bool, message: SenderMessage)
      requires Valid() && flightNumbersLength < effectiveWindow == Model().EffectiveWindow()
      modifies this`synSent, this`finSent
      ensures input.Valid()
      ensures
        var (s, g) := old(Model()).Fill(effectiveWindow);
        && more == g.Some?
        && (more ==>
              && message == g.value.Wire(isn)
              && g.value == Segment(nextSeqno, message.syn, message.payload, message.fin, message.rst))
        && (more ==> |message.payload| <= input.BytesBuffered() && s == Model().Track(g.value))
        && (!more ==> s == Model())
    {
      hide Sender.Valid, Sender.Track, AreWires, Wrap;
      var availableWindow := effectiveWindow - flightNumbersLength;
      message := MakeEmptyMessage();
      more := false;
      if !synSent {
        message := message.(syn := true);
        synSent := true;
        availableWindow := availableWindow - 1;
      }
      if input.error {
        message := message.(rst := true);
      }
      var payloadView := input.Peek();
      var payloadLen := Min(MAX_PAYLOAD_SIZE, Min(availableWindow, |payloadView|));
      if payloadLen < MAX_PAYLOAD_SIZE && payloadLen < |payloadView| {
        if windowSize > 0 && cwnd < windowSize {
          return;
        }
      }
      if payloadLen > 0 {
        message := message.(payload := payloadView[..payloadLen]);
        availableWindow := availableWindow - payloadLen;
      }
      if input.closed && !finSent && availableWindow > 0 && payloadLen == |payloadView| {
        message := message.(fin := true);
        finSent := true;
      }
      more := message.SequenceLength() > 0;
    }

    /** Queue a transmitted message and start the timer. */
    method Enqueue(message: SenderMessage, ghost segment: Segment)
      requires input.Valid() && AreWires(outstanding, segments, isn) && message == segment.Wire(isn)
      requires |segment.payload| <= input.BytesBuffered()
      modifies this
      ensures AreWires(outstanding, segments, isn)
      ensures Model() == old(Model()).Track(segment).(input := input.Model())
    {
      AreWiresAppend(outstanding, segments, isn, message, segment);
      hide AreWires, Segment.Wire, Stream.Pop;
      outstanding := outstanding + [message];
      segments := segments + [segment];
      nextSeqno := nextSeqno + message.SequenceLength();
      flightNumbersLength := flightNumbersLength + message.SequenceLength();
      isTimerRunning := true;
    }

    /** Congestion avoidance for `bytesAcked` bytes, a full segment at a time. */
    method OpenWindow(bytesAcked: nat)
      requires cwnd > 0
      modifies this`cwnd
      ensures cwnd == Avoid(old(cwnd), bytesAcked)
    {
      var remaining: nat := bytesAcked;
      while remaining >= MAX_PAYLOAD_SIZE
        invariant cwnd > 0 && Avoid(cwnd, remaining) == Avoid(old(cwnd), bytesAcked)
      {
        cwnd := cwnd + Increment(MAX_PAYLOAD_SIZE, cwnd);
        remaining := remaining - MAX_PAYLOAD_SIZE;
      }
      if remaining > 0 {
        cwnd := cwnd + Increment(remaining, cwnd);
      }
    }

    /** Retransmission state and congestion control for an acknowledgement of `newAckno`. */
    method CountAck(newAckno: nat)
      requires input.Valid() && cwnd > 0 && |outstanding| == |segments|
      modifies this
      ensures Model() == old(Model()).CountAck(newAckno) && outstanding == old(outstanding)
    {
      hide Avoid, Tiles, Wrap;
      if newAckno > ackno {
        currentRto := initialRto;
        consecutiveRetransmissions := 0;
        timeElapsed := 0;
        isTimerRunning := true;
        var oldAckno := ackno;
        ackno := newAckno;
        consecutiveDuplicateAcks := 0;
        if !(oldAckno == 0 && newAckno == 1) {
          var bytesAcked := newAckno - oldAckno;
          if cwnd < ssthresh {
            cwnd := cwnd + bytesAcked;
          } else {
            OpenWindow(bytesAcked);
          }
        }
      } else if newAckno == ackno {
        if outstanding != [] {
          CountDuplicate();
        }
      }
    }

    /** Fast retransmit on the third duplicate, and fast recovery from then on. */
    method CountDuplicate()
      requires input.Valid() && cwnd > 0 && segments != []
      modifies this
      ensures Model() == old(Model()).CountAck(old(ackno)) && outstanding == old(outstanding)
    {
      consecutiveDuplicateAcks := consecutiveDuplicateAcks + 1;
      if consecutiveDuplicateAcks == 3 {
        fastRetransmitPending := true;
        ssthresh := Max(cwnd / 2, MAX_PAYLOAD_SIZE);
        cwnd := ssthresh + 3 * MAX_PAYLOAD_SIZE;
      } else if consecutiveDuplicateAcks > 3 {
        cwnd := cwnd + MAX_PAYLOAD_SIZE;
      }
    }

    /** The queue holds recent numbers only, so unwrapping a stored number gives it back. */
    lemma FrontNumber(s: Sender)
      requires s.inFlight <= s.next < CHECKPOINT_LIMIT && s.inFlight <= MAX_WINDOW
      requires Tiles(s.outstanding, s.next - s.inFlight, s.next) && s.outstanding != []
      ensures Unwrap(Wrap(s.outstanding[0].start, s.isn), s.isn, s.next) == s.outstanding[0].start
      ensures s.outstanding[0].Length() <= s.inFlight
    {
      TilesAreOrdered(s.outstanding, s.next - s.inFlight, s.next);
      UnwrapOfWrap(s.outstanding[0].start, s.isn, s.next);
    }

    /** One turn of the releasing loop. */
    lemma ReleaseTurns(s: Sender, n: nat)
      requires s.inFlight <= s.next && Tiles(s.outstanding, s.next - s.inFlight, s.next) && s.outstanding != []
      ensures
        var g := s.outstanding[0];
        if g.End() <= n then
          && g.Length() <= s.inFlight
          && var s' := s.(inFlight := s.inFlight - g.Length(), outstanding := s.outstanding[1..]);
          && Tiles(s'.outstanding, s.next - s'.inFlight, s.next) && s.Release(n) == s'.Release(n)
        else
          s.Release(n) == s
    {
      TilesAreOrdered(s.outstanding, s.next - s.inFlight, s.next);
    }

    /** Take the oldest message out of the queue. */
    method DropFront()
      requires input.Valid() && AreWires(outstanding, segments, isn)
      requires outstanding != [] && segments[0].Length() <= flightNumbersLength
      modifies this`outstanding, this`segments, this`flightNumbersLength
      ensures AreWires(outstanding, segments, isn) && |outstanding| < |old(outstanding)|
      ensures Model() == old(Model()).(inFlight := old(flightNumbersLength) - old(segments)[0].Length(),
                                       outstanding := old(segments)[1..])
    {
      flightNumbersLength := flightNumbersLength - outstanding[0].SequenceLength();
      outstanding := outstanding[1..];
      segments := segments[1..];
    }

    /** Drop acknowledged messages from the front of the queue. */
    method Release(newAckno: nat)
      requires input.Valid() && AreWires(outstanding, segments, isn)
      requires flightNumbersLength <= nextSeqno < CHECKPOINT_LIMIT && flightNumbersLength <= MAX_WINDOW
      requires Tiles(segments, nextSeqno - flightNumbersLength, nextSeqno)
      modifies this`outstanding, this`segments, this`flightNumbersLength
      ensures AreWires(outstanding, segments, isn)
      ensures Model() == old(Model()).Release(newAckno)
    {
      ghost var goal := Model().Release(newAckno);
      hide Wrap, Unwrap, Sender.Release, Tiles;
      while outstanding != []
        invariant AreWires(outstanding, segments, isn)
        invariant flightNumbersLength <= nextSeqno && flightNumbersLength <= MAX_WINDOW
        invariant Tiles(segments, nextSeqno - flightNumbersLength, nextSeqno)
        invariant Model().Release(newAckno) == goal
        decreases |outstanding|
      {
        var front := outstanding[0];
        FrontNumber(Model());
        ReleaseTurns(Model(), newAckno);
        if Unwrap(front.seqno, isn, nextSeqno) + front.SequenceLength() <= newAckno {
          DropFront();
        } else {
          break;
        }
      }
      NothingToRelease(Model(), newAckno);
    }

    lemma NothingToRelease(s: Sender, n: nat)
      requires s.inFlight <= s.next && Tiles(s.outstanding, s.next - s.inFlight, s.next)
      ensures s.outstanding == [] ==> s.Release(n) == s
    {
    }

    /** Stop the timer when nothing is left in flight. */
    method SettleTimer(newAckno: nat)
      requires input.Valid() && |outstanding| == |segments| && newAckno <= ackno
      modifies this`isTimerRunning, this`timeElapsed
      ensures Model() == old(Model()).SettleTimer()
    {
      if outstanding == [] {
        isTimerRunning := false;
        timeElapsed := 0;
      } else if newAckno > ackno {
        // The program would keep the timer running here; `ackno` has caught up already.
        assert false;
      }
    }

    /** All that an acknowledgement number brings about. */
    method Acknowledge(newAckno: nat)
      requires input.Valid() && AreWires(outstanding, segments, isn)
      requires Model().Queued() && cwnd > 0 && newAckno <= nextSeqno < CHECKPOINT_LIMIT
      modifies this
      ensures AreWires(outstanding, segments, isn)
      ensures Model() == old(Model()).Acknowledge(newAckno)
    {
      ghost var before := Model();
      CountAck(newAckno);
      CountAckCatchesUp(before, newAckno);
      hide Sender.CountAck, Sender.Carries;
      Release(newAckno);
      SettleTimer(newAckno);
    }

    lemma CountAckCatchesUp(s: Sender, n: nat)
      requires s.cwnd > 0
      ensures n <= s.CountAck(n).ackno
    {
    }

    /** Section 3.4 of RFC 9293: an acknowledgement is read near the next number to send. */
    method Receive(message: ReceiverMessage)
      requires Valid() && nextSeqno < CHECKPOINT_LIMIT
      modifies this, input
      ensures Valid()
      ensures
        var ack := Absolute(message.ackno, isn, old(nextSeqno));
        Model() == old(Model()).Receive(ack, message.windowSize, message.rst)
    {
      ReceiveKeeps(Model(), Absolute(message.ackno, isn, nextSeqno), message.windowSize, message.rst);
      hide Sender.Acknowledge, Sender.Queued, Unwrap;
      if message.rst {
        input.SetError();
      }
      windowSize := message.windowSize;
      if message.ackno.Some? {
        var newAckno := Unwrap(message.ackno.value, isn, nextSeqno);
        if newAckno > nextSeqno {
          return;
        }
        Acknowledge(newAckno);
      }
    }

    /** Let `ms` milliseconds pass; `sent` is the retransmission, if the timer fires. */
    method Tick(ms: nat) returns (sent: seq<SenderMessage>)
      requires Valid()
      modifies this, input
      ensures Valid() && Model() == old(Model()).Tick(ms).0
      ensures AreWires(sent, old(Model()).Tick(ms).1, isn)
    {
      TickKeeps(Model(), ms);
      hide Sender.Carries, Sender.Numbered, Sender.Queued, Sender.Paced, Tiles, Wrap, Pow2;
      sent := [];
      if isTimerRunning {
        timeElapsed := timeElapsed + ms;
      }
      if timeElapsed >= currentRto {
        timeElapsed := 0;
        sent := [outstanding[0]];
        if windowSize > 0 {
          BackOff();
        }
      }
    }

    /** The part of `Tick` that a retransmission into an open window adds. */
    method BackOff()
      requires input.Valid()
      modifies this, input
      ensures input.Valid() && Model() == old(Model()).BackedOff()
      ensures outstanding == old(outstanding)
    {
      currentRto := 2 * currentRto;
      consecutiveRetransmissions := consecutiveRetransmissions + 1;
      if consecutiveRetransmissions > MAX_RETX_ATTEMPTS {
        input.SetError();
        return;
      }
      ssthresh := Max(cwnd / 2, MAX_PAYLOAD_SIZE);
      cwnd := MAX_PAYLOAD_SIZE;
      consecutiveDuplicateAcks := 0;
    }
  }
}
