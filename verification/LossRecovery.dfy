/** How the sender learns of losses and what it does about them, over whole runs (section 3.2 of
    RFC 5681, section 5 of RFC 6298). */
module LossRecovery {
  import opened Common
  import opened WrappingIntegers
  import opened SenderModel
  import opened SenderProofs
  import opened SenderRuns
  import opened Congestion
  import opened Pushing

  /** A message repeats the acknowledged number while something is outstanding. */
  predicate Repeats(s: Sender, e: SenderEvent) {
    e.Heard? && e.ack == Some(s.ackno) && s.outstanding != []
  }

  /** A message acknowledges something new that has been sent. */
  predicate Advances(s: Sender, e: SenderEvent) {
    e.Heard? && e.ack.Some? && s.ackno < e.ack.value <= s.next
  }

  /** The timer runs out against an open window, and attempts are left. */
  predicate TimesOut(s: Sender, e: SenderEvent) {
    && e.Elapsed? && s.timerOn && s.elapsed + e.ms >= s.rto
    && s.window > 0 && s.retransmissions < MAX_RETX_ATTEMPTS
  }

  /** What an event does to the duplicate counter, the two congestion windows and the pending fast
      retransmit. Only what `Advances` does to `cwnd` is left open here. */
  ghost predicate Reacts(s: Sender, e: SenderEvent, s': Sender) {
    && s'.duplicates ==
       (if Repeats(s, e) then s.duplicates + 1 else if Advances(s, e) || TimesOut(s, e) then 0 else s.duplicates)
    && (if Repeats(s, e) && s.duplicates == 2 then
          s'.fastPending
        else
          s'.fastPending == (s.fastPending && !e.Pushed?))
    && (if Repeats(s, e) && s.duplicates == 2 then
          s'.ssthresh == Max(s.cwnd / 2, MAX_PAYLOAD_SIZE) && s'.cwnd == s'.ssthresh + 3 * MAX_PAYLOAD_SIZE
        else if TimesOut(s, e) then
          s'.ssthresh == Max(s.cwnd / 2, MAX_PAYLOAD_SIZE) && s'.cwnd == MAX_PAYLOAD_SIZE
        else
          && s'.ssthresh == s.ssthresh
          && (!Advances(s, e) ==>
                s'.cwnd == s.cwnd + if Repeats(s, e) && s.duplicates > 2 then MAX_PAYLOAD_SIZE else 0))
  }

  lemma EventReacts(s: Sender, e: SenderEvent)
    requires s.Valid()
    ensures Reacts(s, e, Happen(s, e))
  {
    match e
    case Written(bytes, eof) =>
    case Pushed =>
      PushKeeps(s);
      hide Sender.Push, Sender.Valid, Extends;
    case Heard(ack, windowSize, rst) =>
      HeardReacts(s, ack, windowSize, rst);
      hide Sender.Receive, Sender.Valid, Extends, Reacts;
    case Elapsed(ms) =>
      TickReacts(s, ms);
      hide Sender.Tick, Sender.Valid, Extends, Reacts;
  }

  lemma HeardReacts(s: Sender, ack: Option<nat>, windowSize: u16, rst: bool)
    requires s.Valid()
    ensures Reacts(s, Heard(ack, windowSize, rst), s.Receive(ack, windowSize, rst))
  {
    EmptyQueue(s);
    if s.outstanding != [] {
      OldestSegment(s);
    }
    assert s.ackno <= s.next;
    if ack.Some? && ack.value <= s.next {
      CountReacts(s, s.Note(windowSize, rst), ack.value, windowSize, rst);
      ReceiveCounts(s, ack.value, windowSize, rst);
      hide Sender.CountAck, Sender.Receive, Sender.Valid;
    } else {
      hide Sender.Valid, Sender.Acknowledge;
    }
  }

  /** `s0` is `s` after the message's window and reset flag have been noted. */
  lemma CountReacts(s: Sender, s0: Sender, n: nat, windowSize: u16, rst: bool)
    requires s.cwnd > 0 && n <= s.next
    requires s0.cwnd == s.cwnd && s0.ssthresh == s.ssthresh && s0.ackno == s.ackno && s0.fastPending == s.fastPending
    requires s0.duplicates == s.duplicates && s0.outstanding == s.outstanding
    ensures Reacts(s, Heard(Some(n), windowSize, rst), s0.CountAck(n))
  {
    hide Avoid;
  }

  lemma TickReacts(s: Sender, ms: nat)
    requires s.Valid()
    ensures Reacts(s, Elapsed(ms), s.Tick(ms).0)
  {
    hide Tiles, Sender.Carries, Pow2;
  }

  /** Section 5 of RFC 6298: the timer counts the time that passes while something is outstanding. It
      starts again at zero when it runs out, then with twice the timeout unless the window is closed,
      and at a new acknowledgement, then with the initial timeout. Nothing else touches it. */
  lemma TimerReacts(s: Sender, e: SenderEvent)
    requires s.Valid()
    ensures
      var s' := Happen(s, e);
      && s'.initialRto == s.initialRto && (s'.timerOn <==> s'.outstanding != [])
      && (if e.Elapsed? && s.outstanding != [] && s.elapsed + e.ms >= s.rto then
            s'.elapsed == 0 && s'.rto == if s.window > 0 then 2 * s.rto else s.rto
          else if e.Elapsed? && s.outstanding != [] then
            s'.elapsed == s.elapsed + e.ms && s'.rto == s.rto
          else if Advances(s, e) then
            s'.elapsed == 0 && s'.rto == s.initialRto
          else
            s'.elapsed == s.elapsed && s'.rto == s.rto)
  {
    match e
    case Written(bytes, eof) =>
    case Pushed =>
      PushKeeps(s);
      hide Sender.Push, Extends, Pow2;
    case Heard(ack, windowSize, rst) =>
      HeardTimes(s, ack, windowSize, rst);
      ReceiveKeeps(s, ack, windowSize, rst);
      hide Sender.Receive, Extends, Pow2;
    case Elapsed(ms) =>
      hide Tiles, Sender.Carries, Pow2, Extends;
  }

  lemma HeardTimes(s: Sender, ack: Option<nat>, windowSize: u16, rst: bool)
    requires s.Valid()
    ensures
      var s', e := s.Receive(ack, windowSize, rst), Heard(ack, windowSize, rst);
      && s'.initialRto == s.initialRto
      && s'.elapsed == (if Advances(s, e) then 0 else s.elapsed)
      && s'.rto == (if Advances(s, e) then s.initialRto else s.rto)
  {
    hide Avoid, Sender.Carries, Tiles, Pow2;
    if ack.Some? && ack.value <= s.next {
      ReceiveKeeps(s, ack, windowSize, rst);
      ReceiveCounts(s, ack.value, windowSize, rst);
      EmptyQueue(s);
      EmptyQueue(s.Receive(ack, windowSize, rst));
      hide Sender.Receive, Extends;
    }
  }

  /** Section 5 of RFC 6298 and section 3.1 of RFC 5681: when the timer runs out against an open
      window, and the sender does not give up, the congestion window collapses to one segment, the
      threshold becomes half the window, and the duplicates are forgotten; otherwise all of that stays. */
  lemma TimeoutCollapses(s: Sender, ms: nat)
    requires s.Valid()
    ensures
      var (s', sent) := s.Tick(ms);
      if sent != [] && s.window > 0 && s'.retransmissions <= MAX_RETX_ATTEMPTS then
        && s'.cwnd == MAX_PAYLOAD_SIZE && s'.ssthresh == Max(s.cwnd / 2, MAX_PAYLOAD_SIZE) && s'.duplicates == 0
      else
        s'.cwnd == s.cwnd && s'.ssthresh == s.ssthresh && s'.duplicates == s.duplicates
  {
    TickReacts(s, ms);
    TickKeeps(s, ms);
    hide Sender.Tick, Sender.Valid;
  }

  /** The duplicates in a row, counted from the events: those that repeat the acknowledged number while
      something is outstanding, since the last new acknowledgement or timeout. */
  function DuplicatesHeard(s: Sender, events: seq<SenderEvent>): nat
    requires s.Valid()
    decreases |events|
  {
    if events == [] then 0
    else
      var rest, e := events[..|events| - 1], events[|events| - 1];
      var before := RunAll(s, rest);
      if Repeats(before, e) then DuplicatesHeard(s, rest) + 1
      else if Advances(before, e) || TimesOut(before, e) then 0
      else DuplicatesHeard(s, rest)
  }

  /** The sender's counter is that count, in every run. */
  lemma {:induction false} CounterCounts(capacity: nat, isn: Wrap32, initialRto: nat, events: seq<SenderEvent>)
    requires initialRto > 0
    ensures
      var s := NewSender(capacity, isn, initialRto);
      s.Valid() && RunAll(s, events).duplicates == DuplicatesHeard(s, events)
    decreases |events|
  {
    var s := NewSender(capacity, isn, initialRto);
    if events != [] {
      var rest, e := events[..|events| - 1], events[|events| - 1];
      assert events == rest + [e];
      CounterCounts(capacity, isn, initialRto, rest);
      RunOneMore(s, rest, e);
      EventReacts(RunAll(s, rest), e);
      hide Happen, RunAll, Sender.Valid, Repeats, Advances, TimesOut;
    }
  }

  /** Section 3.2 of RFC 5681, over every run: a fast retransmit is pending after an event exactly if
      the event is the third duplicate in a row, or none has been pushed since it was. The third
      duplicate halves the window, and the next push begins with the segment that is missing. */
  lemma ThirdDuplicateArms(capacity: nat, isn: Wrap32, initialRto: nat, events: seq<SenderEvent>, e: SenderEvent)
    requires initialRto > 0
    ensures
      var s := NewSender(capacity, isn, initialRto);
      s.Valid()
      && var before, after := RunAll(s, events), RunAll(s, events + [e]);
      var third := Repeats(before, e) && DuplicatesHeard(s, events) == 2;
      && (after.fastPending <==> third || (before.fastPending && !e.Pushed?))
      && (third ==>
            && after.ssthresh == Max(before.cwnd / 2, MAX_PAYLOAD_SIZE)
            && after.cwnd == after.ssthresh + 3 * MAX_PAYLOAD_SIZE
            && var (s', sent) := after.Push();
            sent != [] && sent[0] == before.outstanding[0] && sent[0].start <= before.ackno < sent[0].End())
  {
    var s := NewSender(capacity, isn, initialRto);
    CounterCounts(capacity, isn, initialRto, events);
    RunOneMore(s, events, e);
    var before := RunAll(s, events);
    EventReacts(before, e);
    if Repeats(before, e) && before.duplicates == 2 {
      ThirdDuplicateResends(before, e.ack, e.windowSize, e.rst);
    }
    hide Sender.Receive, RunAll, Sender.Valid, Sender.Push, DuplicatesHeard;
  }

  /** A duplicate leaves the queue as it is. */
  lemma RepeatKeepsQueue(s: Sender, e: SenderEvent)
    requires s.Valid() && e.Heard? && e.ack == Some(s.ackno)
    ensures Happen(s, e).ackno == s.ackno && Happen(s, e).outstanding == s.outstanding
  {
    EmptyQueue(s);
    if s.outstanding != [] {
      OldestSegment(s);
    }
    ReceiveCounts(s, s.ackno, e.windowSize, e.rst);
    hide Sender.Receive, Sender.Valid, Extends;
  }

  /** Three duplicates in a row, whatever windows they carry, arm the fast retransmit; two do nothing. */
  lemma ThreeInARow(s: Sender, e0: SenderEvent, e1: SenderEvent, e2: SenderEvent)
    requires s.Valid() && s.outstanding != [] && s.duplicates == 0
    requires forall e | e in {e0, e1, e2} :: e.Heard? && e.ack == Some(s.ackno)
    ensures
      var s2, s3 := RunAll(s, [e0, e1]), RunAll(s, [e0, e1, e2]);
      && s2.fastPending == s.fastPending && s2.cwnd == s.cwnd && s2.ssthresh == s.ssthresh
      && s3.fastPending && s3.ssthresh == Max(s.cwnd / 2, MAX_PAYLOAD_SIZE)
      && s3.cwnd == s3.ssthresh + 3 * MAX_PAYLOAD_SIZE && s3.outstanding == s.outstanding
  {
    var s1 := Happen(s, e0);
    var s2 := Happen(s1, e1);
    assert e0 in {e0, e1, e2} && e1 in {e0, e1, e2} && e2 in {e0, e1, e2};
    RunOfThree(s, e0, e1, e2);
    hide Happen, RunAll, Sender.Valid;
    EventReacts(s, e0);
    RepeatKeepsQueue(s, e0);
    EventReacts(s1, e1);
    RepeatKeepsQueue(s1, e1);
    EventReacts(s2, e2);
    RepeatKeepsQueue(s2, e2);
  }

  lemma RunOfThree(s: Sender, e0: SenderEvent, e1: SenderEvent, e2: SenderEvent)
    requires s.Valid()
    ensures RunAll(s, [e0, e1]) == Happen(Happen(s, e0), e1)
    ensures RunAll(s, [e0, e1, e2]) == Happen(Happen(Happen(s, e0), e1), e2)
  {
    hide Happen, RunAll, Sender.Valid;
    RunOneMore(s, [], e0);
    RunOneMore(s, [e0], e1);
    RunOneMore(s, [e0, e1], e2);
    assert [] + [e0] == [e0] && [e0] + [e1] == [e0, e1] && [e0, e1] + [e2] == [e0, e1, e2];
    assert RunAll(s, []) == s by { EmptyRun(s); }
  }

  lemma EmptyRun(s: Sender)
    requires s.Valid()
    ensures RunAll(s, []) == s
  {
  }

  /** A new acknowledgement in between makes the count start again. */
  lemma NewAckForgives(s: Sender, e0: SenderEvent, e1: SenderEvent, e2: SenderEvent)
    requires s.Valid() && Advances(s, e0)
    ensures
      var s1, s3 := Happen(s, e0), RunAll(s, [e0, e1, e2]);
      s1.duplicates == 0 && (s3.fastPending ==> s.fastPending)
  {
    var s1 := Happen(s, e0);
    var s2 := Happen(s1, e1);
    RunOfThree(s, e0, e1, e2);
    hide Happen, RunAll, Sender.Valid;
    EventReacts(s, e0);
    EventReacts(s1, e1);
    EventReacts(s2, e2);
  }

  /** What opens a window of one segment again: a new acknowledgement other than that of the SYN alone,
      or a third or later duplicate. */
  predicate Opens(s: Sender, e: SenderEvent) {
    || (Advances(s, e) && !(s.ackno == 0 && e.ack == Some(1)))
    || (Repeats(s, e) && s.duplicates >= 2)
  }

  ghost predicate NothingOpens(s: Sender, events: seq<SenderEvent>)
    requires s.Valid()
    decreases |events|
  {
    events == [] || (!Opens(s, events[0]) && NothingOpens(Happen(s, events[0]), events[1..]))
  }

  /** The congestion window is one segment all through the run. */
  ghost predicate StaysCollapsed(s: Sender, events: seq<SenderEvent>)
    requires s.Valid()
    decreases |events|
  {
    s.cwnd == MAX_PAYLOAD_SIZE && (events != [] ==> StaysCollapsed(Happen(s, events[0]), events[1..]))
  }

  lemma CollapsedStep(s: Sender, e: SenderEvent)
    requires s.Valid() && s.cwnd == MAX_PAYLOAD_SIZE
    ensures Happen(s, e).cwnd == MAX_PAYLOAD_SIZE <==> !Opens(s, e)
  {
    EventReacts(s, e);
    assert s.ssthresh >= MAX_PAYLOAD_SIZE;
    if Advances(s, e) {
      NewAckOpens(s, e.ack.value, e.windowSize, e.rst);
    }
    hide Sender.Valid, Sender.Receive;
  }

  /** A collapsed window stays collapsed exactly as long as nothing opens it, and so long no more than
      one segment is in flight, unless it was before. */
  lemma {:induction false} CollapsedUntilOpened(s: Sender, events: seq<SenderEvent>)
    requires s.Valid() && s.cwnd == MAX_PAYLOAD_SIZE
    ensures StaysCollapsed(s, events) <==> NothingOpens(s, events)
    ensures NothingOpens(s, events) ==> RunAll(s, events).inFlight <= Max(s.inFlight, MAX_PAYLOAD_SIZE)
    decreases |events|
  {
    if events != [] {
      var s1 := Happen(s, events[0]);
      CollapsedStep(s, events[0]);
      OnlyPushingSends(s, events[0]);
      hide Happen, Sender.Valid, Opens;
      if s1.cwnd == MAX_PAYLOAD_SIZE {
        CollapsedUntilOpened(s1, events[1..]);
      }
    }
  }

  /** After a timeout the sender starts again with one segment: whatever is pushed, no more than that
      is in flight, unless it was before, until something opens the window. */
  lemma TimeoutThrottles(s: Sender, ms: nat, events: seq<SenderEvent>)
    requires s.Valid() && TimesOut(s, Elapsed(ms)) && NothingOpens(Happen(s, Elapsed(ms)), events)
    ensures
      var s1 := Happen(s, Elapsed(ms));
      && StaysCollapsed(s1, events)
      && RunAll(s1, events).inFlight <= Max(s.inFlight, MAX_PAYLOAD_SIZE)
      && s1.Push().0.inFlight <= Max(s.inFlight, MAX_PAYLOAD_SIZE)
  {
    var s1 := Happen(s, Elapsed(ms));
    EventReacts(s, Elapsed(ms));
    OnlyPushingSends(s, Elapsed(ms));
    PushObeysBothWindows(s1);
    hide Happen, RunAll, Sender.Valid, Sender.Push;
    CollapsedUntilOpened(s1, events);
  }
}
