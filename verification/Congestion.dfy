/** How fast Reno's congestion avoidance may open the window (section 3.1 of RFC 5681). */
module Congestion {
  import opened Common
  import opened SenderModel
  import opened SenderProofs
  import opened SenderRuns

  /** The growth for `acked` bytes is at most acked * MSS / cwnd, although it is computed in steps
      that each divide by the current window. */
  lemma {:induction false} AvoidGrowsSlowly(cwnd: nat, acked: nat)
    requires cwnd > 0
    ensures (Avoid(cwnd, acked) - cwnd) * cwnd <= MAX_PAYLOAD_SIZE * acked
    decreases acked
  {
    if acked >= MAX_PAYLOAD_SIZE {
      var d := Increment(MAX_PAYLOAD_SIZE, cwnd);
      var c := cwnd + d;
      AvoidGrowsSlowly(c, acked - MAX_PAYLOAD_SIZE);
      Compose(cwnd, c, Avoid(c, acked - MAX_PAYLOAD_SIZE), MAX_PAYLOAD_SIZE, acked - MAX_PAYLOAD_SIZE);
    }
  }

  /** Two growth steps in a row, each bounded at its own window, are bounded at the first window. */
  lemma Compose(c0: nat, c1: nat, c2: nat, acked0: nat, acked1: nat)
    requires c0 <= c1 <= c2
    requires (c1 - c0) * c0 <= MAX_PAYLOAD_SIZE * acked0
    requires (c2 - c1) * c1 <= MAX_PAYLOAD_SIZE * acked1
    ensures (c2 - c0) * c0 <= MAX_PAYLOAD_SIZE * (acked0 + acked1)
  {
    ScaleDown(c2 - c1, c1, c0);
    assert (c2 - c0) * c0 == (c2 - c1) * c0 + (c1 - c0) * c0;
  }

  lemma ScaleDown(growth: nat, large: nat, small: nat)
    requires small <= large
    ensures growth * small <= growth * large
  {
  }

  lemma Cancel(growth: nat, cwnd: nat, acked: nat)
    requires 0 < cwnd && acked <= cwnd && growth * cwnd <= MAX_PAYLOAD_SIZE * acked
    ensures growth <= MAX_PAYLOAD_SIZE
  {
    if growth > MAX_PAYLOAD_SIZE {
      ScaleDown(cwnd, growth, MAX_PAYLOAD_SIZE + 1);
    }
  }

  /** The growth is no less than that either, but for what rounding takes: less than one byte for every
      segment acknowledged, measured at the window reached. */
  lemma {:induction false} AvoidGrowsEnough(cwnd: nat, acked: nat)
    requires cwnd > 0 && acked > 0
    ensures MAX_PAYLOAD_SIZE * acked < (Avoid(cwnd, acked) - cwnd + Segments(acked)) * Avoid(cwnd, acked)
    decreases acked
  {
    var c := Avoid(cwnd, acked);
    if acked > MAX_PAYLOAD_SIZE {
      var d := Increment(MAX_PAYLOAD_SIZE, cwnd);
      AvoidGrowsEnough(cwnd + d, acked - MAX_PAYLOAD_SIZE);
      ScaleDown(d + 1, c, cwnd);
      Distribute(d + 1, c - (cwnd + d) + Segments(acked - MAX_PAYLOAD_SIZE), c);
    } else {
      var d := Increment(acked, cwnd);
      assert c == cwnd + d;
      ScaleDown(d + 1, c, cwnd);
    }
  }

  /** How many segments that many bytes make, the last one perhaps not full. */
  function Segments(bytes: nat): nat {
    (bytes + MAX_PAYLOAD_SIZE - 1) / MAX_PAYLOAD_SIZE
  }

  lemma Distribute(x: nat, y: nat, factor: nat)
    ensures (x + y) * factor == x * factor + y * factor
  {
  }

  /** Section 3.1 of RFC 5681: what a new acknowledgement does to the window. Below the threshold it
      opens by what is acknowledged, and from there on by acked * MSS / cwnd, rounded down segment by
      segment; the acknowledgement of the SYN alone does nothing, and the threshold stays. */
  lemma NewAckOpens(s: Sender, n: nat, windowSize: u16, rst: bool)
    requires s.Valid() && s.ackno < n <= s.next
    ensures
      var s', acked := s.Receive(Some(n), windowSize, rst), n - s.ackno;
      && s'.ssthresh == s.ssthresh && s'.cwnd >= s.cwnd
      && (if s.ackno == 0 && n == 1 then
            s'.cwnd == s.cwnd
          else if s.cwnd < s.ssthresh then
            s'.cwnd == s.cwnd + acked
          else
            && (s'.cwnd - s.cwnd) * s.cwnd <= MAX_PAYLOAD_SIZE * acked
            && MAX_PAYLOAD_SIZE * acked < (s'.cwnd - s.cwnd + Segments(acked)) * s'.cwnd)
  {
    ReceiveCounts(s, n, windowSize, rst);
    AvoidGrowsSlowly(s.cwnd, n - s.ackno);
    AvoidGrowsEnough(s.cwnd, n - s.ackno);
    hide Sender.Receive, Avoid, Sender.Queued, Segments;
  }

  /** No loss is detected: the event is neither a timeout into an open window nor a third or later
      duplicate acknowledgement in a row. */
  predicate Lossless(s: Sender, e: SenderEvent) {
    match e
    case Heard(ack, _, _) => !(ack == Some(s.ackno) && s.outstanding != [] && s.duplicates >= 2)
    case Elapsed(ms) => !(s.timerOn && s.elapsed + ms >= s.rto && s.window > 0)
    case _ => true
  }

  ghost predicate LosslessRun(s: Sender, events: seq<SenderEvent>)
    requires s.Valid()
    decreases |events|
  {
    events == [] || (Lossless(s, events[0]) && LosslessRun(Happen(s, events[0]), events[1..]))
  }

  /** From `s` to `s'` the window grew, scaled by where it started, by no more than was acknowledged. */
  ghost predicate GrowsSlowly(s: Sender, s': Sender) {
    && s.cwnd <= s'.cwnd && s'.ssthresh == s.ssthresh && s.ackno <= s'.ackno
    && (s'.cwnd - s.cwnd) * s.cwnd <= MAX_PAYLOAD_SIZE * (s'.ackno - s.ackno)
  }

  /** Without a loss only new acknowledgements move the window. */
  lemma EventGrows(s: Sender, e: SenderEvent)
    requires s.Valid() && s.cwnd >= s.ssthresh && Lossless(s, e)
    ensures GrowsSlowly(s, Happen(s, e))
  {
    match e
    case Written(bytes, eof) =>
      hide Sender.Valid, Extends, GrowsSlowly;
      NothingGrows(s, s.Write(if s.input.closed then [] else bytes, eof));
    case Pushed =>
      PushKeeps(s);
      hide Sender.Push, Sender.Valid, Extends, GrowsSlowly;
      NothingGrows(s, s.Push().0);
    case Heard(ack, windowSize, rst) =>
      HeardGrows(s, ack, windowSize, rst);
      hide Sender.Receive, Sender.Valid, Extends, GrowsSlowly;
    case Elapsed(ms) =>
      TickGrowsNothing(s, ms);
      hide Sender.Tick, Sender.Valid, Extends, GrowsSlowly;
  }

  lemma NothingGrows(s: Sender, s': Sender)
    requires s'.cwnd == s.cwnd && s'.ssthresh == s.ssthresh && s'.ackno == s.ackno
    ensures GrowsSlowly(s, s')
  {
  }

  lemma TickGrowsNothing(s: Sender, ms: nat)
    requires s.Valid() && Lossless(s, Elapsed(ms))
    ensures GrowsSlowly(s, s.Tick(ms).0)
  {
    hide Tiles, Sender.Carries, Pow2, Sender.BackedOff, GrowsSlowly;
    NothingGrows(s, s.Tick(ms).0);
  }

  /** A message from the network grows the window by what it newly acknowledges, if at all. */
  lemma HeardGrows(s: Sender, ack: Option<nat>, windowSize: u16, rst: bool)
    requires s.Valid() && s.cwnd >= s.ssthresh && Lossless(s, Heard(ack, windowSize, rst))
    ensures GrowsSlowly(s, s.Receive(ack, windowSize, rst))
  {
    if ack.Some? && ack.value <= s.next {
      var n, s0 := ack.value, s.Note(windowSize, rst);
      CountGrows(s, s0, n);
      hide Sender.CountAck, Sender.Receive;
      ReceiveCounts(s, n, windowSize, rst);
      WindowsLikewise(s, s0.CountAck(n), s.Receive(ack, windowSize, rst));
    } else {
      hide Sender.Valid;
    }
  }

  /** Releasing segments and settling the timer leave alone what counting the acknowledgement did. */
  lemma ReceiveCounts(s: Sender, n: nat, windowSize: u16, rst: bool)
    requires s.Valid() && n <= s.next
    ensures
      var s1, s' := s.Note(windowSize, rst).CountAck(n), s.Receive(Some(n), windowSize, rst);
      && s'.cwnd == s1.cwnd && s'.ssthresh == s1.ssthresh && s'.ackno == s1.ackno
      && s'.fastPending == s1.fastPending && s'.duplicates == s1.duplicates
      && s'.initialRto == s1.initialRto && s'.rto == s1.rto
      && s'.elapsed == (if s'.outstanding == [] then 0 else s1.elapsed)
      && (n == s.ackno ==> s'.outstanding == s.outstanding)
  {
    var s1 := s.Note(windowSize, rst).CountAck(n);
    assert s1.inFlight == s.inFlight && s1.next == s.next && s1.outstanding == s.outstanding;
    hide Sender.CountAck, Sender.Carries, Tiles;
    ReleaseOnlyDequeues(s1, n);
    hide Sender.Release;
  }

  lemma CountGrows(s: Sender, s0: Sender, n: nat)
    requires s.Paced() && s.cwnd >= s.ssthresh
    requires s0.cwnd == s.cwnd && s0.ssthresh == s.ssthresh && s0.ackno == s.ackno
    requires s0.duplicates == s.duplicates && s0.outstanding == s.outstanding
    requires !(n == s.ackno && s.outstanding != [] && s.duplicates >= 2)
    ensures GrowsSlowly(s, s0.CountAck(n))
  {
    if n > s.ackno {
      AvoidGrowsSlowly(s.cwnd, n - s.ackno);
    }
    hide Avoid;
  }

  lemma WindowsLikewise(s: Sender, s1: Sender, s': Sender)
    requires GrowsSlowly(s, s1) && s'.cwnd == s1.cwnd && s'.ssthresh == s1.ssthresh && s'.ackno == s1.ackno
    ensures GrowsSlowly(s, s')
  {
  }

  /** Over any run without loss, with writes, pushes, acknowledgements and probes in any order, the
      growth, scaled by the starting window, is bounded by the numbers acknowledged. */
  lemma {:induction false} GrowthOverRun(s: Sender, events: seq<SenderEvent>)
    requires s.Valid() && s.cwnd >= s.ssthresh && LosslessRun(s, events)
    ensures GrowsSlowly(s, RunAll(s, events))
    decreases |events|
  {
    if events != [] {
      var s1 := Happen(s, events[0]);
      EventGrows(s, events[0]);
      assert s1.cwnd >= s1.ssthresh;
      hide Happen, GrowsSlowly, Sender.Valid;
      GrowthOverRun(s1, events[1..]);
      GrowsOn(s, s1, RunAll(s1, events[1..]));
    }
  }

  lemma GrowsOn(s: Sender, s1: Sender, s': Sender)
    requires GrowsSlowly(s, s1) && GrowsSlowly(s1, s')
    ensures GrowsSlowly(s, s')
  {
    Compose(s.cwnd, s1.cwnd, s'.cwnd, s1.ackno - s.ackno, s'.ackno - s1.ackno);
  }

  /** Section 3.1 of RFC 5681: as long as no more than the starting window is acknowledged, the
      window opens by at most one full segment. */
  lemma OneSegmentPerWindow(s: Sender, events: seq<SenderEvent>)
    requires s.Valid() && s.cwnd >= s.ssthresh && LosslessRun(s, events)
    requires RunAll(s, events).ackno - s.ackno <= s.cwnd
    ensures s.cwnd <= RunAll(s, events).cwnd <= s.cwnd + MAX_PAYLOAD_SIZE
  {
    GrowthOverRun(s, events);
    var s' := RunAll(s, events);
    Cancel(s'.cwnd - s.cwnd, s.cwnd, s'.ackno - s.ackno);
  }

  /** Section 3.2 of RFC 5681: exactly the third duplicate in a row makes the next push resend the
      oldest segment, the one that holds the repeated number, and halves the window meanwhile. */
  lemma ThirdDuplicateResends(s: Sender, ack: Option<nat>, windowSize: u16, rst: bool)
    requires s.Valid()
    ensures
      var s' := s.Receive(ack, windowSize, rst);
      var third := ack == Some(s.ackno) && s.outstanding != [] && s.duplicates == 2;
      && s'.Valid() && (s'.fastPending <==> s.fastPending || third)
      && (third ==>
            && s'.ssthresh == Max(s.cwnd / 2, MAX_PAYLOAD_SIZE) && s'.cwnd == s'.ssthresh + 3 * MAX_PAYLOAD_SIZE
            && var (s2, sent) := s'.Push();
            && sent != [] && sent[0] == s.outstanding[0] && sent[0].start <= s.ackno < sent[0].End()
            && !s2.fastPending)
  {
    var s' := s.Receive(ack, windowSize, rst);
    DuplicatesCounted(s, ack, windowSize, rst);
    ReceiveKeeps(s, ack, windowSize, rst);
    PushKeeps(s');
    if s.outstanding != [] {
      OldestSegment(s);
    }
    hide Sender.Receive, Sender.Push;
  }

  lemma DuplicatesCounted(s: Sender, ack: Option<nat>, windowSize: u16, rst: bool)
    requires s.Valid()
    ensures
      var s' := s.Receive(ack, windowSize, rst);
      var third := ack == Some(s.ackno) && s.outstanding != [] && s.duplicates == 2;
      && (s'.fastPending <==> s.fastPending || third)
      && (third ==>
            && s'.ssthresh == Max(s.cwnd / 2, MAX_PAYLOAD_SIZE) && s'.cwnd == s'.ssthresh + 3 * MAX_PAYLOAD_SIZE
            && s'.outstanding == s.outstanding)
  {
    if s.outstanding != [] {
      OldestSegment(s);
    }
    EmptyQueue(s);
    hide Avoid, Sender.Carries, Tiles;
    if ack.Some? && ack.value <= s.next {
      ReceiveCounts(s, ack.value, windowSize, rst);
      hide Sender.Receive;
    }
  }

  lemma {:induction false} ReleaseOnlyDequeues(s: Sender, n: nat)
    requires s.inFlight <= s.next && Tiles(s.outstanding, s.next - s.inFlight, s.next)
    ensures s.Release(n) == s.(outstanding := s.Release(n).outstanding, inFlight := s.Release(n).inFlight)
    ensures s.outstanding != [] && n < s.outstanding[0].End() ==> s.Release(n) == s
    decreases |s.outstanding|
  {
    TilesAreOrdered(s.outstanding, s.next - s.inFlight, s.next);
    if s.outstanding != [] && s.outstanding[0].End() <= n {
      ReleaseOnlyDequeues(
        s.(inFlight := s.inFlight - s.outstanding[0].Length(), outstanding := s.outstanding[1..]), n);
    }
  }
}
