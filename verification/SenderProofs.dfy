/** What every operation of the sender keeps, for arbitrary messages from the network. */
module SenderProofs {
  import opened Common
  import opened SenderModel

  /** `s'` may come after `s`: nothing sent is taken back, nothing follows a FIN. */
  ghost predicate Extends(s: Sender, s': Sender) {
    && s'.isn == s.isn
    && s.input.data <= s'.input.data
    && s.input.popped <= s'.input.popped <= |s'.input.data|
    && s.next <= s'.next
    && (s.synSent ==> s'.synSent)
    && s.ackno <= s'.ackno
    && (s.finSent ==> s'.finSent && s'.next == s.next)
    && (s.input.closed ==> s'.input.closed && s'.input.data == s.input.data)
    && (s.input.error ==> s'.input.error)
  }

  /** Transmitting leaves the stream's content, the windows and the back-off state alone. */
  ghost predicate OnlyTransmits(s: Sender, s': Sender) {
    && s'.duplicates == s.duplicates && s'.fastPending == s.fastPending
    && s'.input == s.input.(popped := s'.input.popped)
    && s'.ackno == s.ackno && s'.window == s.window
    && s'.cwnd == s.cwnd && s'.ssthresh == s.ssthresh
    && s'.initialRto == s.initialRto && s'.rto == s.rto && s'.retransmissions == s.retransmissions
    && s'.elapsed == s.elapsed
  }

  lemma ExtendsTransitively(s0: Sender, s1: Sender, s2: Sender)
    requires Extends(s0, s1) && Extends(s1, s2)
    ensures Extends(s0, s2)
  {
  }

  /** A segment that told the truth once tells it for ever. */
  lemma CarriesForever(s: Sender, s': Sender, g: Segment)
    requires Extends(s, s') && s.Carries(g)
    ensures s'.Carries(g)
  {
  }

  /** When the filling loop stops without a segment although nothing is in flight, there is nothing
      to send: the silly-window test cannot lose the SYN, because the initial congestion window
      covers a full segment, and cannot block, because the window never falls below one. */
  lemma FillStops(s: Sender)
    requires s.Valid() && s.inFlight < s.EffectiveWindow()
    ensures
      var (s', g) := s.Fill(s.EffectiveWindow());
      g.None? ==> s' == s && (s.inFlight == 0 ==> s.NothingToSend())
  {
    hide Sender.Timed, Sender.Carries, Tiles;
  }

  /** What the filling loop composes: the flags and the bytes that come next, within the window. */
  lemma FillComposes(s: Sender)
    requires s.Valid() && s.inFlight < s.EffectiveWindow()
    ensures
      var (s', o) := s.Fill(s.EffectiveWindow());
      o.Some? ==>
        var g := o.value;
        && g.start == s.next && g.syn == !s.synSent && g.rst == s.input.error && g.Length() > 0
        && s.input.popped + |g.payload| <= |s.input.data|
        && g.payload == s.input.data[s.input.popped..s.input.popped + |g.payload|]
        && (g.fin ==> s.input.closed && !s.finSent && |g.payload| == s.input.Buffered())
        && s.inFlight + g.Length() <= s.EffectiveWindow()
        && s' == s.(synSent := true, finSent := s.finSent || g.fin).Track(g)
  {
    hide Sender.Timed, Sender.Carries, Tiles;
  }

  /** A segment from the filling loop: next in line, truthful, and within the window. */
  lemma FillSends(s: Sender)
    requires s.Valid() && s.inFlight < s.EffectiveWindow()
    ensures
      var (s', g) := s.Fill(s.EffectiveWindow());
      g.Some? ==>
        && s'.Numbered() && s'.Paced() && s'.Carries(g.value)
        && Extends(s, s') && OnlyTransmits(s, s')
        && g.value.start == s.next && g.value.Length() > 0
        && s'.next == s.next + g.value.Length()
        && s'.inFlight == s.inFlight + g.value.Length() <= s.EffectiveWindow()
        && s'.outstanding == s.outstanding + [g.value] && s'.timerOn
  {
    FillComposes(s);
    hide Sender.Fill, Sender.Timed, Sender.Queued, Tiles, Sender.EffectiveWindow;
  }

  lemma FillKeeps(s: Sender)
    requires s.Valid() && s.inFlight < s.EffectiveWindow()
    ensures s.Fill(s.EffectiveWindow()).0.Valid()
  {
    FillStops(s);
    FillSends(s);
    var (s', g) := s.Fill(s.EffectiveWindow());
    hide Sender.Fill;
    if g.Some? {
      TilesAppend(s.outstanding, s.next - s.inFlight, s.next, g.value);
      TilesAreOrdered(s.outstanding, s.next - s.inFlight, s.next);
      forall h | h in s'.outstanding
        ensures s'.Carries(h)
      {
        if h in s.outstanding {
          CarriesForever(s, s', h);
        }
      }
      hide Sender.Carries;
    }
  }

  /** A truthful segment that starts no more than a window behind the newest number. */
  ghost predicate Recent(s: Sender, g: Segment) {
    s.Carries(g) && s.next <= g.start + MAX_WINDOW
  }

  lemma FillAllEnds(s: Sender, limit: nat, sent: seq<Segment>)
    requires s.input.Valid() && limit <= s.inFlight
    ensures s.FillAll(limit, sent) == (s, sent)
  {
  }

  lemma FillAllTurns(s: Sender, limit: nat, sent: seq<Segment>)
    requires s.input.Valid() && s.inFlight < limit
    ensures
      var (s', g) := s.Fill(limit);
      s.FillAll(limit, sent) ==
        if g.None? then (s', sent)
        else if g.value.fin then (s', sent + [g.value])
        else s'.FillAll(limit, sent + [g.value])
  {
  }

  /** What the filling loop makes of `s`, having transmitted `sent` before and `sent'` in all. */
  ghost predicate Filled(s: Sender, sent: seq<Segment>, s': Sender, sent': seq<Segment>) {
    && s'.Valid() && Extends(s, s') && OnlyTransmits(s, s')
    && s.inFlight <= s'.inFlight <= Max(s.inFlight, s.EffectiveWindow())
    && s'.next - s'.inFlight == s.next - s.inFlight
    && (s'.inFlight > 0 || s'.NothingToSend())
    && (forall g | g in sent' :: s'.Carries(g) && s.next - s.inFlight <= g.start)
    && sent <= sent'
  }

  lemma {:induction false} FillAllKeeps(s: Sender, sent: seq<Segment>)
    requires s.Valid()
    requires forall g | g in sent :: s.Carries(g) && s.next - s.inFlight <= g.start
    ensures var (s', sent') := s.FillAll(s.EffectiveWindow(), sent); Filled(s, sent, s', sent')
    decreases s.EffectiveWindow() - s.inFlight
  {
    if s.inFlight < s.EffectiveWindow() {
      FillStops(s);
      FillSends(s);
      FillKeeps(s);
      var (s1, g) := s.Fill(s.EffectiveWindow());
      hide Sender.Fill, Sender.Carries, Sender.Numbered, Sender.Queued, Sender.Timed, Sender.Paced;
      if g.Some? {
        FilledOnce(s, sent, s1, g.value);
        if !g.value.fin {
          FillAllKeeps(s1, sent + [g.value]);
          var (s', sent') := s1.FillAll(s.EffectiveWindow(), sent + [g.value]);
          FilledFurther(s, sent, s1, sent + [g.value], s', sent');
        }
      }
    }
  }

  lemma FilledOnce(s: Sender, sent: seq<Segment>, s1: Sender, g: Segment)
    requires s1.Valid() && s1.Carries(g) && Extends(s, s1) && OnlyTransmits(s, s1)
    requires forall h | h in sent :: s.Carries(h) && s.next - s.inFlight <= h.start
    requires g.start == s.next && g.Length() > 0 && s1.next == s.next + g.Length()
    requires s.inFlight <= s.next && s1.inFlight == s.inFlight + g.Length() <= s.EffectiveWindow()
    ensures Filled(s, sent, s1, sent + [g])
  {
    forall h | h in sent + [g]
      ensures s1.Carries(h) && s.next - s.inFlight <= h.start
    {
      if h in sent {
        CarriesForever(s, s1, h);
      }
    }
    hide Sender.Carries, Sender.Valid;
  }

  lemma FilledFurther(s: Sender, sent: seq<Segment>, s1: Sender, sent1: seq<Segment>, s': Sender, sent': seq<Segment>)
    requires Filled(s, sent, s1, sent1) && Filled(s1, sent1, s', sent')
    requires s1.inFlight <= s.EffectiveWindow()
    ensures Filled(s, sent, s', sent')
  {
    hide Sender.Carries, Sender.Valid;
  }

  /** Section 3.8.6 of RFC 9293: `Push` keeps the invariant, never takes more in flight than the
      effective window allows, and never stalls: afterwards something is in flight, or SYN, every
      byte and (on a closed stream) FIN have been sent. */
  lemma PushKeeps(s: Sender)
    requires s.Valid()
    ensures
      var (s', sent) := s.Push();
      && s'.Valid() && Extends(s, s') && OnlyTransmits(s.(fastPending := false), s')
      && s.inFlight <= s'.inFlight <= Max(s.inFlight, s.EffectiveWindow())
      && s'.next - s'.inFlight == s.next - s.inFlight
      && (s'.inFlight > 0 || s'.NothingToSend())
      && (forall g | g in sent :: Recent(s', g))
      && (s.fastPending && s.outstanding != [] ==> sent != [] && sent[0] == s.outstanding[0])
  {
    var again := if s.fastPending && s.outstanding != [] then [s.outstanding[0]] else [];
    var s1 := s.(fastPending := false);
    assert s1.Valid() && s1.EffectiveWindow() == s.EffectiveWindow() by {
      assert forall g | g in s.outstanding :: s.Carries(g) ==> s1.Carries(g);
    }
    hide Sender.FillAll, Sender.Timed, Sender.Paced, Sender.Numbered;
    forall g | g in again
      ensures s1.Carries(g) && s.next - s.inFlight <= g.start
    {
      assert g == s.outstanding[0];
    }
    FillAllKeeps(s1, again);
  }

  /** Acknowledging a prefix leaves a tiling whose oldest segment holds the acknowledged number. */
  lemma {:induction false} ReleaseKeeps(s: Sender, n: nat)
    requires s.inFlight <= s.next && Tiles(s.outstanding, s.next - s.inFlight, s.next)
    requires s.next - s.inFlight <= n <= s.next
    ensures
      var s' := s.Release(n);
      && s' == s.(outstanding := s'.outstanding, inFlight := s'.inFlight)
      && s'.inFlight <= s.inFlight && Tiles(s'.outstanding, s.next - s'.inFlight, s.next)
      && (forall g | g in s'.outstanding :: g in s.outstanding)
      && (if s'.outstanding == [] then n == s.next else s.next - s'.inFlight <= n < s'.outstanding[0].End())
    decreases |s.outstanding|
  {
    TilesAreOrdered(s.outstanding, s.next - s.inFlight, s.next);
    if s.outstanding != [] && s.outstanding[0].End() <= n {
      ReleaseKeeps(s.(inFlight := s.inFlight - s.outstanding[0].Length(), outstanding := s.outstanding[1..]), n);
    }
  }

  /** Numbers in flight are numbers sent, and SYN was the first of them. */
  lemma OldestSegment(s: Sender)
    requires s.Numbered() && s.Queued() && s.outstanding != []
    ensures s.synSent && s.inFlight > 0
    ensures s.outstanding[0].start == s.next - s.inFlight <= s.ackno < s.outstanding[0].End() <= s.next
  {
    TilesAreOrdered(s.outstanding, s.next - s.inFlight, s.next);
  }

  /** The queue is empty exactly when everything sent is acknowledged. */
  lemma EmptyQueue(s: Sender)
    requires s.Queued()
    ensures s.outstanding == [] <==> s.ackno == s.next
    ensures s.outstanding == [] <==> s.inFlight == 0
  {
    TilesAreOrdered(s.outstanding, s.next - s.inFlight, s.next);
  }

  lemma CountAckKeeps(s: Sender, n: nat)
    requires s.Paced() && n <= s.next && (n > s.ackno ==> s.synSent)
    requires s.outstanding != [] ==> s.synSent
    ensures
      var s' := s.CountAck(n);
      && s'.Paced() && s'.ackno == Max(s.ackno, n)
      && s'.input == s.input && s'.next == s.next && s'.isn == s.isn && s'.window == s.window
      && s'.synSent == s.synSent && s'.finSent == s.finSent && s'.initialRto == s.initialRto
      && s'.outstanding == s.outstanding && s'.inFlight == s.inFlight
      && (if n > s.ackno then s'.timerOn && s'.elapsed == 0 && s'.rto == s.initialRto && s'.retransmissions == 0
          else s'.timerOn == s.timerOn && s'.elapsed == s.elapsed && s'.rto == s.rto
               && s'.retransmissions == s.retransmissions)
  {
    hide Avoid, Increment;
  }

  /** Whatever arrives from the network, the queue goes on tiling the numbers in flight, and the
      oldest outstanding segment goes on holding `ackno`; only a number between `ackno` and `next`
      moves `ackno`, and moving it restarts the timer at its initial value (section 5 of RFC 6298). */
  lemma ReceiveKeeps(s: Sender, ack: Option<nat>, windowSize: u16, rst: bool)
    requires s.Valid()
    ensures
      var s' := s.Receive(ack, windowSize, rst);
      && s'.Valid() && Extends(s, s')
      && s'.input == s.input.(error := s.input.error || rst)
      && s'.next == s.next && s'.window == windowSize && s'.inFlight <= s.inFlight
      && s'.synSent == s.synSent && s'.finSent == s.finSent
      && (if ack.Some? && s.ackno < ack.value <= s.next
          then s'.ackno == ack.value && s'.retransmissions == 0
          else s'.ackno == s.ackno && s'.retransmissions == s.retransmissions && s'.inFlight == s.inFlight)
  {
    var s0 := s.Note(windowSize, rst);
    assert s0.Valid() && Extends(s, s0) by {
      assert forall g | g in s.outstanding :: s.Carries(g) ==> s0.Carries(g);
    }
    if ack.Some? && ack.value <= s.next {
      AckKeeps(s0, ack.value);
    }
  }

  lemma AckKeeps(s: Sender, n: nat)
    requires s.Valid() && n <= s.next
    ensures
      var s' := s.Acknowledge(n);
      && s'.Valid() && Extends(s, s')
      && s'.input == s.input && s'.next == s.next && s'.window == s.window && s'.inFlight <= s.inFlight
      && s'.synSent == s.synSent && s'.finSent == s.finSent
      && (if s.ackno < n then s'.ackno == n && s'.retransmissions == 0
          else s'.ackno == s.ackno && s'.retransmissions == s.retransmissions && s'.inFlight == s.inFlight)
  {
    if s.outstanding != [] {
      OldestSegment(s);
    }
    var s1 := s.CountAck(n);
    CountAckKeeps(s, n);
    CarriesLikewise(s, s1);
    hide Sender.CountAck, Sender.Carries, Sender.Paced;
    assert s1.elapsed < s1.rto == s1.initialRto * Pow2(s1.retransmissions);
    hide Pow2;
    if s.ackno < n {
      ReleaseKeeps(s1, n);
      hide Sender.Release, Tiles;
      var s2 := s1.Release(n);
      CarriesLikewise(s1, s2);
      assert s2.Queued() && s2.Numbered() && s2.Paced() by { PacedLikewise(s1, s2); }
      SettleTimerKeeps(s2);
    } else {
      assert s1.Release(n) == s1;
      hide Sender.Release, Tiles;
      assert s1.Queued() && s1.Numbered() && s1.Paced();
      SettleTimerKeeps(s1);
    }
  }

  lemma PacedLikewise(s: Sender, s': Sender)
    requires s'.cwnd == s.cwnd && s'.ssthresh == s.ssthresh && s'.synSent == s.synSent && s.Paced()
    ensures s'.Paced()
  {
  }

  lemma SettleTimerKeeps(s: Sender)
    requires s.Numbered() && s.Queued() && s.Paced() && s.initialRto > 0
    requires s.elapsed < s.rto == s.initialRto * Pow2(s.retransmissions)
    requires !s.timerOn ==> s.outstanding == []
    ensures s.SettleTimer().Valid()
  {
    hide Pow2, Tiles;
    CarriesLikewise(s, s.SettleTimer());
  }

  /** Telling the truth depends on the stream and the numbering alone. */
  lemma CarriesLikewise(s: Sender, s': Sender)
    requires s'.input == s.input && s'.next == s.next && s'.finSent == s.finSent
    ensures forall g :: s.Carries(g) ==> s'.Carries(g)
  {
  }

  lemma BackOff(base: nat, rto: nat, n: nat)
    requires rto == base * Pow2(n)
    ensures 2 * rto == base * Pow2(n + 1)
  {
  }

  /** Section 5 of RFC 6298: the timer fires exactly when it has run for the current timeout, then
      resends the segment that holds `ackno`, and the timeout stays the initial one times a power
      of two; a closed window is probed without backing off, and only the timeout that exceeds the
      last attempt fails the stream. */
  lemma TickKeeps(s: Sender, ms: nat)
    requires s.Valid()
    ensures
      var (s', sent) := s.Tick(ms);
      && s'.Valid() && Extends(s, s')
      && s'.next == s.next && s'.ackno == s.ackno && s'.outstanding == s.outstanding && s'.inFlight == s.inFlight
      && s'.input == s.input.(error := s'.input.error) && s'.synSent == s.synSent && s'.finSent == s.finSent
      && s'.window == s.window
      && s'.retransmissions == s.retransmissions + (if sent != [] && s.window > 0 then 1 else 0)
      && (s'.input.error <==>
            s.input.error || (s.retransmissions < s'.retransmissions && MAX_RETX_ATTEMPTS < s'.retransmissions))
      && (forall g | g in sent :: Recent(s', g))
      && (sent != [] <==> s.timerOn && s.elapsed + ms >= s.rto)
      && (sent != [] ==> s.outstanding != [] && sent == [s.outstanding[0]]
                         && sent[0].start <= s.ackno < sent[0].End())
  {
    var (s', sent) := s.Tick(ms);
    if s.outstanding != [] {
      OldestSegment(s);
    }
    BackOff(s.initialRto, s.rto, s.retransmissions);
    assert s'.Timed() && s'.Paced() && s'.Numbered();
    hide Sender.Timed, Sender.Paced, Sender.Numbered, Pow2;
    forall g | g in s.outstanding
      ensures s'.Carries(g)
    {
      assert s.Carries(g);
    }
  }

  /** The application's bytes enter the buffer; the sender's own state is untouched. */
  lemma WriteKeeps(s: Sender, bytes: seq<byte>, eof: bool)
    requires s.Valid() && (s.input.closed ==> bytes == [])
    ensures s.Write(bytes, eof).Valid() && Extends(s, s.Write(bytes, eof))
  {
    var s' := s.Write(bytes, eof);
    assert s.input.closed ==> s'.input.data == s.input.data;
    assert s'.Numbered() && Extends(s, s');
    forall g | g in s.outstanding
      ensures s'.Carries(g)
    {
      CarriesForever(s, s', g);
    }
  }
}
