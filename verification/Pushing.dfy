/** What a push transmits: as much as both windows allow, cut into full segments. */
module Pushing {
  import opened Common
  import opened SenderModel
  import opened SenderProofs
  import opened SenderRuns

  /** How many numbers an advertised window lets in flight: a closed one is probed with one. */
  function Offer(window: u16): nat {
    if window == 0 then 1 else window
  }

  /** One of the two windows is used up. */
  predicate Full(s: Sender) {
    s.cwnd <= s.inFlight || Offer(s.window) <= s.inFlight
  }

  /** The congestion window, the smaller one, has room for some of the buffered bytes, but neither for
      all of them nor for a full segment: silly window avoidance. */
  predicate Saves(s: Sender)
    requires s.input.Valid()
  {
    var room := s.cwnd - s.inFlight;
    s.synSent && s.cwnd < s.window && room < MAX_PAYLOAD_SIZE && room < s.input.Buffered()
  }

  /** Section 3.1 of RFC 5681: whatever is pushed, the numbers in flight stay within the congestion
      window and within the advertised one, unless they were beyond it already. */
  lemma PushObeysBothWindows(s: Sender)
    requires s.Valid()
    ensures
      var s' := s.Push().0;
      && s'.inFlight <= Max(s.inFlight, s.cwnd)
      && s'.inFlight <= Max(s.inFlight, if s.window == 0 then 1 else s.window)
  {
    PushKeeps(s);
    hide Sender.Push, Sender.Valid;
  }

  /** One more event at the end of a run. */
  lemma {:induction false} RunOneMore(s: Sender, events: seq<SenderEvent>, e: SenderEvent)
    requires s.Valid()
    ensures RunAll(s, events + [e]) == Happen(RunAll(s, events), e)
    decreases |events|
  {
    hide Happen;
    if events == [] {
      assert [e][1..] == [] && events + [e] == [e];
    } else {
      assert (events + [e])[1..] == events[1..] + [e];
      RunOneMore(Happen(s, events[0]), events[1..], e);
    }
  }

  /** Only a push puts more numbers in flight, and only within both windows. */
  lemma OnlyPushingSends(s: Sender, e: SenderEvent)
    requires s.Valid()
    ensures
      var s' := Happen(s, e);
      s'.inFlight > s.inFlight ==>
        e.Pushed? && s'.inFlight <= s'.cwnd && s'.inFlight <= if s'.window == 0 then 1 else s'.window
  {
    match e
    case Written(bytes, eof) =>
    case Pushed =>
      PushKeeps(s);
      PushObeysBothWindows(s);
      hide Sender.Push, Sender.Valid, Extends;
    case Heard(ack, windowSize, rst) =>
      ReceiveKeeps(s, ack, windowSize, rst);
      hide Sender.Receive, Sender.Valid, Extends;
    case Elapsed(ms) =>
      TickKeeps(s, ms);
      hide Sender.Tick, Sender.Valid, Extends;
  }

  /** The same in every run: at each event, numbers enter flight by a push only, and only within both
      windows as they are then. */
  lemma NothingBeyondTheWindows(s: Sender, events: seq<SenderEvent>, e: SenderEvent)
    requires s.Valid()
    ensures
      var before, after := RunAll(s, events), RunAll(s, events + [e]);
      after.inFlight > before.inFlight ==>
        e.Pushed? && after.inFlight <= after.cwnd && after.inFlight <= if after.window == 0 then 1 else after.window
  {
    RunOneMore(s, events, e);
    OnlyPushingSends(RunAll(s, events), e);
    hide Happen, RunAll, Sender.Valid;
  }

  /** The largest window in force during a run that starts with `window`. */
  function LargestOffer(window: u16, events: seq<SenderEvent>): nat
    decreases |events|
  {
    if events == [] then Offer(window)
    else Max(Offer(window), LargestOffer(if events[0].Heard? then events[0].windowSize else window, events[1..]))
  }

  /** Over any run the numbers in flight never exceed the largest window ever advertised. */
  lemma {:induction false} NeverBeyondAllOffers(s: Sender, events: seq<SenderEvent>)
    requires s.Valid()
    ensures RunAll(s, events).inFlight <= Max(s.inFlight, LargestOffer(s.window, events))
    decreases |events|
  {
    if events != [] {
      var s1 := Happen(s, events[0]);
      OnlyPushingSends(s, events[0]);
      WindowIsLastHeard(s, events[0]);
      NeverBeyondAllOffers(s1, events[1..]);
      hide Happen, Sender.Valid;
    }
  }

  lemma WindowIsLastHeard(s: Sender, e: SenderEvent)
    requires s.Valid()
    ensures Happen(s, e).window == if e.Heard? then e.windowSize else s.window
  {
    match e
    case Written(bytes, eof) =>
    case Pushed =>
      PushKeeps(s);
      hide Sender.Push, Sender.Valid, Extends;
    case Heard(ack, windowSize, rst) =>
      ReceiveKeeps(s, ack, windowSize, rst);
      hide Sender.Receive, Sender.Valid, Extends;
    case Elapsed(ms) =>
      TickKeeps(s, ms);
      hide Sender.Tick, Sender.Valid, Extends;
  }

  /** Why the filling loop goes on or stops: it stops when nothing is left to send or when it saves a
      short segment; a segment that is not full uses up a window or all that there is to send. */
  lemma FillIsGreedy(s: Sender)
    requires s.Valid() && s.inFlight < s.EffectiveWindow()
    ensures
      var (s', o) := s.Fill(s.EffectiveWindow());
      if o.None? then
        s' == s && (s.NothingToSend() || Saves(s))
      else
        && |o.value.payload| <= MAX_PAYLOAD_SIZE && s'.input.Valid()
        && (o.value.fin ==> s'.NothingToSend())
        && (|o.value.payload| < MAX_PAYLOAD_SIZE ==> s'.NothingToSend() || s'.inFlight == s.EffectiveWindow())
        && (|o.value.payload| < MAX_PAYLOAD_SIZE && 0 < s.window && s.cwnd < s.window ==> s'.input.Buffered() == 0)
  {
    hide Sender.Timed, Sender.Carries, Tiles;
  }

  lemma NothingToFill(s: Sender)
    requires s.Valid() && s.NothingToSend() && s.inFlight < s.EffectiveWindow()
    ensures s.Fill(s.EffectiveWindow()).1.None?
  {
    hide Sender.Timed, Sender.Carries, Tiles;
  }

  /** All segments but the last are full, and none is more than full. */
  ghost predicate WellCut(segments: seq<Segment>) {
    forall k | 0 <= k < |segments| ::
      |segments[k].payload| <= MAX_PAYLOAD_SIZE && (k < |segments| - 1 ==> |segments[k].payload| == MAX_PAYLOAD_SIZE)
  }

  /** From `s`, having transmitted `sent`, to `s'`, having transmitted `sent'` in all: what is added in the
      queue is what was transmitted, it continues the numbers, it is cut into full segments, it carries
      RST exactly after an error, and no more of it is possible. Where the congestion window is the
      smaller one, a segment that is not full takes all the bytes there are. */
  ghost predicate Transmits(s: Sender, sent: seq<Segment>, s': Sender, sent': seq<Segment>) {
    && s'.input.Valid() && s.outstanding <= s'.outstanding
    && var added := s'.outstanding[|s.outstanding|..];
    && sent' == sent + added && Tiles(added, s.next, s'.next) && WellCut(added)
    && (forall g | g in added :: g.rst <==> s.input.error)
    && (0 < s.window && s.cwnd < s.window ==>
          forall g | g in added && |g.payload| < MAX_PAYLOAD_SIZE :: s'.input.Buffered() == 0)
    && (Full(s') || s'.NothingToSend() || Saves(s'))
  }

  lemma NothingTransmitted(s: Sender, sent: seq<Segment>)
    requires s.input.Valid() && (Full(s) || s.NothingToSend() || Saves(s))
    ensures Transmits(s, sent, s, sent)
  {
    assert sent + [] == sent;
  }

  /** Where nothing is left to send, or a window is used up, the filling loop ends. */
  lemma FillEnds(s: Sender, sent: seq<Segment>)
    requires s.Valid() && (s.NothingToSend() || s.EffectiveWindow() <= s.inFlight)
    ensures s.FillAll(s.EffectiveWindow(), sent) == (s, sent)
  {
    if s.inFlight < s.EffectiveWindow() {
      NothingToFill(s);
      FillIsGreedy(s);
    }
    hide Sender.Fill, Sender.Valid, Sender.NothingToSend;
  }

  /** One segment, and then what the rest of the loop transmits. */
  lemma OneMoreTransmitted(s: Sender, sent: seq<Segment>, s1: Sender, g: Segment, s': Sender, sent': seq<Segment>)
    requires Transmits(s1, sent + [g], s', sent')
    requires s1.outstanding == s.outstanding + [g] && s1.input.error == s.input.error
    requires g.start == s.next && g.Length() > 0 && s1.next == g.End() && g.rst == s.input.error
    requires |g.payload| <= MAX_PAYLOAD_SIZE && (|g.payload| < MAX_PAYLOAD_SIZE ==> s' == s1)
    requires s1.window == s.window && s1.cwnd == s.cwnd && s1.input.Valid()
    requires |g.payload| < MAX_PAYLOAD_SIZE && 0 < s.window && s.cwnd < s.window ==> s1.input.Buffered() == 0
    ensures Transmits(s, sent, s', sent')
  {
    var rest, added := s'.outstanding[|s1.outstanding|..], s'.outstanding[|s.outstanding|..];
    assert added == [g] + rest && added[1..] == rest;
    Associative(sent, [g], rest);
    hide Saves, Full, Sender.NothingToSend;
    assert WellCut(added) by {
      assert forall k | 0 < k < |added| :: added[k] == rest[k - 1];
    }
  }

  lemma {:induction false} FillAllTransmits(s: Sender, sent: seq<Segment>)
    requires s.Valid()
    ensures var (s', sent') := s.FillAll(s.EffectiveWindow(), sent); Transmits(s, sent, s', sent')
    decreases s.EffectiveWindow() - s.inFlight
  {
    var limit := s.EffectiveWindow();
    if limit <= s.inFlight {
      NothingTransmitted(s, sent);
    } else {
      FillIsGreedy(s);
      FillKeeps(s);
      FillSends(s);
      FillComposes(s);
      FillAllTurns(s, limit, sent);
      var (s1, o) := s.Fill(limit);
      hide Sender.Fill, Sender.FillAll;
      if o.None? {
        NothingTransmitted(s, sent);
      } else {
        var g := o.value;
        assert s1.EffectiveWindow() == limit && g.rst == s.input.error == s1.input.error;
        hide Sender.Valid, Sender.Track, Sender.NothingToSend, Sender.EffectiveWindow, Sender.Carries, Extends;
        hide Transmits;
        if g.fin {
          NothingTransmitted(s1, sent + [g]);
          OneMoreTransmitted(s, sent, s1, g, s1, sent + [g]);
        } else {
          FillAllTransmits(s1, sent + [g]);
          var (s', sent') := s1.FillAll(limit, sent + [g]);
          if |g.payload| < MAX_PAYLOAD_SIZE {
            FillEnds(s1, sent + [g]);
          }
          OneMoreTransmitted(s, sent, s1, g, s', sent');
        }
      }
    }
  }

  /** Section 3.8.6 of RFC 9293: a push resends the oldest segment if a fast retransmit is pending, and
      then transmits what it queues: consecutive segments, all but the last of them full, as many as
      there is anything to send and both windows allow. It saves less than a segment at the edge of
      the congestion window only, if there are more bytes than fit. */
  lemma PushTransmits(s: Sender)
    requires s.Valid()
    ensures
      var (s', sent) := s.Push();
      Transmits(s, if s.fastPending && s.outstanding != [] then [s.outstanding[0]] else [], s', sent)
  {
    var again := if s.fastPending && s.outstanding != [] then [s.outstanding[0]] else [];
    var s1 := s.(fastPending := false);
    assert s1.Valid() && s1.EffectiveWindow() == s.EffectiveWindow() by {
      assert forall g | g in s.outstanding :: s.Carries(g) ==> s1.Carries(g);
    }
    FillAllTransmits(s1, again);
    hide Sender.FillAll, Sender.Valid, Sender.NothingToSend, Saves, Full, WellCut, Sender.EffectiveWindow;
  }

  /** Section 3.8.6.1 of RFC 9293: into a closed window goes one number at a time, and only if nothing
      else is in flight and there is something to send. */
  lemma ClosedWindowIsProbed(s: Sender)
    requires s.Valid() && s.window == 0
    ensures
      var (s', sent) := s.Push();
      if s.inFlight > 0 || s.NothingToSend() then
        s'.next == s.next && sent == if s.fastPending && s.outstanding != [] then [s.outstanding[0]] else []
      else
        |sent| == 1 && sent[0].start == s.next && sent[0].Length() == 1 && s'.next == s.next + 1
  {
    PushTransmits(s);
    PushObeysBothWindows(s);
    PushKeeps(s);
    EmptyQueue(s);
    var (s', sent) := s.Push();
    var added := s'.outstanding[|s.outstanding|..];
    var again := if s.fastPending && s.outstanding != [] then [s.outstanding[0]] else [];
    assert sent == again + added;
    assert s'.next <= s.next + 1 && (s.inFlight > 0 ==> s'.next == s.next);
    NothingSentNothingNew(s, s');
    AtMostOne(added, s.next, s'.next);
    hide Sender.Push, Sender.Valid, WellCut, Transmits, Tiles, Sender.NothingToSend;
    assert again + [] == again;
  }

  lemma AtMostOne(q: seq<Segment>, from: nat, to: nat)
    requires Tiles(q, from, to) && to <= from + 1
    ensures if to == from then q == [] else |q| == 1 && q[0].start == from && q[0].Length() == 1
  {
    TilesAreOrdered(q, from, to);
    if q != [] {
      TilesAreOrdered(q[1..], q[0].End(), to);
    }
  }

  /** The numbers tell what has been taken from the stream. */
  lemma NothingSentNothingNew(s: Sender, s': Sender)
    requires s.Numbered() && s'.Numbered() && Extends(s, s')
    requires s'.input == s.input.(popped := s'.input.popped)
    ensures s.NothingToSend() ==> s'.next == s.next
    ensures s'.NothingToSend() && s'.next == s.next ==> s.NothingToSend()
  {
  }
}
