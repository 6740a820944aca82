/** What the TCPSender does, with absolute sequence numbers in place of 32-bit ones. */
module SenderModel {
  import opened Common
  import opened WrappingIntegers
  import opened Messages
  import opened ByteStreams

  /** A segment with the absolute number of its first sequence number. */
  datatype Segment = Segment(start: nat, syn: bool, payload: seq<byte>, fin: bool, rst: bool) {

    function Length(): nat {
      (if syn then 1 else 0) + |payload| + (if fin then 1 else 0)
    }

    function End(): nat {
      start + Length()
    }

    /** The segment as it travels: 32 bits of its number, counted from the zero point. */
    function Wire(isn: Wrap32): SenderMessage {
      SenderMessage(Wrap(start, isn), syn, payload, fin, rst)
    }
  }

  /** `q` covers the sequence numbers from `from` to `to` without gap or overlap. */
  ghost predicate Tiles(q: seq<Segment>, from: nat, to: nat) {
    if q == [] then from == to
    else q[0].start == from && q[0].Length() > 0 && Tiles(q[1..], q[0].End(), to)
  }

  lemma {:induction false} TilesAreOrdered(q: seq<Segment>, from: nat, to: nat)
    requires Tiles(q, from, to)
    ensures from <= to && (q != [] ==> from < q[0].End() <= to)
  {
    if q != [] {
      TilesAreOrdered(q[1..], q[0].End(), to);
    }
  }

  lemma {:induction false} TilesAppend(q: seq<Segment>, from: nat, to: nat, g: Segment)
    requires Tiles(q, from, to) && g.start == to && g.Length() > 0
    ensures Tiles(q + [g], from, g.End())
  {
    if q == [] {
      assert [g][1..] == [] && q + [g] == [g];
    } else {
      TilesAppend(q[1..], q[0].End(), to, g);
      assert (q + [g])[1..] == q[1..] + [g];
    }
  }

  /** The increment for `bytes` acknowledged bytes, rounded down. */
  function Increment(bytes: nat, cwnd: nat): (d: nat)
    requires cwnd > 0
    ensures d * cwnd <= bytes * MAX_PAYLOAD_SIZE < (d + 1) * cwnd
  {
    var total := bytes * MAX_PAYLOAD_SIZE;
    assert total == (total / cwnd) * cwnd + total % cwnd;
    total / cwnd
  }

  /** Reno's congestion avoidance for `acked` bytes, one full segment at a time. */
  function Avoid(cwnd: nat, acked: nat): (c: nat)
    requires cwnd > 0
    ensures c >= cwnd
    decreases acked
  {
    if acked >= MAX_PAYLOAD_SIZE then
      Avoid(cwnd + Increment(MAX_PAYLOAD_SIZE, cwnd), acked - MAX_PAYLOAD_SIZE)
    else if acked > 0 then
      cwnd + Increment(acked, cwnd)
    else
      cwnd
  }

  /** An acknowledgement from the wire, read near the next sequence number. */
  function Absolute(ackno: Option<Wrap32>, isn: Wrap32, next: nat): Option<nat>
    requires next < TWO64
  {
    if ackno.None? then None else Some(Unwrap(ackno.value, isn, next))
  }

  datatype Sender = Sender(
    input: Stream, isn: Wrap32, initialRto: nat,
    synSent: bool, finSent: bool, ackno: nat, next: nat, window: u16,
    outstanding: seq<Segment>, inFlight: nat,
    elapsed: nat, rto: nat, retransmissions: nat, timerOn: bool,
    cwnd: nat, ssthresh: nat, duplicates: nat, fastPending: bool)
  {
    /** `g` says the truth about the stream: right bytes at the right number, FIN only at the end. */
    ghost predicate Carries(g: Segment) {
      && (g.syn <==> g.start == 0)
      && g.End() <= next
      && (g.payload != [] ==>
            var i := Index(g);
            i + |g.payload| <= input.popped <= |input.data| && g.payload == input.data[i..i + |g.payload|])
      && (g.fin ==> finSent && g.End() == next)
      && (g.rst ==> input.error)
    }

    /** The stream index of the first payload byte; SYN is number 0, the first byte number 1. */
    static function Index(g: Segment): nat
      requires g.syn <==> g.start == 0
    {
      if g.syn then 0 else g.start - 1
    }

    /** SYN, then the bytes taken from the stream, then FIN: each uses up its sequence numbers. */
    ghost predicate Numbered() {
      && input.Valid()
      && next == (if synSent then 1 else 0) + input.popped + (if finSent then 1 else 0)
      && (!synSent ==> input.popped == 0 && !finSent)
      && (finSent ==> input.closed && input.popped == |input.data|)
    }

    /** The outstanding segments tile the numbers in flight, and the oldest one holds `ackno`. */
    ghost predicate Queued() {
      && inFlight <= next && inFlight <= MAX_WINDOW
      && Tiles(outstanding, next - inFlight, next)
      && (forall g | g in outstanding :: Carries(g))
      && (if outstanding == [] then ackno == next else next - inFlight <= ackno < outstanding[0].End())
    }

    ghost predicate Timed() {
      && initialRto > 0
      && (timerOn <==> outstanding != [])
      && (!timerOn ==> elapsed == 0)
      && elapsed < rto == initialRto * Pow2(retransmissions)
    }

    ghost predicate Paced() {
      && cwnd >= MAX_PAYLOAD_SIZE
      && ssthresh >= MAX_PAYLOAD_SIZE
      && (!synSent ==> cwnd == DEFAULT_CAPACITY)
    }

    ghost predicate Valid() {
      Numbered() && Queued() && Timed() && Paced()
    }

    function EmptySegment(): Segment {
      Segment(next, false, [], false, input.error)
    }

    /** The peer's window, or one number to probe a closed one; never more than `cwnd`. */
    function EffectiveWindow(): nat {
      Min(cwnd, if window == 0 then 1 else window)
    }

    /** One turn of the filling loop, with `limit` numbers allowed in flight. */
    function Fill(limit: nat): (Sender, Option<Segment>)
      requires input.Valid() && inFlight < limit
    {
      var room := limit - inFlight - if synSent then 0 else 1;
      var view := input.Buffer();
      var len := Min(MAX_PAYLOAD_SIZE, Min(room, |view|));
      var s := this.(synSent := true);
      if len < MAX_PAYLOAD_SIZE && len < |view| && window > 0 && cwnd < window then
        (s, None)
      else
        var fin := input.closed && !finSent && room - len > 0 && len == |view|;
        var g := Segment(next, !synSent, view[..len], fin, input.error);
        if g.Length() == 0 then
          (s, None)
        else
          (s.(finSent := finSent || fin).Track(g), Some(g))
    }

    /** Bookkeeping for a transmitted segment. */
    function Track(g: Segment): Sender
      requires input.Valid() && |g.payload| <= input.Buffered()
    {
      this.(outstanding := outstanding + [g], next := next + g.Length(), inFlight := inFlight + g.Length(),
            timerOn := true, input := input.Pop(|g.payload|))
    }

    /** The filling loop; `sent` are the segments transmitted so far. */
    function FillAll(limit: nat, sent: seq<Segment>): (Sender, seq<Segment>)
      requires input.Valid()
      decreases limit - inFlight
    {
      if limit <= inFlight then
        (this, sent)
      else
        var (s, g) := Fill(limit);
        if g.None? then (s, sent)
        else if g.value.fin then (s, sent + [g.value])
        else s.FillAll(limit, sent + [g.value])
    }

    function Push(): (Sender, seq<Segment>)
      requires input.Valid()
    {
      var again := if fastPending && outstanding != [] then [outstanding[0]] else [];
      this.(fastPending := false).FillAll(EffectiveWindow(), again)
    }

    /** The window after `n - ackno` new numbers; the SYN's own acknowledgement adds nothing. */
    function Grown(n: nat): nat
      requires n > ackno && cwnd > 0
    {
      if ackno == 0 && n == 1 then cwnd
      else if cwnd < ssthresh then cwnd + (n - ackno)
      else Avoid(cwnd, n - ackno)
    }

    /** New, duplicate or old acknowledgement: retransmission state and congestion control. */
    function CountAck(n: nat): Sender
      requires cwnd > 0
    {
      if n > ackno then
        this.(rto := initialRto, retransmissions := 0, elapsed := 0, timerOn := true,
              ackno := n, duplicates := 0, cwnd := Grown(n))
      else if n == ackno && outstanding != [] then
        if duplicates + 1 == 3 then
          var half := Max(cwnd / 2, MAX_PAYLOAD_SIZE);
          this.(duplicates := 3, fastPending := true, ssthresh := half, cwnd := half + 3 * MAX_PAYLOAD_SIZE)
        else if duplicates + 1 > 3 then
          this.(duplicates := duplicates + 1, cwnd := cwnd + MAX_PAYLOAD_SIZE)
        else
          this.(duplicates := duplicates + 1)
      else
        this
    }

    /** Drop the segments that `n` acknowledges in full. */
    function Release(n: nat): Sender
      requires inFlight <= next && Tiles(outstanding, next - inFlight, next)
      decreases |outstanding|
    {
      TilesAreOrdered(outstanding, next - inFlight, next);
      if outstanding != [] && outstanding[0].End() <= n then
        this.(inFlight := inFlight - outstanding[0].Length(), outstanding := outstanding[1..]).Release(n)
      else
        this
    }

    function SettleTimer(): Sender {
      if outstanding == [] then this.(timerOn := false, elapsed := 0) else this
    }

    /** The window and the reset flag count, whatever the acknowledgement says. */
    function Note(windowSize: u16, rst: bool): (s: Sender)
      requires Queued()
      ensures s.Queued() && s.cwnd == cwnd && s.next == next
    {
      var s := this.(window := windowSize, input := if rst then input.(error := true) else input);
      assert forall g | g in outstanding :: Carries(g) ==> s.Carries(g);
      s
    }

    function Acknowledge(n: nat): Sender
      requires Queued() && cwnd > 0
    {
      CountAck(n).Release(n).SettleTimer()
    }

    /** A message from the remote receiver, its acknowledgement number made absolute. */
    function Receive(ack: Option<nat>, windowSize: u16, rst: bool): Sender
      requires Queued() && cwnd > 0
    {
      var s := Note(windowSize, rst);
      if ack.None? || ack.value > next then s else s.Acknowledge(ack.value)
    }

    /** `ms` milliseconds pass. */
    function Tick(ms: nat): (Sender, seq<Segment>)
      requires Timed()
    {
      var now := if timerOn then elapsed + ms else elapsed;
      if now < rto then
        (this.(elapsed := now), [])
      else
        var s := this.(elapsed := 0);
        (if window == 0 then s else s.BackedOff(), [outstanding[0]])
    }

    /** A timeout into an open window: double the timeout, give up after too many, else collapse
        the congestion window. */
    function BackedOff(): Sender {
      var s := this.(rto := 2 * rto, retransmissions := retransmissions + 1);
      if retransmissions + 1 > MAX_RETX_ATTEMPTS then
        s.(input := input.(error := true))
      else
        s.(ssthresh := Max(cwnd / 2, MAX_PAYLOAD_SIZE), cwnd := MAX_PAYLOAD_SIZE, duplicates := 0)
    }

    /** The application hands over bytes, and closes the stream if that was all. */
    function Write(bytes: seq<byte>, eof: bool): Sender
      requires input.Valid()
    {
      var filled := input.Push(bytes);
      this.(input := if eof then filled.(closed := true) else filled)
    }

    /** Everything written has been sent, SYN and FIN included. */
    predicate NothingToSend()
      requires input.Valid()
    {
      synSent && input.Buffered() == 0 && (input.closed ==> finSent)
    }
  }

  function NewSender(capacity: nat, isn: Wrap32, initialRto: nat): Sender {
    Sender(EmptyStream(capacity), isn, initialRto, false, false, 0, 0, 1, [], 0,
           0, initialRto, 0, false, DEFAULT_CAPACITY, TWO64 - 1, 0, false)
  }
}
