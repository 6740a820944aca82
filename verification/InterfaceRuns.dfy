/** Whole runs of a NetworkInterface: nothing is lost silently, reordered, or sent astray. */
module InterfaceRuns {
  import opened Common
  import opened InterfaceModel

  datatype Event = Sending(d: Datagram, hop: u32) | Receiving(f: Frame) | Ticking(ms: nat)

  function Step(i: Interface, e: Event): (Interface, seq<Frame>) {
    match e
    case Sending(d, hop) => i.Send(d, hop)
    case Receiving(f) => i.Receive(f)
    case Ticking(ms) => (i.Tick(ms), [])
  }

  /** The state after a run; the last event comes last. */
  function After(i: Interface, events: seq<Event>): (r: Interface)
    requires i.Valid()
    ensures r.Valid() && r.mac == i.mac && r.ip == i.ip
  {
    if events == [] then i
    else
      var before := After(i, events[..|events| - 1]);
      StepKeeps(before, events[|events| - 1]);
      Step(before, events[|events| - 1]).0
  }

  lemma StepKeeps(i: Interface, e: Event)
    requires i.Valid()
    ensures Step(i, e).0.Valid() && i.now <= Step(i, e).0.now
    ensures Step(i, e).0.mac == i.mac && Step(i, e).0.ip == i.ip
  {
    match e
    case Sending(d, hop) => SendKeeps(i, d, hop);
    case Receiving(f) => ReceiveKeeps(i, f);
    case Ticking(ms) => TickKeeps(i, ms);
  }

  /** The datagrams handed over for the next hop `hop`, in order. */
  function Accepted(events: seq<Event>, hop: u32): seq<Datagram> {
    if events == [] then []
    else
      var e := events[|events| - 1];
      Accepted(events[..|events| - 1], hop) + AcceptedBy(e, hop)
  }

  /** The event is about the next hop `hop`: it sends there, or is an ARP message from there. */
  predicate Concerns(i: Interface, e: Event, hop: u32) {
    match e
    case Sending(_, h) => h == hop
    case Receiving(f) => (f.dst == i.mac || f.dst == BROADCAST) && f.content.ARP? && f.content.arp.senderIp == hop
    case Ticking(_) => false
  }

  function Datagrams(frames: seq<Frame>): seq<Datagram> {
    if frames == [] then []
    else (if frames[0].content.IPv4? then [frames[0].content.datagram] else []) + Datagrams(frames[1..])
  }

  /** The datagrams put on the wire for the next hop `hop`, in order. */
  function Transmitted(i: Interface, events: seq<Event>, hop: u32): seq<Datagram>
    requires i.Valid()
  {
    if events == [] then []
    else
      var rest, e := events[..|events| - 1], events[|events| - 1];
      var before := After(i, rest);
      Transmitted(i, rest, hop) + TransmittedBy(before, e, hop)
  }

  /** What became of a datagram; a dropped one names the event that dropped it, by its position. */
  datatype Fate = Sent | Dropped(at: nat) | Waits

  function With(ledger: seq<(Datagram, Fate)>, fate: Fate): seq<Datagram> {
    if ledger == [] then []
    else With(ledger[..|ledger| - 1], fate) + if ledger[|ledger| - 1].1 == fate then [ledger[|ledger| - 1].0] else []
  }

  function Entries(ledger: seq<(Datagram, Fate)>): seq<Datagram> {
    if ledger == [] then [] else Entries(ledger[..|ledger| - 1]) + [ledger[|ledger| - 1].0]
  }

  /** Every datagram accepted for a hop has exactly one fate; read in order of acceptance, the sent
      ones are what went over the wire and the waiting ones are the queue. Nothing that still waits
      was accepted before anything sent. */
  ghost predicate Accounts(ledger: seq<(Datagram, Fate)>, accepted: seq<Datagram>,
                           transmitted: seq<Datagram>, waiting: seq<Datagram>)
  {
    && Entries(ledger) == accepted
    && With(ledger, Sent) == transmitted
    && With(ledger, Waits) == waiting
    && forall j, k | 0 <= j < k < |ledger| :: ledger[j].1 == Waits ==> ledger[k].1 != Sent
  }

  /** Give every waiting entry the fate `fate`. */
  function Settle(ledger: seq<(Datagram, Fate)>, fate: Fate): (r: seq<(Datagram, Fate)>)
    ensures |r| == |ledger|
    ensures forall k | 0 <= k < |r| :: r[k] == (ledger[k].0, if ledger[k].1 == Waits then fate else ledger[k].1)
  {
    seq(|ledger|, k requires 0 <= k < |ledger| => (ledger[k].0, if ledger[k].1 == Waits then fate else ledger[k].1))
  }

  lemma {:induction false} SettleColumns(ledger: seq<(Datagram, Fate)>, fate: Fate)
    requires fate != Waits
    ensures Entries(Settle(ledger, fate)) == Entries(ledger) && With(Settle(ledger, fate), Waits) == []
    ensures fate != Sent ==> With(Settle(ledger, fate), Sent) == With(ledger, Sent)
  {
    if ledger != [] {
      var rest := ledger[..|ledger| - 1];
      SettleColumns(rest, fate);
      assert Settle(ledger, fate)[..|ledger| - 1] == Settle(rest, fate);
    }
  }

  /** Sending all that waits keeps the order, because nothing sent was accepted after it. */
  lemma {:induction false} SettleSends(ledger: seq<(Datagram, Fate)>)
    requires forall j, k | 0 <= j < k < |ledger| :: ledger[j].1 == Waits ==> ledger[k].1 != Sent
    ensures With(Settle(ledger, Sent), Sent) == With(ledger, Sent) + With(ledger, Waits)
  {
    if ledger != [] {
      var rest, last := ledger[..|ledger| - 1], ledger[|ledger| - 1];
      SettleSends(rest);
      assert Settle(ledger, Sent)[..|ledger| - 1] == Settle(rest, Sent);
      if last.1 == Sent {
        NoneWaits(rest);
      }
    }
  }

  lemma {:induction false} NoneWaits(ledger: seq<(Datagram, Fate)>)
    requires forall j | 0 <= j < |ledger| :: ledger[j].1 != Waits
    ensures With(ledger, Waits) == []
  {
    if ledger != [] {
      NoneWaits(ledger[..|ledger| - 1]);
    }
  }

  /** A send to `hop` that finds the request for it expired: the only event that drops. */
  predicate Expires(i: Interface, e: Event, hop: u32) {
    e.Sending? && e.hop == hop && hop !in i.cache && hop in i.requested && i.now >= i.requested[hop]
  }

  function AcceptedBy(e: Event, hop: u32): seq<Datagram> {
    if e.Sending? && e.hop == hop then [e.d] else []
  }

  function TransmittedBy(i: Interface, e: Event, hop: u32): seq<Datagram> {
    if Concerns(i, e, hop) then Datagrams(Step(i, e).1) else []
  }

  lemma {:induction false} DatagramsOf(i: Interface, to: Mac, ds: seq<Datagram>, tail: seq<Frame>)
    ensures Datagrams(i.EncapsulateAll(to, ds) + tail) == ds + Datagrams(tail)
  {
    var all := i.EncapsulateAll(to, ds) + tail;
    if ds == [] {
      assert all == tail;
    } else {
      DatagramsOf(i, to, ds[1..], tail);
      assert all[0] == i.Encapsulated(to, ds[0]) && all[1..] == i.EncapsulateAll(to, ds[1..]) + tail;
      Associative([ds[0]], ds[1..], Datagrams(tail));
      assert [ds[0]] + ds[1..] == ds;
    }
  }

  /** One event, one hop: what waited before and what is newly accepted is afterwards on the wire or
      waits, in that order. Only an expired request loses what waited for it, and keeps the new. */
  lemma NothingLost(i: Interface, e: Event, hop: u32)
    requires i.Valid()
    ensures
      var i' := Step(i, e).0;
      if Expires(i, e, hop) then
        TransmittedBy(i, e, hop) == [] && i'.Waiting(hop) == AcceptedBy(e, hop)
      else
        && TransmittedBy(i, e, hop) + i'.Waiting(hop) == i.Waiting(hop) + AcceptedBy(e, hop)
        && (TransmittedBy(i, e, hop) == [] || i'.Waiting(hop) == [])
  {
    var w, w' := i.Waiting(hop), Step(i, e).0.Waiting(hop);
    assert w + [] == w && [] + w' == w' && w' + [] == w';
    match e
    case Sending(d, h) =>
      assert [] + [d] == [d] == [d] + [];
      assert hop in i.cache ==> hop !in i.pending by { assert hop in i.cache.Keys ==> hop !in i.pending.Keys; }
      assert hop in i.pending ==> hop in i.requested by { assert hop in i.pending.Keys ==> hop in i.requested.Keys; }
      var frames := i.Send(d, h).1;
      if frames != [] {
        assert frames[1..] == [] && Datagrams(frames[1..]) == [];
        assert Datagrams(frames) == if h in i.cache then [d] else [];
      }
    case Receiving(f) =>
      if Concerns(i, e, hop) {
        var a := f.content.arp;
        var tail := if a.request && a.targetIp == i.ip then [i.ReplyTo(a)] else [];
        assert Datagrams(tail) == [] by { if tail != [] { assert tail[1..] == []; } }
        DatagramsOf(i, a.senderMac, i.Waiting(hop), tail);
      }
    case Ticking(ms) =>
  }

  lemma {:induction false} NoneWaitsIn(ledger: seq<(Datagram, Fate)>)
    requires With(ledger, Waits) == []
    ensures forall k | 0 <= k < |ledger| :: ledger[k].1 != Waits
  {
    if ledger != [] {
      NoneWaitsIn(ledger[..|ledger| - 1]);
    }
  }

  lemma Append(ledger: seq<(Datagram, Fate)>, d: Datagram, fate: Fate)
    ensures
      var r := ledger + [(d, fate)];
      && Entries(r) == Entries(ledger) + [d]
      && forall f :: With(r, f) == With(ledger, f) + if f == fate then [d] else []
  {
    assert (ledger + [(d, fate)])[..|ledger|] == ledger;
  }

  /** Every dropped entry was accepted before the event that dropped it, a send to the same hop that
      found the request for it expired. */
  ghost predicate DropsExplained(i: Interface, events: seq<Event>, hop: u32, ledger: seq<(Datagram, Fate)>)
    requires i.Valid()
  {
    forall k | 0 <= k < |ledger| && ledger[k].1.Dropped? :: DropExplained(i, events, hop, k, ledger[k].1.at)
  }

  ghost predicate DropExplained(i: Interface, events: seq<Event>, hop: u32, k: nat, at: nat)
    requires i.Valid()
  {
    at < |events| && Expires(After(i, events[..at]), events[at], hop) && k < |Accepted(events[..at], hop)|
  }

  /** Conservation and order over whole runs: for every next hop there is a ledger that accounts for
      every datagram ever handed over, and for every loss. */
  lemma {:induction false} EveryDatagramAccounted(mac: Mac, ip: u32, events: seq<Event>, hop: u32)
    returns (ledger: seq<(Datagram, Fate)>)
    ensures
      var i := NewInterface(mac, ip);
      && Accounts(ledger, Accepted(events, hop), Transmitted(i, events, hop), After(i, events).Waiting(hop))
      && DropsExplained(i, events, hop, ledger)
  {
    var i := NewInterface(mac, ip);
    if events == [] {
      ledger := [];
    } else {
      var n := |events| - 1;
      var rest, e := events[..n], events[n];
      var before := After(i, rest);
      var sofar := EveryDatagramAccounted(mac, ip, rest, hop);
      StepKeeps(before, e);
      NothingLost(before, e, hop);
      ledger := LedgerStep(before, e, hop, sofar, Accepted(rest, hop), Transmitted(i, rest, hop), n);
      LedgerLength(sofar);
      ExplainedStep(i, events, hop, sofar, ledger);
    }
  }

  lemma ExplainedStep(i: Interface, events: seq<Event>, hop: u32,
                      sofar: seq<(Datagram, Fate)>, ledger: seq<(Datagram, Fate)>)
    requires i.Valid() && events != []
    requires
      var n := |events| - 1;
      && DropsExplained(i, events[..n], hop, sofar)
      && |sofar| == |Accepted(events[..n], hop)|
      && OnlyDrops(sofar, ledger, Expires(After(i, events[..n]), events[n], hop), n)
    ensures DropsExplained(i, events, hop, ledger)
  {
    var n := |events| - 1;
    hide After, Accepted, Expires;
    forall k | 0 <= k < |ledger| && ledger[k].1.Dropped?
      ensures DropExplained(i, events, hop, k, ledger[k].1.at)
    {
      var at := ledger[k].1.at;
      if at != n || !Expires(After(i, events[..n]), events[n], hop) {
        assert DropExplained(i, events[..n], hop, k, at);
        assert events[..n][..at] == events[..at];
      }
    }
  }

  /** From `sofar` to `ledger` entries become dropped at `n` only, and only if something expires. */
  ghost predicate OnlyDrops(sofar: seq<(Datagram, Fate)>, ledger: seq<(Datagram, Fate)>, expires: bool, n: nat) {
    && |sofar| <= |ledger|
    && forall k | 0 <= k < |ledger| && ledger[k].1.Dropped? ::
         k < |sofar| && (sofar[k].1 == ledger[k].1 || (expires && ledger[k].1.at == n))
  }

  /** How many datagrams expired requests have cost. */
  function Losses(i: Interface, events: seq<Event>, hop: u32): nat
    requires i.Valid()
  {
    if events == [] then 0
    else
      var rest, e := events[..|events| - 1], events[|events| - 1];
      var before := After(i, rest);
      Losses(i, rest, hop) + if Expires(before, e, hop) then |before.Waiting(hop)| else 0
  }

  /** Nobody waits when a request is found expired. */
  ghost predicate ExpiresIdly(i: Interface, events: seq<Event>, hop: u32)
    requires i.Valid()
  {
    forall at | 0 <= at < |events| :: IdleAt(i, events, hop, at)
  }

  predicate IdleAt(i: Interface, events: seq<Event>, hop: u32, at: nat)
    requires i.Valid() && at < |events|
  {
    Expires(After(i, events[..at]), events[at], hop) ==> After(i, events[..at]).Waiting(hop) == []
  }

  /** Everything accepted is sent or waits, in the order of acceptance, exactly if nobody waits whenever
      a request is found expired. */
  lemma NothingIsLostUnlessExpired(mac: Mac, ip: u32, events: seq<Event>, hop: u32)
    ensures
      var i := NewInterface(mac, ip);
      Transmitted(i, events, hop) + After(i, events).Waiting(hop) == Accepted(events, hop)
      <==> ExpiresIdly(i, events, hop)
  {
    var i := NewInterface(mac, ip);
    LossesCounted(mac, ip, events, hop);
    LossesMeanWaiting(i, events, hop);
    hide After, Transmitted, Accepted, Losses, ExpiresIdly, Interface.Waiting;
  }

  lemma {:induction false} LossesCounted(mac: Mac, ip: u32, events: seq<Event>, hop: u32)
    ensures
      var i := NewInterface(mac, ip);
      var sent, waits := Transmitted(i, events, hop), After(i, events).Waiting(hop);
      && |sent| + |waits| + Losses(i, events, hop) == |Accepted(events, hop)|
      && (Losses(i, events, hop) == 0 ==> sent + waits == Accepted(events, hop))
  {
    var i := NewInterface(mac, ip);
    if events != [] {
      var rest, e := events[..|events| - 1], events[|events| - 1];
      var before := After(i, rest);
      LossesCounted(mac, ip, rest, hop);
      StepKeeps(before, e);
      NothingLost(before, e, hop);
      LossStep(Transmitted(i, rest, hop), before.Waiting(hop), Accepted(rest, hop), TransmittedBy(before, e, hop),
               Step(before, e).0.Waiting(hop), AcceptedBy(e, hop), Losses(i, rest, hop), Expires(before, e, hop));
      hide Step, Expires, AcceptedBy, TransmittedBy, Interface.Waiting;
    }
  }

  /** One event's part in that count, `w` being what waited before and `w'` what waits after. */
  lemma LossStep(sent: seq<Datagram>, w: seq<Datagram>, accepted: seq<Datagram>,
                 sentNow: seq<Datagram>, w': seq<Datagram>, added: seq<Datagram>, losses: nat, expires: bool)
    requires |sent| + |w| + losses == |accepted| && (losses == 0 ==> sent + w == accepted)
    requires if expires then sentNow == [] && w' == added else sentNow + w' == w + added
    ensures |sent + sentNow| + |w'| + losses + (if expires then |w| else 0) == |accepted + added|
    ensures losses + (if expires then |w| else 0) == 0 ==> (sent + sentNow) + w' == accepted + added
  {
    Associative(sent, sentNow, w');
    Associative(sent, w, added);
    assert !expires ==> |sentNow| + |w'| == |sentNow + w'| == |w| + |added|;
    if expires && w == [] {
      assert sent + [] == sent;
    }
  }

  lemma {:induction false} LossesMeanWaiting(i: Interface, events: seq<Event>, hop: u32)
    requires i.Valid()
    ensures Losses(i, events, hop) == 0 <==> ExpiresIdly(i, events, hop)
  {
    if events != [] {
      var n := |events| - 1;
      LossesMeanWaiting(i, events[..n], hop);
      IdlyStep(i, events, hop);
      assert events[n..] == [events[n]];
      hide After, Expires, Interface.Waiting, ExpiresIdly;
    }
  }

  lemma IdlyStep(i: Interface, events: seq<Event>, hop: u32)
    requires i.Valid() && events != []
    ensures
      var n := |events| - 1;
      ExpiresIdly(i, events, hop) <==> ExpiresIdly(i, events[..n], hop) && IdleAt(i, events, hop, n)
  {
    var n := |events| - 1;
    forall at: nat | at < n
      ensures IdleAt(i, events[..n], hop, at) <==> IdleAt(i, events, hop, at)
    {
      assert events[..n][..at] == events[..at] && events[..n][at] == events[at];
    }
    hide IdleAt;
  }

  /** What one more event adds to a run. */
  lemma OneMore(i: Interface, rest: seq<Event>, e: Event, hop: u32)
    requires i.Valid()
    ensures
      var events, before := rest + [e], After(i, rest);
      && After(i, events) == Step(before, e).0
      && Accepted(events, hop) == Accepted(rest, hop) + AcceptedBy(e, hop)
      && Transmitted(i, events, hop) == Transmitted(i, rest, hop) + TransmittedBy(before, e, hop)
  {
    var events := rest + [e];
    assert events[..|events| - 1] == rest && events[|events| - 1] == e;
    hide Step, AcceptedBy, TransmittedBy;
  }

  /** Losses happen: whoever is not answered within 5000 ms loses what waits by sending again. */
  lemma SecondSendDrops(mac: Mac, ip: u32, hop: u32, d: Datagram, d2: Datagram)
    ensures
      var i, events := NewInterface(mac, ip), [Sending(d, hop), Ticking(REQUEST_THROTTLE), Sending(d2, hop)];
      && Accepted(events, hop) == [d, d2]
      && Transmitted(i, events, hop) == [] && After(i, events).Waiting(hop) == [d2]
  {
    var i := NewInterface(mac, ip);
    var e0, e1, e2 := Sending(d, hop), Ticking(REQUEST_THROTTLE), Sending(d2, hop);
    hide Step, Interface.Waiting, After, Accepted, Transmitted, TransmittedBy, Expires, Interface.Valid, NewInterface;
    OneMore(i, [], e0, hop);
    OneMore(i, [e0], e1, hop);
    OneMore(i, [e0, e1], e2, hop);
    ThreeStates(mac, ip, hop, d, d2);
    NoEvents(i, hop);
    assert [] + [e0] == [e0] && [e0] + [e1] == [e0, e1] && [e0, e1] + [e2] == [e0, e1, e2];
    var none: seq<Datagram> := [];
    assert none + none == none && none + [d] == [d] && [d] + none == [d] && [d] + [d2] == [d, d2];
  }

  lemma NoEvents(i: Interface, hop: u32)
    requires i.Valid()
    ensures After(i, []) == i && Accepted([], hop) == [] && Transmitted(i, [], hop) == []
  {
  }

  /** The states of that run. */
  lemma ThreeStates(mac: Mac, ip: u32, hop: u32, d: Datagram, d2: Datagram)
    ensures
      var i := NewInterface(mac, ip);
      var e0, e1, e2 := Sending(d, hop), Ticking(REQUEST_THROTTLE), Sending(d2, hop);
      var i1 := Step(i, e0).0;
      var i2 := Step(i1, e1).0;
      && i.Valid() && TransmittedBy(i, e0, hop) == [] && TransmittedBy(i1, e1, hop) == []
      && TransmittedBy(i2, e2, hop) == [] && Step(i2, e2).0.Waiting(hop) == [d2]
  {
    var i := NewInterface(mac, ip);
    var e0, e1, e2 := Sending(d, hop), Ticking(REQUEST_THROTTLE), Sending(d2, hop);
    var i1 := Step(i, e0).0;
    var i2 := Step(i1, e1).0;
    FirstSendWaits(i, e0, hop);
    StepKeeps(i, e0);
    StepKeeps(i1, e1);
    assert Expires(i2, e2, hop);
    NothingLost(i2, e2, hop);
    hide Step, Interface.Waiting, Interface.Valid, Expires;
  }

  lemma FirstSendWaits(i: Interface, e: Event, hop: u32)
    requires i.Valid() && e.Sending? && e.hop == hop && i.cache == map[] && hop !in i.requested
    ensures TransmittedBy(i, e, hop) == [] && Step(i, e).0.Waiting(hop) == [e.d]
  {
    var frames := i.Send(e.d, hop).1;
    assert frames[1..] == [] && Datagrams(frames[1..]) == [];
    assert i.Waiting(hop) == [] by { assert hop in i.pending ==> hop in i.pending.Keys; }
  }

  lemma {:induction false} LedgerLength(ledger: seq<(Datagram, Fate)>)
    ensures |Entries(ledger)| == |ledger|
  {
    if ledger != [] {
      LedgerLength(ledger[..|ledger| - 1]);
    }
  }

  /** How one event changes the ledger. */
  lemma LedgerStep(i: Interface, e: Event, hop: u32, sofar: seq<(Datagram, Fate)>,
                   accepted: seq<Datagram>, transmitted: seq<Datagram>, n: nat)
    returns (ledger: seq<(Datagram, Fate)>)
    requires i.Valid() && Accounts(sofar, accepted, transmitted, i.Waiting(hop))
    ensures Accounts(ledger, accepted + AcceptedBy(e, hop), transmitted + TransmittedBy(i, e, hop),
                     Step(i, e).0.Waiting(hop))
    ensures OnlyDrops(sofar, ledger, Expires(i, e, hop), n)
  {
    NothingLost(i, e, hop);
    var waited, added := i.Waiting(hop), AcceptedBy(e, hop);
    var sent, now := TransmittedBy(i, e, hop), Step(i, e).0.Waiting(hop);
    var expires := Expires(i, e, hop);
    hide Step, TransmittedBy, Interface.Waiting, Interface.Valid, Accounts, OnlyDrops, Expires;
    ledger := SettleStep(sofar, accepted, transmitted, waited, expires, sent != [], n);
    var fate := if !expires && sent != [] then Sent else Waits;
    var done := if fate == Sent then transmitted + waited else transmitted;
    var waits := if expires || sent != [] then [] else waited;
    ledger := AcceptAll(sofar, ledger, accepted, done, waits, added, fate, expires, n);
    if fate == Sent {
      Associative(transmitted, waited, added);
      assert sent + now == sent && waits + [] == now;
    } else if expires {
      assert done + [] == transmitted + sent && waits + added == now;
    } else {
      assert done + [] == transmitted + sent && sent + now == now;
    }
  }

  /** Enter what was newly accepted, at most one datagram, with the fate `fate`. */
  lemma AcceptAll(sofar: seq<(Datagram, Fate)>, ledger: seq<(Datagram, Fate)>, accepted: seq<Datagram>,
                  done: seq<Datagram>, waits: seq<Datagram>, added: seq<Datagram>, fate: Fate, expires: bool, n: nat)
    returns (ledger': seq<(Datagram, Fate)>)
    requires Accounts(ledger, accepted, done, waits) && OnlyDrops(sofar, ledger, expires, n)
    requires |added| <= 1 && (fate == Waits || (fate == Sent && waits == []))
    ensures Accounts(ledger', accepted + added, done + (if fate == Sent then added else []),
                     waits + (if fate == Waits then added else []))
    ensures OnlyDrops(sofar, ledger', expires, n)
  {
    hide Accounts, OnlyDrops;
    if added == [] {
      ledger' := ledger;
      assert accepted + [] == accepted && done + [] == done && waits + [] == waits;
    } else {
      assert added == [added[0]];
      AcceptOne(ledger, accepted, done, waits, added[0], fate);
      OnlyDropsAppend(sofar, ledger, expires, n, added[0], fate);
      ledger' := ledger + [(added[0], fate)];
    }
  }

  /** What an event does to those who waited: nothing, or it drops all of them, or sends all. */
  lemma SettleStep(sofar: seq<(Datagram, Fate)>, accepted: seq<Datagram>, transmitted: seq<Datagram>,
                   waited: seq<Datagram>, expires: bool, sends: bool, n: nat)
    returns (ledger: seq<(Datagram, Fate)>)
    requires Accounts(sofar, accepted, transmitted, waited)
    ensures Accounts(ledger, accepted, if !expires && sends then transmitted + waited else transmitted,
                     if expires || sends then [] else waited)
    ensures OnlyDrops(sofar, ledger, expires, n)
  {
    hide Accounts;
    if expires {
      ledger := Settle(sofar, Dropped(n));
      DropWaiting(sofar, accepted, transmitted, waited, n);
    } else if sends {
      ledger := Settle(sofar, Sent);
      SendWaiting(sofar, accepted, transmitted, waited);
    } else {
      ledger := sofar;
    }
  }

  lemma OnlyDropsAppend(sofar: seq<(Datagram, Fate)>, ledger: seq<(Datagram, Fate)>, expires: bool, n: nat,
                        d: Datagram, fate: Fate)
    requires OnlyDrops(sofar, ledger, expires, n) && !fate.Dropped?
    ensures OnlyDrops(sofar, ledger + [(d, fate)], expires, n)
  {
  }

  lemma DropWaiting(ledger: seq<(Datagram, Fate)>, accepted: seq<Datagram>, transmitted: seq<Datagram>,
                    waiting: seq<Datagram>, n: nat)
    requires Accounts(ledger, accepted, transmitted, waiting)
    ensures Accounts(Settle(ledger, Dropped(n)), accepted, transmitted, [])
  {
    SettleColumns(ledger, Dropped(n));
    hide Entries, With;
  }

  lemma SendWaiting(ledger: seq<(Datagram, Fate)>, accepted: seq<Datagram>, transmitted: seq<Datagram>,
                    waiting: seq<Datagram>)
    requires Accounts(ledger, accepted, transmitted, waiting)
    ensures Accounts(Settle(ledger, Sent), accepted, transmitted + waiting, [])
  {
    SettleColumns(ledger, Sent);
    SettleSends(ledger);
    hide Entries, With;
  }

  /** A newly accepted datagram is sent only when nothing waits. */
  lemma AcceptOne(ledger: seq<(Datagram, Fate)>, accepted: seq<Datagram>, transmitted: seq<Datagram>,
                  waiting: seq<Datagram>, d: Datagram, fate: Fate)
    requires Accounts(ledger, accepted, transmitted, waiting)
    requires fate == Waits || (fate == Sent && waiting == [])
    ensures Accounts(ledger + [(d, fate)], accepted + [d],
                     transmitted + (if fate == Sent then [d] else []), waiting + (if fate == Waits then [d] else []))
  {
    Append(ledger, d, fate);
    if fate == Sent {
      NoneWaitsIn(ledger);
    }
    hide Entries, With;
  }

  /** The times at which the hardware address of `hop` was asked for. */
  function RequestTimes(i: Interface, events: seq<Event>, hop: u32): seq<nat>
    requires i.Valid()
  {
    if events == [] then []
    else
      var rest, e := events[..|events| - 1], events[|events| - 1];
      var before := After(i, rest);
      RequestTimes(i, rest, hop) + if before.Request(hop) in Step(before, e).1 then [before.now] else []
  }

  predicate Spaced(times: seq<nat>) {
    forall k | 0 < k < |times| :: times[k - 1] + REQUEST_THROTTLE <= times[k]
  }

  lemma SpacedAppend(times: seq<nat>, t: nat)
    requires Spaced(times) && (times != [] ==> times[|times| - 1] + REQUEST_THROTTLE <= t)
    ensures Spaced(times + [t])
  {
  }

  /** RFC 826 traffic is throttled: two requests for one address are 5000 ms apart at least. */
  lemma {:induction false} RequestsAreSpaced(mac: Mac, ip: u32, events: seq<Event>, hop: u32)
    ensures
      var i := NewInterface(mac, ip);
      var times := RequestTimes(i, events, hop);
      && Spaced(times)
      && (if times == [] then hop !in After(i, events).requested
          else hop in After(i, events).requested
               && After(i, events).requested[hop] == times[|times| - 1] + REQUEST_THROTTLE)
  {
    var i := NewInterface(mac, ip);
    if events != [] {
      var rest, e := events[..|events| - 1], events[|events| - 1];
      RequestsAreSpaced(mac, ip, rest, hop);
      var before := After(i, rest);
      StepKeeps(before, e);
      RequestStep(before, e, hop);
      assert After(i, events) == Step(before, e).0;
      var earlier := RequestTimes(i, rest, hop);
      assert RequestTimes(i, events, hop) ==
             earlier + if before.Request(hop) in Step(before, e).1 then [before.now] else [];
      hide Step, After, RequestTimes, Interface.Valid, Interface.Request, Spaced;
      if before.Request(hop) in Step(before, e).1 {
        SpacedAppend(earlier, before.now);
      } else {
        assert earlier + [] == earlier;
      }
    }
  }

  /** A request goes out exactly when it may, and then the clock for the next one starts. */
  lemma RequestStep(i: Interface, e: Event, hop: u32)
    requires i.Valid()
    ensures
      var (i', frames) := Step(i, e);
      if i.Request(hop) in frames then
        i.MayRequest(hop) && i'.requested == i.requested[hop := i.now + REQUEST_THROTTLE]
      else
        (hop in i'.requested <==> hop in i.requested) && (hop in i.requested ==> i'.requested[hop] == i.requested[hop])
  {
  }

  /** The latest ARP message from `hop` that reached the interface: its address and its time. */
  function LastHeard(i: Interface, events: seq<Event>, hop: u32): Option<(Mac, nat)>
    requires i.Valid()
  {
    if events == [] then None
    else
      var rest, e := events[..|events| - 1], events[|events| - 1];
      var before := After(i, rest);
      if Concerns(before, e, hop) && e.Receiving? then Some((e.f.content.arp.senderMac, before.now))
      else LastHeard(i, rest, hop)
  }

  /** The cache holds the latest mapping heard, exactly while it is younger than 30000 ms. */
  lemma {:induction false} CacheIsLatest(mac: Mac, ip: u32, events: seq<Event>, hop: u32)
    ensures
      var i := NewInterface(mac, ip);
      var heard, r := LastHeard(i, events, hop), After(i, events);
      && (hop in r.cache <==> heard.Some? && r.now < heard.value.1 + MAPPING_TTL)
      && (hop in r.cache ==> r.cache[hop] == Mapping(heard.value.0, heard.value.1 + MAPPING_TTL))
  {
    if events != [] {
      var rest, e := events[..|events| - 1], events[|events| - 1];
      CacheIsLatest(mac, ip, rest, hop);
      var before := After(NewInterface(mac, ip), rest);
      CacheStep(before, e, hop);
      hide Step, Concerns;
    }
  }

  lemma CacheStep(i: Interface, e: Event, hop: u32)
    requires i.Valid()
    ensures
      var i' := Step(i, e).0;
      if Concerns(i, e, hop) && e.Receiving? then
        && i'.now == i.now && hop in i'.cache
        && i'.cache[hop] == Mapping(e.f.content.arp.senderMac, i.now + MAPPING_TTL)
      else
        && i.now <= i'.now
        && (hop in i'.cache <==> hop in i.cache && i'.now < i.cache[hop].expires)
        && (hop in i'.cache ==> i'.cache[hop] == i.cache[hop])
  {
  }

  /** Every IPv4 frame for a next hop goes to the address in the latest ARP message from that hop,
      which is less than 30000 ms old. */
  lemma FramesGoToLatest(mac: Mac, ip: u32, events: seq<Event>, hop: u32)
    requires events != []
    ensures
      var i := NewInterface(mac, ip);
      var before, e := After(i, events[..|events| - 1]), events[|events| - 1];
      var heard := LastHeard(i, events, hop);
      Concerns(before, e, hop) ==>
        forall f | f in Step(before, e).1 && f.content.IPv4? ::
          && heard.Some? && f.dst == heard.value.0 && before.now < heard.value.1 + MAPPING_TTL
          && f.src == mac
  {
    CacheIsLatest(mac, ip, events[..|events| - 1], hop);
  }
}
