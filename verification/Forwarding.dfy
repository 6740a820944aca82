/** What routing does to the datagrams: the fate of each, and the queues drained one after the other. */
module Forwarding {
  import opened Common
  import opened RouterModel

  /** A datagram handed to an interface, for a next hop. */
  datatype Forwarded = Forwarded(interfaceNum: nat, datagram: Datagram, nextHop: u32)

  /** What becomes of one datagram: it is dropped when its time to live runs out or no route
      applies, else it leaves with one hop less to live. */
  function Forward(table: seq<RouteEntry>, d: Datagram): Option<Forwarded>
    requires Sound(table)
  {
    var best := Scan(table, d.dst);
    if d.ttl <= 1 || best.None? then None
    else Some(Forwarded(best.value.interfaceNum, d.(ttl := d.ttl - 1),
                        if best.value.nextHop.Some? then best.value.nextHop.value else d.dst))
  }

  /** Draining a queue into `interfaces` interfaces: what is sent, what is left, and whether every
      interface named by a route existed. An unknown one is an exception, which stops the draining. */
  function Drain(table: seq<RouteEntry>, queue: seq<Datagram>, interfaces: nat): (seq<Forwarded>, seq<Datagram>, bool)
    requires Sound(table)
  {
    if queue == [] then
      ([], [], true)
    else
      var f := Forward(table, queue[0]);
      if f.Some? && f.value.interfaceNum >= interfaces then
        ([], queue[1..], false)
      else
        var (sent, left, ok) := Drain(table, queue[1..], interfaces);
        ((if f.Some? then [f.value] else []) + sent, left, ok)
  }

  /** Draining the queues one after the other. */
  function DrainAll(table: seq<RouteEntry>, queues: seq<seq<Datagram>>, interfaces: nat)
    : (seq<Forwarded>, seq<seq<Datagram>>, bool)
    requires Sound(table)
  {
    if queues == [] then
      ([], [], true)
    else
      var (sent, left, ok) := Drain(table, queues[0], interfaces);
      if !ok then
        (sent, [left] + queues[1..], false)
      else
        var (more, rest, ok') := DrainAll(table, queues[1..], interfaces);
        (sent + more, [left] + rest, ok')
  }

  /** What leaves when every datagram is treated by itself. */
  function ForwardAll(table: seq<RouteEntry>, queue: seq<Datagram>): seq<Forwarded>
    requires Sound(table)
  {
    if queue == [] then []
    else
      var f := Forward(table, queue[0]);
      (if f.Some? then [f.value] else []) + ForwardAll(table, queue[1..])
  }

  lemma {:induction false} ForwardAllConcat(table: seq<RouteEntry>, a: seq<Datagram>, b: seq<Datagram>)
    requires Sound(table)
    ensures ForwardAll(table, a + b) == ForwardAll(table, a) + ForwardAll(table, b)
  {
    if a == [] {
      assert a + b == b;
    } else {
      ForwardAllConcat(table, a[1..], b);
      assert (a + b)[1..] == a[1..] + b && (a + b)[0] == a[0];
      hide Forward;
      var f := Forward(table, a[0]);
      Associative(if f.Some? then [f.value] else [], ForwardAll(table, a[1..]), ForwardAll(table, b));
    }
  }

  /** The routes name existing interfaces only. */
  predicate Grounded(table: seq<RouteEntry>, interfaces: nat) {
    forall r | r in table :: r.interfaceNum < interfaces
  }

  lemma {:induction false} DrainIsComplete(table: seq<RouteEntry>, queue: seq<Datagram>, interfaces: nat)
    requires Sound(table) && Grounded(table, interfaces)
    ensures Drain(table, queue, interfaces) == (ForwardAll(table, queue), [], true)
  {
    if queue != [] {
      var k := ScanIsLongestMatch(table, queue[0].dst);
      DrainIsComplete(table, queue[1..], interfaces);
    }
  }

  /** No datagram is lost or repeated between the queues: when the routes name existing interfaces,
      all queues end up empty, and what leaves is what becomes of each datagram, in order. */
  lemma {:induction false} EachDatagramOnce(table: seq<RouteEntry>, queues: seq<seq<Datagram>>, interfaces: nat)
    requires Sound(table) && Grounded(table, interfaces)
    ensures
      var (sent, left, ok) := DrainAll(table, queues, interfaces);
      && ok && sent == ForwardAll(table, Flatten(queues))
      && |left| == |queues| && forall k | 0 <= k < |left| :: left[k] == []
  {
    if queues != [] {
      DrainIsComplete(table, queues[0], interfaces);
      EachDatagramOnce(table, queues[1..], interfaces);
      ForwardAllConcat(table, queues[0], Flatten(queues[1..]));
    }
  }

  /** The datagram has a hop to live and a route: it leaves as `f`, one hop less to live and otherwise
      unchanged, by the interface of the best route, for that route's next hop, or for its destination
      if the network is attached directly. */
  ghost predicate Leaves(table: seq<RouteEntry>, d: Datagram, f: Forwarded)
    requires Sound(table)
  {
    && d.ttl > 1 && f.datagram.ttl == d.ttl - 1
    && f.datagram.dst == d.dst && f.datagram.payload == d.payload
    && exists k: nat :: IsBest(table, k, d.dst) && Uses(f, table[k], d)
  }

  predicate Uses(f: Forwarded, r: RouteEntry, d: Datagram) {
    && f.interfaceNum == r.interfaceNum
    && (r.nextHop.Some? ==> f.nextHop == r.nextHop.value)
    && (r.nextHop.None? ==> f.nextHop == d.dst)
  }

  /** The datagram has no hop to live, or no route applies to it. */
  predicate Dies(table: seq<RouteEntry>, d: Datagram)
    requires Sound(table)
  {
    d.ttl <= 1 || forall r | r in table :: !Matches(r, d.dst)
  }

  lemma FateOfOne(table: seq<RouteEntry>, d: Datagram)
    requires Sound(table)
    ensures Forward(table, d).None? <==> Dies(table, d)
    ensures Forward(table, d).Some? ==> Leaves(table, d, Forward(table, d).value)
  {
    var k := ScanIsLongestMatch(table, d.dst);
    if Forward(table, d).Some? {
      assert Uses(Forward(table, d).value, table[k], d);
    }
    hide Scan;
  }

  /** What became of a datagram: it left, or it died. */
  ghost predicate Settled(table: seq<RouteEntry>, d: Datagram, fate: Option<Forwarded>, interfaces: nat)
    requires Sound(table)
  {
    if fate.Some? then Leaves(table, d, fate.value) && fate.value.interfaceNum < interfaces else Dies(table, d)
  }

  /** The datagram would leave by an interface that does not exist. */
  ghost predicate Strands(table: seq<RouteEntry>, d: Datagram, interfaces: nat)
    requires Sound(table)
  {
    exists f :: Leaves(table, d, f) && f.interfaceNum >= interfaces
  }

  function Departed(fates: seq<Option<Forwarded>>): seq<Forwarded> {
    if fates == [] then [] else (if fates[0].Some? then [fates[0].value] else []) + Departed(fates[1..])
  }

  lemma {:induction false} DepartedConcat(a: seq<Option<Forwarded>>, b: seq<Option<Forwarded>>)
    ensures Departed(a + b) == Departed(a) + Departed(b)
  {
    if a == [] {
      assert a + b == b;
    } else {
      DepartedConcat(a[1..], b);
      assert (a + b)[1..] == a[1..] + b;
      Associative(if a[0].Some? then [a[0].value] else [], Departed(a[1..]), Departed(b));
    }
  }

  /** Every datagram of `all` has one fate, in order, up to the first that strands, if any: then the
      routing fails, that datagram is lost, and those after it are left. */
  ghost predicate Fates(table: seq<RouteEntry>, all: seq<Datagram>, interfaces: nat,
                        fates: seq<Option<Forwarded>>, left: seq<Datagram>, ok: bool)
    requires Sound(table)
  {
    && |fates| <= |all|
    && (forall i | 0 <= i < |fates| :: Settled(table, all[i], fates[i], interfaces))
    && if ok then |fates| == |all| && left == []
       else |fates| < |all| && Strands(table, all[|fates|], interfaces) && left == all[|fates| + 1..]
  }

  /** First `a` in full, and then `b` as far as it goes. */
  lemma FatesJoin(table: seq<RouteEntry>, a: seq<Datagram>, b: seq<Datagram>, interfaces: nat,
                  fatesA: seq<Option<Forwarded>>, fatesB: seq<Option<Forwarded>>, left: seq<Datagram>, ok: bool)
    requires Sound(table)
    requires Fates(table, a, interfaces, fatesA, [], true) && Fates(table, b, interfaces, fatesB, left, ok)
    ensures Fates(table, a + b, interfaces, fatesA + fatesB, left, ok)
  {
    hide Settled, Strands;
  }

  /** Where the routing has failed, what comes after is left alone. */
  lemma FatesStop(table: seq<RouteEntry>, a: seq<Datagram>, b: seq<Datagram>, interfaces: nat,
                  fates: seq<Option<Forwarded>>, left: seq<Datagram>)
    requires Sound(table) && Fates(table, a, interfaces, fates, left, false)
    ensures Fates(table, a + b, interfaces, fates, left + b, false)
  {
    hide Settled, Strands;
  }

  /** What draining one queue does to its datagrams. */
  lemma {:induction false} FatesOfQueue(table: seq<RouteEntry>, queue: seq<Datagram>, interfaces: nat)
    returns (fates: seq<Option<Forwarded>>)
    requires Sound(table)
    ensures
      var (sent, left, ok) := Drain(table, queue, interfaces);
      Fates(table, queue, interfaces, fates, left, ok) && sent == Departed(fates)
  {
    fates := [];
    if queue != [] {
      var d, f := queue[0], Forward(table, queue[0]);
      FateOfOne(table, d);
      hide Forward, Leaves, Dies;
      if !(f.Some? && f.value.interfaceNum >= interfaces) {
        var rest := FatesOfQueue(table, queue[1..], interfaces);
        fates := [f] + rest;
        assert queue == [d] + queue[1..] && fates[1..] == rest;
        FatesJoin(table, [d], queue[1..], interfaces, [f], rest, Drain(table, queue[1..], interfaces).1,
                  Drain(table, queue[1..], interfaces).2);
      }
    }
  }

  /** Every queue keeps the rest of what it was. */
  ghost predicate Rests(queues: seq<seq<Datagram>>, left: seq<seq<Datagram>>) {
    |left| == |queues| && forall k | 0 <= k < |left| :: IsRest(queues[k], left[k])
  }

  predicate IsRest(queue: seq<Datagram>, left: seq<Datagram>) {
    |left| <= |queue| && left == queue[|queue| - |left|..]
  }

  /** The whole routing, said of the datagrams and not of the program: queue after queue, every datagram
      has its fate, and what is left stays where it was. */
  ghost predicate Routed(table: seq<RouteEntry>, queues: seq<seq<Datagram>>, interfaces: nat,
                         sent: seq<Forwarded>, left: seq<seq<Datagram>>, ok: bool)
    requires Sound(table)
  {
    && Rests(queues, left)
    && exists fates :: Fates(table, Flatten(queues), interfaces, fates, Flatten(left), ok) && sent == Departed(fates)
  }

  lemma {:induction false} FatesOfAll(table: seq<RouteEntry>, queues: seq<seq<Datagram>>, interfaces: nat)
    returns (fates: seq<Option<Forwarded>>)
    requires Sound(table)
    ensures
      var (sent, left, ok) := DrainAll(table, queues, interfaces);
      && Rests(queues, left) && sent == Departed(fates)
      && Fates(table, Flatten(queues), interfaces, fates, Flatten(left), ok)
  {
    fates := [];
    if queues != [] {
      var (sent, left, ok) := Drain(table, queues[0], interfaces);
      fates := FatesOfQueue(table, queues[0], interfaces);
      RestOfQueue(table, queues[0], interfaces, fates, left, ok);
      var rest := Flatten(queues[1..]);
      hide Drain, Fates, Departed, Rests, IsRest;
      if ok {
        var later := FatesOfAll(table, queues[1..], interfaces);
        var (more, left', ok') := DrainAll(table, queues[1..], interfaces);
        FatesJoin(table, queues[0], rest, interfaces, fates, later, Flatten(left'), ok');
        DepartedConcat(fates, later);
        RestsJoin(queues, left, left');
        fates := fates + later;
      } else {
        FatesStop(table, queues[0], rest, interfaces, fates, left);
        RestsStay(queues[1..]);
        RestsJoin(queues, left, queues[1..]);
      }
    }
  }

  lemma RestOfQueue(table: seq<RouteEntry>, queue: seq<Datagram>, interfaces: nat,
                    fates: seq<Option<Forwarded>>, left: seq<Datagram>, ok: bool)
    requires Sound(table) && Fates(table, queue, interfaces, fates, left, ok)
    ensures IsRest(queue, left) && (ok ==> left == [])
  {
    hide Settled, Strands;
  }

  lemma RestsStay(queues: seq<seq<Datagram>>)
    ensures Rests(queues, queues)
  {
  }

  lemma RestsJoin(queues: seq<seq<Datagram>>, left: seq<Datagram>, rest: seq<seq<Datagram>>)
    requires queues != [] && IsRest(queues[0], left) && Rests(queues[1..], rest)
    ensures Rests(queues, [left] + rest) && Flatten([left] + rest) == left + Flatten(rest)
  {
    assert ([left] + rest)[1..] == rest;
  }

  /** Section 5.2.1 of RFC 1812, for every table, all queues and any number of interfaces: draining the
      queues settles the fates of the datagrams. */
  lemma EveryFateIsSettled(table: seq<RouteEntry>, queues: seq<seq<Datagram>>, interfaces: nat)
    requires Sound(table)
    ensures
      var (sent, left, ok) := DrainAll(table, queues, interfaces);
      Routed(table, queues, interfaces, sent, left, ok)
  {
    var fates := FatesOfAll(table, queues, interfaces);
    hide DrainAll, Fates, Departed, Rests;
  }
}
